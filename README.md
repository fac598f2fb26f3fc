# Memory RAG agent: context ranking and prompt composition in Dafny

This project models the logic at the centre of a small retrieval-augmented
chat application (`app.py`). A user's question goes through two steps before
it reaches a hosted language model:

1. **Context ranking (`retrieve_context`).** The query is lower-cased and
   split on white space into a *set* of words. Each fetched document gets a
   score: the number of those words that occur, as substrings, in its
   lower-cased `content`. Documents that score zero are dropped. The rest are
   sorted stably by score, highest first. The untouched `content` texts of the
   first `top_k` (default 5) are joined with a blank line (`"\n\n"`). When
   nothing is left, the result is the fixed sentence
   `No relevant documents found.`
2. **Prompt composition (`generate_chat_response`, up to the model call).**
   The last `memory_length` messages of the conversation are kept. The
   sidebar slider limits `memory_length` to 3..12, with 6 as the default.
   Each kept message is rendered as `ROLE: content`, with the role
   upper-cased, and the lines are joined with newlines. The block is placed
   in a fixed template together with the context and the query. The
   template ends with `USER: <query>` and an open `ASSISTANT:` turn.

The session's message log is modelled as a class. It starts empty. A chat
turn appends the user message and then the assistant reply. The
"Clear Chat History" button empties it.

Files and modules:

- `builtins.dfy` (`Builtins`): models of the Python built-ins that `app.py`
  calls. These are `str.lower`/`str.upper`, `str.split()` (splitting on
  Python's white-space characters), the substring test `w in s`, `sep.join`,
  and Python slicing with negative bounds. The module also defines
  one-character `s.split(c)` (`SplitOn`) and `s.endswith` (`EndsWith`).
  `app.py` calls neither of them. They only serve to state properties of the
  prompt, in `BlockLines`, `PromptLayout` and `CurrentQueryInBlock`.
- `score_sort.dfy` (`ScoreSort`): the `(score, text)` entries and the stable
  descending sort. It contains a functional specification (`SortByScore`)
  and an in-place insertion sort on an array (`SortInPlace`) proved equal to
  it.
- `ranker.dfy` (`Ranker`): `RetrieveContext`, a method with the source's
  loop, proved equal to the specification function `ContextText`, plus the
  lemmas about `ContextText`.
- `prompt.dfy` (`Prompt`): the history window, message rendering, the
  template and the composed prompt, all as functions, plus lemmas.
- `conversation.dfy` (`Conversation`): the message log class.

Three details of `retrieve_context` that the model keeps exactly:

- When nothing matches, the result is `No relevant documents found.`
  (capital N, final period).
- Only the `content` field of a row is read.
- `top_k` defaults to 5.

One consequence of the code, proved as `Prompt.CurrentQueryInBlock`: the
model is called (app.py:163) after the user message has been appended
(app.py:156). The history block therefore already ends with
`USER: <query>`, so the query appears twice in the prompt.

## Model

| member | source | states |
|---|---|---|
| `Builtins.Lower` | app.py:102 | `s.lower()` on ASCII letters, character by character; characterised by `LowerHasNoUpper`, `LowerIdempotent` and `LowerOfUpper` |
| `Builtins.Upper` | app.py:118 | `s.upper()` on ASCII letters, character by character; `UpperKeepsNewlines` and `RenderRoles` state what the prompt needs of it |
| `Builtins.LowerIdempotent` | app.py:102 | lower-casing leaves a string with no upper-case letter unchanged, and lower-casing twice equals lower-casing once |
| `Builtins.LowerOfUpper` | app.py:102 | lower-casing an upper-cased string equals lower-casing the original, so the case of ASCII letters never affects what is matched |
| `Builtins.LowerHasNoUpper` | app.py:102 | a lower-cased string contains no upper-case letter |
| `Builtins.SplitWhitespace` | app.py:102 | `str.split()` gives only non-empty words, and none of them contains a white-space character |
| `Builtins.SplitAtSpace` | app.py:102 | splitting `a + c + b`, with `c` a white-space character, gives the words of `a` followed by the words of `b` (no word crosses white space) |
| `Builtins.SplitSingleWord` | app.py:102 | a non-empty string with no white space splits into exactly itself |
| `Builtins.SplitKeepsNoUpper` | app.py:102 | the words of a string with no upper-case letter contain none either |
| `Builtins.Contains` | app.py:107 | `w in s` as a prefix test at each position of `s`; `ContainsIff` proves it equal to "occurs at some index" |
| `Builtins.ContainsIff` | app.py:107 | `w in s` holds exactly when `w` occurs in `s` at some index (both directions) |
| `Builtins.NothingInEmpty` | app.py:106 | no non-empty word occurs in the empty string (the `""` default for a missing field) |
| `Builtins.Join` | app.py:113 | `sep.join(xs)`: `""` for no strings, the string itself for one, otherwise the strings with `sep` between neighbours; `JoinSnoc`, `JoinEndsWithLast` and `SplitJoin` characterise it |
| `Builtins.JoinSnoc` | app.py:118 | joining one more string appends the separator and then that string |
| `Builtins.JoinEndsWithLast` | app.py:118 | a join of a non-empty list ends with its last element |
| `Builtins.SplitJoin` | app.py:118 | splitting a newline-join on `"\n"` gives back the joined list when no element contains a newline (round trip), for a non-empty list (`"\n".join([]).split("\n")` is `[""]`) |
| `Builtins.SliceTo` | app.py:112 | `s[:stop]` is the prefix of `s` whose length is the Python-normalised bound: a negative `stop` counts from the end and the bound is clamped to `0..len(s)` |
| `Builtins.SliceFrom` | app.py:117 | `s[start:]` is the suffix of `s` that starts at the Python-normalised bound |
| `Builtins.SliceSplit` | app.py:112 | for every bound `k`, negative or beyond the end, `s[:k] + s[k:] == s` |
| `ScoreSort.SortByScore` | app.py:111 | the stable descending sort by score, as a functional insertion sort; `SortPermutes`, `SortSorted`, `SortStable` and `SortUnique` characterise it |
| `ScoreSort.SortInPlace` | app.py:111 | the in-place insertion sort leaves the array equal to `SortByScore` of its old contents |
| `ScoreSort.InsertInPlace` | app.py:111 | one pass of the in-place sort: the first `i + 1` cells become the functional insertion of the old `a[i]` into the old `a[..i]`, and the cells after `i` are unchanged |
| `ScoreSort.SortPermutes` | app.py:111 | the sorted list is a permutation of the input (equal multisets) |
| `ScoreSort.SortSorted` | app.py:111 | the sorted list's scores never increase (`reverse=True`) |
| `ScoreSort.SortStable` | app.py:111 | for every score, the sorted list holds the entries with that score in input order (the sort is stable even with `reverse=True`) |
| `ScoreSort.SortUnique` | app.py:111 | any non-increasing ordering that keeps equal scores in input order equals `SortByScore`, so every stable descending key sort gives the same list |
| `Ranker.QueryWords` | app.py:102 | the query word set contains only non-empty, white-space-free words |
| `Ranker.Content` | app.py:106 | `d.get("content", "")`: the `content` value when the row has one, otherwise `""`; `EmptyContentScoresZero` and `ContentlessDocumentIgnored` show the default never ranks |
| `Ranker.Score` | app.py:107 | a score counts each distinct query word at most once, so it never exceeds the number of distinct words |
| `Ranker.DocScore` | app.py:106-107 | a row's score: the `Score` of the query words against its lower-cased content; `ContentCaseInsensitive` shows the case of ASCII letters in the content does not matter |
| `Ranker.EmptyContentScoresZero` | app.py:106 | empty content, the default for a row without `content`, scores 0 |
| `Ranker.Ranked` | app.py:105-109 | every entry the loop appends has a positive score |
| `Ranker.Selected` | app.py:111-112 | `ranked[:top_k]` after the sort; `SelectedSorted`, `SelectedStable`, `SelectedAreTop`, `SelectedFromDocuments` and `AtMostTopK` characterise it |
| `Ranker.Texts` | app.py:112 | `[t for _, t in ...]`: the texts of the selected entries, in order |
| `Ranker.ContextText` | app.py:111-113 | the value `retrieve_context` returns: the fixed sentence when nothing is selected, otherwise the blank-line join of the selected texts; `NoMatchGivesSentinel` and `MatchGivesJoinedTexts` give both cases |
| `Ranker.RetrieveContext` | app.py:101-113 | the loop, the in-place sort, the `top_k` slice and the join return `ContextText(query, docs, topK)` |
| `Ranker.RankDocuments` | app.py:103-109 | the scoring loop returns `Ranked(words, docs)`: one `(score, content)` entry for each document that scores above zero, in document order |
| `Ranker.SortRanked` | app.py:111 | sorting the ranked list in place yields `SortByScore` of it: the stable, highest-first order |
| `Ranker.RankedMembers` | app.py:105-109 | an entry is ranked exactly when some document has a `content` field and a positive score, with that score and its unchanged `content` as the text (both directions) |
| `Ranker.ContentlessDocumentIgnored` | app.py:106-109 | inserting a row without `content` anywhere in the documents leaves the result unchanged |
| `Ranker.NoMatchGivesSentinel` | app.py:113 | if no document contains any query word, the result is exactly `No relevant documents found.` |
| `Ranker.MatchGivesJoinedTexts` | app.py:112-113 | if some document matches and `top_k >= 1`, the selection is non-empty and the result is the blank-line join of the selected texts |
| `Ranker.AtMostTopK` | app.py:112 | for `top_k >= 0`, exactly `min(top_k, n)` texts are returned, where `n` is the number of matching documents |
| `Ranker.SelectedFromDocuments` | app.py:109-112 | each selected entry comes from a document with a `content` field and a positive score, and its text is that field's original (not lower-cased) value |
| `Ranker.SelectedSorted` | app.py:111-112 | the selected entries come in non-increasing score order |
| `Ranker.SelectedStable` | app.py:111-112 | for every score, the selected entries with it are a prefix of the ranked entries with it, so equal scores keep document order |
| `Ranker.SelectedAreTop` | app.py:111-112 | no ranked entry left out of the selection scores higher than a selected one |
| `Ranker.QueryCaseInsensitive` | app.py:102 | the result for a query equals the result for its lower-cased and for its upper-cased form (case mapping of ASCII letters) |
| `Ranker.ContentCaseInsensitive` | app.py:106 | upper- or lower-casing a document's content (ASCII letters) leaves its score unchanged |
| `Ranker.RepeatedQueryWord` | app.py:102 | appending a word the query already contains leaves the word set and the result unchanged |
| `Ranker.CatExample` | app.py:101-113 | for documents "the cat sat" and "a dog ran", the query "cat" returns "the cat sat" |
| `Prompt.HistoryWindow` | app.py:117 | `history[-n:]` is, for `n >= 1`, the last `min(n, len(history))` messages, which is the whole history when it is shorter; for `n == 0` it is the whole history |
| `Prompt.Render` | app.py:118 | one line `ROLE: content`: the upper-cased role, `": "`, then the content unchanged; `RenderRoles` gives the two roles the log holds |
| `Prompt.RenderAll` | app.py:118 | the comprehension over the window: one rendered line per message, in order |
| `Prompt.HistoryBlock` | app.py:117-118 | `conversation_block`: the rendered window joined with newlines; `EmptyBlock`, `BlockLines` and `CurrentQueryInBlock` characterise it |
| `Prompt.RenderRoles` | app.py:118 | a `user` message renders as `USER: content` and an `assistant` message as `ASSISTANT: content` |
| `Prompt.EmptyBlock` | app.py:117-118 | an empty history gives an empty history block |
| `Prompt.EmptyHistory` | app.py:120-132 | with an empty history, the prompt is the template with an empty history block |
| `Prompt.UpperKeepsNewlines` | app.py:118 | upper-casing a role neither adds nor removes a newline |
| `Prompt.BlockLines` | app.py:118 | if no role or content contains a newline, the block splits on newlines into exactly the rendered window messages, in order, for a non-empty history (an empty one is `EmptyBlock`) |
| `Prompt.Template` | app.py:120-132 | the f-string: preamble, history block, context heading, context, blank line and `USER: `, query, then `\nASSISTANT:` |
| `Prompt.ComposePrompt` | app.py:116-132 | the prompt `generate_chat_response` sends: the template filled with the history block of the last `memory_length` messages; `PromptLayout` and `EmptyHistory` characterise it |
| `Prompt.PromptLayout` | app.py:120-132 | the prompt starts with the fixed preamble, then the history block, then the context verbatim, and ends with `USER: <query>` and `ASSISTANT:` |
| `Prompt.CurrentQueryInBlock` | app.py:156-163 | with the current user message appended to the history, the history block ends with `USER: <query>` |
| `Conversation.ConversationLog.constructor` | app.py:15-16 | a new session log is empty |
| `Conversation.ConversationLog.AppendUser` | app.py:156 | appends exactly one `user` message holding the prompt, keeps the rest, and keeps every role `user` or `assistant` |
| `Conversation.ConversationLog.AppendAssistant` | app.py:165 | appends exactly one `assistant` message holding the reply and keeps the rest |
| `Conversation.ConversationLog.Clear` | app.py:24-25 | clearing leaves the log empty |
| `Conversation.ValidLogLines` | app.py:118 | every line of a valid log's history block is `USER: <content>` or `ASSISTANT: <content>` for the message it renders |

## Left out

- Streamlit page setup, sidebar widgets, chat rendering, spinners, expanders,
  `st.rerun` and `st.stop` (app.py:7, 19-26, 48-66, 142-171) are user-interface
  glue with no logic. Only the slider's 3..12 range (type `MemoryLength`) and
  the clear button's effect (`ConversationLog.Clear`) are kept.
- Reading credentials from environment variables and both definitions of
  `initialize_clients` (app.py:10-13, 29-44, 72-89) only build foreign
  clients from configuration.
- `fetch_documents` (app.py:92-98) is a network call to the table store. The
  documents are a parameter of `RetrieveContext`, and an empty sequence
  stands for a failed fetch.
- The model call `model.generate_content` and its error-string fallback
  (app.py:134-138) are a remote call. The model stops at the composed
  prompt.
- The top-level turn driver (app.py:144-168) uses names it never defines and
  is not modelled. Its two appends are the class methods `AppendUser` and
  `AppendAssistant`. Since the turn itself is not modelled, "N turns give a
  log of 2N messages" holds only through those methods' one-message-each
  postconditions.
- Lower: models `str.lower` for ASCII letters only. Python also maps other
  Unicode letters, and a few of them to more than one character.
- Upper: models `str.upper` for ASCII letters only. The roles the
  application writes are ASCII, so the rendered role names are exact.
- Row values are modelled as strings. A non-string `content` value
  (`None`, say) would make `.lower()` raise in the source. The model has no
  such value.
- `ScoreSort.SortInPlace`: Python's `list.sort` is a library routine
  (Timsort), and the model uses insertion sort instead. `ScoreSort.SortUnique` proves the
  two give the same list: it shows any stable descending sort by score
  yields `SortByScore`.
- The order in which Python iterates over the query word set is not
  modelled. The score is the size of a set, which does not depend on it.
- `app.py` ranks lexically only. It has no embedding-based ranking.
- `app.py:92`, `app.py:101` and `app.py:116` annotate with `List[Dict]`, but
  `List` and `Dict` are never imported. Before Python 3.14, annotations are
  evaluated when the `def` runs, so these names would raise `NameError`
  before `retrieve_context` could be called. This is an observation about
  the source, not executed. It does not affect the model, which
  treats the annotations as types.
