/** The prompt built by `generate_chat_response`: the last `memory_length`
    messages of the history, one `ROLE: content` line each, embedded with the
    retrieved context and the query in a fixed template.  The call to the
    language model that follows is not part of this module. */
module Prompt {
  import opened Builtins

  /** One entry of the message log: `{"role": ..., "content": ...}`. */
  datatype Message = Message(role: string, content: string)

  const MinMemoryLength := 3
  const MaxMemoryLength := 12
  const DefaultMemoryLength := 6

  /** The values the "Memory length" slider can take. */
  type MemoryLength = n: int | MinMemoryLength <= n <= MaxMemoryLength witness DefaultMemoryLength

  /** `history[-n:]`, with Python's slice semantics for every `n`: for a
      positive `n` the last `min(n, |history|)` messages; for `n == 0` the
      whole history, since `-0 == 0`. */
  function HistoryWindow(history: seq<Message>, n: int): (w: seq<Message>)
    ensures n >= 1 ==> |w| == (if n <= |history| then n else |history|)
    ensures n >= 1 ==> w == history[|history| - |w|..]
    ensures n == 0 ==> w == history
  {
    SliceFrom(history, -n)
  }

  /** `f"{m['role'].upper()}: {m['content']}"`. */
  function Render(m: Message): string {
    Upper(m.role) + ": " + m.content
  }

  /** The comprehension `[f"..." for m in ms]`. */
  function RenderAll(ms: seq<Message>): seq<string> {
    seq(|ms|, i requires 0 <= i < |ms| => Render(ms[i]))
  }

  /** `conversation_block`: the rendered window, newline-joined. */
  function HistoryBlock(history: seq<Message>, n: int): string {
    Join(RenderAll(HistoryWindow(history, n)), "\n")
  }

  /** The fixed text before the history block. */
  const Preamble :=
    "\nYou are a helpful AI assistant with memory and retrieval. Always use:\n"
    + "1\U{FE0F}\U{20E3} The conversation history  \n"
    + "2\U{FE0F}\U{20E3} Retrieved database context  \n"
    + "\n"
    + "Conversation history:\n"

  /** The fixed text between the history block and the context. */
  const ContextHeading := "\n\nRetrieved Context:\n"

  /** The tag that opens the final user turn. */
  const UserTag := "USER: "

  /** The fixed text between the context and the query. */
  const QueryHeading := "\n\n" + UserTag

  /** The fixed text after the query: the open assistant turn. */
  const AnswerCue := "\nASSISTANT:"

  /** The f-string template, filled with a history block, a context and a
      query. */
  function Template(block: string, context: string, query: string): string {
    Preamble + block + ContextHeading + context + QueryHeading + query + AnswerCue
  }

  /** The prompt `generate_chat_response` sends to the model. */
  function ComposePrompt(query: string, context: string, history: seq<Message>, n: MemoryLength): string {
    Template(HistoryBlock(history, n), context, query)
  }

  // ---------------------------------------------------------------------------
  // Properties

  /** The two roles the log holds render as `USER: ` and `ASSISTANT: `. */
  lemma RenderRoles(c: string)
    ensures Render(Message("user", c)) == "USER: " + c
    ensures Render(Message("assistant", c)) == "ASSISTANT: " + c
  {
    assert Upper("user") == "USER";
    assert Upper("assistant") == "ASSISTANT";
  }

  /** An empty history gives an empty block. */
  lemma EmptyBlock(n: MemoryLength)
    ensures HistoryBlock([], n) == ""
  {
    var w := HistoryWindow([], n);
    assert |w| == 0;
    assert |RenderAll(w)| == 0;
  }

  /** With an empty history the prompt is the template with no history line
      at all. */
  lemma EmptyHistory(query: string, context: string, n: MemoryLength)
    ensures ComposePrompt(query, context, [], n) == Template("", context, query)
  {
    EmptyBlock(n);
  }

  /** Upper-casing neither creates nor removes a newline. */
  lemma UpperKeepsNewlines(s: string)
    ensures '\n' in Upper(s) <==> '\n' in s
  {
    if '\n' in s {
      var i :| 0 <= i < |s| && s[i] == '\n';
      assert Upper(s)[i] == '\n';
    }
    if '\n' in Upper(s) {
      var i :| 0 <= i < |Upper(s)| && Upper(s)[i] == '\n';
      assert s[i] == '\n';
    }
  }

  /** When neither roles nor contents hold a newline, the block splits on
      newlines into exactly one `ROLE: content` line per message of the
      window, in order. */
  lemma BlockLines(history: seq<Message>, n: MemoryLength)
    requires history != []
    requires forall m :: m in history ==> '\n' !in m.role && '\n' !in m.content
    ensures SplitOn(HistoryBlock(history, n), '\n') == RenderAll(HistoryWindow(history, n))
  {
    var w := HistoryWindow(history, n);
    var lines := RenderAll(w);
    forall x | x in lines ensures '\n' !in x {
      var i :| 0 <= i < |lines| && lines[i] == x;
      assert w[i] in history;
      UpperKeepsNewlines(w[i].role);
      assert x == Upper(w[i].role) + ": " + w[i].content;
    }
    SplitJoin(lines, '\n');
  }

  /** The prompt is the preamble, then the history block, then the context
      verbatim, and it ends with `USER: <query>` followed by the open
      `ASSISTANT:` turn. */
  lemma PromptLayout(query: string, context: string, history: seq<Message>, n: MemoryLength)
    ensures var p, b := ComposePrompt(query, context, history, n), HistoryBlock(history, n);
      var c0 := |Preamble| + |b| + |ContextHeading|;
      && p[..|Preamble|] == Preamble
      && p[|Preamble|..|Preamble| + |b|] == b
      && p[c0..c0 + |context|] == context
      && EndsWith(p, UserTag + query + AnswerCue)
  {
    Layout(Preamble, HistoryBlock(history, n), ContextHeading, context, "\n\n", UserTag, query, AnswerCue);
  }

  /** Where each piece of a concatenation sits. */
  lemma Layout(a: string, b: string, c: string, d: string, e: string, f: string, g: string, h: string)
    ensures var p := a + b + c + d + (e + f) + g + h;
      var d0 := |a| + |b| + |c|;
      && p[..|a|] == a
      && p[|a|..|a| + |b|] == b
      && p[d0..d0 + |d|] == d
      && EndsWith(p, f + g + h)
  {
    var p := a + b + c + d + (e + f) + g + h;
    assert p == (a + b + c) + d + e + (f + g + h);
    assert p == a + (b + c + d + e + f + g + h);
    assert p == (a + b) + (c + d + e + f + g + h);
  }

  /** Where `generate_chat_response` is called (app.py:163) the history
      already ends with the user message for the current query, so the
      block's last line is `USER: <query>` and the query appears in the
      prompt twice. */
  lemma CurrentQueryInBlock(history: seq<Message>, query: string, n: MemoryLength)
    ensures EndsWith(HistoryBlock(history + [Message("user", query)], n), "USER: " + query)
  {
    var h := history + [Message("user", query)];
    var w := HistoryWindow(h, n);
    var lines := RenderAll(w);
    assert w[|w| - 1] == Message("user", query);
    RenderRoles(query);
    assert lines[|lines| - 1] == "USER: " + query;
    JoinEndsWithLast(lines, "\n");
  }
}
