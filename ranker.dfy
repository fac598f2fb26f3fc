/** `retrieve_context`: the lexical-overlap context ranker.  The query is
    lower-cased and split into a set of words; every document is scored by how
    many of those words occur in its lower-cased `content`; documents scoring
    zero are dropped, the rest are sorted stably by score, highest first, and
    the original texts of the first `top_k` are joined by a blank line, or a
    fixed sentence is returned when none are left. */
module Ranker {
  import opened Builtins
  import opened ScoreSort

  /** A fetched table row: column name to value. */
  type Document = map<string, string>

  const ContentField := "content"
  const Sentinel := "No relevant documents found."
  const Separator := "\n\n"
  const DefaultTopK := 5

  /** `d.get("content", "")`. */
  function Content(d: Document): string {
    if ContentField in d then d[ContentField] else ""
  }

  /** `set(query.lower().split())`. */
  function QueryWords(query: string): (words: set<string>)
    ensures forall w :: w in words ==> |w| > 0 && NoSpace(w)
  {
    set w | w in SplitWhitespace(Lower(query))
  }

  /** Every query word is non-empty, as `str.split()` never yields "". */
  predicate NonEmptyWords(words: set<string>) {
    forall w :: w in words ==> w != ""
  }

  /** `sum(1 for w in words if w in c)`: each distinct word counts once, so a
      score never exceeds the number of distinct query words. */
  function Score(words: set<string>, c: string): (n: nat)
    ensures n <= |words|
  {
    var hits := set w | w in words && Contains(c, w);
    SubsetCard(hits, words);
    |hits|
  }

  /** No query word occurs in empty content, so a document without a
      `content` field scores zero. */
  lemma EmptyContentScoresZero(words: set<string>)
    requires NonEmptyWords(words)
    ensures Score(words, "") == 0
  {
    forall w | w in words ensures !Contains("", w) {
      NothingInEmpty(w);
    }
    assert (set w | w in words && Contains("", w)) == {};
  }

  lemma {:induction false} SubsetCard<T>(a: set<T>, b: set<T>)
    requires a <= b
    ensures |a| <= |b|
    decreases |b|
  {
    if a != {} {
      var x :| x in a;
      SubsetCard(a - {x}, b - {x});
    }
  }

  /** The score of one document: its lower-cased content against the words. */
  function DocScore(words: set<string>, d: Document): nat {
    Score(words, Lower(Content(d)))
  }

  /** The `ranked` list the loop builds: one `(score, d["content"])` entry per
      document that scores above zero, in document order. */
  function Ranked(words: set<string>, docs: seq<Document>): (r: seq<Scored>)
    requires NonEmptyWords(words)
    ensures forall x :: x in r ==> x.score > 0
  {
    if docs == [] then []
    else
      var d := docs[|docs| - 1];
      var score := DocScore(words, d);
      EmptyContentScoresZero(words);
      Ranked(words, docs[..|docs| - 1]) + (if score > 0 then [Scored(score, d[ContentField])] else [])
  }

  /** `ranked[:top_k]` after the sort. */
  function Selected(query: string, docs: seq<Document>, topK: int): seq<Scored> {
    SliceTo(SortByScore(Ranked(QueryWords(query), docs)), topK)
  }

  /** `[t for _, t in ...]`. */
  function Texts(s: seq<Scored>): seq<string> {
    seq(|s|, i requires 0 <= i < |s| => s[i].text)
  }

  /** What `retrieve_context(query, docs, top_k)` returns. */
  function ContextText(query: string, docs: seq<Document>, topK: int): string {
    var top := Selected(query, docs, topK);
    if top == [] then Sentinel else Join(Texts(top), Separator)
  }

  /** `retrieve_context`: builds `ranked` document by document, sorts it in
      place, and joins the texts of its first `topK` entries. */
  method RetrieveContext(query: string, docs: seq<Document>, topK: int := DefaultTopK)
    returns (context: string)
    ensures context == ContextText(query, docs, topK)
  {
    var ranked := RankDocuments(QueryWords(query), docs);
    var sorted := SortRanked(ranked);
    var top := SliceTo(sorted, topK);
    context := if top == [] then Sentinel else Join(Texts(top), Separator);
  }

  /** `ranked.sort(key=lambda x: x[0], reverse=True)`: the list is copied into
      an array and sorted in place there. */
  method SortRanked(ranked: seq<Scored>) returns (sorted: seq<Scored>)
    ensures sorted == SortByScore(ranked)
  {
    var a := new Scored[|ranked|](k requires 0 <= k < |ranked| => ranked[k]);
    assert a[..] == ranked;
    SortInPlace(a);
    sorted := a[..];
  }

  /** The scoring loop of `retrieve_context`: one entry per document with a
      positive score, in document order. */
  method RankDocuments(words: set<string>, docs: seq<Document>) returns (ranked: seq<Scored>)
    requires NonEmptyWords(words)
    ensures ranked == Ranked(words, docs)
  {
    ranked := [];
    var i := 0;
    while i < |docs|
      invariant 0 <= i <= |docs|
      invariant ranked == Ranked(words, docs[..i])
    {
      var d := docs[i];
      var c := Lower(Content(d));
      var score := Score(words, c);
      RankedSnoc(words, docs, i);
      if score > 0 {
        ranked := ranked + [Scored(score, d[ContentField])];
      }
      i := i + 1;
    }
    assert docs[..|docs|] == docs;
  }

  /** One more document extends the ranked list by its entry, if any. */
  lemma RankedSnoc(words: set<string>, docs: seq<Document>, i: nat)
    requires NonEmptyWords(words) && i < |docs|
    ensures var d := docs[i];
      && (DocScore(words, d) > 0 ==> ContentField in d)
      && Ranked(words, docs[..i + 1]) == Ranked(words, docs[..i])
         + (if DocScore(words, d) > 0 then [Scored(DocScore(words, d), d[ContentField])] else [])
  {
    EmptyContentScoresZero(words);
    assert docs[..i + 1][..i] == docs[..i];
  }

  // ---------------------------------------------------------------------------
  // Which documents are ranked

  /** `x` is the entry the loop appends for document `d`. */
  predicate EntryFor(words: set<string>, d: Document, x: Scored) {
    ContentField in d && DocScore(words, d) > 0 && x == Scored(DocScore(words, d), d[ContentField])
  }

  /** The ranked list holds an entry exactly for each document that has a
      `content` field and scores above zero; the text is that field as
      stored, not lower-cased. */
  lemma {:induction false} RankedMembers(words: set<string>, docs: seq<Document>, x: Scored)
    requires NonEmptyWords(words)
    ensures x in Ranked(words, docs) <==> exists j :: 0 <= j < |docs| && EntryFor(words, docs[j], x)
    decreases |docs|
  {
    if docs != [] {
      var init, d := docs[..|docs| - 1], docs[|docs| - 1];
      RankedMembers(words, init, x);
      EmptyContentScoresZero(words);
      if exists j :: 0 <= j < |docs| && EntryFor(words, docs[j], x) {
        var j :| 0 <= j < |docs| && EntryFor(words, docs[j], x);
        if j < |init| {
          assert init[j] == docs[j];
        }
      }
      if exists j :: 0 <= j < |init| && EntryFor(words, init[j], x) {
        var j :| 0 <= j < |init| && EntryFor(words, init[j], x);
        assert docs[j] == init[j];
      }
    }
  }

  lemma {:induction false} RankedConcat(words: set<string>, a: seq<Document>, b: seq<Document>)
    requires NonEmptyWords(words)
    ensures Ranked(words, a + b) == Ranked(words, a) + Ranked(words, b)
    decreases |b|
  {
    if b == [] {
      assert a + b == a;
    } else {
      assert (a + b)[..|a + b| - 1] == a + b[..|b| - 1];
      assert (a + b)[|a + b| - 1] == b[|b| - 1];
      RankedConcat(words, a, b[..|b| - 1]);
    }
  }

  /** A row without a `content` field changes nothing, wherever it stands. */
  lemma ContentlessDocumentIgnored(query: string, a: seq<Document>, d: Document, b: seq<Document>, topK: int)
    requires ContentField !in d
    ensures ContextText(query, a + [d] + b, topK) == ContextText(query, a + b, topK)
  {
    RankedSkipsContentless(QueryWords(query), a, d, b);
  }

  lemma RankedSkipsContentless(words: set<string>, a: seq<Document>, d: Document, b: seq<Document>)
    requires NonEmptyWords(words) && ContentField !in d
    ensures Ranked(words, a + [d] + b) == Ranked(words, a + b)
  {
    RankedConcat(words, a + [d], b);
    RankedConcat(words, a, [d]);
    RankedConcat(words, a, b);
    RankedSingleContentless(words, d);
  }

  lemma RankedSingleContentless(words: set<string>, d: Document)
    requires NonEmptyWords(words) && ContentField !in d
    ensures Ranked(words, [d]) == []
  {
    EmptyContentScoresZero(words);
    assert Lower(Content(d)) == "";
    assert [d][..0] == [];
  }

  /** If no document scores above zero, nothing is ranked. */
  lemma {:induction false} NothingRanked(words: set<string>, docs: seq<Document>)
    requires NonEmptyWords(words)
    requires forall j :: 0 <= j < |docs| ==> DocScore(words, docs[j]) == 0
    ensures Ranked(words, docs) == []
    decreases |docs|
  {
    if docs != [] {
      var init := docs[..|docs| - 1];
      assert forall j :: 0 <= j < |init| ==> init[j] == docs[j];
      NothingRanked(words, init);
    }
  }

  // ---------------------------------------------------------------------------
  // The selected entries and the returned text

  /** When no document contains any query word, the result is exactly the
      fixed sentence. */
  lemma NoMatchGivesSentinel(query: string, docs: seq<Document>, topK: int)
    requires forall j :: 0 <= j < |docs| ==> DocScore(QueryWords(query), docs[j]) == 0
    ensures ContextText(query, docs, topK) == Sentinel
  {
    NothingRanked(QueryWords(query), docs);
  }

  /** With `topK >= 1` and some document containing a query word, at least one
      text is selected and the result is the blank-line join of the selected
      texts, not the fixed sentence. */
  lemma MatchGivesJoinedTexts(query: string, docs: seq<Document>, topK: int, j: int)
    requires topK >= 1 && 0 <= j < |docs|
    requires DocScore(QueryWords(query), docs[j]) > 0
    ensures Selected(query, docs, topK) != []
    ensures ContextText(query, docs, topK) == Join(Texts(Selected(query, docs, topK)), Separator)
  {
    var words := QueryWords(query);
    ScoredHasContent(words, docs[j]);
    var x := Scored(DocScore(words, docs[j]), docs[j][ContentField]);
    RankedMembers(words, docs, x);
    SortPermutes(Ranked(words, docs));
    assert x in multiset(SortByScore(Ranked(words, docs)));
  }

  /** Only a document with a `content` field can score above zero. */
  lemma ScoredHasContent(words: set<string>, d: Document)
    requires NonEmptyWords(words)
    ensures DocScore(words, d) > 0 ==> ContentField in d
  {
    EmptyContentScoresZero(words);
  }

  /** At most `topK` texts are returned (for a non-negative `topK`): exactly
      `min(topK, n)` of them, where `n` is the number of documents ranked. */
  lemma AtMostTopK(query: string, docs: seq<Document>, topK: int)
    requires topK >= 0
    ensures var n := |Ranked(QueryWords(query), docs)|;
      |Texts(Selected(query, docs, topK))| == if topK <= n then topK else n
  {
    SortPermutes(Ranked(QueryWords(query), docs));
    assert |multiset(SortByScore(Ranked(QueryWords(query), docs)))| == |multiset(Ranked(QueryWords(query), docs))|;
  }

  /** Every selected entry is the entry of some document with a `content`
      field and a positive score, so each returned text is a stored
      `content` value, unchanged. */
  lemma SelectedFromDocuments(query: string, docs: seq<Document>, topK: int, i: int)
    requires 0 <= i < |Selected(query, docs, topK)|
    ensures exists j :: 0 <= j < |docs| && EntryFor(QueryWords(query), docs[j], Selected(query, docs, topK)[i])
  {
    var words := QueryWords(query);
    var sorted := SortByScore(Ranked(words, docs));
    var x := Selected(query, docs, topK)[i];
    assert x == sorted[i];
    SortPermutes(Ranked(words, docs));
    assert x in multiset(sorted);
    assert x in Ranked(words, docs);
    RankedMembers(words, docs, x);
  }

  /** The selected entries come in non-increasing score order. */
  lemma SelectedSorted(query: string, docs: seq<Document>, topK: int)
    ensures SortedDesc(Selected(query, docs, topK))
  {
    SortSorted(Ranked(QueryWords(query), docs));
  }

  /** Entries with equal scores keep document order: for each score, the
      selected entries with it are a prefix of the ranked entries with it. */
  lemma SelectedStable(query: string, docs: seq<Document>, topK: int, k: nat)
    ensures WithScore(Selected(query, docs, topK), k) <= WithScore(Ranked(QueryWords(query), docs), k)
  {
    var ranked := Ranked(QueryWords(query), docs);
    var sorted := SortByScore(ranked);
    var top := Selected(query, docs, topK);
    assert sorted == top + sorted[|top|..];
    SortStable(ranked, k);
    WithScoreConcat(top, sorted[|top|..], k);
  }

  /** No entry left out of the selection scores above a selected one. */
  lemma SelectedAreTop(query: string, docs: seq<Document>, topK: int, x: Scored, y: Scored)
    requires x in multiset(Ranked(QueryWords(query), docs)) - multiset(Selected(query, docs, topK))
    requires y in Selected(query, docs, topK)
    ensures y.score >= x.score
  {
    var ranked := Ranked(QueryWords(query), docs);
    var sorted := SortByScore(ranked);
    SortSorted(ranked);
    SortPermutes(ranked);
    PrefixOfSortedIsTop(sorted, |Selected(query, docs, topK)|, x, y);
  }

  lemma PrefixOfSortedIsTop(sorted: seq<Scored>, p: nat, x: Scored, y: Scored)
    requires SortedDesc(sorted) && p <= |sorted|
    requires x in multiset(sorted) - multiset(sorted[..p])
    requires y in sorted[..p]
    ensures y.score >= x.score
  {
    var top, rest := sorted[..p], sorted[p..];
    assert sorted == top + rest;
    assert multiset(sorted) == multiset(top) + multiset(rest);
    assert x in multiset(rest);
    var m :| 0 <= m < |rest| && rest[m] == x;
    var n :| 0 <= n < |top| && top[n] == y;
    assert sorted[n] == y && sorted[p + m] == x;
  }

  // ---------------------------------------------------------------------------
  // Case and repetition in the query

  /** Matching ignores case on the query side: the result for the query is the
      result for its lower-cased and for its upper-cased form. */
  lemma QueryCaseInsensitive(query: string, docs: seq<Document>, topK: int)
    ensures ContextText(Lower(query), docs, topK) == ContextText(query, docs, topK)
    ensures ContextText(Upper(query), docs, topK) == ContextText(query, docs, topK)
  {
    LowerIdempotent(query);
    LowerOfUpper(query);
    assert QueryWords(Lower(query)) == QueryWords(query);
    assert QueryWords(Upper(query)) == QueryWords(query);
  }

  /** Matching ignores case on the document side: upper- or lower-casing a
      document's content leaves its score unchanged. */
  lemma ContentCaseInsensitive(words: set<string>, d: Document)
    requires ContentField in d
    ensures DocScore(words, d[ContentField := Upper(d[ContentField])]) == DocScore(words, d)
    ensures DocScore(words, d[ContentField := Lower(d[ContentField])]) == DocScore(words, d)
  {
    LowerOfUpper(d[ContentField]);
    LowerIdempotent(d[ContentField]);
  }

  /** Repeating a word of the query does not change the word set, so it never
      counts twice and the result is the same. */
  lemma RepeatedQueryWord(query: string, w: string, docs: seq<Document>, topK: int)
    requires w in SplitWhitespace(Lower(query))
    ensures QueryWords(query + " " + w) == QueryWords(query)
    ensures ContextText(query + " " + w, docs, topK) == ContextText(query, docs, topK)
  {
    SplitWithWord(query, w);
    SameWordSet(SplitWhitespace(Lower(query)), w);
  }

  /** The words of `query + " " + w`, for a word `w` of the query, are the
      query's words followed by `w`. */
  lemma SplitWithWord(query: string, w: string)
    requires w in SplitWhitespace(Lower(query))
    ensures SplitWhitespace(Lower(query + " " + w)) == SplitWhitespace(Lower(query)) + [w]
  {
    var lq := Lower(query);
    LowerHasNoUpper(query);
    SplitKeepsNoUpper(lq);
    LowerWithWord(query, w);
    SplitAtSpace(lq, ' ', w);
    SplitSingleWord(w);
  }

  /** Appending a word already present does not change the word set. */
  lemma SameWordSet(ws: seq<string>, w: string)
    requires w in ws
    ensures (set v | v in ws + [w]) == (set v | v in ws)
  {
  }

  /** Lower-casing `query + " " + w` for a word `w` that is already
      lower-case. */
  lemma LowerWithWord(query: string, w: string)
    requires NoUpper(w)
    ensures Lower(query + " " + w) == Lower(query) + [' '] + w
  {
    LowerIdempotent(w);
    LowerConcat(query + " ", w);
    LowerConcat(query, " ");
    assert Lower(" ") == " ";
  }

  /** Two documents and the one-word query `cat`: only the document
      containing `cat` is retrieved. */
  lemma CatExample()
    ensures ContextText("cat", [map[ContentField := "the cat sat"], map[ContentField := "a dog ran"]], DefaultTopK)
            == "the cat sat"
  {
    var x := Scored(1, "the cat sat");
    CatRanked(map[ContentField := "the cat sat"], map[ContentField := "a dog ran"]);
    assert SortByScore([x]) == [x] by {
      assert [x][..0] == [];
    }
  }

  lemma CatRanked(d0: Document, d1: Document)
    requires d0 == map[ContentField := "the cat sat"] && d1 == map[ContentField := "a dog ran"]
    ensures Ranked(QueryWords("cat"), [d0, d1]) == [Scored(1, "the cat sat")]
  {
    var docs := [d0, d1];
    var words := QueryWords("cat");
    CatWords();
    CatScores(d0, d1);
    assert docs[..1] == [d0];
    assert [d0][..0] == [];
    calc {
      Ranked(words, docs);
      Ranked(words, [d0]) + [];
      Ranked(words, []) + [Scored(1, d0[ContentField])];
      [Scored(1, "the cat sat")];
    }
  }

  lemma CatWords()
    ensures QueryWords("cat") == {"cat"}
  {
    assert Lower("cat") == "cat";
    SplitSingleWord("cat");
  }

  lemma CatScores(d0: Document, d1: Document)
    requires d0 == map[ContentField := "the cat sat"] && d1 == map[ContentField := "a dog ran"]
    ensures DocScore({"cat"}, d0) == 1 && DocScore({"cat"}, d1) == 0
  {
    assert Lower("the cat sat") == "the cat sat";
    assert Lower("a dog ran") == "a dog ran";
    CatInFirst();
    CatNotInSecond();
    ScoreOneWord("cat", "the cat sat");
    ScoreOneWord("cat", "a dog ran");
  }

  lemma ScoreOneWord(w: string, c: string)
    ensures Score({w}, c) == if Contains(c, w) then 1 else 0
  {
    if Contains(c, w) {
      assert (set v | v in {w} && Contains(c, v)) == {w};
    } else {
      assert (set v | v in {w} && Contains(c, v)) == {};
    }
  }

  lemma CatInFirst()
    ensures Contains("the cat sat", "cat")
  {
    assert "the cat sat" == "the " + "cat" + " sat";
    ContainsMiddle("the ", "cat", " sat");
  }

  /** A string contains every piece of it. */
  lemma ContainsMiddle(a: string, w: string, b: string)
    ensures Contains(a + w + b, w)
  {
    var s := a + w + b;
    assert s[|a|..|a| + |w|] == w;
    assert OccursAt(s, w, |a|);
    ContainsIff(s, w);
  }

  lemma CatNotInSecond()
    ensures !Contains("a dog ran", "cat")
  {
    var s := "a dog ran";
    ContainsIff(s, "cat");
    assert forall j :: 0 <= j < |s| ==> s[j] != 'c';
    forall i ensures !OccursAt(s, "cat", i) {
      if 0 <= i && i + 3 <= |s| {
        assert s[i..i + 3][0] == s[i];
      }
    }
  }
}
