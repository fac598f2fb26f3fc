/** The `ranked.sort(reverse=True, key=lambda x: x[0])` step of the ranker:
    a stable sort of (score, text) pairs by score, highest first.  The sort is
    specified by the functional insertion sort `SortByScore`, which is proved
    to be a permutation, to be ordered, to be stable, and to be the only
    ordering with those properties, so it agrees with Python's stable sort.
    `SortInPlace` performs it on an array and is proved equal to it. */
module ScoreSort {

  /** One `(score, text)` tuple of the ranked list. */
  datatype Scored = Scored(score: nat, text: string)

  /** Scores never increase from left to right. */
  predicate SortedDesc(s: seq<Scored>) {
    forall i, j :: 0 <= i < j < |s| ==> s[i].score >= s[j].score
  }

  /** The entries of `s` whose score is `k`, in their order in `s`. */
  function WithScore(s: seq<Scored>, k: nat): (r: seq<Scored>)
    ensures forall x :: x in r ==> x in s && x.score == k
  {
    if s == [] then [] else (if s[0].score == k then [s[0]] else []) + WithScore(s[1..], k)
  }

  /** Inserts `x` after every entry of `t` whose score is at least its own,
      scanning from the right end. */
  function Insert(t: seq<Scored>, x: Scored): seq<Scored>
    decreases |t|
  {
    if t == [] then [x]
    else if t[|t| - 1].score >= x.score then t + [x]
    else Insert(t[..|t| - 1], x) + [t[|t| - 1]]
  }

  /** Stable sort by score, highest first. */
  function SortByScore(s: seq<Scored>): seq<Scored>
  {
    if s == [] then [] else Insert(SortByScore(s[..|s| - 1]), s[|s| - 1])
  }

  // ---------------------------------------------------------------------------
  // The sort is a permutation

  lemma {:induction false} InsertPermutes(t: seq<Scored>, x: Scored)
    ensures multiset(Insert(t, x)) == multiset(t) + multiset{x}
    decreases |t|
  {
    if t != [] && t[|t| - 1].score < x.score {
      var init, last := t[..|t| - 1], t[|t| - 1];
      assert t == init + [last];
      InsertPermutes(init, x);
    }
  }

  /** The sorted list holds exactly the entries of the input, with their
      multiplicities. */
  lemma {:induction false} SortPermutes(s: seq<Scored>)
    ensures multiset(SortByScore(s)) == multiset(s)
    decreases |s|
  {
    if s != [] {
      var init, last := s[..|s| - 1], s[|s| - 1];
      assert s == init + [last];
      SortPermutes(init);
      InsertPermutes(SortByScore(init), last);
    }
  }

  // ---------------------------------------------------------------------------
  // Insertion keeps the order

  lemma {:induction false} InsertSorted(t: seq<Scored>, x: Scored)
    requires SortedDesc(t)
    ensures SortedDesc(Insert(t, x))
    decreases |t|
  {
    if t != [] && t[|t| - 1].score < x.score {
      var init, last := t[..|t| - 1], t[|t| - 1];
      InsertSorted(init, x);
      InsertAbove(init, x, last);
      SortedSnoc(Insert(init, x), last);
    }
  }

  /** Every entry of `Insert(t, x)` scores at least `last` when `x` and every
      entry of `t` do. */
  lemma InsertAbove(t: seq<Scored>, x: Scored, last: Scored)
    requires x.score >= last.score
    requires forall i :: 0 <= i < |t| ==> t[i].score >= last.score
    ensures forall y :: y in Insert(t, x) ==> y.score >= last.score
  {
    InsertPermutes(t, x);
    forall y | y in Insert(t, x) ensures y.score >= last.score {
      assert y in multiset(Insert(t, x));
      if y != x {
        assert y in multiset(t);
        var i :| 0 <= i < |t| && t[i] == y;
      }
    }
  }

  /** Appending an entry that scores no higher than any entry keeps the
      order. */
  lemma SortedSnoc(r: seq<Scored>, last: Scored)
    requires SortedDesc(r)
    requires forall y :: y in r ==> y.score >= last.score
    ensures SortedDesc(r + [last])
  {
    assert forall i :: 0 <= i < |r| ==> r[i] in r;
  }

  /** The sort yields scores in non-increasing order. */
  lemma {:induction false} SortSorted(s: seq<Scored>)
    ensures SortedDesc(SortByScore(s))
    decreases |s|
  {
    if s != [] {
      SortSorted(s[..|s| - 1]);
      InsertSorted(SortByScore(s[..|s| - 1]), s[|s| - 1]);
    }
  }

  // ---------------------------------------------------------------------------
  // Stability

  lemma WithScoreSingle(x: Scored, k: nat)
    ensures WithScore([x], k) == if x.score == k then [x] else []
  {
    assert [x][1..] == [];
  }

  lemma {:induction false} WithScoreConcat(a: seq<Scored>, b: seq<Scored>, k: nat)
    ensures WithScore(a + b, k) == WithScore(a, k) + WithScore(b, k)
    decreases |a|
  {
    if a == [] {
      assert a + b == b;
    } else {
      var h := if a[0].score == k then [a[0]] else [];
      assert (a + b)[0] == a[0];
      assert (a + b)[1..] == a[1..] + b;
      calc {
        WithScore(a + b, k);
        h + WithScore(a[1..] + b, k);
        { WithScoreConcat(a[1..], b, k); }
        h + (WithScore(a[1..], k) + WithScore(b, k));
        { ConcatAssoc(h, WithScore(a[1..], k), WithScore(b, k)); }
        (h + WithScore(a[1..], k)) + WithScore(b, k);
        WithScore(a, k) + WithScore(b, k);
      }
    }
  }

  lemma ConcatAssoc<T>(a: seq<T>, b: seq<T>, c: seq<T>)
    ensures a + (b + c) == (a + b) + c
  {
  }

  lemma {:induction false} InsertStable(t: seq<Scored>, x: Scored, k: nat)
    ensures WithScore(Insert(t, x), k) == WithScore(t, k) + WithScore([x], k)
    decreases |t|
  {
    if t == [] {
    } else if t[|t| - 1].score >= x.score {
      WithScoreConcat(t, [x], k);
    } else {
      InsertStableShift(t, x, k);
    }
  }

  lemma {:induction false} InsertStableShift(t: seq<Scored>, x: Scored, k: nat)
    requires t != [] && t[|t| - 1].score < x.score
    ensures WithScore(Insert(t, x), k) == WithScore(t, k) + WithScore([x], k)
    decreases |t|, 0
  {
    var init, last := t[..|t| - 1], t[|t| - 1];
    var xs, ls := WithScore([x], k), WithScore([last], k);
    assert Insert(t, x) == Insert(init, x) + [last];
    calc {
      WithScore(Insert(t, x), k);
      { WithScoreConcat(Insert(init, x), [last], k); }
      WithScore(Insert(init, x), k) + ls;
      { InsertStable(init, x, k); }
      WithScore(init, k) + xs + ls;
      { WithScoreSingle(x, k); WithScoreSingle(last, k); }
      WithScore(init, k) + ls + xs;
      { WithScoreConcat(init, [last], k); assert init + [last] == t; }
      WithScore(t, k) + xs;
    }
  }

  /** Entries with equal scores keep their relative order: for every score,
      the sorted list and the input list hold the same entries in the same
      order. */
  lemma {:induction false} SortStable(s: seq<Scored>, k: nat)
    ensures WithScore(SortByScore(s), k) == WithScore(s, k)
    decreases |s|
  {
    if s != [] {
      var init, last := s[..|s| - 1], s[|s| - 1];
      assert s == init + [last];
      SortStable(init, k);
      InsertStable(SortByScore(init), last, k);
      WithScoreConcat(init, [last], k);
    }
  }

  // ---------------------------------------------------------------------------
  // Uniqueness: any stable descending order of `s` is `SortByScore(s)`

  lemma WithScoreHead(s: seq<Scored>)
    requires s != []
    ensures WithScore(s, s[0].score) != [] && WithScore(s, s[0].score)[0] == s[0]
  {
  }

  lemma {:induction false} SortedPrefixUnique(r1: seq<Scored>, r2: seq<Scored>)
    requires SortedDesc(r1) && SortedDesc(r2)
    requires forall k: nat :: WithScore(r1, k) == WithScore(r2, k)
    ensures r1 == r2
    decreases |r1|
  {
    if r1 == [] || r2 == [] {
      if r1 != [] {
        WithScoreHead(r1);
        assert false;
      }
      if r2 != [] {
        WithScoreHead(r2);
        assert false;
      }
    } else {
      HeadsAgree(r1, r2);
      TailsAgree(r1, r2);
      SortedPrefixUnique(r1[1..], r2[1..]);
      assert r1 == [r1[0]] + r1[1..];
      assert r2 == [r2[0]] + r2[1..];
    }
  }

  /** Two non-increasing lists with the same entries per score start with the
      same entry: each head has the highest score of both lists. */
  lemma HeadsAgree(r1: seq<Scored>, r2: seq<Scored>)
    requires r1 != [] && r2 != []
    requires SortedDesc(r1) && SortedDesc(r2)
    requires forall k: nat :: WithScore(r1, k) == WithScore(r2, k)
    ensures r1[0] == r2[0]
  {
    var a, b := r1[0], r2[0];
    WithScoreHead(r1);
    WithScoreHead(r2);
    var y := WithScore(r2, a.score)[0];
    assert y in WithScore(r2, a.score);
    var i :| 0 <= i < |r2| && r2[i] == y;
    assert b.score >= a.score;
    var z := WithScore(r1, b.score)[0];
    assert z in WithScore(r1, b.score);
    var j :| 0 <= j < |r1| && r1[j] == z;
    assert a.score >= b.score;
  }

  /** Dropping a common head keeps the entries per score equal. */
  lemma TailsAgree(r1: seq<Scored>, r2: seq<Scored>)
    requires r1 != [] && r2 != [] && r1[0] == r2[0]
    requires forall k: nat :: WithScore(r1, k) == WithScore(r2, k)
    ensures forall k: nat :: WithScore(r1[1..], k) == WithScore(r2[1..], k)
  {
    var a := r1[0];
    forall k: nat ensures WithScore(r1[1..], k) == WithScore(r2[1..], k) {
      var h := if a.score == k then [a] else [];
      assert WithScore(r1, k) == h + WithScore(r1[1..], k);
      assert WithScore(r2, k) == h + WithScore(r2[1..], k);
      assert WithScore(r1[1..], k) == WithScore(r1, k)[|h|..];
      assert WithScore(r2[1..], k) == WithScore(r2, k)[|h|..];
    }
  }

  /** `SortByScore` is the only ordering of `s` that is non-increasing and
      keeps equal scores in input order; every stable descending sort by
      score, Python's included, therefore yields it. */
  lemma SortUnique(s: seq<Scored>, r: seq<Scored>)
    requires SortedDesc(r)
    requires forall k: nat :: WithScore(r, k) == WithScore(s, k)
    ensures r == SortByScore(s)
  {
    SortSorted(s);
    forall k: nat ensures WithScore(r, k) == WithScore(SortByScore(s), k) {
      SortStable(s, k);
    }
    SortedPrefixUnique(r, SortByScore(s));
  }

  // ---------------------------------------------------------------------------
  // The in-place sort

  /** When every entry of `t` from index `j` on scores below `x`, and the entry
      before `j` (if any) does not, `x` lands at index `j`. */
  lemma {:induction false} InsertAt(t: seq<Scored>, x: Scored, j: nat)
    requires j <= |t|
    requires forall m :: j <= m < |t| ==> t[m].score < x.score
    requires j > 0 ==> t[j - 1].score >= x.score
    ensures Insert(t, x) == t[..j] + [x] + t[j..]
    decreases |t|
  {
    if j < |t| {
      var init := t[..|t| - 1];
      InsertAt(init, x, j);
      assert init[..j] == t[..j];
      assert t[j..] == init[j..] + [t[|t| - 1]];
    } else {
      assert t[..j] == t;
    }
  }

  /** Stable insertion sort of `a` by score, highest first, in place. */
  method SortInPlace(a: array<Scored>)
    modifies a
    ensures a[..] == SortByScore(old(a[..]))
  {
    ghost var s := a[..];
    var i := 0;
    while i < a.Length
      invariant 0 <= i <= a.Length
      invariant a[..i] == SortByScore(s[..i])
      invariant forall m :: i <= m < a.Length ==> a[m] == s[m]
    {
      InsertInPlace(a, i);
      assert s[..i + 1] == s[..i] + [s[i]];
      i := i + 1;
    }
    assert s[..a.Length] == s;
    assert a[..a.Length] == a[..];
  }

  /** One pass of the insertion sort: moves `a[i]` leftwards past the entries
      that score below it, leaving `a[i + 1..]` alone. */
  method InsertInPlace(a: array<Scored>, i: nat)
    requires i < a.Length
    modifies a
    ensures a[..i + 1] == Insert(old(a[..i]), old(a[i]))
    ensures forall m :: i < m < a.Length ==> a[m] == old(a[m])
  {
    var key := a[i];
    ghost var t := a[..i];
    var j := i;
    while j > 0 && a[j - 1].score < key.score
      invariant 0 <= j <= i
      invariant forall m :: 0 <= m < j ==> a[m] == t[m]
      invariant forall m :: j < m <= i ==> a[m] == t[m - 1]
      invariant forall m :: j <= m < i ==> t[m].score < key.score
      invariant forall m :: i < m < a.Length ==> a[m] == old(a[m])
    {
      a[j] := a[j - 1];
      j := j - 1;
    }
    a[j] := key;
    ghost var r := a[..i + 1];
    assert forall m :: 0 <= m < j ==> r[m] == t[m];
    assert forall m :: j < m <= i ==> r[m] == t[m - 1];
    assert r[j] == key;
    Placed(r, t, key, j);
    InsertAt(t, key, j);
    assert t == old(a[..i]);
  }

  /** The shape the in-place insertion leaves behind. */
  lemma Placed(r: seq<Scored>, t: seq<Scored>, x: Scored, j: nat)
    requires |r| == |t| + 1 && j <= |t|
    requires forall m :: 0 <= m < j ==> r[m] == t[m]
    requires r[j] == x
    requires forall m :: j < m < |r| ==> r[m] == t[m - 1]
    ensures r == t[..j] + [x] + t[j..]
  {
  }
}
