/** Models of the Python built-ins that the ranker and the prompt composer
    rely on: `str.lower`/`str.upper` (ASCII letters only), `str.split()` with
    no argument, the substring test `w in s`, `sep.join(xs)`, `s.split(c)` for
    one character, and slicing `s[:stop]` / `s[start:]` with bounds that may be
    negative.  Strings are sequences of Unicode scalar values. */
module Builtins {

  // ---------------------------------------------------------------------------
  // Case mapping

  predicate IsUpper(c: char) { 'A' <= c <= 'Z' }

  predicate IsLower(c: char) { 'a' <= c <= 'z' }

  function LowerChar(c: char): char {
    if IsUpper(c) then (c as int + 32) as char else c
  }

  function UpperChar(c: char): char {
    if IsLower(c) then (c as int - 32) as char else c
  }

  /** `s.lower()` restricted to the ASCII letters. */
  function Lower(s: string): string {
    seq(|s|, i requires 0 <= i < |s| => LowerChar(s[i]))
  }

  /** `s.upper()` restricted to the ASCII letters. */
  function Upper(s: string): string {
    seq(|s|, i requires 0 <= i < |s| => UpperChar(s[i]))
  }

  /** No upper-case ASCII letter occurs in `s`. */
  predicate NoUpper(s: string) {
    forall i :: 0 <= i < |s| ==> !IsUpper(s[i])
  }

  lemma LowerHasNoUpper(s: string)
    ensures NoUpper(Lower(s))
  {
  }

  /** Lower-casing leaves a string without upper-case letters unchanged, so
      lower-casing twice is lower-casing once. */
  lemma LowerIdempotent(s: string)
    ensures NoUpper(s) ==> Lower(s) == s
    ensures Lower(Lower(s)) == Lower(s)
  {
    if NoUpper(s) {
      assert forall i :: 0 <= i < |s| ==> Lower(s)[i] == s[i];
    }
    assert forall i :: 0 <= i < |s| ==> Lower(Lower(s))[i] == Lower(s)[i];
  }

  /** Upper-casing before lower-casing makes no difference. */
  lemma LowerOfUpper(s: string)
    ensures Lower(Upper(s)) == Lower(s)
  {
    assert forall i :: 0 <= i < |s| ==> Lower(Upper(s))[i] == Lower(s)[i];
  }

  lemma LowerConcat(a: string, b: string)
    ensures Lower(a + b) == Lower(a) + Lower(b)
  {
    assert forall i :: 0 <= i < |a + b| ==> Lower(a + b)[i] == (Lower(a) + Lower(b))[i];
  }

  // ---------------------------------------------------------------------------
  // str.split() with no argument

  /** The characters for which Python's `str.isspace()` holds; `str.split()`
      with no argument splits on runs of them. */
  predicate IsSpace(c: char) {
    || ('\t' <= c <= '\r')
    || ('\U{1C}' <= c <= ' ')
    || c == '\U{85}' || c == '\U{A0}' || c == '\U{1680}'
    || ('\U{2000}' <= c <= '\U{200A}')
    || c == '\U{2028}' || c == '\U{2029}' || c == '\U{202F}'
    || c == '\U{205F}' || c == '\U{3000}'
  }

  predicate NoSpace(s: string) {
    forall i :: 0 <= i < |s| ==> !IsSpace(s[i])
  }

  /** Length of the longest prefix of `s` that holds no white space. */
  function WordLength(s: string): (k: nat)
    ensures k <= |s|
    ensures NoSpace(s[..k])
    ensures k < |s| ==> IsSpace(s[k])
  {
    if s == [] || IsSpace(s[0]) then 0 else 1 + WordLength(s[1..])
  }

  /** `s.split()`: the maximal runs of non-white-space characters, in order. */
  function SplitWhitespace(s: string): (words: seq<string>)
    ensures forall w :: w in words ==> |w| > 0 && NoSpace(w)
    decreases |s|
  {
    if s == [] then []
    else if IsSpace(s[0]) then SplitWhitespace(s[1..])
    else
      var k := WordLength(s);
      [s[..k]] + SplitWhitespace(s[k..])
  }

  /** A non-empty string without white space splits into itself. */
  lemma SplitSingleWord(w: string)
    requires |w| > 0 && NoSpace(w)
    ensures SplitWhitespace(w) == [w]
  {
    WordLengthOfWord(w);
    assert w[..|w|] == w;
    assert w[|w|..] == [];
  }

  lemma {:induction false} WordLengthOfWord(w: string)
    requires NoSpace(w)
    ensures WordLength(w) == |w|
    decreases |w|
  {
    if w != [] {
      WordLengthOfWord(w[1..]);
    }
  }

  /** Words never straddle a white-space character: splitting `a + [c] + b`
      with `c` white space gives the words of `a` followed by those of `b`. */
  lemma {:induction false} SplitAtSpace(a: string, c: char, b: string)
    requires IsSpace(c)
    ensures SplitWhitespace(a + [c] + b) == SplitWhitespace(a) + SplitWhitespace(b)
    decreases |a|
  {
    var s := a + [c] + b;
    if a == [] {
      assert s == [c] + b;
      assert s[1..] == b;
    } else if IsSpace(a[0]) {
      assert s[0] == a[0];
      assert s[1..] == a[1..] + [c] + b;
      SplitAtSpace(a[1..], c, b);
    } else {
      SplitAtSpaceWord(a, c, b);
    }
  }

  lemma {:induction false} SplitAtSpaceWord(a: string, c: char, b: string)
    requires IsSpace(c) && a != [] && !IsSpace(a[0])
    ensures SplitWhitespace(a + [c] + b) == SplitWhitespace(a) + SplitWhitespace(b)
    decreases |a|, 0
  {
    var k := WordLength(a);
    assert k >= 1 by {
      assert WordLength(a) == 1 + WordLength(a[1..]);
    }
    SplitAtSpace(a[k..], c, b);
    SplitAfterWord(a, c, b, k);
  }

  /** Assembles the split of `a + [c] + b` from its first word and the split
      of what follows that word. */
  lemma SplitAfterWord(a: string, c: char, b: string, k: nat)
    requires IsSpace(c) && a != [] && !IsSpace(a[0]) && k == WordLength(a)
    requires SplitWhitespace(a[k..] + [c] + b) == SplitWhitespace(a[k..]) + SplitWhitespace(b)
    ensures SplitWhitespace(a + [c] + b) == SplitWhitespace(a) + SplitWhitespace(b)
  {
    var s := a + [c] + b;
    var w, rest := a[..k], a[k..];
    WordFollowedBy(a, c, b, k);
    SplitLeadingWord(s, k);
    SplitLeadingWord(a, k);
    Regroup(SplitWhitespace(s), SplitWhitespace(a), w, SplitWhitespace(rest), SplitWhitespace(b));
  }

  lemma Regroup<T>(st: seq<T>, sa: seq<T>, x: T, p: seq<T>, q: seq<T>)
    requires st == [x] + (p + q) && sa == [x] + p
    ensures st == sa + q
  {
  }

  /** The first word of `a + [c] + b` is the first word of `a`, and what
      follows it is the rest of `a` followed by `[c] + b`. */
  lemma WordFollowedBy(a: string, c: char, b: string, k: nat)
    requires IsSpace(c) && k == WordLength(a)
    ensures var s := a + [c] + b;
      WordLength(s) == k && s[..k] == a[..k] && s[k..] == a[k..] + [c] + b
  {
    WordLengthPrefix(a, c, b);
    ConcatSlices(a, [c] + b, k);
    assert a + [c] + b == a + ([c] + b);
  }

  /** Slicing a concatenation inside its first part. */
  lemma ConcatSlices(a: string, t: string, k: nat)
    requires k <= |a|
    ensures (a + t)[..k] == a[..k] && (a + t)[k..] == a[k..] + t
  {
  }

  lemma SplitLeadingWord(s: string, k: nat)
    requires s != [] && !IsSpace(s[0]) && k == WordLength(s)
    ensures SplitWhitespace(s) == [s[..k]] + SplitWhitespace(s[k..])
  {
  }

  lemma {:induction false} WordLengthPrefix(a: string, c: char, b: string)
    requires IsSpace(c)
    ensures WordLength(a + [c] + b) == WordLength(a)
    decreases |a|
  {
    var s := a + [c] + b;
    if a != [] && !IsSpace(a[0]) {
      assert s[1..] == a[1..] + [c] + b;
      WordLengthPrefix(a[1..], c, b);
    }
  }

  /** Every word of a string without upper-case letters has none either. */
  lemma {:induction false} SplitKeepsNoUpper(s: string)
    requires NoUpper(s)
    ensures forall w :: w in SplitWhitespace(s) ==> NoUpper(w)
    decreases |s|
  {
    if s != [] {
      if IsSpace(s[0]) {
        SplitKeepsNoUpper(s[1..]);
      } else {
        var k := WordLength(s);
        SplitKeepsNoUpper(s[k..]);
      }
    }
  }

  // ---------------------------------------------------------------------------
  // The substring test `w in s`

  /** `w` occurs in `s` starting at index `i`. */
  predicate OccursAt(s: string, w: string, i: int) {
    0 <= i && i + |w| <= |s| && s[i..i + |w|] == w
  }

  /** Python's `w in s` on strings. */
  predicate Contains(s: string, w: string)
    decreases |s|
  {
    |w| <= |s| && (s[..|w|] == w || Contains(s[1..], w))
  }

  /** `Contains` holds exactly when `w` occurs at some index of `s`. */
  lemma {:induction false} ContainsIff(s: string, w: string)
    ensures Contains(s, w) <==> exists i :: OccursAt(s, w, i)
    decreases |s|
  {
    if |w| <= |s| {
      if s[..|w|] == w {
        assert OccursAt(s, w, 0);
      } else {
        ContainsIff(s[1..], w);
        if Contains(s[1..], w) {
          var i :| OccursAt(s[1..], w, i);
          assert s[i + 1..i + 1 + |w|] == s[1..][i..i + |w|];
          assert OccursAt(s, w, i + 1);
        }
        if exists i :: OccursAt(s, w, i) {
          var i :| OccursAt(s, w, i);
          assert i != 0;
          assert s[1..][i - 1..i - 1 + |w|] == s[i..i + |w|];
          assert OccursAt(s[1..], w, i - 1);
        }
      }
    } else {
      forall i ensures !OccursAt(s, w, i) {
      }
    }
  }

  /** No non-empty string occurs in the empty string. */
  lemma NothingInEmpty(w: string)
    requires |w| > 0
    ensures !Contains("", w)
  {
  }

  // ---------------------------------------------------------------------------
  // sep.join(xs) and s.split(c)

  /** `sep.join(xs)`. */
  function Join(xs: seq<string>, sep: string): string {
    if |xs| == 0 then ""
    else if |xs| == 1 then xs[0]
    else xs[0] + sep + Join(xs[1..], sep)
  }

  /** Joining one more string appends the separator and that string. */
  lemma {:induction false} JoinSnoc(xs: seq<string>, x: string, sep: string)
    requires xs != []
    ensures Join(xs + [x], sep) == Join(xs, sep) + sep + x
    decreases |xs|
  {
    if |xs| == 1 {
      assert (xs + [x])[1..] == [x];
    } else {
      assert (xs + [x])[1..] == xs[1..] + [x];
      JoinSnoc(xs[1..], x, sep);
    }
  }

  /** Joining ends with the last string joined. */
  lemma JoinEndsWithLast(xs: seq<string>, sep: string)
    requires xs != []
    ensures EndsWith(Join(xs, sep), xs[|xs| - 1])
  {
    if |xs| > 1 {
      var init := xs[..|xs| - 1];
      assert xs == init + [xs[|xs| - 1]];
      JoinSnoc(init, xs[|xs| - 1], sep);
    }
  }

  /** `s.endswith(suffix)`. */
  predicate EndsWith(s: string, suffix: string) {
    |suffix| <= |s| && s[|s| - |suffix|..] == suffix
  }

  /** Index of the first `c` in `s`, or `|s|` when there is none. */
  function IndexOf(s: string, c: char): (i: nat)
    ensures i <= |s|
    ensures forall j :: 0 <= j < i ==> s[j] != c
    ensures i < |s| ==> s[i] == c
  {
    if s == [] then 0 else if s[0] == c then 0 else 1 + IndexOf(s[1..], c)
  }

  /** `s.split(c)` for a one-character separator: always at least one piece. */
  function SplitOn(s: string, c: char): (pieces: seq<string>)
    ensures |pieces| >= 1
    ensures forall p :: p in pieces ==> c !in p
    decreases |s|
  {
    var i := IndexOf(s, c);
    if i == |s| then [s] else [s[..i]] + SplitOn(s[i + 1..], c)
  }

  /** Splitting a joined sequence on its separator gives the sequence back,
      provided no element holds the separator. */
  lemma {:induction false} SplitJoin(xs: seq<string>, c: char)
    requires |xs| >= 1
    requires forall x :: x in xs ==> c !in x
    ensures SplitOn(Join(xs, [c]), c) == xs
    decreases |xs|
  {
    if |xs| == 1 {
      assert xs[0] in xs;
      assert IndexOf(xs[0], c) == |xs[0]|;
    } else {
      var x, rest := xs[0], Join(xs[1..], [c]);
      assert x in xs;
      assert Join(xs, [c]) == x + [c] + rest;
      SplitOnFirst(x, c, rest);
      SplitJoin(xs[1..], c);
      assert xs == [x] + xs[1..];
    }
  }

  /** The first piece of `s.split(c)` is everything before the first `c`. */
  lemma SplitOnFirst(x: string, c: char, rest: string)
    requires c !in x
    ensures SplitOn(x + [c] + rest, c) == [x] + SplitOn(rest, c)
  {
    var s := x + [c] + rest;
    assert forall j :: 0 <= j < |x| ==> s[j] == x[j];
    assert s[|x|] == c;
    assert IndexOf(s, c) == |x|;
    assert s[..|x|] == x;
    assert s[|x| + 1..] == rest;
  }

  // ---------------------------------------------------------------------------
  // Slicing

  /** Python's normalisation of a slice bound `i` for a sequence of length
      `n`: a negative bound counts from the end, and the result is clamped
      to `0..n`. */
  function SliceBound(n: nat, i: int): (b: nat)
    ensures b <= n
    ensures i >= 0 ==> b == if i <= n then i else n
    ensures i < 0 ==> b == if n + i >= 0 then n + i else 0
  {
    if i < 0 then (if n + i < 0 then 0 else n + i)
    else if i > n then n else i
  }

  /** `s[:stop]`. */
  function SliceTo<T>(s: seq<T>, stop: int): (r: seq<T>)
    ensures |r| == SliceBound(|s|, stop) && r == s[..|r|]
  {
    s[..SliceBound(|s|, stop)]
  }

  /** `s[start:]`. */
  function SliceFrom<T>(s: seq<T>, start: int): (r: seq<T>)
    ensures |r| == |s| - SliceBound(|s|, start) && r == s[|s| - |r|..]
  {
    s[SliceBound(|s|, start)..]
  }

  /** `s[:k] + s[k:] == s` for every bound `k`. */
  lemma SliceSplit<T>(s: seq<T>, k: int)
    ensures SliceTo(s, k) + SliceFrom(s, k) == s
  {
    var b := SliceBound(|s|, k);
    assert s[..b] + s[b..] == s;
  }
}
