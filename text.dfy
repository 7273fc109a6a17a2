/**
 * The Python string built-ins the views rely on: substring search (`in`),
 * `str.split(sep)`, `sep.join(...)`, `str.strip()` and an ASCII lower-casing
 * used for case-insensitive matching.
 */
module Text {
  import opened Wrappers

  /** A Python string value is truthy when it is present and not empty. */
  predicate Truthy(s: Option<string>) {
    s.Some? && s.value != []
  }

  /** `pat` occurs in `s` starting at index `i`. */
  predicate OccursAt(s: string, pat: string, i: nat) {
    i + |pat| <= |s| && s[i..i + |pat|] == pat
  }

  /** Index of the first occurrence of `pat` in `s` at or after `i` (Python's `s.find(pat, i)`). */
  function FindFrom(s: string, pat: string, i: nat): (r: Option<nat>)
    requires i <= |s|
    ensures r.Some? ==> i <= r.value && OccursAt(s, pat, r.value)
    decreases |s| - i
  {
    if OccursAt(s, pat, i) then Some(i)
    else if i == |s| then None
    else FindFrom(s, pat, i + 1)
  }

  /** The search finds the first occurrence at or after `i`, and finds nothing only when there is none. */
  lemma {:induction false} FindFromFirst(s: string, pat: string, i: nat)
    requires i <= |s|
    ensures var r := FindFrom(s, pat, i);
      && (r.Some? ==> forall j :: i <= j < r.value ==> !OccursAt(s, pat, j))
      && (r.None? ==> forall j :: i <= j ==> !OccursAt(s, pat, j))
    decreases |s| - i
  {
    if !OccursAt(s, pat, i) && i < |s| {
      FindFromFirst(s, pat, i + 1);
    }
  }

  /** Index of the first occurrence of `pat` in `s`. */
  function Find(s: string, pat: string): (r: Option<nat>)
    ensures r.Some? ==> OccursAt(s, pat, r.value)
  {
    FindFrom(s, pat, 0)
  }

  lemma FindFirst(s: string, pat: string)
    ensures var r := Find(s, pat);
      && (r.Some? ==> forall j :: 0 <= j < r.value ==> !OccursAt(s, pat, j))
      && (r.None? ==> forall j :: 0 <= j ==> !OccursAt(s, pat, j))
  {
    FindFromFirst(s, pat, 0);
  }

  /** Python's `pat in s`. */
  predicate Contains(s: string, pat: string) {
    Find(s, pat).Some?
  }

  lemma ContainsIff(s: string, pat: string)
    ensures Contains(s, pat) <==> exists j :: OccursAt(s, pat, j)
  {
    FindFirst(s, pat);
    if Contains(s, pat) {
      assert OccursAt(s, pat, Find(s, pat).value);
    }
  }

  /** For a one-character pattern, `[c] in s` is `c in s`. */
  lemma ContainsChar(s: string, c: char)
    ensures Contains(s, [c]) <==> c in s
  {
    FindFirst(s, [c]);
    if c in s {
      var j :| 0 <= j < |s| && s[j] == c;
      assert OccursAt(s, [c], j);
    }
    if Contains(s, [c]) {
      var j := Find(s, [c]).value;
      assert s[j..j + 1] == [c];
      assert s[j] == c;
    }
  }

  /** Python's `s.split(sep)` for a non-empty separator: the pieces between non-overlapping occurrences, left to right. */
  function Split(s: string, sep: string): (r: seq<string>)
    requires |sep| > 0
    ensures |r| >= 1
    decreases |s|
  {
    match Find(s, sep)
    case None => [s]
    case Some(i) => [s[..i]] + Split(s[i + |sep|..], sep)
  }

  /** Python's `sep.join(pieces)`. */
  function Join(pieces: seq<string>, sep: string): string
    requires |pieces| >= 1
  {
    if |pieces| == 1 then pieces[0] else pieces[0] + sep + Join(pieces[1..], sep)
  }

  function Last<T>(xs: seq<T>): T
    requires |xs| >= 1
  {
    xs[|xs| - 1]
  }

  /** One step of `Split`: the text before the first occurrence, then the split of the rest. */
  lemma SplitStep(s: string, sep: string, i: nat)
    requires |sep| > 0 && Find(s, sep) == Some(i)
    ensures i + |sep| <= |s|
    ensures Split(s, sep) == [s[..i]] + Split(s[i + |sep|..], sep)
  {
  }

  lemma ConsParts<T>(a: T, xs: seq<T>)
    requires |xs| >= 1
    ensures ([a] + xs)[1..] == xs && Last([a] + xs) == Last(xs)
  {
  }

  lemma JoinCons(a: string, ps: seq<string>, sep: string)
    requires |ps| >= 1
    ensures Join([a] + ps, sep) == a + sep + Join(ps, sep)
  {
    assert ([a] + ps)[1..] == ps;
  }

  lemma JoinSplitStep(s: string, sep: string, i: nat)
    requires |sep| > 0 && Find(s, sep) == Some(i)
    requires Join(Split(s[i + |sep|..], sep), sep) == s[i + |sep|..]
    ensures Join(Split(s, sep), sep) == s
  {
    var rest := s[i + |sep|..];
    SplitStep(s, sep, i);
    JoinCons(s[..i], Split(rest, sep), sep);
    assert s[i..i + |sep|] == sep;
    assert s == s[..i] + s[i..i + |sep|] + rest;
  }

  /** Joining the pieces of a split with the same separator gives back the original string. */
  lemma {:induction false} JoinSplit(s: string, sep: string)
    requires |sep| > 0
    ensures Join(Split(s, sep), sep) == s
    decreases |s|
  {
    var f := Find(s, sep);
    if f.Some? {
      var i := f.value;
      JoinSplit(s[i + |sep|..], sep);
      JoinSplitStep(s, sep, i);
    }
  }

  /** No occurrence of `pat` lies wholly before the first one. */
  lemma NoOccurrenceBefore(s: string, pat: string, i: nat)
    requires |pat| > 0 && i <= |s|
    requires forall j :: 0 <= j < i ==> !OccursAt(s, pat, j)
    ensures !Contains(s[..i], pat)
  {
    forall j: nat ensures !OccursAt(s[..i], pat, j) {
      if j + |pat| <= i {
        assert !OccursAt(s, pat, j);
        assert s[..i][j..j + |pat|] == s[j..j + |pat|];
      }
    }
    ContainsIff(s[..i], pat);
  }

  /** No piece of a split contains the separator. */
  lemma {:induction false} SplitPiecesFree(s: string, sep: string)
    requires |sep| > 0
    ensures forall k :: 0 <= k < |Split(s, sep)| ==> !Contains(Split(s, sep)[k], sep)
    decreases |s|
  {
    var f := Find(s, sep);
    if f.Some? {
      var i := f.value;
      var rest := s[i + |sep|..];
      SplitStep(s, sep, i);
      SplitPiecesFree(rest, sep);
      FindFirst(s, sep);
      NoOccurrenceBefore(s, sep, i);
      var ps := Split(s, sep);
      forall k | 0 <= k < |ps| ensures !Contains(ps[k], sep) {
        if k > 0 { assert ps[k] == Split(rest, sep)[k - 1]; }
      }
    }
  }

  /** `t` is a suffix of `s` that directly follows an occurrence of `sep`. */
  predicate SuffixAfter(s: string, sep: string, t: string) {
    |t| + |sep| <= |s| && t == s[|s| - |t|..] && OccursAt(s, sep, |s| - |t| - |sep|)
  }

  /** Slicing a suffix of `s` is slicing `s` itself, shifted. */
  lemma SliceOfSuffix(s: string, m: nat, a: nat, b: nat)
    requires m <= |s| && a <= b <= |s| - m
    ensures s[m..][a..b] == s[m + a..m + b]
  {
  }

  /** A suffix that follows the occurrence at `i`, or one after it, follows an occurrence in `s`. */
  lemma SuffixShift(s: string, sep: string, i: nat, t: string)
    requires OccursAt(s, sep, i)
    requires t == s[i + |sep|..] || SuffixAfter(s[i + |sep|..], sep, t)
    ensures SuffixAfter(s, sep, t)
  {
    var m := i + |sep|;
    var rest := s[m..];
    if t != rest {
      var p := |rest| - |t| - |sep|;
      SliceOfSuffix(s, m, p, p + |sep|);
      SliceOfSuffix(s, m, |rest| - |t|, |rest|);
    }
  }

  /** Without an occurrence of the separator, a split is the whole string. */
  lemma SplitNone(s: string, sep: string)
    requires |sep| > 0 && !Contains(s, sep)
    ensures Split(s, sep) == [s]
  {
  }

  /** The last piece of a split is the last piece of the split of the text after the first occurrence. */
  lemma SplitLastStep(s: string, sep: string, i: nat)
    requires |sep| > 0 && Find(s, sep) == Some(i)
    ensures i + |sep| <= |s| && Last(Split(s, sep)) == Last(Split(s[i + |sep|..], sep))
  {
    SplitStep(s, sep, i);
    ConsParts(s[..i], Split(s[i + |sep|..], sep));
  }

  lemma {:induction false} SplitLastSuffix(s: string, sep: string)
    requires |sep| > 0
    ensures var t := Last(Split(s, sep));
      && (!Contains(s, sep) ==> t == s)
      && (Contains(s, sep) ==> SuffixAfter(s, sep, t))
    decreases |s|
  {
    if Contains(s, sep) {
      var i := Find(s, sep).value;
      SplitLastStep(s, sep, i);
      SplitLastSuffix(s[i + |sep|..], sep);
      SuffixShift(s, sep, i, Last(Split(s, sep)));
    } else {
      SplitNone(s, sep);
    }
  }

  /**
   * The last piece of a split is the text after the last occurrence of the
   * separator (or the whole string when there is none): it is a suffix of `s`,
   * it is preceded by the separator, and it does not contain the separator.
   */
  lemma SplitLast(s: string, sep: string)
    requires |sep| > 0
    ensures var t := Last(Split(s, sep));
      && !Contains(t, sep)
      && (!Contains(s, sep) ==> t == s)
      && (Contains(s, sep) ==>
            |t| + |sep| <= |s| && t == s[|s| - |t|..] && OccursAt(s, sep, |s| - |t| - |sep|))
  {
    SplitPiecesFree(s, sep);
    var ps := Split(s, sep);
    assert Last(ps) == ps[|ps| - 1];
    SplitLastSuffix(s, sep);
  }

  /**
   * The last character of `pat` appears nowhere else in it, so two
   * occurrences of `pat` can never overlap.
   */
  predicate LastCharUnique(pat: string) {
    |pat| > 0 && forall i :: 0 <= i < |pat| - 1 ==> pat[i] != pat[|pat| - 1]
  }

  /** `p` is the position of the last occurrence of `pat` in `s`. */
  predicate LastOccurrence(s: string, pat: string, p: nat) {
    OccursAt(s, pat, p) && forall q :: p < q <= |s| ==> !OccursAt(s, pat, q)
  }

  /** Two occurrences of a pattern whose last character is unique do not overlap. */
  lemma NoOverlap(s: string, pat: string, p: nat, q: nat)
    requires LastCharUnique(pat) && OccursAt(s, pat, p) && p < q < p + |pat|
    ensures !OccursAt(s, pat, q)
  {
    var n := |pat|;
    var k := p + n - 1 - q;
    assert s[p..p + n][n - 1] == s[p + n - 1];
    assert s[p + n - 1] != pat[k];
    if q + n <= |s| {
      assert s[q..q + n][k] == s[q + k];
    }
  }

  /** A suffix that does not contain the pattern holds no occurrence of it. */
  lemma NoOccurrenceInSuffix(s: string, pat: string, m: nat)
    requires m <= |s| && !Contains(s[m..], pat)
    ensures forall q :: m <= q <= |s| ==> !OccursAt(s, pat, q)
  {
    FindFirst(s[m..], pat);
    forall q | m <= q <= |s| ensures !OccursAt(s, pat, q) {
      assert !OccursAt(s[m..], pat, q - m);
      if q + |pat| <= |s| {
        assert s[m..][q - m..q - m + |pat|] == s[q..q + |pat|];
      }
    }
  }

  /** An occurrence followed by a suffix free of the pattern is the last one, when occurrences cannot overlap. */
  lemma LastOccurrenceBeforeFreeSuffix(s: string, sep: string, t: string)
    requires LastCharUnique(sep) && SuffixAfter(s, sep, t) && !Contains(t, sep)
    ensures LastOccurrence(s, sep, |s| - |t| - |sep|)
  {
    var p := |s| - |t| - |sep|;
    NoOccurrenceInSuffix(s, sep, p + |sep|);
    forall q | p < q < p + |sep| ensures !OccursAt(s, sep, q) {
      NoOverlap(s, sep, p, q);
    }
  }

  /** For a separator whose occurrences cannot overlap, the last piece of a split follows the last occurrence. */
  lemma SplitLastAfterLastOccurrence(s: string, sep: string)
    requires LastCharUnique(sep) && Contains(s, sep)
    ensures var t := Last(Split(s, sep));
      |t| + |sep| <= |s| && LastOccurrence(s, sep, |s| - |t| - |sep|) && t == s[|s| - |t|..]
  {
    SplitLast(s, sep);
    FreeSuffixIsLast(s, sep, Last(Split(s, sep)));
  }

  /** A separator-free suffix that follows an occurrence is the text after the last occurrence. */
  lemma FreeSuffixIsLast(s: string, sep: string, t: string)
    requires LastCharUnique(sep) && SuffixAfter(s, sep, t) && !Contains(t, sep)
    ensures |t| + |sep| <= |s| && LastOccurrence(s, sep, |s| - |t| - |sep|) && t == s[|s| - |t|..]
  {
    LastOccurrenceBeforeFreeSuffix(s, sep, t);
  }

  /** The first piece of a split at a one-character separator is the longest prefix without that character. */
  lemma SplitFirstAtChar(s: string, c: char)
    ensures var f := Split(s, [c])[0];
      |f| <= |s| && f == s[..|f|] && c !in f && (|f| == |s| || s[|f|] == c)
  {
    var f := Split(s, [c])[0];
    match Find(s, [c])
    case None =>
      ContainsChar(s, c);
    case Some(i) =>
      assert f == s[..i];
      FindFirst(s, [c]);
      NoOccurrenceBefore(s, [c], i);
      ContainsChar(s[..i], c);
      assert s[i..i + 1] == [c];
  }

  /** Characters for which Python's `str.isspace()` holds. */
  predicate IsSpace(c: char) {
    || c == ' ' || c == '\t' || c == '\n' || c == '\r' || c == '\U{0B}' || c == '\U{0C}'
    || ('\U{1C}' <= c <= '\U{1F}') || c == '\U{85}' || c == '\U{A0}' || c == '\U{1680}'
    || ('\U{2000}' <= c <= '\U{200A}') || c == '\U{2028}' || c == '\U{2029}'
    || c == '\U{202F}' || c == '\U{205F}' || c == '\U{3000}'
  }

  function StripLeft(s: string): (r: string)
    ensures |r| <= |s| && r == s[|s| - |r|..]
    ensures forall i :: 0 <= i < |s| - |r| ==> IsSpace(s[i])
    ensures r == [] || !IsSpace(r[0])
  {
    if s != [] && IsSpace(s[0]) then
      var r := StripLeft(s[1..]);
      assert forall i :: 1 <= i < |s| ==> s[i] == s[1..][i - 1];
      r
    else s
  }

  function StripRight(s: string): (r: string)
    ensures |r| <= |s| && r == s[..|r|]
    ensures forall i :: |r| <= i < |s| ==> IsSpace(s[i])
    ensures r == [] || !IsSpace(r[|r| - 1])
  {
    if s != [] && IsSpace(s[|s| - 1]) then
      var r := StripRight(s[..|s| - 1]);
      assert forall i :: |r| <= i < |s| - 1 ==> s[i] == s[..|s| - 1][i];
      r
    else s
  }

  /** `r` is the infix of `s` at `i` and only whitespace surrounds it. */
  ghost predicate StrippedAt(s: string, r: string, i: int) {
    && 0 <= i <= |s| - |r| && r == s[i..i + |r|]
    && (forall k :: 0 <= k < i ==> IsSpace(s[k]))
    && (forall k :: i + |r| <= k < |s| ==> IsSpace(s[k]))
  }

  /** Python's `s.strip()`: the longest infix of `s` that starts and ends with a non-space character. */
  function Strip(s: string): (r: string)
    ensures exists i :: StrippedAt(s, r, i)
    ensures r == [] || (!IsSpace(r[0]) && !IsSpace(r[|r| - 1]))
  {
    var l := StripLeft(s);
    var r := StripRight(l);
    StripBothEnds(s, l, r);
    r
  }

  /** Trimming a space-only prefix, then a space-only suffix, leaves an infix surrounded by whitespace. */
  lemma StripBothEnds(s: string, l: string, r: string)
    requires |l| <= |s| && l == s[|s| - |l|..] && forall k :: 0 <= k < |s| - |l| ==> IsSpace(s[k])
    requires |r| <= |l| && r == l[..|r|] && forall k :: |r| <= k < |l| ==> IsSpace(l[k])
    ensures StrippedAt(s, r, |s| - |l|)
  {
    var i := |s| - |l|;
    assert r == s[i..i + |r|];
    forall k | i + |r| <= k < |s| ensures IsSpace(s[k]) {
      assert s[k] == l[k - i];
    }
  }

  /** A string that neither starts nor ends with whitespace is its own strip. */
  lemma StripUnchanged(s: string)
    requires s != [] && !IsSpace(s[0]) && !IsSpace(s[|s| - 1])
    ensures Strip(s) == s
  {
    assert StripLeft(s) == s;
    assert StripRight(s) == s;
  }

  function LowerChar(c: char): char {
    if 'A' <= c <= 'Z' then (c as int + 32) as char else c
  }

  /** ASCII lower-casing: capitals become their small letters, every other character is kept. */
  function Lower(s: string): (r: string)
    ensures |r| == |s|
    ensures forall i :: 0 <= i < |r| ==> !('A' <= r[i] <= 'Z')
    ensures forall i :: 0 <= i < |s| && 'A' <= s[i] <= 'Z' ==> r[i] as int == s[i] as int + 32
    ensures forall i :: 0 <= i < |s| && !('A' <= s[i] <= 'Z') ==> r[i] == s[i]
  {
    seq(|s|, i requires 0 <= i < |s| => LowerChar(s[i]))
  }

  /** Case-insensitive substring test (ASCII letters only). */
  predicate ContainsIgnoreCase(s: string, pat: string) {
    Contains(Lower(s), Lower(pat))
  }

  /** Two characters are equal up to the case of an ASCII letter. */
  predicate EqIgnoringAsciiCase(a: char, b: char) {
    || a == b
    || ('A' <= a <= 'Z' && b as int == a as int + 32)
    || ('A' <= b <= 'Z' && a as int == b as int + 32)
  }

  /** `pat` occurs in `s` at `j` when ASCII case is ignored. */
  predicate OccursIgnoringCaseAt(s: string, pat: string, j: nat) {
    j + |pat| <= |s| && forall k :: 0 <= k < |pat| ==> EqIgnoringAsciiCase(s[j + k], pat[k])
  }

  /** Lower-cased characters agree exactly when the characters are equal up to ASCII case. */
  lemma LowerCharEq(a: char, b: char)
    ensures LowerChar(a) == LowerChar(b) <==> EqIgnoringAsciiCase(a, b)
  {
  }

  lemma OccursLowerIff(s: string, pat: string, j: nat)
    ensures OccursAt(Lower(s), Lower(pat), j) <==> OccursIgnoringCaseAt(s, pat, j)
  {
    var ls, lp := Lower(s), Lower(pat);
    if j + |pat| <= |s| {
      forall k | 0 <= k < |pat|
        ensures ls[j..j + |pat|][k] == lp[k] <==> EqIgnoringAsciiCase(s[j + k], pat[k])
      {
        assert ls[j + k] == LowerChar(s[j + k]) && lp[k] == LowerChar(pat[k]);
        LowerCharEq(s[j + k], pat[k]);
      }
      if OccursIgnoringCaseAt(s, pat, j) {
        assert ls[j..j + |pat|] == lp;
      }
    }
  }

  /** The case-insensitive test holds exactly when the pattern occurs somewhere up to ASCII case (`name__icontains`). */
  lemma ContainsIgnoreCaseIff(s: string, pat: string)
    ensures ContainsIgnoreCase(s, pat) <==> exists j: nat :: OccursIgnoringCaseAt(s, pat, j)
  {
    ContainsIff(Lower(s), Lower(pat));
    if ContainsIgnoreCase(s, pat) {
      var j: nat :| OccursAt(Lower(s), Lower(pat), j);
      OccursLowerIff(s, pat, j);
    }
    if exists j: nat :: OccursIgnoringCaseAt(s, pat, j) {
      var j: nat :| OccursIgnoringCaseAt(s, pat, j);
      OccursLowerIff(s, pat, j);
    }
  }
}
