/**
 * The few Python string operations the extractor relies on, stated over
 * `string` (a sequence of Unicode scalar values):
 *   - `str.strip()` with no argument, which removes leading and trailing
 *     characters for which `str.isspace()` holds;
 *   - `str.split(sep)` with a one-character separator;
 *   - `str.endswith(suffix)`.
 */
module Text {

  /** Python's `str.isspace()` for one character: the code points the interpreter treats as whitespace. */
  predicate IsSpace(c: char) {
    ('\t' <= c <= '\r') || ('\U{1C}' <= c <= ' ') || c == '\U{85}' || c == '\U{A0}' || c == '\U{1680}'
    || ('\U{2000}' <= c <= '\U{200A}') || c == '\U{2028}' || c == '\U{2029}' || c == '\U{202F}'
    || c == '\U{205F}' || c == '\U{3000}'
  }

  predicate AllSpace(s: string) {
    forall k :: 0 <= k < |s| ==> IsSpace(s[k])
  }

  /** A string that `strip()` leaves as it is: no whitespace at either end. */
  predicate IsStripped(s: string) {
    s == [] || (!IsSpace(s[0]) && !IsSpace(s[|s| - 1]))
  }

  /** `r` is `s` with only whitespace removed in front of it (the first `i` characters) and behind it. */
  ghost predicate StripCandidate(s: string, r: string, i: int) {
    && IsStripped(r)
    && 0 <= i <= |s| - |r|
    && s[i..i + |r|] == r
    && AllSpace(s[..i])
    && AllSpace(s[i + |r|..])
  }

  /** Python's `s.lstrip()`: the whitespace at the front removed. */
  function StripLeading(s: string): (r: string)
    ensures |r| <= |s|
    ensures r == [] || !IsSpace(r[0])
  {
    if s != [] && IsSpace(s[0]) then StripLeading(s[1..]) else s
  }

  /** Python's `s.rstrip()`: the whitespace at the back removed. */
  function StripTrailing(s: string): (r: string)
    ensures |r| <= |s|
    ensures r == [] || !IsSpace(r[|r| - 1])
    ensures r != [] ==> r[0] == s[0]
  {
    if s != [] && IsSpace(s[|s| - 1]) then StripTrailing(s[..|s| - 1]) else s
  }

  /** Python's `s.strip()`: no whitespace left at either end. */
  function Strip(s: string): (r: string)
    ensures IsStripped(r)
    ensures |r| <= |s|
  {
    StripTrailing(StripLeading(s))
  }

  /** `lstrip()` removes a whitespace-only prefix and keeps the rest. */
  lemma {:induction false} StripLeadingShape(s: string)
    ensures StripLeading(s) == s[|s| - |StripLeading(s)|..]
    ensures AllSpace(s[..|s| - |StripLeading(s)|])
  {
    if s != [] && IsSpace(s[0]) {
      StripLeadingShape(s[1..]);
      var n := |s| - |StripLeading(s)|;
      assert s[1..][n - 1..] == s[n..];
      forall k | 0 <= k < n
        ensures IsSpace(s[..n][k])
      {
        if k > 0 { assert s[..n][k] == s[1..][..n - 1][k - 1]; }
      }
    } else {
      assert s[0..] == s;
    }
  }

  /** `rstrip()` removes a whitespace-only suffix and keeps the rest. */
  lemma {:induction false} StripTrailingShape(s: string)
    ensures StripTrailing(s) == s[..|StripTrailing(s)|]
    ensures AllSpace(s[|StripTrailing(s)|..])
  {
    if s != [] && IsSpace(s[|s| - 1]) {
      var t := s[..|s| - 1];
      StripTrailingShape(t);
      var m := |StripTrailing(s)|;
      assert t[..m] == s[..m];
      forall k | 0 <= k < |s| - m
        ensures IsSpace(s[m..][k])
      {
        if m + k < |s| - 1 { assert s[m..][k] == t[m..][k]; }
      }
    } else {
      assert s[..|s|] == s;
    }
  }

  /** What `strip()` computes: the input with only whitespace removed at its two ends. */
  lemma StripIsCandidate(s: string)
    ensures StripCandidate(s, Strip(s), |s| - |StripLeading(s)|)
  {
    var left := StripLeading(s);
    var i := |s| - |left|;
    StripLeadingShape(s);
    StripTrailingShape(left);
    var r := StripTrailing(left);
    assert s[i..i + |r|] == left[..|r|];
    assert s[i + |r|..] == left[|r|..];
  }

  /** `strip()` introduces no character. */
  lemma StripKeepsAbsent(s: string, x: char)
    requires x !in s
    ensures x !in Strip(s)
  {
    StripIsCandidate(s);
    var i := |s| - |StripLeading(s)|;
    assert Strip(s) == s[i..i + |Strip(s)|];
  }

  lemma StripEachKeepsAbsent(parts: seq<string>, x: char)
    requires forall k :: 0 <= k < |parts| ==> x !in parts[k]
    ensures forall k :: 0 <= k < |parts| ==> x !in Strip(parts[k])
  {
    forall k | 0 <= k < |parts|
      ensures x !in Strip(parts[k])
    {
      StripKeepsAbsent(parts[k], x);
    }
  }

  /** `strip()` has exactly one possible result: two candidates for it coincide. */
  lemma StripCandidateUnique(s: string, r1: string, i1: int, r2: string, i2: int)
    requires StripCandidate(s, r1, i1) && StripCandidate(s, r2, i2)
    ensures r1 == r2
  {
    if r1 == [] { AllSpaceAround(s, i1); }
    if r2 == [] { AllSpaceAround(s, i2); }
    var e1, e2 := i1 + |r1|, i2 + |r2|;
    assert r1 != [] ==> s[i1] == r1[0] && s[e1 - 1] == r1[|r1| - 1];
    assert r2 != [] ==> s[i2] == r2[0] && s[e2 - 1] == r2[|r2| - 1];
    assert i1 < i2 ==> s[..i2][i1] == s[i1];
    assert i2 < i1 ==> s[..i1][i2] == s[i2];
    assert e1 < e2 ==> s[e1..][e2 - 1 - e1] == s[e2 - 1];
    assert e2 < e1 ==> s[e2..][e1 - 1 - e2] == s[e1 - 1];
  }

  /** When the empty string is a candidate, `s` is whitespace only. */
  lemma AllSpaceAround(s: string, i: int)
    requires 0 <= i <= |s| && AllSpace(s[..i]) && AllSpace(s[i..])
    ensures AllSpace(s)
  {
    forall k | 0 <= k < |s| ensures IsSpace(s[k]) {
      if k < i { assert s[..i][k] == s[k]; } else { assert s[i..][k - i] == s[k]; }
    }
  }

  /** Whitespace padding around an already stripped string is exactly what `strip()` removes. */
  lemma {:induction false} StripPadded(p: string, a: string, q: string)
    requires AllSpace(p) && AllSpace(q) && IsStripped(a)
    ensures Strip(p + a + q) == a
  {
    var s := p + a + q;
    assert s[|p|..|p| + |a|] == a;
    assert s[..|p|] == p;
    assert s[|p| + |a|..] == q;
    assert StripCandidate(s, a, |p|);
    StripIsCandidate(s);
    var i := |s| - |StripLeading(s)|;
    StripCandidateUnique(s, a, |p|, Strip(s), i);
  }

  /** `strip()` is idempotent: stripping a second time changes nothing. */
  lemma StripIdempotent(s: string)
    ensures Strip(Strip(s)) == Strip(s)
  {
    StripStripped(Strip(s));
  }

  /** A stripped string is a fixed point of `strip()`. */
  lemma StripStripped(a: string)
    requires IsStripped(a)
    ensures Strip(a) == a
  {
    assert [] + a + [] == a;
    StripPadded([], a, []);
  }

  /** Number of occurrences of `c` in `s`. */
  function Count(s: string, c: char): (n: nat)
    ensures n <= |s|
    ensures n == 0 <==> c !in s
  {
    if s == [] then 0 else (if s[0] == c then 1 else 0) + Count(s[1..], c)
  }

  /** Occurrences in a concatenation add up. */
  lemma {:induction false} CountAppend(s: string, t: string, c: char)
    ensures Count(s + t, c) == Count(s, c) + Count(t, c)
  {
    if s == [] {
      assert s + t == t;
    } else {
      assert (s + t)[1..] == s[1..] + t;
      CountAppend(s[1..], t, c);
    }
  }

  /** Inverse of `Split`: the parts with one separator between consecutive parts. */
  function Join(parts: seq<string>, sep: char): (s: string)
    requires |parts| >= 1
  {
    if |parts| == 1 then parts[0] else parts[0] + [sep] + Join(parts[1..], sep)
  }

  /** Python's `s.split(sep)` for a one-character separator. */
  function Split(s: string, sep: char): (parts: seq<string>)
    ensures |parts| == Count(s, sep) + 1
    ensures forall k :: 0 <= k < |parts| ==> sep !in parts[k]
  {
    if s == [] then [[]]
    else
      var rest := Split(s[1..], sep);
      if s[0] == sep then [[]] + rest
      else [[s[0]] + rest[0]] + rest[1..]
  }

  /** Round trip: joining the parts of a split with the separator restores the string. */
  lemma {:induction false} JoinSplit(s: string, sep: char)
    ensures Join(Split(s, sep), sep) == s
  {
    if s != [] {
      var rest := Split(s[1..], sep);
      JoinSplit(s[1..], sep);
      if s[0] == sep {
        assert ([[]] + rest)[1..] == rest;
      } else {
        JoinConsChar(s[0], rest, sep);
      }
      assert [s[0]] + s[1..] == s;
    }
  }

  lemma JoinConsChar(c: char, parts: seq<string>, sep: char)
    requires |parts| >= 1
    ensures Join([[c] + parts[0]] + parts[1..], sep) == [c] + Join(parts, sep)
  {
    var ps := [[c] + parts[0]] + parts[1..];
    assert ps[1..] == parts[1..];
  }

  /** A separator-free string is left whole. */
  lemma {:induction false} SplitNoSep(x: string, sep: char)
    requires sep !in x
    ensures Split(x, sep) == [x]
  {
    if x != [] {
      SplitNoSep(x[1..], sep);
      assert [x[0]] + x[1..] == x;
    }
  }

  /** Splitting at the first separator. */
  lemma {:induction false} SplitAtSep(x: string, y: string, sep: char)
    requires sep !in x
    ensures Split(x + [sep] + y, sep) == [x] + Split(y, sep)
  {
    var s := x + [sep] + y;
    if x == [] {
      assert s[1..] == y;
    } else {
      assert s[1..] == x[1..] + [sep] + y;
      SplitAtSep(x[1..], y, sep);
      var rest := Split(s[1..], sep);
      assert s[0] == x[0] && s[0] != sep;
      assert rest[0] == x[1..] && rest[1..] == Split(y, sep);
      assert [x[0]] + x[1..] == x;
      assert Split(s, sep) == [[s[0]] + rest[0]] + rest[1..];
    }
  }

  /** Round trip: splitting the joined parts gives the parts back when none contains the separator. */
  lemma {:induction false} SplitJoin(parts: seq<string>, sep: char)
    requires |parts| >= 1
    requires forall k :: 0 <= k < |parts| ==> sep !in parts[k]
    ensures Split(Join(parts, sep), sep) == parts
  {
    if |parts| == 1 {
      SplitNoSep(parts[0], sep);
    } else {
      SplitJoin(parts[1..], sep);
      SplitAtSep(parts[0], Join(parts[1..], sep), sep);
      assert [parts[0]] + parts[1..] == parts;
    }
  }

  /** A character missing from `s` is missing from every part of its split. */
  lemma {:induction false} SplitKeepsAbsent(s: string, sep: char, x: char)
    requires x !in s
    ensures forall k :: 0 <= k < |Split(s, sep)| ==> x !in Split(s, sep)[k]
  {
    if s != [] {
      assert x !in s[1..];
      SplitKeepsAbsent(s[1..], sep, x);
    }
  }

  /** Python's `s.endswith(suffix)`: when true, `s` is some front followed by `suffix`. */
  function EndsWith(s: string, suffix: string): (b: bool)
    ensures b ==> |suffix| <= |s| && s == s[..|s| - |suffix|] + suffix
  {
    |suffix| <= |s| && s[|s| - |suffix|..] == suffix
  }

  /** Conversely, any string built as a front followed by `suffix` ends with `suffix`. */
  lemma EndsWithAppended(front: string, suffix: string)
    ensures EndsWith(front + suffix, suffix)
  {
    assert (front + suffix)[|front|..] == suffix;
  }
}
