/** The JavaScript string built-ins the core relies on, on `seq<char>`:
    `trim`, `toLowerCase` (ASCII only), `includes`, `startsWith`,
    `endsWith`, `slice(0, n)` and the `||` default for optional strings. */
module JsString {
  import opened Wrappers

  /** `v || d` where `v` is an optional string: `undefined`, `null` and `""` are falsy. */
  function Or(v: Option<string>, d: string): (r: string)
    ensures v.Some? && v.value != "" ==> r == v.value
    ensures v.None? || v.value == "" ==> r == d
    ensures r == "" ==> d == ""
  {
    if v.Some? && v.value != "" then v.value else d
  }

  /** The characters `String.prototype.trim` removes: WhiteSpace and LineTerminator. */
  predicate IsSpace(c: char) {
    c == ' ' || c == '\t' || c == '\n' || c == '\r' || c == '\U{000B}' || c == '\U{000C}'
    || c == '\U{00A0}' || c == '\U{1680}' || ('\U{2000}' <= c <= '\U{200A}')
    || c == '\U{2028}' || c == '\U{2029}' || c == '\U{202F}' || c == '\U{205F}'
    || c == '\U{3000}' || c == '\U{FEFF}'
  }

  /** Every character of `s[lo..hi]` is a space. */
  predicate SpacesBetween(s: string, lo: int, hi: int) {
    forall k :: lo <= k < hi && 0 <= k < |s| ==> IsSpace(s[k])
  }

  predicate AllSpace(s: string) {
    SpacesBetween(s, 0, |s|)
  }

  /** The index of the first non-space at or after `lo` (or `|s|`). */
  function SkipSpaces(s: string, lo: nat): (j: nat)
    requires lo <= |s|
    ensures lo <= j <= |s| && SpacesBetween(s, lo, j)
    ensures j < |s| ==> !IsSpace(s[j])
    decreases |s| - lo
  {
    if lo < |s| && IsSpace(s[lo]) then SkipSpaces(s, lo + 1) else lo
  }

  /** The index just after the last non-space in `s[lo..hi]` (or `lo`). */
  function SkipSpacesBack(s: string, lo: nat, hi: nat): (j: nat)
    requires lo <= hi <= |s|
    ensures lo <= j <= hi && SpacesBetween(s, j, hi)
    ensures j > lo ==> !IsSpace(s[j - 1])
    decreases hi - lo
  {
    if lo < hi && IsSpace(s[hi - 1]) then SkipSpacesBack(s, lo, hi - 1) else hi
  }

  /** `s.trim()`: the infix of `s` left after dropping its leading and its
      trailing spaces; it neither starts nor ends with a space. */
  function Trim(s: string): (r: string)
    ensures exists i, j ::
      0 <= i <= j <= |s| && r == s[i..j] && SpacesBetween(s, 0, i) && SpacesBetween(s, j, |s|)
    ensures r != [] ==> !IsSpace(r[0]) && !IsSpace(r[|r| - 1])
  {
    var i := SkipSpaces(s, 0);
    var j := SkipSpacesBack(s, i, |s|);
    s[i..j]
  }

  /** Trimming twice is trimming once. */
  lemma TrimIdempotent(s: string)
    ensures Trim(Trim(s)) == Trim(s)
  {
    var r := Trim(s);
    if r != [] {
      assert SkipSpaces(r, 0) == 0;
      assert SkipSpacesBack(r, 0, |r|) == |r|;
      assert r[0..|r|] == r;
    }
  }

  /** A string trims to `""` exactly when it consists of spaces only. */
  lemma TrimEmptyIffAllSpace(s: string)
    ensures Trim(s) == "" <==> AllSpace(s)
  {
    var i := SkipSpaces(s, 0);
    var j := SkipSpacesBack(s, i, |s|);
    if Trim(s) == "" {
      assert i == j;
    }
  }

  function LowerChar(c: char): char {
    if 'A' <= c <= 'Z' then (c as int + 32) as char else c
  }

  /** `s.toLowerCase()` restricted to ASCII letters. */
  function AsciiLower(s: string): (r: string)
    ensures |r| == |s|
    ensures forall i :: 0 <= i < |s| ==> r[i] == LowerChar(s[i])
  {
    if s == [] then [] else [LowerChar(s[0])] + AsciiLower(s[1..])
  }

  /** `s.startsWith(p)`. */
  predicate StartsWith(s: string, p: string) {
    |p| <= |s| && s[..|p|] == p
  }

  /** `s.endsWith(p)`. */
  predicate EndsWith(s: string, p: string) {
    |p| <= |s| && s[|s| - |p|..] == p
  }

  /** `s.includes(sub)`. */
  predicate Contains(s: string, sub: string)
    decreases |s|
  {
    StartsWith(s, sub) || (s != [] && Contains(s[1..], sub))
  }

  /** `sub` occurs in `s` at index `i`. */
  predicate OccursAt(s: string, sub: string, i: nat) {
    i + |sub| <= |s| && s[i..i + |sub|] == sub
  }

  /** `Contains` agrees with the direct definition: `sub` occurs at some
      index of `s`. */
  lemma ContainsIffOccurs(s: string, sub: string)
    ensures Contains(s, sub) <==> exists i: nat :: OccursAt(s, sub, i)
  {
    if Contains(s, sub) {
      var i := ContainsFindsOccurrence(s, sub);
    }
    if exists i: nat :: OccursAt(s, sub, i) {
      var i: nat :| OccursAt(s, sub, i);
      OccurrenceIsContained(s, sub, i);
    }
  }

  lemma {:induction false} ContainsFindsOccurrence(s: string, sub: string) returns (i: nat)
    requires Contains(s, sub)
    ensures OccursAt(s, sub, i)
    decreases |s|
  {
    if StartsWith(s, sub) {
      i := 0;
      assert s[0..0 + |sub|] == s[..|sub|];
    } else {
      var j := ContainsFindsOccurrence(s[1..], sub);
      assert s[j + 1..j + 1 + |sub|] == s[1..][j..j + |sub|];
      i := j + 1;
    }
  }

  lemma {:induction false} OccurrenceIsContained(s: string, sub: string, i: nat)
    requires OccursAt(s, sub, i)
    ensures Contains(s, sub)
    decreases i
  {
    if i == 0 {
      assert s[..|sub|] == s[0..0 + |sub|];
    } else {
      assert s[1..][i - 1..i - 1 + |sub|] == s[i..i + |sub|];
      OccurrenceIsContained(s[1..], sub, i - 1);
    }
  }

  /** A string contains each of its suffixes. */
  lemma {:induction false} ContainsSuffix(a: string, sub: string)
    ensures Contains(a + sub, sub)
  {
    if a == [] {
      assert (a + sub)[..|sub|] == sub;
    } else {
      ContainsSuffix(a[1..], sub);
      assert (a + sub)[1..] == a[1..] + sub;
    }
  }

  /** Appending to a string keeps what it contains. */
  lemma {:induction false} ContainsAppend(s: string, t: string, sub: string)
    requires Contains(s, sub)
    ensures Contains(s + t, sub)
  {
    if StartsWith(s, sub) {
      assert (s + t)[..|sub|] == s[..|sub|];
    } else {
      ContainsAppend(s[1..], t, sub);
      assert (s + t)[1..] == s[1..] + t;
    }
  }

  /** Appending to a string keeps its prefixes. */
  lemma StartsWithAppend(s: string, t: string, p: string)
    requires StartsWith(s, p)
    ensures StartsWith(s + t, p)
  {
    assert (s + t)[..|p|] == s[..|p|];
  }

  /** `s.slice(0, n)`. */
  function Take(s: string, n: nat): (r: string)
    ensures |r| <= n && StartsWith(s, r)
    ensures |r| == if |s| <= n then |s| else n
  {
    if |s| <= n then s else s[..n]
  }
}
