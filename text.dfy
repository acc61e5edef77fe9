/** String helpers for the ASCII subset of Python's `str` operations used by the
    hierarchy code: `lower`, `find`, `in`, prefixes and hexadecimal digits. */
module Text {
  import opened Outcomes

  function LowerChar(c: char): char {
    if 'A' <= c <= 'Z' then (c as int + 32) as char else c
  }

  /** `a` and `b` are the same character up to ASCII letter case. */
  predicate CaseVariants(a: char, b: char) {
    || a == b
    || ('A' <= a <= 'Z' && b as int == a as int + 32)
    || ('A' <= b <= 'Z' && a as int == b as int + 32)
  }

  /** `s.lower()` restricted to ASCII letters: no upper-case letter is left,
      and every character is the one of `s` or its lower-case partner. */
  function Lower(s: string): (r: string)
    ensures |r| == |s|
    ensures forall i :: 0 <= i < |r| ==> !('A' <= r[i] <= 'Z')
    ensures forall i :: 0 <= i < |s| ==> r[i] == s[i] || ('A' <= s[i] <= 'Z' && r[i] as int == s[i] as int + 32)
  {
    seq(|s|, i requires 0 <= i < |s| => LowerChar(s[i]))
  }

  /** Lowering twice lowers once. */
  lemma LowerIdempotent(s: string)
    ensures Lower(Lower(s)) == Lower(s)
  {
  }

  /** Two strings lower to the same string exactly when they are equal up to
      ASCII letter case, which is how the keyword search compares names. */
  lemma LowerEqual(s: string, t: string)
    ensures Lower(s) == Lower(t) <==> |s| == |t| && forall i :: 0 <= i < |s| ==> CaseVariants(s[i], t[i])
  {
  }

  predicate IsPrefix(p: string, s: string) {
    |p| <= |s| && s[..|p|] == p
  }

  predicate IsStrictPrefix(p: string, s: string) {
    |p| < |s| && s[..|p|] == p
  }

  /** `sub` occurs in `s` at position `k`. */
  predicate OccursAt(s: string, sub: string, k: int) {
    0 <= k && k + |sub| <= |s| && s[k..k + |sub|] == sub
  }

  /** Python's `sub in s`. */
  ghost predicate Contains(s: string, sub: string) {
    exists k :: OccursAt(s, sub, k)
  }

  /** Python's `s.find(sub, start)`: the first position at or after `start` where
      `sub` occurs, or -1 when there is none. */
  function FindFrom(s: string, sub: string, start: nat): (r: int)
    requires start <= |s| + 1
    ensures r == -1 || (start <= r && OccursAt(s, sub, r))
    ensures r == -1 ==> forall k :: start <= k ==> !OccursAt(s, sub, k)
    ensures r >= 0 ==> forall k :: start <= k < r ==> !OccursAt(s, sub, k)
    decreases |s| + 1 - start
  {
    if start + |sub| > |s| then -1
    else if s[start..start + |sub|] == sub then start
    else FindFrom(s, sub, start + 1)
  }

  /** Python's `s.find(sub)`. */
  function Find(s: string, sub: string): (r: int)
    ensures r >= 0 <==> Contains(s, sub)
    ensures r >= 0 ==> OccursAt(s, sub, r) && forall k :: 0 <= k < r ==> !OccursAt(s, sub, k)
    ensures r >= -1
  {
    FindFrom(s, sub, 0)
  }

  /** Every string contains the empty string. */
  lemma ContainsEmpty(s: string)
    ensures Contains(s, "")
  {
    assert OccursAt(s, "", 0);
  }

  /** The value of a hexadecimal digit of either case, as `int(c, 16)` reads it. */
  function HexVal(c: char): Option<int> {
    if '0' <= c <= '9' then Some(c as int - '0' as int)
    else if 'a' <= c <= 'f' then Some(c as int - 'a' as int + 10)
    else if 'A' <= c <= 'F' then Some(c as int - 'A' as int + 10)
    else None
  }

  predicate IsHexDigit(c: char) {
    HexVal(c).Some?
  }

  /** The lower-case digit that the `x` format specification writes for `d`. */
  function HexDigit(d: int): (c: char)
    requires 0 <= d < 16
    ensures HexVal(c) == Some(d)
    ensures LowerChar(c) == c
  {
    if d < 10 then ('0' as int + d) as char else ('a' as int + d - 10) as char
  }

  /** Reading a digit and writing it back gives its lower-case form. */
  lemma HexDigitOfVal(c: char)
    requires IsHexDigit(c)
    ensures 0 <= HexVal(c).value < 16
    ensures HexDigit(HexVal(c).value) == LowerChar(c)
  {
  }

}
