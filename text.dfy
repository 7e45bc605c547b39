/**
 * The handful of Python `str` operations the digest pipeline relies on:
 * `strip()`, `lower()`, `startswith`, `replace`, `split(..)[0]`, `find`,
 * `rfind` and slicing with non-negative bounds.
 */
module Text {

  /** Python's `str.isspace` set, which is what `str.strip()` removes. */
  predicate IsSpace(c: char) {
    var n := c as int;
    (9 <= n <= 13) || (28 <= n <= 32) || n == 0x85 || n == 0xA0 || n == 0x1680
    || (0x2000 <= n <= 0x200A) || n == 0x2028 || n == 0x2029 || n == 0x202F
    || n == 0x205F || n == 0x3000
  }

  /** A stripped string neither starts nor ends with whitespace. */
  predicate IsStripped(s: string) {
    s == [] || (!IsSpace(s[0]) && !IsSpace(s[|s| - 1]))
  }

  /** `s.strip()`: leading and trailing whitespace removed. */
  function Strip(s: string): (r: string)
    ensures |r| <= |s| && IsStripped(r)
  {
    if s == [] then []
    else if IsSpace(s[0]) then Strip(s[1..])
    else if IsSpace(s[|s| - 1]) then Strip(s[..|s| - 1])
    else s
  }

  /**
   * What `strip()` keeps is one contiguous piece of the input, and everything
   * it drops before and after that piece is whitespace.
   */
  lemma {:induction false} StripKeepsMiddle(s: string) returns (i: nat)
    ensures i + |Strip(s)| <= |s| && Strip(s) == s[i..i + |Strip(s)|]
    ensures forall k :: 0 <= k < i ==> IsSpace(s[k])
    ensures forall k :: i + |Strip(s)| <= k < |s| ==> IsSpace(s[k])
  {
    if s == [] {
      i := 0;
    } else if IsSpace(s[0]) {
      var j := StripKeepsMiddle(s[1..]);
      i := j + 1;
      assert s[1..][j..j + |Strip(s)|] == s[i..i + |Strip(s)|];
    } else if IsSpace(s[|s| - 1]) {
      i := StripKeepsMiddle(s[..|s| - 1]);
      assert s[..|s| - 1][i..i + |Strip(s)|] == s[i..i + |Strip(s)|];
    } else {
      i := 0;
    }
  }

  /** Stripping removes nothing from a string that is already stripped. */
  lemma StripOfStripped(s: string)
    requires IsStripped(s)
    ensures Strip(s) == s
  {
  }

  /** `str.lower()` restricted to ASCII letters. */
  function LowerChar(c: char): char {
    if 'A' <= c <= 'Z' then (c as int + 32) as char else c
  }

  function Lower(s: string): (r: string)
    ensures |r| == |s|
    ensures forall i {:trigger r[i]} :: 0 <= i < |s| ==> r[i] == LowerChar(s[i])
  {
    if s == [] then [] else [LowerChar(s[0])] + Lower(s[1..])
  }

  predicate IsLowerCase(s: string) {
    forall i :: 0 <= i < |s| ==> !('A' <= s[i] <= 'Z')
  }

  lemma LowerIsLowerCase(s: string)
    ensures IsLowerCase(Lower(s))
  {
  }

  /** Lower-casing changes nothing in a lower-case string. */
  lemma LowerOfLowerCase(s: string)
    requires IsLowerCase(s)
    ensures Lower(s) == s
  {
  }

  /** Lower-casing twice is lower-casing once. */
  lemma LowerIdempotent(s: string)
    ensures Lower(Lower(s)) == Lower(s)
  {
    LowerIsLowerCase(s);
    LowerOfLowerCase(Lower(s));
  }

  /** Lower-casing brings in no character that is not a lower-case letter. */
  lemma LowerAvoids(s: string, c: char)
    requires c !in s && !('a' <= c <= 'z')
    ensures c !in Lower(s)
  {
  }

  lemma PrefixAvoids(p: string, s: string, c: char)
    requires p <= s && c !in s
    ensures c !in p
  {
  }

  /** `s.startswith(prefix)`. */
  predicate StartsWith(s: string, prefix: string) {
    prefix <= s
  }

  /** `s.replace(target, replacement)` for a one-character `target`. */
  function ReplaceAll(s: string, target: char, replacement: string): (r: string)
    ensures target !in replacement ==> target !in r
    ensures forall c :: c in r && c !in replacement ==> c in s
    ensures |replacement| == 1 ==> |r| == |s|
    ensures target !in s ==> r == s
    ensures |replacement| == 1 ==>
      forall i {:trigger r[i]} :: 0 <= i < |s| ==> r[i] == (if s[i] == target then replacement[0] else s[i])
  {
    if s == [] then []
    else (if s[0] == target then replacement else [s[0]]) + ReplaceAll(s[1..], target, replacement)
  }

  /** `s.split(sep)[0]`: everything before the first `sep`. */
  function BeforeFirst(s: string, sep: char): (r: string)
    ensures sep !in r
    ensures r <= s
    ensures |r| < |s| ==> s[|r|] == sep
  {
    if s == [] || s[0] == sep then [] else [s[0]] + BeforeFirst(s[1..], sep)
  }

  /** `s.find(c)`: the first index of `c`, or -1. */
  function Find(s: string, c: char): (r: int)
    ensures -1 <= r
    ensures r == -1 <==> c !in s
    ensures 0 <= r ==> r < |s| && s[r] == c && c !in s[..r]
  {
    if s == [] then -1
    else if s[0] == c then 0
    else
      var k := Find(s[1..], c);
      if k == -1 then -1 else (assert s[..k + 1] == [s[0]] + s[1..][..k]; k + 1)
  }

  /** `s.rfind(c)`: the last index of `c`, or -1. */
  function RFind(s: string, c: char): (r: int)
    ensures -1 <= r
    ensures r == -1 <==> c !in s
    ensures 0 <= r ==> r < |s| && s[r] == c && c !in s[r + 1..]
  {
    if s == [] then -1
    else if s[|s| - 1] == c then |s| - 1
    else RFind(s[..|s| - 1], c)
  }

  /** `s[i:j]` for non-negative bounds: clamped to the string, empty when `j <= i`. */
  function Slice(s: string, i: nat, j: nat): (r: string)
    ensures i < j <= |s| ==> r == s[i..j]
    ensures j <= i ==> r == []
  {
    var hi := if j <= |s| then j else |s|;
    if hi <= i then [] else s[i..hi]
  }
}
