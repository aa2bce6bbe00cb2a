/**
 * Character classes and string helpers with the meaning Python gives them:
 * the whitespace of `str.isspace` and of the `\s` class of `re` on `str`
 * patterns, ASCII case folding as `re.IGNORECASE` applies it to ASCII text,
 * and `str.strip()` without arguments.
 */
module Text {

  /** The characters Python counts as whitespace (`str.isspace`, `re`'s `\s`). */
  predicate IsSpace(c: char) {
    var n := c as int;
    (9 <= n <= 13) || (28 <= n <= 32) || n == 0x85 || n == 0xA0 || n == 0x1680
    || (0x2000 <= n <= 0x200A) || n == 0x2028 || n == 0x2029 || n == 0x202F
    || n == 0x205F || n == 0x3000
  }

  predicate AllSpace(s: string) {
    forall i :: 0 <= i < |s| ==> IsSpace(s[i])
  }

  /** ASCII lower-casing; every other character is its own fold. */
  function Lower(c: char): (d: char)
    ensures IsSpace(d) <==> IsSpace(c)
    ensures 'A' <= c <= 'Z' ==> 'a' <= d <= 'z' && d as int == c as int + 32
    ensures !('A' <= c <= 'Z') ==> d == c
  {
    if 'A' <= c <= 'Z' then (c as int + 32) as char else c
  }

  /** `a` and `b` are equal up to case. */
  predicate FoldEq(a: string, b: string) {
    |a| == |b| && forall i :: 0 <= i < |a| ==> Lower(a[i]) == Lower(b[i])
  }

  /** `s` begins with `p`, up to case (what `re.match` does with a literal under IGNORECASE). */
  predicate StartsWithFold(s: string, p: string) {
    |p| <= |s| && FoldEq(s[..|p|], p)
  }

  /** Length of the run of whitespace at the start of `s` (what a greedy `\s*` consumes). */
  function SpaceRun(s: string): (n: nat)
    ensures n <= |s|
    ensures AllSpace(s[..n])
    ensures n < |s| ==> !IsSpace(s[n])
  {
    if |s| > 0 && IsSpace(s[0]) then
      assert s[..1 + SpaceRun(s[1..])] == [s[0]] + s[1..][..SpaceRun(s[1..])];
      1 + SpaceRun(s[1..])
    else 0
  }

  /** Length of the run of whitespace at the end of `s`. */
  function TrailingSpaceRun(s: string): (n: nat)
    ensures n <= |s|
    ensures forall k :: |s| - n <= k < |s| ==> IsSpace(s[k])
    ensures n < |s| ==> !IsSpace(s[|s| - n - 1])
  {
    if |s| > 0 && IsSpace(s[|s| - 1]) then TrailingSpaceRun(s[..|s| - 1]) + 1 else 0
  }

  /** Python's `str.strip()`: `s` without its leading and trailing whitespace. */
  function Strip(s: string): (r: string)
    ensures |r| <= |s|
    ensures r == "" || (!IsSpace(r[0]) && !IsSpace(r[|r| - 1]))
    ensures exists i :: 0 <= i <= |s| - |r| && AllSpace(s[..i]) && s[i..i + |r|] == r && AllSpace(s[i + |r|..])
    ensures AllSpace(s) <==> r == ""
  {
    var i := SpaceRun(s);
    var j := |s| - TrailingSpaceRun(s);
    if i == |s| then
      assert s[..i] == s;
      ""
    else
      SpaceSuffix(s, j);
      var r := s[i..j];
      assert s[i..i + |r|] == r;
      r
  }

  /** A suffix made of spaces only. */
  lemma SpaceSuffix(s: string, j: nat)
    requires j <= |s|
    requires forall k :: j <= k < |s| ==> IsSpace(s[k])
    ensures AllSpace(s[j..])
  {
  }

  /** A string lower-cased character by character. */
  function LowerString(s: string): (r: string)
    ensures |r| == |s|
    ensures forall i :: 0 <= i < |s| ==> r[i] == Lower(s[i])
  {
    if s == [] then [] else [Lower(s[0])] + LowerString(s[1..])
  }
}
