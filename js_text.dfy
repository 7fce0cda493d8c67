/**
 * JavaScript strings as the tool manipulates them: sequences of UTF-16 code
 * units. `length`, `startsWith`, `endsWith`, `indexOf` and `substring` all
 * count code units, so a character outside the Basic Multilingual Plane
 * (such as the lock and light-bulb glyphs of the markers) occupies two
 * positions.
 */
module JsText {
  import opened Wrappers

  newtype CodeUnit = x: int | 0 <= x < 0x1_0000

  type Text = seq<CodeUnit>

  /** The code units of an ASCII string literal. */
  function Ascii(s: string): (t: Text)
    requires forall i | 0 <= i < |s| :: s[i] as int < 128
    ensures |t| == |s|
    ensures forall i | 0 <= i < |s| :: t[i] as int == s[i] as int && t[i] < 128
  {
    if s == [] then [] else [(s[0] as int) as CodeUnit] + Ascii(s[1..])
  }

  /** `Math.min(Math.max(x, 0), len)`: how `substring` and `indexOf` bound a position. */
  function Clamp(x: int, len: nat): (r: nat)
    ensures r <= len
    ensures 0 <= x <= len ==> r == x
  {
    if x < 0 then 0 else if x > len then len else x
  }

  /** `s.startsWith(p)` */
  predicate StartsWith(s: Text, p: Text) {
    |p| <= |s| && s[..|p|] == p
  }

  /** `s.endsWith(p)` */
  predicate EndsWith(s: Text, p: Text) {
    |p| <= |s| && s[|s| - |p|..] == p
  }

  /** `p` occurs in `s` starting at position `k`. */
  predicate OccursAt(s: Text, p: Text, k: int) {
    0 <= k && k + |p| <= |s| && s[k..k + |p|] == p
  }

  ghost predicate Contains(s: Text, p: Text) {
    exists k :: OccursAt(s, p, k)
  }

  /**
   * `s.indexOf(p, position)`: the first occurrence at or after the clamped
   * position, or -1 when there is none.
   */
  function IndexOf(s: Text, p: Text, position: int): (r: int)
    ensures r == -1 || (Clamp(position, |s|) <= r && OccursAt(s, p, r))
    ensures r == -1 ==> forall k :: Clamp(position, |s|) <= k ==> !OccursAt(s, p, k)
    ensures r != -1 ==> forall k :: Clamp(position, |s|) <= k < r ==> !OccursAt(s, p, k)
  {
    IndexFrom(s, p, Clamp(position, |s|))
  }

  function IndexFrom(s: Text, p: Text, from: nat): (r: int)
    requires from <= |s|
    ensures r == -1 || (from <= r && OccursAt(s, p, r))
    ensures r == -1 ==> forall k :: from <= k ==> !OccursAt(s, p, k)
    ensures r != -1 ==> forall k :: from <= k < r ==> !OccursAt(s, p, k)
    decreases |s| - from
  {
    if OccursAt(s, p, from) then from
    else if from == |s| then -1
    else IndexFrom(s, p, from + 1)
  }

  /**
   * `s.substring(start, end)`: both positions are clamped to the text, and
   * when the start lies after the end the two are swapped.
   */
  function Substring(s: Text, start: int, end: int): (r: Text)
    ensures |r| <= |s|
    ensures 0 <= start <= end <= |s| ==> r == s[start..end]
    ensures 0 <= end <= start <= |s| ==> r == s[end..start]
    ensures |s| <= start && |s| <= end ==> r == []
  {
    var a, b := Clamp(start, |s|), Clamp(end, |s|);
    if a <= b then s[a..b] else s[b..a]
  }

  /** `xs.find(pred)`: the first element satisfying `pred`, if any. */
  function Find<T>(xs: seq<T>, pred: T -> bool): (r: Option<T>)
    ensures r.None? <==> forall i :: 0 <= i < |xs| ==> !pred(xs[i])
    ensures r.Some? ==>
      exists i :: 0 <= i < |xs| && xs[i] == r.value && pred(xs[i]) &&
        forall j :: 0 <= j < i ==> !pred(xs[j])
  {
    if xs == [] then None
    else if pred(xs[0]) then Some(xs[0])
    else
      var r := Find(xs[1..], pred);
      assert forall i :: 1 <= i < |xs| ==> xs[i] == xs[1..][i - 1];
      r
  }

  /** A code unit of the base64 alphabet: `A`-`Z`, `a`-`z`, `0`-`9`, `+`, `/` and the pad `=`. */
  predicate IsBase64Unit(c: CodeUnit) {
    (65 <= c <= 90) || (97 <= c <= 122) || (48 <= c <= 57) || c == 43 || c == 47 || c == 61
  }

  predicate IsBase64(t: Text) {
    forall i :: 0 <= i < |t| ==> IsBase64Unit(t[i])
  }
}
