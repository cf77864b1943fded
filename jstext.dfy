/// The JavaScript string and array built-ins the widget relies on, with the
/// clamping, swapping and negative-index rules of the ECMAScript library.
/// Strings are sequences of UTF-16 code units; `char` stands for one unit.
module JsText {

  /** `null`/`undefined` versus a present value. */
  datatype Option<+T> = None | Some(value: T)

  /** `n` clamped into [0, hi]. */
  function Clamp(n: int, hi: nat): (r: nat)
    ensures r <= hi
    ensures 0 <= n <= hi ==> r == n
  {
    if n < 0 then 0 else if n > hi then hi else n
  }

  /** `s.substring(a, b)`: both ends are clamped into the string, and the
      two are swapped when the start lies after the end. */
  function Substring<T>(s: seq<T>, a: int, b: int): (r: seq<T>)
    ensures 0 <= a <= b <= |s| ==> r == s[a..b]
    ensures 0 <= b <= a <= |s| ==> r == s[b..a]
    ensures |r| <= |s|
  {
    var x, y := Clamp(a, |s|), Clamp(b, |s|);
    if x <= y then s[x..y] else s[y..x]
  }

  /** `s.substring(a)`: from the clamped start to the end. */
  function SubstringFrom<T>(s: seq<T>, a: int): (r: seq<T>)
    ensures 0 <= a <= |s| ==> r == s[a..]
    ensures a > |s| ==> r == []
  {
    s[Clamp(a, |s|)..]
  }

  /** An index argument of `slice`/`substr`: a negative one counts back
      from the end, and the result is clamped into [0, len]. */
  function RelativeIndex(n: int, len: nat): (r: nat)
    ensures r <= len
    ensures 0 <= n <= len ==> r == n
  {
    if n < 0 then (if len + n < 0 then 0 else len + n)
    else if n > len then len
    else n
  }

  /** `s.slice(a, b)` on strings and arrays. */
  function Slice<T>(s: seq<T>, a: int, b: int): (r: seq<T>)
    ensures 0 <= a <= b <= |s| ==> r == s[a..b]
    ensures 0 <= b <= a ==> r == []
  {
    var x, y := RelativeIndex(a, |s|), RelativeIndex(b, |s|);
    if x < y then s[x..y] else []
  }

  /** `s.slice(a)`. */
  function SliceFrom<T>(s: seq<T>, a: int): (r: seq<T>)
    ensures 0 <= a <= |s| ==> r == s[a..]
  {
    s[RelativeIndex(a, |s|)..]
  }

  /** `s.substr(start, length)`. */
  function Substr<T>(s: seq<T>, start: int, length: int): (r: seq<T>)
    ensures 0 <= start && 0 <= length && start + length <= |s| ==> r == s[start..start + length]
    ensures 0 <= start && 0 < length && start + length > |s| ==> |r| < length
  {
    var x := RelativeIndex(start, |s|);
    s[x..x + Clamp(length, |s| - x)]
  }

  /** `sub` occurs in `s` starting at position `k`. */
  predicate OccursAt(s: string, sub: string, k: int)
  {
    0 <= k && k + |sub| <= |s| && s[k..k + |sub|] == sub
  }

  /** `sub` occurs somewhere in `s`. */
  ghost predicate IsInfix(sub: string, s: string)
  {
    exists k :: OccursAt(s, sub, k)
  }

  /** The search behind `indexOf`, from `k`: the first occurrence of `sub` at or after `k`. */
  function IndexOfFrom(s: string, sub: string, k: nat): int
    decreases |s| - k
  {
    if k + |sub| > |s| then -1
    else if s[k..k + |sub|] == sub then k
    else IndexOfFrom(s, sub, k + 1)
  }

  /** The search from `k` finds the first occurrence at or after `k`, or
      reports -1 when there is none. */
  lemma {:induction false} IndexOfFromFinds(s: string, sub: string, k: nat)
    ensures var r := IndexOfFrom(s, sub, k);
      && (r == -1 || (k <= r && OccursAt(s, sub, r)))
      && (r == -1 ==> forall j :: k <= j ==> !OccursAt(s, sub, j))
      && (r != -1 ==> forall j :: k <= j < r ==> !OccursAt(s, sub, j))
    decreases |s| - k
  {
    if k + |sub| <= |s| && s[k..k + |sub|] != sub {
      IndexOfFromFinds(s, sub, k + 1);
    }
  }

  /** `s.indexOf(sub)`: the first position where `sub` occurs, or -1. */
  function IndexOf(s: string, sub: string): int
  {
    IndexOfFrom(s, sub, 0)
  }

  /** `indexOf` is -1 exactly when `sub` does not occur in `s`; otherwise it
      is an occurrence with none before it. */
  lemma IndexOfFinds(s: string, sub: string)
    ensures var r := IndexOf(s, sub);
      && (r == -1 <==> !IsInfix(sub, s))
      && (r != -1 ==> OccursAt(s, sub, r) && forall j :: 0 <= j < r ==> !OccursAt(s, sub, j))
  {
    IndexOfFromFinds(s, sub, 0);
  }

  /** `toLowerCase` on one code unit, restricted to the ASCII letters. */
  function LowerChar(c: char): char
  {
    if 'A' <= c <= 'Z' then (c as int + 32) as char else c
  }

  /** `s.toLowerCase()`, restricted to the ASCII letters: a code-unit-wise map. */
  function ToLower(s: string): (r: string)
    ensures |r| == |s|
  {
    if |s| == 0 then [] else [LowerChar(s[0])] + ToLower(s[1..])
  }

  /** Lower-casing maps each code unit on its own. */
  lemma {:induction false} ToLowerChars(s: string)
    ensures forall k :: 0 <= k < |s| ==> ToLower(s)[k] == LowerChar(s[k])
  {
    if |s| > 0 {
      ToLowerChars(s[1..]);
      forall k | 1 <= k < |s| ensures ToLower(s)[k] == LowerChar(s[k]) {
        assert s[1..][k - 1] == s[k];
      }
    }
  }

  /** Lower-casing commutes with taking a slice. */
  lemma ToLowerSlice(s: string, a: nat, b: nat)
    requires a <= b <= |s|
    ensures ToLower(s)[a..b] == ToLower(s[a..b])
  {
    ToLowerChars(s);
    ToLowerChars(s[a..b]);
  }
}
