/**
  Character-level building blocks shared by every cipher: the ASCII letter
  classes the regular expressions `[a-zA-Z]` and `[A-Z]` test, the case base
  the substitution ciphers pick with `c <= 'Z' ? 65 : 97`, the ASCII part of
  `toUpperCase`, and JavaScript's `%`, which truncates toward zero.
 */
module JsText {

  /** A grid cell that is either empty (the source's `''` filler) or holds one character. */
  datatype Option<T> = None | Some(value: T)

  predicate IsUpper(c: char) { 'A' <= c <= 'Z' }

  predicate IsLower(c: char) { 'a' <= c <= 'z' }

  /** What `/[a-zA-Z]/` matches. */
  predicate IsLetter(c: char) { IsUpper(c) || IsLower(c) }

  /** Code of 'A' or 'a', chosen by `c <= 'Z'` as the source does for a letter. */
  function Base(c: char): (b: int)
    requires IsLetter(c)
    ensures b == if IsUpper(c) then 65 else 97
  {
    if c <= 'Z' then 65 else 97
  }

  /** Offset of a letter inside its own case alphabet. */
  function Offset(c: char): (x: int)
    requires IsLetter(c)
    ensures 0 <= x < 26
  {
    c as int - Base(c)
  }

  /**
    JavaScript's `a % 26`: the remainder takes the sign of the dividend.
    Dafny's `%` is Euclidean, so the two differ only when `a` is negative.
   */
  function JsRem(a: int): (r: int)
    ensures a >= 0 ==> r == a % 26
    ensures a < 0 ==> -26 < r <= 0
    ensures (a - r) % 26 == 0
  {
    if a >= 0 then a % 26 else -((-a) % 26)
  }

  /** The letter of the same case as `c` at offset `x`. */
  function LetterAt(c: char, x: int): (d: char)
    requires IsLetter(c) && 0 <= x < 26
    ensures IsUpper(c) ==> IsUpper(d)
    ensures IsLower(c) ==> IsLower(d)
    ensures Offset(d) == x
  {
    (Base(c) + x) as char
  }

  /** `toUpperCase` on one character, restricted to ASCII. */
  function ToUpper(c: char): (u: char)
    ensures IsLower(c) ==> IsUpper(u) && u as int == c as int - 32
    ensures !IsLower(c) ==> u == c
  {
    if IsLower(c) then (c as int - 32) as char else c
  }

  /** `s.toUpperCase()` restricted to ASCII: same length, each character upper-cased. */
  function UpperString(s: seq<char>): (u: seq<char>)
    ensures |u| == |s|
    ensures forall i :: 0 <= i < |s| ==> u[i] == ToUpper(s[i])
  {
    seq(|s|, i requires 0 <= i < |s| => ToUpper(s[i]))
  }

  function Min(a: int, b: int): int { if a <= b then a else b }
}
