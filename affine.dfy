/**
  The Affine cipher of script.js:257-279. `affineCipher` maps a letter at
  offset x to offset `(a * x + b) % 26`; `affineDecrypt` first searches
  [1, 26) for the least `i` with `(a * i) % 26 === 1` (leaving `a_inv` at 0
  when there is none) and then maps offset y to `(a_inv * (y - b + 26)) % 26`.
  Both `%` are JavaScript's truncating remainder.
 */
module Affine {
  import opened JsText

  /** `i` is a multiplicative inverse of `a` as the search tests it: `(a * i) % 26 === 1`. */
  predicate IsInverse(a: int, i: int) { JsRem(a * i) == 1 }

  /** `gcd(a, 26) == 1`, written with the two prime factors of 26. */
  predicate Coprime26(a: int) { a % 2 == 1 && a % 13 != 0 }

  /** The `replace` callback of `affineCipher`. */
  function AffineChar(c: char, a: int, b: int): (d: char)
    ensures !IsLetter(c) ==> d == c
    ensures IsLetter(c) && a >= 0 && b >= 0 ==>
      IsLetter(d) && (IsUpper(d) <==> IsUpper(c)) && Offset(d) == (a * Offset(c) + b) % 26
  {
    if IsLetter(c) then (JsRem(a * Offset(c) + b) + Base(c)) as char else c
  }

  /**
    `affineCipher(str, a, b)`: same length, non-letters kept; for non-negative
    `a` and `b` each letter goes to the letter of its own case at offset
    `(a * x + b) % 26`.
   */
  function AffineCipher(s: seq<char>, a: int, b: int): (r: seq<char>)
    ensures |r| == |s|
    ensures forall i :: 0 <= i < |s| && !IsLetter(s[i]) ==> r[i] == s[i]
    ensures a >= 0 && b >= 0 ==> forall i :: 0 <= i < |s| && IsLetter(s[i]) ==>
      IsLetter(r[i]) && (IsUpper(r[i]) <==> IsUpper(s[i])) && Offset(r[i]) == (a * Offset(s[i]) + b) % 26
  {
    seq(|s|, i requires 0 <= i < |s| => AffineChar(s[i], a, b))
  }

  /**
    The result of the inverse search of `affineDecrypt` started at `i`: the
    least inverse in [i, 26), or 0 when that range holds none.
   */
  function InverseFrom(a: int, i: int): (r: int)
    requires 1 <= i <= 26
    ensures r == 0 || (i <= r < 26 && IsInverse(a, r))
    ensures r == 0 <==> forall j :: i <= j < 26 ==> !IsInverse(a, j)
    ensures forall j :: i <= j < r ==> !IsInverse(a, j)
    decreases 26 - i
  {
    if i == 26 then 0 else if IsInverse(a, i) then i else InverseFrom(a, i + 1)
  }

  /** The value `a_inv` holds after the search loop of script.js:267-273. */
  function LeastInverse(a: int): int { InverseFrom(a, 1) }

  /**
    The `replace` callback of `affineDecrypt`, given the inverse found: a
    non-letter is unchanged; for `inv >= 0` and `b <= 26` a letter keeps its
    case and its offset `y` becomes `(inv * (y - b + 26)) mod 26`.
   */
  function UnmapChar(c: char, inv: int, b: int): (d: char)
    ensures !IsLetter(c) ==> d == c
    ensures IsLetter(c) && inv >= 0 && b <= 26 ==>
      IsLetter(d) && (IsUpper(d) <==> IsUpper(c)) && Offset(d) == (inv * (Offset(c) - b + 26)) % 26
  {
    if IsLetter(c) then
      NonNegativeProduct(inv, Offset(c) - b + 26);
      (JsRem(inv * (Offset(c) - b + 26)) + Base(c)) as char
    else c
  }

  /** The mapping `affineDecrypt` applies once its search has fixed `a_inv`. */
  function DecryptWithInverse(s: seq<char>, inv: int, b: int): (r: seq<char>)
    ensures |r| == |s|
    ensures forall i :: 0 <= i < |s| && !IsLetter(s[i]) ==> r[i] == s[i]
    ensures inv >= 0 && b <= 26 ==> forall i :: 0 <= i < |s| && IsLetter(s[i]) ==>
      IsLetter(r[i]) && (IsUpper(r[i]) <==> IsUpper(s[i])) && Offset(r[i]) == (inv * (Offset(s[i]) - b + 26)) % 26
  {
    seq(|s|, i requires 0 <= i < |s| => UnmapChar(s[i], inv, b))
  }

  /**
    `affineDecrypt(str, a, b)`: the search loop finds the least inverse of `a`
    in [1, 26), or leaves 0, and the letters are then mapped with it.
   */
  method AffineDecrypt(str: seq<char>, a: int, b: int) returns (result: seq<char>)
    ensures result == DecryptWithInverse(str, LeastInverse(a), b)
  {
    var aInv := 0;
    var i := 1;
    while i < 26
      invariant 1 <= i <= 26
      invariant aInv == 0
      invariant LeastInverse(a) == InverseFrom(a, i)
    {
      if JsRem(a * i) == 1 {
        aInv := i;
        break;
      }
      i := i + 1;
    }
    result := DecryptWithInverse(str, aInv, b);
  }

  /** Adding a multiple of 26 does not change the residue. */
  lemma ShiftByMultiple(x: int, k: int)
    ensures (x + 26 * k) % 26 == x % 26
  {
  }

  /** The residue of a product depends only on the residue of its first factor. */
  lemma ProductResidue(a: int, w: int)
    ensures (a * w) % 26 == ((a % 26) * w) % 26
  {
    var q := a / 26;
    assert a == 26 * q + a % 26;
    assert a * w == (a % 26) * w + 26 * (q * w);
    ShiftByMultiple((a % 26) * w, q * w);
  }

  /** Every odd residue other than 13 has an inverse modulo 26. */
  lemma ResidueInverse(r: int) returns (w: int)
    requires 0 <= r < 26 && r % 2 == 1 && r != 13
    ensures 1 <= w < 26 && (r * w) % 26 == 1
  {
    if r == 1 { w := 1; }
    else if r == 3 { w := 9; }
    else if r == 5 { w := 21; }
    else if r == 7 { w := 15; }
    else if r == 9 { w := 3; }
    else if r == 11 { w := 19; }
    else if r == 15 { w := 7; }
    else if r == 17 { w := 23; }
    else if r == 19 { w := 11; }
    else if r == 21 { w := 5; }
    else if r == 23 { w := 17; }
    else { assert r == 25; w := 25; }
  }

  /** For a positive `a` the search finds an inverse exactly when `a` is coprime with 26. */
  lemma InverseExistsIff(a: int)
    requires a >= 1
    ensures LeastInverse(a) != 0 <==> Coprime26(a)
  {
    if Coprime26(a) {
      var r := a % 26;
      var q := a / 26;
      assert a == 26 * q + r;
      assert r % 2 == 1 by {
        assert a == 2 * (13 * q) + r;
      }
      assert r != 13;
      var w := ResidueInverse(r);
      ProductResidue(a, w);
      assert IsInverse(a, w);
    } else {
      forall j | 1 <= j < 26 ensures !IsInverse(a, j) {
        NoInverse(a, j);
      }
    }
  }

  /** A multiplier sharing the factor 2 or 13 with 26 has no inverse. */
  lemma NoInverse(a: int, j: int)
    requires a >= 1 && 1 <= j < 26 && !Coprime26(a)
    ensures !IsInverse(a, j)
  {
    var p := a * j;
    assert p >= 0;
    if a % 2 == 0 {
      var h := a / 2;
      assert p == 2 * (h * j);
      assert p % 26 != 1 by {
        var q := p / 26;
        assert p == 26 * q + p % 26;
        assert p % 26 == 2 * (h * j - 13 * q);
      }
    } else {
      var h := a / 13;
      assert p == 13 * (h * j);
      assert p % 26 != 1 by {
        var q := p / 26;
        assert p == 26 * q + p % 26;
        assert p % 26 == 13 * (h * j - 2 * q);
      }
    }
  }

  /** Decrypting one encrypted offset returns it, given an inverse of `a`. */
  lemma OffsetRoundTrip(x: int, a: int, b: int, inv: int)
    requires 0 <= x < 26 && a >= 1 && 0 <= b <= 26 && 1 <= inv < 26 && (a * inv) % 26 == 1
    ensures (inv * ((a * x + b) % 26 - b + 26)) % 26 == x
  {
    var e := (a * x + b) % 26;
    var q := (a * x + b) / 26;
    assert a * x + b == 26 * q + e;
    var w := (a * inv) / 26;
    assert a * inv == 26 * w + 1;
    calc {
      inv * (e - b + 26);
      inv * (a * x - 26 * q + 26);
      (a * inv) * x + 26 * (inv * (1 - q));
      (26 * w + 1) * x + 26 * (inv * (1 - q));
      x + 26 * (w * x + inv * (1 - q));
    }
    ShiftByMultiple(x, w * x + inv * (1 - q));
  }

  /** Decrypting one encrypted letter returns it, given an inverse of `a`. */
  lemma CharRoundTrip(c: char, a: int, b: int, inv: int)
    requires IsLetter(c) && a >= 1 && 0 <= b <= 26 && 1 <= inv < 26 && (a * inv) % 26 == 1
    ensures UnmapChar(AffineChar(c, a, b), inv, b) == c
  {
    var e := AffineChar(c, a, b);
    var x := Offset(c);
    var oe := Offset(e);
    assert oe == (a * x + b) % 26 && Base(e) == Base(c);
    var m := oe - b + 26;
    assert m >= 0;
    var y := inv * m;
    OffsetRoundTrip(x, a, b, inv);
    assert y % 26 == x;
    assert y >= 0 by {
      NonNegativeProduct(inv, m);
    }
    assert UnmapChar(e, inv, b) == (JsRem(y) + Base(e)) as char;
  }

  lemma NonNegativeProduct(u: int, v: int)
    ensures u >= 0 && v >= 0 ==> u * v >= 0
  {
  }

  /**
    For a multiplier coprime with 26 and `0 <= b <= 26`, `affineDecrypt`
    undoes `affineCipher`.
   */
  lemma AffineRoundTrip(s: seq<char>, a: int, b: int)
    requires a >= 1 && Coprime26(a) && 0 <= b <= 26
    ensures DecryptWithInverse(AffineCipher(s, a, b), LeastInverse(a), b) == s
  {
    InverseExistsIff(a);
    var inv := LeastInverse(a);
    assert (a * inv) % 26 == 1;
    var e := AffineCipher(s, a, b);
    var d := DecryptWithInverse(e, inv, b);
    forall i | 0 <= i < |s| ensures d[i] == s[i] {
      if IsLetter(s[i]) {
        assert e[i] == AffineChar(s[i], a, b);
        CharRoundTrip(s[i], a, b, inv);
      }
    }
  }

  /**
    When the search finds no inverse, `a_inv` stays 0 and every letter
    decrypts to 'A' or 'a', keeping its case.
   */
  lemma NoInverseGivesFirstLetter(s: seq<char>, a: int, b: int)
    requires forall j :: 1 <= j < 26 ==> !IsInverse(a, j)
    ensures forall i :: 0 <= i < |s| && IsUpper(s[i]) ==> DecryptWithInverse(s, LeastInverse(a), b)[i] == 'A'
    ensures forall i :: 0 <= i < |s| && IsLower(s[i]) ==> DecryptWithInverse(s, LeastInverse(a), b)[i] == 'a'
  {
    assert LeastInverse(a) == 0;
  }
}
