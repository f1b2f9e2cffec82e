/**
  The Caesar cipher of script.js:5-15. `caesarCipher` rewrites every ASCII
  letter through a `replace` callback and leaves every other character where
  it is; `caesarDecrypt` is `caesarCipher` with the shift `26 - (shift % 26)`.
 */
module Caesar {
  import opened JsText

  /** The `replace` callback of `caesarCipher`: `(code - base + shift + 26) % 26 + base`. */
  function ShiftChar(c: char, shift: int): (d: char)
    ensures !IsLetter(c) ==> d == c
    ensures IsLetter(c) && shift >= -26 ==>
      IsLetter(d) && (IsUpper(d) <==> IsUpper(c)) && Offset(d) == (Offset(c) + shift) % 26
  {
    if IsLetter(c) then (JsRem(Offset(c) + shift + 26) + Base(c)) as char else c
  }

  /**
    `caesarCipher(str, shift)`: same length; a non-letter stays in place; for
    any shift of at least -26 a letter is rotated by `shift` inside its own
    case alphabet.
   */
  function CaesarCipher(s: seq<char>, shift: int): (r: seq<char>)
    ensures |r| == |s|
    ensures forall i :: 0 <= i < |s| && !IsLetter(s[i]) ==> r[i] == s[i]
    ensures shift >= -26 ==> forall i :: 0 <= i < |s| && IsLetter(s[i]) ==>
      IsLetter(r[i]) && (IsUpper(r[i]) <==> IsUpper(s[i])) && Offset(r[i]) == (Offset(s[i]) + shift) % 26
  {
    seq(|s|, i requires 0 <= i < |s| => ShiftChar(s[i], shift))
  }

  /**
    `caesarDecrypt(str, shift)`: the shift it passes on, `26 - shift % 26`
    with a truncating `%`, lies in [1, 52), so every letter is rotated back
    by `shift` whatever the sign or size of `shift`.
   */
  function CaesarDecrypt(s: seq<char>, shift: int): (r: seq<char>)
    ensures |r| == |s|
    ensures forall i :: 0 <= i < |s| && !IsLetter(s[i]) ==> r[i] == s[i]
    ensures forall i :: 0 <= i < |s| && IsLetter(s[i]) ==>
      IsLetter(r[i]) && (IsUpper(r[i]) <==> IsUpper(s[i])) && Offset(r[i]) == (Offset(s[i]) - shift) % 26
  {
    var back := 26 - JsRem(shift);
    var r := CaesarCipher(s, back);
    assert forall i :: 0 <= i < |s| && IsLetter(s[i]) ==> Offset(r[i]) == (Offset(s[i]) - shift) % 26 by {
      forall i | 0 <= i < |s| && IsLetter(s[i]) ensures Offset(r[i]) == (Offset(s[i]) - shift) % 26 {
        RotateBack(Offset(s[i]), shift);
      }
    }
    r
  }

  /** Adding `26 - shift % 26` is subtracting `shift`, modulo 26. */
  lemma RotateBack(x: int, shift: int)
    ensures (x + (26 - JsRem(shift))) % 26 == (x - shift) % 26
  {
    var q := shift - JsRem(shift);
    assert q % 26 == 0;
    assert x + (26 - JsRem(shift)) == (x - shift) + 26 + q;
    SameModulo(x - shift, 26 + q);
  }

  /** Adding a multiple of 26 does not change the residue. */
  lemma SameModulo(a: int, m: int)
    requires m % 26 == 0
    ensures (a + m) % 26 == a % 26
  {
    var k := m / 26;
    assert m == 26 * k;
    assert (a + 26 * k) % 26 == a % 26;
  }

  /** Two letters of the same case with the same offset are the same character. */
  lemma SameLetter(c: char, d: char)
    requires IsLetter(c) && IsLetter(d) && (IsUpper(c) <==> IsUpper(d)) && Offset(c) == Offset(d)
    ensures c == d
  {
  }

  /** Rotating forward by `shift` and back by `shift` returns every offset. */
  lemma RotateForthAndBack(x: int, shift: int)
    requires 0 <= x < 26
    ensures ((x + shift) % 26 - shift) % 26 == x
  {
    SameModulo(x, (x + shift) % 26 - (x + shift));
    assert (x + shift) % 26 - shift == x + ((x + shift) % 26 - (x + shift));
  }

  /** Decrypting with the shift used to encrypt restores the text, for every shift of at least -26. */
  lemma CaesarRoundTrip(s: seq<char>, shift: int)
    requires shift >= -26
    ensures CaesarDecrypt(CaesarCipher(s, shift), shift) == s
  {
    var e := CaesarCipher(s, shift);
    var d := CaesarDecrypt(e, shift);
    forall i | 0 <= i < |s| ensures d[i] == s[i] {
      if IsLetter(s[i]) {
        var x := Offset(s[i]);
        assert Offset(e[i]) == (x + shift) % 26;
        assert Offset(d[i]) == (Offset(e[i]) - shift) % 26;
        RotateForthAndBack(x, shift);
        SameLetter(d[i], s[i]);
      }
    }
  }

  /** The worked example: "Hello, World!" shifted by 3. */
  /** Below a shift of -26 a letter can leave its case, and the round trip then fails: "b" becomes "H" and stays "H". */
  lemma ShiftBelowRange()
    ensures CaesarCipher("b", -52) == "H"
    ensures CaesarDecrypt(CaesarCipher("b", -52), -52) == "H" != "b"
  {
  }

  lemma CaesarExample()
    ensures CaesarCipher("Hello, World!", 3) == "Khoor, Zruog!"
  {
    var s, r := "Hello, World!", CaesarCipher("Hello, World!", 3);
    forall i | 0 <= i < |s| && IsLetter(s[i]) ensures r[i] as int == s[i] as int + 3 {
      assert Offset(s[i]) < 23;
      ShiftInsideAlphabet(s[i], r[i], 3);
    }
  }

  /** A letter shifted without passing the end of its alphabet moves forward by the shift. */
  lemma ShiftInsideAlphabet(c: char, d: char, shift: int)
    requires IsLetter(c) && IsLetter(d) && (IsUpper(d) <==> IsUpper(c))
    requires 0 <= shift && Offset(c) + shift < 26 && Offset(d) == (Offset(c) + shift) % 26
    ensures d as int == c as int + shift
  {
  }
}
