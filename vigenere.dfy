/**
  The Vigenère cipher of script.js:32-66. Both functions upper-case the key,
  walk the text with a position `i` and a key index `j`, shift every ASCII
  letter by the key letter at `j % key.length` and advance `j` only on
  letters; any other character is copied unchanged.
 */
module Vigenere {
  import opened JsText
  import Seqs

  /** `key.charCodeAt(j % key.length) - 65` on the upper-cased key `k`. */
  function KeyValue(k: seq<char>, j: nat): int
    requires |k| > 0
  {
    k[j % |k|] as int - 65
  }

  /** A non-empty key of upper-case letters, as the upper-cased key of letters is. */
  predicate UpperKey(k: seq<char>)
  {
    |k| > 0 && forall i :: 0 <= i < |k| ==> IsUpper(k[i])
  }

  /** Every key character is an ASCII letter. */
  predicate LetterKey(key: seq<char>)
  {
    forall i :: 0 <= i < |key| ==> IsLetter(key[i])
  }

  /**
    The encryption of one letter at key index `j` (script.js:38 and 41). With
    an empty key `j % 0` is NaN, the whole expression is NaN and
    `String.fromCharCode(NaN)` yields U+0000.
   */
  function EncodeLetter(c: char, k: seq<char>, j: nat): (d: char)
    requires IsLetter(c)
    ensures |k| == 0 ==> d == '\0'
    ensures |k| > 0 && IsUpper(k[j % |k|]) ==>
      IsLetter(d) && (IsUpper(d) <==> IsUpper(c)) && Offset(d) == (Offset(c) + KeyValue(k, j)) % 26
  {
    if |k| == 0 then '\0' else (JsRem(Offset(c) + KeyValue(k, j)) + Base(c)) as char
  }

  /** The decryption of one letter at key index `j` (script.js:56 and 59). */
  function DecodeLetter(c: char, k: seq<char>, j: nat): (d: char)
    requires IsLetter(c)
    ensures |k| == 0 ==> d == '\0'
    ensures |k| > 0 && IsUpper(k[j % |k|]) ==>
      IsLetter(d) && (IsUpper(d) <==> IsUpper(c)) && Offset(d) == (Offset(c) - KeyValue(k, j) + 26) % 26
  {
    if |k| == 0 then '\0' else (JsRem(Offset(c) - KeyValue(k, j) + 26) + Base(c)) as char
  }

  /** What the encryption loop appends for the rest `s` of the text when its key index is `j`. */
  function EncryptFrom(s: seq<char>, k: seq<char>, j: nat): (r: seq<char>)
    ensures |r| == |s|
    ensures forall i :: 0 <= i < |s| && !IsLetter(s[i]) ==> r[i] == s[i]
    ensures UpperKey(k) ==> forall i :: 0 <= i < |s| && IsLetter(s[i]) ==>
      IsLetter(r[i]) && (IsUpper(r[i]) <==> IsUpper(s[i]))
    decreases |s|
  {
    if s == [] then []
    else if IsLetter(s[0]) then [EncodeLetter(s[0], k, j)] + EncryptFrom(s[1..], k, j + 1)
    else [s[0]] + EncryptFrom(s[1..], k, j)
  }

  /** What the decryption loop appends for the rest `s` of the text when its key index is `j`. */
  function DecryptFrom(s: seq<char>, k: seq<char>, j: nat): (r: seq<char>)
    ensures |r| == |s|
    ensures forall i :: 0 <= i < |s| && !IsLetter(s[i]) ==> r[i] == s[i]
    ensures UpperKey(k) ==> forall i :: 0 <= i < |s| && IsLetter(s[i]) ==>
      IsLetter(r[i]) && (IsUpper(r[i]) <==> IsUpper(s[i]))
    decreases |s|
  {
    if s == [] then []
    else if IsLetter(s[0]) then [DecodeLetter(s[0], k, j)] + DecryptFrom(s[1..], k, j + 1)
    else [s[0]] + DecryptFrom(s[1..], k, j)
  }

  /** `vigenereCipher(str, key)`. */
  method VigenereCipher(str: seq<char>, key: seq<char>) returns (result: seq<char>)
    ensures result == EncryptFrom(str, UpperString(key), 0)
  {
    var k := UpperString(key);
    result := [];
    var i, j := 0, 0;
    while i < |str|
      invariant 0 <= i <= |str|
      invariant result + EncryptFrom(str[i..], k, j) == EncryptFrom(str, k, 0)
    {
      var c := str[i];
      assert str[i..][0] == c && str[i..][1..] == str[i + 1..];
      var d := if 'A' <= c <= 'Z' || 'a' <= c <= 'z' then EncodeLetter(c, k, j) else c;
      var j' := if 'A' <= c <= 'Z' || 'a' <= c <= 'z' then j + 1 else j;
      assert EncryptFrom(str[i..], k, j) == [d] + EncryptFrom(str[i + 1..], k, j');
      Seqs.AppendAssoc(result, [d], EncryptFrom(str[i + 1..], k, j'));
      result := result + [d];
      i, j := i + 1, j';
    }
    assert str[i..] == [];
  }

  /** `vigenereDecrypt(str, key)`. */
  method VigenereDecrypt(str: seq<char>, key: seq<char>) returns (result: seq<char>)
    ensures result == DecryptFrom(str, UpperString(key), 0)
  {
    var k := UpperString(key);
    result := [];
    var i, j := 0, 0;
    while i < |str|
      invariant 0 <= i <= |str|
      invariant result + DecryptFrom(str[i..], k, j) == DecryptFrom(str, k, 0)
    {
      var c := str[i];
      assert str[i..][0] == c && str[i..][1..] == str[i + 1..];
      var d := if 'A' <= c <= 'Z' || 'a' <= c <= 'z' then DecodeLetter(c, k, j) else c;
      var j' := if 'A' <= c <= 'Z' || 'a' <= c <= 'z' then j + 1 else j;
      assert DecryptFrom(str[i..], k, j) == [d] + DecryptFrom(str[i + 1..], k, j');
      Seqs.AppendAssoc(result, [d], DecryptFrom(str[i + 1..], k, j'));
      result := result + [d];
      i, j := i + 1, j';
    }
    assert str[i..] == [];
  }

  /** Number of characters of `s` that `/[a-zA-Z]/` matches: how far `j` advances over `s`. */
  function LetterCount(s: seq<char>): (n: nat)
    ensures n <= |s|
  {
    if s == [] then 0 else (if IsLetter(s[0]) then 1 else 0) + LetterCount(s[1..])
  }

  /**
    Position by position: a non-letter is copied, and the letter at position
    `i` is shifted by the key letter at index `j` plus the number of letters
    before it, so the key index advances on letters only.
   */
  lemma {:induction false} EncryptAt(s: seq<char>, k: seq<char>, j: nat, i: nat)
    requires i < |s|
    ensures !IsLetter(s[i]) ==> EncryptFrom(s, k, j)[i] == s[i]
    ensures IsLetter(s[i]) ==> EncryptFrom(s, k, j)[i] == EncodeLetter(s[i], k, j + LetterCount(s[..i]))
    decreases i
  {
    if i > 0 {
      var j' := if IsLetter(s[0]) then j + 1 else j;
      EncryptAt(s[1..], k, j', i - 1);
      assert s[..i][1..] == s[1..][..i - 1];
      assert s[..i][0] == s[0];
    } else {
      assert s[..0] == [];
    }
  }

  /** Decryption position by position, with the key index advancing on letters only. */
  lemma {:induction false} DecryptAt(s: seq<char>, k: seq<char>, j: nat, i: nat)
    requires i < |s|
    ensures !IsLetter(s[i]) ==> DecryptFrom(s, k, j)[i] == s[i]
    ensures IsLetter(s[i]) ==> DecryptFrom(s, k, j)[i] == DecodeLetter(s[i], k, j + LetterCount(s[..i]))
    decreases i
  {
    if i > 0 {
      var j' := if IsLetter(s[0]) then j + 1 else j;
      DecryptAt(s[1..], k, j', i - 1);
      assert s[..i][1..] == s[1..][..i - 1];
      assert s[..i][0] == s[0];
    } else {
      assert s[..0] == [];
    }
  }

  /** Decryption with the key used to encrypt undoes encryption, from any key index. */
  lemma {:induction false} DecryptEncryptFrom(s: seq<char>, k: seq<char>, j: nat)
    requires |k| > 0 && forall i :: 0 <= i < |k| ==> IsUpper(k[i])
    ensures DecryptFrom(EncryptFrom(s, k, j), k, j) == s
    decreases |s|
  {
    if s != [] {
      var e := EncryptFrom(s, k, j);
      if IsLetter(s[0]) {
        DecryptEncryptFrom(s[1..], k, j + 1);
        var c := EncodeLetter(s[0], k, j);
        assert e == [c] + EncryptFrom(s[1..], k, j + 1);
        assert e[1..] == EncryptFrom(s[1..], k, j + 1);
        LetterRoundTrip(s[0], k, j);
      } else {
        DecryptEncryptFrom(s[1..], k, j);
        assert e[1..] == EncryptFrom(s[1..], k, j);
      }
    }
  }

  /** One letter encrypted and decrypted at the same key index comes back. */
  lemma LetterRoundTrip(c: char, k: seq<char>, j: nat)
    requires IsLetter(c) && |k| > 0 && IsUpper(k[j % |k|])
    ensures IsLetter(EncodeLetter(c, k, j)) && DecodeLetter(EncodeLetter(c, k, j), k, j) == c
  {
    var e := EncodeLetter(c, k, j);
    var x, v := Offset(c), KeyValue(k, j);
    assert 0 <= v < 26;
    assert Offset(e) == (x + v) % 26;
    var d := DecodeLetter(e, k, j);
    assert Offset(d) == ((x + v) % 26 - v + 26) % 26;
    assert Offset(d) == x;
    assert d as int == c as int;
  }

  /**
    For a non-empty key made only of letters, `vigenereDecrypt` undoes
    `vigenereCipher`.
   */
  lemma VigenereRoundTrip(s: seq<char>, key: seq<char>)
    requires |key| > 0 && LetterKey(key)
    ensures DecryptFrom(EncryptFrom(s, UpperString(key), 0), UpperString(key), 0) == s
  {
    DecryptEncryptFrom(s, UpperString(key), 0);
  }
}
