/**
  The Atbash cipher of script.js:18-29: each ASCII letter is mirrored inside
  its own case alphabet ('A' <-> 'Z', 'b' <-> 'y'); anything else is kept.
 */
module Atbash {
  import opened JsText

  /** The `map` callback of `atbashCipher`: `90 - (code - 65)` or `122 - (code - 97)`. */
  function MirrorChar(c: char): (d: char)
    ensures !IsLetter(c) ==> d == c
    ensures IsLetter(c) ==> IsLetter(d) && (IsUpper(d) <==> IsUpper(c)) && Offset(d) == 25 - Offset(c)
  {
    if 'A' <= c <= 'Z' then (90 - (c as int - 65)) as char
    else if 'a' <= c <= 'z' then (122 - (c as int - 97)) as char
    else c
  }

  /**
    `atbashCipher(str)`: same length, non-letters kept in place, every letter
    replaced by the letter of the same case at the mirrored offset.
   */
  function AtbashCipher(s: seq<char>): (r: seq<char>)
    ensures |r| == |s|
    ensures forall i :: 0 <= i < |s| && !IsLetter(s[i]) ==> r[i] == s[i]
    ensures forall i :: 0 <= i < |s| && IsLetter(s[i]) ==>
      IsLetter(r[i]) && (IsUpper(r[i]) <==> IsUpper(s[i])) && Offset(r[i]) == 25 - Offset(s[i])
  {
    seq(|s|, i requires 0 <= i < |s| => MirrorChar(s[i]))
  }

  /** Atbash is its own inverse: the page uses the same function to decrypt. */
  lemma AtbashInvolution(s: seq<char>)
    ensures AtbashCipher(AtbashCipher(s)) == s
  {
    var r := AtbashCipher(AtbashCipher(s));
    forall i | 0 <= i < |s| ensures r[i] == s[i] {
      if IsLetter(s[i]) {
        assert Offset(r[i]) == Offset(s[i]);
        assert r[i] as int == s[i] as int;
      }
    }
  }
}
