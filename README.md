# Classical ciphers of script.js, modelled in Dafny

`script.js` is a small browser page holding seven classical text ciphers:
Caesar, Atbash, Vigenère, Rail Fence, Columnar Transposition, Playfair and
Affine. Each one is a deterministic transform of a string under an integer or
string key. This project models the cipher functions of `script.js:5-279` as
they are written and proves what they do:

- the substitution ciphers keep every non-letter in place;
- each letter stays a letter of its own case, on the 26-letter ring;
- the round trips hold where they exist;
- the two transpositions only move characters;
- the Playfair key square holds the 25 letters A-Z other than J, each once;
- the affine key search finds the least modular inverse.

Where a decoder does not invert its encoder, the model shows this on a
concrete input. It then proves the round trip for a separately named
corrected decoder (see "## Findings").

One module per cipher, one file each:

| file | module | models |
|---|---|---|
| `js_text.dfy` | `JsText` | the letter tests `/[a-zA-Z]/`, the `c <= 'Z' ? 65 : 97` base, JavaScript's truncating `%`, ASCII `toUpperCase` |
| `seqs.dfy` | `Seqs` | `flat().join('')` over rows, and cutting a flat text into consecutive segments |
| `caesar.dfy` | `Caesar` | `caesarCipher`, `caesarDecrypt` |
| `atbash.dfy` | `Atbash` | `atbashCipher` |
| `vigenere.dfy` | `Vigenere` | `vigenereCipher`, `vigenereDecrypt` (loops, as methods) |
| `rail_fence.dfy` | `RailFence` | `railFenceCipher`, `railFenceDecrypt` (loops, as methods), and a corrected decoder |
| `columnar.dfy` | `Columnar` | `columnarCipher`, `columnarDecrypt` (nested loops over an `array2`), and a corrected decoder |
| `playfair.dfy` | `Playfair` | `preparePlayfairKey`, both declarations of `playfairCipher` |
| `affine.dfy` | `Affine` | `affineCipher`, `affineDecrypt` (the inverse search as a loop) |

Code that works by a `replace`/`map` callback is written as functions: Caesar,
Atbash, `affineCipher` and the mapping of `affineDecrypt`. Code that loops
and accumulates becomes methods with loop invariants. Each such method is
proved equal to a specification function, and the properties are proved as
lemmas about that function.

Strings are `seq<char>`. A matrix cell holding `''` is `None` of
`Option<char>`, so it adds nothing to a concatenation, just as `''` does.

## Model

| member | source | states |
|---|---|---|
| JsText.JsRem | script.js:9 | JavaScript's `% 26`: equal to the mathematical remainder for a non-negative operand, in (-26, 0] for a negative one, and always congruent to the operand modulo 26 |
| JsText.UpperString | script.js:34 | `toUpperCase` on ASCII keeps the length, lifts each lower-case letter by 32 and leaves every other character as it is |
| Caesar.ShiftChar | script.js:6-10 | a non-letter is returned unchanged; for a shift of at least -26, a letter stays a letter of the same case and its alphabet offset moves by the shift modulo 26 |
| Caesar.CaesarCipher | script.js:5-11 | same length; every non-letter stays at its position; for a shift of at least -26 every letter is shifted within its own case |
| Caesar.RotateBack | script.js:14 | the shift `26 - (shift % 26)`, with the truncating remainder, is the same rotation as `-shift` for every integer shift |
| Caesar.CaesarDecrypt | script.js:13-15 | for every integer shift, same length, non-letters in place, and each letter moved back by the shift modulo 26 within its case |
| Caesar.CaesarRoundTrip | script.js:5-15 | `caesarDecrypt(caesarCipher(s, k), k) == s` for every text and every shift `k >= -26` |
| Caesar.ShiftBelowRange | script.js:5-15 | with shift -52, "b" enciphers to "H", and deciphering "H" with -52 gives "H" back, not "b" |
| Caesar.CaesarExample | script.js:5-11 | "Hello, World!" with shift 3 gives "Khoor, Zruog!" |
| Atbash.MirrorChar | script.js:19-27 | a non-letter is unchanged; a letter keeps its case and its offset `x` becomes `25 - x` |
| Atbash.AtbashCipher | script.js:18-29 | same length, non-letters in place, every letter mirrored within its case |
| Atbash.AtbashInvolution | script.js:18-29 | applying `atbashCipher` twice gives the text back |
| Vigenere.EncodeLetter | script.js:37-42 | with an empty key the letter becomes U+0000; with an upper-case key letter it stays a letter of its case, shifted by the key letter's value modulo 26 |
| Vigenere.DecodeLetter | script.js:55-60 | with an empty key the letter becomes U+0000; with an upper-case key letter it stays a letter of its case, shifted back by the key letter's value modulo 26 |
| Vigenere.EncryptFrom | script.js:35-46 | one output character per input character; every non-letter is copied; under a non-empty upper-case key every letter stays a letter of its own case |
| Vigenere.DecryptFrom | script.js:53-64 | one output character per input character; every non-letter is copied; under a non-empty upper-case key every letter stays a letter of its own case |
| Vigenere.VigenereCipher | script.js:32-48 | the loop appends exactly the encryption of the text under the upper-cased key, starting at key index 0 |
| Vigenere.VigenereDecrypt | script.js:50-66 | the loop appends exactly the decryption of the text under the upper-cased key, starting at key index 0 |
| Vigenere.EncryptAt | script.js:35-46 | position by position: a non-letter is copied; the letter at position `i` uses the key index equal to the number of letters before it, so `j` advances on letters only |
| Vigenere.DecryptAt | script.js:53-64 | position by position: a non-letter is copied; the letter at position `i` is shifted back with the key index equal to the number of letters before it |
| Vigenere.LetterRoundTrip | script.js:37-60 | one letter encrypted and then decrypted at the same key index comes back |
| Vigenere.DecryptEncryptFrom | script.js:32-66 | decrypting from any key index undoes encrypting from the same index, for an upper-case non-empty key |
| Vigenere.VigenereRoundTrip | script.js:32-66 | `vigenereDecrypt(vigenereCipher(s, key), key) == s` for every text and every non-empty key of letters |
| RailFence.Walk | script.js:71-77 | the zig-zag walk keeps `row` in [0, numRails); on row 0 `dirDown` is false and on the last row it is true, so the direction flips there |
| RailFence.ZigZagStep | script.js:76-77 | each step moves exactly one row; the direction changes at rows 0 and numRails-1 and nowhere else |
| RailFence.WalkPeriod | script.js:71-77 | closed form of the walk: with `m = i mod 2(n-1)`, the row is `m` on the way down and `2(n-1) - m` on the way up |
| RailFence.RailFenceCipher | script.js:69-80 | the loop pushes each character onto the rail of its row, and the result is the rails concatenated top to bottom |
| RailFence.RailFencePermutation | script.js:69-80 | the ciphertext has the text's length and is a permutation of it |
| RailFence.RailsFromText | script.js:74-75 | every character on a rail comes from the text |
| RailFence.RailFenceExample | script.js:69-80 | "WEAREDISCOVEREDFLEEATONCE" on three rails gives "WECRLTEERDSOEEFEAOCAIVDEN" |
| RailFence.MarkRails | script.js:83-91 | the '*' marks pushed along the same walk have the shape of the encoder's rails for a text of that length |
| RailFence.RailsShape | script.js:83-91 | the rail lengths depend only on the text's length, so marking predicts the encoder's rail lengths |
| RailFence.FillRow | script.js:95-99 | row `r` receives as many next characters of the ciphertext as it has marks, and no other row changes |
| RailFence.LayOutRails | script.js:83-100 | after marking and filling, row `r` holds the `r`-th consecutive slice of the ciphertext, cut by the rail lengths |
| Seqs.SegmentsOfFlatten | script.js:93-100 | cutting a concatenation by the lengths of its parts gives back the parts |
| RailFence.FillRecoversRails | script.js:82-100 | on the encoder's output, the marking and fill loops rebuild exactly the encoder's rails |
| RailFence.RailFenceDecrypt | script.js:82-113 | the read-back loop appends, for each position `i` of the walk, `rail[row][i]`, or "undefined" past the end of that row |
| RailFence.ReadAsWritten | script.js:102-110 | each position of the walk adds one character or the nine of "undefined", so the result has between `len` and `9 * len` characters |
| RailFence.ReadAsWrittenExact | script.js:102-110 | the read-back has exactly `len` characters if and only if no row runs out before the last position the walk sends to it |
| RailFence.AsWrittenBreaksRoundTrip | script.js:107 | "ABC" on two rails encrypts to "ACB", which decrypts to "Aundefinedundefined" |
| RailFence.RailFenceDecryptFixed | script.js:102-110 | the corrected read-back, with one cursor per row, appends the rail characters in walk order |
| RailFence.CursorsReadText | script.js:102-110 | reading the rails of `t` along the walk with per-row cursors gives back `t`, prefix by prefix |
| RailFence.RailFenceRoundTrip | script.js:69-113 | the corrected decoder inverts `railFenceCipher` for every text and every numRails >= 2 |
| Columnar.RowsBound | script.js:118 | `ceil(n / k)` rows of `k` cells hold the text, and one row fewer would not |
| Columnar.KeyOrderIsStableSort | script.js:130 | the sorted key order lists every column exactly once, by key character, with equal characters in key order |
| Columnar.SortedKeyKeepsOrder | script.js:130 | a key whose characters never decrease keeps its columns in place |
| Columnar.FillByColumns | script.js:119-128 | cell `(i, j)` holds character `j * rows + i` of the text, or `''` past its end |
| Columnar.ReadColumns | script.js:133-137 | the columns are read in the given order, each top to bottom, and empty cells add nothing |
| Columnar.ColumnsAreChunks | script.js:122-137 | reading the filled columns in any order gives the text's consecutive chunks of `rows` characters in that order |
| Columnar.ColumnarCipher | script.js:116-140 | the result is the text's chunks, one per column, in the stably sorted key order |
| Columnar.ColumnarPermutation | script.js:116-140 | the ciphertext has the text's length and is a permutation of it |
| Columnar.SortedKeyKeepsText | script.js:116-140 | with a key whose characters never decrease, the text comes out unchanged |
| Columnar.FillSlots | script.js:145-155 | the decoder puts the `t`-th run of `rows` ciphertext characters into the column at slot `t` of the sorted order |
| Columnar.ReadRows | script.js:157-162 | the matrix is read row by row, each row left to right, and empty cells add nothing |
| Columnar.ColumnarDecrypt | script.js:142-165 | the result is the row-by-row read of the refilled matrix with every "null" deleted |
| Columnar.RemoveNull | script.js:164 | deleting "null" never lengthens the text and introduces no character that was not in it |
| Columnar.RemoveNullIdentity | script.js:164 | deleting "null" changes a text exactly when "null" occurs in it |
| Columnar.SingleColumnRoundTrip | script.js:116-165 | with a one-character key, decryption returns the text with every "null" deleted |
| Columnar.OneRowRoundTrip | script.js:116-165 | with a text as long as the key, decryption returns the text with every "null" deleted |
| Columnar.NarrowRoundTrip | script.js:116-165 | for a one-character key or a text as long as the key, the round trip gives the text back exactly when it contains no "null" |
| Columnar.NullIsDeleted | script.js:164 | with key "A", "null" encrypts to itself and decrypts to the empty text |
| Columnar.RowMajorBreaksRoundTrip | script.js:157-162 | with key "AB", "abcd" encrypts to itself and decrypts to "acbd" |
| Columnar.ShortColumnsBreakRoundTrip | script.js:148-155 | with key "CAB", "xy" encrypts to "yx", which decrypts to "yx" |
| Columnar.FillOccupied | script.js:148-155 | the corrected fill gives each column only as many characters as the encoder wrote there, in sorted order |
| Columnar.ColumnarDecryptFixed | script.js:142-165 | the corrected decoder reads the corrected matrix column by column and deletes nothing |
| Columnar.FixedCellRecovers | script.js:116-155 | on a ciphertext, the corrected fill puts every character back into the cell the encoder took it from |
| Columnar.FixedRoundTrip | script.js:116-165 | the corrected decoder inverts `columnarCipher` for every text and every non-empty key |
| Playfair.UpperOnly | script.js:193 | `replace(/[^A-Z]/g, '')` is no longer than its input, and holds exactly the characters A-Z that occur in it |
| Playfair.UpperOnlyConcat | script.js:193 | dropping the characters outside A-Z from a concatenation drops them from each part |
| Playfair.Normalize | script.js:193 | the prepared text holds only upper-case letters other than J |
| Playfair.NormalizeSnoc | script.js:193 | the prepared text is a filter: the empty text gives the empty text, and each further character adds its upper-cased form, with J read as I, when it is a letter, and nothing otherwise |
| Playfair.NormalizeConcat | script.js:193 | preparing a concatenation prepares each part in turn |
| Playfair.NormalizeKeeps | script.js:193 | a text of upper-case letters other than J is left unchanged |
| Playfair.KeySquare | script.js:168-188 | the square holds exactly the 25 letters A-Z other than J, each once |
| Playfair.PreparePlayfairKey | script.js:168-188 | the two loops build exactly that square |
| Playfair.KeyLetters | script.js:171-178 | the first loop keeps each upper-case letter of the folded key once, and nothing else |
| Playfair.KeyLettersOrder | script.js:171-178 | the first loop pushes the key letters in order of first occurrence: a letter pushed earlier first occurs earlier in the folded key |
| Playfair.FillAlphabet | script.js:180-186 | the second loop keeps the key letters as a prefix, pushes only letters not yet present, in increasing order, and leaves every letter A-Z other than J up to the bound in the square |
| Playfair.KeySquareLayout | script.js:168-188 | the square starts with the key's distinct letters, and the rest of the alphabet follows in A-Z order |
| Playfair.KeySquareKeyOrder | script.js:168-188 | the key letters at the head of the square come in order of their first occurrence in the folded key |
| Playfair.IndexOf | script.js:202-203 | `indexOf` gives the first position of a letter in the square, or -1 when it is absent |
| Playfair.IndexOfDistinct | script.js:202-203 | in a square of distinct letters, the letter at `k` is found at `k` |
| Playfair.CellOfIndex | script.js:204-207 | `Math.floor(i / 5)` and `i % 5` give back the row and column a position was built from |
| Playfair.Move | script.js:209-218 | two letters in one row each move `step` columns right, wrapping round; two in one column each move `step` rows down, wrapping round; otherwise each takes the other's column and keeps its own row; cells of the square stay on it |
| Playfair.MoveDistinct | script.js:209-218 | two different cells move to two different cells, and unless the shift is a multiple of 5 neither cell stays where it was |
| Playfair.EncodePair | script.js:202-218 | both letters of the encoded digraph come from the square; in a square without repeats two different letters give two different letters, and with a shift of 1 or 4 no letter encodes to itself |
| Playfair.MoveRoundTrip | script.js:209-250 | for cells of the square, the move with shift 1 followed by the move with shift 4 (or the other way round) returns both cells |
| Playfair.DigraphRoundTrip | script.js:209-250 | for two letters of a valid square, the first declaration's digraph rule followed by the second's returns the pair, and the other way round |
| Playfair.FirstPairsSplitDoubles | script.js:195-201 | the first declaration never forms a pair of two equal letters other than (X, X) |
| Playfair.FirstPairsPlain | script.js:195-201 | for a text with no two equal neighbours, the first declaration's pairs spell the text, padded with X to even length |
| Playfair.FirstPairsOfHello | script.js:195-201 | "HELLO" is paired as HE LX LO |
| Playfair.LivePairsSpell | script.js:231-233 | the second declaration's pairs spell the text, padded with X to even length |
| Playfair.LivePairsCount | script.js:231-233 | the second declaration forms `ceil(m / 2)` pairs for `m` letters |
| Playfair.LiveKeepsDoubles | script.js:231-233 | the second declaration pairs "HELLO" as HE LL OX and keeps the doubled L |
| Playfair.FirstText | script.js:190-222 | every letter the first declaration returns is a letter of the square |
| Playfair.LiveText | script.js:224-254 | every letter the second declaration returns is a letter of the square |
| Playfair.PlayfairCipherFirst | script.js:190-222 | the loop, with its `i--`, returns the first declaration's encoding of the prepared text |
| Playfair.PlayfairCipherLive | script.js:224-254 | the loop returns the second declaration's encoding of the prepared text |
| Playfair.EncodeAllRoundTrip | script.js:209-250 | encoding a run of digraphs with shift 1 and then 4 (or 4 and then 1) returns the run |
| Playfair.PlayfairRoundTrip | script.js:190-254 | the live declaration applied to the first one's output returns the first one's X-padded digraph stream |
| Playfair.LiveLength | script.js:224-254 | the live declaration returns `2 * ceil(m / 2)` letters for a prepared text of `m` letters |
| Playfair.PlayfairOutputsPairs | script.js:190-254 | both declarations return two letters per digraph, so an even number of letters |
| Affine.AffineChar | script.js:258-262 | a non-letter is unchanged; for `a, b >= 0` a letter keeps its case and its offset `x` becomes `(a*x + b) mod 26` |
| Affine.AffineCipher | script.js:257-263 | same length, non-letters in place, and for `a, b >= 0` every letter mapped by `x -> (a*x + b) mod 26` within its case |
| Affine.InverseFrom | script.js:267-273 | the search returns the least `i` in the range with `(a*i) % 26 == 1`, and 0 exactly when there is none |
| Affine.AffineDecrypt | script.js:265-279 | the search loop with its `break` finds the least inverse, and the result maps each letter with it |
| Affine.UnmapChar | script.js:277 | a non-letter is unchanged; for `a_inv >= 0` and `b <= 26` a letter keeps its case and its offset `y` becomes `(a_inv * (y - b + 26)) mod 26` |
| Affine.DecryptWithInverse | script.js:274-278 | same length, non-letters in place, and for `a_inv >= 0` and `b <= 26` every letter keeps its case with offset `y` mapped to `(a_inv * (y - b + 26)) mod 26` |
| Affine.InverseExistsIff | script.js:267-273 | for `a >= 1` an inverse is found exactly when `a` is odd and not a multiple of 13, that is, coprime with 26 |
| Affine.CharRoundTrip | script.js:257-279 | one letter encrypted and then decrypted with the inverse comes back |
| Affine.AffineRoundTrip | script.js:257-279 | `affineDecrypt(affineCipher(s, a, b), a, b) == s` for `a >= 1` coprime with 26 and `0 <= b <= 26` |
| Affine.NoInverseGivesFirstLetter | script.js:265-279 | when no inverse exists, every upper-case letter decrypts to 'A' and every lower-case letter to 'a' |

## Left out

- `encrypt`, `decrypt` and `clearFields` (script.js:282 onwards) are not part of this model. They read form fields, run `parseInt`, call `alert` and render HTML. `decrypt` also calls a `playfairDecrypt` that the file never defines.
- Number semantics: every key is an unbounded integer. NaN from `parseInt`, non-integer keys and double-precision limits for huge values are not modelled.
- Caesar.CaesarCipher: the letter-by-letter statement is made only for shifts of at least -26. Below that, `(code - base + shift + 26) % 26` can be negative, and the result is then a non-letter or a letter of the other case (for example 'b' with shift -52 gives 'H'). The function itself computes that case too.
- Caesar.CaesarRoundTrip: is stated only for shifts of at least -26. Below that the round trip can fail, for the same reason (Caesar.ShiftBelowRange).
- Affine.AffineCipher: the letter-by-letter statement is made only for `a, b >= 0`. For negative values the truncating remainder can yield a non-letter, which the function computes but no contract describes.
- Affine.AffineRoundTrip: requires `a >= 1` and `0 <= b <= 26`. For a larger `b`, `code - base - b + 26` can turn negative and the truncating remainder breaks the inverse.
- Vigenere.VigenereRoundTrip: requires a non-empty key of letters. A key character that is not a letter has a value outside 0..25, and the truncating remainder then can yield non-letters. An empty key is modelled: every letter becomes U+0000.
- RailFence: every rail-fence member requires `numRails >= 2`. With one rail, `row` leaves the rails after the first character and `rail[1].push` throws; with zero or fewer rails the first push throws.
- Columnar: every columnar member requires a non-empty key. With an empty key `Math.ceil(n / 0)` is Infinity and the array allocation throws for a non-empty text.
- Columnar: `localeCompare` is modelled as comparison by character code, with a stable sort as ECMAScript 2019 requires of `Array.prototype.sort`. The two orders agree on keys made only of upper-case letters or only of lower-case letters. On other keys they can differ. With key "Ba", code order puts 'B' first while `localeCompare` puts "a" first, so "xy" encrypts to "xy" in the model and to "yx" in a browser.
- Columnar.KeyOrderIsStableSort, Columnar.SortedKeyKeepsOrder and Columnar.SortedKeyKeepsText: "sorted" means sorted by character code. For a key mixing cases or holding other characters, the column order of `localeCompare` is not modelled.
- Text encoding: a character is a Dafny `char`, one Unicode scalar value. This matches the `for...of` loop of `railFenceCipher` (script.js:74), which iterates code points. `railFenceDecrypt` (script.js:82-113), the Vigenère loops and the columnar functions (script.js:116-165) count and index UTF-16 code units through `length` and `str[i]`. On text outside the Basic Multilingual Plane they split surrogate pairs, which the model does not. Only ASCII letters are upper-cased; `toUpperCase` on other characters is not modelled.
- No input is rejected up front, and the model computes what the code computes: an empty Vigenère key turns every letter into U+0000 (Vigenere.EncodeLetter, Vigenere.DecodeLetter), and a multiplier without inverse leaves `a_inv` at 0 so every letter decrypts to 'A' or 'a' (Affine.NoInverseGivesFirstLetter). One rail throws, as the RailFence line says.
- Playfair: the file has no Playfair decoder. The second `playfairCipher` declaration replaces the first (see "## Findings"); both are modelled.

## Findings

| source | as written | input that shows it | evidently intended | confidence | as-written member | corrected member |
|---|---|---|---|---|---|---|
| script.js:107 | the read-back indexes every row with the global position `i`, so past a row's end it appends the text "undefined" | "ABC" with 2 rails encrypts to "ACB", which decrypts to "Aundefinedundefined" | read each row with its own cursor, which inverts the encoder | not executed | RailFence.AsWrittenBreaksRoundTrip | RailFence.RailFenceRoundTrip |
| script.js:157-162 | the decoder reads the matrix row by row, but the encoder wrote it column by column | key "AB": "abcd" encrypts to "abcd", which decrypts to "acbd" | read the refilled columns back in column order | not executed | Columnar.RowMajorBreaksRoundTrip | Columnar.FixedRoundTrip |
| script.js:148-155 | the decoder refills whole columns in sorted order, whatever cells the encoder left empty | key "CAB": "xy" encrypts to "yx", which decrypts to "yx" | give each column only the cells the encoder filled | not executed | Columnar.ShortColumnsBreakRoundTrip | Columnar.FixedRoundTrip |
| script.js:164 | every "null" is deleted from the result, including one that belongs to the text | key "A": "null" encrypts to "null", which decrypts to "" | keep empty cells out of the text, so nothing has to be deleted | not executed | Columnar.NullIsDeleted | Columnar.FixedRoundTrip |
| script.js:224-254 | a second `playfairCipher` declaration replaces the first; it shifts left and up, and does not split doubled letters | "HELLO" is paired as HE LL OX, not HE LX LO | encode with the first declaration; the second's rule is its inverse | not executed | Playfair.LiveKeepsDoubles | Playfair.PlayfairRoundTrip |
