/**
  The Playfair cipher of script.js:168-254. `preparePlayfairKey` lays out a
  5×5 key square as a flat sequence of 25 letters (J is folded into I); the
  text is upper-cased, J becomes I and everything outside A-Z is dropped;
  the letters are then taken two at a time and each pair is replaced by two
  letters of the square.

  script.js declares `playfairCipher` twice. Function declarations are
  hoisted and the later one wins, so every call reaches the second one
  (script.js:224-254), which shifts left and up and never splits a doubled
  letter. The first one (script.js:190-222), which shifts right and down and
  inserts an X between doubled letters, is never called. Both are modelled,
  as `PlayfairCipherFirst` and `PlayfairCipherLive`.
 */
module Playfair {
  import opened JsText
  import Seqs

  // ---------------------------------------------------------------------------
  // Text normalisation
  // ---------------------------------------------------------------------------

  /** One character after `toUpperCase()` and `replace(/J/g, 'I')`. */
  function FoldJ(c: char): (d: char)
    ensures d != 'J'
    ensures IsLetter(c) ==> IsUpper(d)
    ensures !IsLetter(c) ==> d == c
  {
    if ToUpper(c) == 'J' then 'I' else ToUpper(c)
  }

  /** `s.toUpperCase().replace(/J/g, 'I')`, character by character. */
  function FoldText(s: seq<char>): (t: seq<char>)
    ensures |t| == |s| && forall i :: 0 <= i < |s| ==> t[i] == FoldJ(s[i])
  {
    seq(|s|, i requires 0 <= i < |s| => FoldJ(s[i]))
  }

  /** `replace(/[^A-Z]/g, '')`: only the characters A-Z stay, in order. */
  function UpperOnly(s: seq<char>): (t: seq<char>)
    ensures |t| <= |s|
    ensures forall i :: 0 <= i < |t| ==> IsUpper(t[i])
    ensures forall c :: c in t <==> c in s && IsUpper(c)
  {
    if s == [] then []
    else if IsUpper(s[|s| - 1]) then UpperOnly(s[..|s| - 1]) + [s[|s| - 1]]
    else UpperOnly(s[..|s| - 1])
  }

  /** The text both `playfairCipher` declarations work on. */
  function Normalize(s: seq<char>): (t: seq<char>)
    ensures forall i :: 0 <= i < |t| ==> IsUpper(t[i]) && t[i] != 'J'
  {
    NoJKept(FoldText(s));
    UpperOnly(FoldText(s))
  }

  lemma {:induction false} NoJKept(s: seq<char>)
    requires forall i :: 0 <= i < |s| ==> s[i] != 'J'
    ensures forall i :: 0 <= i < |UpperOnly(s)| ==> UpperOnly(s)[i] != 'J'
    decreases |s|
  {
    if s != [] {
      NoJKept(s[..|s| - 1]);
    }
  }

  /** Dropping the characters outside A-Z commutes with concatenation. */
  lemma {:induction false} UpperOnlyConcat(s: seq<char>, t: seq<char>)
    ensures UpperOnly(s + t) == UpperOnly(s) + UpperOnly(t)
    decreases |t|
  {
    if t != [] {
      var t', c := t[..|t| - 1], t[|t| - 1];
      assert (s + t)[..|s + t| - 1] == s + t';
      assert (s + t)[|s + t| - 1] == c;
      UpperOnlyConcat(s, t');
    } else {
      assert s + t == s;
    }
  }

  /**
    The prepared text is a filter: the empty text stays empty, and each
    further character contributes its upper-cased, J-folded form when it is
    a letter and nothing otherwise.
   */
  lemma NormalizeSnoc(s: seq<char>, c: char)
    ensures Normalize([]) == []
    ensures Normalize(s + [c]) == Normalize(s) + (if IsLetter(c) then [FoldJ(c)] else [])
  {
    assert FoldText(s + [c]) == FoldText(s) + [FoldJ(c)];
    assert FoldText(s + [c])[..|s|] == FoldText(s);
  }

  /** Preparing a concatenation prepares each part. */
  lemma NormalizeConcat(s: seq<char>, t: seq<char>)
    ensures Normalize(s + t) == Normalize(s) + Normalize(t)
  {
    FoldTextConcat(s, t);
    UpperOnlyConcat(FoldText(s), FoldText(t));
  }

  lemma FoldTextConcat(s: seq<char>, t: seq<char>)
    ensures FoldText(s + t) == FoldText(s) + FoldText(t)
  {
    var u, v := FoldText(s + t), FoldText(s) + FoldText(t);
    forall i | 0 <= i < |u| ensures u[i] == v[i] {
      if i < |s| {
        assert (s + t)[i] == s[i];
      } else {
        assert (s + t)[i] == t[i - |s|];
      }
    }
  }

  /** A text of letters A-Z other than J is its own normal form. */
  lemma {:induction false} NormalizeKeeps(s: seq<char>)
    requires forall i :: 0 <= i < |s| ==> IsUpper(s[i]) && s[i] != 'J'
    ensures Normalize(s) == s
    decreases |s|
  {
    assert FoldText(s) == s;
    UpperOnlyKeeps(s);
  }

  lemma {:induction false} UpperOnlyKeeps(s: seq<char>)
    requires forall i :: 0 <= i < |s| ==> IsUpper(s[i])
    ensures UpperOnly(s) == s
    decreases |s|
  {
    if s != [] {
      UpperOnlyKeeps(s[..|s| - 1]);
    }
  }

  // ---------------------------------------------------------------------------
  // The key square (script.js:168-188)
  // ---------------------------------------------------------------------------

  predicate Distinct(s: seq<char>)
  {
    forall i, j :: 0 <= i < j < |s| ==> s[i] != s[j]
  }

  /** A letter that can stand in the square: A-Z other than J. */
  predicate SquareLetter(c: char)
  {
    IsUpper(c) && c != 'J'
  }

  /**
    The first loop of `preparePlayfairKey` over the folded key `k`: each
    letter A-Z is pushed the first time it is seen, so the result holds
    every upper-case letter of `k` once, and nothing else.
   */
  function KeyLetters(k: seq<char>): (m: seq<char>)
    ensures Distinct(m)
    ensures forall c :: c in m <==> c in k && IsUpper(c)
  {
    if k == [] then []
    else
      var m, c := KeyLetters(k[..|k| - 1]), k[|k| - 1];
      assert k == k[..|k| - 1] + [c];
      if c !in m && IsUpper(c) then m + [c] else m
  }

  /**
    The second loop, up to code `64 + x`: each letter A-Z other than J not
    yet in the square is pushed, in alphabetical order. The letters already
    there stay as a prefix, only new letters are pushed, in increasing
    order, and every letter below `65 + x` other than J ends up in the
    square.
   */
  function FillAlphabet(m: seq<char>, x: nat): (r: seq<char>)
    requires x <= 26
    ensures Distinct(m) ==> Distinct(r)
    ensures |m| <= |r| && r[..|m|] == m
    ensures forall c :: c in r <==> c in m || (65 <= c as int < 65 + x && c != 'J')
    ensures forall i, j :: |m| <= i < j < |r| ==> r[i] < r[j]
    ensures forall i :: |m| <= i < |r| ==> r[i] as int < 65 + x
  {
    if x == 0 then m
    else
      var m', c := FillAlphabet(m, x - 1), (64 + x) as char;
      assert (m' + [c])[..|m|] == m'[..|m|];
      if c !in m' && c != 'J' then m' + [c] else m'
  }

  /** A key square as `preparePlayfairKey` returns it: the 25 letters A-Z other than J, each once. */
  predicate ValidSquare(m: seq<char>)
  {
    |m| == 25 && Distinct(m) && forall c :: c in m <==> SquareLetter(c)
  }

  /** The result of `preparePlayfairKey(key)`. */
  function KeySquare(key: seq<char>): (m: seq<char>)
    ensures ValidSquare(m)
  {
    var k := FoldText(key);
    SquareAlphabetFacts();
    SameLettersSameLength(FillAlphabet(KeyLetters(k), 26), SquareAlphabet());
    FillAlphabet(KeyLetters(k), 26)
  }

  /** `preparePlayfairKey(key)`: a `Set` of the letters seen and the square pushed in two loops. */
  method PreparePlayfairKey(key: seq<char>) returns (matrix: seq<char>)
    ensures matrix == KeySquare(key) && ValidSquare(matrix)
  {
    matrix := [];
    var uniqueChars: set<char> := {};
    var k := FoldText(key);
    for i := 0 to |k|
      invariant matrix == KeyLetters(k[..i])
      invariant forall c :: c in uniqueChars <==> c in matrix
    {
      var c := k[i];
      KeyLettersStep(k, i);
      if c !in uniqueChars && 'A' <= c <= 'Z' {
        uniqueChars := uniqueChars + {c};
        matrix := matrix + [c];
      }
    }
    assert k[..|k|] == k;
    for code := 65 to 91
      invariant matrix == FillAlphabet(KeyLetters(k), code - 65)
      invariant forall c :: c in uniqueChars <==> c in matrix
    {
      var c := code as char;
      FillAlphabetStep(KeyLetters(k), code - 65);
      if c !in uniqueChars && c != 'J' {
        uniqueChars := uniqueChars + {c};
        matrix := matrix + [c];
      }
    }
  }

  lemma KeyLettersStep(k: seq<char>, i: nat)
    requires i < |k|
    ensures KeyLetters(k[..i + 1]) ==
      if k[i] !in KeyLetters(k[..i]) && IsUpper(k[i]) then KeyLetters(k[..i]) + [k[i]] else KeyLetters(k[..i])
  {
    assert k[..i + 1][..i] == k[..i];
  }

  lemma FillAlphabetStep(m: seq<char>, x: nat)
    requires x < 26
    ensures FillAlphabet(m, x + 1) ==
      var c := (65 + x) as char;
      if c !in FillAlphabet(m, x) && c != 'J' then FillAlphabet(m, x) + [c] else FillAlphabet(m, x)
  {
  }

  /** The letters A-Z other than J, in alphabetical order. */
  function SquareAlphabet(): (a: seq<char>)
    ensures |a| == 25
  {
    seq(25, i requires 0 <= i < 25 => (if i < 9 then 65 + i else 66 + i) as char)
  }

  lemma SquareAlphabetFacts()
    ensures Distinct(SquareAlphabet())
    ensures forall c :: c in SquareAlphabet() <==> SquareLetter(c)
  {
    var a := SquareAlphabet();
    forall c | SquareLetter(c) ensures c in a {
      var i := if c < 'J' then c as int - 65 else c as int - 66;
      assert a[i] == c;
    }
  }

  lemma {:induction false} DistinctCard(s: seq<char>)
    requires Distinct(s)
    ensures |set c | c in s| == |s|
  {
    if s != [] {
      var s' := s[..|s| - 1];
      DistinctCard(s');
      assert (set c | c in s) == (set c | c in s') + {s[|s| - 1]};
    }
  }

  /** Two sequences without repeats holding the same characters are equally long. */
  lemma SameLettersSameLength(a: seq<char>, b: seq<char>)
    requires Distinct(a) && Distinct(b) && forall c :: c in a <==> c in b
    ensures |a| == |b|
  {
    DistinctCard(a);
    DistinctCard(b);
    assert (set c | c in a) == (set c | c in b);
  }

  /**
    The square starts with the distinct key letters (after upper-casing and
    J to I) in order of first occurrence, followed by the remaining letters
    in alphabetical order.
   */
  lemma KeySquareLayout(key: seq<char>)
    ensures |KeyLetters(FoldText(key))| <= 25
    ensures KeySquare(key)[..|KeyLetters(FoldText(key))|] == KeyLetters(FoldText(key))
    ensures forall i, j :: |KeyLetters(FoldText(key))| <= i < j < 25 ==> KeySquare(key)[i] < KeySquare(key)[j]
  {
    var k := FoldText(key);
    assert KeySquare(key) == FillAlphabet(KeyLetters(k), 26);
  }

  /**
    The key letters at the head of the square come in order of their first
    occurrence in the upper-cased, J-folded key.
   */
  lemma KeySquareKeyOrder(key: seq<char>)
    ensures forall i, j :: 0 <= i < j < |KeyLetters(FoldText(key))| ==>
      IndexOf(FoldText(key), KeySquare(key)[i]) < IndexOf(FoldText(key), KeySquare(key)[j])
  {
    var k, sq := FoldText(key), KeySquare(key);
    var kl := KeyLetters(k);
    KeySquareLayout(key);
    KeyLettersOrder(k);
    forall i | 0 <= i < |kl| ensures sq[i] == kl[i] {
      assert sq[..|kl|][i] == sq[i];
    }
  }

  /**
    The first loop pushes the key letters in order of first occurrence: of
    two letters it keeps, the one pushed earlier first occurs earlier in `k`.
   */
  lemma {:induction false} KeyLettersOrder(k: seq<char>)
    ensures forall i, j :: 0 <= i < j < |KeyLetters(k)| ==> IndexOf(k, KeyLetters(k)[i]) < IndexOf(k, KeyLetters(k)[j])
    decreases |k|
  {
    if k != [] {
      var k', c := k[..|k| - 1], k[|k| - 1];
      assert k == k' + [c];
      var m := KeyLetters(k');
      KeyLettersOrder(k');
      forall x | x in k' ensures IndexOf(k, x) == IndexOf(k', x) {
        IndexOfSnoc(k', c, x);
      }
      if c !in m && IsUpper(c) {
        IndexOfSnoc(k', c, c);
        assert c !in k';
        forall i | 0 <= i < |m| ensures IndexOf(k, m[i]) < |k'| {
          assert m[i] in k';
        }
      }
    }
  }

  /** Appending a character does not move the first occurrence of one already present, and puts a new one last. */
  lemma IndexOfSnoc(a: seq<char>, c: char, x: char)
    ensures x in a ==> IndexOf(a + [c], x) == IndexOf(a, x)
    ensures x !in a && x == c ==> IndexOf(a + [c], x) == |a|
  {
    if x in a {
      var i, i' := IndexOf(a, x), IndexOf(a + [c], x);
      assert (a + [c])[i] == x;
      assert a[i'] == x || i' == |a|;
    }
  }

  // ---------------------------------------------------------------------------
  // Digraphs and their encoding
  // ---------------------------------------------------------------------------

  /** Two letters `a` and `b` the cipher handles together. */
  datatype Digraph = Digraph(first: char, second: char)

  /**
    `matrix.indexOf(c)`: the first position holding `c`, or -1.
   */
  function IndexOf(m: seq<char>, c: char): (i: int)
    ensures c in m ==> 0 <= i < |m| && m[i] == c && forall j :: 0 <= j < i ==> m[j] != c
    ensures c !in m ==> i == -1
  {
    if m == [] then -1
    else if m[0] == c then 0
    else
      var i := IndexOf(m[1..], c);
      if i < 0 then -1 else i + 1
  }

  /** In a square without repeats, every letter is found where it stands. */
  lemma IndexOfDistinct(m: seq<char>, k: nat)
    requires Distinct(m) && k < |m|
    ensures IndexOf(m, m[k]) == k
  {
    var i := IndexOf(m, m[k]);
    assert m[i] == m[k];
  }

  /** A place in the 5 x 5 square. */
  datatype Cell = Cell(row: int, col: int)

  predicate OnSquare(p: Cell)
  {
    0 <= p.row < 5 && 0 <= p.col < 5
  }

  /** `row * 5 + col`: where a cell sits in the flat square. */
  function Index(p: Cell): (i: int)
    requires OnSquare(p)
    ensures 0 <= i < 25
  {
    p.row * 5 + p.col
  }

  /** `Math.floor(i / 5)` and `i % 5`: the cell of position `i` of the flat square. */
  function CellOf(i: int): (p: Cell)
    requires 0 <= i < 25
    ensures OnSquare(p) && Index(p) == i
  {
    Cell(i / 5, i % 5)
  }

  /** Every cell is the cell of its own position. */
  lemma CellOfIndex(p: Cell)
    requires OnSquare(p)
    ensures CellOf(Index(p)) == p
  {
    var i := Index(p);
    assert i / 5 == p.row && i % 5 == p.col;
  }

  /**
    The branches of the body of the `for` loop of either `playfairCipher`,
    with the shift `step` (1 in the first declaration, 4 in the second):
    letters in one row move `step` columns right, letters in one column
    move `step` rows down, and otherwise each letter takes the column of
    the other one.
   */
  function Move(a: Cell, b: Cell, step: nat): (r: (Cell, Cell))
    ensures a.row == b.row ==> r == (Cell(a.row, (a.col + step) % 5), Cell(b.row, (b.col + step) % 5))
    ensures a.row != b.row && a.col == b.col ==> r == (Cell((a.row + step) % 5, a.col), Cell((b.row + step) % 5, b.col))
    ensures a.row != b.row && a.col != b.col ==> r == (Cell(a.row, b.col), Cell(b.row, a.col))
    ensures OnSquare(a) && OnSquare(b) ==> OnSquare(r.0) && OnSquare(r.1)
  {
    if a.row == b.row then (Cell(a.row, (a.col + step) % 5), Cell(b.row, (b.col + step) % 5))
    else if a.col == b.col then (Cell((a.row + step) % 5, a.col), Cell((b.row + step) % 5, b.col))
    else (Cell(a.row, b.col), Cell(b.row, a.col))
  }

  /**
    The move sends two different cells to two different cells, and, unless
    `step` is a multiple of 5, moves each of them.
   */
  lemma MoveDistinct(a: Cell, b: Cell, step: nat)
    requires OnSquare(a) && OnSquare(b)
    ensures a != b ==> Move(a, b, step).0 != Move(a, b, step).1
    ensures step % 5 != 0 ==> Move(a, b, step).0 != a && Move(a, b, step).1 != b
  {
    if a.row == b.row {
      RowMoveDistinct(a, b, step);
    } else if a.col == b.col {
      ColumnMoveDistinct(a, b, step);
    }
  }

  lemma RowMoveDistinct(a: Cell, b: Cell, step: nat)
    requires OnSquare(a) && OnSquare(b) && a.row == b.row
    ensures a != b ==> Move(a, b, step).0 != Move(a, b, step).1
    ensures step % 5 != 0 ==> Move(a, b, step).0 != a && Move(a, b, step).1 != b
  {
    ShiftFacts(a.col, b.col, step);
  }

  lemma ColumnMoveDistinct(a: Cell, b: Cell, step: nat)
    requires OnSquare(a) && OnSquare(b) && a.row != b.row && a.col == b.col
    ensures a != b ==> Move(a, b, step).0 != Move(a, b, step).1
    ensures step % 5 != 0 ==> Move(a, b, step).0 != a && Move(a, b, step).1 != b
  {
    ShiftFacts(a.row, b.row, step);
  }

  /**
    A row or column index moved by `step` stays on the square, distinct
    indices stay distinct, and it moves unless `step` is a multiple of 5.
   */
  lemma ShiftFacts(x: int, y: int, step: nat)
    ensures 0 <= x < 5 && 0 <= y < 5 ==>
      0 <= (x + step) % 5 < 5 &&
      (x != y ==> (x + step) % 5 != (y + step) % 5) &&
      (step % 5 != 0 ==> (x + step) % 5 != x)
  {
    var q, r := step / 5, step % 5;
    assert step == 5 * q + r;
    assert (x + step) % 5 == (x + r) % 5;
    assert (y + step) % 5 == (y + r) % 5;
  }

  /** One digraph encoded: the letters of the square at the cells the move leads to. */
  function EncodePair(m: seq<char>, d: Digraph, step: nat): (e: Digraph)
    requires |m| == 25 && d.first in m && d.second in m
    ensures e.first in m && e.second in m
    ensures Distinct(m) && d.first != d.second ==> e.first != e.second
    ensures Distinct(m) && step % 5 != 0 ==> e.first != d.first && e.second != d.second
  {
    var a, b := CellOf(IndexOf(m, d.first)), CellOf(IndexOf(m, d.second));
    var r := Move(a, b, step);
    MoveDistinct(a, b, step);
    IndexInjective(r.0, r.1);
    IndexInjective(r.0, a);
    IndexInjective(r.1, b);
    Digraph(m[Index(r.0)], m[Index(r.1)])
  }

  /** Distinct cells of the square sit at distinct positions of the flat square. */
  lemma IndexInjective(p: Cell, q: Cell)
    requires OnSquare(p) && OnSquare(q)
    ensures p != q ==> Index(p) != Index(q)
  {
  }

  /**
    Two row or column indices moved by `step` and then by `back` come back,
    and distinct ones stay distinct on the way.
   */
  lemma ShiftBack(x: int, y: int, step: nat, back: nat)
    requires 0 <= x < 5 && 0 <= y < 5 && step + back == 5
    ensures ((x + step) % 5 + back) % 5 == x
    ensures ((y + step) % 5 + back) % 5 == y
    ensures x != y ==> (x + step) % 5 != (y + step) % 5
  {
    if step == 0 {
    } else if step == 1 {
    } else if step == 2 {
    } else if step == 3 {
    } else if step == 4 {
    } else {
      assert step == 5;
    }
  }

  /**
    Moving by `step` and then by `back`, with `step + back == 5`, returns to
    the same two cells: the shift to the right and down is undone by the
    shift to the left and up, the two letters stay in one row, in one
    column or in different rows and columns, and the rectangle swap is its
    own inverse.
   */
  lemma MoveRoundTrip(a: Cell, b: Cell, step: nat, back: nat)
    requires OnSquare(a) && OnSquare(b) && step + back == 5
    ensures Move(Move(a, b, step).0, Move(a, b, step).1, back) == (a, b)
  {
    if a.row == b.row {
      RowMoveBack(a, b, step, back);
    } else if a.col == b.col {
      ColumnMoveBack(a, b, step, back);
    } else {
      var r := Move(a, b, step);
      assert r == (Cell(a.row, b.col), Cell(b.row, a.col));
    }
  }

  lemma RowMoveBack(a: Cell, b: Cell, step: nat, back: nat)
    requires OnSquare(a) && OnSquare(b) && step + back == 5 && a.row == b.row
    ensures Move(Move(a, b, step).0, Move(a, b, step).1, back) == (a, b)
  {
    var r := Move(a, b, step);
    ShiftBack(a.col, b.col, step, back);
  }

  lemma ColumnMoveBack(a: Cell, b: Cell, step: nat, back: nat)
    requires OnSquare(a) && OnSquare(b) && step + back == 5 && a.row != b.row && a.col == b.col
    ensures Move(Move(a, b, step).0, Move(a, b, step).1, back) == (a, b)
  {
    var r := Move(a, b, step);
    ShiftBack(a.row, b.row, step, back);
  }

  /** In a key square, encoding with one shift and then the other gives every digraph back. */
  lemma DigraphRoundTrip(m: seq<char>, d: Digraph, step: nat, back: nat)
    requires ValidSquare(m) && d.first in m && d.second in m && step + back == 5
    ensures EncodePair(m, EncodePair(m, d, step), back) == d
  {
    var a, b := CellOf(IndexOf(m, d.first)), CellOf(IndexOf(m, d.second));
    var r := Move(a, b, step);
    IndexOfDistinct(m, Index(r.0));
    IndexOfDistinct(m, Index(r.1));
    CellOfIndex(r.0);
    CellOfIndex(r.1);
    MoveRoundTrip(a, b, step, back);
  }

  /** Every letter of every digraph stands in the square. */
  predicate InSquare(m: seq<char>, ds: seq<Digraph>)
  {
    forall q :: 0 <= q < |ds| ==> ds[q].first in m && ds[q].second in m
  }

  /** Each digraph encoded on its own. */
  function EncodeAll(m: seq<char>, ds: seq<Digraph>, step: nat): (es: seq<Digraph>)
    requires |m| == 25 && InSquare(m, ds)
    ensures |es| == |ds| && InSquare(m, es)
  {
    seq(|ds|, q requires 0 <= q < |ds| => EncodePair(m, ds[q], step))
  }

  /** `result.join('')`: the letters of the digraphs, two by two. */
  function Letters(ds: seq<Digraph>): (s: seq<char>)
    ensures |s| == 2 * |ds|
  {
    if ds == [] then [] else [ds[0].first, ds[0].second] + Letters(ds[1..])
  }

  /** Digraph `q` stands at positions `2 * q` and `2 * q + 1` of the joined text. */
  lemma {:induction false} LettersAt(ds: seq<Digraph>, q: nat)
    requires q < |ds|
    ensures Letters(ds)[2 * q] == ds[q].first && Letters(ds)[2 * q + 1] == ds[q].second
    decreases q
  {
    if q > 0 {
      LettersAt(ds[1..], q - 1);
    }
  }

  /** Joining digraphs of square letters gives a text of square letters. */
  lemma {:induction false} LettersInSquare(m: seq<char>, ds: seq<Digraph>)
    requires InSquare(m, ds)
    ensures forall i :: 0 <= i < |Letters(ds)| ==> Letters(ds)[i] in m
    decreases |ds|
  {
    if ds != [] {
      LettersInSquare(m, ds[1..]);
      var l := Letters(ds);
      assert l == [ds[0].first, ds[0].second] + Letters(ds[1..]);
    }
  }

  /** One more digraph encoded adds its two letters at the end. */
  lemma EncodeAllPush(m: seq<char>, ds: seq<Digraph>, d: Digraph, step: nat)
    requires |m| == 25 && InSquare(m, ds) && d.first in m && d.second in m
    ensures InSquare(m, ds + [d])
    ensures Letters(EncodeAll(m, ds + [d], step)) ==
      Letters(EncodeAll(m, ds, step)) + [EncodePair(m, d, step).first, EncodePair(m, d, step).second]
  {
    var e, e0 := EncodeAll(m, ds + [d], step), EncodeAll(m, ds, step);
    forall q | 0 <= q < |ds| ensures e[q] == e0[q] {
      assert (ds + [d])[q] == ds[q];
    }
    assert e[|ds|] == EncodePair(m, d, step);
    assert e == e0 + [EncodePair(m, d, step)];
    LettersPush(EncodeAll(m, ds, step), EncodePair(m, d, step));
  }

  lemma {:induction false} LettersPush(ds: seq<Digraph>, d: Digraph)
    ensures Letters(ds + [d]) == Letters(ds) + [d.first, d.second]
    decreases |ds|
  {
    if ds == [] {
      assert [d][1..] == [];
    } else {
      assert (ds + [d])[1..] == ds[1..] + [d];
      LettersPush(ds[1..], d);
    }
  }

  // ---------------------------------------------------------------------------
  // The two declarations of playfairCipher (script.js:190-254)
  // ---------------------------------------------------------------------------

  /**
    The digraphs the first declaration encodes from position `i` of the
    normalised text `t`: the next two letters, an X for a missing last
    letter, and an X in place of the second of two equal letters, which
    then starts the next digraph (`i--`).
   */
  function FirstPairs(t: seq<char>, i: nat): seq<Digraph>
    decreases |t| - i
  {
    if i >= |t| then []
    else
      var a, b := t[i], if i + 1 < |t| then t[i + 1] else 'X';
      if a == b then [Digraph(a, 'X')] + FirstPairs(t, i + 1)
      else [Digraph(a, b)] + FirstPairs(t, i + 2)
  }

  /** The digraphs the second declaration encodes from position `i`: always the next two letters. */
  function LivePairs(t: seq<char>, i: nat): seq<Digraph>
    decreases |t| - i
  {
    if i >= |t| then []
    else [Digraph(t[i], if i + 1 < |t| then t[i + 1] else 'X')] + LivePairs(t, i + 2)
  }

  /** Every digraph is made of letters of `t` and the padding X. */
  predicate FromText(t: seq<char>, ds: seq<Digraph>)
  {
    forall q :: 0 <= q < |ds| ==> ds[q].first in t && (ds[q].second in t || ds[q].second == 'X')
  }

  lemma {:induction false} FirstPairsFromText(t: seq<char>, i: nat)
    ensures FromText(t, FirstPairs(t, i))
    decreases |t| - i
  {
    if i < |t| {
      var a, b := t[i], if i + 1 < |t| then t[i + 1] else 'X';
      var next := if a == b then i + 1 else i + 2;
      FirstPairsFromText(t, next);
      var d := Digraph(a, if a == b then 'X' else b);
      assert FirstPairs(t, i) == [d] + FirstPairs(t, next);
    }
  }

  lemma {:induction false} LivePairsFromText(t: seq<char>, i: nat)
    ensures FromText(t, LivePairs(t, i))
    decreases |t| - i
  {
    if i < |t| {
      LivePairsFromText(t, i + 2);
    }
  }

  /** Letters of a normalised text, and X, stand in every key square. */
  lemma PairsInSquare(m: seq<char>, t: seq<char>, ds: seq<Digraph>)
    requires ValidSquare(m)
    requires forall i :: 0 <= i < |t| ==> IsUpper(t[i]) && t[i] != 'J'
    requires FromText(t, ds)
    ensures InSquare(m, ds)
  {
    assert SquareLetter('X');
  }

  /** What the first declaration of `playfairCipher(str, key)` returns. */
  function FirstText(str: seq<char>, key: seq<char>): (r: seq<char>)
    ensures forall i :: 0 <= i < |r| ==> SquareLetter(r[i])
  {
    var m, t := KeySquare(key), Normalize(str);
    FirstPairsFromText(t, 0);
    PairsInSquare(m, t, FirstPairs(t, 0));
    LettersInSquare(m, EncodeAll(m, FirstPairs(t, 0), 1));
    Letters(EncodeAll(m, FirstPairs(t, 0), 1))
  }

  /** What the second declaration of `playfairCipher(str, key)`, the one every call reaches, returns. */
  function LiveText(str: seq<char>, key: seq<char>): (r: seq<char>)
    ensures forall i :: 0 <= i < |r| ==> SquareLetter(r[i])
  {
    var m, t := KeySquare(key), Normalize(str);
    LivePairsFromText(t, 0);
    PairsInSquare(m, t, LivePairs(t, 0));
    LettersInSquare(m, EncodeAll(m, LivePairs(t, 0), 4));
    Letters(EncodeAll(m, LivePairs(t, 0), 4))
  }

  /** The first declaration of `playfairCipher(str, key)` (script.js:190-222). */
  method PlayfairCipherFirst(str: seq<char>, key: seq<char>) returns (result: seq<char>)
    ensures result == FirstText(str, key)
  {
    var matrix := PreparePlayfairKey(key);
    result := [];
    var t := Normalize(str);
    FirstPairsFromText(t, 0);
    PairsInSquare(matrix, t, FirstPairs(t, 0));
    var i := 0;
    ghost var done: seq<Digraph> := [];
    while i < |t|
      invariant 0 <= i <= |t| + 1
      invariant FirstPairs(t, 0) == done + FirstPairs(t, i)
      invariant InSquare(matrix, done) && result == Letters(EncodeAll(matrix, done, 1))
      decreases |t| - i
    {
      var a := t[i];
      var b := if i + 1 < |t| then t[i + 1] else 'X';
      ghost var next: nat := if a == b then i + 1 else i + 2;
      ghost var rest := FirstPairs(t, next);
      assert FirstPairs(t, i) == [Digraph(a, if a == b then 'X' else b)] + rest;
      if a == b {
        b := 'X';
        i := i - 1;
      }
      assert a in matrix && b in matrix by {
        assert SquareLetter(a) && SquareLetter(b);
      }
      var e := EncodePair(matrix, Digraph(a, b), 1);
      assert InSquare(matrix, done + [Digraph(a, b)]) &&
        result + [e.first, e.second] == Letters(EncodeAll(matrix, done + [Digraph(a, b)], 1)) by {
        EncodeAllPush(matrix, done, Digraph(a, b), 1);
      }
      result := result + [e.first, e.second];
      Seqs.AppendAssoc(done, [Digraph(a, b)], rest);
      done := done + [Digraph(a, b)];
      i := i + 2;
      assert i == next;
    }
    assert done == FirstPairs(t, 0);
  }

  /** The second declaration of `playfairCipher(str, key)` (script.js:224-254). */
  method PlayfairCipherLive(str: seq<char>, key: seq<char>) returns (result: seq<char>)
    ensures result == LiveText(str, key)
  {
    var matrix := PreparePlayfairKey(key);
    result := [];
    var t := Normalize(str);
    LivePairsFromText(t, 0);
    PairsInSquare(matrix, t, LivePairs(t, 0));
    var i := 0;
    ghost var done: seq<Digraph> := [];
    while i < |t|
      invariant 0 <= i <= |t| + 1
      invariant LivePairs(t, 0) == done + LivePairs(t, i)
      invariant InSquare(matrix, done) && result == Letters(EncodeAll(matrix, done, 4))
      decreases |t| - i
    {
      var a := t[i];
      var b := if i + 1 < |t| then t[i + 1] else 'X';
      LiveStep(matrix, t, i, done);
      var e := EncodePair(matrix, Digraph(a, b), 4);
      result := result + [e.first, e.second];
      done := done + [Digraph(a, b)];
      i := i + 2;
    }
    assert done == LivePairs(t, 0);
  }

  /**
    One turn of the loop of the second declaration: the next two letters
    (or the last one and an X) form the next digraph of the stream, and
    its encoding extends the output by two letters.
   */
  lemma LiveStep(m: seq<char>, t: seq<char>, i: nat, done: seq<Digraph>)
    requires ValidSquare(m) && i < |t| && InSquare(m, done)
    requires forall j :: 0 <= j < |t| ==> IsUpper(t[j]) && t[j] != 'J'
    ensures var d := Digraph(t[i], if i + 1 < |t| then t[i + 1] else 'X');
      d.first in m && d.second in m &&
      done + LivePairs(t, i) == (done + [d]) + LivePairs(t, i + 2) &&
      InSquare(m, done + [d]) &&
      Letters(EncodeAll(m, done + [d], 4)) ==
        Letters(EncodeAll(m, done, 4)) + [EncodePair(m, d, 4).first, EncodePair(m, d, 4).second]
  {
    var d := Digraph(t[i], if i + 1 < |t| then t[i + 1] else 'X');
    assert SquareLetter(d.first) && SquareLetter(d.second);
    assert LivePairs(t, i) == [d] + LivePairs(t, i + 2);
    Seqs.AppendAssoc(done, [d], LivePairs(t, i + 2));
    EncodeAllPush(m, done, d, 4);
  }

  // ---------------------------------------------------------------------------
  // Properties
  // ---------------------------------------------------------------------------

  /**
    The first declaration never leaves two equal letters in one digraph,
    except X X (an X doubled in the text, or a lone X at the end).
   */
  lemma {:induction false} FirstPairsSplitDoubles(t: seq<char>, i: nat)
    ensures forall q :: 0 <= q < |FirstPairs(t, i)| ==>
      FirstPairs(t, i)[q].first != FirstPairs(t, i)[q].second || FirstPairs(t, i)[q] == Digraph('X', 'X')
    decreases |t| - i
  {
    if i < |t| {
      if t[i] == (if i + 1 < |t| then t[i + 1] else 'X') {
        FirstPairsSplitDoubles(t, i + 1);
      } else {
        FirstPairsSplitDoubles(t, i + 2);
      }
    }
  }

  lemma LettersCons(d: Digraph, ds: seq<Digraph>)
    ensures Letters([d] + ds) == [d.first, d.second] + Letters(ds)
  {
    assert ([d] + ds)[1..] == ds;
  }

  /** The X that pads a text of `n` remaining letters to whole digraphs. */
  function Padding(n: int): seq<char>
  {
    if n % 2 == 1 then ['X'] else []
  }

  /**
    On a text without two equal neighbouring letters the first declaration
    takes the letters two by two and pads an odd text with one X.
   */
  lemma {:induction false} FirstPairsPlain(t: seq<char>, i: nat)
    requires i <= |t|
    requires forall j :: i <= j < |t| - 1 ==> t[j] != t[j + 1]
    ensures Letters(FirstPairs(t, i)) == t[i..] + Padding(|t| - i)
    decreases |t| - i
  {
    if i + 1 < |t| {
      FirstPairsPlain(t, i + 2);
      LettersCons(Digraph(t[i], t[i + 1]), FirstPairs(t, i + 2));
      PaddingStep(|t| - i);
      TwoMore(t, i, Padding(|t| - i));
    } else if i + 1 == |t| {
      LettersCons(Digraph(t[i], 'X'), FirstPairs(t, i + 1));
      assert t[i..] == [t[i]];
    }
  }

  lemma PaddingStep(n: int)
    ensures Padding(n) == Padding(n - 2)
  {
  }

  lemma TwoMore(t: seq<char>, i: nat, p: seq<char>)
    requires i + 1 < |t|
    ensures [t[i], t[i + 1]] + (t[i + 2..] + p) == t[i..] + p
  {
    assert t[i..] == [t[i], t[i + 1]] + t[i + 2..];
  }

  /** The second declaration forms one digraph for every two letters left, rounding up. */
  lemma {:induction false} LivePairsCount(t: seq<char>, i: nat)
    requires i <= |t|
    ensures |LivePairs(t, i)| == (|t| - i + 1) / 2
    decreases |t| - i
  {
    if i + 1 < |t| {
      LivePairsCount(t, i + 2);
      assert (|t| - i + 1) / 2 == (|t| - (i + 2) + 1) / 2 + 1;
    }
  }

  /**
    The second declaration always takes the letters two by two and pads an
    odd text with one X, whatever the letters are.
   */
  lemma {:induction false} LivePairsSpell(t: seq<char>, i: nat)
    requires i <= |t|
    ensures Letters(LivePairs(t, i)) == t[i..] + Padding(|t| - i)
    decreases |t| - i
  {
    if i + 1 < |t| {
      LivePairsSpell(t, i + 2);
      LettersCons(Digraph(t[i], t[i + 1]), LivePairs(t, i + 2));
      PaddingStep(|t| - i);
      TwoMore(t, i, Padding(|t| - i));
    } else if i + 1 == |t| {
      LettersCons(Digraph(t[i], 'X'), LivePairs(t, i + 2));
      assert t[i..] == [t[i]];
    }
  }

  /** Cutting the letters of some digraphs two by two gives the digraphs back. */
  lemma {:induction false} LivePairsOfLetters(ds: seq<Digraph>, q: nat)
    requires q <= |ds|
    ensures LivePairs(Letters(ds), 2 * q) == ds[q..]
    decreases |ds| - q
  {
    if q < |ds| {
      LivePairsOfLetters(ds, q + 1);
      LettersAt(ds, q);
      assert ds[q..] == [ds[q]] + ds[q + 1..];
    }
  }

  /** Encoding with one shift and then with the other gives the digraphs back. */
  lemma EncodeAllRoundTrip(m: seq<char>, ds: seq<Digraph>, step: nat, back: nat)
    requires ValidSquare(m) && InSquare(m, ds)
    requires (step == 1 && back == 4) || (step == 4 && back == 1)
    ensures EncodeAll(m, EncodeAll(m, ds, step), back) == ds
  {
    forall q | 0 <= q < |ds| ensures EncodeAll(m, EncodeAll(m, ds, step), back)[q] == ds[q] {
      DigraphRoundTrip(m, ds[q], step, back);
    }
  }

  /**
    The second declaration undoes the first: applied with the same key to
    the first declaration's output it returns the digraph stream the first
    one encoded, that is the normalised text with its X padding.
   */
  lemma PlayfairRoundTrip(str: seq<char>, key: seq<char>)
    ensures LiveText(FirstText(str, key), key) == Letters(FirstPairs(Normalize(str), 0))
  {
    var m, t := KeySquare(key), Normalize(str);
    var ds := FirstPairs(t, 0);
    FirstPairsFromText(t, 0);
    PairsInSquare(m, t, ds);
    var es := EncodeAll(m, ds, 1);
    NormalizeKeeps(FirstText(str, key));
    LivePairsOfLetters(es, 0);
    EncodeAllRoundTrip(m, ds, 1, 4);
  }

  /** The output of the second declaration is as long as the text with an odd last letter padded. */
  lemma LiveLength(str: seq<char>, key: seq<char>)
    ensures |LiveText(str, key)| == 2 * ((|Normalize(str)| + 1) / 2)
  {
    LivePairsCount(Normalize(str), 0);
  }

  /** Both declarations emit whole digraphs: two letters for each digraph of the stream. */
  lemma PlayfairOutputsPairs(str: seq<char>, key: seq<char>)
    ensures |FirstText(str, key)| == 2 * |FirstPairs(Normalize(str), 0)|
    ensures |LiveText(str, key)| == 2 * |LivePairs(Normalize(str), 0)|
  {
    var m, t := KeySquare(key), Normalize(str);
    FirstPairsFromText(t, 0);
    PairsInSquare(m, t, FirstPairs(t, 0));
    LivePairsFromText(t, 0);
    PairsInSquare(m, t, LivePairs(t, 0));
  }

  /** "HELLO": the first declaration encodes HE LX LO. */
  lemma FirstPairsOfHello()
    ensures Letters(FirstPairs("HELLO", 0)) == "HELXLO"
  {
    var t := "HELLO";
    assert FirstPairs(t, 3) == [Digraph('L', 'O')];
    assert FirstPairs(t, 2) == [Digraph('L', 'X'), Digraph('L', 'O')];
    assert FirstPairs(t, 0) == [Digraph('H', 'E'), Digraph('L', 'X'), Digraph('L', 'O')];
  }

  /** "HELLO": the second declaration encodes HE LL OX, keeping the doubled L in one digraph. */
  lemma LiveKeepsDoubles()
    ensures LivePairs("HELLO", 0) == [Digraph('H', 'E'), Digraph('L', 'L'), Digraph('O', 'X')]
  {
    var t := "HELLO";
    assert LivePairs(t, 4) == [Digraph('O', 'X')];
    assert LivePairs(t, 2) == [Digraph('L', 'L'), Digraph('O', 'X')];
  }
}
