/**
  The Rail Fence cipher of script.js:69-113. Encryption writes the text along
  a zig-zag over `numRails` rows (down to the last row, back up to the first,
  and so on) and concatenates the rows. Decryption replays the walk with '*'
  marks to learn each row's length, refills the marks row by row from the
  ciphertext, and reads the rails back along the walk. The read-back at
  script.js:107 indexes each row with the global position `i`; an index past
  the end of a row reads `undefined`, which `+=` turns into the text
  "undefined".
 */
module RailFence {
  import opened JsText
  import opened Seqs

  /**
    The state of the walk of script.js:71-77 when the `i`-th character is
    placed: `row` and `dirDown`. Both start at 0 and false; after each
    character, `dirDown` flips on the first and the last row and `row` moves
    one step in its direction. The walk stays on the rails, going up from
    the last row and down from the first.
   */
  function Walk(n: int, i: nat): (w: (int, bool))
    requires n >= 2
    ensures 0 <= w.0 < n && (w.0 == 0 ==> !w.1) && (w.0 == n - 1 ==> w.1)
  {
    if i == 0 then (0, false)
    else
      var (row, dirDown) := Walk(n, i - 1);
      var down := if row == 0 || row == n - 1 then !dirDown else dirDown;
      (if down then row + 1 else row - 1, down)
  }

  /** Row of the `i`-th character on the zig-zag over `n` rails: 0, 1, .., n-1, n-2, .., 1, 0, 1, .. */
  function RowAt(n: int, i: nat): (r: int)
    requires n >= 2
    ensures 0 <= r < n
  {
    Walk(n, i).0
  }

  /** The value of `dirDown` when the `i`-th character is placed. */
  predicate GoingDown(n: int, i: nat)
    requires n >= 2
  {
    Walk(n, i).1
  }

  /** Division by a positive divisor leaves a unique quotient and remainder. */
  lemma ModUnique(a: int, p: int, q: int, m: int)
    requires p > 0 && a == p * q + m && 0 <= m < p
    ensures a % p == m
  {
    var q' := a / p;
    assert a == p * q' + a % p;
    assert p * (q - q') == a % p - m;
    if q - q' >= 1 {
    } else if q - q' <= -1 {
    }
  }

  lemma ModNext(i: nat, p: int)
    requires p > 0
    ensures (i + 1) % p == if i % p == p - 1 then 0 else i % p + 1
  {
    var q, m := i / p, i % p;
    assert i == p * q + m;
    if m == p - 1 {
      ModUnique(i + 1, p, q + 1, 0);
    } else {
      ModUnique(i + 1, p, q, m + 1);
    }
  }

  /**
    The walk is periodic with period `2 * (n - 1)`: with `m` the position
    in the period, the row is `m` on the way down and `2 * (n - 1) - m` on
    the way up, and `dirDown` holds exactly for `1 <= m < n`.
   */
  lemma {:induction false} WalkPeriod(n: int, i: nat)
    requires n >= 2
    ensures var m := i % (2 * (n - 1));
      RowAt(n, i) == (if m < n then m else 2 * (n - 1) - m) && (GoingDown(n, i) <==> 1 <= m < n)
  {
    if i > 0 {
      WalkPeriod(n, i - 1);
      ModNext(i - 1, 2 * (n - 1));
    }
  }

  /** One step of the walk, as the loop of script.js:75-77 takes it. */
  lemma ZigZagStep(n: int, i: nat)
    requires n >= 2
    ensures var turn := RowAt(n, i) == 0 || RowAt(n, i) == n - 1;
            var down := if turn then !GoingDown(n, i) else GoingDown(n, i);
            RowAt(n, i + 1) == RowAt(n, i) + (if down then 1 else -1) && GoingDown(n, i + 1) == down
  {
    assert Walk(n, i + 1).0 == RowAt(n, i + 1);
  }

  /** The row and direction the loop computes for the next character are the walk's. */
  lemma NextRow(n: int, i: nat, row: int, dirDown: bool, dirDown': bool, row': int)
    requires n >= 2 && row == RowAt(n, i) && dirDown == GoingDown(n, i)
    requires dirDown' == if row == 0 || row == n - 1 then !dirDown else dirDown
    requires row' == if dirDown' then row + 1 else row - 1
    ensures row' == RowAt(n, i + 1) && dirDown' == GoingDown(n, i + 1)
  {
    ZigZagStep(n, i);
  }

  /** The rails after the first `|s|` characters have been pushed along the walk. */
  function RailsOf(s: seq<char>, n: int): (rails: seq<seq<char>>)
    requires n >= 2
    ensures |rails| == n
    decreases |s|
  {
    if s == [] then seq(n, _ => [])
    else
      var rails := RailsOf(s[..|s| - 1], n);
      var row := RowAt(n, |s| - 1);
      rails[row := rails[row] + [s[|s| - 1]]]
  }

  /**
    `railFenceCipher(str, numRails)`: the walk keeps `row` in [0, numRails),
    and the result is the rails read top to bottom.
   */
  method RailFenceCipher(str: seq<char>, numRails: int) returns (result: seq<char>)
    requires numRails >= 2
    ensures result == Flatten(RailsOf(str, numRails))
  {
    var rail: seq<seq<char>> := seq(numRails, _ => []);
    var dirDown := false;
    var row := 0;
    var i := 0;
    while i < |str|
      invariant 0 <= i <= |str|
      invariant row == RowAt(numRails, i) && dirDown == GoingDown(numRails, i)
      invariant rail == RailsOf(str[..i], numRails)
    {
      assert str[..i + 1][..i] == str[..i];
      rail := rail[row := rail[row] + [str[i]]];
      ZigZagStep(numRails, i);
      if row == 0 || row == numRails - 1 {
        dirDown := !dirDown;
      }
      row := if dirDown then row + 1 else row - 1;
      i := i + 1;
    }
    assert str[..i] == str;
    result := Flatten(rail);
  }

  /** The rails hold exactly the characters of the text: the ciphertext is a permutation of it. */
  lemma {:induction false} RailFencePermutation(s: seq<char>, n: int)
    requires n >= 2
    ensures |Flatten(RailsOf(s, n))| == |s|
    ensures multiset(Flatten(RailsOf(s, n))) == multiset(s)
    decreases |s|
  {
    if s == [] {
      var empty: seq<seq<char>> := seq(n, _ => []);
      EmptyRails(empty);
    } else {
      var init := s[..|s| - 1];
      RailFencePermutation(init, n);
      FlattenPush(RailsOf(init, n), RowAt(n, |s| - 1), s[|s| - 1]);
      assert s == init + [s[|s| - 1]];
    }
  }

  lemma {:induction false} EmptyRails(rails: seq<seq<char>>)
    requires forall q :: 0 <= q < |rails| ==> rails[q] == []
    ensures Flatten(rails) == []
    decreases |rails|
  {
    if rails != [] {
      EmptyRails(rails[1..]);
    }
  }

  /** The row lengths depend only on the length of the text, not on its characters. */
  lemma {:induction false} RailsShape(s: seq<char>, t: seq<char>, n: int)
    requires n >= 2 && |s| == |t|
    ensures Lengths(RailsOf(s, n)) == Lengths(RailsOf(t, n))
    decreases |s|
  {
    if s != [] {
      RailsShape(s[..|s| - 1], t[..|t| - 1], n);
    }
  }

  /** Every character on a rail comes from the text. */
  lemma {:induction false} RailsFromText(s: seq<char>, n: int, q: nat, k: nat)
    requires n >= 2 && q < n && k < |RailsOf(s, n)[q]|
    ensures RailsOf(s, n)[q][k] in s
    decreases |s|
  {
    var init := s[..|s| - 1];
    if k < |RailsOf(init, n)[q]| {
      RailsFromText(init, n, q, k);
    }
  }

  function Stars(len: nat): (s: seq<char>)
    ensures |s| == len && forall k :: 0 <= k < len ==> s[k] == '*'
  {
    seq(len, _ => '*')
  }

  /**
    The rails of `railFenceDecrypt` after its marking loop (script.js:87-91)
    and its fill loop (script.js:93-100): the marks have the shape of the
    encoder's rails for a text of this length, and the fill hands each row,
    top to bottom, the next consecutive slice of the ciphertext.
   */
  function FilledRails(str: seq<char>, n: int): (rails: seq<seq<char>>)
    requires n >= 2
    ensures |rails| == n
  {
    RailFencePermutation(Stars(|str|), n);
    FlattenLength(RailsOf(Stars(|str|), n));
    Segments(str, Lengths(RailsOf(Stars(|str|), n)))
  }

  /**
    The marking loop of script.js:83-91: '*' is pushed along the same walk as
    in `railFenceCipher`, so the marks have the shape of the encoder's rails.
   */
  method MarkRails(len: nat, numRails: int) returns (rail: seq<seq<char>>)
    requires numRails >= 2
    ensures rail == RailsOf(Stars(len), numRails)
  {
    var stars := Stars(len);
    rail := seq(numRails, _ => []);
    var dirDown := false;
    var row := 0;
    var i := 0;
    while i < len
      invariant 0 <= i <= len
      invariant row == RowAt(numRails, i) && dirDown == GoingDown(numRails, i)
      invariant rail == RailsOf(stars[..i], numRails)
    {
      assert stars[..i + 1][..i] == stars[..i];
      rail := rail[row := rail[row] + ['*']];
      ZigZagStep(numRails, i);
      if row == 0 || row == numRails - 1 {
        dirDown := !dirDown;
      }
      row := if dirDown then row + 1 else row - 1;
      i := i + 1;
    }
    assert stars[..i] == stars;
  }

  /**
    One pass of the inner fill loop of script.js:95-99 over row `r`: every
    cell still holding '*' takes the next ciphertext character. The test
    `rail[i][j] === '*'` is false past the end of the row.
   */
  method FillRow(str: seq<char>, rail: seq<seq<char>>, r: nat, index: nat) returns (rail': seq<seq<char>>, index': nat)
    requires r < |rail| && index + |rail[r]| <= |str|
    requires forall k :: 0 <= k < |rail[r]| ==> rail[r][k] == '*'
    ensures index' == index + |rail[r]|
    ensures rail' == rail[r := str[index..index']]
  {
    rail', index' := rail, index;
    assert str[index..index] + rail[r][0..] == rail[r];
    var j := 0;
    while j < |str|
      invariant 0 <= j <= |str|
      invariant index' == index + Min(j, |rail[r]|)
      invariant rail' == rail[r := str[index..index'] + rail[r][Min(j, |rail[r]|)..]]
    {
      if j < |rail'[r]| && rail'[r][j] == '*' && index' < |str| {
        assert rail'[r][j := str[index']] == str[index..index' + 1] + rail[r][j + 1..];
        rail' := rail'[r := rail'[r][j := str[index']]];
        index' := index' + 1;
      }
      j := j + 1;
    }
    assert str[index..index'] + rail[r][|rail[r]|..] == str[index..index'];
  }

  /**
    The marking and fill loops of `railFenceDecrypt` (script.js:83-100),
    which its corrected variant below shares.
   */
  method LayOutRails(str: seq<char>, numRails: int) returns (rail: seq<seq<char>>)
    requires numRails >= 2
    ensures rail == FilledRails(str, numRails)
  {
    rail := MarkRails(|str|, numRails);
    ghost var marks := rail;
    ghost var lens := Lengths(marks);
    RailFencePermutation(Stars(|str|), numRails);
    FlattenLength(marks);
    assert Sum(lens) == |str|;
    ghost var segments := Segments(str, lens);
    var index := 0;
    var r := 0;
    while r < numRails
      invariant 0 <= r <= numRails && |rail| == numRails
      invariant index == Sum(lens[..r])
      invariant forall q :: 0 <= q < r ==> rail[q] == segments[q]
      invariant forall q :: r <= q < numRails ==> rail[q] == marks[q]
    {
      SumPrefixStep(lens, r);
      SegmentAt(str, lens, r);
      forall k | 0 <= k < |rail[r]| ensures rail[r][k] == '*' {
        RailsFromText(Stars(|str|), numRails, r, k);
      }
      var rail', index' := FillRow(str, rail, r, index);
      assert rail' == rail[r := segments[r]];
      FillStep(marks, segments, rail, rail', r);
      rail, index, r := rail', index', r + 1;
    }
    assert rail == segments;
  }

  /** Filling row `r` with its segment moves the boundary between filled and marked rows down by one. */
  lemma FillStep(marks: seq<seq<char>>, segments: seq<seq<char>>, rail: seq<seq<char>>, rail': seq<seq<char>>, r: nat)
    requires |marks| == |segments| == |rail| && r < |rail|
    requires forall q :: 0 <= q < r ==> rail[q] == segments[q]
    requires forall q :: r <= q < |rail| ==> rail[q] == marks[q]
    requires rail' == rail[r := segments[r]]
    ensures |rail'| == |rail|
    ensures forall q :: 0 <= q < r + 1 ==> rail'[q] == segments[q]
    ensures forall q :: r + 1 <= q < |rail| ==> rail'[q] == marks[q]
  {
  }

  /** What `rail[row][i]` contributes to `result`: the character, or "undefined" past the row's end. */
  function CellText(row: seq<char>, i: nat): (t: seq<char>)
    ensures i < |row| ==> t == [row[i]]
    ensures i >= |row| ==> t == "undefined"
  {
    if i < |row| then [row[i]] else "undefined"
  }

  /**
    The read-back of script.js:102-110 over the first `len` positions of the
    walk: every position adds one character, or the nine of "undefined".
   */
  function ReadAsWritten(rails: seq<seq<char>>, n: int, len: nat): (r: seq<char>)
    requires n >= 2 && |rails| == n
    ensures len <= |r| <= 9 * len
  {
    if len == 0 then []
    else ReadAsWritten(rails, n, len - 1) + CellText(rails[RowAt(n, len - 1)], len - 1)
  }

  /**
    The read-back has exactly one character per position exactly when no row
    runs out before the last position the walk sends to it.
   */
  lemma {:induction false} ReadAsWrittenExact(rails: seq<seq<char>>, n: int, len: nat)
    requires n >= 2 && |rails| == n
    ensures |ReadAsWritten(rails, n, len)| == len <==> forall i :: 0 <= i < len ==> i < |rails[RowAt(n, i)]|
  {
    if len > 0 {
      ReadAsWrittenExact(rails, n, len - 1);
      var row := rails[RowAt(n, len - 1)];
      assert ReadAsWritten(rails, n, len) == ReadAsWritten(rails, n, len - 1) + CellText(row, len - 1);
      if |ReadAsWritten(rails, n, len)| == len {
        assert |CellText(row, len - 1)| == 1;
      }
    }
  }

  /** `railFenceDecrypt(str, numRails)` as written. */
  method RailFenceDecrypt(str: seq<char>, numRails: int) returns (result: seq<char>)
    requires numRails >= 2
    ensures result == ReadAsWritten(FilledRails(str, numRails), numRails, |str|)
  {
    var rail := LayOutRails(str, numRails);
    result := [];
    var row := 0;
    var dirDown := false;
    var i := 0;
    while i < |str|
      invariant 0 <= i <= |str|
      invariant row == RowAt(numRails, i) && dirDown == GoingDown(numRails, i)
      invariant result == ReadAsWritten(rail, numRails, i)
    {
      result := result + CellText(rail[row], i);
      ZigZagStep(numRails, i);
      if row == 0 || row == numRails - 1 {
        dirDown := !dirDown;
      }
      row := if dirDown then row + 1 else row - 1;
      i := i + 1;
    }
  }

  /**
    After the marking and fill loops of `railFenceDecrypt`, run on a
    ciphertext of `railFenceCipher`, every row equals the encoder's row.
   */
  lemma FillRecoversRails(t: seq<char>, n: int)
    requires n >= 2
    ensures FilledRails(Flatten(RailsOf(t, n)), n) == RailsOf(t, n)
  {
    var rails := RailsOf(t, n);
    RailFencePermutation(t, n);
    RailsShape(Stars(|t|), t, n);
    SegmentsOfFlatten(rails);
  }

  /** The rails of "ABC" on two rails: 'A' and 'C' on the top row, 'B' below. */
  lemma RailsOfABC()
    ensures RailsOf("ABC", 2) == ["AC", "B"]
  {
    var r0, r1, r2, rails := RailsOf([], 2), RailsOf("A", 2), RailsOf("AB", 2), RailsOf("ABC", 2);
    assert r0 == [[], []];
    assert "A"[..0] == [] && "AB"[..1] == "A" && "ABC"[..2] == "AB";
    assert RowAt(2, 0) == 0 && RowAt(2, 1) == 1 && RowAt(2, 2) == 0;
    assert r1 == r0[0 := r0[0] + ['A']];
    assert r1[0] == "A" && r1[1] == [];
    assert r2 == r1[1 := r1[1] + ['B']];
    assert r2[0] == "A" && r2[1] == "B";
    assert rails == r2[0 := r2[0] + ['C']];
    assert rails[0] == "AC" && rails[1] == "B";
  }

  /**
    The decryption as written does not invert the encryption: "ABC" on two
    rails encrypts to "ACB", which decrypts to "Aundefinedundefined".
   */
  lemma AsWrittenBreaksRoundTrip()
    ensures Flatten(RailsOf("ABC", 2)) == "ACB"
    ensures ReadAsWritten(FilledRails(Flatten(RailsOf("ABC", 2)), 2), 2, 3) == "Aundefinedundefined"
  {
    var rails := RailsOf("ABC", 2);
    RailsOfABC();
    assert Flatten(rails) == "ACB" by {
      assert rails[1..] == ["B"] && rails[1..][1..] == [];
    }
    FillRecoversRails("ABC", 2);
    assert RowAt(2, 0) == 0 && RowAt(2, 1) == 1 && RowAt(2, 2) == 0;
    var r1 := ReadAsWritten(rails, 2, 1);
    assert r1 == "A";
    var r2 := ReadAsWritten(rails, 2, 2);
    assert r2 == r1 + CellText(rails[1], 1) == "Aundefined";
    assert ReadAsWritten(rails, 2, 3) == r2 + CellText(rails[0], 2);
  }

  /** How many of the first `i` positions of the walk lie on row `q`: the per-row read cursor. */
  function Visits(n: int, i: nat, q: int): nat
    requires n >= 2
  {
    if i == 0 then 0 else Visits(n, i - 1, q) + (if RowAt(n, i - 1) == q then 1 else 0)
  }

  /** The read-back with a cursor per row, reading `rail[row][cursor[row]++]`. */
  function ReadWithCursors(rails: seq<seq<char>>, n: int, len: nat): seq<char>
    requires n >= 2 && |rails| == n
  {
    if len == 0 then []
    else
      var r := RowAt(n, len - 1);
      ReadWithCursors(rails, n, len - 1) + CellText(rails[r], Visits(n, len - 1, r))
  }

  /**
    Corrected `railFenceDecrypt`: the marking and fill loops are unchanged;
    the read-back keeps one cursor per row instead of indexing every row
    with the global position.
   */
  method RailFenceDecryptFixed(str: seq<char>, numRails: int) returns (result: seq<char>)
    requires numRails >= 2
    ensures result == ReadWithCursors(FilledRails(str, numRails), numRails, |str|)
  {
    var rail := LayOutRails(str, numRails);
    var cursor: seq<nat> := seq(numRails, _ => 0);
    result := [];
    var row := 0;
    var dirDown := false;
    var i := 0;
    while i < |str|
      invariant 0 <= i <= |str| && |rail| == numRails
      invariant ReadState(rail, numRails, i, row, dirDown, cursor, result)
    {
      var cell := CellText(rail[row], cursor[row]);
      var cursor' := cursor[row := cursor[row] + 1];
      var dirDown' := if row == 0 || row == numRails - 1 then !dirDown else dirDown;
      var row' := if dirDown' then row + 1 else row - 1;
      ReadStep(rail, numRails, i, row, dirDown, cursor, result, row', dirDown', cursor', result + cell);
      result, cursor, row, dirDown, i := result + cell, cursor', row', dirDown', i + 1;
    }
  }

  /** The state of the corrected read-back loop after `i` positions of the walk. */
  predicate ReadState(rail: seq<seq<char>>, n: int, i: nat, row: int, dirDown: bool, cursor: seq<nat>, result: seq<char>)
    requires n >= 2 && |rail| == n
  {
    |cursor| == n && row == RowAt(n, i) && dirDown == GoingDown(n, i)
    && (forall q :: 0 <= q < n ==> cursor[q] == Visits(n, i, q))
    && result == ReadWithCursors(rail, n, i)
  }

  /** One iteration of the corrected read-back loop keeps its state. */
  lemma ReadStep(rail: seq<seq<char>>, n: int, i: nat, row: int, dirDown: bool, cursor: seq<nat>, result: seq<char>,
                 row': int, dirDown': bool, cursor': seq<nat>, result': seq<char>)
    requires n >= 2 && |rail| == n && ReadState(rail, n, i, row, dirDown, cursor, result)
    requires result' == result + CellText(rail[row], cursor[row])
    requires cursor' == cursor[row := cursor[row] + 1]
    requires dirDown' == if row == 0 || row == n - 1 then !dirDown else dirDown
    requires row' == if dirDown' then row + 1 else row - 1
    ensures ReadState(rail, n, i + 1, row', dirDown', cursor', result')
  {
    CursorsStep(n, i, cursor, cursor');
    NextRow(n, i, row, dirDown, dirDown', row');
  }

  /** Moving the cursor of the current row keeps every cursor at its row's visit count. */
  lemma CursorsStep(n: int, i: nat, cursor: seq<nat>, next: seq<nat>)
    requires n >= 2 && |cursor| == n
    requires forall q :: 0 <= q < n ==> cursor[q] == Visits(n, i, q)
    requires next == cursor[RowAt(n, i) := cursor[RowAt(n, i)] + 1]
    ensures forall q :: 0 <= q < n ==> next[q] == Visits(n, i + 1, q)
  {
  }

  /** The cursor of row `q` after `i` steps is the length of that row after `i` pushes. */
  lemma {:induction false} VisitsCountPushes(s: seq<char>, n: int, q: int)
    requires n >= 2 && 0 <= q < n
    ensures Visits(n, |s|, q) == |RailsOf(s, n)[q]|
    decreases |s|
  {
    if s != [] {
      VisitsCountPushes(s[..|s| - 1], n, q);
    }
  }

  /** A rail only grows as the text goes on. */
  lemma {:induction false} RailsGrow(t: seq<char>, n: int, a: nat, b: nat, q: int)
    requires n >= 2 && a <= b <= |t| && 0 <= q < n
    ensures RailsOf(t[..a], n)[q] <= RailsOf(t[..b], n)[q]
    decreases b - a
  {
    if a < b {
      RailsGrow(t, n, a, b - 1, q);
      assert t[..b][..b - 1] == t[..b - 1];
    }
  }

  /** Reading with per-row cursors along the walk returns the text the rails were built from. */
  lemma {:induction false} CursorsReadText(t: seq<char>, n: int, i: nat)
    requires n >= 2 && i <= |t|
    ensures ReadWithCursors(RailsOf(t, n), n, i) == t[..i]
    decreases i
  {
    if i > 0 {
      CursorsReadText(t, n, i - 1);
      var r := RowAt(n, i - 1);
      var before := RailsOf(t[..i - 1], n)[r];
      VisitsCountPushes(t[..i - 1], n, r);
      PushedLast(t, n, i);
      RailsGrow(t, n, i, |t|, r);
      assert t[..|t|] == t;
      assert RailsOf(t, n)[r][|before|] == t[i - 1];
      PrefixSnoc(t, i);
    }
  }

  /** The `i`-th character of the text is pushed at the end of the row the walk is on. */
  lemma PushedLast(t: seq<char>, n: int, i: nat)
    requires n >= 2 && 0 < i <= |t|
    ensures RailsOf(t[..i], n)[RowAt(n, i - 1)] == RailsOf(t[..i - 1], n)[RowAt(n, i - 1)] + [t[i - 1]]
  {
    assert t[..i][..i - 1] == t[..i - 1];
  }

  /** The corrected decryption inverts `railFenceCipher` for every text and every rail count of at least 2. */
  lemma RailFenceRoundTrip(t: seq<char>, n: int)
    requires n >= 2
    ensures ReadWithCursors(FilledRails(Flatten(RailsOf(t, n)), n), n, |Flatten(RailsOf(t, n))|) == t
  {
    FillRecoversRails(t, n);
    RailFencePermutation(t, n);
    CursorsReadText(t, n, |t|);
    assert t[..|t|] == t;
  }

  /** The rails of `t` on three rails are `a`, `b` and `c`. */
  predicate ThreeRails(t: seq<char>, a: seq<char>, b: seq<char>, c: seq<char>)
  {
    RailsOf(t, 3)[0] == a && RailsOf(t, 3)[1] == b && RailsOf(t, 3)[2] == c
  }

  /**
    One step of the walk on three rails: if the rails of the first `k`
    characters are `a`, `b`, `c`, the next character joins the rail of its
    row (0, 1, 2, 1 as `k % 4` runs from 0 to 3) and the other two rails
    stay as they are.
   */
  lemma WalkStep(s: seq<char>, k: nat, a: seq<char>, b: seq<char>, c: seq<char>,
                 a': seq<char>, b': seq<char>, c': seq<char>)
    requires k < |s| && ThreeRails(s[..k], a, b, c)
    requires a' == if k % 4 == 0 then a + [s[k]] else a
    requires b' == if k % 4 == 1 || k % 4 == 3 then b + [s[k]] else b
    requires c' == if k % 4 == 2 then c + [s[k]] else c
    ensures ThreeRails(s[..k + 1], a', b', c')
  {
    WalkPeriod(3, k);
    assert s[..k + 1][..k] == s[..k];
  }

  /** The walk over "WEAREDISCOVEREDFLEEATONCE", three characters at a time. */
  lemma WalkTo3(s: seq<char>)
    requires |s| == 25 && s[0] == 'W' && s[1] == 'E' && s[2] == 'A'
    requires ThreeRails(s[..0], "", "", "")
    ensures ThreeRails(s[..3], "W", "E", "A")
  {
    WalkStep(s, 0, "", "", "", "W", "", "");
    WalkStep(s, 1, "W", "", "", "W", "E", "");
    WalkStep(s, 2, "W", "E", "", "W", "E", "A");
  }

  lemma WalkTo6(s: seq<char>)
    requires |s| == 25 && s[3] == 'R' && s[4] == 'E' && s[5] == 'D'
    requires ThreeRails(s[..3], "W", "E", "A")
    ensures ThreeRails(s[..6], "WE", "ERD", "A")
  {
    WalkStep(s, 3, "W", "E", "A", "W", "ER", "A");
    WalkStep(s, 4, "W", "ER", "A", "WE", "ER", "A");
    WalkStep(s, 5, "WE", "ER", "A", "WE", "ERD", "A");
  }

  lemma WalkTo9(s: seq<char>)
    requires |s| == 25 && s[6] == 'I' && s[7] == 'S' && s[8] == 'C'
    requires ThreeRails(s[..6], "WE", "ERD", "A")
    ensures ThreeRails(s[..9], "WEC", "ERDS", "AI")
  {
    WalkStep(s, 6, "WE", "ERD", "A", "WE", "ERD", "AI");
    WalkStep(s, 7, "WE", "ERD", "AI", "WE", "ERDS", "AI");
    WalkStep(s, 8, "WE", "ERDS", "AI", "WEC", "ERDS", "AI");
  }

  lemma WalkTo12(s: seq<char>)
    requires |s| == 25 && s[9] == 'O' && s[10] == 'V' && s[11] == 'E'
    requires ThreeRails(s[..9], "WEC", "ERDS", "AI")
    ensures ThreeRails(s[..12], "WEC", "ERDSOE", "AIV")
  {
    WalkStep(s, 9, "WEC", "ERDS", "AI", "WEC", "ERDSO", "AI");
    WalkStep(s, 10, "WEC", "ERDSO", "AI", "WEC", "ERDSO", "AIV");
    WalkStep(s, 11, "WEC", "ERDSO", "AIV", "WEC", "ERDSOE", "AIV");
  }

  lemma WalkTo15(s: seq<char>)
    requires |s| == 25 && s[12] == 'R' && s[13] == 'E' && s[14] == 'D'
    requires ThreeRails(s[..12], "WEC", "ERDSOE", "AIV")
    ensures ThreeRails(s[..15], "WECR", "ERDSOEE", "AIVD")
  {
    WalkStep(s, 12, "WEC", "ERDSOE", "AIV", "WECR", "ERDSOE", "AIV");
    WalkStep(s, 13, "WECR", "ERDSOE", "AIV", "WECR", "ERDSOEE", "AIV");
    WalkStep(s, 14, "WECR", "ERDSOEE", "AIV", "WECR", "ERDSOEE", "AIVD");
  }

  lemma WalkTo18(s: seq<char>)
    requires |s| == 25 && s[15] == 'F' && s[16] == 'L' && s[17] == 'E'
    requires ThreeRails(s[..15], "WECR", "ERDSOEE", "AIVD")
    ensures ThreeRails(s[..18], "WECRL", "ERDSOEEFE", "AIVD")
  {
    WalkStep(s, 15, "WECR", "ERDSOEE", "AIVD", "WECR", "ERDSOEEF", "AIVD");
    WalkStep(s, 16, "WECR", "ERDSOEEF", "AIVD", "WECRL", "ERDSOEEF", "AIVD");
    WalkStep(s, 17, "WECRL", "ERDSOEEF", "AIVD", "WECRL", "ERDSOEEFE", "AIVD");
  }

  lemma WalkTo20(s: seq<char>)
    requires |s| == 25 && s[18] == 'E' && s[19] == 'A'
    requires ThreeRails(s[..18], "WECRL", "ERDSOEEFE", "AIVD")
    ensures ThreeRails(s[..20], "WECRL", "ERDSOEEFEA", "AIVDE")
  {
    WalkStep(s, 18, "WECRL", "ERDSOEEFE", "AIVD", "WECRL", "ERDSOEEFE", "AIVDE");
    WalkStep(s, 19, "WECRL", "ERDSOEEFE", "AIVDE", "WECRL", "ERDSOEEFEA", "AIVDE");
  }

  lemma WalkTo21(s: seq<char>)
    requires |s| == 25 && s[20] == 'T'
    requires ThreeRails(s[..20], "WECRL", "ERDSOEEFEA", "AIVDE")
    ensures ThreeRails(s[..21], "WECRLT", "ERDSOEEFEA", "AIVDE")
  {
    WalkStep(s, 20, "WECRL", "ERDSOEEFEA", "AIVDE", "WECRLT", "ERDSOEEFEA", "AIVDE");
  }

  lemma WalkTo24(s: seq<char>)
    requires |s| == 25 && s[21] == 'O' && s[22] == 'N' && s[23] == 'C'
    requires ThreeRails(s[..21], "WECRLT", "ERDSOEEFEA", "AIVDE")
    ensures ThreeRails(s[..24], "WECRLT", "ERDSOEEFEAOC", "AIVDEN")
  {
    WalkStep(s, 21, "WECRLT", "ERDSOEEFEA", "AIVDE", "WECRLT", "ERDSOEEFEAO", "AIVDE");
    WalkStep(s, 22, "WECRLT", "ERDSOEEFEAO", "AIVDE", "WECRLT", "ERDSOEEFEAO", "AIVDEN");
    WalkStep(s, 23, "WECRLT", "ERDSOEEFEAO", "AIVDEN", "WECRLT", "ERDSOEEFEAOC", "AIVDEN");
  }

  lemma WalkTo25(s: seq<char>)
    requires |s| == 25 && s[24] == 'E'
    requires ThreeRails(s[..24], "WECRLT", "ERDSOEEFEAOC", "AIVDEN")
    ensures ThreeRails(s, "WECRLTE", "ERDSOEEFEAOC", "AIVDEN")
  {
    WalkStep(s, 24, "WECRLT", "ERDSOEEFEAOC", "AIVDEN", "WECRLTE", "ERDSOEEFEAOC", "AIVDEN");
    assert s[..25] == s;
  }

  /** The letters of the example, a few at a time. */
  lemma ExampleLetters1(s: seq<char>)
    requires s == "WEAREDISCOVEREDFLEEATONCE"
    ensures |s| == 25 && s[0] == 'W' && s[1] == 'E' && s[2] == 'A'
  {
  }

  lemma ExampleLetters2(s: seq<char>)
    requires s == "WEAREDISCOVEREDFLEEATONCE"
    ensures s[3] == 'R' && s[4] == 'E' && s[5] == 'D'
  {
  }

  lemma ExampleLetters3(s: seq<char>)
    requires s == "WEAREDISCOVEREDFLEEATONCE"
    ensures s[6] == 'I' && s[7] == 'S' && s[8] == 'C' && s[9] == 'O'
  {
  }

  lemma ExampleLetters4(s: seq<char>)
    requires s == "WEAREDISCOVEREDFLEEATONCE"
    ensures s[10] == 'V' && s[11] == 'E' && s[12] == 'R' && s[13] == 'E' && s[14] == 'D' && s[15] == 'F' && s[16] == 'L'
  {
  }

  lemma ExampleLetters5(s: seq<char>)
    requires s == "WEAREDISCOVEREDFLEEATONCE"
    ensures s[17] == 'E' && s[18] == 'E' && s[19] == 'A' && s[20] == 'T' && s[21] == 'O' && s[22] == 'N' && s[23] == 'C' && s[24] == 'E'
  {
  }

  /** The rails of "WEAREDISCOVEREDFLEEATONCE" on three rails. */
  lemma RailsOfExample(s: seq<char>)
    requires s == "WEAREDISCOVEREDFLEEATONCE"
    ensures ThreeRails(s, "WECRLTE", "ERDSOEEFEAOC", "AIVDEN")
  {
    ExampleLetters1(s);
    ExampleLetters2(s);
    ExampleLetters3(s);
    ExampleLetters4(s);
    ExampleLetters5(s);
    assert s[..0] == [];
    WalkTo3(s);
    WalkTo6(s);
    WalkTo9(s);
    WalkTo12(s);
    WalkTo15(s);
    WalkTo18(s);
    WalkTo20(s);
    WalkTo21(s);
    WalkTo24(s);
    WalkTo25(s);
  }

  /**
    A textbook example: "WEAREDISCOVEREDFLEEATONCE" on three rails gives
    "WECRLTEERDSOEEFEAOCAIVDEN".
   */
  lemma RailFenceExample(s: seq<char>)
    requires s == "WEAREDISCOVEREDFLEEATONCE"
    ensures Flatten(RailsOf(s, 3)) == "WECRLTEERDSOEEFEAOCAIVDEN"
  {
    RailsOfExample(s);
    var rails := RailsOf(s, 3);
    var r1, r2 := rails[1..], rails[1..][1..];
    assert r1[0] == rails[1] && r2[0] == rails[2] && r2[1..] == [];
    assert Flatten(r2) == rails[2];
    assert Flatten(r1) == rails[1] + rails[2];
    assert Flatten(rails) == rails[0] + rails[1] + rails[2];
  }
}
