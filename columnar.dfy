/**
  The columnar transposition of script.js:116-165. For a key of length `k`
  both functions build a matrix of `r = ceil(n / k)` rows and `k` columns
  (the source calls `r` "columns"), every cell first holding `''`.

  `columnarCipher` fills the matrix column by column from the text, so column
  `c` receives the consecutive chunk `s[c*r .. c*r+r)` (cut short at the end
  of the text), and then emits the columns in the order of a stable sort of
  the key characters. `columnarDecrypt` refills whole columns in that sorted
  order from the ciphertext, reads the matrix row by row and finally deletes
  every "null" from the result.
 */
module Columnar {
  import opened JsText
  import Seqs

  /** `Math.ceil(str.length / keyLength)`: the number of matrix rows. */
  function Rows(n: nat, k: nat): (r: nat)
    requires k > 0
  {
    (n + k - 1) / k
  }

  /** The `r` rows are enough to hold the text: `k * r >= n`, and no row is wasted. */
  lemma RowsBound(n: nat, k: nat)
    requires k > 0
    ensures k * Rows(n, k) >= n
    ensures Rows(n, k) > 0 ==> k * (Rows(n, k) - 1) < n
  {
    var r := Rows(n, k);
    var m := (n + k - 1) % k;
    assert n + k - 1 == k * r + m && 0 <= m < k;
    if r > 0 {
      assert k * (r - 1) == k * r - k;
    }
  }

  // ---------------------------------------------------------------------------
  // The stable sort of the key (script.js:130 and 146)
  // ---------------------------------------------------------------------------

  /**
    Column `a` precedes column `b` in a stable sort by key character: its
    character is smaller, or equal and it comes first in the key. Characters
    are compared by code.
   */
  predicate Before(key: seq<char>, a: nat, b: nat)
    requires a < |key| && b < |key|
  {
    key[a] < key[b] || (key[a] == key[b] && a < b)
  }

  predicate InKey(key: seq<char>, o: seq<nat>)
  {
    forall t :: 0 <= t < |o| ==> o[t] < |key|
  }

  /** `o` lists columns in strictly increasing `Before` order. */
  predicate StablySorted(key: seq<char>, o: seq<nat>)
    requires InKey(key, o)
  {
    forall t, u :: 0 <= t < u < |o| ==> Before(key, o[t], o[u])
  }

  /** Where column `i` goes when inserted behind every column whose character is not larger. */
  function InsertPos(o: seq<nat>, key: seq<char>, i: nat): (p: nat)
    requires i < |key| && InKey(key, o)
    ensures p <= |o|
  {
    if o == [] || key[i] < key[o[0]] then 0 else 1 + InsertPos(o[1..], key, i)
  }

  /** The columns `0 .. k-1` ordered by an insertion sort that keeps ties in key order. */
  function KeyOrderOf(key: seq<char>, k: nat): (o: seq<nat>)
    requires k <= |key|
    ensures |o| == k && forall t :: 0 <= t < k ==> o[t] < k
  {
    if k == 0 then []
    else
      var o := KeyOrderOf(key, k - 1);
      var p := InsertPos(o, key, k - 1);
      assert forall t :: 0 <= t < |o| ==> o[t] < k - 1;
      o[..p] + [k - 1] + o[p..]
  }

  /** The `index` fields of `sortedKey`, in order. */
  function SortedKeyOrder(key: seq<char>): (o: seq<nat>)
    ensures |o| == |key| && InKey(key, o)
  {
    KeyOrderOf(key, |key|)
  }

  /** In a sorted order, the insertion point separates the columns not after `i` from those after it. */
  lemma {:induction false} InsertPosSplits(o: seq<nat>, key: seq<char>, i: nat)
    requires i < |key| && InKey(key, o) && StablySorted(key, o)
    ensures forall t :: 0 <= t < InsertPos(o, key, i) ==> key[o[t]] <= key[i]
    ensures forall t :: InsertPos(o, key, i) <= t < |o| ==> key[i] < key[o[t]]
    decreases |o|
  {
    if o != [] && key[o[0]] <= key[i] {
      InsertPosSplits(o[1..], key, i);
      forall t | 1 <= t < |o| ensures Before(key, o[0], o[t]) {
      }
    } else if o != [] {
      forall t | 0 < t < |o| ensures key[i] < key[o[t]] {
        assert Before(key, o[0], o[t]);
      }
    }
  }

  /** Where the elements of `o` sit once `i` is inserted at `p`. */
  lemma InsertedAt(o: seq<nat>, i: nat, p: nat)
    requires p <= |o|
    ensures |o[..p] + [i] + o[p..]| == |o| + 1
    ensures forall t :: 0 <= t < p ==> (o[..p] + [i] + o[p..])[t] == o[t]
    ensures (o[..p] + [i] + o[p..])[p] == i
    ensures forall t :: p < t <= |o| ==> (o[..p] + [i] + o[p..])[t] == o[t - 1]
  {
  }

  /** Inserting `i`, larger than every listed column, at its insertion point keeps the order sorted. */
  lemma InsertKeepsSorted(o: seq<nat>, key: seq<char>, i: nat)
    requires i < |key| && InKey(key, o) && StablySorted(key, o)
    requires forall t :: 0 <= t < |o| ==> o[t] < i
    ensures InKey(key, o[..InsertPos(o, key, i)] + [i] + o[InsertPos(o, key, i)..])
    ensures StablySorted(key, o[..InsertPos(o, key, i)] + [i] + o[InsertPos(o, key, i)..])
  {
    var p := InsertPos(o, key, i);
    InsertPosSplits(o, key, i);
    var o' := o[..p] + [i] + o[p..];
    InsertedAt(o, i, p);
    forall t, u | 0 <= t < u < |o'| ensures Before(key, o'[t], o'[u]) {
      if u < p {
      } else if u == p {
      } else if t < p {
        assert key[o[t]] <= key[i] < key[o[u - 1]];
      } else if t == p {
      } else {
        assert Before(key, o[t - 1], o[u - 1]);
      }
    }
  }

  /**
    The order of `sortedKey` is sorted by character with ties in key order,
    which is what the stable `Array.prototype.sort` yields, and it lists
    every column exactly once.
   */
  lemma {:induction false} KeyOrderIsStableSort(key: seq<char>, k: nat)
    requires k <= |key|
    ensures StablySorted(key, KeyOrderOf(key, k))
    ensures forall t, u :: 0 <= t < u < k ==> KeyOrderOf(key, k)[t] != KeyOrderOf(key, k)[u]
    ensures forall c :: 0 <= c < k ==> c in KeyOrderOf(key, k)
  {
    if k > 0 {
      KeyOrderIsStableSort(key, k - 1);
      InsertKeepsSorted(KeyOrderOf(key, k - 1), key, k - 1);
      KeyOrderCovers(key, k, KeyOrderOf(key, k - 1));
      var o' := KeyOrderOf(key, k);
      forall t, u | 0 <= t < u < k ensures o'[t] != o'[u] {
        assert Before(key, o'[t], o'[u]);
      }
    }
  }

  lemma KeyOrderCovers(key: seq<char>, k: nat, o: seq<nat>)
    requires 0 < k <= |key| && o == KeyOrderOf(key, k - 1)
    requires forall c :: 0 <= c < k - 1 ==> c in o
    ensures forall c :: 0 <= c < k ==> c in KeyOrderOf(key, k)
  {
    var i := k - 1;
    var p := InsertPos(o, key, i);
    var o' := o[..p] + [i] + o[p..];
    forall c | 0 <= c < k ensures c in o' {
      if c < i {
        assert c in o;
        var t :| 0 <= t < |o| && o[t] == c;
        if t < p {
          assert o'[t] == c;
        } else {
          assert o'[t + 1] == c;
        }
      } else {
        assert o'[p] == c;
      }
    }
  }

  /** A key whose characters never decrease keeps its columns in place. */
  lemma {:induction false} SortedKeyKeepsOrder(key: seq<char>, k: nat)
    requires k <= |key|
    requires forall a, b :: 0 <= a < b < |key| ==> key[a] <= key[b]
    ensures KeyOrderOf(key, k) == Range(k)
  {
    if k > 0 {
      SortedKeyKeepsOrder(key, k - 1);
      InsertPosAtEnd(Range(k - 1), key, k - 1);
      assert Range(k - 1) + [k - 1] == Range(k);
    }
  }

  lemma {:induction false} InsertPosAtEnd(o: seq<nat>, key: seq<char>, i: nat)
    requires i < |key| && InKey(key, o)
    requires forall t :: 0 <= t < |o| ==> key[o[t]] <= key[i]
    ensures InsertPos(o, key, i) == |o|
    decreases |o|
  {
    if o != [] {
      InsertPosAtEnd(o[1..], key, i);
    }
  }

  /** The columns `0 .. k-1` in their own order. */
  function Range(k: nat): (o: seq<nat>)
    ensures |o| == k && forall t :: 0 <= t < k ==> o[t] == t
  {
    seq(k, t requires 0 <= t < k => t)
  }

  // ---------------------------------------------------------------------------
  // The encoder (script.js:116-140)
  // ---------------------------------------------------------------------------

  /** The content of one matrix cell: `''` (None) or one character. */
  function Text(cell: Option<char>): (t: seq<char>)
    ensures cell == None ==> t == []
    ensures cell.Some? ==> t == [cell.value]
  {
    match cell
    case None => []
    case Some(x) => [x]
  }

  /**
    Cell `i` of column `c` after the column-by-column fill of `s` into `r`
    rows: the character at position `c * r + i`, or `''` past the end.
   */
  function ColumnCell(s: seq<char>, r: nat, i: nat, c: nat): Option<char>
  {
    if c * r + i < |s| then Some(s[c * r + i]) else None
  }

  /** The text of column `c` after that fill: the `c`-th run of `r` characters, cut at the end of `s`. */
  function Chunk(s: seq<char>, r: nat, c: nat): (t: seq<char>)
    ensures |t| <= r
  {
    s[Min(c * r, |s|)..Min(c * r + r, |s|)]
  }

  /** The chunks of all `k` columns. */
  function Chunks(s: seq<char>, r: nat, k: nat): (cs: seq<seq<char>>)
    ensures |cs| == k && forall c :: 0 <= c < k ==> cs[c] == Chunk(s, r, c)
  {
    seq(k, c requires 0 <= c < k => Chunk(s, r, c))
  }

  /** The parts listed in `o`, one after the other. */
  function Pick(parts: seq<seq<char>>, o: seq<nat>): seq<char>
    requires forall t :: 0 <= t < |o| ==> o[t] < |parts|
  {
    if o == [] then [] else Pick(parts, o[..|o| - 1]) + parts[o[|o| - 1]]
  }

  /** The result of `columnarCipher(s, key)`: the chunks in the stably sorted key order. */
  function ColumnarText(s: seq<char>, key: seq<char>): seq<char>
    requires |key| > 0
  {
    Pick(Chunks(s, Rows(|s|, |key|), |key|), SortedKeyOrder(key))
  }

  /** A matrix as the value of its cells, row by row. */
  type Grid = seq<seq<Option<char>>>

  function Cells(m: array2<Option<char>>): (g: Grid)
    reads m
    ensures |g| == m.Length0
    ensures forall i :: 0 <= i < |g| ==> |g[i]| == m.Length1
    ensures forall i, j :: 0 <= i < m.Length0 && 0 <= j < m.Length1 ==> g[i][j] == m[i, j]
  {
    seq(m.Length0, i requires 0 <= i < m.Length0 reads m =>
      seq(m.Length1, j requires 0 <= j < m.Length1 reads m => m[i, j]))
  }

  /** Every row of `g` has a column `j`. */
  predicate HasColumn(g: Grid, j: nat)
  {
    forall i :: 0 <= i < |g| ==> j < |g[i]|
  }

  /** The first `i` cells of column `j`, top to bottom. */
  function ColumnText(g: Grid, j: nat, i: nat): seq<char>
    requires i <= |g| && HasColumn(g, j)
  {
    if i == 0 then [] else ColumnText(g, j, i - 1) + Text(g[i - 1][j])
  }

  /** The columns listed in `o`, each read top to bottom, one after the other. */
  function ColumnsText(g: Grid, o: seq<nat>): seq<char>
    requires forall t :: 0 <= t < |o| ==> HasColumn(g, o[t])
  {
    if o == [] then [] else ColumnsText(g, o[..|o| - 1]) + ColumnText(g, o[|o| - 1], |g|)
  }

  /**
    The fill loop of script.js:122-128: column after column, top to bottom,
    the next character while any is left.
   */
  method FillByColumns(str: seq<char>, keyLength: nat, rows: nat) returns (matrix: array2<Option<char>>)
    ensures fresh(matrix) && matrix.Length0 == rows && matrix.Length1 == keyLength
    ensures forall i, j :: 0 <= i < rows && 0 <= j < keyLength ==> matrix[i, j] == ColumnCell(str, rows, i, j)
  {
    matrix := new Option<char>[rows, keyLength]((_, _) => None);
    var index := 0;
    for j := 0 to keyLength
      invariant index == Min(j * rows, |str|)
      invariant forall i', j' :: 0 <= i' < rows && 0 <= j' < keyLength ==>
        matrix[i', j'] == if j' < j then ColumnCell(str, rows, i', j') else None
    {
      for i := 0 to rows
        invariant index == Min(j * rows + i, |str|)
        invariant forall i', j' :: 0 <= i' < rows && 0 <= j' < keyLength ==>
          matrix[i', j'] == if j' < j || (j' == j && i' < i) then ColumnCell(str, rows, i', j') else None
      {
        if index < |str| {
          matrix[i, j] := Some(str[index]);
          index := index + 1;
        }
      }
      NextMultiple(j, rows);
    }
  }

  /**
    The read loop of script.js:133-137: the columns listed in `order`, each
    top to bottom; an empty cell adds nothing, as `''` does.
   */
  method ReadColumns(matrix: array2<Option<char>>, order: seq<nat>) returns (text: seq<char>)
    requires forall t :: 0 <= t < |order| ==> order[t] < matrix.Length1
    ensures text == ColumnsText(Cells(matrix), order)
  {
    ghost var g := Cells(matrix);
    text := [];
    for t := 0 to |order|
      invariant text == ColumnsText(g, order[..t])
    {
      ghost var before, column := text, [];
      for i := 0 to matrix.Length0
        invariant column == ColumnText(g, order[t], i)
        invariant text == before + column
      {
        var cell := matrix[i, order[t]];
        assert cell == g[i][order[t]];
        Seqs.AppendAssoc(before, column, Text(cell));
        text, column := text + Text(cell), column + Text(cell);
      }
      assert order[..t + 1][..t] == order[..t];
      assert ColumnsText(g, order[..t + 1]) == ColumnsText(g, order[..t]) + ColumnText(g, order[t], |g|);
    }
    assert order[..|order|] == order;
  }

  /** `columnarCipher(str, key)`, for a non-empty key. */
  method ColumnarCipher(str: seq<char>, key: seq<char>) returns (result: seq<char>)
    requires |key| > 0
    ensures result == ColumnarText(str, key)
  {
    var keyLength := |key|;
    var rows := Rows(|str|, keyLength);
    var matrix := FillByColumns(str, keyLength, rows);
    var sortedKey := SortedKeyOrder(key);
    result := ReadColumns(matrix, sortedKey);
    ColumnsAreChunks(Cells(matrix), str, rows, keyLength, sortedKey);
  }

  /** In the encoder's matrix, the first `i` cells of column `c` hold the chunk of `c` up to row `i`. */
  lemma {:induction false} ColumnIsChunk(g: Grid, s: seq<char>, r: nat, c: nat, i: nat)
    requires |g| == r && i <= r && HasColumn(g, c)
    requires forall i' :: 0 <= i' < r ==> g[i'][c] == ColumnCell(s, r, i', c)
    ensures ColumnText(g, c, i) == s[Min(c * r, |s|)..Min(c * r + i, |s|)]
  {
    if i > 0 {
      ColumnIsChunk(g, s, r, c, i - 1);
      var cell := g[i - 1][c];
      assert cell == ColumnCell(s, r, i - 1, c);
      ChunkGrows(s, c * r, i, cell);
    }
  }

  /** One more cell of a column extends its text by the next character of the chunk, if there is one. */
  lemma ChunkGrows(s: seq<char>, a: nat, i: nat, cell: Option<char>)
    requires i > 0
    requires cell == if a + i - 1 < |s| then Some(s[a + i - 1]) else None
    ensures s[Min(a, |s|)..Min(a + i - 1, |s|)] + Text(cell) == s[Min(a, |s|)..Min(a + i, |s|)]
  {
    if a + i - 1 < |s| {
      assert s[a..a + i - 1] + [s[a + i - 1]] == s[a..a + i];
    }
  }

  /** Reading the encoder's columns in any order gives their chunks in that order. */
  lemma {:induction false} ColumnsAreChunks(g: Grid, s: seq<char>, r: nat, k: nat, o: seq<nat>)
    requires |g| == r && forall i :: 0 <= i < r ==> |g[i]| == k
    requires forall i, c :: 0 <= i < r && 0 <= c < k ==> g[i][c] == ColumnCell(s, r, i, c)
    requires forall t :: 0 <= t < |o| ==> o[t] < k
    ensures ColumnsText(g, o) == Pick(Chunks(s, r, k), o)
  {
    if o != [] {
      var o' := o[..|o| - 1];
      ColumnsAreChunks(g, s, r, k, o');
      ColumnIsChunk(g, s, r, o[|o| - 1], r);
    }
  }

  // ---------------------------------------------------------------------------
  // Properties of the encoder
  // ---------------------------------------------------------------------------

  lemma {:induction false} PickConcat(parts: seq<seq<char>>, a: seq<nat>, b: seq<nat>)
    requires forall t :: 0 <= t < |a| ==> a[t] < |parts|
    requires forall t :: 0 <= t < |b| ==> b[t] < |parts|
    ensures Pick(parts, a + b) == Pick(parts, a) + Pick(parts, b)
    decreases |b|
  {
    if b == [] {
      assert a + b == a;
    } else {
      var init, last := b[..|b| - 1], b[|b| - 1];
      assert (a + b)[..|a + b| - 1] == a + init;
      assert (a + b)[|a + b| - 1] == last;
      PickConcat(parts, a, init);
      assert Pick(parts, a + b) == Pick(parts, a + init) + parts[last];
      assert Pick(parts, b) == Pick(parts, init) + parts[last];
      Seqs.AppendAssoc(Pick(parts, a), Pick(parts, init), parts[last]);
    }
  }

  /** Inserting `i` at position `p` of an order inserts part `i` at the matching place. */
  lemma PickInsert(parts: seq<seq<char>>, o: seq<nat>, p: nat, i: nat)
    requires p <= |o| && i < |parts| && forall t :: 0 <= t < |o| ==> o[t] < |parts|
    ensures multiset(Pick(parts, o[..p] + [i] + o[p..])) == multiset(Pick(parts, o)) + multiset(parts[i])
  {
    PickConcat(parts, o[..p], o[p..]);
    assert o[..p] + o[p..] == o;
    PickConcat(parts, o[..p] + [i], o[p..]);
    PickConcat(parts, o[..p], [i]);
    assert [i][..0] == [];
  }

  /** The sorted order picks the same parts as the key order, so the same characters. */
  lemma {:induction false} PickKeyOrder(parts: seq<seq<char>>, key: seq<char>, k: nat)
    requires k <= |key| && k <= |parts|
    ensures multiset(Pick(parts, KeyOrderOf(key, k))) == multiset(Pick(parts, Range(k)))
  {
    if k > 0 {
      PickKeyOrder(parts, key, k - 1);
      var o, i := KeyOrderOf(key, k - 1), k - 1;
      var p := InsertPos(o, key, i);
      PickInsert(parts, o, p, i);
      assert KeyOrderOf(key, k) == o[..p] + [i] + o[p..];
      PickRangeStep(parts, k);
    }
  }

  lemma PickRangeStep(parts: seq<seq<char>>, k: nat)
    requires 0 < k <= |parts|
    ensures Pick(parts, Range(k)) == Pick(parts, Range(k - 1)) + parts[k - 1]
  {
    assert Range(k)[..k - 1] == Range(k - 1);
  }

  /** The chunks of the columns `0 .. k-1` in their own order are the first `k * r` characters. */
  lemma {:induction false} ChunksInRange(s: seq<char>, r: nat, k: nat, j: nat)
    requires j <= k
    ensures Pick(Chunks(s, r, k), Range(j)) == s[..Min(j * r, |s|)]
  {
    if j > 0 {
      assert Range(j)[..j - 1] == Range(j - 1);
      ChunksInRange(s, r, k, j - 1);
      PrefixGrows(s, r, j);
    }
  }

  /** The first `k` chunks are the first `k - 1` followed by chunk `k - 1`. */
  lemma PrefixGrows(s: seq<char>, r: nat, k: nat)
    requires k > 0
    ensures s[..Min(k * r, |s|)] == s[..Min((k - 1) * r, |s|)] + Chunk(s, r, k - 1)
  {
    NextMultiple(k - 1, r);
  }

  lemma NextMultiple(j: nat, r: nat)
    ensures (j + 1) * r == j * r + r
  {
  }

  /**
    `columnarCipher` only moves characters: the result is a permutation of
    the text, so it has the same length.
   */
  lemma ColumnarPermutation(s: seq<char>, key: seq<char>)
    requires |key| > 0
    ensures multiset(ColumnarText(s, key)) == multiset(s)
    ensures |ColumnarText(s, key)| == |s|
  {
    RowsBound(|s|, |key|);
    var r := Rows(|s|, |key|);
    PickKeyOrder(Chunks(s, r, |key|), key, |key|);
    ChunksInRange(s, r, |key|, |key|);
    assert s[..|s|] == s;
    assert |ColumnarText(s, key)| == |multiset(ColumnarText(s, key))|;
  }

  /** With a key whose characters never decrease the text comes out unchanged. */
  lemma SortedKeyKeepsText(s: seq<char>, key: seq<char>)
    requires |key| > 0
    requires forall a, b :: 0 <= a < b < |key| ==> key[a] <= key[b]
    ensures ColumnarText(s, key) == s
  {
    RowsBound(|s|, |key|);
    SortedKeyKeepsOrder(key, |key|);
    ChunksInRange(s, Rows(|s|, |key|), |key|, |key|);
    assert s[..|s|] == s;
  }

  // ---------------------------------------------------------------------------
  // The decoder as written (script.js:142-165)
  // ---------------------------------------------------------------------------

  /** The position of column `j` in the order `o`: the slot whose text the decoder puts into `j`. */
  function PosOf(o: seq<nat>, j: nat): (t: nat)
    requires j in o
    ensures t < |o| && o[t] == j
  {
    if o[0] == j then 0 else 1 + PosOf(o[1..], j)
  }

  /**
    The matrix after the fill loop of script.js:148-156: the column at slot
    `t` of the sorted order receives what the encoder's fill would put into
    column `t`, the `t`-th run of `r` characters of the ciphertext.
   */
  function DecodedGrid(str: seq<char>, key: seq<char>): (g: Grid)
    requires |key| > 0
    ensures |g| == Rows(|str|, |key|) && forall i :: 0 <= i < |g| ==> |g[i]| == |key|
  {
    var r, o := Rows(|str|, |key|), SortedKeyOrder(key);
    KeyOrderIsStableSort(key, |key|);
    seq(r, i requires 0 <= i < r =>
      seq(|key|, j requires 0 <= j < |key| => ColumnCell(str, r, i, PosOf(o, j))))
  }

  /** The texts of a row of cells, left to right. */
  function Texts(cells: seq<Option<char>>): seq<char>
  {
    if cells == [] then [] else Texts(cells[..|cells| - 1]) + Text(cells[|cells| - 1])
  }

  /** The first `i` rows of `g`, each read left to right. */
  function RowsText(g: Grid, i: nat): seq<char>
    requires i <= |g|
  {
    if i == 0 then [] else RowsText(g, i - 1) + Texts(g[i - 1])
  }

  /**
    `result.replace(/null/g, '')`: scanning left to right, every occurrence
    of "null" that does not overlap an earlier one is deleted.
   */
  function RemoveNull(s: seq<char>): (r: seq<char>)
    ensures |r| <= |s|
    ensures forall c :: c in r ==> c in s
    decreases |s|
  {
    if |s| >= 4 && s[..4] == "null" then RemoveNull(s[4..])
    else if s == [] then []
    else [s[0]] + RemoveNull(s[1..])
  }

  /** "null" occurs in `s` at position `i`. */
  predicate NullAt(s: seq<char>, i: nat)
  {
    i + 4 <= |s| && s[i..i + 4] == "null"
  }

  /** No "null" occurs in `s`. */
  predicate NoNull(s: seq<char>)
  {
    forall i: nat :: i < |s| ==> !NullAt(s, i)
  }

  /** The result of `columnarDecrypt(str, key)`. */
  function DecryptAsWritten(str: seq<char>, key: seq<char>): seq<char>
    requires |key| > 0
  {
    var g := DecodedGrid(str, key);
    RemoveNull(RowsText(g, |g|))
  }

  /**
    The fill loop of script.js:148-156: slot after slot of the sorted order,
    the column of that slot top to bottom, the next character while any is
    left.
   */
  method FillSlots(str: seq<char>, keyLength: nat, rows: nat, order: seq<nat>) returns (matrix: array2<Option<char>>)
    requires |order| == keyLength && forall t :: 0 <= t < keyLength ==> order[t] < keyLength
    requires forall t, u :: 0 <= t < keyLength && 0 <= u < keyLength && t != u ==> order[t] != order[u]
    ensures fresh(matrix) && matrix.Length0 == rows && matrix.Length1 == keyLength
    ensures forall i, t :: 0 <= i < rows && 0 <= t < keyLength ==> matrix[i, order[t]] == ColumnCell(str, rows, i, t)
  {
    matrix := new Option<char>[rows, keyLength]((_, _) => None);
    var index := 0;
    for t := 0 to keyLength
      invariant index == Min(t * rows, |str|)
      invariant forall i', t' :: 0 <= i' < rows && 0 <= t' < keyLength ==>
        matrix[i', order[t']] == if t' < t then ColumnCell(str, rows, i', t') else None
    {
      for i := 0 to rows
        invariant index == Min(t * rows + i, |str|)
        invariant forall i', t' :: 0 <= i' < rows && 0 <= t' < keyLength ==>
          matrix[i', order[t']] == if t' < t || (t' == t && i' < i) then ColumnCell(str, rows, i', t') else None
      {
        if index < |str| {
          matrix[i, order[t]] := Some(str[index]);
          index := index + 1;
        }
      }
      NextMultiple(t, rows);
    }
  }

  /** The read loop of script.js:158-162: row after row, each left to right. */
  method ReadRows(matrix: array2<Option<char>>) returns (text: seq<char>)
    ensures text == RowsText(Cells(matrix), matrix.Length0)
  {
    ghost var g := Cells(matrix);
    text := [];
    for i := 0 to matrix.Length0
      invariant text == RowsText(g, i)
    {
      ghost var row := g[i];
      for j := 0 to matrix.Length1
        invariant text == RowsText(g, i) + Texts(row[..j])
      {
        var cell := matrix[i, j];
        assert cell == row[j];
        TextsStep(row, j);
        Seqs.AppendAssoc(RowsText(g, i), Texts(row[..j]), Text(cell));
        text := text + Text(cell);
      }
      assert row[..matrix.Length1] == row;
    }
  }

  /** Reading one more cell of a row appends that cell's text. */
  lemma TextsStep(cells: seq<Option<char>>, j: nat)
    requires j < |cells|
    ensures Texts(cells[..j + 1]) == Texts(cells[..j]) + Text(cells[j])
  {
    assert cells[..j + 1][..j] == cells[..j];
  }

  /** `columnarDecrypt(str, key)`, for a non-empty key. */
  method ColumnarDecrypt(str: seq<char>, key: seq<char>) returns (result: seq<char>)
    requires |key| > 0
    ensures result == DecryptAsWritten(str, key)
  {
    var keyLength := |key|;
    var rows := Rows(|str|, keyLength);
    var sortedKey := SortedKeyOrder(key);
    KeyOrderIsStableSort(key, keyLength);
    var matrix := FillSlots(str, keyLength, rows, sortedKey);
    ghost var g, d := Cells(matrix), DecodedGrid(str, key);
    forall i | 0 <= i < rows ensures g[i] == d[i] {
      forall j | 0 <= j < keyLength ensures g[i][j] == d[i][j] {
        assert j in sortedKey;
        var t := PosOf(sortedKey, j);
        assert matrix[i, sortedKey[t]] == ColumnCell(str, rows, i, t);
      }
    }
    assert g == d;
    var text := ReadRows(matrix);
    result := RemoveNull(text);
  }

  // ---------------------------------------------------------------------------
  // Properties of the decoder as written
  // ---------------------------------------------------------------------------

  /** Deleting "null" changes the text exactly when "null" occurs in it. */
  lemma RemoveNullIdentity(s: seq<char>)
    ensures RemoveNull(s) == s <==> NoNull(s)
  {
    if NoNull(s) {
      RemoveNullKeeps(s);
    } else {
      var i: nat :| i < |s| && NullAt(s, i);
      RemoveNullShrinks(s, i);
    }
  }

  lemma {:induction false} RemoveNullKeeps(s: seq<char>)
    requires NoNull(s)
    ensures RemoveNull(s) == s
    decreases |s|
  {
    if s != [] {
      assert !NullAt(s, 0);
      forall i: nat | i < |s[1..]| ensures !NullAt(s[1..], i) {
        assert !NullAt(s, i + 1);
        if i + 4 <= |s[1..]| {
          assert s[1..][i..i + 4] == s[i + 1..i + 5];
        }
      }
      RemoveNullKeeps(s[1..]);
    }
  }

  lemma {:induction false} RemoveNullShrinks(s: seq<char>, i: nat)
    requires NullAt(s, i)
    ensures |RemoveNull(s)| < |s|
    decreases i
  {
    if !(|s| >= 4 && s[..4] == "null") {
      assert i > 0;
      assert s[1..][i - 1..i + 3] == s[i..i + 4];
      RemoveNullShrinks(s[1..], i - 1);
    }
  }

  lemma {:induction false} TextsOfSome(cells: seq<Option<char>>, s: seq<char>)
    requires |cells| == |s| && forall j :: 0 <= j < |s| ==> cells[j] == Some(s[j])
    ensures Texts(cells) == s
    decreases |s|
  {
    if s != [] {
      TextsOfSome(cells[..|cells| - 1], s[..|s| - 1]);
    }
  }

  lemma {:induction false} RowsOfSingles(g: Grid, s: seq<char>, i: nat)
    requires |g| == |s| && i <= |s|
    requires forall q :: 0 <= q < |s| ==> |g[q]| == 1 && g[q][0] == Some(s[q])
    ensures RowsText(g, i) == s[..i]
  {
    if i > 0 {
      RowsOfSingles(g, s, i - 1);
      assert Texts(g[i - 1]) == [s[i - 1]] by {
        TextsOfSome(g[i - 1], [s[i - 1]]);
      }
      assert s[..i] == s[..i - 1] + [s[i - 1]];
    }
  }

  /** A key of one character leaves the text as it is: one column holding all of it. */
  lemma SingleColumnText(s: seq<char>, key: seq<char>)
    requires |key| == 1
    ensures SortedKeyOrder(key) == [0]
    ensures ColumnarText(s, key) == s
  {
    var n := |s|;
    assert SortedKeyOrder(key) == [0];
    assert Rows(n, 1) == n;
    ChunksInRange(s, n, 1, 1);
    assert Range(1) == [0];
    assert 1 * n == n;
  }

  /** With one column every row holds one character, and row `q` holds `s[q]`. */
  lemma SingleColumnGrid(s: seq<char>, key: seq<char>)
    requires |key| == 1 && SortedKeyOrder(key) == [0]
    ensures |DecodedGrid(s, key)| == |s|
    ensures forall q :: 0 <= q < |s| ==> |DecodedGrid(s, key)[q]| == 1 && DecodedGrid(s, key)[q][0] == Some(s[q])
  {
    var n, o := |s|, SortedKeyOrder(key);
    assert Rows(n, 1) == n;
    assert PosOf(o, 0) == 0;
    var g := DecodedGrid(s, key);
    forall q | 0 <= q < n ensures g[q][0] == Some(s[q]) {
      assert g[q][0] == ColumnCell(s, n, q, PosOf(o, 0));
      FirstColumnCell(s, n, q);
    }
  }

  lemma FirstColumnCell(s: seq<char>, r: nat, q: nat)
    requires q < |s|
    ensures ColumnCell(s, r, q, 0) == Some(s[q])
  {
    assert 0 * r + q == q;
  }

  /** A key of one character: a single column, which the decoder reads back in order. */
  lemma SingleColumnRoundTrip(s: seq<char>, key: seq<char>)
    requires |key| == 1
    ensures DecryptAsWritten(ColumnarText(s, key), key) == RemoveNull(s)
  {
    SingleColumnText(s, key);
    SingleColumnGrid(s, key);
    var g := DecodedGrid(s, key);
    RowsOfSingles(g, s, |s|);
    assert s[..|s|] == s;
  }

  /** With parts of one character each, the picked text holds the first character of each part listed. */
  lemma {:induction false} PickSingles(parts: seq<seq<char>>, o: seq<nat>)
    requires forall c :: 0 <= c < |parts| ==> |parts[c]| == 1
    requires forall t :: 0 <= t < |o| ==> o[t] < |parts|
    ensures |Pick(parts, o)| == |o|
    ensures forall t :: 0 <= t < |o| ==> Pick(parts, o)[t] == parts[o[t]][0]
  {
    if o != [] {
      var init := o[..|o| - 1];
      PickSingles(parts, init);
      var p := Pick(parts, init);
      var last := parts[o[|o| - 1]];
      assert Pick(parts, o) == p + last;
      assert last == [last[0]];
      forall t | 0 <= t < |o| ensures Pick(parts, o)[t] == parts[o[t]][0] {
        if t < |init| {
          assert init[t] == o[t];
        }
      }
    }
  }

  /** A text exactly as long as the key fills one row. */
  lemma SquareRows(k: nat)
    requires k > 0
    ensures Rows(k, k) == 1
  {
    RowsBound(k, k);
  }

  /** In one row, column `c` holds `s[c]` alone, so the cipher lists `s[o[t]]` at slot `t`. */
  lemma OneRowCipher(s: seq<char>, key: seq<char>)
    requires |key| > 0 && |s| == |key|
    ensures Rows(|s|, |key|) == 1
    ensures |ColumnarText(s, key)| == |s|
    ensures forall t :: 0 <= t < |s| ==> ColumnarText(s, key)[t] == s[SortedKeyOrder(key)[t]]
  {
    var k := |key|;
    SquareRows(k);
    var parts := Chunks(s, 1, k);
    forall c | 0 <= c < k ensures parts[c] == [s[c]] {
      assert c * 1 == c;
    }
    PickSingles(parts, SortedKeyOrder(key));
  }

  /** Decoding such a cipher puts `s[j]` back into column `j` of the single row. */
  lemma OneRowGrid(e: seq<char>, s: seq<char>, key: seq<char>)
    requires |key| > 0 && |s| == |key| && |e| == |s| && Rows(|s|, |key|) == 1
    requires forall t :: 0 <= t < |s| ==> e[t] == s[SortedKeyOrder(key)[t]]
    ensures |DecodedGrid(e, key)| == 1
    ensures forall j :: 0 <= j < |s| ==> DecodedGrid(e, key)[0][j] == Some(s[j])
  {
    var o := SortedKeyOrder(key);
    KeyOrderIsStableSort(key, |key|);
    var g := DecodedGrid(e, key);
    forall j | 0 <= j < |s| ensures g[0][j] == Some(s[j]) {
      assert j in o;
      var t := PosOf(o, j);
      assert g[0][j] == ColumnCell(e, 1, 0, t);
      assert t * 1 + 0 == t;
    }
  }

  /** A text exactly as long as the key: one row, one character per column. */
  lemma OneRowRoundTrip(s: seq<char>, key: seq<char>)
    requires |key| > 0 && |s| == |key|
    ensures DecryptAsWritten(ColumnarText(s, key), key) == RemoveNull(s)
  {
    OneRowCipher(s, key);
    var e := ColumnarText(s, key);
    OneRowGrid(e, s, key);
    var g := DecodedGrid(e, key);
    TextsOfSome(g[0], s);
    assert RowsText(g, 1) == Texts(g[0]);
  }

  /**
    `columnarDecrypt` inverts `columnarCipher` when the key has one character
    or the text is as long as the key, and then only for a text without
    "null".
   */
  lemma NarrowRoundTrip(s: seq<char>, key: seq<char>)
    requires |key| == 1 || (|key| > 0 && |s| == |key|)
    ensures DecryptAsWritten(ColumnarText(s, key), key) == RemoveNull(s)
    ensures DecryptAsWritten(ColumnarText(s, key), key) == s <==> NoNull(s)
  {
    if |key| == 1 {
      SingleColumnRoundTrip(s, key);
    } else {
      OneRowRoundTrip(s, key);
    }
    RemoveNullIdentity(s);
  }

  /** A genuine "null" in the text is lost: with key "A", "null" comes back empty. */
  lemma NullIsDeleted()
    ensures ColumnarText("null", "A") == "null"
    ensures DecryptAsWritten(ColumnarText("null", "A"), "A") == []
  {
    SortedKeyKeepsText("null", "A");
    NarrowRoundTrip("null", "A");
    assert "null"[..4] == "null" && "null"[4..] == [];
  }

  /**
    The decoder reads by rows what the encoder wrote by columns: with key
    "AB", "abcd" encrypts to itself and decrypts to "acbd".
   */
  lemma RowMajorBreaksRoundTrip()
    ensures ColumnarText("abcd", "AB") == "abcd"
    ensures DecryptAsWritten("abcd", "AB") == "acbd"
  {
    SortedKeyKeepsText("abcd", "AB");
    GridOfFour("abcd");
    var g := DecodedGrid("abcd", "AB");
    ReadFour(g, 'a', 'c', 'b', 'd');
    assert ['a', 'c', 'b', 'd'] == "acbd";
    NoNullInACBD();
    RemoveNullKeeps("acbd");
  }

  /** Two full rows of two cells read back as their four characters, row after row. */
  lemma ReadFour(g: Grid, a: char, b: char, c: char, d: char)
    requires |g| == 2 && |g[0]| == 2 && |g[1]| == 2
    requires g[0][0] == Some(a) && g[0][1] == Some(b) && g[1][0] == Some(c) && g[1][1] == Some(d)
    ensures RowsText(g, 2) == [a, b, c, d]
  {
    TextsOfSome(g[0], [a, b]);
    TextsOfSome(g[1], [c, d]);
    assert RowsText(g, 1) == [a, b];
  }

  lemma NoNullInACBD()
    ensures NoNull("acbd")
  {
    forall i: nat | i < 4 ensures !NullAt("acbd", i) {
      if i == 0 {
        assert "acbd"[0..4][0] != "null"[0];
      }
    }
  }

  /** With key "AB", four characters fill two rows column by column: `s[0] s[2]` over `s[1] s[3]`. */
  lemma GridOfFour(s: seq<char>)
    requires |s| == 4
    ensures |DecodedGrid(s, "AB")| == 2
    ensures DecodedGrid(s, "AB")[0][0] == Some(s[0]) && DecodedGrid(s, "AB")[0][1] == Some(s[2])
    ensures DecodedGrid(s, "AB")[1][0] == Some(s[1]) && DecodedGrid(s, "AB")[1][1] == Some(s[3])
  {
    SortedKeyKeepsOrder("AB", 2);
    var o := SortedKeyOrder("AB");
    assert o == [0, 1];
    assert PosOf(o, 0) == 0 && PosOf(o, 1) == 1;
    assert Rows(|s|, |"AB"|) == 2;
    assert ColumnCell(s, 2, 0, 1) == Some(s[2]) by { assert 1 * 2 + 0 == 2; }
    assert ColumnCell(s, 2, 1, 1) == Some(s[3]) by { assert 1 * 2 + 1 == 3; }
    DecodedCell(s, "AB", 0, 0);
    DecodedCell(s, "AB", 0, 1);
    DecodedCell(s, "AB", 1, 0);
    DecodedCell(s, "AB", 1, 1);
  }

  /** Cell (i, j) of the decoded grid is the cell of the column that slot `PosOf(o, j)` filled. */
  lemma DecodedCell(s: seq<char>, key: seq<char>, i: nat, j: nat)
    requires |key| > 0 && i < Rows(|s|, |key|) && j < |key|
    ensures j in SortedKeyOrder(key)
    ensures DecodedGrid(s, key)[i][j] == ColumnCell(s, Rows(|s|, |key|), i, PosOf(SortedKeyOrder(key), j))
  {
    KeyOrderIsStableSort(key, |key|);
  }

  /** The stable sort of "CAB" lists the columns 1, 2, 0. */
  lemma SortCAB()
    ensures SortedKeyOrder("CAB") == [1, 2, 0]
  {
    var key := "CAB";
    assert KeyOrderOf(key, 1) == [0];
    assert InsertPos([0], key, 1) == 0;
    assert KeyOrderOf(key, 2) == [1, 0];
    assert InsertPos([0], key, 2) == 0;
    assert InsertPos([1, 0], key, 2) == 1;
  }

  lemma CipherOfXY()
    ensures ColumnarText("xy", "CAB") == "yx"
  {
    SortCAB();
    assert Rows(|"xy"|, |"CAB"|) == 1;
    var parts := Chunks("xy", 1, 3);
    assert parts[0] == "x" && parts[1] == "y" && parts[2] == [];
    PickThree(parts, [1, 2, 0]);
    assert "y" + [] + "x" == "yx";
  }

  /** Three listed parts, one after the other. */
  lemma PickThree(parts: seq<seq<char>>, o: seq<nat>)
    requires |o| == 3 && o[0] < |parts| && o[1] < |parts| && o[2] < |parts|
    ensures Pick(parts, o) == parts[o[0]] + parts[o[1]] + parts[o[2]]
  {
    assert o[..2][..1] == o[..1] && o[..1][..0] == [];
    assert Pick(parts, o[..1]) == parts[o[0]];
  }

  /** With key "CAB", two characters fill one row: column 0 stays empty, columns 1 and 2 take them in order. */
  lemma GridOfTwo(s: seq<char>)
    requires |s| == 2
    ensures |DecodedGrid(s, "CAB")| == 1
    ensures DecodedGrid(s, "CAB")[0][0] == None
    ensures DecodedGrid(s, "CAB")[0][1] == Some(s[0]) && DecodedGrid(s, "CAB")[0][2] == Some(s[1])
  {
    SortCAB();
    PosInCAB();
    assert Rows(|s|, |"CAB"|) == 1;
    assert ColumnCell(s, 1, 0, 2) == None by { assert 2 * 1 + 0 == 2; }
    assert ColumnCell(s, 1, 0, 1) == Some(s[1]) by { assert 1 * 1 + 0 == 1; }
    DecodedCell(s, "CAB", 0, 0);
    DecodedCell(s, "CAB", 0, 1);
    DecodedCell(s, "CAB", 0, 2);
  }

  lemma PosInCAB()
    ensures PosOf([1, 2, 0], 0) == 2 && PosOf([1, 2, 0], 1) == 0 && PosOf([1, 2, 0], 2) == 1
  {
    var o: seq<nat> := [1, 2, 0];
    assert o[1..] == [2, 0] && o[1..][1..] == [0];
  }

  /** An empty cell followed by two full ones reads as the two characters. */
  lemma ReadGapThenTwo(row: seq<Option<char>>, a: char, b: char)
    requires |row| == 3 && row[0] == None && row[1] == Some(a) && row[2] == Some(b)
    ensures Texts(row) == [a, b]
  {
    TextsStep(row, 0);
    TextsStep(row, 1);
    TextsStep(row, 2);
    assert row[..0] == [] && row[..3] == row;
  }

  lemma DecryptOfYX()
    ensures DecryptAsWritten("yx", "CAB") == "yx"
  {
    GridOfTwo("yx");
    var g := DecodedGrid("yx", "CAB");
    ReadGapThenTwo(g[0], 'y', 'x');
    assert RowsText(g, 1) == "yx";
    assert NoNull("yx");
    RemoveNullKeeps("yx");
  }

  /**
    The decoder refills whole columns in sorted order, whatever cells the
    encoder left empty: with key "CAB", "xy" encrypts to "yx" (its columns
    are "x", "y" and "", read in the order 1, 2, 0), and "yx" decrypts to
    "yx" again.
   */
  lemma ShortColumnsBreakRoundTrip()
    ensures DecryptAsWritten(ColumnarText("xy", "CAB"), "CAB") == "yx"
  {
    CipherOfXY();
    DecryptOfYX();
  }

  // ---------------------------------------------------------------------------
  // A corrected decoder
  // ---------------------------------------------------------------------------

  /** How many cells of column `c` the encoder fills for a text of length `n`. */
  function Occupied(n: nat, r: nat, c: nat): (m: nat)
    ensures m <= r
  {
    Min(c * r + r, n) - Min(c * r, n)
  }

  /**
    Where the corrected decoder's `index` stands when it reaches slot `t` of
    the order `o`: the cells the encoder fills in the columns of the earlier
    slots, capped at `n`.
   */
  function SlotStart(n: nat, r: nat, o: seq<nat>, t: nat): (x: nat)
    requires t <= |o|
    ensures x <= n
  {
    if t == 0 then 0 else Min(SlotStart(n, r, o, t - 1) + Occupied(n, r, o[t - 1]), n)
  }

  /** Cell `i` of the column at slot `t` after the corrected fill. */
  function FixedCell(str: seq<char>, r: nat, o: seq<nat>, t: nat, i: nat): Option<char>
    requires t < |o|
  {
    var start := SlotStart(|str|, r, o, t);
    if o[t] * r + i < |str| && start + i < |str| then Some(str[start + i]) else None
  }

  /** The matrix after the corrected fill. */
  function FixedGrid(str: seq<char>, key: seq<char>): (g: Grid)
    requires |key| > 0
    ensures |g| == Rows(|str|, |key|) && forall i :: 0 <= i < |g| ==> |g[i]| == |key|
  {
    var r, o := Rows(|str|, |key|), SortedKeyOrder(key);
    KeyOrderIsStableSort(key, |key|);
    seq(r, i requires 0 <= i < r =>
      seq(|key|, j requires 0 <= j < |key| => FixedCell(str, r, o, PosOf(o, j), i)))
  }

  /** The result of the corrected decoder: the corrected matrix read column by column. */
  function FixedDecrypt(str: seq<char>, key: seq<char>): seq<char>
    requires |key| > 0
  {
    ColumnsText(FixedGrid(str, key), Range(|key|))
  }

  /**
    The corrected fill: in the column of each slot only the cells the
    encoder filled, `k.index * columns + i < str.length`, take a character.
   */
  method FillOccupied(str: seq<char>, keyLength: nat, rows: nat, order: seq<nat>) returns (matrix: array2<Option<char>>)
    requires |order| == keyLength && forall t :: 0 <= t < keyLength ==> order[t] < keyLength
    requires forall t, u :: 0 <= t < keyLength && 0 <= u < keyLength && t != u ==> order[t] != order[u]
    ensures fresh(matrix) && matrix.Length0 == rows && matrix.Length1 == keyLength
    ensures forall i, t :: 0 <= i < rows && 0 <= t < keyLength ==> matrix[i, order[t]] == FixedCell(str, rows, order, t, i)
  {
    matrix := new Option<char>[rows, keyLength]((_, _) => None);
    var index := 0;
    for t := 0 to keyLength
      invariant index == SlotStart(|str|, rows, order, t)
      invariant forall i', t' :: 0 <= i' < rows && 0 <= t' < keyLength ==>
        matrix[i', order[t']] == if t' < t then FixedCell(str, rows, order, t', i') else None
    {
      ghost var start := index;
      var c := order[t];
      for i := 0 to rows
        invariant index == Min(start + Min(i, Occupied(|str|, rows, c)), |str|)
        invariant forall i', t' :: 0 <= i' < rows && 0 <= t' < keyLength ==>
          matrix[i', order[t']] == if t' < t || (t' == t && i' < i) then FixedCell(str, rows, order, t', i') else None
      {
        if index < |str| && c * rows + i < |str| {
          matrix[i, c] := Some(str[index]);
          index := index + 1;
        }
      }
    }
  }

  /** `columnarDecrypt` corrected: the corrected fill, a column-by-column read and no deletion of "null". */
  method ColumnarDecryptFixed(str: seq<char>, key: seq<char>) returns (result: seq<char>)
    requires |key| > 0
    ensures result == FixedDecrypt(str, key)
  {
    var keyLength := |key|;
    var rows := Rows(|str|, keyLength);
    var sortedKey := SortedKeyOrder(key);
    KeyOrderIsStableSort(key, keyLength);
    var matrix := FillOccupied(str, keyLength, rows, sortedKey);
    ghost var g, d := Cells(matrix), FixedGrid(str, key);
    forall i | 0 <= i < rows ensures g[i] == d[i] {
      forall j | 0 <= j < keyLength ensures g[i][j] == d[i][j] {
        assert j in sortedKey;
        var t := PosOf(sortedKey, j);
        assert matrix[i, sortedKey[t]] == FixedCell(str, rows, sortedKey, t, i);
      }
    }
    assert g == d;
    result := ReadColumns(matrix, Range(keyLength));
  }

  /** Parts that are as long as the columns the encoder fills for a text of length `n`. */
  predicate ColumnSized(parts: seq<seq<char>>, n: nat, r: nat)
  {
    forall c :: 0 <= c < |parts| ==> |parts[c]| == Occupied(n, r, c)
  }

  /** Where slot `t` starts in the cipher: after the parts of the earlier slots. */
  lemma {:induction false} SlotStartIsPrefix(parts: seq<seq<char>>, n: nat, r: nat, o: seq<nat>, t: nat)
    requires t <= |o| && forall u :: 0 <= u < |o| ==> o[u] < |parts|
    requires ColumnSized(parts, n, r) && |Pick(parts, o)| == n
    ensures SlotStart(n, r, o, t) == |Pick(parts, o[..t])|
  {
    if t > 0 {
      SlotStartIsPrefix(parts, n, r, o, t - 1);
      assert o[..t][..t - 1] == o[..t - 1];
      assert |Pick(parts, o[..t])| == |Pick(parts, o[..t - 1])| + Occupied(n, r, o[t - 1]);
      PickConcat(parts, o[..t], o[t..]);
      assert o[..t] + o[t..] == o;
    }
  }

  /** The cipher holds the part of slot `t` right after the parts of the earlier slots. */
  lemma PickAtSlot(parts: seq<seq<char>>, o: seq<nat>, t: nat, i: nat)
    requires t < |o| && forall u :: 0 <= u < |o| ==> o[u] < |parts|
    requires i < |parts[o[t]]|
    ensures |Pick(parts, o[..t])| + i < |Pick(parts, o)|
    ensures Pick(parts, o)[|Pick(parts, o[..t])| + i] == parts[o[t]][i]
  {
    PickConcat(parts, o[..t], o[t..]);
    assert o[..t] + o[t..] == o;
    PickConcat(parts, [o[t]], o[t + 1..]);
    assert [o[t]] + o[t + 1..] == o[t..];
    assert Pick(parts, [o[t]]) == parts[o[t]] by {
      assert [o[t]][..0] == [];
    }
  }

  /** The corrected fill of a cipher puts part `o[t]` back into the column of slot `t`. */
  lemma SlotCellIsPart(parts: seq<seq<char>>, n: nat, r: nat, o: seq<nat>, t: nat, i: nat)
    requires t < |o| && i < r && forall u :: 0 <= u < |o| ==> o[u] < |parts|
    requires ColumnSized(parts, n, r) && |Pick(parts, o)| == n
    ensures FixedCell(Pick(parts, o), r, o, t, i) == if i < |parts[o[t]]| then Some(parts[o[t]][i]) else None
  {
    SlotStartIsPrefix(parts, n, r, o, t);
    if i < |parts[o[t]]| {
      PickAtSlot(parts, o, t, i);
    }
  }

  /** Cell `i` of a column is character `i` of its chunk. */
  lemma ChunkAt(s: seq<char>, r: nat, c: nat, i: nat)
    requires i < r
    ensures |Chunk(s, r, c)| == Occupied(|s|, r, c)
    ensures ColumnCell(s, r, i, c) == if i < |Chunk(s, r, c)| then Some(Chunk(s, r, c)[i]) else None
  {
  }

  /** The corrected fill of a cipher puts every character back into the cell the encoder took it from. */
  lemma FixedCellRecovers(s: seq<char>, key: seq<char>, i: nat, j: nat)
    requires |key| > 0 && i < Rows(|s|, |key|) && j < |key|
    ensures |ColumnarText(s, key)| == |s|
    ensures FixedGrid(ColumnarText(s, key), key)[i][j] == ColumnCell(s, Rows(|s|, |key|), i, j)
  {
    var n, k := |s|, |key|;
    var r, o := Rows(n, k), SortedKeyOrder(key);
    var parts := Chunks(s, r, k);
    ColumnarPermutation(s, key);
    KeyOrderIsStableSort(key, k);
    forall c | 0 <= c < k ensures |parts[c]| == Occupied(n, r, c) {
      ChunkAt(s, r, c, 0);
    }
    assert j in o;
    var t := PosOf(o, j);
    SlotCellIsPart(parts, n, r, o, t, i);
    ChunkAt(s, r, j, i);
  }

  /** The corrected decoder inverts `columnarCipher` for every text and every non-empty key. */
  lemma FixedRoundTrip(s: seq<char>, key: seq<char>)
    requires |key| > 0
    ensures FixedDecrypt(ColumnarText(s, key), key) == s
  {
    var n, k := |s|, |key|;
    var r := Rows(n, k);
    var e := ColumnarText(s, key);
    ColumnarPermutation(s, key);
    var g := FixedGrid(e, key);
    forall i, c | 0 <= i < r && 0 <= c < k ensures g[i][c] == ColumnCell(s, r, i, c) {
      FixedCellRecovers(s, key, i, c);
    }
    ColumnsAreChunks(g, s, r, k, Range(k));
    ChunksInRange(s, r, k, k);
    RowsBound(n, k);
    assert s[..n] == s;
  }
}
