/**
 * Partial-row batches (partial_row_batch.h / partial_row_batch.cpp): a writer
 * collects some of the columns of one row and appends the row's encoding to a
 * fixed-capacity byte buffer; a reader decodes a stored row back into
 * (cid, value) cells.
 *
 * A stored row is a 4-byte length followed by the row body:
 *   - a 2-byte bitmap width `W`, in bytes;
 *   - `W` bytes of bitmap: bit 0 is the delete flag, bit `cid` says that column
 *     `cid` is set, and from bit `cid_size` on there is one null bit per set
 *     nullable column, in cid order;
 *   - the values of the set, non-null columns in cid order: a string as a
 *     2-byte length and its bytes, any other type as its fixed-width bytes.
 * Multi-byte integers are little-endian (the byte order of the targets the
 * code is built for).
 */
module RowBatches {
  import opened Common
  import opened Types
  import opened Schemas

  // ---------------------------------------------------------------------
  // Bitmaps. bitmap.h is not part of this model: bit `i` of a bitmap is
  // taken to be bit `i % 8` (least significant first) of byte `i / 8`.
  // ---------------------------------------------------------------------

  /** The byte with only bit `k` set. */
  function Mask(k: nat): byte
    requires k < 8
  {
    if k == 0 then 1 else if k == 1 then 2 else if k == 2 then 4 else if k == 3 then 8
    else if k == 4 then 16 else if k == 5 then 32 else if k == 6 then 64 else 128
  }

  /** `i / 8`, the byte holding bit `i`, by repeated subtraction so that proofs see only linear facts. */
  function ByteOf(i: nat): (r: nat)
    ensures 8 * r <= i < 8 * r + 8
  {
    if i < 8 then 0 else 1 + ByteOf(i - 8)
  }

  /** `i % 8`, the position of bit `i` within its byte. */
  function BitOf(i: nat): (r: nat)
    ensures r < 8
  {
    if i < 8 then i else BitOf(i - 8)
  }

  /** Bit `i` is bit `BitOf(i)` of byte `ByteOf(i)`. */
  lemma {:induction false} SplitBit(i: nat)
    ensures i == 8 * ByteOf(i) + BitOf(i)
  {
    if i >= 8 {
      SplitBit(i - 8);
    }
  }

  /** `BitmapSet(bv, i)`. */
  function BitSet(bv: Bytes, i: nat): (r: Bytes)
    requires i < 8 * |bv|
    ensures |r| == |bv|
  {
    SplitBit(i);
    bv[ByteOf(i) := bv[ByteOf(i)] | Mask(BitOf(i))]
  }

  /** `BitmapTest(bv, i)`. */
  predicate BitTest(bv: Bytes, i: nat)
    requires i < 8 * |bv|
  {
    SplitBit(i);
    bv[ByteOf(i)] & Mask(BitOf(i)) != 0
  }

  /** Or-ing in the mask of bit `a` sets bit `a` and no other bit of a byte. */
  lemma MaskBits(b: byte, a: nat, c: nat)
    requires a < 8 && c < 8
    ensures (b | Mask(a)) & Mask(c) != 0 <==> a == c || b & Mask(c) != 0
  {
  }

  /** Two bits are the same bit exactly when they share byte and position. */
  lemma SameBit(i: nat, j: nat)
    ensures ByteOf(i) == ByteOf(j) && BitOf(i) == BitOf(j) <==> i == j
  {
    SplitBit(i);
    SplitBit(j);
  }

  /** Setting bit `i` makes bit `i` test true and leaves every other bit as it was. */
  lemma SetThenTest(bv: Bytes, i: nat, j: nat)
    requires i < 8 * |bv| && j < 8 * |bv|
    ensures BitTest(BitSet(bv, i), j) <==> i == j || BitTest(bv, j)
  {
    SameBit(i, j);
    if ByteOf(i) == ByteOf(j) {
      MaskBits(bv[ByteOf(i)], BitOf(i), BitOf(j));
    }
  }

  /** A zeroed bitmap (`memset(bitvec, 0, W)`) has no bit set. */
  lemma ZerosClear(n: nat, j: nat)
    requires j < 8 * n
    ensures !BitTest(Zeros(n), j)
  {
    SplitBit(j);
  }

  /**
   * `BitmapFindFirstSet(bv, from, size, &out)`: the first set bit in
   * `from..size-1`, or none.
   */
  function FirstSet(bv: Bytes, from: nat, size: nat): (r: Option<nat>)
    requires size <= 8 * |bv|
    ensures r.Some? ==> from <= r.value < size && BitTest(bv, r.value)
    ensures r.Some? ==> forall k :: from <= k < r.value ==> !BitTest(bv, k)
    ensures r.None? ==> forall k :: from <= k < size ==> !BitTest(bv, k)
    decreases size - from
  {
    if from >= size then None
    else if BitTest(bv, from) then Some(from)
    else FirstSet(bv, from + 1, size)
  }

  // ---------------------------------------------------------------------
  // Columns by cid.
  // ---------------------------------------------------------------------

  /** `Schema::get(cid)` on a column list: the last column carrying that cid, or none. */
  function ColumnAt(cols: seq<ColumnSchema>, cid: nat): Option<ColumnSchema>
  {
    var m := CidIndex(cols, |cols|);
    if cid in m then Some(cols[m[cid]]) else None
  }

  /**
   * `Schema::cid_size()`, declared without a body (schema.h): taken to be one
   * past the largest cid, so that every column's cid indexes a cell.
   */
  function CidSize(cols: seq<ColumnSchema>): nat
  {
    MaxCid(cols, |cols|) + 1
  }

  /** `Schema::get(cid)` for every cid below `cid_size`: the table the writer and the reader look columns up in. */
  function Layout(cols: seq<ColumnSchema>): seq<Option<ColumnSchema>>
  {
    seq(CidSize(cols), cid requires 0 <= cid => ColumnAt(cols, cid))
  }

  /** The cid convention of `ColumnSchema`: ids start at 1 (0 is the delete flag) and are distinct. */
  predicate RowSchema(cols: seq<ColumnSchema>)
  {
    && (forall i :: 0 <= i < |cols| ==> cols[i].cid >= 1)
    && (forall i, j :: 0 <= i < j < |cols| ==> cols[i].cid != cols[j].cid)
  }

  /** Under that convention every column sits in the layout at its own cid, which is not the delete flag's. */
  lemma ColumnOwnCid(cols: seq<ColumnSchema>, k: nat)
    requires RowSchema(cols) && k < |cols|
    ensures 1 <= cols[k].cid < |Layout(cols)|
    ensures Layout(cols)[cols[k].cid] == Some(cols[k])
  {
    CidIndexIsLast(cols, |cols|, cols[k].cid);
    MaxCidIsMax(cols, |cols|);
  }

  /** A cid has a column in the layout exactly when some column carries it, and that column carries the cid. */
  lemma LayoutCid(cols: seq<ColumnSchema>, cid: nat)
    requires RowSchema(cols)
    ensures cid < |Layout(cols)| && Layout(cols)[cid].Some? <==> exists k :: 0 <= k < |cols| && cols[k].cid == cid
    ensures cid < |Layout(cols)| && Layout(cols)[cid].Some? ==>
      1 <= cid && Layout(cols)[cid].value.cid == cid && Layout(cols)[cid].value in cols
  {
    CidIndexIsLast(cols, |cols|, cid);
    MaxCidIsMax(cols, |cols|);
    if exists k :: 0 <= k < |cols| && cols[k].cid == cid {
      var k :| 0 <= k < |cols| && cols[k].cid == cid;
      ColumnOwnCid(cols, k);
    }
  }

  // ---------------------------------------------------------------------
  // The writer's cells and the row encoding.
  // ---------------------------------------------------------------------

  /**
   * `CellInfo`: whether the cell is set, whether it is nullable, and the
   * value it points at (none for a null pointer). The value of a string
   * cell is the slice's bytes; that of any other cell is the bytes of the
   * value the pointer refers to.
   */
  datatype Cell = Cell(isset: bool, isnullable: bool, data: Option<Bytes>)

  /** The cell `start_row` leaves: all flags clear, no value. */
  const UNSET := Cell(false, false, None)

  /** The width of a fixed-size type, `TypeInfo::size`. */
  function ValueSize(t: Type): nat
  {
    Get(TypeCode(t)).size
  }

  /**
   * What `set` accepts for a column: null only for a nullable column, a
   * string of at most 65535 bytes, any other value at its type's width.
   */
  predicate Accepts(c: ColumnSchema, data: Option<Bytes>)
  {
    match data
    case None => c.nullable
    case Some(v) => if c.ty == String then |v| < 0x1_0000 else |v| == ValueSize(c.ty)
  }

  /**
   * The caller's promise about the pointer it passes to `set`: for a column
   * of a fixed-size type, a non-null pointer points at a value of that type,
   * that is at exactly the type's width of bytes.
   */
  predicate ValueShaped(col: Option<ColumnSchema>, data: Option<Bytes>)
  {
    col.Some? && col.value.ty != String && data.Some? ==> |data.value| == ValueSize(col.value.ty)
  }

  /**
   * The cell at cid `i`, whose column is `col`, is one `start_row`, `set`
   * and `set_delete` can leave: the delete cell carries no value; a cell
   * with a value or marked nullable is set; a set cell belongs to a column,
   * is nullable exactly when the column is, and holds a value the column
   * accepts.
   */
  predicate CellOk(i: nat, col: Option<ColumnSchema>, c: Cell)
  {
    if i == 0 then !c.isnullable && c.data.None?
    else
      && (c.isnullable || c.data.Some? ==> c.isset)
      && (c.isset ==> col.Some? && c.isnullable == col.value.nullable && Accepts(col.value, c.data))
  }

  /** One cell per cid of the layout, each as `CellOk` describes. */
  predicate CellsOk(lay: seq<Option<ColumnSchema>>, cells: seq<Cell>)
  {
    && 1 <= |cells| == |lay|
    && forall i :: 0 <= i < |cells| ==> CellOk(i, lay[i], cells[i])
  }

  /** Set nullable cells among `cells[1..i)`: the null bits the writer has used before cell `i`. */
  function NullBefore(cells: seq<Cell>, i: nat): nat
    requires 1 <= i <= |cells|
  {
    if i == 1 then 0
    else NullBefore(cells, i - 1) + (if cells[i - 1].isset && cells[i - 1].isnullable then 1 else 0)
  }

  /** The bitmap width in bytes, `NBlock(bit_set_size + bit_null_size, 8)`. */
  function RowWidth(cells: seq<Cell>): nat
    requires |cells| >= 1
  {
    NBlock(|cells| + NullBefore(cells, |cells|), 8)
  }

  /**
   * The bits `write` sets while visiting `cells[1..i)`, in the order it sets
   * them: the delete bit, then for each set cell its own bit followed, for a
   * nullable cell whose value is null, by its null bit (null bits are
   * numbered from bit `|cells|` on, one per set nullable cell).
   */
  function Positions(cells: seq<Cell>, i: nat): seq<nat>
    requires 1 <= i <= |cells|
  {
    if i == 1 then (if cells[0].isset then [0] else [])
    else
      var c := cells[i - 1];
      Positions(cells, i - 1) +
        if !c.isset then []
        else if c.isnullable && c.data.None? then [i - 1, |cells| + NullBefore(cells, i - 1)]
        else [i - 1]
  }

  /**
   * `bv` with the bits `ps` set, one after the other (a position past the
   * end of `bv` is skipped; `write` never produces one, see `PositionsBelow`).
   */
  function SetBits(bv: Bytes, ps: seq<nat>): (r: Bytes)
    ensures |r| == |bv|
  {
    if |ps| == 0 then bv
    else
      var prev := SetBits(bv, ps[..|ps| - 1]);
      if ps[|ps| - 1] < 8 * |bv| then BitSet(prev, ps[|ps| - 1]) else prev
  }

  /** The bitmap `write` has built after visiting `cells[1..i)`, in a `W`-byte buffer. */
  function Bits(cells: seq<Cell>, w: nat, i: nat): (r: Bytes)
    requires 1 <= i <= |cells|
    ensures |r| == w
  {
    SetBits(Zeros(w), Positions(cells, i))
  }

  /** How a value of type `ty` is laid out in a row: a string behind its `uint16_t` length, any other value as it is. */
  function Stored(ty: Type, v: Bytes): Bytes
  {
    if ty == String then LE16(|v| % 0x1_0000) + v else v
  }

  /**
   * The bytes `write` emits for the value of a cell whose column is `col`:
   * a string with its length stored as a `uint16_t`, any other value as it is.
   */
  function Piece(col: Option<ColumnSchema>, c: Cell): Bytes
  {
    match c.data
    case None => []
    case Some(v) => if col.Some? then Stored(col.value.ty, v) else v
  }

  /** The byte strings of `ps`, one after the other. */
  function Concat(ps: seq<Bytes>): Bytes
  {
    if |ps| == 0 then [] else Concat(ps[..|ps| - 1]) + ps[|ps| - 1]
  }

  /** The value bytes of each cell; the delete cell has none. */
  function Pieces(lay: seq<Option<ColumnSchema>>, cells: seq<Cell>): (ps: seq<Bytes>)
    requires |cells| == |lay|
    ensures |ps| == |cells|
  {
    seq(|cells|, i requires 0 <= i < |cells| => if i == 0 then [] else Piece(lay[i], cells[i]))
  }

  /** The value bytes `write` emits for `cells[1..i)`. */
  function Values(lay: seq<Option<ColumnSchema>>, cells: seq<Cell>, i: nat): Bytes
    requires i <= |cells| == |lay|
  {
    Concat(Pieces(lay, cells)[..i])
  }

  /** The size `byte_size` counts for one value: 2 + length for a string, the type's width otherwise. */
  function PieceSize(col: Option<ColumnSchema>, c: Cell): nat
  {
    match c.data
    case None => 0
    case Some(v) =>
      if col.None? then 0
      else if col.value.ty == String then 2 + |v|
      else ValueSize(col.value.ty)
  }

  /** The sum of `ns`. */
  function Sum(ns: seq<nat>): nat
  {
    if |ns| == 0 then 0 else Sum(ns[..|ns| - 1]) + ns[|ns| - 1]
  }

  /** The value size of each cell; the delete cell has none. */
  function PieceSizes(lay: seq<Option<ColumnSchema>>, cells: seq<Cell>): (ns: seq<nat>)
    requires |cells| == |lay|
    ensures |ns| == |cells|
  {
    seq(|cells|, i requires 0 <= i < |cells| => if i == 0 then 0 else PieceSize(lay[i], cells[i]))
  }

  /** The value bytes `byte_size` counts for `cells[1..i)`. */
  function ValueBytes(lay: seq<Option<ColumnSchema>>, cells: seq<Cell>, i: nat): nat
    requires i <= |cells| == |lay|
  {
    Sum(PieceSizes(lay, cells)[..i])
  }

  /** Cell `i` belongs to a key column (cid 1..num_key_column) and is not set. */
  predicate KeyUnset(cells: seq<Cell>, numKey: nat, i: nat)
  {
    1 <= i < |cells| && i <= numKey && !cells[i].isset
  }

  /** The size `byte_size` reports for a row: the width field, the bitmap and the values. */
  function RowSize(lay: seq<Option<ColumnSchema>>, cells: seq<Cell>): nat
    requires 1 <= |cells| == |lay|
  {
    2 + RowWidth(cells) + ValueBytes(lay, cells, |cells|)
  }

  /** Some key column is not set. */
  predicate MissingKey(cells: seq<Cell>, numKey: nat)
  {
    exists i :: 1 <= i < |cells| && KeyUnset(cells, numKey, i)
  }

  /** A row body: the 16-bit bitmap width, the bitmap and the values. */
  function RowBody(lay: seq<Option<ColumnSchema>>, cells: seq<Cell>): Bytes
    requires 1 <= |cells| == |lay| && RowWidth(cells) < 0x1_0000
  {
    LE16(RowWidth(cells)) + Bits(cells, RowWidth(cells), |cells|) + Values(lay, cells, |cells|)
  }

  /**
   * The row body `write` produces: NotSupported when the bitmap is 65536
   * bytes or wider, InvalidArgument when a key column is unset, otherwise
   * `RowBody`.
   */
  function EncodeRow(lay: seq<Option<ColumnSchema>>, cells: seq<Cell>, numKey: nat): Result<Bytes>
    requires 1 <= |cells| == |lay|
  {
    if RowWidth(cells) >= 0x1_0000 then Failure(NotSupported)
    else if MissingKey(cells, numKey) then Failure(InvalidArgument)
    else Success(RowBody(lay, cells))
  }

  /** The set columns of `cells[1..i)` in cid order, with their values (none for null). */
  function SetColumnsBelow(cells: seq<Cell>, i: nat): seq<(nat, Option<Bytes>)>
    requires i <= |cells|
  {
    if i <= 1 then []
    else SetColumnsBelow(cells, i - 1) + (if cells[i - 1].isset then [(i - 1, cells[i - 1].data)] else [])
  }

  /** The set columns of a row, in cid order (the delete cell is not a column). */
  function SetColumns(cells: seq<Cell>): seq<(nat, Option<Bytes>)>
  {
    SetColumnsBelow(cells, |cells|)
  }
  // ---------------------------------------------------------------------
  // Properties of the encoding.
  // ---------------------------------------------------------------------

  /** The null-bit count never decreases along the cells, and grows past each set nullable cell. */
  lemma {:induction false} NullBeforeGrows(cells: seq<Cell>, i: nat, k: nat)
    requires 1 <= i <= k <= |cells|
    ensures NullBefore(cells, i) <= NullBefore(cells, k)
    ensures i < k && cells[i].isset && cells[i].isnullable ==> NullBefore(cells, i) < NullBefore(cells, k)
  {
    if i < k {
      NullBeforeGrows(cells, i, k - 1);
    }
  }

  /** Replacing cell `k` changes the null-bit count by the change in that cell's own contribution. */
  lemma {:induction false} NullBeforeUpdate(cells: seq<Cell>, k: nat, c: Cell, i: nat)
    requires k < |cells| && 1 <= i <= |cells|
    ensures var before := if 1 <= k < i && cells[k].isset && cells[k].isnullable then 1 else 0;
            var after := if 1 <= k < i && c.isset && c.isnullable then 1 else 0;
            NullBefore(cells[k := c], i) + before == NullBefore(cells, i) + after
  {
    if i > 1 {
      NullBeforeUpdate(cells, k, c, i - 1);
    }
  }

  /** Freshly cleared cells use no null bits. */
  lemma {:induction false} NullBeforeUnset(cells: seq<Cell>, i: nat)
    requires 1 <= i <= |cells|
    requires forall j :: 0 <= j < |cells| ==> cells[j] == UNSET
    ensures NullBefore(cells, i) == 0
  {
    if i > 1 {
      NullBeforeUnset(cells, i - 1);
    }
  }

  /** Each bit `write` sets lies below the next null bit; a cell bit is that of a visited set cell. */
  lemma {:induction false} PositionsBelow(cells: seq<Cell>, i: nat)
    requires 1 <= i <= |cells|
    ensures forall k :: 0 <= k < |Positions(cells, i)| ==>
      var p := Positions(cells, i)[k];
      p < |cells| + NullBefore(cells, i) && (p < |cells| ==> p < i && cells[p].isset)
  {
    if i > 1 {
      PositionsBelow(cells, i - 1);
      var prev := Positions(cells, i - 1);
      var ps := Positions(cells, i);
      forall k | 0 <= k < |ps|
        ensures ps[k] < |cells| + NullBefore(cells, i) && (ps[k] < |cells| ==> ps[k] < i && cells[ps[k]].isset)
      {
        if k < |prev| {
          assert ps[k] == prev[k];
        }
      }
    }
  }

  /** Setting the bits `ps` sets exactly those bits and leaves the others as they were. */
  lemma {:induction false} SetBitsTest(bv: Bytes, ps: seq<nat>, t: nat)
    requires forall k :: 0 <= k < |ps| ==> ps[k] < 8 * |bv|
    requires t < 8 * |bv|
    ensures BitTest(SetBits(bv, ps), t) <==> t in ps || BitTest(bv, t)
  {
    if |ps| > 0 {
      var init := ps[..|ps| - 1];
      SetBitsTest(bv, init, t);
      SetThenTest(SetBits(bv, init), ps[|ps| - 1], t);
      assert ps == init + [ps[|ps| - 1]];
    }
  }

  /** Below bit `|cells|`, `write` has set bit `t` exactly when cell `t` is set and visited. */
  lemma {:induction false} LowPositions(cells: seq<Cell>, i: nat, t: nat)
    requires 1 <= i <= |cells| && t < |cells|
    ensures t in Positions(cells, i) <==> t < i && cells[t].isset
  {
    if i > 1 {
      LowPositions(cells, i - 1, t);
    }
  }

  /** No bit at or past the next null bit has been set yet. */
  lemma HighPositions(cells: seq<Cell>, i: nat, t: nat)
    requires 1 <= i <= |cells| && |cells| + NullBefore(cells, i) <= t
    ensures t !in Positions(cells, i)
  {
    PositionsBelow(cells, i);
  }

  /** The null bit of a visited set nullable cell `j` has been set exactly when the cell's value is null. */
  lemma {:induction false} NullPosition(cells: seq<Cell>, i: nat, j: nat)
    requires 1 <= j < i <= |cells|
    requires cells[j].isset && cells[j].isnullable
    ensures NullBefore(cells, j) < NullBefore(cells, i)
    ensures |cells| + NullBefore(cells, j) in Positions(cells, i) <==> cells[j].data.None?
  {
    NullBeforeGrows(cells, j, i);
    var t := |cells| + NullBefore(cells, j);
    var c := cells[i - 1];
    var added := if !c.isset then [] else if c.isnullable && c.data.None? then [i - 1, |cells| + NullBefore(cells, i - 1)] else [i - 1];
    assert Positions(cells, i) == Positions(cells, i - 1) + added;
    if i == j + 1 {
      HighPositions(cells, j, t);
    } else {
      NullPosition(cells, i - 1, j);
      NullBeforeGrows(cells, j, i - 1);
      assert t !in added;
    }
  }

  /** Appending one more string to the list appends it to the concatenation. */
  lemma ConcatSnoc(ps: seq<Bytes>, i: nat)
    requires i < |ps|
    ensures Concat(ps[..i + 1]) == Concat(ps[..i]) + ps[i]
  {
    assert ps[..i + 1][..i] == ps[..i];
  }

  /** The concatenation of a prefix of the list is a prefix of the concatenation. */
  lemma {:induction false} ConcatPrefix(ps: seq<Bytes>, i: nat)
    requires i <= |ps|
    ensures Concat(ps[..i]) <= Concat(ps)
  {
    if i < |ps| {
      ConcatPrefix(ps[..|ps| - 1], i);
      assert ps[..|ps| - 1][..i] == ps[..i];
    } else {
      assert ps[..i] == ps;
    }
  }

  /** String `j` of the list sits in the concatenation right after the strings before it. */
  lemma ConcatPiece(ps: seq<Bytes>, j: nat)
    requires j < |ps|
    ensures |Concat(ps[..j])| + |ps[j]| <= |Concat(ps)|
    ensures Concat(ps)[|Concat(ps[..j])|..|Concat(ps[..j])| + |ps[j]|] == ps[j]
  {
    ConcatPrefix(ps, j + 1);
    ConcatSnoc(ps, j);
    var a := Concat(ps[..j]);
    var b := Concat(ps[..j + 1]);
    assert b[|a|..] == ps[j];
    SliceOfPrefix(b, Concat(ps), |a|, |b|);
  }

  /** A window inside a prefix of `y` is the same window of `y`. */
  lemma SliceOfPrefix(x: Bytes, y: Bytes, lo: nat, hi: nat)
    requires x <= y && lo <= hi <= |x|
    ensures y[lo..hi] == x[lo..hi]
  {
    assert y[..|x|] == x;
  }

  /** Empty strings add nothing to the concatenation. */
  lemma {:induction false} ConcatSkip(ps: seq<Bytes>, a: nat, b: nat)
    requires a <= b <= |ps|
    requires forall t :: a <= t < b ==> ps[t] == []
    ensures Concat(ps[..a]) == Concat(ps[..b])
  {
    if a < b {
      ConcatSkip(ps, a, b - 1);
      ConcatSnoc(ps, b - 1);
    }
  }

  /** A cell's value takes as many bytes as `byte_size` counts for it. */
  lemma PieceLength(i: nat, col: Option<ColumnSchema>, c: Cell)
    requires i >= 1 && CellOk(i, col, c)
    ensures |Piece(col, c)| == PieceSize(col, c)
  {
  }

  /** When each string has its listed length, the concatenation is as long as the lengths add up to. */
  lemma {:induction false} ConcatLength(ps: seq<Bytes>, ns: seq<nat>, i: nat)
    requires |ps| == |ns| && i <= |ps|
    requires forall k :: 0 <= k < |ps| ==> |ps[k]| == ns[k]
    ensures |Concat(ps[..i])| == Sum(ns[..i])
  {
    if i > 0 {
      ConcatLength(ps, ns, i - 1);
      ConcatSnoc(ps, i - 1);
      assert ns[..i][..i - 1] == ns[..i - 1];
    }
  }

  /** `write` emits exactly as many value bytes as `byte_size` counts. */
  lemma ValuesLength(lay: seq<Option<ColumnSchema>>, cells: seq<Cell>, i: nat)
    requires CellsOk(lay, cells) && i <= |cells|
    ensures |Values(lay, cells, i)| == ValueBytes(lay, cells, i)
  {
    var ps := Pieces(lay, cells);
    var ns := PieceSizes(lay, cells);
    forall k | 0 <= k < |ps|
      ensures |ps[k]| == ns[k]
    {
      if k > 0 {
        PieceLength(k, lay[k], cells[k]);
      }
    }
    ConcatLength(ps, ns, i);
  }

  /** The value of cell `j` sits right after the values of the cells before it. */
  lemma PieceInValues(lay: seq<Option<ColumnSchema>>, cells: seq<Cell>, j: nat)
    requires |cells| == |lay| && 1 <= j < |cells|
    ensures |Values(lay, cells, j)| + |Piece(lay[j], cells[j])| <= |Values(lay, cells, |cells|)|
    ensures Values(lay, cells, |cells|)[|Values(lay, cells, j)|..|Values(lay, cells, j)| + |Piece(lay[j], cells[j])|]
      == Piece(lay[j], cells[j])
  {
    var ps := Pieces(lay, cells);
    ConcatPiece(ps, j);
    assert ps[..|cells|] == ps;
  }

  /** A run of unset cells adds no null bit and no column. */
  lemma {:induction false} SkipUnsetBits(cells: seq<Cell>, a: nat, b: nat)
    requires 1 <= a <= b <= |cells|
    requires forall t :: a <= t < b ==> !cells[t].isset
    ensures NullBefore(cells, a) == NullBefore(cells, b)
    ensures SetColumnsBelow(cells, a) == SetColumnsBelow(cells, b)
  {
    if a < b {
      SkipUnsetBits(cells, a, b - 1);
    }
  }

  /** A run of unset cells adds no null bit, no value byte and no column. */
  lemma SkipUnset(lay: seq<Option<ColumnSchema>>, cells: seq<Cell>, a: nat, b: nat)
    requires CellsOk(lay, cells) && 1 <= a <= b <= |cells|
    requires forall t :: a <= t < b ==> !cells[t].isset
    ensures NullBefore(cells, a) == NullBefore(cells, b)
    ensures Values(lay, cells, a) == Values(lay, cells, b)
    ensures SetColumnsBelow(cells, a) == SetColumnsBelow(cells, b)
  {
    SkipUnsetBits(cells, a, b);
    var ps := Pieces(lay, cells);
    forall t | a <= t < b
      ensures ps[t] == []
    {
      assert CellOk(t, lay[t], cells[t]);
    }
    ConcatSkip(ps, a, b);
  }

  /**
   * `SetColumns` lists, in strictly ascending cid order, exactly the set
   * cells other than the delete cell, each with its value.
   */
  lemma {:induction false} SetColumnsSpec(cells: seq<Cell>, i: nat)
    requires i <= |cells|
    ensures forall k :: 0 <= k < |SetColumnsBelow(cells, i)| ==>
      var (cid, v) := SetColumnsBelow(cells, i)[k];
      1 <= cid < i && cells[cid].isset && v == cells[cid].data
    ensures forall k, l :: 0 <= k < l < |SetColumnsBelow(cells, i)| ==>
      SetColumnsBelow(cells, i)[k].0 < SetColumnsBelow(cells, i)[l].0
    ensures forall t :: 1 <= t < i && cells[t].isset ==> (t, cells[t].data) in SetColumnsBelow(cells, i)
  {
    if i > 1 {
      SetColumnsSpec(cells, i - 1);
      var prev := SetColumnsBelow(cells, i - 1);
      var sc := SetColumnsBelow(cells, i);
      var extra := if cells[i - 1].isset then [(i - 1, cells[i - 1].data)] else [];
      assert sc == prev + extra;
      forall k | 0 <= k < |sc|
        ensures 1 <= sc[k].0 < i && cells[sc[k].0].isset && sc[k].1 == cells[sc[k].0].data
      {
        if k < |prev| {
          assert sc[k] == prev[k];
        } else {
          assert cells[i - 1].isset && sc[k] == (i - 1, cells[i - 1].data);
        }
      }
      forall k, l | 0 <= k < l < |sc|
        ensures sc[k].0 < sc[l].0
      {
        assert sc[k] == prev[k];
        if l < |prev| {
          assert sc[l] == prev[l];
        }
      }
      forall t | 1 <= t < i && cells[t].isset
        ensures (t, cells[t].data) in sc
      {
        if t < i - 1 {
          assert (t, cells[t].data) in prev;
        } else {
          assert sc[|prev|] == (t, cells[t].data);
        }
      }
    }
  }

  /**
   * The encoded body is `byte_size` bytes long, `2 + W + Σ value sizes`:
   * `write` advances its cursor by exactly the size `end_row` reserved.
   */
  lemma EncodedLength(lay: seq<Option<ColumnSchema>>, cells: seq<Cell>, numKey: nat)
    requires CellsOk(lay, cells) && EncodeRow(lay, cells, numKey).Success?
    ensures |EncodeRow(lay, cells, numKey).value| == RowSize(lay, cells)
  {
    ValuesLength(lay, cells, |cells|);
  }

  /** Bit `t` below `|cells|` of a row's bitmap is set exactly when cell `t` is set. */
  lemma CellBit(cells: seq<Cell>, t: nat)
    requires t < |cells|
    ensures |cells| <= 8 * RowWidth(cells)
    ensures BitTest(Bits(cells, RowWidth(cells), |cells|), t) <==> cells[t].isset
  {
    var w := RowWidth(cells);
    var ps := Positions(cells, |cells|);
    PositionsBelow(cells, |cells|);
    SetBitsTest(Zeros(w), ps, t);
    ZerosClear(w, t);
    LowPositions(cells, |cells|, t);
  }

  /** The null bit of a set nullable cell `j` lies inside a row's bitmap and is set exactly when the value is null. */
  lemma NullBit(cells: seq<Cell>, j: nat)
    requires 1 <= j < |cells| && cells[j].isset && cells[j].isnullable
    ensures |cells| + NullBefore(cells, j) < 8 * RowWidth(cells)
    ensures BitTest(Bits(cells, RowWidth(cells), |cells|), |cells| + NullBefore(cells, j)) <==> cells[j].data.None?
  {
    var w := RowWidth(cells);
    var ps := Positions(cells, |cells|);
    var t := |cells| + NullBefore(cells, j);
    NullPosition(cells, |cells|, j);
    PositionsBelow(cells, |cells|);
    SetBitsTest(Zeros(w), ps, t);
    ZerosClear(w, t);
  }

  /**
   * The bitmap of a row: bit 0 is the delete flag, bit `t` for a cid `t` is
   * set exactly when that column is set, and the null bit of a set nullable
   * column lies inside the bitmap and is set exactly when its value is null.
   */
  lemma RowBits(cells: seq<Cell>)
    requires |cells| >= 1
    ensures |cells| <= 8 * RowWidth(cells)
    ensures forall t :: 0 <= t < |cells| ==> (BitTest(Bits(cells, RowWidth(cells), |cells|), t) <==> cells[t].isset)
    ensures forall j :: 1 <= j < |cells| && cells[j].isset && cells[j].isnullable ==>
      && |cells| + NullBefore(cells, j) < 8 * RowWidth(cells)
      && (BitTest(Bits(cells, RowWidth(cells), |cells|), |cells| + NullBefore(cells, j)) <==> cells[j].data.None?)
  {
    forall t | 0 <= t < |cells|
      ensures BitTest(Bits(cells, RowWidth(cells), |cells|), t) <==> cells[t].isset
    {
      CellBit(cells, t);
    }
    forall j | 1 <= j < |cells| && cells[j].isset && cells[j].isnullable
      ensures |cells| + NullBefore(cells, j) < 8 * RowWidth(cells)
      ensures BitTest(Bits(cells, RowWidth(cells), |cells|), |cells| + NullBefore(cells, j)) <==> cells[j].data.None?
    {
      NullBit(cells, j);
    }
  }

  // ---------------------------------------------------------------------
  // The batch.
  // ---------------------------------------------------------------------

  /** `row` holds the bytes `buf[off..off + |row|]`. */
  predicate HoldsAt(buf: Bytes, off: nat, row: Bytes)
  {
    off + |row| <= |buf| && buf[off..off + |row|] == row
  }

  /**
   * `buf` holds, at `off`, a row written from `cells`: the body's length as
   * a `uint32_t`, then the body `write` produced.
   */
  ghost predicate RowStored(lay: seq<Option<ColumnSchema>>, numKey: nat, buf: Bytes, off: nat, cells: seq<Cell>)
  {
    && CellsOk(lay, cells)
    && EncodeRow(lay, cells, numKey).Success?
    && HoldsAt(buf, off, LE32(|EncodeRow(lay, cells, numKey).value| % 0x1_0000_0000))
    && HoldsAt(buf, off + 4, EncodeRow(lay, cells, numKey).value)
  }

  /** Bytes held in a buffer are still held once the buffer grows. */
  lemma HoldsInLonger(buf: Bytes, more: Bytes, off: nat, row: Bytes)
    requires HoldsAt(buf, off, row) && buf <= more
    ensures HoldsAt(more, off, row)
  {
    forall t | 0 <= t < |row|
      ensures more[off + t] == row[t]
    {
      assert buf[off + t] == buf[off..off + |row|][t];
    }
  }

  /** Writing `src` at `at` leaves the bytes before `at` as they were, and then holds `src` at `at`. */
  lemma WriteHolds(b: Bytes, at: nat, src: Bytes)
    requires at + |src| <= |b|
    ensures b[..at] <= Overwrite(b, at, src)
    ensures HoldsAt(Overwrite(b, at, src), at, src)
  {
    OverwriteParts(b, at, src);
  }

  /**
   * `PartialRowBatch`: a fixed-capacity buffer of rows. Rows are stored
   * back to back from the start of `data`; `rowOffsets[k]` is where row `k`
   * starts and `bsize` how many bytes are in use. `rows` records, for the
   * proofs, the cells each row was written from.
   */
  class PartialRowBatch {
    const schema: Schema
    const data: array<byte>
    const byteCapacity: nat
    const rowCapacity: nat
    var rowOffsets: seq<nat>
    var bsize: nat
    ghost var rows: seq<seq<Cell>>

    /** Every recorded row is stored at its offset, inside the bytes in use, and no more rows than the capacity. */
    ghost predicate Valid()
      reads this, schema, data
    {
      && schema.Valid() && RowSchema(schema.columns)
      && data.Length == byteCapacity
      && bsize <= byteCapacity
      && |rows| == |rowOffsets| <= rowCapacity
      && forall k :: 0 <= k < |rows| ==>
           RowStored(Layout(schema.columns), schema.numKeyColumn, data[..bsize], rowOffsets[k], rows[k])
    }

    /** `PartialRowBatch(schema, byte_capacity, row_capacity)`: an empty batch. */
    constructor (s: Schema, byteCap: nat, rowCap: nat)
      requires s.Valid() && RowSchema(s.columns)
      ensures Valid()
      ensures schema == s && byteCapacity == byteCap && rowCapacity == rowCap
      ensures rowOffsets == [] && rows == [] && bsize == 0
      ensures fresh(data)
    {
      schema := s;
      data := new byte[byteCap];
      byteCapacity := byteCap;
      rowCapacity := rowCap;
      rowOffsets := [];
      bsize := 0;
      rows := [];
    }

    /** `get_row(idx)`: where the body of row `idx` starts, or none when there is no such row. */
    function GetRow(idx: nat): (r: Option<nat>)
      reads this, schema, data
      requires Valid()
      ensures r.None? <==> idx >= |rows|
      ensures r.Some? ==>
        HoldsAt(data[..bsize], r.value, EncodeRow(Layout(schema.columns), rows[idx], schema.numKeyColumn).value)
    {
      if idx >= |rowOffsets| then None else Some(rowOffsets[idx] + 4)
    }
  }

  /** Stored rows stay stored when bytes are appended after them. */
  lemma RowsStayStored(lay: seq<Option<ColumnSchema>>, numKey: nat, buf: Bytes, more: Bytes, offs: seq<nat>, rows: seq<seq<Cell>>)
    requires |offs| == |rows| && buf <= more
    requires forall k :: 0 <= k < |rows| ==> RowStored(lay, numKey, buf, offs[k], rows[k])
    ensures forall k :: 0 <= k < |rows| ==> RowStored(lay, numKey, more, offs[k], rows[k])
  {
    forall k | 0 <= k < |rows|
      ensures RowStored(lay, numKey, more, offs[k], rows[k])
    {
      var body := EncodeRow(lay, rows[k], numKey).value;
      HoldsInLonger(buf, more, offs[k], LE32(|body| % 0x1_0000_0000));
      HoldsInLonger(buf, more, offs[k] + 4, body);
    }
  }

  /**
   * Writing a row's length and then its body at `at` stores the row there,
   * in a buffer that now ends after the body and still begins with the
   * bytes before `at`.
   */
  lemma AppendStored(lay: seq<Option<ColumnSchema>>, numKey: nat, buf: Bytes, at: nat, cells: seq<Cell>)
    requires CellsOk(lay, cells) && EncodeRow(lay, cells, numKey).Success?
    requires at + 4 + |EncodeRow(lay, cells, numKey).value| <= |buf|
    ensures
      var body := EncodeRow(lay, cells, numKey).value;
      var after := Overwrite(Overwrite(buf, at, LE32(|body| % 0x1_0000_0000)), at + 4, body);
      && buf[..at] <= after[..at + 4 + |body|]
      && RowStored(lay, numKey, after[..at + 4 + |body|], at, cells)
  {
    var body := EncodeRow(lay, cells, numKey).value;
    var len := LE32(|body| % 0x1_0000_0000);
    var mid := Overwrite(buf, at, len);
    var after := Overwrite(mid, at + 4, body);
    var end := at + 4 + |body|;
    OverwriteParts(buf, at, len);
    OverwriteParts(mid, at + 4, body);
    assert after[..end][..at] == mid[..at] == buf[..at];
    assert after[..end][at..at + 4] == after[at..at + 4] == mid[at..at + 4];
    assert after[..end][at + 4..end] == body;
  }

  /** Appending a row after the stored ones keeps them stored and stores it at the old end. */
  lemma AppendKeepsStored(lay: seq<Option<ColumnSchema>>, numKey: nat, buf: Bytes, at: nat,
                          offs: seq<nat>, rows: seq<seq<Cell>>, cells: seq<Cell>)
    requires |offs| == |rows|
    requires CellsOk(lay, cells) && EncodeRow(lay, cells, numKey).Success?
    requires at + 4 + |EncodeRow(lay, cells, numKey).value| <= |buf|
    requires forall k :: 0 <= k < |rows| ==> RowStored(lay, numKey, buf[..at], offs[k], rows[k])
    ensures
      var body := EncodeRow(lay, cells, numKey).value;
      var after := Overwrite(Overwrite(buf, at, LE32(|body| % 0x1_0000_0000)), at + 4, body);
      forall k :: 0 <= k < |rows| + 1 ==>
        RowStored(lay, numKey, after[..at + 4 + |body|], (offs + [at])[k], (rows + [cells])[k])
  {
    var body := EncodeRow(lay, cells, numKey).value;
    var after := Overwrite(Overwrite(buf, at, LE32(|body| % 0x1_0000_0000)), at + 4, body);
    AppendStored(lay, numKey, buf, at, cells);
    RowsStayStored(lay, numKey, buf[..at], after[..at + 4 + |body|], offs, rows);
    forall k | 0 <= k < |rows| + 1
      ensures RowStored(lay, numKey, after[..at + 4 + |body|], (offs + [at])[k], (rows + [cells])[k])
    {
      if k < |rows| {
        assert (offs + [at])[k] == offs[k] && (rows + [cells])[k] == rows[k];
      }
    }
  }

  // ---------------------------------------------------------------------
  // The writer.
  // ---------------------------------------------------------------------

  /** `get(cid)` of a well-formed schema looks the column up in the layout. */
  lemma GetByCidInLayout(s: Schema, cid: nat)
    requires s.Valid() && cid < |Layout(s.columns)|
    ensures s.GetByCid(cid) == Layout(s.columns)[cid]
  {
  }

  /** Adding one more number adds it to the sum. */
  lemma SumSnoc(ns: seq<nat>, i: nat)
    requires i < |ns|
    ensures Sum(ns[..i + 1]) == Sum(ns[..i]) + ns[i]
  {
    assert ns[..i + 1][..i] == ns[..i];
  }

  /** Setting one more bit sets it on top of the bits set before. */
  lemma SetBitsSnoc(bv: Bytes, ps: seq<nat>, x: nat)
    requires x < 8 * |bv|
    ensures SetBits(bv, ps + [x]) == BitSet(SetBits(bv, ps), x)
  {
    assert (ps + [x])[..|ps|] == ps;
  }

  /** The bitmap before any cell is visited: the delete bit, if set, in a zeroed buffer. */
  lemma BitsStart(cells: seq<Cell>, w: nat)
    requires 1 <= |cells| <= 8 * w
    ensures Bits(cells, w, 1) == if cells[0].isset then BitSet(Zeros(w), 0) else Zeros(w)
  {
    if cells[0].isset {
      SetBitsSnoc(Zeros(w), [], 0);
    }
  }

  /** Visiting cell `i` sets its bit, then its null bit when it is a set nullable cell with a null value. */
  lemma BitsStep(cells: seq<Cell>, w: nat, i: nat)
    requires 1 <= i < |cells| && |cells| + NullBefore(cells, i + 1) <= 8 * w
    ensures !cells[i].isset ==> Bits(cells, w, i + 1) == Bits(cells, w, i)
    ensures cells[i].isset && !(cells[i].isnullable && cells[i].data.None?) ==>
      Bits(cells, w, i + 1) == BitSet(Bits(cells, w, i), i)
    ensures cells[i].isset && cells[i].isnullable && cells[i].data.None? ==>
      |cells| + NullBefore(cells, i) < 8 * w &&
      Bits(cells, w, i + 1) == BitSet(BitSet(Bits(cells, w, i), i), |cells| + NullBefore(cells, i))
  {
    var ps := Positions(cells, i);
    var c := cells[i];
    if c.isset {
      SetBitsSnoc(Zeros(w), ps, i);
      if c.isnullable && c.data.None? {
        var q := |cells| + NullBefore(cells, i);
        assert Positions(cells, i + 1) == ps + [i] + [q];
        SetBitsSnoc(Zeros(w), ps + [i], q);
      } else {
        assert Positions(cells, i + 1) == ps + [i];
      }
    } else {
      assert Positions(cells, i + 1) == ps;
    }
  }

  /**
   * One round of the loop of `write(pos)`: a set cell sets its bit, a set
   * nullable cell takes the next null bit (set when its value is null), and
   * a value is appended, a string behind its 16-bit length.
   */
  method WriteCell(lay: seq<Option<ColumnSchema>>, cells: seq<Cell>, w: nat, i: nat,
                   curNull: nat, bitvec: Bytes, values: Bytes)
    returns (curNull': nat, bitvec': Bytes, values': Bytes)
    requires CellsOk(lay, cells) && 1 <= i < |cells|
    requires |cells| + NullBefore(cells, |cells|) <= 8 * w
    requires curNull == |cells| + NullBefore(cells, i)
    requires bitvec == Bits(cells, w, i) && values == Values(lay, cells, i)
    ensures curNull' == |cells| + NullBefore(cells, i + 1)
    ensures bitvec' == Bits(cells, w, i + 1) && values' == Values(lay, cells, i + 1)
  {
    curNull', bitvec' := WriteBits(cells, w, i, curNull, bitvec);
    values' := WriteValue(lay, cells, i, values);
  }

  /** The bitmap part of a round of `write(pos)`'s loop. */
  method WriteBits(cells: seq<Cell>, w: nat, i: nat, curNull: nat, bitvec: Bytes)
    returns (curNull': nat, bitvec': Bytes)
    requires 1 <= i < |cells|
    requires |cells| + NullBefore(cells, |cells|) <= 8 * w
    requires curNull == |cells| + NullBefore(cells, i)
    requires bitvec == Bits(cells, w, i)
    ensures curNull' == |cells| + NullBefore(cells, i + 1)
    ensures bitvec' == Bits(cells, w, i + 1)
  {
    var c := cells[i];
    NullBeforeGrows(cells, i + 1, |cells|);
    BitsStep(cells, w, i);
    curNull', bitvec' := curNull, bitvec;
    if c.isset {
      bitvec' := BitSet(bitvec', i);
      if c.isnullable && c.data.None? {
        bitvec' := BitSet(bitvec', curNull);
      }
      if c.isnullable {
        curNull' := curNull + 1;
      }
    }
  }

  /** The value part of a round of `write(pos)`'s loop: a string goes behind its 16-bit length. */
  method WriteValue(lay: seq<Option<ColumnSchema>>, cells: seq<Cell>, i: nat, values: Bytes)
    returns (values': Bytes)
    requires CellsOk(lay, cells) && 1 <= i < |cells|
    requires values == Values(lay, cells, i)
    ensures values' == Values(lay, cells, i + 1)
  {
    var c := cells[i];
    ConcatSnoc(Pieces(lay, cells), i);
    values' := values;
    if c.isset && c.data.Some? {
      assert CellOk(i, lay[i], c);
      var v := c.data.value;
      if lay[i].value.ty == String {
        values' := values + (LE16(|v| % 0x1_0000) + v);
      } else {
        values' := values + v;
      }
    }
  }

  /** With every key column set and a bitmap narrower than 65536 bytes, the encoding is the row body. */
  lemma EncodedWhole(lay: seq<Option<ColumnSchema>>, cells: seq<Cell>, numKey: nat)
    requires 1 <= |cells| == |lay| && RowWidth(cells) < 0x1_0000
    requires forall k :: 0 <= k < |cells| ==> !KeyUnset(cells, numKey, k)
    ensures EncodeRow(lay, cells, numKey) ==
      Success(LE16(RowWidth(cells)) + Bits(cells, RowWidth(cells), |cells|) + Values(lay, cells, |cells|))
  {
  }

  /** The key test of `write(pos)`'s loop: an unset cell of a key column makes the row unwritable. */
  method CheckKey(cells: seq<Cell>, numKey: nat, i: nat) returns (missing: bool)
    requires 1 <= i < |cells| && forall k :: 0 <= k < i ==> !KeyUnset(cells, numKey, k)
    ensures missing ==> MissingKey(cells, numKey)
    ensures !missing ==> forall k :: 0 <= k < i + 1 ==> !KeyUnset(cells, numKey, k)
  {
    missing := !cells[i].isset && i <= numKey;
    if missing {
      assert KeyUnset(cells, numKey, i);
    }
  }

  /**
   * The loop of `write(pos)` over the cells of a row, with `lay` the
   * schema's columns by cid, into a zeroed `W`-byte bitmap: either it meets
   * an unset key column, or it has set the row's bitmap (set bits, then
   * null bits in cid order) and emitted its values, each string behind its
   * 16-bit length.
   */
  method VisitCells(lay: seq<Option<ColumnSchema>>, cells: seq<Cell>, numKey: nat, w: nat)
    returns (missing: bool, bitvec: Bytes, values: Bytes)
    requires CellsOk(lay, cells) && |cells| + NullBefore(cells, |cells|) <= 8 * w
    ensures missing ==> MissingKey(cells, numKey)
    ensures !missing ==> forall k :: 0 <= k < |cells| ==> !KeyUnset(cells, numKey, k)
    ensures !missing ==> bitvec == Bits(cells, w, |cells|) && values == Values(lay, cells, |cells|)
  {
    bitvec := Zeros(w);
    BitsStart(cells, w);
    if cells[0].isset {
      bitvec := BitSet(bitvec, 0);
    }
    var curNull := |cells|;
    values := [];
    ConcatSnoc(Pieces(lay, cells), 0);
    var i := 1;
    while i < |cells|
      invariant 1 <= i <= |cells|
      invariant curNull == |cells| + NullBefore(cells, i)
      invariant bitvec == Bits(cells, w, i)
      invariant values == Values(lay, cells, i)
      invariant forall k :: 0 <= k < i ==> !KeyUnset(cells, numKey, k)
    {
      missing := CheckKey(cells, numKey, i);
      if missing {
        return;
      }
      curNull, bitvec, values := WriteCell(lay, cells, w, i, curNull, bitvec, values);
      i := i + 1;
    }
    missing := false;
  }

  /**
   * `write(pos)` on the cells of a row, with `lay` the schema's columns by
   * cid and `nullCount` the writer's null-bit count: NotSupported for a
   * bitmap of 65536 bytes or more, InvalidArgument for an unset key column,
   * otherwise the 16-bit bitmap width, the bitmap and the values.
   */
  method WriteCells(lay: seq<Option<ColumnSchema>>, cells: seq<Cell>, numKey: nat, nullCount: nat)
    returns (r: Result<Bytes>)
    requires CellsOk(lay, cells) && nullCount == NullBefore(cells, |cells|)
    ensures r == EncodeRow(lay, cells, numKey)
  {
    var w := NBlock(|cells| + nullCount, 8);
    assert w == RowWidth(cells);
    if w >= 65536 {
      return Failure(NotSupported);
    }
    var missing, bitvec, values := VisitCells(lay, cells, numKey, w);
    if missing {
      return Failure(InvalidArgument);
    }
    EncodedWhole(lay, cells, numKey);
    return Success(LE16(w) + bitvec + values);
  }

  /**
   * `PartialRowWriter`: builds one row at a time in `cells` (one cell per cid,
   * cell 0 being the delete flag) and appends it to `batch`. `bitNullSize`
   * counts the set nullable cells, each of which takes a null bit.
   */
  class PartialRowWriter {
    const batch: PartialRowBatch
    const schema: Schema
    const bitSetSize: nat
    var cells: seq<Cell>
    var bitNullSize: nat

    ghost predicate Valid()
      reads this, schema
    {
      && schema == batch.schema
      && schema.Valid() && RowSchema(schema.columns)
      && bitSetSize == CidSize(schema.columns)
      && CellsOk(Layout(schema.columns), cells)
      && bitNullSize == NullBefore(cells, |cells|)
    }

    /** The column table of the schema. */
    ghost function Lay(): seq<Option<ColumnSchema>>
      reads this, schema
    {
      Layout(schema.columns)
    }

    /** `PartialRowWriter(batch)`: one cleared cell per cid. */
    constructor (b: PartialRowBatch)
      requires b.schema.Valid() && RowSchema(b.schema.columns)
      ensures Valid()
      ensures batch == b && |cells| == CidSize(b.schema.columns)
      ensures forall i :: 0 <= i < |cells| ==> cells[i] == UNSET
    {
      batch := b;
      schema := b.schema;
      bitSetSize := CidSize(b.schema.columns);
      cells := seq(CidSize(b.schema.columns), _ => UNSET);
      bitNullSize := 0;
      new;
      NullBeforeUnset(cells, |cells|);
    }

    /** `start_row()`: clear every cell. */
    method StartRow()
      modifies this
      requires Valid()
      ensures Valid()
      ensures |cells| == |old(cells)| && forall i :: 0 <= i < |cells| ==> cells[i] == UNSET
    {
      cells := seq(|cells|, _ => UNSET);
      bitNullSize := 0;
      NullBeforeUnset(cells, |cells|);
    }

    /**
     * What `set` does once it has found the column `cs`: refuse a value the
     * column does not accept, otherwise mark the cell set with that value
     * and count a newly used null bit.
     */
    method SetColumn(cs: ColumnSchema, data: Option<Bytes>) returns (status: Code)
      modifies this
      requires Valid() && cs in schema.columns
      requires ValueShaped(Some(cs), data)
      ensures Valid()
      ensures status == Ok || status == InvalidArgument
      ensures status == Ok <==> Accepts(cs, data)
      ensures status == Ok ==> cs.cid < |cells|
      ensures status == Ok ==> cells == old(cells)[cs.cid := Cell(true, cs.nullable, data)]
      ensures status != Ok ==> cells == old(cells)
    {
      if cs.ty == String && data.Some? && |data.value| > 65535 {
        return InvalidArgument;
      }
      if cs.nullable || data.Some? {
        var k :| 0 <= k < |schema.columns| && schema.columns[k] == cs;
        ColumnOwnCid(schema.columns, k);
        var cid := cs.cid;
        var c := Cell(true, cs.nullable, data);
        NullBeforeUpdate(cells, cid, c, |cells|);
        if cs.nullable && !cells[cid].isnullable {
          bitNullSize := bitNullSize + 1;
        }
        cells := cells[cid := c];
        assert CellOk(cid, Lay()[cid], c);
        return Ok;
      }
      return InvalidArgument;
    }

    /** `set(cid, data)`: NotFound when no column has that cid, otherwise as `SetColumn`. */
    method SetByCid(cid: nat, data: Option<Bytes>) returns (status: Code)
      modifies this
      requires Valid()
      requires ValueShaped(schema.GetByCid(cid), data)
      ensures Valid()
      ensures status == NotFound <==> schema.GetByCid(cid).None?
      ensures status == Ok <==> schema.GetByCid(cid).Some? && Accepts(schema.GetByCid(cid).value, data)
      ensures status == Ok ==> cid < |cells|
      ensures status == Ok ==> cells == old(cells)[cid := Cell(true, schema.GetByCid(cid).value.nullable, data)]
      ensures status != Ok ==> cells == old(cells)
    {
      var cs := schema.GetByCid(cid);
      if cs.None? {
        return NotFound;
      }
      status := SetColumn(cs.value, data);
    }

    /** `set(name, data)`: NotFound when no column has that name, otherwise as `SetColumn`. */
    method SetByName(name: string, data: Option<Bytes>) returns (status: Code)
      modifies this
      requires Valid()
      requires ValueShaped(schema.GetByName(name), data)
      ensures Valid()
      ensures status == NotFound <==> schema.GetByName(name).None?
      ensures status == Ok <==> schema.GetByName(name).Some? && Accepts(schema.GetByName(name).value, data)
      ensures status == Ok ==> schema.GetByName(name).value.cid < |cells|
      ensures status == Ok ==>
        var cs := schema.GetByName(name).value;
        cells == old(cells)[cs.cid := Cell(true, cs.nullable, data)]
      ensures status != Ok ==> cells == old(cells)
    {
      var cs := schema.GetByName(name);
      if cs.None? {
        return NotFound;
      }
      status := SetColumn(cs.value, data);
    }

    /** `set_delete()`: mark the row as a delete. */
    method SetDelete() returns (status: Code)
      modifies this
      requires Valid()
      ensures Valid()
      ensures status == Ok
      ensures cells == old(cells)[0 := old(cells)[0].(isset := true)]
    {
      NullBeforeUpdate(cells, 0, cells[0].(isset := true), |cells|);
      cells := cells[0 := cells[0].(isset := true)];
      return Ok;
    }

    /**
     * `end_row()`: append the row to the batch. InvalidArgument when the
     * batch has no room for another row or for the row's bytes (its length
     * and body); otherwise the row's length is stored, then the body
     * `write` produces, and the row is recorded at the old end of the bytes
     * in use; a row `write` refuses is not recorded.
     */
    method EndRow() returns (status: Code)
      modifies batch, batch.data
      requires Valid() && batch.Valid()
      ensures Valid() && batch.Valid()
      ensures |old(batch.rows)| >= batch.rowCapacity ==> status == InvalidArgument
      ensures |old(batch.rows)| < batch.rowCapacity && old(batch.bsize) + RowSize(Lay(), cells) + 4 > batch.byteCapacity ==>
        status == InvalidArgument
      ensures |old(batch.rows)| < batch.rowCapacity && old(batch.bsize) + RowSize(Lay(), cells) + 4 <= batch.byteCapacity ==>
        status == if EncodeRow(Lay(), cells, schema.numKeyColumn).Success? then Ok
                  else EncodeRow(Lay(), cells, schema.numKeyColumn).code
      ensures status == Ok ==>
        && EncodeRow(Lay(), cells, schema.numKeyColumn).Success?
        && batch.rows == old(batch.rows) + [cells]
        && batch.rowOffsets == old(batch.rowOffsets) + [old(batch.bsize)]
        && batch.bsize == old(batch.bsize) + 4 + RowSize(Lay(), cells)
      ensures status != Ok ==>
        && batch.rows == old(batch.rows) && batch.rowOffsets == old(batch.rowOffsets) && batch.bsize == old(batch.bsize)
        && batch.data[..batch.bsize] == old(batch.data[..batch.bsize])
    {
      if |batch.rowOffsets| >= batch.rowCapacity {
        return InvalidArgument;
      }
      var n := ByteSize();
      if batch.bsize + n + 4 > batch.byteCapacity {
        return InvalidArgument;
      }
      ghost var lay := Lay();
      ghost var numKey := schema.numKeyColumn;
      ghost var before := batch.data[..];
      var at := batch.bsize;
      CopyInto(batch.data, at, LE32(n % 0x1_0000_0000));
      assert batch.data[..at] == before[..at] by {
        OverwriteParts(before, at, LE32(n % 0x1_0000_0000));
      }
      var r := Write();
      if r.Failure? {
        return r.code;
      }
      EncodedLength(lay, cells, numKey);
      CopyInto(batch.data, at + 4, r.value);
      AppendKeepsStored(lay, numKey, before, at, batch.rowOffsets, batch.rows, cells);
      batch.rowOffsets := batch.rowOffsets + [at];
      batch.bsize := at + 4 + n;
      batch.rows := batch.rows + [cells];
      return Ok;
    }

    /** `byte_size()`: the size of the row body, `2 + W + Σ value sizes`. */
    method ByteSize() returns (n: nat)
      requires Valid()
      ensures n == RowSize(Lay(), cells)
    {
      n := 2 + NBlock(bitSetSize + bitNullSize, 8);
      SumSnoc(PieceSizes(Lay(), cells), 0);
      var i := 1;
      while i < |cells|
        invariant 1 <= i <= |cells|
        invariant n == 2 + RowWidth(cells) + ValueBytes(Lay(), cells, i)
      {
        SumSnoc(PieceSizes(Lay(), cells), i);
        if cells[i].data.Some? {
          assert CellOk(i, Lay()[i], cells[i]);
          GetByCidInLayout(schema, i);
          var t := schema.GetByCid(i).value.ty;
          if t == String {
            n := n + 2 + |cells[i].data.value|;
          } else {
            n := n + ValueSize(t);
          }
        }
        i := i + 1;
      }
    }

    /** The bytes `write` emits for the value of cell `cid`, looking its column's type up in the schema. */
    method PieceOf(cid: nat) returns (p: Bytes)
      requires Valid() && 1 <= cid < |cells| && cells[cid].data.Some?
      ensures p == Piece(Lay()[cid], cells[cid])
    {
      assert CellOk(cid, Lay()[cid], cells[cid]);
      GetByCidInLayout(schema, cid);
      var v := cells[cid].data.value;
      if schema.GetByCid(cid).value.ty == String {
        p := LE16(|v| % 0x1_0000) + v;
      } else {
        p := v;
      }
    }

    /** `write(pos)`: the row body, or NotSupported / InvalidArgument as `EncodeRow` says. */
    method Write() returns (r: Result<Bytes>)
      requires Valid()
      ensures r == EncodeRow(Lay(), cells, schema.numKeyColumn)
    {
      r := WriteCells(Layout(schema.columns), cells, schema.numKeyColumn, bitNullSize);
    }
  }

  // ---------------------------------------------------------------------
  // The reader.
  // ---------------------------------------------------------------------

  /** A cell `read` produces: a cid and where its value starts in the batch's bytes (none for a null). */
  datatype CellView = CellView(cid: nat, data: Option<nat>)

  /** Bytes that lie inside bytes held at `off` are held at the matching place. */
  lemma HoldsInside(buf: Bytes, off: nat, x: Bytes, i: nat, j: nat)
    requires HoldsAt(buf, off, x) && i <= j <= |x|
    ensures HoldsAt(buf, off + i, x[i..j])
  {
    forall t | 0 <= t < j - i
      ensures buf[off + i + t] == x[i..j][t]
    {
      assert buf[off + i + t] == buf[off..off + |x|][i + t];
    }
  }

  /**
   * `view` is where `read` left the column `(cid, value)`: the same cid,
   * a column of the layout, no position for a null, and for a value the
   * position where its stored form lies.
   */
  ghost predicate ViewOf(buf: Bytes, lay: seq<Option<ColumnSchema>>, view: CellView, col: (nat, Option<Bytes>))
  {
    && view.cid == col.0
    && view.cid < |lay| && lay[view.cid].Some?
    && (view.data.Some? <==> col.1.Some?)
    && (view.data.Some? ==> HoldsAt(buf, view.data.value, Stored(lay[view.cid].value.ty, col.1.value)))
  }

  /** `views` are, one for one and in order, where `read` left the columns `cols`. */
  ghost predicate ViewsOf(buf: Bytes, lay: seq<Option<ColumnSchema>>, views: seq<CellView>, cols: seq<(nat, Option<Bytes>)>)
  {
    |views| == |cols| && forall k :: 0 <= k < |views| ==> ViewOf(buf, lay, views[k], cols[k])
  }

  /** A string's stored form starts with its length, which reads back as the length, and then holds its bytes. */
  lemma StoredString(buf: Bytes, p: nat, v: Bytes)
    requires |v| < 0x1_0000 && HoldsAt(buf, p, Stored(String, v))
    ensures p + 2 + |v| <= |buf|
    ensures ReadLE16(buf, p) == |v| && buf[p + 2..p + 2 + |v|] == v
  {
    var x := Stored(String, v);
    HoldsInside(buf, p, x, 0, 2);
    HoldsInside(buf, p, x, 2, |x|);
    assert x[0..2] == LE16(|v|) && x[2..|x|] == v;
    LE16RoundTrip(|v|, buf, p);
  }

  /** The values up to cell `t + 1` end after the size of cell `t`'s value. */
  lemma ValuesStep(lay: seq<Option<ColumnSchema>>, t: nat, row: seq<Cell>)
    requires CellsOk(lay, row) && 1 <= t < |row|
    ensures |Values(lay, row, t + 1)| == |Values(lay, row, t)| + PieceSize(lay[t], row[t])
  {
    assert CellOk(t, lay[t], row[t]);
    ConcatSnoc(Pieces(lay, row), t);
    PieceLength(t, lay[t], row[t]);
  }

  /** The value of the set cell `t` is stored where the values of the cells before it end. */
  lemma ValueStored(buf: Bytes, lay: seq<Option<ColumnSchema>>, vstart: nat, t: nat, row: seq<Cell>)
    requires CellsOk(lay, row) && 1 <= t < |row| && row[t].data.Some?
    requires HoldsAt(buf, vstart, Values(lay, row, |row|))
    ensures lay[t].Some?
    ensures HoldsAt(buf, vstart + |Values(lay, row, t)|, Stored(lay[t].value.ty, row[t].data.value))
  {
    assert CellOk(t, lay[t], row[t]);
    var before := |Values(lay, row, t)|;
    var piece := Piece(lay[t], row[t]);
    PieceInValues(lay, row, t);
    HoldsInside(buf, vstart, Values(lay, row, |row|), before, before + |piece|);
  }

  /**
   * One round of `read`'s loop, at the set cell `t` of a stored row whose
   * body starts at `start` and whose values start at `vstart`: the cell's
   * null bit, if it has one, decides between no position and `cur`, and
   * `cur` moves past the value (a string's length is read from the buffer).
   */
  method ReadOne(buf: Bytes, lay: seq<Option<ColumnSchema>>, bitvec: Bytes, vstart: nat, t: nat,
                 cur: nat, curNull: nat, ghost row: seq<Cell>)
    returns (view: CellView, cur': nat, curNull': nat)
    requires CellsOk(lay, row) && 1 <= t < |row| && row[t].isset
    requires bitvec == Bits(row, RowWidth(row), |row|)
    requires HoldsAt(buf, vstart, Values(lay, row, |row|))
    requires cur == vstart + |Values(lay, row, t)| && curNull == |row| + NullBefore(row, t)
    ensures ViewOf(buf, lay, view, (t, row[t].data))
    ensures cur' == vstart + |Values(lay, row, t + 1)| && curNull' == |row| + NullBefore(row, t + 1)
  {
    assert CellOk(t, lay[t], row[t]);
    var col := lay[t].value;
    var isNull;
    isNull, curNull' := ReadNull(bitvec, col.nullable, t, curNull, row);
    var data: Option<nat> := if isNull then None else Some(cur);
    view := CellView(t, data);
    cur' := cur;
    ValuesStep(lay, t, row);
    if !isNull {
      cur' := ReadValue(buf, lay, col, vstart, t, cur, row);
    }
  }

  /**
   * The null-bit part of a round of `read`'s loop: a nullable cell's bit
   * at `curNull` tells whether it is null, and `curNull` moves on.
   */
  method ReadNull(bitvec: Bytes, nullable: bool, t: nat, curNull: nat, ghost row: seq<Cell>)
    returns (isNull: bool, curNull': nat)
    requires 1 <= t < |row| && row[t].isset && row[t].isnullable == nullable
    requires nullable || row[t].data.Some?
    requires bitvec == Bits(row, RowWidth(row), |row|)
    requires curNull == |row| + NullBefore(row, t)
    ensures isNull <==> row[t].data.None?
    ensures curNull' == |row| + NullBefore(row, t + 1)
  {
    curNull' := curNull;
    isNull := false;
    if nullable {
      NullBit(row, t);
      isNull := BitTest(bitvec, curNull);
      curNull' := curNull + 1;
    }
  }

  /**
   * The value part of a round of `read`'s loop for a cell with a value:
   * it is stored at `cur`, and `cur` moves past it (a string's length is
   * read from the buffer).
   */
  method ReadValue(buf: Bytes, lay: seq<Option<ColumnSchema>>, col: ColumnSchema, vstart: nat, t: nat,
                   cur: nat, ghost row: seq<Cell>)
    returns (cur': nat)
    requires CellsOk(lay, row) && 1 <= t < |row| && row[t].data.Some? && lay[t] == Some(col)
    requires HoldsAt(buf, vstart, Values(lay, row, |row|))
    requires cur == vstart + |Values(lay, row, t)|
    ensures HoldsAt(buf, cur, Stored(col.ty, row[t].data.value))
    ensures cur' == cur + PieceSize(lay[t], row[t])
  {
    ValueStored(buf, lay, vstart, t, row);
    assert CellOk(t, lay[t], row[t]);
    var v := row[t].data.value;
    if col.ty == String {
      StoredString(buf, cur, v);
      var sz := ReadLE16(buf, cur);
      cur' := cur + sz + 2;
    } else {
      cur' := cur + ValueSize(col.ty);
    }
  }

  /**
   * A stored row body reads back as its parts: the width field gives the
   * bitmap width, the bitmap follows it, and the values follow the bitmap.
   */
  lemma BodyParts(buf: Bytes, start: nat, lay: seq<Option<ColumnSchema>>, row: seq<Cell>, numKey: nat)
    requires CellsOk(lay, row) && EncodeRow(lay, row, numKey).Success?
    requires HoldsAt(buf, start, EncodeRow(lay, row, numKey).value)
    ensures start + 2 <= |buf| && ReadLE16(buf, start) == RowWidth(row)
    ensures start + 2 + RowWidth(row) <= |buf|
    ensures buf[start + 2..start + 2 + RowWidth(row)] == Bits(row, RowWidth(row), |row|)
    ensures HoldsAt(buf, start + 2 + RowWidth(row), Values(lay, row, |row|))
  {
    var w := RowWidth(row);
    var bits := Bits(row, w, |row|);
    var vals := Values(lay, row, |row|);
    var body := EncodeRow(lay, row, numKey).value;
    assert body == LE16(w) + bits + vals;
    HoldsInside(buf, start, body, 0, 2);
    HoldsInside(buf, start, body, 2, 2 + w);
    HoldsInside(buf, start, body, 2 + w, |body|);
    assert body[0..2] == LE16(w) && body[2..2 + w] == bits && body[2 + w..|body|] == vals;
    LE16RoundTrip(w, buf, start);
  }

  /** Adding one more view for one more column keeps the views matching the columns. */
  lemma ViewsSnoc(buf: Bytes, lay: seq<Option<ColumnSchema>>, views: seq<CellView>, cols: seq<(nat, Option<Bytes>)>,
                  view: CellView, col: (nat, Option<Bytes>))
    requires ViewsOf(buf, lay, views, cols) && ViewOf(buf, lay, view, col)
    ensures ViewsOf(buf, lay, views + [view], cols + [col])
  {
    forall k | 0 <= k < |views| + 1
      ensures ViewOf(buf, lay, (views + [view])[k], (cols + [col])[k])
    {
      if k < |views| {
        assert (views + [view])[k] == views[k] && (cols + [col])[k] == cols[k];
      }
    }
  }

  /**
   * One round of `read`'s loop, from the search position `offset` to the
   * next set bit `t`: the cells in between are unset, so they add nothing,
   * and cell `t` adds its view.
   */
  method ReadNext(buf: Bytes, lay: seq<Option<ColumnSchema>>, bitvec: Bytes, vstart: nat, offset: nat, t: nat,
                  cur: nat, curNull: nat, views: seq<CellView>, ghost row: seq<Cell>)
    returns (cur': nat, curNull': nat, views': seq<CellView>)
    requires CellsOk(lay, row) && 1 <= offset <= t < |row|
    requires bitvec == Bits(row, RowWidth(row), |row|)
    requires BitTest(bitvec, t) && forall u :: offset <= u < t ==> !BitTest(bitvec, u)
    requires HoldsAt(buf, vstart, Values(lay, row, |row|))
    requires cur == vstart + |Values(lay, row, offset)| && curNull == |row| + NullBefore(row, offset)
    requires ViewsOf(buf, lay, views, SetColumnsBelow(row, offset))
    ensures cur' == vstart + |Values(lay, row, t + 1)| && curNull' == |row| + NullBefore(row, t + 1)
    ensures ViewsOf(buf, lay, views', SetColumnsBelow(row, t + 1))
  {
    forall u | offset <= u < t
      ensures !row[u].isset
    {
      CellBit(row, u);
    }
    CellBit(row, t);
    SkipUnset(lay, row, offset, t);
    var view;
    view, cur', curNull' := ReadOne(buf, lay, bitvec, vstart, t, cur, curNull, row);
    ViewsSnoc(buf, lay, views, SetColumnsBelow(row, t), view, (t, row[t].data));
    views' := views + [view];
  }

  /** Once no bit is set from `offset` on, every set column has been visited. */
  lemma ReadDone(lay: seq<Option<ColumnSchema>>, row: seq<Cell>, offset: nat)
    requires CellsOk(lay, row) && 1 <= offset <= |row|
    requires forall u :: offset <= u < |row| ==> !BitTest(Bits(row, RowWidth(row), |row|), u)
    ensures SetColumnsBelow(row, offset) == SetColumns(row)
  {
    forall u | offset <= u < |row|
      ensures !row[u].isset
    {
      CellBit(row, u);
    }
    SkipUnsetBits(row, offset, |row|);
  }

  /**
   * The loop of `read(idx)` over the bitmap of a stored row: walk the set
   * bits from cid 1 on (`BitmapFindFirstSet`), and for each set column
   * record where its value lies, taking null bits in order from bit
   * `cid_size`. It finds, in cid order, every set column of the row, each
   * with the position of its stored value.
   */
  method ReadColumns(buf: Bytes, lay: seq<Option<ColumnSchema>>, bitvec: Bytes, vstart: nat, ghost row: seq<Cell>)
    returns (views: seq<CellView>)
    requires CellsOk(lay, row) && bitvec == Bits(row, RowWidth(row), |row|)
    requires HoldsAt(buf, vstart, Values(lay, row, |row|))
    ensures ViewsOf(buf, lay, views, SetColumns(row))
  {
    ConcatSnoc(Pieces(lay, row), 0);
    var cur := vstart;
    var curNull := |lay|;
    views := [];
    var offset := 1;
    var next := FirstSet(bitvec, offset, |lay|);
    while next.Some?
      invariant 1 <= offset <= |row|
      invariant next == FirstSet(bitvec, offset, |row|)
      invariant cur == vstart + |Values(lay, row, offset)|
      invariant curNull == |row| + NullBefore(row, offset)
      invariant ViewsOf(buf, lay, views, SetColumnsBelow(row, offset))
      decreases |row| - offset
    {
      cur, curNull, views := ReadNext(buf, lay, bitvec, vstart, offset, next.value, cur, curNull, views, row);
      offset := next.value + 1;
      next := FirstSet(bitvec, offset, |lay|);
    }
    ReadDone(lay, row, offset);
  }

  /**
   * `read(idx)` on a row body stored at `start`: the delete flag, then the
   * views `ReadColumns` finds past the width field and the bitmap.
   */
  method ReadCells(buf: Bytes, start: nat, lay: seq<Option<ColumnSchema>>, ghost row: seq<Cell>, ghost numKey: nat)
    returns (deleted: bool, views: seq<CellView>)
    requires CellsOk(lay, row) && EncodeRow(lay, row, numKey).Success?
    requires HoldsAt(buf, start, EncodeRow(lay, row, numKey).value)
    ensures deleted == row[0].isset
    ensures ViewsOf(buf, lay, views, SetColumns(row))
  {
    BodyParts(buf, start, lay, row, numKey);
    var bitAll := ReadLE16(buf, start);
    var bitvec := buf[start + 2..start + 2 + bitAll];
    CellBit(row, 0);
    deleted := BitTest(bitvec, 0);
    views := ReadColumns(buf, lay, bitvec, start + 2 + bitAll, row);
  }

  /**
   * `PartialRowReader`: decodes the rows of `batch`, one at a time, into
   * the delete flag and the views of the row's set columns.
   */
  class PartialRowReader {
    const batch: PartialRowBatch
    const schema: Schema
    const bitSetSize: nat
    var deleted: bool
    var cells: seq<CellView>

    /** The reader shares the batch's schema, and each view names a column of it. */
    ghost predicate Valid()
      reads this, schema
    {
      && schema == batch.schema
      && schema.Valid() && RowSchema(schema.columns)
      && bitSetSize == CidSize(schema.columns)
      && forall k :: 0 <= k < |cells| ==>
           cells[k].cid < |Layout(schema.columns)| && Layout(schema.columns)[cells[k].cid].Some?
    }

    /** `PartialRowReader(batch)`: no row read yet. */
    constructor (b: PartialRowBatch)
      requires b.schema.Valid() && RowSchema(b.schema.columns)
      ensures Valid()
      ensures batch == b && !deleted && cells == []
    {
      batch := b;
      schema := b.schema;
      bitSetSize := CidSize(b.schema.columns);
      deleted := false;
      cells := [];
    }

    /**
     * `read(idx)`: InvalidArgument when there is no row `idx`; otherwise
     * the row's delete flag and, in cid order, a view of each of its set
     * columns whose value, if any, lies at the view's position in the
     * batch's bytes, stored as `write` stored it.
     */
    method Read(idx: nat) returns (status: Code)
      modifies this
      requires Valid() && batch.Valid()
      ensures Valid()
      ensures status == Ok || status == InvalidArgument
      ensures status == InvalidArgument <==> idx >= |batch.rows|
      ensures status != Ok ==> !deleted && cells == []
      ensures status == Ok ==>
        && deleted == batch.rows[idx][0].isset
        && ViewsOf(batch.data[..batch.bsize], Layout(schema.columns), cells, SetColumns(batch.rows[idx]))
    {
      deleted := false;
      cells := [];
      var cur := batch.GetRow(idx);
      if cur.None? {
        return InvalidArgument;
      }
      assert RowStored(Layout(schema.columns), schema.numKeyColumn, batch.data[..batch.bsize],
                       batch.rowOffsets[idx], batch.rows[idx]);
      deleted, cells := ReadCells(batch.data[..batch.bsize], cur.value, Layout(schema.columns),
                                  batch.rows[idx], schema.numKeyColumn);
      return Ok;
    }

    /**
     * `get_cell(idx, cs, data)`: InvalidArgument past the last view;
     * otherwise the schema's column for the view's cid and the view's
     * position.
     */
    method GetCell(idx: nat) returns (status: Code, cs: Option<ColumnSchema>, data: Option<nat>)
      requires Valid()
      ensures status == Ok || status == InvalidArgument
      ensures status == InvalidArgument <==> idx >= |cells|
      ensures status == Ok ==>
        && cs.Some? && cs.value in schema.columns && cs.value.cid == cells[idx].cid
        && data == cells[idx].data
    {
      if idx >= |cells| {
        return InvalidArgument, None, None;
      }
      var cell := cells[idx];
      GetByCidInLayout(schema, cell.cid);
      LayoutCid(schema.columns, cell.cid);
      cs := schema.GetByCid(cell.cid);
      data := cell.data;
      status := Ok;
    }
  }
}
