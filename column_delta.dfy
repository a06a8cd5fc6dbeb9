/**
 * Per-version column changes (column_delta.h / column_delta.cpp). A
 * `DeltaIndex` lists the updated row ids of a column: row id `rid` lies in
 * block `rid >> 16` at in-block offset `rid & 0xffff`; the offsets of all
 * updates are stored block after block, ascending within each block, and
 * `block_ends[b]` is the number of updates in blocks `0..b`. The position of
 * a row's offset is also the position of its new value in the data buffer.
 */
module ColumnDeltas {
  import opened Common

  /** `DeltaIndex::npos`, the "not updated" position: the largest `uint32_t`. */
  const NPOS: nat := 0xFFFF_FFFF

  /** Row ids are `uint32_t`. */
  const RID_LIMIT: nat := 0x1_0000_0000

  /** The in-block offsets of `s[lo..hi]` never decrease (the range `std::lower_bound` needs). */
  predicate Ascending(s: seq<nat>, lo: nat, hi: nat)
  {
    forall i, j :: lo <= i < j < hi && j < |s| ==> s[i] <= s[j]
  }

  /**
   * `std::lower_bound(s + first, s + first + count, x)`: the halving search
   * over `count` elements starting at `first`.
   */
  function LowerBound(s: seq<nat>, first: nat, count: nat, x: nat): (r: nat)
    requires first + count <= |s|
    requires Ascending(s, first, first + count)
    ensures first <= r <= first + count
    ensures forall i :: first <= i < r ==> s[i] < x
    ensures forall i :: r <= i < first + count ==> s[i] >= x
    decreases count
  {
    if count == 0 then first
    else
      var step := count / 2;
      if s[first + step] < x then LowerBound(s, first + step + 1, count - step - 1, x)
      else LowerBound(s, first, step, x)
  }

  /** Start of block `b`'s offsets: `block_ends[b-1]`, or 0 for the first block. */
  function BlockStart(blockEnds: seq<nat>, b: nat): nat
    requires b < |blockEnds|
  {
    if b > 0 then blockEnds[b - 1] else 0
  }

  /**
   * The layout `find_idx` relies on: block ends never decrease and stay within
   * the offsets, and the offsets of each block are strictly ascending
   * in-block offsets.
   */
  predicate IndexWellFormed(blockEnds: seq<nat>, offsets: seq<nat>)
  {
    && |offsets| < NPOS
    && (forall b, c :: 0 <= b < c < |blockEnds| ==> blockEnds[b] <= blockEnds[c])
    && (forall b :: 0 <= b < |blockEnds| ==> blockEnds[b] <= |offsets|)
    && (forall k :: 0 <= k < |offsets| ==> offsets[k] < BLOCK_SIZE)
    && (forall b, i, j :: 0 <= b < |blockEnds| && BlockStart(blockEnds, b) <= i < j < blockEnds[b]
          ==> offsets[i] < offsets[j])
  }

  /** Row `rid` has an update: its offset is listed among its block's offsets. */
  predicate Updated(blockEnds: seq<nat>, offsets: seq<nat>, rid: nat)
  {
    var b := rid / BLOCK_SIZE;
    b < |blockEnds| &&
    exists k :: BlockStart(blockEnds, b) <= k < blockEnds[b] && k < |offsets| && offsets[k] == rid % BLOCK_SIZE
  }

  /**
   * `DeltaIndex::find_idx(rid)`: `npos` when the index buffer is not
   * allocated, when the row's block is past the last block, or when the
   * block has no updates; otherwise a lower-bound search of the block's
   * offsets for `rid & 0xffff`, giving its position when found.
   */
  function FindIdx(blockEnds: seq<nat>, offsets: Option<seq<nat>>, rid: nat): (r: nat)
    requires rid < RID_LIMIT
    requires offsets.Some? ==> IndexWellFormed(blockEnds, offsets.value)
    ensures r != NPOS ==> offsets.Some? && rid / BLOCK_SIZE < |blockEnds|
    ensures r != NPOS ==> BlockStart(blockEnds, rid / BLOCK_SIZE) <= r < blockEnds[rid / BLOCK_SIZE]
    ensures r != NPOS ==> r < |offsets.value| && offsets.value[r] == rid % BLOCK_SIZE
  {
    if offsets.None? then NPOS
    else
      var bid := rid / BLOCK_SIZE;
      if bid >= |blockEnds| then NPOS
      else
        var start, end := BlockStart(blockEnds, bid), blockEnds[bid];
        if start == end then NPOS
        else
          var s := offsets.value;
          assert start <= end by {
            if bid > 0 { assert blockEnds[bid - 1] <= blockEnds[bid]; }
          }
          var pos := LowerBound(s, start, end - start, rid % BLOCK_SIZE);
          if pos != end && s[pos] == rid % BLOCK_SIZE then pos else NPOS
  }

  /**
   * On a well-formed index, `find_idx(rid)` is `npos` exactly when row `rid`
   * has no update.
   */
  lemma FindIdxIffUpdated(blockEnds: seq<nat>, offsets: seq<nat>, rid: nat)
    requires rid < RID_LIMIT && IndexWellFormed(blockEnds, offsets)
    ensures FindIdx(blockEnds, Some(offsets), rid) != NPOS <==> Updated(blockEnds, offsets, rid)
  {
    var b := rid / BLOCK_SIZE;
    var r := FindIdx(blockEnds, Some(offsets), rid);
    if r != NPOS {
      assert BlockStart(blockEnds, b) <= r < blockEnds[b] && r < |offsets| && offsets[r] == rid % BLOCK_SIZE;
    }
    if Updated(blockEnds, offsets, rid) {
      var k :| BlockStart(blockEnds, b) <= k < blockEnds[b] && k < |offsets| && offsets[k] == rid % BLOCK_SIZE;
      FindIdxFindsListed(blockEnds, offsets, rid, k);
    }
  }

  /** A listed offset is found, at its own position. */
  lemma FindIdxFindsListed(blockEnds: seq<nat>, offsets: seq<nat>, rid: nat, k: nat)
    requires rid < RID_LIMIT && IndexWellFormed(blockEnds, offsets)
    requires rid / BLOCK_SIZE < |blockEnds|
    requires BlockStart(blockEnds, rid / BLOCK_SIZE) <= k < blockEnds[rid / BLOCK_SIZE]
    requires offsets[k] == rid % BLOCK_SIZE
    ensures FindIdx(blockEnds, Some(offsets), rid) == k
  {
    var b := rid / BLOCK_SIZE;
    var start, end := BlockStart(blockEnds, b), blockEnds[b];
    var pos := LowerBound(offsets, start, end - start, rid % BLOCK_SIZE);
    assert pos <= k;
    StrictInBlock(blockEnds, offsets, b, pos, k);
  }

  lemma StrictInBlock(blockEnds: seq<nat>, offsets: seq<nat>, b: nat, i: nat, j: nat)
    requires IndexWellFormed(blockEnds, offsets) && b < |blockEnds|
    requires BlockStart(blockEnds, b) <= i && j < blockEnds[b] && i <= j
    ensures i < j ==> offsets[i] < offsets[j]
  {
  }

  /** `s` is strictly ascending: a sorted map's keys. */
  predicate StrictlyAscending(s: seq<nat>)
  {
    forall i, j :: 0 <= i < j < |s| ==> s[i] < s[j]
  }

  /** `e` separates the updates of blocks `0..b` from those of later blocks. */
  predicate SplitsAt(updates: seq<nat>, b: nat, e: nat)
  {
    && e <= |updates|
    && (forall i :: 0 <= i < e ==> updates[i] / BLOCK_SIZE <= b)
    && (forall i :: e <= i < |updates| ==> updates[i] / BLOCK_SIZE > b)
  }

  /**
   * The index layout for the ascending row ids `updates`: one offset per
   * update in the same order, and each block end separating its block's
   * updates from later ones.
   */
  predicate IndexOf(updates: seq<nat>, blockEnds: seq<nat>, offsets: seq<nat>)
  {
    && |offsets| == |updates|
    && (forall k :: 0 <= k < |updates| ==> offsets[k] == updates[k] % BLOCK_SIZE)
    && (forall b :: 0 <= b < |blockEnds| ==> SplitsAt(updates, b, blockEnds[b]))
  }

  /**
   * Fill an allocated index from the ascending row ids of a sorted map, the
   * way the index test does: walk the updates, closing every block before
   * the current row's block at the current count, then close the remaining
   * blocks.
   */
  method BuildIndex(updates: seq<nat>, nblock: nat) returns (blockEnds: seq<nat>, offsets: seq<nat>)
    requires StrictlyAscending(updates)
    requires forall k :: 0 <= k < |updates| ==> updates[k] < nblock * BLOCK_SIZE
    ensures |blockEnds| == nblock
    ensures IndexOf(updates, blockEnds, offsets)
  {
    blockEnds := seq(nblock, _ => 0);
    offsets := [];
    var curbid := 0;
    var cidx := 0;
    while cidx < |updates|
      invariant cidx <= |updates| && |offsets| == cidx && |blockEnds| == nblock
      invariant curbid <= nblock
      invariant cidx > 0 ==> curbid == updates[cidx - 1] / BLOCK_SIZE
      invariant cidx == 0 ==> curbid == 0
      invariant forall k :: 0 <= k < cidx ==> offsets[k] == updates[k] % BLOCK_SIZE
      invariant forall b :: 0 <= b < curbid ==> SplitsAt(updates, b, blockEnds[b])
    {
      var bid := updates[cidx] / BLOCK_SIZE;
      while curbid < bid
        invariant curbid <= bid <= nblock
        invariant |blockEnds| == nblock
        invariant forall b :: 0 <= b < curbid ==> SplitsAt(updates, b, blockEnds[b])
      {
        blockEnds := blockEnds[curbid := cidx];
        curbid := curbid + 1;
      }
      offsets := offsets + [updates[cidx] % BLOCK_SIZE];
      cidx := cidx + 1;
    }
    while curbid < nblock
      invariant curbid <= nblock && |blockEnds| == nblock
      invariant forall b :: 0 <= b < curbid ==> SplitsAt(updates, b, blockEnds[b])
    {
      blockEnds := blockEnds[curbid := cidx];
      curbid := curbid + 1;
    }
  }

  /**
   * An index built from ascending row ids is well formed, `find_idx` finds
   * each update at its own position, and reports `npos` for every other row.
   */
  lemma IndexOfFindsUpdates(updates: seq<nat>, blockEnds: seq<nat>, offsets: seq<nat>, rid: nat)
    requires StrictlyAscending(updates) && IndexOf(updates, blockEnds, offsets)
    requires forall k :: 0 <= k < |updates| ==> updates[k] < |blockEnds| * BLOCK_SIZE
    requires |updates| < NPOS && rid < RID_LIMIT
    ensures IndexWellFormed(blockEnds, offsets)
    ensures forall k :: 0 <= k < |updates| && updates[k] == rid ==> FindIdx(blockEnds, Some(offsets), rid) == k
    ensures rid !in updates ==> FindIdx(blockEnds, Some(offsets), rid) == NPOS
  {
    IndexOfWellFormed(updates, blockEnds, offsets);
    forall k | 0 <= k < |updates| && updates[k] == rid
      ensures FindIdx(blockEnds, Some(offsets), rid) == k
    {
      InOwnBlock(updates, blockEnds, k);
      FindIdxFindsListed(blockEnds, offsets, rid, k);
    }
    FindIdxIffUpdated(blockEnds, offsets, rid);
    UpdatedIsListed(updates, blockEnds, offsets, rid);
  }

  /** Only listed row ids count as updated. */
  lemma UpdatedIsListed(updates: seq<nat>, blockEnds: seq<nat>, offsets: seq<nat>, rid: nat)
    requires IndexOf(updates, blockEnds, offsets)
    ensures Updated(blockEnds, offsets, rid) ==> rid in updates
  {
    if Updated(blockEnds, offsets, rid) {
      var b := rid / BLOCK_SIZE;
      var k :| BlockStart(blockEnds, b) <= k < blockEnds[b] && k < |offsets| && offsets[k] == rid % BLOCK_SIZE;
      BlockOfPosition(updates, blockEnds, b, k);
      assert updates[k] == rid;
    }
  }

  /** Update `k` lies in the position range of its own block. */
  lemma InOwnBlock(updates: seq<nat>, blockEnds: seq<nat>, k: nat)
    requires forall b :: 0 <= b < |blockEnds| ==> SplitsAt(updates, b, blockEnds[b])
    requires 0 <= k < |updates| && updates[k] / BLOCK_SIZE < |blockEnds|
    ensures BlockStart(blockEnds, updates[k] / BLOCK_SIZE) <= k < blockEnds[updates[k] / BLOCK_SIZE]
  {
    var b := updates[k] / BLOCK_SIZE;
    assert SplitsAt(updates, b, blockEnds[b]);
    if b > 0 {
      assert SplitsAt(updates, b - 1, blockEnds[b - 1]);
    }
  }

  /** A position in block `b`'s range holds an update of block `b`. */
  lemma BlockOfPosition(updates: seq<nat>, blockEnds: seq<nat>, b: nat, k: nat)
    requires forall c :: 0 <= c < |blockEnds| ==> SplitsAt(updates, c, blockEnds[c])
    requires b < |blockEnds| && BlockStart(blockEnds, b) <= k < blockEnds[b] && k < |updates|
    ensures updates[k] / BLOCK_SIZE == b
  {
    assert SplitsAt(updates, b, blockEnds[b]);
    if b > 0 {
      assert SplitsAt(updates, b - 1, blockEnds[b - 1]);
    }
  }

  lemma SplitsMonotone(updates: seq<nat>, b: nat, c: nat, e1: nat, e2: nat)
    requires b < c && SplitsAt(updates, b, e1) && SplitsAt(updates, c, e2)
    ensures e1 <= e2
  {
    if e2 < |updates| {
      assert updates[e2] / BLOCK_SIZE > b;
    }
  }

  lemma IndexOfWellFormed(updates: seq<nat>, blockEnds: seq<nat>, offsets: seq<nat>)
    requires StrictlyAscending(updates) && IndexOf(updates, blockEnds, offsets)
    requires |updates| < NPOS
    ensures IndexWellFormed(blockEnds, offsets)
  {
    forall b, c | 0 <= b < c < |blockEnds|
      ensures blockEnds[b] <= blockEnds[c]
    {
      SplitsMonotone(updates, b, c, blockEnds[b], blockEnds[c]);
    }
    forall b, i, j | 0 <= b < |blockEnds| && BlockStart(blockEnds, b) <= i < j < blockEnds[b]
      ensures offsets[i] < offsets[j]
    {
      BlockOfPosition(updates, blockEnds, b, i);
      BlockOfPosition(updates, blockEnds, b, j);
      assert updates[i] < updates[j];
    }
  }

  /** A freshly allocated index, whose block ends are all 0, finds no row. */
  lemma FreshIndexFindsNothing(nblock: nat, offsets: seq<nat>, rid: nat)
    requires rid < RID_LIMIT && |offsets| < NPOS
    requires forall k :: 0 <= k < |offsets| ==> offsets[k] < BLOCK_SIZE
    ensures IndexWellFormed(seq(nblock, _ => 0), offsets)
    ensures FindIdx(seq(nblock, _ => 0), Some(offsets), rid) == NPOS
    ensures !Updated(seq(nblock, _ => 0), offsets, rid)
  {
  }

  /** `DeltaIndex`: the block ends and the `uint16_t` offsets buffer (`None` when unallocated). */
  class DeltaIndex {
    var blockEnds: seq<nat>
    var offsets: Option<seq<nat>>

    /** `DeltaIndex() = default`: no blocks, no buffer. */
    constructor ()
      ensures blockEnds == [] && offsets == None
    {
      blockEnds := [];
      offsets := None;
    }

    /** `memory()`: the buffer's bytes (two per offset) plus four bytes per block end. */
    function Memory(): (r: nat)
      reads this
    {
      (if offsets.Some? then 2 * |offsets.value| else 0) + 4 * |blockEnds|
    }
  }

  /** `Buffer::alloc(n)` followed by `set_zero()`: a zeroed buffer, or none for 0 bytes. */
  function ZeroedBuffer(n: nat): (b: Option<Bytes>)
    ensures b.Some? <==> n > 0
    ensures b.Some? ==> b.value == Zeros(n)
  {
    if n > 0 then Some(Zeros(n)) else None
  }

  /** The bytes a buffer holds (`bsize()`), 0 when unallocated. */
  function BufferSize(b: Option<Bytes>): nat
  {
    if b.Some? then |b.value| else 0
  }

  /** `ColumnDelta`: the index and the data and null buffers, one element per update. */
  class ColumnDelta {
    var size: nat
    var index: DeltaIndex?
    var nulls: Option<Bytes>
    var data: Option<Bytes>

    /** `ColumnDelta() = default`. */
    constructor ()
      ensures size == 0 && index == null && nulls == None && data == None
    {
      size := 0;
      index := null;
      nulls := None;
      data := None;
    }

    /**
     * `alloc(nblock, size, esize, tag, has_null)`: a new index with `nblock`
     * zero block ends and room for `size` offsets (left as the allocator
     * hands them over, `initial`), a zeroed data buffer of `size * esize`
     * bytes and, when `has_null`, a zeroed null buffer of `size` bytes. A
     * buffer of 0 bytes stays unallocated. Allocating again is fatal.
     */
    method Alloc(nblock: nat, n: nat, esize: nat, hasNull: bool, initial: seq<nat>)
      requires data.None? && nulls.None?
      requires |initial| == n
      modifies this
      ensures fresh(index)
      ensures index.blockEnds == seq(nblock, _ => 0)
      ensures index.offsets == if n > 0 then Some(initial) else None
      ensures data == ZeroedBuffer(n * esize)
      ensures nulls == if hasNull then ZeroedBuffer(n) else None
      ensures size == n
      ensures Memory() == 2 * n + 4 * nblock + n * esize + (if hasNull then n else 0)
    {
      var idx := new DeltaIndex();
      idx.blockEnds := seq(nblock, _ => 0);
      if n > 0 {
        idx.offsets := Some(initial);
      }
      index := idx;
      data := ZeroedBuffer(n * esize);
      if hasNull {
        nulls := ZeroedBuffer(n);
      }
      size := n;
    }

    /** `memory()`: the index's memory plus the null and data buffers. */
    function Memory(): (r: nat)
      reads this, index
      requires index != null
    {
      index.Memory() + BufferSize(nulls) + BufferSize(data)
    }
  }

  /** `create_for_compaction`: not implemented, always `NotSupported`. */
  function CreateForCompaction(): (r: Result<ColumnDelta>)
    ensures r.Failure? && r.code == NotSupported
  {
    Failure(NotSupported)
  }
}
