/**
 * The scan driver of an in-memory tablet (mem_tablet_scan.cpp): parsing a
 * scan spec, opening one reader per projected column, handing out the rows
 * in blocks of `BLOCK_SIZE`, and mapping keyed lookups to consecutive
 * output offsets.
 *
 * The sub-tablet's answers (row count, opening readers, reading blocks and
 * rows) and the hash index's candidates are given as functions: the
 * sub-tablet and the column readers have no body in the repository.
 */
module TabletScans {
  import opened Common
  import opened Slices
  import opened Schemas

  /** `uint64_t(-1)`: the "no limit" of a scan spec, and the version number that asks for the latest schema. */
  const UINT64_MAX: nat := 0xFFFF_FFFF_FFFF_FFFF

  /** The byte ',' that separates the column names of a scan spec. */
  const COMMA: byte := 0x2C

  /** One projected column of a scan. */
  datatype ColumnScan = ColumnScan(name: string, proj: bool)

  /** `ScanSpec(version, limit, columns, support_get)`. */
  datatype ScanSpec = ScanSpec(version: nat, limit: nat, columns: seq<ColumnScan>, supportGet: bool)

  /** `Slice::ToString`: the bytes of a piece as the characters of a `std::string`. */
  function NameOf(b: Bytes): (s: string)
    ensures |s| == |b|
  {
    seq(|b|, i requires 0 <= i < |b| => (b[i] as int) as char)
  }

  // ---------------------------------------------------------------------
  // ScanSpec::create
  // ---------------------------------------------------------------------

  /**
   * `ScanSpec::create(version, specstr, support_get)`: split the spec on
   * ',' with trimming; no piece is an InvalidArgument, otherwise one
   * projected column per piece, in order, with no limit.
   */
  method CreateScanSpec(version: nat, specstr: Bytes, supportGet: bool) returns (r: Result<ScanSpec>)
    ensures r.Failure? <==> |SplitSpec(specstr, COMMA, true)| == 0
    ensures r.Failure? ==> r.code == InvalidArgument
    ensures r.Success? ==>
      && r.value.version == version && r.value.limit == UINT64_MAX && r.value.supportGet == supportGet
      && |r.value.columns| == |SplitSpec(specstr, COMMA, true)|
      && forall k :: 0 <= k < |r.value.columns| ==>
           r.value.columns[k] == ColumnScan(NameOf(SplitSpec(specstr, COMMA, true)[k]), true)
  {
    var colss := Split(specstr, COMMA, true);
    if |colss| == 0 {
      return Failure(InvalidArgument);
    }
    var colscans: seq<ColumnScan> := [];
    for i := 0 to |colss|
      invariant |colscans| == i
      invariant forall k :: 0 <= k < i ==> colscans[k] == ColumnScan(NameOf(colss[k]), true)
    {
      colscans := colscans + [ColumnScan(NameOf(colss[i]), true)];
    }
    return Success(ScanSpec(version, UINT64_MAX, colscans, supportGet));
  }

  /** Trimming keeps nothing exactly when there was nothing (an all-blank piece is kept as it is). */
  lemma TrimmedEmpty(p: Bytes)
    ensures |Trimmed(p)| == 0 <==> |p| == 0
  {
    if AllSpace(p) {
      TrimmedAllSpace(p);
    } else {
      TrimmedShape(p);
    }
  }

  /** Every byte of what trimming keeps is a byte of the piece. */
  lemma TrimmedInside(p: Bytes, x: byte)
    requires x in Trimmed(p)
    ensures x in p
  {
    if AllSpace(p) {
      TrimmedAllSpace(p);
    } else {
      TrimmedShape(p);
      var rest := p[LeadingSpaces(p)..];
      var t := Trimmed(p);
      var j :| 0 <= j < |t| && t[j] == x;
      assert rest[j] == x;
      assert p[LeadingSpaces(p) + j] == x;
    }
  }

  /** Trimming and dropping pieces brings in no separator that none of them held. */
  lemma {:induction false} TrimAndDropNoSeparator(pieces: seq<Bytes>, sep: byte)
    requires forall p :: p in pieces ==> sep !in p
    ensures forall p :: p in TrimAndDrop(pieces) ==> sep !in p
  {
    if |pieces| > 0 {
      assert pieces[0] in pieces;
      if sep in Trimmed(pieces[0]) {
        TrimmedInside(pieces[0], sep);
      }
      assert forall p :: p in pieces[1..] ==> p in pieces;
      TrimAndDropNoSeparator(pieces[1..], sep);
    }
  }

  /**
   * `split(sep, true)` finds no piece exactly when the input is made only
   * of separators: an empty piece is dropped, but a blank one is kept,
   * because trimming leaves an all-blank slice as it is.
   */
  lemma {:induction false} SplitEmptyIffOnlySeparators(s: Bytes, sep: byte)
    ensures |TrimAndDrop(Fields(s, sep))| == 0 <==> forall i :: 0 <= i < |s| ==> s[i] == sep
    decreases |s|
  {
    var i := FirstSep(s, sep);
    FirstSepIsFirst(s, sep);
    var fs := Fields(s, sep);
    if i == |s| {
      assert fs == [s];
      assert TrimAndDrop(fs) == KeepTrimmed(s) + TrimAndDrop([]);
      TrimmedEmpty(s);
      if |s| > 0 {
        assert s[0] != sep;
      }
    } else {
      var rest := s[i + 1..];
      assert fs == [s[..i]] + Fields(rest, sep);
      assert fs[1..] == Fields(rest, sep);
      assert TrimAndDrop(fs) == KeepTrimmed(s[..i]) + TrimAndDrop(Fields(rest, sep));
      TrimmedEmpty(s[..i]);
      SplitEmptyIffOnlySeparators(rest, sep);
      if forall j :: 0 <= j < |s| ==> s[j] == sep {
        assert i == 0;
        assert forall j :: 0 <= j < |rest| ==> rest[j] == s[i + 1 + j];
      }
      if i == 0 && forall j :: 0 <= j < |rest| ==> rest[j] == sep {
        forall j | 0 <= j < |s|
          ensures s[j] == sep
        {
          if j > 0 {
            assert s[j] == rest[j - 1];
          }
        }
      }
    }
  }

  /**
   * `ScanSpec::create` fails exactly on a spec made only of commas (the
   * empty spec included); otherwise every column name is non-empty, holds
   * no comma, and neither starts nor ends with whitespace unless it is all
   * whitespace.
   */
  lemma ScanSpecColumns(specstr: Bytes)
    ensures |SplitSpec(specstr, COMMA, true)| == 0 <==> forall i :: 0 <= i < |specstr| ==> specstr[i] == COMMA
    ensures forall p :: p in SplitSpec(specstr, COMMA, true) ==>
      && |p| > 0 && COMMA !in p && Trimmed(p) == p
  {
    SplitEmptyIffOnlySeparators(specstr, COMMA);
    FieldsHaveNoSeparator(specstr, COMMA);
    TrimAndDropNoSeparator(Fields(specstr, COMMA), COMMA);
    TrimAndDropPieces(Fields(specstr, COMMA));
  }

  // ---------------------------------------------------------------------
  // Full scan blocks
  // ---------------------------------------------------------------------

  /** The rows in block `b` of a scan over `n` rows: a full block, or what is left for the last one. */
  function BlockRows(n: nat, b: nat): (r: nat)
    requires b < NBlock(n, BLOCK_SIZE)
    ensures 0 < r <= BLOCK_SIZE
    ensures b + 1 < NBlock(n, BLOCK_SIZE) ==> r == BLOCK_SIZE
  {
    if BLOCK_SIZE <= n - b * BLOCK_SIZE then BLOCK_SIZE else n - b * BLOCK_SIZE
  }

  /** The rows in the first `k` blocks. */
  function RowsBefore(n: nat, k: nat): nat
    requires k <= NBlock(n, BLOCK_SIZE)
  {
    if k == 0 then 0 else RowsBefore(n, k - 1) + BlockRows(n, k - 1)
  }

  /** The first `k` blocks hold the first `min(n, k * BLOCK_SIZE)` rows. */
  lemma {:induction false} RowsBeforeIsPrefix(n: nat, k: nat)
    requires k <= NBlock(n, BLOCK_SIZE)
    ensures RowsBefore(n, k) == if k * BLOCK_SIZE <= n then k * BLOCK_SIZE else n
  {
    if k > 0 {
      RowsBeforeIsPrefix(n, k - 1);
    }
  }

  /** The blocks of a full scan cover the rows exactly: their sizes add up to the row count. */
  lemma BlocksCoverRows(n: nat)
    ensures RowsBefore(n, NBlock(n, BLOCK_SIZE)) == n
  {
    RowsBeforeIsPrefix(n, NBlock(n, BLOCK_SIZE));
  }

  // ---------------------------------------------------------------------
  // Keyed get
  // ---------------------------------------------------------------------

  /**
   * The rows a key's index candidates yield, in candidate order: those
   * that exist at the scan's version (`rid < numRows`; later rows are
   * future rows) and whose key equals the probe.
   */
  function Hits(cands: seq<nat>, numRows: nat, equals: (nat, nat) -> bool, key: nat): (r: seq<nat>)
    ensures |r| <= |cands|
  {
    if |cands| == 0 then []
    else
      var rid := cands[|cands| - 1];
      Hits(cands[..|cands| - 1], numRows, equals, key) + (if rid < numRows && equals(rid, key) then [rid] else [])
  }

  /** The rows the first `i` keys yield, key by key. */
  function AllHits(lookup: nat -> seq<nat>, numRows: nat, equals: (nat, nat) -> bool, i: nat): seq<nat>
  {
    if i == 0 then [] else AllHits(lookup, numRows, equals, i - 1) + Hits(lookup(i - 1), numRows, equals, i - 1)
  }

  /**
   * The offset `get` reports for key `i`: -1 when it has no hit; otherwise
   * the position of its last hit in the output (a later hit of the same
   * key overwrites the offset of an earlier one).
   */
  function OffsetOf(lookup: nat -> seq<nat>, numRows: nat, equals: (nat, nat) -> bool, i: nat): int
  {
    var h := Hits(lookup(i), numRows, equals, i);
    if |h| == 0 then -1 else |AllHits(lookup, numRows, equals, i)| + |h| - 1
  }

  /** A row is a hit exactly when it is a candidate, is not a future row and matches the key. */
  lemma {:induction false} HitsAreMatches(cands: seq<nat>, numRows: nat, equals: (nat, nat) -> bool, key: nat, rid: nat)
    ensures rid in Hits(cands, numRows, equals, key) <==> rid in cands && rid < numRows && equals(rid, key)
  {
    if |cands| > 0 {
      var init := cands[..|cands| - 1];
      HitsAreMatches(init, numRows, equals, key, rid);
      assert cands == init + [cands[|cands| - 1]];
    }
  }

  /** The output of the first `i` keys is a prefix of the output of the first `j`. */
  lemma {:induction false} AllHitsPrefix(lookup: nat -> seq<nat>, numRows: nat, equals: (nat, nat) -> bool, i: nat, j: nat)
    requires i <= j
    ensures AllHits(lookup, numRows, equals, i) <= AllHits(lookup, numRows, equals, j)
    decreases j - i
  {
    if i < j {
      AllHitsPrefix(lookup, numRows, equals, i, j - 1);
    }
  }

  /**
   * A key with an offset points at one of its own hits in the output, and
   * a key without one has no candidate that exists and matches.
   */
  lemma OffsetPointsAtHit(lookup: nat -> seq<nat>, numRows: nat, equals: (nat, nat) -> bool, n: nat, i: nat)
    requires i < n
    ensures OffsetOf(lookup, numRows, equals, i) == -1 <==>
      forall rid :: rid in lookup(i) && rid < numRows ==> !equals(rid, i)
    ensures OffsetOf(lookup, numRows, equals, i) != -1 ==>
      var o := OffsetOf(lookup, numRows, equals, i);
      && 0 <= o < |AllHits(lookup, numRows, equals, n)|
      && AllHits(lookup, numRows, equals, n)[o] in lookup(i)
      && AllHits(lookup, numRows, equals, n)[o] < numRows
      && equals(AllHits(lookup, numRows, equals, n)[o], i)
  {
    var h := Hits(lookup(i), numRows, equals, i);
    forall rid | rid in lookup(i) && rid < numRows && equals(rid, i)
      ensures rid in h
    {
      HitsAreMatches(lookup(i), numRows, equals, i, rid);
    }
    if |h| > 0 {
      var before := AllHits(lookup, numRows, equals, i);
      AllHitsPrefix(lookup, numRows, equals, i + 1, n);
      var all := AllHits(lookup, numRows, equals, n);
      assert all[|before| + |h| - 1] == (before + h)[|before| + |h| - 1] == h[|h| - 1];
      HitsAreMatches(lookup(i), numRows, equals, i, h[|h| - 1]);
    }
  }

  /** Keys with offsets get them in increasing order. */
  lemma OffsetsIncrease(lookup: nat -> seq<nat>, numRows: nat, equals: (nat, nat) -> bool, i: nat, j: nat)
    requires i < j
    requires OffsetOf(lookup, numRows, equals, i) != -1 && OffsetOf(lookup, numRows, equals, j) != -1
    ensures OffsetOf(lookup, numRows, equals, i) < OffsetOf(lookup, numRows, equals, j)
  {
    AllHitsPrefix(lookup, numRows, equals, i + 1, j);
  }

  /** The number of keys among the first `i` that have a hit. */
  function Found(lookup: nat -> seq<nat>, numRows: nat, equals: (nat, nat) -> bool, i: nat): nat
  {
    if i == 0 then 0
    else Found(lookup, numRows, equals, i - 1) + (if |Hits(lookup(i - 1), numRows, equals, i - 1)| > 0 then 1 else 0)
  }

  /**
   * When no key has more than one hit, the keys that are found get the
   * consecutive offsets 0, 1, 2, ...: each one's offset counts the found
   * keys before it.
   */
  lemma {:induction false} OffsetsConsecutive(lookup: nat -> seq<nat>, numRows: nat, equals: (nat, nat) -> bool, n: nat)
    requires forall k :: 0 <= k < n ==> |Hits(lookup(k), numRows, equals, k)| <= 1
    ensures |AllHits(lookup, numRows, equals, n)| == Found(lookup, numRows, equals, n)
    ensures forall i :: 0 <= i < n && OffsetOf(lookup, numRows, equals, i) != -1 ==>
      OffsetOf(lookup, numRows, equals, i) == Found(lookup, numRows, equals, i)
  {
    if n > 0 {
      OffsetsConsecutive(lookup, numRows, equals, n - 1);
    }
  }

  /** The first code in `codes` that is not Ok, or Ok when there is none. */
  function FirstError(codes: seq<Code>): (c: Code)
    ensures c == Ok <==> forall k :: 0 <= k < |codes| ==> codes[k] == Ok
    ensures c != Ok ==> exists k :: 0 <= k < |codes| && codes[k] == c && forall j :: 0 <= j < k ==> codes[j] == Ok
  {
    if |codes| == 0 then Ok
    else if codes[0] != Ok then codes[0]
    else
      var c := FirstError(codes[1..]);
      assert forall k :: 1 <= k < |codes| ==> codes[k] == codes[1..][k - 1];
      c
  }

  // ---------------------------------------------------------------------
  // MemTabletScan
  // ---------------------------------------------------------------------

  /**
   * What the scan asks of the sub-tablet and of its column readers, none
   * of which has a body in the repository: the row count at a version
   * (`get_size`), opening a column reader (`read_column`) and the index
   * (`read_index`), reading block `b` of `rows` rows of a column
   * (`get_block`), reading given rows of a column (`get_by_rids`).
   * Readers are named by the cid of their column.
   */
  datatype SubTablet = SubTablet(
    getSize: nat -> (Code, nat),
    readColumn: (nat, nat) -> Code,
    readIndex: Code,
    getBlock: (nat, nat, nat) -> Code,
    getByRids: (nat, seq<nat>) -> Code)

  /** The status of reading block `b` (of `rows` rows) of each column, reader by reader. */
  function BlockCodes(st: SubTablet, readers: seq<Option<nat>>, rows: nat, b: nat): seq<Code>
  {
    seq(|readers|, i requires 0 <= i < |readers| => if readers[i].Some? then st.getBlock(readers[i].value, rows, b) else Ok)
  }

  /** The status of reading the rows `rids` of each column, reader by reader. */
  function RidsCodes(st: SubTablet, readers: seq<Option<nat>>, rids: seq<nat>): seq<Code>
  {
    seq(|readers|, i requires 0 <= i < |readers| => if readers[i].Some? then st.getByRids(readers[i].value, rids) else Ok)
  }

  class MemTabletScan {
    const schema: Schema
    const spec: ScanSpec
    const sub: SubTablet
    var numRows: nat
    var readers: seq<Option<nat>>
    var keyReaders: seq<Option<nat>>
    var blockColumns: nat
    var blockRows: nat
    var nextBlock: nat
    var numBlocks: nat

    /** After a successful setup: one open reader per column, and the block cursor within the blocks of the rows. */
    ghost predicate Ready()
      reads this
    {
      && |readers| == |spec.columns| == blockColumns
      && (forall k :: 0 <= k < |readers| ==> readers[k].Some?)
      && numBlocks == NBlock(numRows, BLOCK_SIZE)
      && nextBlock <= numBlocks
    }

    /** `MemTablet::scan` builds the scan over a schema and a spec; nothing is open yet. */
    constructor (s: Schema, sp: ScanSpec, st: SubTablet)
      ensures schema == s && spec == sp && sub == st
      ensures numRows == 0 && readers == [] && keyReaders == [] && blockColumns == 0
      ensures blockRows == 0 && nextBlock == 0 && numBlocks == 0
    {
      schema := s;
      spec := sp;
      sub := st;
      numRows := 0;
      readers := [];
      keyReaders := [];
      blockColumns := 0;
      blockRows := 0;
      nextBlock := 0;
      numBlocks := 0;
    }

    /**
     * `setup()`: take the row count at the spec's version, open a reader
     * for each requested column (NotFound when the schema has no column of
     * that name), then, for keyed gets, a reader for each key column and
     * the index; finally start a full scan.
     */
    method Setup() returns (status: Code)
      modifies this
      requires schema.Valid()
      ensures sub.getSize(spec.version).0 != Ok ==> status == sub.getSize(spec.version).0
      ensures (exists k :: 0 <= k < |spec.columns| && schema.GetByName(spec.columns[k].name).None?) ==> status != Ok
      ensures
        && sub.getSize(spec.version).0 == Ok && sub.readIndex == Ok
        && (forall cid :: sub.readColumn(spec.version, cid) == Ok)
        ==> (status == Ok || status == NotFound)
      ensures status == Ok ==>
        && Ready()
        && numRows == sub.getSize(spec.version).1
        && nextBlock == 0 && blockRows == 0
        && (forall k :: 0 <= k < |spec.columns| ==>
              && schema.GetByName(spec.columns[k].name).Some?
              && readers[k] == Some(schema.GetByName(spec.columns[k].name).value.cid))
        && (spec.supportGet ==>
              |keyReaders| == schema.numKeyColumn && forall k :: 0 <= k < |keyReaders| ==> keyReaders[k] == Some(k + 1))
    {
      var size := sub.getSize(spec.version);
      if size.0 != Ok {
        return size.0;
      }
      numRows := size.1;
      var columns := spec.columns;
      readers := seq(|columns|, _ => None);
      for i := 0 to |columns|
        invariant |readers| == |columns| && numRows == size.1
        invariant forall k :: 0 <= k < i ==>
          schema.GetByName(columns[k].name).Some? && readers[k] == Some(schema.GetByName(columns[k].name).value.cid)
        invariant forall k :: i <= k < |columns| ==> readers[k].None?
      {
        var cs := schema.GetByName(columns[i].name);
        if cs.None? {
          return NotFound;
        }
        var st := sub.readColumn(spec.version, cs.value.cid);
        if st != Ok {
          return st;
        }
        readers := readers[i := Some(cs.value.cid)];
      }
      if spec.supportGet {
        ghost var columnReaders := readers;
        keyReaders := seq(schema.numKeyColumn, _ => None);
        for i := 0 to schema.numKeyColumn
          invariant readers == columnReaders && numRows == size.1
          invariant |keyReaders| == schema.numKeyColumn
          invariant forall k :: 0 <= k < i ==> keyReaders[k] == Some(k + 1)
        {
          var st := sub.readColumn(spec.version, i + 1);
          if st != Ok {
            return st;
          }
          keyReaders := keyReaders[i := Some(i + 1)];
        }
        if sub.readIndex != Ok {
          return sub.readIndex;
        }
      }
      blockRows := 0;
      blockColumns := |columns|;
      SetupFullScan();
      return Ok;
    }

    /** `setup_full_scan()`: restart at the first of the ceil(rows / BLOCK_SIZE) blocks. */
    method SetupFullScan()
      modifies this
      ensures nextBlock == 0 && numBlocks == NBlock(numRows, BLOCK_SIZE)
      ensures numRows == old(numRows) && readers == old(readers) && keyReaders == old(keyReaders)
      ensures blockColumns == old(blockColumns) && blockRows == old(blockRows)
    {
      nextBlock := 0;
      numBlocks := NBlock(numRows, BLOCK_SIZE);
    }

    /**
     * `next_scan_block(block)`: past the last block, no block and Ok;
     * otherwise size the row block for this block, read this block of every
     * column (returning the first failure) and move to the next block.
     * `block` is a reference parameter: `callerBlock` is what the caller's
     * pointer held, and a failure returns before assigning it.
     */
    method NextScanBlock(callerBlock: Option<nat>) returns (status: Code, block: Option<nat>)
      modifies this
      requires Ready()
      ensures Ready()
      ensures numRows == old(numRows) && readers == old(readers) && keyReaders == old(keyReaders)
      ensures old(nextBlock) >= numBlocks ==>
        status == Ok && block.None? && nextBlock == old(nextBlock) && blockRows == old(blockRows)
      ensures old(nextBlock) < numBlocks ==>
        && blockRows == BlockRows(numRows, old(nextBlock))
        && status == FirstError(BlockCodes(sub, readers, blockRows, old(nextBlock)))
        && (status == Ok ==> block == Some(blockRows) && nextBlock == old(nextBlock) + 1)
        && (status != Ok ==> block == callerBlock && nextBlock == old(nextBlock))
    {
      if nextBlock >= numBlocks {
        return Ok, None;
      }
      var rowsInBlock := BlockRows(numRows, nextBlock);
      blockRows := rowsInBlock;
      ghost var codes := BlockCodes(sub, readers, rowsInBlock, nextBlock);
      for i := 0 to |readers|
        invariant forall k :: 0 <= k < i ==> codes[k] == Ok
      {
        var st := sub.getBlock(readers[i].value, rowsInBlock, nextBlock);
        if st != Ok {
          assert codes[i] == st;
          FirstErrorAt(codes, i);
          return st, callerBlock;
        }
      }
      nextBlock := nextBlock + 1;
      return Ok, Some(rowsInBlock);
    }

    /**
     * `get(result, nkey, keys)`: for each key in turn, walk its index
     * candidates, skip future rows, and give each candidate that matches
     * the key the next output offset, appending its row; a key with no
     * match gets -1. Then read the collected rows of every column.
     */
    method Get(nkey: nat, lookup: nat -> seq<nat>, equals: (nat, nat) -> bool)
      returns (status: Code, offsets: seq<int>, rids: seq<nat>)
      requires Ready() && |keyReaders| > 0
      ensures |offsets| == nkey
      ensures rids == AllHits(lookup, numRows, equals, nkey)
      ensures forall i :: 0 <= i < nkey ==> offsets[i] == OffsetOf(lookup, numRows, equals, i)
      ensures status == FirstError(RidsCodes(sub, readers, rids))
    {
      offsets := seq(nkey, _ => 0);
      var nextOffset := 0;
      rids := [];
      for i := 0 to nkey
        invariant |offsets| == nkey
        invariant rids == AllHits(lookup, numRows, equals, i) && nextOffset == |rids|
        invariant forall k :: 0 <= k < i ==> offsets[k] == OffsetOf(lookup, numRows, equals, k)
      {
        var entries := lookup(i);
        var found;
        found, offsets, rids, nextOffset := GetOne(i, entries, equals, offsets, rids, nextOffset);
        if !found {
          offsets := offsets[i := -1];
        }
      }
      status := SetupGetByRids(rids);
    }

    /** The inner loop of `get` for key `i`: its hits are appended and its offset set to the last one's. */
    method GetOne(i: nat, entries: seq<nat>, equals: (nat, nat) -> bool, offsets0: seq<int>, rids0: seq<nat>, next0: nat)
      returns (found: bool, offsets: seq<int>, rids: seq<nat>, nextOffset: nat)
      requires i < |offsets0| && next0 == |rids0|
      ensures found <==> |Hits(entries, numRows, equals, i)| > 0
      ensures rids == rids0 + Hits(entries, numRows, equals, i) && nextOffset == |rids|
      ensures |offsets| == |offsets0|
      ensures forall k :: 0 <= k < |offsets0| && k != i ==> offsets[k] == offsets0[k]
      ensures found ==> offsets[i] == |rids| - 1
    {
      found := false;
      offsets, rids, nextOffset := offsets0, rids0, next0;
      for j := 0 to |entries|
        invariant rids == rids0 + Hits(entries[..j], numRows, equals, i) && nextOffset == |rids|
        invariant found <==> |Hits(entries[..j], numRows, equals, i)| > 0
        invariant |offsets| == |offsets0|
        invariant forall k :: 0 <= k < |offsets0| && k != i ==> offsets[k] == offsets0[k]
        invariant found ==> offsets[i] == |rids| - 1
      {
        assert entries[..j + 1][..j] == entries[..j];
        var rid := entries[j];
        if rid >= numRows {
          continue;
        }
        if equals(rid, i) {
          rids := rids + [rid];
          offsets := offsets[i := nextOffset];
          nextOffset := nextOffset + 1;
          found := true;
        }
      }
      assert entries[..|entries|] == entries;
    }

    /** `setup_get_by_rids(rids)`: read the given rows of every column, returning the first failure. */
    method SetupGetByRids(rids: seq<nat>) returns (status: Code)
      requires Ready()
      ensures status == FirstError(RidsCodes(sub, readers, rids))
    {
      ghost var codes := RidsCodes(sub, readers, rids);
      for i := 0 to |readers|
        invariant forall k :: 0 <= k < i ==> codes[k] == Ok
      {
        var st := sub.getByRids(readers[i].value, rids);
        if st != Ok {
          assert codes[i] == st;
          FirstErrorAt(codes, i);
          return st;
        }
      }
      return Ok;
    }

    /** `get(result, nkey, key0s, key1s)`: lookups by a two-column key are not supported. */
    method GetByTwoColumns(nkey: nat) returns (status: Code)
      ensures status == NotSupported
    {
      return NotSupported;
    }
  }

  /** The first failure is the one after a run of Ok codes. */
  lemma {:induction false} FirstErrorAt(codes: seq<Code>, i: nat)
    requires i < |codes| && codes[i] != Ok
    requires forall k :: 0 <= k < i ==> codes[k] == Ok
    ensures FirstError(codes) == codes[i]
  {
    if i > 0 {
      FirstErrorAt(codes[1..], i - 1);
    }
  }
}
