/**
 * The in-memory tablet (mem_tablet.cpp): the list of schema versions, the
 * lookup of the schema a version reads with, opening a scan, and committing
 * a write transaction row by row.
 *
 * The sub-tablet that stores the rows has no body for its write side
 * (`begin_write`, `apply_partial_row`, `commit_write`); its answers are
 * given as functions, as its read side is in `TabletScans.SubTablet`.
 */
module MemTablets {
  import opened Common
  import opened Schemas
  import opened RowBatches
  import opened TabletScans

  /** One schema version: from `version` on, rows are read with `schema`. */
  datatype VersionInfo = VersionInfo(version: nat, schema: Schema)

  /** Versions are recorded in ascending order. */
  predicate Ascending(vs: seq<VersionInfo>)
  {
    forall i, j :: 0 <= i < j < |vs| ==> vs[i].version <= vs[j].version
  }

  /**
   * Entry `j` is the one `get_schema(v)` settles on: every later entry up
   * to `j` is at most `v`, and the entry after `j`, if any, is above it.
   */
  predicate Covers(vs: seq<VersionInfo>, v: nat, j: nat)
  {
    && j < |vs|
    && (forall k :: 1 <= k <= j ==> vs[k].version <= v)
    && (j + 1 < |vs| ==> vs[j + 1].version > v)
  }

  /**
   * With versions in ascending order and the first at most `v`, the entry
   * `get_schema(v)` settles on is the last one whose version is at most `v`.
   */
  lemma CoversIsLatest(vs: seq<VersionInfo>, v: nat, j: nat)
    requires Ascending(vs) && Covers(vs, v, j) && vs[0].version <= v
    ensures vs[j].version <= v
    ensures forall k :: j < k < |vs| ==> vs[k].version > v
  {
    forall k | j < k < |vs|
      ensures vs[k].version > v
    {
      assert vs[j + 1].version <= vs[k].version;
    }
  }

  /** The number of rows of each batch of a write transaction. */
  ghost function Sizes(wtx: seq<PartialRowBatch>): (r: seq<nat>)
    reads set b | b in wtx
    ensures |r| == |wtx|
    ensures forall i :: 0 <= i < |wtx| ==> r[i] == |wtx[i].rowOffsets|
  {
    if |wtx| == 0 then [] else Sizes(wtx[..|wtx| - 1]) + [|wtx[|wtx| - 1].rowOffsets|]
  }

  /**
   * The first failure among the sub-tablet's answers to the first `m` rows
   * of batch `i`, taken row by row; Ok when there is none.
   */
  function RowFailure(apply: (nat, nat) -> Code, i: nat, m: nat): Code
  {
    if m == 0 then Ok
    else if RowFailure(apply, i, m - 1) != Ok then RowFailure(apply, i, m - 1)
    else apply(i, m - 1)
  }

  /**
   * The first failure among the answers to the rows of the first `n`
   * batches, taken batch by batch; Ok when there is none.
   */
  function CommitFailure(sizes: seq<nat>, apply: (nat, nat) -> Code, n: nat): Code
    requires n <= |sizes|
  {
    if n == 0 then Ok
    else if CommitFailure(sizes, apply, n - 1) != Ok then CommitFailure(sizes, apply, n - 1)
    else RowFailure(apply, n - 1, sizes[n - 1])
  }

  /** Once a row fails, later rows do not change the batch's first failure. */
  lemma {:induction false} RowFailureSticks(apply: (nat, nat) -> Code, i: nat, j: nat, m: nat)
    requires j <= m && RowFailure(apply, i, j) != Ok
    ensures RowFailure(apply, i, m) == RowFailure(apply, i, j)
    decreases m - j
  {
    if j < m {
      RowFailureSticks(apply, i, j, m - 1);
    }
  }

  /** Once a batch fails, later batches do not change the commit's first failure. */
  lemma {:induction false} CommitFailureSticks(sizes: seq<nat>, apply: (nat, nat) -> Code, i: nat, n: nat)
    requires i <= n <= |sizes| && CommitFailure(sizes, apply, i) != Ok
    ensures CommitFailure(sizes, apply, n) == CommitFailure(sizes, apply, i)
    decreases n - i
  {
    if i < n {
      CommitFailureSticks(sizes, apply, i, n - 1);
    }
  }

  /**
   * A batch's first failure is Ok exactly when every row applies, and is
   * otherwise the answer for a row all of whose predecessors applied.
   */
  lemma {:induction false} RowFailureIsFirst(apply: (nat, nat) -> Code, i: nat, m: nat)
    ensures RowFailure(apply, i, m) == Ok <==> forall j :: 0 <= j < m ==> apply(i, j) == Ok
    ensures RowFailure(apply, i, m) != Ok ==>
      exists j :: 0 <= j < m && apply(i, j) == RowFailure(apply, i, m) && forall k :: 0 <= k < j ==> apply(i, k) == Ok
  {
    if m > 0 {
      RowFailureIsFirst(apply, i, m - 1);
    }
  }

  /**
   * The commit's first failure is Ok exactly when every row of every batch
   * applies, and is otherwise the answer for a row before which, in batch
   * order and then row order, every row applied.
   */
  lemma {:induction false} CommitFailureIsFirst(sizes: seq<nat>, apply: (nat, nat) -> Code, n: nat)
    requires n <= |sizes|
    ensures CommitFailure(sizes, apply, n) == Ok <==>
      forall i, j :: 0 <= i < n && 0 <= j < sizes[i] ==> apply(i, j) == Ok
    ensures CommitFailure(sizes, apply, n) != Ok ==>
      exists i, j :: 0 <= i < n && 0 <= j < sizes[i] && apply(i, j) == CommitFailure(sizes, apply, n)
        && (forall i2, j2 :: 0 <= i2 < i && 0 <= j2 < sizes[i2] ==> apply(i2, j2) == Ok)
        && (forall k :: 0 <= k < j ==> apply(i, k) == Ok)
  {
    if n > 0 {
      CommitFailureIsFirst(sizes, apply, n - 1);
      RowFailureIsFirst(apply, n - 1, sizes[n - 1]);
    }
  }

  /** Every batch is a valid batch of rows. */
  ghost predicate BatchesValid(wtx: seq<PartialRowBatch>)
    reads set b | b in wtx
    reads set b | b in wtx :: b.schema
    reads set b | b in wtx :: b.data
  {
    forall b :: b in wtx ==> b.Valid()
  }

  class MemTablet {
    var versions: seq<VersionInfo>
    const sub: SubTablet

    /** At least one version is recorded, and every version's schema is well formed. */
    ghost predicate Valid()
      reads this, set k | 0 <= k < |versions| :: versions[k].schema
    {
      && |versions| > 0
      && forall k :: 0 <= k < |versions| ==> versions[k].schema.Valid()
    }

    constructor (st: SubTablet)
      ensures versions == [] && sub == st
    {
      versions := [];
      sub := st;
    }

    /**
     * `MemTablet::create(dir, schema)`: a tablet whose one version is
     * version 0 with the given schema. The sub-tablet's creation always
     * succeeds; `st` stands for what it then reads.
     */
    static method Create(schema: Schema, st: SubTablet) returns (status: Code, tablet: MemTablet)
      requires schema.Valid()
      ensures status == Ok && fresh(tablet)
      ensures tablet.versions == [VersionInfo(0, schema)] && tablet.sub == st
      ensures tablet.Valid()
    {
      var version := 0;
      tablet := new MemTablet(st);
      tablet.versions := tablet.versions + [VersionInfo(version, schema)];
      status := Ok;
    }

    /** `latest_schema()`: the schema of the last version. */
    function LatestSchema(): (s: Schema)
      reads this
      requires |versions| > 0
      ensures s == versions[|versions| - 1].schema
    {
      versions[|versions| - 1].schema
    }

    /**
     * `get_schema(version)`: the latest schema for `uint64_t(-1)`; none
     * for a version older than the first; otherwise the schema of the
     * entry before the first later one above `version`, or of the last.
     */
    method GetSchema(version: nat) returns (r: Option<Schema>)
      requires |versions| > 0
      ensures version == UINT64_MAX ==> r == Some(versions[|versions| - 1].schema)
      ensures version != UINT64_MAX ==> (r.None? <==> versions[0].version > version)
      ensures version != UINT64_MAX && r.Some? ==>
        exists j: nat :: Covers(versions, version, j) && r == Some(versions[j].schema)
    {
      if version == UINT64_MAX {
        return Some(versions[|versions| - 1].schema);
      }
      if versions[0].version > version {
        return None;
      }
      for i := 1 to |versions|
        invariant forall k :: 1 <= k < i ==> versions[k].version <= version
      {
        if versions[i].version > version {
          assert Covers(versions, version, i - 1);
          return Some(versions[i - 1].schema);
        }
      }
      assert Covers(versions, version, |versions| - 1);
      return Some(versions[|versions| - 1].schema);
    }

    /**
     * `scan(spec, scan)`: NotFound when no schema covers the spec's
     * version; otherwise a scan over that schema, set up (returning
     * setup's failure if it fails).
     */
    method Scan(spec: ScanSpec) returns (status: Code, scan: MemTabletScan?)
      requires Valid()
      ensures spec.version != UINT64_MAX && versions[0].version > spec.version ==> status == NotFound
      ensures status == Ok ==>
        && scan != null && fresh(scan) && scan.Ready() && scan.spec == spec && scan.sub == sub
        && (spec.version == UINT64_MAX ==> scan.schema == versions[|versions| - 1].schema)
        && (spec.version != UINT64_MAX ==> exists j: nat :: Covers(versions, spec.version, j) && scan.schema == versions[j].schema)
    {
      var schema := GetSchema(spec.version);
      if schema.None? {
        return NotFound, null;
      }
      ghost var j: nat := |versions| - 1;
      if spec.version != UINT64_MAX {
        j :| Covers(versions, spec.version, j) && schema == Some(versions[j].schema);
      }
      assert schema.value == versions[j].schema;
      var ret := new MemTabletScan(schema.value, spec, sub);
      status := ret.Setup();
      if status != Ok {
        return status, null;
      }
      return Ok, ret;
    }

    /**
     * `commit(wtx, version)`: read each row of each batch in turn and hand
     * it to the sub-tablet, stopping at the first failure; if none, the
     * sub-tablet's `commit_write(version)` decides. `apply(i, j)` is the
     * sub-tablet's answer for row `j` of batch `i`, `commitWrite` its
     * answer to the commit.
     */
    method Commit(wtx: seq<PartialRowBatch>, version: nat, apply: (nat, nat) -> Code, commitWrite: nat -> Code)
      returns (status: Code)
      requires BatchesValid(wtx)
      ensures status == (if CommitFailure(Sizes(wtx), apply, |wtx|) != Ok
                         then CommitFailure(Sizes(wtx), apply, |wtx|)
                         else commitWrite(version))
    {
      status := ApplyAll(wtx, apply);
      if status != Ok {
        return status;
      }
      status := commitWrite(version);
    }
  }

  /** The loop of `commit`: each batch in turn, stopping at the first failure. */
  method ApplyAll(wtx: seq<PartialRowBatch>, apply: (nat, nat) -> Code) returns (status: Code)
    requires BatchesValid(wtx)
    ensures status == CommitFailure(Sizes(wtx), apply, |wtx|)
  {
    ghost var sizes := Sizes(wtx);
    for i := 0 to |wtx|
      invariant forall b :: b in wtx ==> b.Valid()
      invariant Sizes(wtx) == sizes
      invariant CommitFailure(sizes, apply, i) == Ok
    {
      assert wtx[i] in wtx;
      status := ApplyRows(wtx[i], i, apply);
      if status != Ok {
        CommitFailureSticks(sizes, apply, i + 1, |wtx|);
        return status;
      }
    }
    status := Ok;
  }

  /** A reader over batch `i`, then the inner loop of `commit` over it. */
  method ApplyRows(batch: PartialRowBatch, i: nat, apply: (nat, nat) -> Code) returns (status: Code)
    requires batch.Valid()
    ensures status == RowFailure(apply, i, |batch.rowOffsets|)
  {
    var reader := new PartialRowReader(batch);
    status := ApplyBatch(reader, i, apply);
  }

  /**
   * The inner loop of `commit` for batch `i`: read each row and apply it,
   * stopping at the first failure. Reading never fails, as every row
   * index is in range.
   */
  method ApplyBatch(reader: PartialRowReader, i: nat, apply: (nat, nat) -> Code) returns (status: Code)
    modifies reader
    requires reader.Valid() && reader.batch.Valid()
    ensures status == RowFailure(apply, i, |reader.batch.rowOffsets|)
  {
    for j := 0 to |reader.batch.rowOffsets|
      invariant reader.Valid() && reader.batch.Valid()
      invariant RowFailure(apply, i, j) == Ok
    {
      status := ReadAndApply(reader, i, j, apply);
      if status != Ok {
        RowFailureSticks(apply, i, j + 1, |reader.batch.rowOffsets|);
        return status;
      }
    }
    status := Ok;
  }

  /** One step of the inner loop of `commit`: read row `j`, which is in range, and apply it. */
  method ReadAndApply(reader: PartialRowReader, i: nat, j: nat, apply: (nat, nat) -> Code) returns (status: Code)
    modifies reader
    requires reader.Valid() && reader.batch.Valid() && j < |reader.batch.rowOffsets|
    ensures reader.Valid() && reader.batch.Valid()
    ensures status == apply(i, j)
  {
    status := reader.Read(j);
    assert status == Ok;
    status := apply(i, j);
  }
}
