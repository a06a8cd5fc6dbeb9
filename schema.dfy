/**
 * Table schemas (schema.h / schema.cpp): an ordered list of columns, a number
 * of leading key columns, and two lookup maps, by name and by column id,
 * filled by the constructor. Column ids are `uint32_t`.
 */
module Schemas {
  import opened Common
  import opened Types

  /** `ColumnSchema`, without its optional default value. */
  datatype ColumnSchema = ColumnSchema(name: string, cid: nat, ty: Type, nullable: bool)

  const UINT32_LIMIT: nat := 0x1_0000_0000

  /** Every column id fits in a `uint32_t`. */
  predicate CidsFit(cols: seq<ColumnSchema>)
  {
    forall i :: 0 <= i < |cols| ==> cols[i].cid < UINT32_LIMIT
  }

  /**
   * The name map after the constructor has visited `cols[..k]`: each name
   * maps to the position of its last column so far.
   */
  function NameIndex(cols: seq<ColumnSchema>, k: nat): (m: map<string, nat>)
    requires k <= |cols|
    ensures forall name :: name in m ==> m[name] < k
  {
    if k == 0 then map[] else NameIndex(cols, k - 1)[cols[k - 1].name := k - 1]
  }

  /** The cid map after the constructor has visited `cols[..k]`. */
  function CidIndex(cols: seq<ColumnSchema>, k: nat): (m: map<nat, nat>)
    requires k <= |cols|
    ensures forall cid :: cid in m ==> m[cid] < k
  {
    if k == 0 then map[] else CidIndex(cols, k - 1)[cols[k - 1].cid := k - 1]
  }

  /** The largest cid among `cols[..k]`, 0 for none (`max_cid` after `k` steps). */
  function MaxCid(cols: seq<ColumnSchema>, k: nat): nat
    requires k <= |cols|
  {
    if k == 0 then 0
    else
      var m := MaxCid(cols, k - 1);
      if cols[k - 1].cid > m then cols[k - 1].cid else m
  }

  /**
   * A name is mapped exactly when some column carries it, and it is mapped to
   * the LAST such column: a later duplicate overwrites an earlier one.
   */
  lemma {:induction false} NameIndexIsLast(cols: seq<ColumnSchema>, k: nat, name: string)
    requires k <= |cols|
    ensures name in NameIndex(cols, k) <==> exists i :: 0 <= i < k && cols[i].name == name
    ensures name in NameIndex(cols, k) ==>
      var j := NameIndex(cols, k)[name];
      cols[j].name == name && forall i :: j < i < k ==> cols[i].name != name
  {
    if k > 0 {
      NameIndexIsLast(cols, k - 1, name);
    }
  }

  /** The cid counterpart of `NameIndexIsLast`. */
  lemma {:induction false} CidIndexIsLast(cols: seq<ColumnSchema>, k: nat, cid: nat)
    requires k <= |cols|
    ensures cid in CidIndex(cols, k) <==> exists i :: 0 <= i < k && cols[i].cid == cid
    ensures cid in CidIndex(cols, k) ==>
      var j := CidIndex(cols, k)[cid];
      cols[j].cid == cid && forall i :: j < i < k ==> cols[i].cid != cid
  {
    if k > 0 {
      CidIndexIsLast(cols, k - 1, cid);
    }
  }

  /** `max_cid` bounds every cid seen and is one of them (or 0). */
  lemma {:induction false} MaxCidIsMax(cols: seq<ColumnSchema>, k: nat)
    requires k <= |cols|
    ensures forall i :: 0 <= i < k ==> cols[i].cid <= MaxCid(cols, k)
    ensures MaxCid(cols, k) == 0 || exists i :: 0 <= i < k && cols[i].cid == MaxCid(cols, k)
  {
    if k > 0 {
      MaxCidIsMax(cols, k - 1);
    }
  }

  /**
   * The constructor's guard as written, `CHECK_GT(num_key_column,
   * columns.size())`: it lets a schema through only when it has MORE key
   * columns than columns.
   */
  predicate KeyCountAcceptedAsWritten(numKeyColumn: nat, numColumns: nat)
  {
    numKeyColumn > numColumns
  }

  /** The intended guard: the key columns are a prefix of the columns. */
  predicate KeyCountAccepted(numKeyColumn: nat, numColumns: nat)
  {
    numKeyColumn <= numColumns
  }

  /**
   * The guard as written accepts exactly the key counts the intended guard
   * refuses: a schema with one key column out of two aborts.
   */
  lemma GuardAsWrittenIsInverted(numKeyColumn: nat, numColumns: nat)
    ensures KeyCountAcceptedAsWritten(numKeyColumn, numColumns) <==> !KeyCountAccepted(numKeyColumn, numColumns)
    ensures !KeyCountAcceptedAsWritten(1, 2) && KeyCountAccepted(1, 2)
  {
  }

  class Schema {
    var columns: seq<ColumnSchema>
    var numKeyColumn: nat
    var nameToCol: map<string, nat>
    var cidToCol: map<nat, nat>
    var nextCid: nat

    /** The maps index all columns, and `nextCid` is one past the largest cid, as a `uint32_t`. */
    ghost predicate Valid()
      reads this
    {
      && CidsFit(columns)
      && nameToCol == NameIndex(columns, |columns|)
      && cidToCol == CidIndex(columns, |columns|)
      && nextCid == (MaxCid(columns, |columns|) + 1) % UINT32_LIMIT
      && KeyCountAccepted(numKeyColumn, |columns|)
    }

    /** The key columns: the first `num_key_column` columns, all of which exist under the intended guard. */
    function KeyColumns(): (r: seq<ColumnSchema>)
      reads this
      requires Valid()
      ensures |r| == numKeyColumn && r <= columns
    {
      columns[..numKeyColumn]
    }

    /**
     * `Schema(columns, num_key_column)`: take the columns and index them in
     * order, keeping the largest cid. Uses the intended key-count guard.
     */
    constructor (cols: seq<ColumnSchema>, numKey: nat)
      requires KeyCountAccepted(numKey, |cols|)
      requires CidsFit(cols)
      ensures columns == cols && numKeyColumn == numKey
      ensures Valid()
    {
      var byName: map<string, nat> := map[];
      var byCid: map<nat, nat> := map[];
      var maxCid: nat := 0;
      var i := 0;
      while i < |cols|
        invariant i <= |cols|
        invariant byName == NameIndex(cols, i)
        invariant byCid == CidIndex(cols, i)
        invariant maxCid == MaxCid(cols, i)
      {
        byName := byName[cols[i].name := i];
        byCid := byCid[cols[i].cid := i];
        maxCid := if cols[i].cid > maxCid then cols[i].cid else maxCid;
        i := i + 1;
      }
      columns := cols;
      numKeyColumn := numKey;
      nameToCol := byName;
      cidToCol := byCid;
      nextCid := (maxCid + 1) % UINT32_LIMIT;
    }

    /** `next_cid()`: larger than every cid, unless the largest is 2^32 - 1 and the sum wraps to 0. */
    function NextCid(): (r: nat)
      reads this
      requires Valid()
      ensures MaxCid(columns, |columns|) + 1 < UINT32_LIMIT ==>
        forall i :: 0 <= i < |columns| ==> columns[i].cid < r
      ensures MaxCid(columns, |columns|) + 1 == UINT32_LIMIT ==> r == 0
    {
      MaxCidIsMax(columns, |columns|);
      nextCid
    }

    /** `get(name)`: the last column with that name, or none. */
    function GetByName(name: string): (r: Option<ColumnSchema>)
      reads this
      requires Valid()
      ensures r.None? <==> forall i :: 0 <= i < |columns| ==> columns[i].name != name
      ensures r.Some? ==> r.value.name == name
      ensures r.Some? ==> exists j :: 0 <= j < |columns| && columns[j] == r.value
                                      && forall i :: j < i < |columns| ==> columns[i].name != name
    {
      NameIndexIsLast(columns, |columns|, name);
      if name in nameToCol then
        var j := nameToCol[name];
        Some(columns[j])
      else None
    }

    /** `get(cid)`: the last column with that cid, or none. */
    function GetByCid(cid: nat): (r: Option<ColumnSchema>)
      reads this
      requires Valid()
      ensures r.None? <==> forall i :: 0 <= i < |columns| ==> columns[i].cid != cid
      ensures r.Some? ==> r.value.cid == cid
      ensures r.Some? ==> exists j :: 0 <= j < |columns| && columns[j] == r.value
                                      && forall i :: j < i < |columns| ==> columns[i].cid != cid
    {
      CidIndexIsLast(columns, |columns|, cid);
      if cid in cidToCol then
        var j := cidToCol[cid];
        Some(columns[j])
      else None
    }
  }
}
