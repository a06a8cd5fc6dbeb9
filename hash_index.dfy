/**
 * The hash index (hash_index.h / hash_index.cpp): a fixed array of chunks,
 * each holding up to 12 one-byte tags and 12 `uint32_t` values, that maps a
 * 64-bit key hash to candidate row ids. A key hash selects a home chunk and
 * a tag; a lookup walks full chunks with an odd, tag-dependent step.
 *
 * The chunk count is a power of two, so the C++ code's `& _chunk_mask` is
 * written here as `% numChunks`, and a slot `(pos << 4) | i` (with `i < 16`)
 * as `pos * 16 + i`.
 */
module HashIndexes {

  /** Slots per chunk (`HashChunk::CAPACITY`). */
  const CHUNK_CAPACITY: nat := 12

  /** The slot `find` reports when no chunk has room (`(uint32_t)-1`). */
  const NOSLOT: nat := 0xFFFF_FFFF

  /** Chunk counts up to 2^28 keep every slot `pos * 16 + i` inside a `uint32_t`. */
  const MAX_CHUNKS: nat := 0x1000_0000

  const VALUE_LIMIT: nat := 0x1_0000_0000

  // ---------------------------------------------------------------------
  // Probe arithmetic
  // ---------------------------------------------------------------------

  predicate IsPow2(n: nat)
    decreases n
  {
    if n <= 1 then n == 1 else n % 2 == 0 && IsPow2(n / 2)
  }

  /** The tag of a key hash: its low byte, with 0 (the empty mark) moved to 1. */
  function Tag(h: nat): (t: nat)
    ensures 1 <= t < 256
    ensures t == h % 256 || (h % 256 == 0 && t == 1)
  {
    if h % 256 == 0 then 1 else h % 256
  }

  /** The probe step `tag * 2 + 1`, always odd. */
  function Step(h: nat): (s: nat)
    ensures s % 2 == 1
  {
    Tag(h) * 2 + 1
  }

  /** The chunk a key hash starts at: `(hash >> 8) & _chunk_mask`. */
  function Home(h: nat, n: nat): (p: nat)
    requires n > 0
    ensures p < n
  {
    (h / 256) % n
  }

  /**
   * The chunk visited at step `j` of the probe sequence of `h`: the home
   * chunk, then `Step(h)` further on for every full chunk passed.
   */
  function ProbePos(h: nat, n: nat, j: nat): (p: nat)
    requires n > 0
    ensures p < n
  {
    if j == 0 then Home(h, n) else (ProbePos(h, n, j - 1) + Step(h)) % n
  }

  lemma MulBounds(n: int, d: int)
    requires n >= 0
    ensures d >= 1 ==> n * d >= n
    ensures d <= -1 ==> n * d <= -n
  {
  }

  /** Quotient and remainder are the unique pair with `0 <= r < n`. */
  lemma ModUnique(a: int, n: int, q: int, r: int)
    requires n > 0 && 0 <= r < n && a == n * q + r
    ensures a % n == r && a / n == q
  {
    var d := q - a / n;
    assert n * d == a % n - r by {
      assert a == n * (a / n) + a % n;
      assert n * d == n * q - n * (a / n);
    }
    MulBounds(n, d);
  }

  /** Adding a multiple of `n` does not change a remainder modulo `n`. */
  lemma ModAddMultiple(n: nat, k: nat, x: nat)
    requires n > 0
    ensures (n * k + x) % n == x % n
  {
    ModUnique(n * k + x, n, k + x / n, x % n);
  }

  /**
   * For a power of two `n` and an odd `step`, `n` divides `j * step` only if
   * it divides `j`.
   */
  lemma {:induction false} OddMultiple(n: nat, step: nat, j: nat)
    requires IsPow2(n) && step % 2 == 1
    ensures (j * step) % n == 0 ==> j % n == 0
    decreases n
  {
    if n > 1 && (j * step) % n == 0 {
      var m := n / 2;
      var q := (j * step) / n;
      var a, r, b := j / 2, j % 2, step / 2;
      assert j * step == 2 * (m * q) by {
        ModUnique(j * step, n, q, 0);
      }
      assert j * step == 2 * (a * step + r * b) + r by {
        assert j == 2 * a + r;
        assert step == 2 * b + 1;
      }
      assert r == 0;
      assert a * step == m * q;
      ModAddMultiple(m, q, 0);
      OddMultiple(m, step, a);
      ModUnique(a, m, a / m, 0);
      ModUnique(j, n, a / m, 0);
    }
  }

  /** Reducing before adding gives the same remainder. */
  lemma ModStep(a: nat, d: nat, n: nat)
    requires n > 0
    ensures (a % n + d) % n == (a + d) % n
  {
    assert a + d == n * (a / n) + (a % n + d);
    ModAddMultiple(n, a / n, a % n + d);
  }

  lemma MulSucc(j: nat, s: nat)
    requires j > 0
    ensures (j - 1) * s + s == j * s
  {
  }

  lemma MulSplit(i: nat, j: nat, s: nat) returns (x: nat, d: nat)
    requires i <= j
    ensures x == i * s && d == (j - i) * s && j * s == x + d
  {
    x, d := i * s, (j - i) * s;
  }

  /** Step `j` lands `j * Step(h)` chunks past home, modulo `n`. */
  lemma {:induction false} ProbeClosed(h: nat, n: nat, j: nat)
    requires n > 0
    ensures ProbePos(h, n, j) == (Home(h, n) + j * Step(h)) % n
  {
    var home, step := Home(h, n), Step(h);
    if j == 0 {
      ModUnique(home, n, 0, home);
    } else {
      ProbeClosed(h, n, j - 1);
      var a := home + (j - 1) * step;
      ModStep(a, step, n);
      MulSucc(j, step);
    }
  }

  /** Adding `d` leaves a remainder modulo `n` unchanged only if `n` divides `d`. */
  lemma ModCancel(x: nat, d: nat, n: nat)
    requires n > 0
    ensures (x + d) % n == x % n ==> d % n == 0
  {
    ModAddMultiple(n, x / n + d / n, x % n + d % n);
    assert x + d == n * (x / n + d / n) + (x % n + d % n);
    var s := x % n + d % n;
    ModUnique(s, n, s / n, s % n);
    MulBounds(n, s / n);
  }

  /** Two steps land on the same chunk only if they are a multiple of `n` apart. */
  lemma ProbeSameChunk(h: nat, n: nat, i: nat, j: nat)
    requires IsPow2(n) && i <= j
    ensures ProbePos(h, n, i) == ProbePos(h, n, j) ==> (j - i) % n == 0
  {
    var home, step := Home(h, n), Step(h);
    ProbeClosed(h, n, i);
    ProbeClosed(h, n, j);
    var x, d := MulSplit(i, j, step);
    ModCancel(home + x, d, n);
    OddMultiple(n, step, j - i);
  }

  /** The first `n` steps visit distinct chunks, and step `n` is home again. */
  lemma FullPeriod(h: nat, n: nat)
    requires IsPow2(n)
    ensures forall i, j :: 0 <= i < j < n ==> ProbePos(h, n, i) != ProbePos(h, n, j)
    ensures ProbePos(h, n, n) == Home(h, n)
  {
    forall i, j | 0 <= i < j < n
      ensures ProbePos(h, n, i) != ProbePos(h, n, j)
    {
      ProbeSameChunk(h, n, i, j);
      ModUnique(j - i, n, 0, j - i);
    }
    ModAddMultiple(n, Step(h), Home(h, n));
    ModUnique(Home(h, n), n, 0, Home(h, n));
    ProbeClosed(h, n, n);
  }

  function Visited(h: nat, n: nat, k: nat): set<nat>
    requires n > 0
  {
    set j | 0 <= j < k :: ProbePos(h, n, j)
  }

  lemma {:induction false} VisitedSize(h: nat, n: nat, k: nat)
    requires IsPow2(n) && k <= n
    ensures |Visited(h, n, k)| == k
  {
    if k > 0 {
      VisitedSize(h, n, k - 1);
      FullPeriod(h, n);
      assert Visited(h, n, k) == Visited(h, n, k - 1) + {ProbePos(h, n, k - 1)};
    }
  }

  /** The chunk positions `0..n-1`. */
  function Below(n: nat): set<nat>
  {
    if n == 0 then {} else Below(n - 1) + {n - 1}
  }

  lemma {:induction false} BelowSize(n: nat, p: nat)
    ensures |Below(n)| == n
    ensures p in Below(n) <==> p < n
  {
    if n > 0 {
      BelowSize(n - 1, p);
      BelowSize(n - 1, n - 1);
    }
  }

  /** Every chunk is visited within the first `n` steps of any probe sequence. */
  lemma ProbeVisitsAll(h: nat, n: nat, p: nat)
    requires IsPow2(n) && p < n
    ensures exists j :: 0 <= j < n && ProbePos(h, n, j) == p
  {
    VisitedSize(h, n, n);
    BelowSize(n, p);
    forall q | q in Visited(h, n, n)
      ensures q in Below(n)
    {
      BelowSize(n, q);
    }
    assert |Below(n) - Visited(h, n, n)| == |Below(n)| - |Visited(h, n, n)|;
    assert p in Below(n);
  }

  /** Coming back to the home chunk after step `j` means all `n` chunks were seen. */
  lemma BackHome(h: nat, n: nat, j: nat)
    requires IsPow2(n) && j < n
    ensures ProbePos(h, n, j + 1) == Home(h, n) <==> j + 1 == n
  {
    FullPeriod(h, n);
    assert ProbePos(h, n, 0) == Home(h, n);
    if j + 1 < n {
      assert ProbePos(h, n, 0) != ProbePos(h, n, j + 1);
    }
  }

  // ---------------------------------------------------------------------
  // Chunks and the table as values
  // ---------------------------------------------------------------------

  /** A candidate found by `find`: a slot and the value stored there (`HashIndex::Entry`). */
  datatype Entry = Entry(slot: nat, value: nat)

  /** One 64-byte `HashChunk`: 12 tags (0 marks an empty slot), the fill count, 12 values. */
  datatype Chunk = Chunk(tags: seq<nat>, size: nat, values: seq<nat>)

  /** The chunk `memset(_chunks, 0, ...)` leaves. */
  const EMPTY_CHUNK: Chunk := Chunk(seq(CHUNK_CAPACITY, _ => 0), 0, seq(CHUNK_CAPACITY, _ => 0))

  /** Exactly slots `0..size-1` are occupied, each with a non-zero one-byte tag. */
  predicate ChunkValid(c: Chunk)
  {
    && |c.tags| == CHUNK_CAPACITY && |c.values| == CHUNK_CAPACITY
    && c.size <= CHUNK_CAPACITY
    && (forall i :: 0 <= i < c.size ==> 1 <= c.tags[i] < 256)
    && (forall i :: c.size <= i < CHUNK_CAPACITY ==> c.tags[i] == 0)
    && (forall i :: 0 <= i < CHUNK_CAPACITY ==> c.values[i] < VALUE_LIMIT)
  }

  predicate ChunksValid(cs: seq<Chunk>)
  {
    forall p :: 0 <= p < |cs| ==> ChunkValid(cs[p])
  }

  /** An allocated table: a power-of-two number of valid chunks. */
  predicate TableValid(cs: seq<Chunk>)
  {
    IsPow2(|cs|) && |cs| <= MAX_CHUNKS && ChunksValid(cs)
  }

  /** The number of occupied slots over all chunks (`_size`). */
  function Fill(cs: seq<Chunk>): nat
  {
    if |cs| == 0 then 0 else Fill(cs[..|cs| - 1]) + cs[|cs| - 1].size
  }

  predicate AllFull(cs: seq<Chunk>)
  {
    forall p :: 0 <= p < |cs| ==> cs[p].size == CHUNK_CAPACITY
  }

  /** Replacing one chunk changes the fill by the difference of the two counts. */
  lemma {:induction false} FillUpdate(cs: seq<Chunk>, p: nat, c: Chunk)
    requires p < |cs|
    ensures Fill(cs[p := c]) + cs[p].size == Fill(cs) + c.size
    decreases |cs|
  {
    var last := |cs| - 1;
    if p < last {
      assert cs[p := c][..last] == cs[..last][p := c];
      FillUpdate(cs[..last], p, c);
    } else {
      assert cs[p := c][..last] == cs[..last];
    }
  }

  /** The fill never exceeds the capacity, and reaches it when every chunk is full. */
  lemma {:induction false} FillBound(cs: seq<Chunk>)
    requires ChunksValid(cs)
    ensures Fill(cs) <= CHUNK_CAPACITY * |cs|
    ensures AllFull(cs) ==> Fill(cs) == CHUNK_CAPACITY * |cs|
    decreases |cs|
  {
    if |cs| > 0 {
      FillBound(cs[..|cs| - 1]);
    }
  }

  /**
   * The candidates among slots holding `tags` and `values`, numbered from
   * `slot` on: those whose tag equals `tag`, in slot order.
   */
  function Scan(tags: seq<nat>, values: seq<nat>, tag: nat, slot: nat): seq<Entry>
    requires |tags| == |values|
    decreases |tags|
  {
    if |tags| == 0 then []
    else (if tags[0] == tag then [Entry(slot, values[0])] else []) + Scan(tags[1..], values[1..], tag, slot + 1)
  }

  lemma {:induction false} ScanExactly(tags: seq<nat>, values: seq<nat>, tag: nat, slot: nat, e: Entry)
    requires |tags| == |values|
    ensures e in Scan(tags, values, tag, slot) <==>
      slot <= e.slot < slot + |tags| && tags[e.slot - slot] == tag && e.value == values[e.slot - slot]
    decreases |tags|
  {
    if |tags| > 0 {
      var head := if tags[0] == tag then [Entry(slot, values[0])] else [];
      var rest := Scan(tags[1..], values[1..], tag, slot + 1);
      assert Scan(tags, values, tag, slot) == head + rest;
      ScanExactly(tags[1..], values[1..], tag, slot + 1, e);
      if slot < e.slot < slot + |tags| {
        assert tags[1..][e.slot - (slot + 1)] == tags[e.slot - slot];
        assert values[1..][e.slot - (slot + 1)] == values[e.slot - slot];
      }
    }
  }

  /** The candidates of chunk `c` at position `pos`: the `_mm_cmpeq_epi8` mask over its 12 tags, lowest slot first. */
  function Matches(c: Chunk, tag: nat, pos: nat): seq<Entry>
    requires ChunkValid(c)
  {
    Scan(c.tags, c.values, tag, pos * 16)
  }

  /**
   * Comparing all 12 tags against a non-zero tag finds exactly the occupied
   * slots carrying it, each with its stored value.
   */
  lemma MatchesExactly(c: Chunk, tag: nat, pos: nat, e: Entry)
    requires ChunkValid(c) && tag != 0
    ensures e in Matches(c, tag, pos) <==>
      && pos * 16 <= e.slot < pos * 16 + c.size
      && c.tags[e.slot - pos * 16] == tag
      && e.value == c.values[e.slot - pos * 16]
  {
    ScanExactly(c.tags, c.values, tag, pos * 16, e);
  }

  /** Whether the chunk at step `j` of the probe sequence of `h` is full. */
  predicate FullAt(cs: seq<Chunk>, h: nat, j: nat)
    requires |cs| > 0
  {
    cs[ProbePos(h, |cs|, j)].size == CHUNK_CAPACITY
  }

  /** The candidates the chunk at step `j` of the probe sequence of `h` yields. */
  function MatchesAt(cs: seq<Chunk>, h: nat, j: nat): seq<Entry>
    requires |cs| > 0 && ChunksValid(cs)
  {
    var pos := ProbePos(h, |cs|, j);
    Matches(cs[pos], Tag(h), pos)
  }

  /** The candidates of steps `a..b-1`, in probe order. */
  function Collected(cs: seq<Chunk>, h: nat, a: nat, b: nat): seq<Entry>
    requires |cs| > 0 && ChunksValid(cs) && a <= b
    decreases b - a
  {
    if a == b then [] else MatchesAt(cs, h, a) + Collected(cs, h, a + 1, b)
  }

  /** The candidates of every step in `a..b-1` are among the collected ones. */
  lemma {:induction false} CollectedHas(cs: seq<Chunk>, h: nat, a: nat, b: nat, k: nat, e: Entry)
    requires |cs| > 0 && ChunksValid(cs) && a <= k < b
    requires e in MatchesAt(cs, h, k)
    ensures e in Collected(cs, h, a, b)
    decreases b - a
  {
    assert Collected(cs, h, a, b) == MatchesAt(cs, h, a) + Collected(cs, h, a + 1, b);
    if a < k {
      CollectedHas(cs, h, a + 1, b, k, e);
    }
  }

  /** Every collected candidate comes from one of the steps `a..b-1`. */
  lemma {:induction false} CollectedFrom(cs: seq<Chunk>, h: nat, a: nat, b: nat, e: Entry) returns (k: nat)
    requires |cs| > 0 && ChunksValid(cs) && a <= b
    requires e in Collected(cs, h, a, b)
    ensures a <= k < b && e in MatchesAt(cs, h, k)
    decreases b - a
  {
    assert Collected(cs, h, a, b) == MatchesAt(cs, h, a) + Collected(cs, h, a + 1, b);
    if e in MatchesAt(cs, h, a) {
      k := a;
    } else {
      k := CollectedFrom(cs, h, a + 1, b, e);
    }
  }

  /** The result of `find`: the insert slot (or `NOSLOT`) and the candidates, in order. */
  datatype Probe = Probe(slot: nat, entries: seq<Entry>)

  /**
   * `find` from step `j` of the probe sequence on: collect the chunk's
   * candidates; a chunk with room ends the walk with its next free slot; a
   * full chunk moves on by `Step(h)`, and coming back home ends the walk with
   * `NOSLOT`.
   */
  function FindFrom(cs: seq<Chunk>, h: nat, j: nat): Probe
    requires TableValid(cs) && j < |cs|
    decreases |cs| - j
  {
    var n := |cs|;
    var pos := ProbePos(h, n, j);
    var found := MatchesAt(cs, h, j);
    if cs[pos].size < CHUNK_CAPACITY then Probe(pos * 16 + cs[pos].size, found)
    else if ProbePos(h, n, j + 1) == Home(h, n) then Probe(NOSLOT, found)
    else
      BackHome(h, n, j);
      var rest := FindFrom(cs, h, j + 1);
      Probe(rest.slot, found + rest.entries)
  }

  /** One step of the walk, as the loop body of `find` takes it. */
  lemma FindFromStep(cs: seq<Chunk>, h: nat, j: nat)
    requires TableValid(cs) && j < |cs|
    ensures var pos := ProbePos(h, |cs|, j);
      && (cs[pos].size < CHUNK_CAPACITY ==> FindFrom(cs, h, j) == Probe(pos * 16 + cs[pos].size, MatchesAt(cs, h, j)))
      && (cs[pos].size == CHUNK_CAPACITY && (pos + Step(h)) % |cs| == Home(h, |cs|) ==>
            FindFrom(cs, h, j) == Probe(NOSLOT, MatchesAt(cs, h, j)))
      && (cs[pos].size == CHUNK_CAPACITY && (pos + Step(h)) % |cs| != Home(h, |cs|) ==>
            && j + 1 < |cs| && ProbePos(h, |cs|, j + 1) == (pos + Step(h)) % |cs|
            && FindFrom(cs, h, j).slot == FindFrom(cs, h, j + 1).slot
            && FindFrom(cs, h, j).entries == MatchesAt(cs, h, j) + FindFrom(cs, h, j + 1).entries)
  {
    BackHome(h, |cs|, j);
  }

  /** Passing a full chunk that is not the last: its candidates join those collected so far. */
  lemma WalkOn(cs: seq<Chunk>, h: nat, j: nat, before: seq<Entry>)
    requires TableValid(cs) && j < |cs|
    requires cs[ProbePos(h, |cs|, j)].size == CHUNK_CAPACITY
    requires (ProbePos(h, |cs|, j) + Step(h)) % |cs| != Home(h, |cs|)
    ensures j + 1 < |cs| && ProbePos(h, |cs|, j + 1) == (ProbePos(h, |cs|, j) + Step(h)) % |cs|
    ensures (before + MatchesAt(cs, h, j)) + FindFrom(cs, h, j + 1).entries == before + FindFrom(cs, h, j).entries
    ensures FindFrom(cs, h, j + 1).slot == FindFrom(cs, h, j).slot
  {
    FindFromStep(cs, h, j);
  }

  /** Stopping at step `j`: the walk from `j` yields just this chunk's candidates. */
  lemma WalkEnds(cs: seq<Chunk>, h: nat, j: nat, before: seq<Entry>)
    requires TableValid(cs) && j < |cs|
    ensures var pos := ProbePos(h, |cs|, j);
      cs[pos].size < CHUNK_CAPACITY ==>
        && FindFrom(cs, h, j).slot == pos * 16 + cs[pos].size
        && before + MatchesAt(cs, h, j) == before + FindFrom(cs, h, j).entries
    ensures var pos := ProbePos(h, |cs|, j);
      cs[pos].size == CHUNK_CAPACITY && (pos + Step(h)) % |cs| == Home(h, |cs|) ==>
        && FindFrom(cs, h, j).slot == NOSLOT
        && before + MatchesAt(cs, h, j) == before + FindFrom(cs, h, j).entries
  {
    FindFromStep(cs, h, j);
  }

  /** `find(keyHash, entries)` on an allocated table. */
  function FindIn(cs: seq<Chunk>, h: nat): Probe
    requires TableValid(cs)
  {
    FindFrom(cs, h, 0)
  }

  /** The walk of `FindFrom(cs, h, j)` stops at step `stop`, a chunk with room, after full chunks only. */
  predicate StopsAt(cs: seq<Chunk>, h: nat, j: nat, stop: nat, r: Probe)
    requires TableValid(cs) && j <= stop < |cs|
  {
    var pos := ProbePos(h, |cs|, stop);
    && !FullAt(cs, h, stop)
    && (forall k :: j <= k < stop ==> FullAt(cs, h, k))
    && r.slot == pos * 16 + cs[pos].size
    && r.entries == Collected(cs, h, j, stop + 1)
  }

  /**
   * What the walk from step `j` reports: `NOSLOT` exactly when every chunk
   * from step `j` on is full, with the candidates of all those chunks;
   * otherwise the free slot of the first chunk with room, with the candidates
   * of the chunks up to and including it.
   */
  lemma {:induction false} FindFromShape(cs: seq<Chunk>, h: nat, j: nat) returns (stop: nat)
    requires TableValid(cs) && j < |cs|
    ensures j <= stop < |cs|
    ensures FindFrom(cs, h, j).slot == NOSLOT ==>
      && (forall k :: j <= k < |cs| ==> FullAt(cs, h, k))
      && FindFrom(cs, h, j).entries == Collected(cs, h, j, |cs|)
    ensures FindFrom(cs, h, j).slot != NOSLOT ==> StopsAt(cs, h, j, stop, FindFrom(cs, h, j))
    decreases |cs| - j
  {
    var n := |cs|;
    var pos := ProbePos(h, n, j);
    var r := FindFrom(cs, h, j);
    BackHome(h, n, j);
    if cs[pos].size < CHUNK_CAPACITY {
      stop := j;
      assert pos * 16 + cs[pos].size < NOSLOT;
      assert Collected(cs, h, j, j + 1) == MatchesAt(cs, h, j);
    } else if j + 1 < n {
      stop := FindFromShape(cs, h, j + 1);
    } else {
      stop := j;
      assert Collected(cs, h, j, n) == MatchesAt(cs, h, j);
    }
  }

  /** `find` reports `NOSLOT` exactly when every chunk of the table is full. */
  lemma FindNoSlotIffFull(cs: seq<Chunk>, h: nat)
    requires TableValid(cs)
    ensures FindIn(cs, h).slot == NOSLOT <==> AllFull(cs)
  {
    var n := |cs|;
    var stop := FindFromShape(cs, h, 0);
    if FindIn(cs, h).slot == NOSLOT {
      forall p | 0 <= p < n
        ensures cs[p].size == CHUNK_CAPACITY
      {
        ProbeVisitsAll(h, n, p);
        var k :| 0 <= k < n && ProbePos(h, n, k) == p;
        assert FullAt(cs, h, k);
      }
    }
  }

  /** A table with a free slot anywhere gives every key hash an insert slot. */
  lemma RoomBelowCapacity(cs: seq<Chunk>)
    requires TableValid(cs) && Fill(cs) < CHUNK_CAPACITY * |cs|
    ensures forall h :: FindIn(cs, h).slot != NOSLOT
  {
    FillBound(cs);
    forall h
      ensures FindIn(cs, h).slot != NOSLOT
    {
      FindNoSlotIffFull(cs, h);
    }
  }

  /**
   * The candidates of `find` are those of steps `0..b-1`, where `b` is one
   * past the first chunk with room, or the whole table when every chunk on
   * the probe sequence is full.
   */
  lemma FindExtent(cs: seq<Chunk>, h: nat) returns (b: nat)
    requires TableValid(cs)
    ensures 0 < b <= |cs| && FindIn(cs, h).entries == Collected(cs, h, 0, b)
    ensures b < |cs| ==> !FullAt(cs, h, b - 1)
    ensures forall i :: 0 <= i < b - 1 ==> FullAt(cs, h, i)
  {
    var stop := FindFromShape(cs, h, 0);
    if FindIn(cs, h).slot == NOSLOT {
      b := |cs|;
    } else {
      b := stop + 1;
    }
  }

  /**
   * An occupied slot carrying the tag of `h`, in a chunk reached on the probe
   * sequence of `h` after full chunks only, is among the candidates `find`
   * reports.
   */
  lemma FoundOnPath(cs: seq<Chunk>, h: nat, k: nat, t: nat)
    requires TableValid(cs) && k < |cs|
    requires forall i :: 0 <= i < k ==> FullAt(cs, h, i)
    requires t < cs[ProbePos(h, |cs|, k)].size
    requires cs[ProbePos(h, |cs|, k)].tags[t] == Tag(h)
    ensures var pos := ProbePos(h, |cs|, k);
      Entry(pos * 16 + t, cs[pos].values[t]) in FindIn(cs, h).entries
  {
    var pos := ProbePos(h, |cs|, k);
    var e := Entry(pos * 16 + t, cs[pos].values[t]);
    MatchesExactly(cs[pos], Tag(h), pos, e);
    var b := FindExtent(cs, h);
    CollectedHas(cs, h, 0, b, k, e);
  }

  /** Where a candidate of `find` sits: its step, and the slot within that chunk. */
  lemma CandidatePlace(cs: seq<Chunk>, h: nat, e: Entry) returns (k: nat, t: nat)
    requires TableValid(cs) && e in FindIn(cs, h).entries
    ensures k < |cs| && forall i :: 0 <= i < k ==> FullAt(cs, h, i)
    ensures var pos := ProbePos(h, |cs|, k);
      && t < cs[pos].size && cs[pos].tags[t] == Tag(h)
      && e == Entry(pos * 16 + t, cs[pos].values[t])
  {
    var b := FindExtent(cs, h);
    k := CollectedFrom(cs, h, 0, b, e);
    var pos := ProbePos(h, |cs|, k);
    MatchesExactly(cs[pos], Tag(h), pos, e);
    t := e.slot - pos * 16;
  }

  /** A slot `set` may write: in an existing chunk, at an occupied slot or the chunk's next free one. */
  predicate SetAllowed(cs: seq<Chunk>, slot: nat)
  {
    slot / 16 < |cs| && slot % 16 < CHUNK_CAPACITY && slot % 16 <= cs[slot / 16].size
  }

  /**
   * Every chunk keeps its occupied slots, tags and values, and may gain
   * more: the effect of writing into free slots only.
   */
  predicate Grows(cs: seq<Chunk>, cs': seq<Chunk>)
    requires ChunksValid(cs) && ChunksValid(cs')
  {
    && |cs'| == |cs|
    && forall p :: 0 <= p < |cs| ==>
      && cs[p].size <= cs'[p].size
      && cs'[p].tags[..cs[p].size] == cs[p].tags[..cs[p].size]
      && cs'[p].values[..cs[p].size] == cs[p].values[..cs[p].size]
  }

  /**
   * `set(slot, keyHash, value)`: write the tag of the hash and the value at
   * the slot; writing the chunk's next free slot grows its fill by one.
   */
  function SetSlot(cs: seq<Chunk>, slot: nat, h: nat, v: nat): (r: seq<Chunk>)
    requires ChunksValid(cs) && SetAllowed(cs, slot) && v < VALUE_LIMIT
    ensures |r| == |cs| && ChunksValid(r)
    ensures forall p :: 0 <= p < |cs| && p != slot / 16 ==> r[p] == cs[p]
    ensures r[slot / 16].tags[slot % 16] == Tag(h) && r[slot / 16].values[slot % 16] == v
    ensures r[slot / 16].size == cs[slot / 16].size + (if slot % 16 == cs[slot / 16].size then 1 else 0)
  {
    var pos, t := slot / 16, slot % 16;
    var c := cs[pos];
    cs[pos := Chunk(c.tags[t := Tag(h)], if t == c.size then t + 1 else c.size, c.values[t := v])]
  }

  /**
   * `set` at an occupied slot keeps the fill; at the chunk's next free slot it
   * adds one and only fills a free slot.
   */
  lemma SetSlotFill(cs: seq<Chunk>, slot: nat, h: nat, v: nat)
    requires ChunksValid(cs) && SetAllowed(cs, slot) && v < VALUE_LIMIT
    ensures slot % 16 < cs[slot / 16].size ==> Fill(SetSlot(cs, slot, h, v)) == Fill(cs)
    ensures slot % 16 == cs[slot / 16].size ==>
      Fill(SetSlot(cs, slot, h, v)) == Fill(cs) + 1 && Grows(cs, SetSlot(cs, slot, h, v))
  {
    var pos, t := slot / 16, slot % 16;
    var r := SetSlot(cs, slot, h, v);
    assert r == cs[pos := r[pos]];
    FillUpdate(cs, pos, r[pos]);
    if t == cs[pos].size {
      assert r[pos].tags[..t] == cs[pos].tags[..t];
      assert r[pos].values[..t] == cs[pos].values[..t];
    }
  }

  /** Changing only the chunk at step `k` keeps the chunks before it on the sequence full. */
  lemma FullBeforeKept(cs: seq<Chunk>, cs': seq<Chunk>, h: nat, k: nat)
    requires IsPow2(|cs|) && |cs'| == |cs| && k < |cs|
    requires forall i :: 0 <= i < k ==> FullAt(cs, h, i)
    requires forall p :: 0 <= p < |cs| && p != ProbePos(h, |cs|, k) ==> cs'[p] == cs[p]
    ensures forall i :: 0 <= i < k ==> FullAt(cs', h, i)
  {
    var n := |cs|;
    FullPeriod(h, n);
    forall i | 0 <= i < k
      ensures FullAt(cs', h, i)
    {
      assert ProbePos(h, n, i) != ProbePos(h, n, k);
      assert FullAt(cs, h, i);
    }
  }

  /**
   * Writing a value at the insert slot `find` reported for `h` makes a later
   * `find(h)` report it (the add-then-search pattern of the hash index test).
   */
  lemma InsertIsFound(cs: seq<Chunk>, h: nat, v: nat)
    requires TableValid(cs) && v < VALUE_LIMIT && FindIn(cs, h).slot != NOSLOT
    ensures SetAllowed(cs, FindIn(cs, h).slot)
    ensures FindIn(cs, h).slot % 16 == cs[FindIn(cs, h).slot / 16].size
    ensures Entry(FindIn(cs, h).slot, v) in FindIn(SetSlot(cs, FindIn(cs, h).slot, h, v), h).entries
  {
    var n := |cs|;
    var s := FindIn(cs, h).slot;
    var stop := FindFromShape(cs, h, 0);
    var pos := ProbePos(h, n, stop);
    var t := cs[pos].size;
    assert s == pos * 16 + t;
    ModUnique(s, 16, pos, t);
    var cs' := SetSlot(cs, s, h, v);
    FullBeforeKept(cs, cs', h, stop);
    FoundOnPath(cs', h, stop, t);
  }

  /**
   * A candidate's slot is an occupied one (so overwriting it keeps fill
   * counts, by `SetSlot`), and after the overwrite a later `find(h)` reports
   * the new value at that slot.
   */
  lemma OverwriteIsFound(cs: seq<Chunk>, h: nat, v: nat, e: Entry)
    requires TableValid(cs) && v < VALUE_LIMIT && e in FindIn(cs, h).entries
    ensures SetAllowed(cs, e.slot) && e.slot % 16 < cs[e.slot / 16].size
    ensures Entry(e.slot, v) in FindIn(SetSlot(cs, e.slot, h, v), h).entries
  {
    var n := |cs|;
    var k, t := CandidatePlace(cs, h, e);
    var pos := ProbePos(h, n, k);
    assert e.slot == pos * 16 + t && t < cs[pos].size;
    ModUnique(e.slot, 16, pos, t);
    var cs' := SetSlot(cs, e.slot, h, v);
    assert cs'[pos].size == cs[pos].size && cs'[pos].tags[t] == Tag(h) && cs'[pos].values[t] == v;
    FullBeforeKept(cs, cs', h, k);
    FoundOnPath(cs', h, k, t);
  }

  /** Candidates survive any change that only fills free slots. */
  lemma CandidatesPersist(cs: seq<Chunk>, cs': seq<Chunk>, h: nat, e: Entry)
    requires TableValid(cs) && TableValid(cs') && Grows(cs, cs')
    requires e in FindIn(cs, h).entries
    ensures e in FindIn(cs', h).entries
  {
    var n := |cs|;
    var k, t := CandidatePlace(cs, h, e);
    var pos := ProbePos(h, n, k);
    forall i | 0 <= i < k
      ensures FullAt(cs', h, i)
    {
      assert FullAt(cs, h, i);
    }
    assert cs'[pos].tags[..cs[pos].size][t] == cs[pos].tags[..cs[pos].size][t];
    assert cs'[pos].values[..cs[pos].size][t] == cs[pos].values[..cs[pos].size][t];
    FoundOnPath(cs', h, k, t);
  }

  /** `add(keyHash, value)` on the table as a value: `set` at the slot `find` reports, if any. */
  function Added(cs: seq<Chunk>, h: nat, v: nat): (r: seq<Chunk>)
    requires TableValid(cs) && v < VALUE_LIMIT
    ensures TableValid(r)
  {
    var slot := FindIn(cs, h).slot;
    if slot == NOSLOT then cs
    else
      InsertIsFound(cs, h, v);
      SetSlot(cs, slot, h, v)
  }

  /** An `add` that finds room fills one more slot and only fills a free one. */
  lemma AddedGrows(cs: seq<Chunk>, h: nat, v: nat)
    requires TableValid(cs) && v < VALUE_LIMIT && FindIn(cs, h).slot != NOSLOT
    ensures Fill(Added(cs, h, v)) == Fill(cs) + 1 && Grows(cs, Added(cs, h, v))
  {
    InsertIsFound(cs, h, v);
    SetSlotFill(cs, FindIn(cs, h).slot, h, v);
  }

  predicate ValuesFit(keys: seq<(nat, nat)>)
  {
    forall i :: 0 <= i < |keys| ==> keys[i].1 < VALUE_LIMIT
  }

  /** A sequence of `add(hash_i, value_i)` calls, in order. */
  function AddAll(cs: seq<Chunk>, keys: seq<(nat, nat)>): (r: seq<Chunk>)
    requires TableValid(cs) && ValuesFit(keys)
    ensures TableValid(r) && |r| == |cs|
    decreases |keys|
  {
    if |keys| == 0 then cs
    else
      var last := keys[|keys| - 1];
      Added(AddAll(cs, keys[..|keys| - 1]), last.0, last.1)
  }

  /** While the table has room, every `add` succeeds and grows the fill by one. */
  lemma {:induction false} AddAllFill(cs: seq<Chunk>, keys: seq<(nat, nat)>)
    requires TableValid(cs) && ValuesFit(keys)
    requires Fill(cs) + |keys| <= CHUNK_CAPACITY * |cs|
    ensures Fill(AddAll(cs, keys)) == Fill(cs) + |keys|
    ensures Grows(cs, AddAll(cs, keys))
    decreases |keys|
  {
    if |keys| > 0 {
      var front := keys[..|keys| - 1];
      var last := keys[|keys| - 1];
      AddAllFill(cs, front);
      var before := AddAll(cs, front);
      RoomBelowCapacity(before);
      AddedGrows(before, last.0, last.1);
      assert AddAll(cs, keys) == Added(before, last.0, last.1);
      GrowsTransitive(cs, before, AddAll(cs, keys));
    }
  }

  lemma GrowsTransitive(a: seq<Chunk>, b: seq<Chunk>, c: seq<Chunk>)
    requires ChunksValid(a) && ChunksValid(b) && ChunksValid(c)
    requires Grows(a, b) && Grows(b, c)
    ensures Grows(a, c)
  {
    forall p | 0 <= p < |a|
      ensures c[p].tags[..a[p].size] == a[p].tags[..a[p].size]
      ensures c[p].values[..a[p].size] == a[p].values[..a[p].size]
    {
      assert c[p].tags[..a[p].size] == c[p].tags[..b[p].size][..a[p].size];
      assert c[p].values[..a[p].size] == c[p].values[..b[p].size][..a[p].size];
    }
  }

  /**
   * After adding `N` keys to a table with room for them, a `find` for any of
   * the added hashes reports a candidate holding that key's value.
   */
  lemma {:induction false} AddAllFinds(cs: seq<Chunk>, keys: seq<(nat, nat)>, i: nat) returns (slot: nat)
    requires TableValid(cs) && ValuesFit(keys)
    requires Fill(cs) + |keys| <= CHUNK_CAPACITY * |cs|
    requires i < |keys|
    ensures Entry(slot, keys[i].1) in FindIn(AddAll(cs, keys), keys[i].0).entries
    decreases |keys|
  {
    var front := keys[..|keys| - 1];
    var last := keys[|keys| - 1];
    AddAllFill(cs, front);
    var before := AddAll(cs, front);
    RoomBelowCapacity(before);
    assert AddAll(cs, keys) == Added(before, last.0, last.1);
    if i == |keys| - 1 {
      InsertIsFound(before, last.0, last.1);
      slot := FindIn(before, last.0).slot;
    } else {
      AddedGrows(before, last.0, last.1);
      slot := AddAllFinds(cs, front, i);
      assert front[i] == keys[i];
      CandidatesPersist(before, AddAll(cs, keys), keys[i].0, Entry(slot, keys[i].1));
    }
  }

  /** `(capacity * 14 / 12 + 11) / 12`: the chunks needed to stay under the load factor. */
  function MinChunks(capacity: nat): (m: nat)
    ensures m * CHUNK_CAPACITY * 12 >= capacity * 14 - 11
  {
    (capacity * 14 / 12 + CHUNK_CAPACITY - 1) / CHUNK_CAPACITY
  }

  lemma {:induction false} FillEmpty(cs: seq<Chunk>)
    requires forall p :: 0 <= p < |cs| ==> cs[p] == EMPTY_CHUNK
    ensures Fill(cs) == 0 && ChunksValid(cs)
    decreases |cs|
  {
    if |cs| > 0 {
      FillEmpty(cs[..|cs| - 1]);
    }
  }

  /**
   * `HashIndex`: the chunk array, its length, the number of occupied slots
   * and the load limit. An index built for capacity 0 has no chunks.
   */
  class HashIndex {
    var size: nat
    var maxSize: nat
    var numChunks: nat
    var chunks: array<Chunk>

    /** The chunks are a valid table (or none), `size` counts occupied slots, `maxSize` is 12/14 of the capacity. */
    ghost predicate Valid()
      reads this, chunks
    {
      && chunks.Length == numChunks
      && (numChunks == 0 || TableValid(chunks[..]))
      && size == Fill(chunks[..])
      && maxSize == numChunks * CHUNK_CAPACITY * 12 / 14
    }

    /**
     * `HashIndex(capacity)`: the smallest power of two of chunks that is at
     * least `MinChunks(capacity)`, all zeroed; none when that is 0.
     */
    constructor (capacity: nat)
      requires 2 * MinChunks(capacity) <= MAX_CHUNKS
      ensures Valid() && size == 0
      ensures MinChunks(capacity) == 0 ==> numChunks == 0
      ensures MinChunks(capacity) > 0 ==>
        IsPow2(numChunks) && MinChunks(capacity) <= numChunks < 2 * MinChunks(capacity)
      ensures forall p :: 0 <= p < numChunks ==> chunks[p] == EMPTY_CHUNK
    {
      var minChunk := MinChunks(capacity);
      size := 0;
      if minChunk == 0 {
        maxSize := 0;
        numChunks := 0;
        chunks := new Chunk[0];
      } else {
        var nc := 1;
        while nc < minChunk
          invariant IsPow2(nc) && nc < 2 * minChunk
          decreases minChunk - nc
        {
          nc := nc * 2;
        }
        var a := new Chunk[nc](_ => EMPTY_CHUNK);
        FillEmpty(a[..]);
        chunks := a;
        numChunks := nc;
        maxSize := nc * CHUNK_CAPACITY * 12 / 14;
      }
    }

    /** `capacity()`: 12 slots per chunk; it bounds both the fill and the load limit. */
    function Capacity(): (r: nat)
      reads this, chunks
      requires Valid()
      ensures size <= r && maxSize <= r
      ensures numChunks > 0 ==> maxSize < r
    {
      FillBound(chunks[..]);
      numChunks * CHUNK_CAPACITY
    }

    /**
     * `need_rehash()`: the fill has reached the load limit. Below it, every
     * key hash has an insert slot, so `find` never reports `NOSLOT` and `add`
     * never fails.
     */
    function NeedRehash(): (r: bool)
      reads this, chunks
      requires Valid()
      ensures r <==> size >= maxSize
      ensures !r ==> numChunks > 0 && forall h :: FindIn(chunks[..], h).slot != NOSLOT
    {
      if size >= maxSize then true
      else
        FillBound(chunks[..]);
        RoomBelowCapacity(chunks[..]);
        false
    }

    /**
     * `find(keyHash, entries)`: appends the candidates of every chunk visited
     * to `entries` and reports the insert slot, or `NOSLOT`.
     */
    method Find(h: nat, entries: seq<Entry>) returns (slot: nat, found: seq<Entry>)
      requires Valid() && numChunks > 0
      ensures slot == FindIn(chunks[..], h).slot
      ensures found == entries + FindIn(chunks[..], h).entries
    {
      ghost var cs := chunks[..];
      var n := numChunks;
      var tag := h % 256;
      if tag == 0 {
        tag := 1;
      }
      var pos := (h / 256) % n;
      var origPos := pos;
      ghost var j := 0;
      found := entries;
      while true
        invariant j < n && pos == ProbePos(h, n, j)
        invariant found + FindFrom(cs, h, j).entries == entries + FindIn(cs, h).entries
        invariant FindFrom(cs, h, j).slot == FindIn(cs, h).slot
        decreases n - j
      {
        var chunk := chunks[pos];
        ghost var before := found;
        found := CollectMatches(chunk, tag, pos, found);
        if chunk.size == CHUNK_CAPACITY {
          var step := tag * 2 + 1;
          pos := (pos + step) % n;
          if pos == origPos {
            WalkEnds(cs, h, j, before);
            return NOSLOT, found;
          }
          WalkOn(cs, h, j, before);
          j := j + 1;
        } else {
          WalkEnds(cs, h, j, before);
          return pos * 16 + chunk.size, found;
        }
      }
    }

    /**
     * `add(keyHash, value)`: walks the probe sequence like `find` and appends
     * the tag and value to the first chunk with room (the same writes `set`
     * makes at that chunk's next free slot); false when it comes back home.
     */
    method Add(h: nat, value: nat) returns (added: bool)
      requires Valid() && numChunks > 0 && value < VALUE_LIMIT
      modifies this, chunks
      ensures Valid() && chunks == old(chunks) && numChunks == old(numChunks) && maxSize == old(maxSize)
      ensures added <==> FindIn(old(chunks[..]), h).slot != NOSLOT
      ensures chunks[..] == Added(old(chunks[..]), h, value)
      ensures size == old(size) + (if added then 1 else 0)
    {
      var pos, room := FirstWithRoom(h);
      if !room {
        return false;
      }
      var slot := pos * 16 + chunks[pos].size;
      InsertIsFound(chunks[..], h, value);
      Set(slot, h, value);
      return true;
    }

    /**
     * The probe loop of `add`: the first chunk with room on the probe
     * sequence of `h`, or none after coming back to the home chunk.
     */
    method FirstWithRoom(h: nat) returns (pos: nat, room: bool)
      requires Valid() && numChunks > 0
      ensures room ==> pos < numChunks && FindIn(chunks[..], h).slot == pos * 16 + chunks[pos].size
      ensures !room ==> FindIn(chunks[..], h).slot == NOSLOT
    {
      ghost var cs := chunks[..];
      var n := numChunks;
      var tag := h % 256;
      if tag == 0 {
        tag := 1;
      }
      pos := (h / 256) % n;
      var origPos := pos;
      ghost var j := 0;
      while true
        invariant j < n && pos == ProbePos(h, n, j)
        invariant FindFrom(cs, h, j).slot == FindIn(cs, h).slot
        decreases n - j
      {
        var chunk := chunks[pos];
        if chunk.size == CHUNK_CAPACITY {
          var step := tag * 2 + 1;
          pos := (pos + step) % n;
          if pos == origPos {
            WalkEnds(cs, h, j, []);
            return pos, false;
          }
          WalkOn(cs, h, j, []);
          j := j + 1;
        } else {
          WalkEnds(cs, h, j, []);
          return pos, true;
        }
      }
    }

    /**
     * `set(slot, keyHash, value)`: writes the tag and value at a slot a
     * `find` reported; a write at the chunk's next free slot grows the chunk
     * and `size` by one. The source does not check the slot; `SetAllowed`
     * admits the slots `find` hands out (a used one or the next free one),
     * which are the only ones its callers pass.
     */
    method Set(slot: nat, h: nat, value: nat)
      requires Valid() && SetAllowed(chunks[..], slot) && value < VALUE_LIMIT
      modifies this, chunks
      ensures Valid() && chunks == old(chunks) && numChunks == old(numChunks) && maxSize == old(maxSize)
      ensures chunks[..] == SetSlot(old(chunks[..]), slot, h, value)
      ensures size == old(size) + (if slot % 16 == old(chunks[slot / 16].size) then 1 else 0)
    {
      ghost var cs := chunks[..];
      var pos := slot / 16;
      var tpos := slot % 16;
      var chunk := chunks[pos];
      var tag := h % 256;
      if tag == 0 {
        tag := 1;
      }
      chunk := chunk.(tags := chunk.tags[tpos := tag], values := chunk.values[tpos := value]);
      if tpos == chunk.size {
        chunk := chunk.(size := tpos + 1);
        size := size + 1;
      }
      chunks[pos] := chunk;
      assert chunks[..] == cs[pos := chunk];
      assert chunks[..] == SetSlot(cs, slot, h, value);
      SetSlotFill(cs, slot, h, value);
    }
  }

  /** The inner loop of `find`: append the candidates of one chunk, lowest slot first. */
  method CollectMatches(chunk: Chunk, tag: nat, pos: nat, entries: seq<Entry>) returns (found: seq<Entry>)
    requires ChunkValid(chunk)
    ensures found == entries + Matches(chunk, tag, pos)
  {
    found := entries;
    var i := 0;
    while i < CHUNK_CAPACITY
      invariant i <= CHUNK_CAPACITY
      invariant found + Scan(chunk.tags[i..], chunk.values[i..], tag, pos * 16 + i) == entries + Matches(chunk, tag, pos)
    {
      assert chunk.tags[i..][1..] == chunk.tags[i + 1..];
      assert chunk.values[i..][1..] == chunk.values[i + 1..];
      if chunk.tags[i] == tag {
        found := found + [Entry(pos * 16 + i, chunk.values[i])];
      }
      i := i + 1;
    }
  }
}
