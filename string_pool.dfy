/**
 * The string pool of string_pool.h / string_pool.cpp.
 *
 * An `SString` is a piece of memory: a two-byte little-endian length, the
 * string's bytes, and zero padding up to a multiple of 8. Its comparisons
 * are functions of that memory image. `MString::create` builds one image in
 * fresh memory. The `StringPool` is an append-only store of such images in
 * segments of 1 MiB; a string id (sid) is the image's offset in 8-byte
 * units, ids 0 (null) and 1 (the empty string) are reserved, and growing
 * the segment vector past its capacity copies the pool (copy-on-write).
 */
module StringPools {
  import opened Common
  import Slices

  /** `StringPool::kSegmentSize`, 1 << 20. */
  const SEGMENT_SIZE: nat := 0x10_0000
  /** `StringPool::NullId`. */
  const NULL_ID: nat := 0
  /** `StringPool::EmptyId`. */
  const EMPTY_ID: nat := 1
  /** `SString::MaxLength`, 1 << 16: lengths are stored in two bytes. */
  const MAX_LENGTH: nat := 0x1_0000
  /** Segments a 32-bit sid can address: 2^32 * 8 bytes / `SEGMENT_SIZE`. */
  const MAX_SEGMENTS: nat := 0x8000

  // ---------------------------------------------------------------------
  // SString images
  // ---------------------------------------------------------------------

  /** The image of `s`: its length in two bytes, its bytes, zeros up to a multiple of 8. */
  function Record(s: Bytes): (r: Bytes)
    requires |s| < MAX_LENGTH
    ensures |r| == Padding8(|s| + 2) && |r| >= 8
  {
    LE16(|s|) + s + Zeros(Padding8(|s| + 2) - |s| - 2)
  }

  /** Byte `i` of the image of `s`: the length field, then `s`, then zeros. */
  lemma RecordAt(s: Bytes, i: nat)
    requires |s| < MAX_LENGTH && i < |Record(s)|
    ensures Record(s)[i] == if i < 2 then LE16(|s|)[i] else if i < 2 + |s| then s[i - 2] else 0
  {
    var r := Record(s);
    if i < 2 {
      assert r[i] == (LE16(|s|) + s)[i];
    } else if i < 2 + |s| {
      assert r[i] == (LE16(|s|) + s)[i];
    }
  }

  /** `SString::len`: the first two bytes of the image. */
  function SLen(m: Bytes): nat
    requires |m| >= 2
  {
    ReadLE16(m, 0)
  }

  /** An image as the pool and `MString::create` lay it out: padded to 8 bytes with zeros. */
  predicate WellFormed(m: Bytes)
  {
    && |m| >= 2
    && |m| == Padding8(SLen(m) + 2)
    && forall i :: SLen(m) + 2 <= i < |m| ==> m[i] == 0
  }

  /** `SString::to_string`: the `len` bytes after the length. */
  function SContent(m: Bytes): Bytes
    requires WellFormed(m)
  {
    m[2..2 + SLen(m)]
  }

  /** The image of `s` is well formed and reads back length `|s|` and content `s`. */
  lemma RecordReadsBack(s: Bytes)
    requires |s| < MAX_LENGTH
    ensures WellFormed(Record(s)) && SLen(Record(s)) == |s| && SContent(Record(s)) == s
  {
    var r := Record(s);
    assert r[..2] == LE16(|s|);
    LE16RoundTrip(|s|, r, 0);
    assert r[2..2 + |s|] == s;
  }

  lemma Digits256(x0: nat, x1: nat, y0: nat, y1: nat)
    requires x0 < 256 && y0 < 256 && x0 + 256 * x1 == y0 + 256 * y1
    ensures x0 == y0 && x1 == y1
  {
  }

  /** Two bytes are determined by the little-endian number they spell. */
  lemma LE16Digits(a0: byte, a1: byte, b0: byte, b1: byte)
    requires a0 as nat + 256 * a1 as nat == b0 as nat + 256 * b1 as nat
    ensures a0 == b0 && a1 == b1
  {
    ByteBound(a0);
    ByteBound(b0);
    Digits256(a0 as nat, a1 as nat, b0 as nat, b1 as nat);
  }

  /** Two images with the same length field agree on their first two bytes. */
  lemma SameLengthField(m: Bytes, r: Bytes)
    requires |m| >= 2 && |r| >= 2 && SLen(m) == SLen(r)
    ensures m[..2] == r[..2]
  {
    LE16Digits(m[0], m[1], r[0], r[1]);
  }

  /** Two well-formed images of the same length agree on their padding. */
  lemma SamePadding(m: Bytes, r: Bytes)
    requires WellFormed(m) && WellFormed(r) && SLen(m) == SLen(r)
    ensures m[2 + SLen(m)..] == r[2 + SLen(m)..]
  {
  }

  /** A well-formed image is the image of its content: nothing else is stored in it. */
  lemma RecordOfContent(m: Bytes)
    requires WellFormed(m)
    ensures SLen(m) < MAX_LENGTH && m == Record(SContent(m))
  {
    var s := SContent(m);
    var r := Record(s);
    RecordReadsBack(s);
    SameLengthField(m, r);
    SamePadding(m, r);
    EqualByParts(m, r, 2, 2 + |s|);
  }

  // ---------------------------------------------------------------------
  // SString::operator==: a word loop over the left-hand image
  // ---------------------------------------------------------------------

  /**
   * The loop of `operator==` from word `k` on: words are compared while the
   * word's start lies before the end of the left-hand string.
   */
  function WordsEqualFrom(a: Bytes, b: Bytes, k: nat): bool
    requires WellFormed(a) && |b| == |a|
    decreases |a| - 8 * k
  {
    if 8 * k >= SLen(a) + 2 then true
    else a[8 * k..8 * k + 8] == b[8 * k..8 * k + 8] && WordsEqualFrom(a, b, k + 1)
  }

  /** `SString::operator==`: the first words (length and six bytes) agree, then the rest of `a`'s words. */
  function Equal(a: Bytes, b: Bytes): bool
    requires WellFormed(a) && WellFormed(b)
  {
    if a[..8] != b[..8] then false
    else
      assert SLen(a) == SLen(b) by {
        assert a[0] == a[..8][0] && a[1] == a[..8][1];
      }
      WordsEqualFrom(a, b, 1)
  }

  /** The word loop from `k` succeeds exactly when the images agree from byte `8k` on. */
  lemma {:induction false} WordsEqualFromIff(a: Bytes, b: Bytes, k: nat)
    requires WellFormed(a) && |b| == |a| && 8 * k <= |a|
    ensures WordsEqualFrom(a, b, k) <==> a[8 * k..] == b[8 * k..]
    decreases |a| - 8 * k
  {
    var m := |a| / 8;
    assert |a| == 8 * m;
    if 8 * k < SLen(a) + 2 {
      assert k < m;
      WordsEqualFromIff(a, b, k + 1);
      assert a[8 * k..] == a[8 * k..8 * k + 8] + a[8 * k + 8..];
      assert b[8 * k..] == b[8 * k..8 * k + 8] + b[8 * k + 8..];
    } else {
      assert k == m;
    }
  }

  /** Two well-formed images are the same exactly when their lengths and contents are. */
  lemma SameImageIff(a: Bytes, b: Bytes)
    requires WellFormed(a) && WellFormed(b)
    ensures a == b <==> SLen(a) == SLen(b) && SContent(a) == SContent(b)
  {
    if SLen(a) == SLen(b) && SContent(a) == SContent(b) {
      RecordOfContent(a);
      RecordOfContent(b);
    }
  }

  /** On well-formed images, the word loop of `==` holds iff the images are the same. */
  lemma EqualIsSame(a: Bytes, b: Bytes)
    requires WellFormed(a) && WellFormed(b)
    ensures Equal(a, b) <==> a == b
  {
    if a[..8] == b[..8] {
      WordsEqualFromIff(a, b, 1);
      assert a == a[..8] + a[8..];
      assert b == b[..8] + b[8..];
    }
  }

  /** On well-formed images, `==` holds iff the lengths and the bytes agree. */
  lemma EqualIff(a: Bytes, b: Bytes)
    requires WellFormed(a) && WellFormed(b)
    ensures Equal(a, b) <==> SLen(a) == SLen(b) && SContent(a) == SContent(b)
  {
    SameImageIff(a, b);
    EqualIsSame(a, b);
  }

  // ---------------------------------------------------------------------
  // SString ordering (left-hand length at most the right-hand one)
  // ---------------------------------------------------------------------

  /** `memcmp(str, rhs.str, len)` with `len` the left-hand length. */
  function PrefixCompare(a: Bytes, b: Bytes): (r: int)
    requires WellFormed(a) && WellFormed(b) && SLen(a) <= SLen(b)
    ensures -1 <= r <= 1
  {
    Slices.MemCompare(SContent(a), SContent(b), SLen(a))
  }

  /** `SString::operator<`: a prefix sorts before every longer string. */
  predicate Less(a: Bytes, b: Bytes)
    requires WellFormed(a) && WellFormed(b) && SLen(a) <= SLen(b)
  {
    if SLen(a) < SLen(b) then PrefixCompare(a, b) <= 0 else PrefixCompare(a, b) < 0
  }

  /** `SString::operator>`: `rhs < *this`. */
  predicate Greater(a: Bytes, b: Bytes)
    requires WellFormed(a) && WellFormed(b) && SLen(b) <= SLen(a)
  {
    Less(b, a)
  }

  /** `SString::operator<=`: `!(*this > rhs)`. */
  predicate LessEq(a: Bytes, b: Bytes)
    requires WellFormed(a) && WellFormed(b) && SLen(b) <= SLen(a)
  {
    !Greater(a, b)
  }

  /** `SString::operator>=`: `!(*this < rhs)`. */
  predicate GreaterEq(a: Bytes, b: Bytes)
    requires WellFormed(a) && WellFormed(b) && SLen(a) <= SLen(b)
  {
    !Less(a, b)
  }

  /** `SString::cmp`: memcmp of the left-hand length; a tie with a longer right-hand side is -1. */
  function Cmp(a: Bytes, b: Bytes): (r: int)
    requires WellFormed(a) && WellFormed(b) && SLen(a) <= SLen(b)
    ensures -1 <= r <= 1
  {
    var ret := PrefixCompare(a, b);
    if SLen(a) < SLen(b) && ret == 0 then -1 else ret
  }

  /** `cmp` agrees with the three-way `Slice::compare` of the two strings' bytes. */
  lemma CmpIsCompare(a: Bytes, b: Bytes)
    requires WellFormed(a) && WellFormed(b) && SLen(a) <= SLen(b)
    ensures Cmp(a, b) == Slices.Compare(SContent(a), SContent(b))
  {
  }

  /**
   * `<` is the lexicographic order on the strings' bytes, and agrees with
   * `cmp`; `>=` is its complement.
   */
  lemma LessIsLexicographic(a: Bytes, b: Bytes)
    requires WellFormed(a) && WellFormed(b) && SLen(a) <= SLen(b)
    ensures Less(a, b) <==> Slices.LexLess(SContent(a), SContent(b))
    ensures Less(a, b) <==> Cmp(a, b) < 0
    ensures GreaterEq(a, b) <==> !Slices.LexLess(SContent(a), SContent(b))
  {
    CmpIsCompare(a, b);
    Slices.CompareIsLexicographic(SContent(a), SContent(b));
  }

  /** `cmp` is zero exactly for equal strings, so exactly when `==` holds. */
  lemma CmpZeroIffEqual(a: Bytes, b: Bytes)
    requires WellFormed(a) && WellFormed(b) && SLen(a) <= SLen(b)
    ensures Cmp(a, b) == 0 <==> Equal(a, b)
  {
    CmpIsCompare(a, b);
    Slices.CompareIsLexicographic(SContent(a), SContent(b));
    EqualIff(a, b);
  }

  /** A proper prefix sorts first ("abcdefg" < "abcdefg hijklmn"), and so does the empty string. */
  lemma PrefixIsLess(a: Bytes, b: Bytes)
    requires WellFormed(a) && WellFormed(b) && SLen(a) < SLen(b)
    requires SContent(b)[..SLen(a)] == SContent(a)
    ensures Less(a, b)
  {
    assert SContent(a)[..SLen(a)] == SContent(b)[..SLen(a)];
  }

  // ---------------------------------------------------------------------
  // MString::create
  // ---------------------------------------------------------------------

  /** `SString::Empty`: a zero length and six zero bytes. */
  function EmptyImage(): (m: Bytes)
    ensures WellFormed(m) && SLen(m) == 0 && SContent(m) == []
  {
    RecordReadsBack([]);
    Record([])
  }

  /** The size of the memory `MString::create` allocates for `n` bytes. */
  function AllocSize(n: nat): (r: nat)
    ensures r == Padding8(n + 2) && r >= 8 && r - 8 <= n + 2
  {
    Padding8(n + 2)
  }

  /**
   * The memory `MString::create` leaves, in its order of writes: the length,
   * then a zero last word, then the bytes.
   */
  function CreatedAsWritten(str: Bytes, garbage: Bytes): (m: Bytes)
    requires 0 < |str| < MAX_LENGTH && |garbage| == AllocSize(|str|)
  {
    var slen := AllocSize(|str|);
    Overwrite(Overwrite(Overwrite(garbage, 0, LE16(|str|)), slen - 8, Zeros(8)), 2, str)
  }

  /**
   * `MString::create(str)` as written: for a non-empty input, fresh memory
   * (arbitrary contents, `garbage`) receives the length, then a zeroed last
   * word, then the bytes; an empty input gives the shared `Empty`.
   */
  method CreateMStringAsWritten(str: Bytes, garbage: Bytes) returns (m: Bytes)
    requires |str| < MAX_LENGTH && |garbage| == AllocSize(|str|)
    ensures |str| == 0 ==> m == EmptyImage()
    ensures |str| > 0 ==> m == CreatedAsWritten(str, garbage)
  {
    if |str| == 0 {
      return EmptyImage();
    }
    var slen := AllocSize(|str|);
    var ret := new byte[slen](i requires 0 <= i < slen => garbage[i]);
    assert ret[..] == garbage;
    WriteAsWritten(ret, str);
    m := ret[..];
  }

  /** The three writes of `MString::create`, in its order. */
  method WriteAsWritten(ret: array<byte>, str: Bytes)
    requires 0 < |str| < MAX_LENGTH && ret.Length == AllocSize(|str|)
    modifies ret
    ensures ret[..] == CreatedAsWritten(str, old(ret[..]))
  {
    ghost var g := ret[..];
    CopyInto(ret, 0, LE16(|str|));
    ghost var a1 := ret[..];
    CopyInto(ret, ret.Length - 8, Zeros(8));
    ghost var a2 := ret[..];
    CopyInto(ret, 2, str);
    assert a1 == Overwrite(g, 0, LE16(|str|)) && a2 == Overwrite(a1, ret.Length - 8, Zeros(8));
  }

  /**
   * For 1 to 6 bytes the allocation is one word, so zeroing the last word
   * wipes the length written before it: "abc" comes back with length 0.
   */
  lemma ShortMStringLosesLength(str: Bytes, garbage: Bytes)
    requires 0 < |str| <= 6 && |garbage| == AllocSize(|str|)
    ensures SLen(CreatedAsWritten(str, garbage)) == 0 != |str|
  {
    var a1 := Overwrite(garbage, 0, LE16(|str|));
    var a2 := Overwrite(a1, 0, Zeros(8));
    var a3 := Overwrite(a2, 2, str);
    assert AllocSize(|str|) == 8;
    assert a3[..2] == a2[..2] == Zeros(8)[..2];
    assert a3[0] == a3[..2][0] && a3[1] == a3[..2][1];
  }

  /**
   * The memory `MString::create` leaves when the last word is zeroed before
   * the length and bytes are written, as `StringPool::add_unsafe` orders its
   * writes.
   */
  function Created(str: Bytes, garbage: Bytes): (m: Bytes)
    requires 0 < |str| < MAX_LENGTH && |garbage| == AllocSize(|str|)
  {
    var slen := AllocSize(|str|);
    Overwrite(Overwrite(Overwrite(garbage, slen - 8, Zeros(8)), 0, LE16(|str|)), 2, str)
  }

  /** Zeroing first leaves exactly the image of the input, whatever the memory held. */
  lemma CreatedIsRecord(str: Bytes, garbage: Bytes)
    requires 0 < |str| < MAX_LENGTH && |garbage| == AllocSize(|str|)
    ensures Created(str, garbage) == Record(str)
  {
    var n, slen := |str|, AllocSize(|str|);
    var b1 := Overwrite(garbage, slen - 8, Zeros(8));
    var b2 := Overwrite(b1, 0, LE16(n));
    var b3 := Overwrite(b2, 2, str);
    forall i | 0 <= i < slen
      ensures b3[i] == Record(str)[i]
    {
      RecordAt(str, i);
    }
  }

  /**
   * `MString::create(str)` with the last word zeroed first: the result is
   * the image of `str`, reading back its length and bytes.
   */
  method CreateMString(str: Bytes, garbage: Bytes) returns (m: Bytes)
    requires |str| < MAX_LENGTH && |garbage| == AllocSize(|str|)
    ensures WellFormed(m) && SLen(m) == |str| && SContent(m) == str
  {
    if |str| == 0 {
      return EmptyImage();
    }
    var slen := AllocSize(|str|);
    var ret := new byte[slen](i requires 0 <= i < slen => garbage[i]);
    assert ret[..] == garbage;
    WriteZeroFirst(ret, str);
    m := ret[..];
    CreatedIsRecord(str, garbage);
    RecordReadsBack(str);
  }

  /** The writes of the corrected `MString::create`: the last word zeroed first. */
  method WriteZeroFirst(ret: array<byte>, str: Bytes)
    requires 0 < |str| < MAX_LENGTH && ret.Length == AllocSize(|str|)
    modifies ret
    ensures ret[..] == Created(str, old(ret[..]))
  {
    ghost var g := ret[..];
    CopyInto(ret, ret.Length - 8, Zeros(8));
    ghost var b1 := ret[..];
    CopyInto(ret, 0, LE16(|str|));
    ghost var b2 := ret[..];
    CopyInto(ret, 2, str);
    assert b1 == Overwrite(g, ret.Length - 8, Zeros(8)) && b2 == Overwrite(b1, 0, LE16(|str|));
  }

  // ---------------------------------------------------------------------
  // StringPool: what the segments hold
  // ---------------------------------------------------------------------

  /** A place in the pool: a segment and a byte offset in it (the pointer `get` returns). */
  datatype Loc = Loc(seg: nat, off: nat)

  /** The place of string id `sid`: byte `sid * 8` of the concatenated segments. */
  function LocOf(sid: nat): (l: Loc)
    ensures l.off < SEGMENT_SIZE && l.off % 8 == 0
    ensures sid * 8 == l.seg * SEGMENT_SIZE + l.off
  {
    Loc(sid * 8 / SEGMENT_SIZE, sid * 8 % SEGMENT_SIZE)
  }

  /** The id of the image at byte `off` of segment `seg`. */
  lemma LocOfId(seg: nat, off: nat)
    requires off < SEGMENT_SIZE && off % 8 == 0
    ensures (seg * SEGMENT_SIZE + off) / 8 * 8 == seg * SEGMENT_SIZE + off
    ensures LocOf((seg * SEGMENT_SIZE + off) / 8) == Loc(seg, off)
  {
    var sid := (seg * SEGMENT_SIZE + off) / 8;
    assert sid == seg * 0x2_0000 + off / 8;
  }

  /**
   * The place `get` computes as written: `sid * 8` multiplies a `uint32_t`
   * in 32-bit arithmetic, so the offset is taken modulo 2^32 before it is
   * widened to `size_t`.
   */
  function LocAsWritten(sid: nat): (l: Loc)
    ensures l.off < SEGMENT_SIZE && l.seg < 0x1000
  {
    var offset := sid * 8 % 0x1_0000_0000;
    Loc(offset / SEGMENT_SIZE, offset % SEGMENT_SIZE)
  }

  /**
   * For every 32-bit id, `get` as written finds the place of the id exactly
   * when the id lies below 2^29, that is, in one of the first 4096 segments.
   */
  lemma LocAsWrittenIff(sid: nat)
    requires sid < 0x1_0000_0000
    ensures LocAsWritten(sid) == LocOf(sid) <==> sid < 0x2000_0000
  {
    if sid < 0x2000_0000 {
      assert sid * 8 < 0x1_0000_0000;
      assert sid * 8 % 0x1_0000_0000 == sid * 8;
    } else {
      assert sid * 8 >= 0x1_0000_0000;
      assert LocOf(sid).seg >= 0x1000;
    }
  }

  /**
   * The string at the start of segment 4096 has id 2^29, and `get` as
   * written looks for it at the start of segment 0, the zeroed head that
   * no string occupies.
   */
  lemma GetAsWrittenWraps()
    ensures LocOf(0x2000_0000) == Loc(0x1000, 0)
    ensures LocAsWritten(0x2000_0000) == Loc(0, 0)
  {
    LocOfId(0x1000, 0);
    assert (0x1000 * SEGMENT_SIZE + 0) / 8 == 0x2000_0000;
  }

  /** The image of `s` lies, whole, inside one segment at the place of `sid`. */
  predicate StoredAt(mem: seq<Bytes>, sid: nat, s: Bytes)
  {
    var l := LocOf(sid);
    && |s| < MAX_LENGTH
    && l.seg < |mem| && l.off + AllocSize(|s|) <= |mem[l.seg]|
    && mem[l.seg][l.off..l.off + AllocSize(|s|)] == Record(s)
  }

  /** The image of `s` at `sid` ends at or before the write cursor. */
  predicate BeforeCursor(sid: nat, s: Bytes, curSeg: nat, curLen: nat)
  {
    var l := LocOf(sid);
    l.seg < curSeg || (l.seg == curSeg && l.off + AllocSize(|s|) <= curLen)
  }

  /** The image of `s` is stored at `sid`, before the cursor. */
  predicate Placed(mem: seq<Bytes>, sid: nat, s: Bytes, curSeg: nat, curLen: nat)
  {
    StoredAt(mem, sid, s) && BeforeCursor(sid, s, curSeg, curLen)
  }

  /**
   * The strings added so far, by id, are stored before the cursor; id 1 is
   * the empty string and id 0 names none.
   */
  predicate Holds(mem: seq<Bytes>, curSeg: nat, curLen: nat, strings: map<nat, Bytes>)
  {
    && EMPTY_ID in strings && strings[EMPTY_ID] == []
    && NULL_ID !in strings
    && forall sid {:trigger Placed(mem, sid, strings[sid], curSeg, curLen)} :: sid in strings ==>
         Placed(mem, sid, strings[sid], curSeg, curLen)
  }

  /** The image of the empty string is one zero word. */
  lemma EmptyRecordIsZeros()
    ensures Record([]) == Zeros(8)
  {
    assert LE16(0) == [0, 0];
  }

  /**
   * The first 16 bytes zeroed and the cursor at 16: ids 0 and 1 are
   * reserved, and id 1 reads as the empty string.
   */
  lemma HoldsInitially(seg: Bytes)
    requires |seg| == SEGMENT_SIZE && seg[..16] == Zeros(16)
    ensures Holds([seg], 0, 16, map[EMPTY_ID := []])
  {
    EmptyRecordIsZeros();
    assert LocOf(EMPTY_ID) == Loc(0, 8);
    assert seg[8..16] == seg[..16][8..16];
  }

  /** Opening a new segment keeps every string in place, behind the new cursor. */
  lemma HoldsAfterNewSegment(mem: seq<Bytes>, seg: Bytes, curSeg: nat, curLen: nat, strings: map<nat, Bytes>)
    requires Holds(mem, curSeg, curLen, strings) && curSeg < |mem|
    ensures Holds(mem + [seg], curSeg + 1, 0, strings)
  {
    var mem' := mem + [seg];
    forall sid | sid in strings
      ensures Placed(mem', sid, strings[sid], curSeg + 1, 0)
    {
      assert Placed(mem, sid, strings[sid], curSeg, curLen);
      assert mem'[LocOf(sid).seg] == mem[LocOf(sid).seg];
    }
  }

  /**
   * The memory `add_unsafe` leaves in a segment `b` when storing `s` at
   * `at`: the zeroed last word when the image has padding, the length, the
   * bytes.
   */
  function Appended(b: Bytes, at: nat, s: Bytes): (r: Bytes)
    requires 0 < |s| < MAX_LENGTH && at + AllocSize(|s|) <= |b|
    ensures |r| == |b|
  {
    Overwrite(Overwrite(LastWordZeroed(b, at, s), at, LE16(|s|)), at + 2, s)
  }

  /** The first write of `add_unsafe`: the last word of the image zeroed, when the image has padding. */
  function LastWordZeroed(b: Bytes, at: nat, s: Bytes): (r: Bytes)
    requires 0 < |s| < MAX_LENGTH && at + AllocSize(|s|) <= |b|
    ensures |r| == |b|
  {
    var size := AllocSize(|s|);
    if |s| + 2 < size then Overwrite(b, at + size - 8, Zeros(8)) else b
  }

  /** `add_unsafe` leaves the image of `s` at `at` and every byte before `at` as it was. */
  lemma AppendedHolds(b: Bytes, at: nat, s: Bytes)
    requires 0 < |s| < MAX_LENGTH && at + AllocSize(|s|) <= |b|
    ensures Appended(b, at, s)[..at] == b[..at]
    ensures Appended(b, at, s)[at..at + AllocSize(|s|)] == Record(s)
  {
    var n, size := |s|, AllocSize(|s|);
    var hi := at + size;
    var zeroed := LastWordZeroed(b, at, s);
    var withLen := Overwrite(zeroed, at, LE16(n));
    var r := Overwrite(withLen, at + 2, s);
    forall i | 0 <= i < size
      ensures r[at..hi][i] == Record(s)[i]
    {
      OverwriteAt(withLen, at + 2, s, at + i);
      OverwriteAt(zeroed, at, LE16(n), at + i);
      LastWordZeroedAt(b, at, s, at + i);
      RecordAt(s, i);
    }
    forall i | 0 <= i < at
      ensures r[..at][i] == b[..at][i]
    {
      OverwriteAt(withLen, at + 2, s, i);
      OverwriteAt(zeroed, at, LE16(n), i);
      LastWordZeroedAt(b, at, s, i);
    }
  }

  /** Byte `j` after the first write: zero in the last word of a padded image, as before elsewhere. */
  lemma LastWordZeroedAt(b: Bytes, at: nat, s: Bytes, j: nat)
    requires 0 < |s| < MAX_LENGTH && at + AllocSize(|s|) <= |b| && j < |b|
    ensures LastWordZeroed(b, at, s)[j] ==
      if |s| + 2 < AllocSize(|s|) && at + AllocSize(|s|) - 8 <= j < at + AllocSize(|s|) then 0 else b[j]
  {
    if |s| + 2 < AllocSize(|s|) {
      OverwriteAt(b, at + AllocSize(|s|) - 8, Zeros(8), j);
    }
  }

  /**
   * Storing `s` at the cursor of the current segment, as `add_unsafe`
   * writes it, adds it under the id of its place, a fresh id, and keeps
   * every other string in place.
   */
  lemma HoldsAfterAppend(mem: seq<Bytes>, curSeg: nat, curLen: nat, strings: map<nat, Bytes>, s: Bytes)
    returns (sid: nat)
    requires Holds(mem, curSeg, curLen, strings) && curSeg < |mem| && |mem[curSeg]| == SEGMENT_SIZE
    requires curLen % 8 == 0 && 0 < |s| < MAX_LENGTH && curLen + AllocSize(|s|) <= SEGMENT_SIZE
    ensures sid == (curSeg * SEGMENT_SIZE + curLen) / 8 && LocOf(sid) == Loc(curSeg, curLen)
    ensures sid !in strings && (curSeg < MAX_SEGMENTS ==> sid < 0x1_0000_0000)
    ensures Holds(mem[curSeg := Appended(mem[curSeg], curLen, s)], curSeg, curLen + AllocSize(|s|), strings[sid := s])
  {
    AppendedHolds(mem[curSeg], curLen, s);
    sid := HoldsAfterStore(mem, curSeg, curLen, strings, s, Appended(mem[curSeg], curLen, s));
  }

  /**
   * A string placed before the cursor stays placed when the current segment
   * changes only from the cursor on, and its place is not the cursor's.
   */
  lemma PlacedKept(mem: seq<Bytes>, seg: Bytes, curSeg: nat, curLen: nat, newLen: nat, k: nat, t: Bytes)
    requires Placed(mem, k, t, curSeg, curLen) && curSeg < |mem| && curLen <= newLen
    requires |seg| == |mem[curSeg]| && curLen <= |seg| && seg[..curLen] == mem[curSeg][..curLen]
    ensures Placed(mem[curSeg := seg], k, t, curSeg, newLen) && LocOf(k) != Loc(curSeg, curLen)
  {
    var l := LocOf(k);
    var size := AllocSize(|t|);
    if l.seg == curSeg {
      assert seg[l.off..l.off + size] == seg[..curLen][l.off..l.off + size];
      assert mem[curSeg][l.off..l.off + size] == mem[curSeg][..curLen][l.off..l.off + size];
    }
  }

  /**
   * A segment that keeps the bytes before the cursor and holds the image of
   * `s` at it: `s` is added under the id of its place, a fresh id, and
   * every other string stays in place.
   */
  lemma HoldsAfterStore(mem: seq<Bytes>, curSeg: nat, curLen: nat, strings: map<nat, Bytes>, s: Bytes, seg: Bytes)
    returns (sid: nat)
    requires Holds(mem, curSeg, curLen, strings) && curSeg < |mem|
    requires curLen % 8 == 0 && 0 < |s| < MAX_LENGTH && curLen + AllocSize(|s|) <= SEGMENT_SIZE
    requires |seg| == |mem[curSeg]| == SEGMENT_SIZE
    requires seg[..curLen] == mem[curSeg][..curLen]
    requires seg[curLen..curLen + AllocSize(|s|)] == Record(s)
    ensures sid == (curSeg * SEGMENT_SIZE + curLen) / 8 && LocOf(sid) == Loc(curSeg, curLen)
    ensures sid !in strings && (curSeg < MAX_SEGMENTS ==> sid < 0x1_0000_0000)
    ensures Holds(mem[curSeg := seg], curSeg, curLen + AllocSize(|s|), strings[sid := s])
  {
    sid := (curSeg * SEGMENT_SIZE + curLen) / 8;
    LocOfId(curSeg, curLen);
    var mem' := mem[curSeg := seg];
    var newLen := curLen + AllocSize(|s|);
    forall k | k in strings
      ensures Placed(mem', k, strings[k], curSeg, newLen) && k != sid
    {
      assert Placed(mem, k, strings[k], curSeg, curLen);
      PlacedKept(mem, seg, curSeg, curLen, newLen, k, strings[k]);
    }
    var strings' := strings[sid := s];
    forall k | k in strings'
      ensures Placed(mem', k, strings'[k], curSeg, newLen)
    {
      if k != sid {
        assert Placed(mem', k, strings[k], curSeg, newLen);
      }
    }
    assert EMPTY_ID in strings && strings'[EMPTY_ID] == [];
    assert NULL_ID != sid by {
      assert Placed(mem, EMPTY_ID, strings[EMPTY_ID], curSeg, curLen);
    }
  }

  /** An image of `s` at `off` in a segment reads back the length and the bytes of `s`. */
  lemma ImageReadsBack(m: Bytes, off: nat, s: Bytes)
    requires |s| < MAX_LENGTH && off + AllocSize(|s|) <= |m| && m[off..off + AllocSize(|s|)] == Record(s)
    ensures ReadLE16(m, off) == |s| && m[off + 2..off + 2 + |s|] == s
  {
    var image := m[off..off + AllocSize(|s|)];
    RecordReadsBack(s);
    assert image[0] == m[off] && image[1] == m[off + 1];
    assert image[2..2 + |s|] == s;
    forall i | 0 <= i < |s|
      ensures m[off + 2..off + 2 + |s|][i] == s[i]
    {
      assert s[i] == image[2 + i];
    }
  }

  // ---------------------------------------------------------------------
  // StringPool
  // ---------------------------------------------------------------------

  /**
   * `StringPool`: the segment buffers (shared between a pool and its
   * copy-on-write copies), the reserved capacity of the segment vector, the
   * current segment and the write cursor in it. `mem` mirrors the segments'
   * contents and `strings` the strings added so far, by id.
   */
  class StringPool {
    var segments: seq<array<byte>>
    var capacity: nat
    var curSegIdx: nat
    var curLen: nat
    ghost var mem: seq<Bytes>
    ghost var strings: map<nat, Bytes>

    ghost predicate Valid()
      reads this, segments
    {
      && 1 <= |segments| <= capacity
      && curSegIdx == |segments| - 1
      && |mem| == |segments|
      && (forall i :: 0 <= i < |segments| ==> segments[i].Length == SEGMENT_SIZE && segments[i][..] == mem[i])
      && (forall i, j :: 0 <= i < j < |segments| ==> segments[i] != segments[j])
      && curLen <= SEGMENT_SIZE && curLen % 8 == 0
      && Holds(mem, curSegIdx, curLen, strings)
    }

    /** `new StringPool()`: no segments yet. */
    constructor Blank()
      ensures segments == [] && capacity == 0 && curSegIdx == 0 && curLen == 0
      ensures mem == [] && strings == map[]
    {
      segments, capacity, curSegIdx, curLen := [], 0, 0, 0;
      mem, strings := [], map[];
    }

    /**
     * `StringPool::create`: one segment (room reserved for 8), its first 16
     * bytes zeroed and the cursor after them, so that ids 0 and 1 are never
     * handed out and id 1 reads as the empty string.
     */
    constructor Create()
      ensures Valid() && fresh(segments[0])
      ensures |segments| == 1 && capacity == 8 && curLen == 16
      ensures strings == map[EMPTY_ID := []]
    {
      var seg := new byte[SEGMENT_SIZE];
      CopyInto(seg, 0, Zeros(16));
      HoldsInitially(seg[..]);
      segments, capacity, curSegIdx, curLen := [seg], 8, 0, 16;
      mem, strings := [seg[..]], map[EMPTY_ID := []];
    }

    /** `get(sid)`: null for id 0, otherwise the place of byte `sid * 8`. */
    function Get(sid: nat): (r: Option<Loc>)
      reads this
      requires sid == NULL_ID || LocOf(sid).seg < |segments|
      ensures sid == NULL_ID <==> r == None
      ensures r.Some? ==> r.value.seg < |segments| && r.value.seg * SEGMENT_SIZE + r.value.off == sid * 8
    {
      if sid == NULL_ID then None else Some(LocOf(sid))
    }

    /** `SString::len` of the image at `l`. */
    function LenAt(l: Loc): nat
      reads this, segments
      requires Valid() && l.seg < |segments| && l.off + 2 <= SEGMENT_SIZE
    {
      ReadLE16(segments[l.seg][..], l.off)
    }

    /** `SString::to_string` of the image at `l`: `len` bytes after the length. */
    function TextAt(l: Loc): Bytes
      reads this, segments
      requires Valid() && l.seg < |segments| && l.off + 2 <= SEGMENT_SIZE && l.off + 2 + LenAt(l) <= SEGMENT_SIZE
    {
      segments[l.seg][l.off + 2..l.off + 2 + LenAt(l)]
    }

    /**
     * Every added string reads back through `get`: its id has a place, and
     * the image there has the string's length and bytes.
     */
    lemma GetReadsBack(sid: nat)
      requires Valid() && sid in strings
      ensures LocOf(sid).seg < |segments| && Get(sid) == Some(LocOf(sid))
      ensures var l := LocOf(sid);
        && l.off + 2 <= SEGMENT_SIZE && LenAt(l) == |strings[sid]|
        && l.off + 2 + LenAt(l) <= SEGMENT_SIZE && TextAt(l) == strings[sid]
    {
      var s := strings[sid];
      var l := LocOf(sid);
      assert Placed(mem, sid, s, curSegIdx, curLen);
      ImageReadsBack(mem[l.seg], l.off, s);
      assert segments[l.seg][..] == mem[l.seg];
    }

    /**
     * `expand(cow_pool, new_capacity)`: a new pool object sharing the same
     * segment buffers and cursor, with a larger reserved capacity (by
     * default `Padding(capacity + min(128, capacity), 8)`); this pool is left
     * as it was.
     */
    method Expand(newCapacity: nat) returns (cow: StringPool)
      requires Valid() && |segments| == capacity
      requires newCapacity == 0 || capacity < newCapacity
      ensures fresh(cow) && cow.Valid()
      ensures cow.segments == segments && cow.curSegIdx == curSegIdx && cow.curLen == curLen
      ensures cow.strings == strings
      ensures cow.capacity == if newCapacity == 0 then Padding8(capacity + Min(128, capacity)) else newCapacity
      ensures cow.capacity > |segments|
    {
      var target := newCapacity;
      if target == 0 {
        target := Padding8(capacity + Min(128, capacity));
      }
      cow := new StringPool.Blank();
      cow.capacity := target;
      var i := 0;
      while i < |segments|
        invariant i <= |segments| && cow.segments == segments[..i]
        invariant cow.capacity == target && cow.curSegIdx == 0 && cow.curLen == 0
        invariant fresh(cow)
      {
        cow.segments := cow.segments + [segments[i]];
        i := i + 1;
      }
      cow.curSegIdx, cow.curLen := curSegIdx, curLen;
      cow.mem, cow.strings := mem, strings;
      assert cow.segments == segments;
    }

    /** `add_segment`: a fresh segment, within the reserved capacity, becomes current with the cursor at 0. */
    method AddSegment()
      requires Valid() && |segments| < capacity
      modifies this
      ensures Valid() && |segments| == old(|segments|) + 1
      ensures segments[..|segments| - 1] == old(segments) && fresh(segments[|segments| - 1])
      ensures curSegIdx == old(curSegIdx) + 1 && curLen == 0
      ensures capacity == old(capacity) && strings == old(strings)
    {
      var seg := new byte[SEGMENT_SIZE];
      HoldsAfterNewSegment(mem, seg[..], curSegIdx, curLen, strings);
      curSegIdx := curSegIdx + 1;
      curLen := 0;
      segments := segments + [seg];
      mem := mem + [seg[..]];
      assert segments[..|segments| - 1] == old(segments);
    }

    /**
     * `add_unsafe(slice, storage_size, sid)`: advance the cursor by the
     * padded size, zero the last word when there is padding, write the
     * length and the bytes; the id is the image's offset over 8.
     */
    method AddUnsafe(s: Bytes, storage: nat) returns (sid: nat)
      requires Valid() && 0 < |s| < MAX_LENGTH && storage == AllocSize(|s|)
      requires curLen + storage <= SEGMENT_SIZE && |segments| <= MAX_SEGMENTS
      modifies this, segments[curSegIdx]
      ensures Valid() && segments == old(segments) && capacity == old(capacity)
      ensures curSegIdx == old(curSegIdx) && curLen == old(curLen) + storage
      ensures sid == (curSegIdx * SEGMENT_SIZE + old(curLen)) / 8 && sid < 0x1_0000_0000
      ensures sid !in old(strings) && strings == old(strings)[sid := s]
    {
      var oldLen := curLen;
      var base := segments[curSegIdx];
      AlignedSum(oldLen, storage);
      assert base[..] == mem[curSegIdx];
      WriteImage(base, oldLen, s);
      sid := (curSegIdx * SEGMENT_SIZE + oldLen) / 8;
      ghost var id := HoldsAfterAppend(mem, curSegIdx, oldLen, strings, s);
      assert id == sid;
      curLen := oldLen + storage;
      mem := mem[curSegIdx := base[..]];
      strings := strings[sid := s];
      forall i | 0 <= i < |segments|
        ensures segments[i][..] == mem[i]
      {
        if i != curSegIdx {
          assert segments[i] != base;
        }
      }
    }
  }

  /**
   * The writes of `add_unsafe` at `at` in a segment buffer: the zeroed last
   * word when the image has padding, then the length, then the bytes.
   */
  method WriteImage(base: array<byte>, at: nat, s: Bytes)
    requires 0 < |s| < MAX_LENGTH && at + AllocSize(|s|) <= base.Length
    modifies base
    ensures base[..] == Appended(old(base[..]), at, s)
  {
    ghost var before := base[..];
    var storage := AllocSize(|s|);
    if |s| + 2 < storage {
      CopyInto(base, at + storage - 8, Zeros(8));
    }
    assert base[..] == LastWordZeroed(before, at, s);
    CopyInto(base, at, LE16(|s|));
    CopyInto(base, at + 2, s);
  }

  /** The sum of two multiples of 8 is one. */
  lemma AlignedSum(a: nat, b: nat)
    requires a % 8 == 0 && b % 8 == 0
    ensures (a + b) % 8 == 0
  {
    assert a + b == 8 * (a / 8 + b / 8);
  }

  function Min(a: nat, b: nat): nat
  {
    if a < b then a else b
  }

  /**
   * `StringPool::add(ref, slice, sid)`: the empty string is id 1 and takes
   * no space; otherwise, when the image does not fit in the current
   * segment, a new segment is opened, after copying the pool first if the
   * segment vector is at capacity, and the image is stored there. `result`
   * is the pool `ref` refers to afterwards.
   */
  method Add(pool: StringPool, s: Bytes) returns (result: StringPool, sid: nat)
    requires pool.Valid() && |s| < MAX_LENGTH && |pool.segments| < MAX_SEGMENTS
    modifies pool, pool.segments[pool.curSegIdx]
    ensures result.Valid() && sid < 0x1_0000_0000
    ensures sid in result.strings && result.strings[sid] == s
    ensures |s| == 0 ==> sid == EMPTY_ID && result == pool && unchanged(pool)
    ensures |s| > 0 ==> sid !in old(pool.strings) && result.strings == old(pool.strings)[sid := s]
    ensures result == pool || (fresh(result) && unchanged(pool) && pool.Valid())
  {
    if |s| == 0 {
      return pool, EMPTY_ID;
    }
    var storage := AllocSize(|s|);
    result := pool;
    if pool.curLen + storage > SEGMENT_SIZE {
      if |pool.segments| == pool.capacity {
        result := pool.Expand(0);
      }
      result.AddSegment();
    }
    sid := result.AddUnsafe(s, storage);
  }

  /** The nullable `StringPool::add`: no string gives id 0 and leaves the pool alone. */
  method AddNullable(pool: StringPool, s: Option<Bytes>) returns (result: StringPool, sid: nat)
    requires pool.Valid() && (s.Some? ==> |s.value| < MAX_LENGTH) && |pool.segments| < MAX_SEGMENTS
    modifies pool, pool.segments[pool.curSegIdx]
    ensures result.Valid() && sid < 0x1_0000_0000
    ensures s == None ==> sid == NULL_ID && result == pool && unchanged(pool)
    ensures s.Some? ==> sid in result.strings && result.strings[sid] == s.value
  {
    if s == None {
      return pool, NULL_ID;
    }
    result, sid := Add(pool, s.value);
  }
}
