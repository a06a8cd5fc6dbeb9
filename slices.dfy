/**
 * `Slice`: a non-owning view of `size` bytes of memory. The pure queries of
 * slice.h (three-way compare, prefix tests, equality) are functions over
 * the viewed bytes; the mutators (`remove_prefix`, `truncate`, `clear`)
 * update the view's fields in place; `trim`, `split` and `join` of
 * slice.cpp are loops proved against recursive reference definitions.
 */
module Slices {
  import opened Common

  // ---------------------------------------------------------------------
  // memcmp and three-way comparison
  // ---------------------------------------------------------------------

  /**
   * The sign of `memcmp(a, b, n)`: bytes compared as unsigned values, the
   * first difference decides.
   */
  function MemCompare(a: Bytes, b: Bytes, n: nat): (r: int)
    requires n <= |a| && n <= |b|
    ensures -1 <= r <= 1
    ensures r == 0 <==> a[..n] == b[..n]
  {
    if n == 0 then 0
    else if a[0] < b[0] then -1
    else if a[0] > b[0] then 1
    else
      var r := MemCompare(a[1..], b[1..], n - 1);
      assert a[..n] == [a[0]] + a[1..][..n - 1];
      assert b[..n] == [b[0]] + b[1..][..n - 1];
      r
  }

  /** `Slice::compare`: memcmp over the common length, then shorter first. */
  function Compare(a: Bytes, b: Bytes): (r: int)
    ensures -1 <= r <= 1
  {
    var minLen := if |a| < |b| then |a| else |b|;
    var r := MemCompare(a, b, minLen);
    if r == 0 then
      (if |a| < |b| then -1 else if |a| > |b| then 1 else 0)
    else r
  }

  /**
   * Lexicographic order on byte strings, stated independently of memcmp:
   * `a` is a proper prefix of `b`, or the first differing byte of `a` is
   * smaller.
   */
  predicate LexLess(a: Bytes, b: Bytes)
  {
    |b| > 0 && (|a| == 0 || a[0] < b[0] || (a[0] == b[0] && LexLess(a[1..], b[1..])))
  }

  /** Comparing two non-empty strings with the same first byte compares their tails. */
  lemma CompareTail(a: Bytes, b: Bytes)
    requires |a| > 0 && |b| > 0 && a[0] == b[0]
    ensures Compare(a, b) == Compare(a[1..], b[1..])
  {
  }

  /**
   * `compare` keeps the promise of its doc comment: negative iff `a` sorts
   * before `b`, zero iff the bytes and sizes agree, positive iff `b` sorts
   * before `a`.
   */
  lemma {:induction false} CompareIsLexicographic(a: Bytes, b: Bytes)
    ensures Compare(a, b) < 0 <==> LexLess(a, b)
    ensures Compare(a, b) == 0 <==> a == b
    ensures Compare(a, b) > 0 <==> LexLess(b, a)
  {
    if |a| > 0 && |b| > 0 && a[0] == b[0] {
      CompareTail(a, b);
      CompareIsLexicographic(a[1..], b[1..]);
      assert a == [a[0]] + a[1..] && b == [b[0]] + b[1..];
    }
  }

  /** Swapping the operands negates the comparison. */
  lemma CompareAntisymmetric(a: Bytes, b: Bytes)
    ensures Compare(a, b) == -Compare(b, a)
  {
    CompareIsLexicographic(a, b);
    CompareIsLexicographic(b, a);
  }

  /** `Slice::Comparator`: `a` orders before `b` iff `a.compare(b) < 0`. */
  predicate Less(a: Bytes, b: Bytes)
  {
    Compare(a, b) < 0
  }

  lemma {:induction false} LexLessIrreflexive(a: Bytes)
    ensures !LexLess(a, a)
  {
    if |a| > 0 {
      LexLessIrreflexive(a[1..]);
    }
  }

  lemma {:induction false} LexLessTransitive(a: Bytes, b: Bytes, c: Bytes)
    requires LexLess(a, b) && LexLess(b, c)
    ensures LexLess(a, c)
  {
    if |a| > 0 && a[0] == b[0] && b[0] == c[0] {
      LexLessTransitive(a[1..], b[1..], c[1..]);
    }
  }

  /** The comparator is a strict order: irreflexive, transitive and total on distinct strings. */
  lemma ComparatorIsStrictOrder(a: Bytes, b: Bytes, c: Bytes)
    ensures !Less(a, a)
    ensures Less(a, b) && Less(b, c) ==> Less(a, c)
    ensures a != b ==> Less(a, b) || Less(b, a)
    ensures !(Less(a, b) && Less(b, a))
  {
    CompareIsLexicographic(a, a);
    CompareIsLexicographic(a, b);
    CompareIsLexicographic(b, c);
    CompareIsLexicographic(a, c);
    CompareIsLexicographic(b, a);
    LexLessIrreflexive(a);
    if LexLess(a, b) && LexLess(b, c) {
      LexLessTransitive(a, b, c);
    }
  }

  // ---------------------------------------------------------------------
  // Prefix, suffix and equality tests
  // ---------------------------------------------------------------------

  /** slice.h `starts_with`: long enough and the first `|x|` bytes match. */
  function StartsWithView(s: Bytes, x: Bytes): (r: bool)
    ensures r <==> |x| <= |s| && s[..|x|] == x
  {
    |s| >= |x| && MemCompare(s, x, |x|) == 0
  }

  /** slice.cpp `startsWith`: the same test with an explicit empty case. */
  function StartsWith(s: Bytes, x: Bytes): (r: bool)
    ensures r <==> |x| <= |s| && s[..|x|] == x
  {
    |x| == 0 || (|s| >= |x| && MemCompare(s, x, |x|) == 0)
  }

  /**
   * slice.cpp `endsWith` as written: the comparison `s.size() == 0` sits
   * inside memcmp's argument list, so memcmp compares 0 bytes (or 1 when
   * `x` is empty, a branch the `||` never reaches) and its zero result
   * makes the conjunction false.
   */
  function EndsWithAsWritten(s: Bytes, x: Bytes): bool
  {
    |x| == 0 ||
    (|s| >= |x| && MemCompare(s[|s| - |x|..], x, BoolToSize(|x| == 0)) != 0)
  }

  /** A C++ `bool` converted to `size_t`. */
  function BoolToSize(b: bool): nat
  {
    if b then 1 else 0
  }

  /** The as-written `endsWith` accepts exactly the empty suffix. */
  lemma EndsWithAsWrittenOnlyEmpty(s: Bytes, x: Bytes)
    ensures EndsWithAsWritten(s, x) <==> |x| == 0
  {
  }

  /** A suffix the as-written test rejects: "ab" ends with "b". */
  lemma EndsWithAsWrittenMissesSuffix()
    ensures EndsWith([0x61, 0x62], [0x62])
    ensures !EndsWithAsWritten([0x61, 0x62], [0x62])
  {
    var s: Bytes := [0x61, 0x62];
    assert s[|s| - 1..] == [0x62];
  }

  /** `endsWith` as evidently intended: memcmp over the last `|x|` bytes. */
  function EndsWith(s: Bytes, x: Bytes): (r: bool)
    ensures r <==> |x| <= |s| && s[|s| - |x|..] == x
  {
    |x| == 0 || (|s| >= |x| && MemCompare(s[|s| - |x|..], x, |x|) == 0)
  }

  /** `operator==`: equal sizes and equal bytes. */
  function Equal(x: Bytes, y: Bytes): (r: bool)
    ensures r <==> x == y
  {
    |x| == |y| && MemCompare(x, y, |x|) == 0
  }

  /** `operator!=`: the negation of `==`. */
  function NotEqual(x: Bytes, y: Bytes): (r: bool)
    ensures r <==> x != y
  {
    !Equal(x, y)
  }

  // ---------------------------------------------------------------------
  // The view object and its in-place mutators
  // ---------------------------------------------------------------------

  /**
   * A `Slice` object: the memory it points into (`mem`), the position of
   * `data_` within it and `size_`. Only the view changes; the bytes never do.
   */
  class Slice {
    var mem: Bytes
    var start: nat
    var size: nat

    ghost predicate Valid()
      reads this
    {
      start + size <= |mem|
    }

    /** The bytes the slice refers to. */
    function Contents(): (r: Bytes)
      reads this
      requires Valid()
      ensures |r| == size
    {
      mem[start..start + size]
    }

    /** `Slice(d, n)`: a view of all of `d`. */
    constructor (d: Bytes)
      ensures Valid() && Contents() == d
    {
      mem, start, size := d, 0, |d|;
    }

    /** `empty()`: the view holds no bytes. */
    function Empty(): (r: bool)
      reads this
      requires Valid()
      ensures r <==> Contents() == []
    {
      size == 0
    }

    /** `clear()`: refer to the empty string literal. */
    method Clear()
      modifies this
      ensures Valid() && Contents() == [] && Empty()
    {
      mem, start, size := [], 0, 0;
    }

    /** `remove_prefix(n)`: drop the first `n` bytes (the caller guarantees `n <= size`). */
    method RemovePrefix(n: nat)
      requires Valid() && n <= size
      modifies this
      ensures Valid() && mem == old(mem)
      ensures size == old(size) - n
      ensures Contents() == old(Contents())[n..]
    {
      start, size := start + n, size - n;
    }

    /** `truncate(n)`: keep the first `n` bytes (the caller guarantees `n <= size`). */
    method Truncate(n: nat)
      requires Valid() && n <= size
      modifies this
      ensures Valid() && mem == old(mem) && start == old(start)
      ensures Contents() == old(Contents())[..n]
    {
      assert mem[start..start + n] == mem[start..start + size][..n];
      size := n;
    }
  }

  // ---------------------------------------------------------------------
  // trim
  // ---------------------------------------------------------------------

  /** `isspace` in the C locale: space, tab, newline, vertical tab, form feed, carriage return. */
  predicate IsSpace(b: byte)
  {
    b == 0x20 || (0x09 <= b <= 0x0d)
  }

  /** Every byte of `s[lo..hi]` is whitespace. */
  predicate SpaceRun(s: Bytes, lo: int, hi: int)
  {
    forall i :: lo <= i < hi && 0 <= i < |s| ==> IsSpace(s[i])
  }

  predicate AllSpace(s: Bytes)
  {
    SpaceRun(s, 0, |s|)
  }

  /** The number of whitespace bytes `s` starts with. */
  function LeadingSpaces(s: Bytes): (n: nat)
    ensures n <= |s|
  {
    if |s| == 0 || !IsSpace(s[0]) then 0 else 1 + LeadingSpaces(s[1..])
  }

  /** The leading run is all whitespace and stops at a non-space byte (or the end). */
  lemma {:induction false} LeadingSpacesSpec(s: Bytes)
    ensures SpaceRun(s, 0, LeadingSpaces(s))
    ensures LeadingSpaces(s) < |s| ==> !IsSpace(s[LeadingSpaces(s)])
  {
    if |s| > 0 && IsSpace(s[0]) {
      LeadingSpacesSpec(s[1..]);
      assert forall i :: 1 <= i < |s| ==> s[i] == s[1..][i - 1];
    }
  }

  /** The number of whitespace bytes `s` ends with. */
  function TrailingSpaces(s: Bytes): (n: nat)
    ensures n <= |s|
  {
    if |s| == 0 || !IsSpace(s[|s| - 1]) then 0 else 1 + TrailingSpaces(s[..|s| - 1])
  }

  /** The trailing run is all whitespace and is preceded by a non-space byte (or the start). */
  lemma {:induction false} TrailingSpacesSpec(s: Bytes)
    ensures SpaceRun(s, |s| - TrailingSpaces(s), |s|)
    ensures TrailingSpaces(s) < |s| ==> !IsSpace(s[|s| - TrailingSpaces(s) - 1])
  {
    if |s| > 0 && IsSpace(s[|s| - 1]) {
      TrailingSpacesSpec(s[..|s| - 1]);
      assert forall i :: 0 <= i < |s| - 1 ==> s[i] == s[..|s| - 1][i];
    }
  }

  /**
   * What `trim` leaves: the view from the first non-space byte on, without
   * its trailing whitespace. A slice made only of whitespace comes back
   * unchanged, because neither loop of slice.cpp finds a byte to stop at.
   */
  function Trimmed(s: Bytes): Bytes
  {
    var lead := LeadingSpaces(s);
    if lead == |s| then s
    else
      var rest := s[lead..];
      rest[..|rest| - TrailingSpaces(rest)]
  }

  /** A position past only whitespace and at a non-space byte (or the end) is the leading-space count. */
  lemma LeadingUnique(s: Bytes, k: nat)
    requires k <= |s| && SpaceRun(s, 0, k) && (k < |s| ==> !IsSpace(s[k]))
    ensures k == LeadingSpaces(s)
  {
    LeadingSpacesSpec(s);
  }

  /** The mirror image of `LeadingUnique` for the trailing-space count. */
  lemma TrailingUnique(s: Bytes, k: nat)
    requires k <= |s| && SpaceRun(s, |s| - k, |s|) && (k < |s| ==> !IsSpace(s[|s| - k - 1]))
    ensures k == TrailingSpaces(s)
  {
    TrailingSpacesSpec(s);
  }

  /** A slice made only of whitespace is left as it is. */
  lemma TrimmedAllSpace(s: Bytes)
    requires AllSpace(s)
    ensures Trimmed(s) == s
  {
    LeadingUnique(s, |s|);
  }

  /**
   * The shape of what `trim` cuts when `s` holds a non-space byte: a run
   * of whitespace in front and one behind (either may be empty), and what
   * is kept begins and ends with a non-space byte.
   */
  lemma TrimmedShape(s: Bytes)
    requires !AllSpace(s)
    ensures var lead := LeadingSpaces(s);
      && lead < |s| && SpaceRun(s, 0, lead) && !IsSpace(s[lead])
      && var rest := s[lead..];
      var trail := TrailingSpaces(rest);
      && trail < |rest| && SpaceRun(rest, |rest| - trail, |rest|) && !IsSpace(rest[|rest| - trail - 1])
      && Trimmed(s) == rest[..|rest| - trail]
  {
    LeadingSpacesSpec(s);
    var lead := LeadingSpaces(s);
    assert lead == |s| ==> AllSpace(s);
    var rest := s[lead..];
    TrailingSpacesSpec(rest);
    assert rest[0] == s[lead];
  }

  /** Trimming twice is trimming once. */
  lemma TrimmedIdempotent(s: Bytes)
    ensures Trimmed(Trimmed(s)) == Trimmed(s)
  {
    if AllSpace(s) {
      TrimmedAllSpace(s);
    } else {
      TrimmedShape(s);
      var rest := s[LeadingSpaces(s)..];
      var trail := TrailingSpaces(rest);
      var t := rest[..|rest| - trail];
      assert t[0] == rest[0] && t[|t| - 1] == rest[|rest| - trail - 1];
      LeadingUnique(t, 0);
      TrailingUnique(t[0..], 0);
      assert t[0..] == t;
    }
  }

  /**
   * `Slice::trim`: the first loop moves the view's start to the first
   * non-space byte, the second shortens it to end at the last one; the
   * result is the view `s[start..start + len]`.
   */
  method Trim(s: Bytes) returns (start: nat, len: nat)
    ensures start + len <= |s|
    ensures s[start..start + len] == Trimmed(s)
  {
    start, len := 0, |s|;
    ghost var found := false;
    for i := 0 to |s|
      invariant SpaceRun(s, 0, i)
      invariant !found && start == 0 && len == |s|
    {
      if !IsSpace(s[i]) {
        start, len := i, |s| - i;
        found := true;
        break;
      }
    }
    ghost var rest := s[start..];
    assert |rest| == len;
    var j := len;
    while j > 0
      invariant j <= len == |rest|
      invariant SpaceRun(rest, j, len)
    {
      assert rest[j - 1] == s[start + j - 1];
      if !IsSpace(s[start + j - 1]) {
        TrailingUnique(rest, |rest| - j);
        len := j;
        break;
      }
      j := j - 1;
    }
    assert s[start..start + len] == rest[..len];
    if found {
      LeadingUnique(s, start);
      if len == |rest| {
        assert rest[0] == s[start];
        TrailingUnique(rest, 0);
      }
    } else {
      LeadingUnique(s, |s|);
    }
  }

  // ---------------------------------------------------------------------
  // split
  // ---------------------------------------------------------------------

  /** The index of the first `sep` in `s`, or `|s|` when there is none. */
  function FirstSep(s: Bytes, sep: byte): (i: nat)
    ensures i <= |s|
  {
    if |s| == 0 || s[0] == sep then 0
    else 1 + FirstSep(s[1..], sep)
  }

  /** `FirstSep` finds the first separator: none before it, one at it (unless at the end). */
  lemma {:induction false} FirstSepIsFirst(s: Bytes, sep: byte)
    ensures FirstSep(s, sep) < |s| ==> s[FirstSep(s, sep)] == sep
    ensures forall k :: 0 <= k < FirstSep(s, sep) ==> s[k] != sep
  {
    if |s| > 0 && s[0] != sep {
      FirstSepIsFirst(s[1..], sep);
    }
  }

  /** Scanning past a byte that is not the separator. */
  lemma FirstSepPast(t: Bytes, sep: byte, j: nat)
    requires j < |t| && FirstSep(t, sep) >= j && t[j] != sep
    ensures FirstSep(t, sep) >= j + 1
  {
    FirstSepIsFirst(t, sep);
  }

  /** A position preceded by no separator and holding one (or the end) is the first separator. */
  lemma FirstSepUnique(s: Bytes, sep: byte, i: nat)
    requires i <= |s| && (i < |s| ==> s[i] == sep)
    requires forall k :: 0 <= k < i ==> s[k] != sep
    ensures FirstSep(s, sep) == i
  {
    FirstSepIsFirst(s, sep);
  }

  /**
   * The pieces of `s` between separators, empty pieces included: the
   * reference definition of `split(sep, false)`.
   */
  function Fields(s: Bytes, sep: byte): (r: seq<Bytes>)
    ensures |r| > 0
    decreases |s|
  {
    var i := FirstSep(s, sep);
    if i == |s| then [s] else [s[..i]] + Fields(s[i + 1..], sep)
  }

  /** Each piece trimmed, and the pieces that trim to nothing dropped. */
  function TrimAndDrop(pieces: seq<Bytes>): seq<Bytes>
  {
    if |pieces| == 0 then []
    else KeepTrimmed(pieces[0]) + TrimAndDrop(pieces[1..])
  }

  /** What trimming keeps of one piece: its trimmed form, or nothing if that is empty. */
  function KeepTrimmed(p: Bytes): seq<Bytes>
  {
    var t := Trimmed(p);
    if |t| > 0 then [t] else []
  }

  /**
   * The value a `const char` holding the bits `c` takes when it is compared
   * with a byte: `char` is signed on the x86 target, so from 0x80 on it is
   * negative, while the byte it meets is promoted to 0..255.
   */
  function SignedChar(c: byte): (v: int)
    ensures -128 <= v < 128 && (v == c as int <==> c < 0x80)
  {
    if c < 0x80 then c as int else c as int - 256
  }

  /** `data_[i] == sep` holds iff the byte is the separator and the separator is below 0x80. */
  lemma ByteMeetsChar(b: byte, sep: byte)
    ensures b as int == SignedChar(sep) <==> sep < 0x80 && b == sep
  {
  }

  /**
   * What `split(sep, trim)` returns: the pieces between separators, except
   * that a separator from 0x80 on never matches, so the input is one piece.
   */
  function SplitSpec(s: Bytes, sep: byte, trim: bool): seq<Bytes>
  {
    Keep(if sep < 0x80 then Fields(s, sep) else [s], trim)
  }

  /** The pieces `split` emits for the untrimmed pieces `pieces`. */
  function Keep(pieces: seq<Bytes>, trim: bool): seq<Bytes>
  {
    if trim then TrimAndDrop(pieces) else pieces
  }

  lemma {:induction false} TrimAndDropAppend(a: seq<Bytes>, b: seq<Bytes>)
    ensures TrimAndDrop(a + b) == TrimAndDrop(a) + TrimAndDrop(b)
  {
    if |a| == 0 {
      assert a + b == b;
    } else {
      assert (a + b)[0] == a[0];
      assert (a + b)[1..] == a[1..] + b;
      TrimAndDropAppend(a[1..], b);
    }
  }

  /** Emitting one more piece. */
  lemma KeepSnoc(done: seq<Bytes>, p: Bytes, trim: bool)
    ensures Keep(done + [p], trim) == Keep(done, trim) + (if trim then KeepTrimmed(p) else [p])
  {
    TrimAndDropAppend(done, [p]);
    assert [p][1..] == [];
  }

  lemma AppendAssoc<T>(a: seq<T>, b: seq<T>, c: seq<T>)
    ensures (a + b) + c == a + (b + c)
  {
  }

  /** A separator at `i` with none in `s[last..i]` cuts off the piece `s[last..i]`. */
  lemma FieldsStep(s: Bytes, sep: byte, last: nat, i: nat)
    requires last <= i < |s| && s[i] == sep
    requires forall k :: last <= k < i ==> s[k] != sep
    ensures Fields(s[last..], sep) == [s[last..i]] + Fields(s[i + 1..], sep)
  {
    var t := s[last..];
    FirstSepUnique(t, sep, i - last);
    assert t[..i - last] == s[last..i];
    assert t[i - last + 1..] == s[i + 1..];
  }

  /** With no separator left, the rest of `s` is the last piece. */
  lemma FieldsEnd(s: Bytes, sep: byte, last: nat)
    requires last <= |s|
    requires forall k :: last <= k < |s| ==> s[k] != sep
    ensures Fields(s[last..], sep) == [s[last..]]
  {
    FirstSepUnique(s[last..], sep, |s| - last);
  }

  /**
   * `Slice::split`: scan for separators, cutting a piece at each one and a
   * last piece after the final one; with `trim`, pieces are trimmed and the
   * empty ones dropped. The test compares the promoted byte with the signed
   * `char` separator.
   */
  method Split(s: Bytes, sep: byte, trim: bool) returns (ret: seq<Bytes>)
    ensures ret == SplitSpec(s, sep, trim)
  {
    ret := [];
    ghost var done: seq<Bytes> := [];
    var last := 0;
    for i := 0 to |s|
      invariant last <= i
      invariant sep < 0x80 ==> FirstSep(s[last..], sep) >= i - last
      invariant sep < 0x80 ==> done + Fields(s[last..], sep) == Fields(s, sep)
      invariant sep >= 0x80 ==> last == 0 && done == []
      invariant ret == Keep(done, trim)
    {
      // `data_[i] == sep` on the promoted values, as `ByteMeetsChar` states it
      if sep < 0x80 && s[i] == sep {
        ret, done := CutAt(s, sep, trim, last, i, ret, done);
        last := i + 1;
      } else if sep < 0x80 {
        FirstSepPast(s[last..], sep, i - last);
      }
    }
    ret := Finish(s, sep, trim, last, ret, done);
  }

  /** The code of `split` after its loop: the rest of the input is the last piece. */
  method Finish(s: Bytes, sep: byte, trim: bool, last: nat, ret: seq<Bytes>, ghost done: seq<Bytes>)
    returns (ret': seq<Bytes>)
    requires last <= |s| && ret == Keep(done, trim)
    requires sep < 0x80 ==> FirstSep(s[last..], sep) >= |s| - last && done + Fields(s[last..], sep) == Fields(s, sep)
    requires sep >= 0x80 ==> last == 0 && done == []
    ensures ret' == SplitSpec(s, sep, trim)
  {
    var tmp := s[last..];
    if sep < 0x80 {
      LastPiece(s, sep, trim, last, done);
    } else {
      KeepSnoc(done, tmp, trim);
      assert done + [tmp] == [s];
    }
    var emitted := Emit(tmp, trim);
    ret' := ret + emitted;
  }

  /** The body of `split`'s loop at a separator: the piece since `last` is emitted. */
  method CutAt(s: Bytes, sep: byte, trim: bool, last: nat, i: nat, ret: seq<Bytes>, ghost done: seq<Bytes>)
    returns (ret': seq<Bytes>, ghost done': seq<Bytes>)
    requires last <= i < |s| && s[i] == sep
    requires FirstSep(s[last..], sep) >= i - last
    requires done + Fields(s[last..], sep) == Fields(s, sep) && ret == Keep(done, trim)
    ensures done' + Fields(s[i + 1..], sep) == Fields(s, sep) && ret' == Keep(done', trim)
  {
    var tmp := s[last..i];
    CutPiece(s, sep, trim, last, i, done);
    var emitted := Emit(tmp, trim);
    ret' := ret + emitted;
    done' := done + [tmp];
  }

  /**
   * What `split` pushes for one piece (the same code appears inside the loop
   * and after it): the trimmed piece if it is non-empty, or the piece itself
   * when not trimming.
   */
  method Emit(tmp: Bytes, trim: bool) returns (out: seq<Bytes>)
    ensures out == if trim then KeepTrimmed(tmp) else [tmp]
  {
    out := [];
    if trim {
      var a, n := Trim(tmp);
      var ttmp := tmp[a..a + n];
      if |ttmp| > 0 {
        out := [ttmp];
      }
    } else {
      out := [tmp];
    }
  }

  /** The loop step of `Split` at a separator. */
  lemma CutPiece(s: Bytes, sep: byte, trim: bool, last: nat, i: nat, done: seq<Bytes>)
    requires last <= i < |s| && s[i] == sep
    requires FirstSep(s[last..], sep) >= i - last
    requires done + Fields(s[last..], sep) == Fields(s, sep)
    ensures (done + [s[last..i]]) + Fields(s[i + 1..], sep) == Fields(s, sep)
    ensures Keep(done + [s[last..i]], trim)
         == Keep(done, trim) + (if trim then KeepTrimmed(s[last..i]) else [s[last..i]])
  {
    FirstSepIsFirst(s[last..], sep);
    FieldsStep(s, sep, last, i);
    AppendAssoc(done, [s[last..i]], Fields(s[i + 1..], sep));
    KeepSnoc(done, s[last..i], trim);
  }

  /** The step of `Split` after the loop: the rest of the input is the last piece. */
  lemma LastPiece(s: Bytes, sep: byte, trim: bool, last: nat, done: seq<Bytes>)
    requires last <= |s|
    requires FirstSep(s[last..], sep) >= |s| - last
    requires done + Fields(s[last..], sep) == Fields(s, sep)
    ensures Keep(Fields(s, sep), trim)
         == Keep(done, trim) + (if trim then KeepTrimmed(s[last..]) else [s[last..]])
  {
    FirstSepIsFirst(s[last..], sep);
    FieldsEnd(s, sep, last);
    KeepSnoc(done, s[last..], trim);
  }

  /** The number of occurrences of `sep` in `s`. */
  function Count(s: Bytes, sep: byte): nat
  {
    if |s| == 0 then 0 else (if s[0] == sep then 1 else 0) + Count(s[1..], sep)
  }

  lemma {:induction false} CountUpToFirst(s: Bytes, sep: byte, i: nat)
    requires i <= |s| && forall k :: 0 <= k < i ==> s[k] != sep
    ensures i < |s| && s[i] == sep ==> Count(s, sep) == 1 + Count(s[i + 1..], sep)
    ensures i == |s| ==> Count(s, sep) == 0
  {
    if i > 0 {
      CountUpToFirst(s[1..], sep, i - 1);
      if i < |s| {
        assert s[1..][i..] == s[i + 1..];
      }
    }
  }

  /** `split(sep, false)` yields one more piece than there are separators. */
  lemma {:induction false} FieldsCount(s: Bytes, sep: byte)
    ensures |Fields(s, sep)| == Count(s, sep) + 1
    decreases |s|
  {
    var i := FirstSep(s, sep);
    FirstSepIsFirst(s, sep);
    CountUpToFirst(s, sep, i);
    if i < |s| {
      FieldsCount(s[i + 1..], sep);
    }
  }

  /** No piece of `split(sep, false)` contains the separator. */
  lemma {:induction false} FieldsHaveNoSeparator(s: Bytes, sep: byte)
    ensures forall p :: p in Fields(s, sep) ==> sep !in p
    decreases |s|
  {
    var i := FirstSep(s, sep);
    FirstSepIsFirst(s, sep);
    if i < |s| {
      FieldsHaveNoSeparator(s[i + 1..], sep);
      assert sep !in s[..i];
    } else {
      assert sep !in s;
    }
  }

  /** Every piece `split(sep, true)` keeps is non-empty and already trimmed. */
  lemma {:induction false} TrimAndDropPieces(pieces: seq<Bytes>)
    ensures forall p :: p in TrimAndDrop(pieces) ==> |p| > 0 && Trimmed(p) == p
  {
    if |pieces| > 0 {
      TrimmedIdempotent(pieces[0]);
      TrimAndDropPieces(pieces[1..]);
    }
  }

  // ---------------------------------------------------------------------
  // join
  // ---------------------------------------------------------------------

  /** The reference definition of `join`: `sep` between consecutive elements only. */
  function JoinSpec(strs: seq<Bytes>, sep: Bytes): Bytes
  {
    if |strs| == 0 then []
    else if |strs| == 1 then strs[0]
    else JoinSpec(strs[..|strs| - 1], sep) + sep + strs[|strs| - 1]
  }

  /** The total size of the elements. */
  function TotalSize(strs: seq<Bytes>): nat
  {
    if |strs| == 0 then 0 else TotalSize(strs[..|strs| - 1]) + |strs[|strs| - 1]|
  }

  /** The length of a join: every element once and the separator `n - 1` times. */
  lemma {:induction false} JoinLength(strs: seq<Bytes>, sep: Bytes)
    requires |strs| > 0
    ensures |JoinSpec(strs, sep)| == TotalSize(strs) + |sep| * (|strs| - 1)
  {
    if |strs| > 1 {
      var n := |strs|;
      JoinLength(strs[..n - 1], sep);
      assert |sep| * (n - 2) + |sep| == |sep| * (n - 1);
    }
  }

  /** Joining `[x] + rest` puts `x` and the separator in front of joining `rest`. */
  lemma {:induction false} JoinCons(x: Bytes, rest: seq<Bytes>, sep: Bytes)
    requires |rest| > 0
    ensures JoinSpec([x] + rest, sep) == x + sep + JoinSpec(rest, sep)
  {
    var all := [x] + rest;
    if |rest| > 1 {
      assert all[..|all| - 1] == [x] + rest[..|rest| - 1];
      JoinCons(x, rest[..|rest| - 1], sep);
    } else {
      assert all[..1] == [x];
    }
  }

  /**
   * `Slice::join`: the exact size is computed first (`reserve`), then the
   * elements are appended with the separator before every element but the
   * first.
   */
  method Join(strs: seq<Bytes>, sep: Bytes) returns (ret: Bytes)
    ensures ret == JoinSpec(strs, sep)
    ensures |strs| > 0 ==> |ret| == TotalSize(strs) + |sep| * (|strs| - 1)
  {
    ret := [];
    if |strs| == 0 {
      return;
    }
    var sz := |sep| * (|strs| - 1);
    for i := 0 to |strs|
      invariant sz == |sep| * (|strs| - 1) + TotalSize(strs[..i])
    {
      assert strs[..i + 1][..i] == strs[..i];
      sz := sz + |strs[i]|;
    }
    for i := 0 to |strs|
      invariant i == 0 ==> ret == []
      invariant i > 0 ==> ret == JoinSpec(strs[..i], sep)
    {
      if i > 0 {
        ret := ret + sep;
      }
      ret := ret + strs[i];
      assert strs[..i + 1][..i] == strs[..i];
    }
    assert strs[..|strs|] == strs;
    JoinLength(strs, sep);
    assert |ret| == sz;
  }

  /** Joining the pieces of `split(sep, false)` with `sep` gives back the input. */
  lemma {:induction false} JoinFields(s: Bytes, sep: byte)
    ensures JoinSpec(Fields(s, sep), [sep]) == s
    decreases |s|
  {
    var i := FirstSep(s, sep);
    FirstSepIsFirst(s, sep);
    if i < |s| {
      var rest := s[i + 1..];
      JoinFields(rest, sep);
      JoinCons(s[..i], Fields(rest, sep), [sep]);
      assert s == s[..i] + [sep] + rest;
    } else {
      assert s[..i] == s;
    }
  }
}
