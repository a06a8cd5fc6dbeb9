/**
 * Shared vocabulary of the store: bytes, optional values, the status codes
 * every operation reports, and the small arithmetic helpers (`Padding`,
 * `NBlock`) and little-endian encodings the byte layouts are built from.
 */
module Common {

  /** One byte of memory, as the C++ code's `uint8_t`. */
  type byte = bv8

  /** A run of bytes (the contents a `Slice` refers to, a buffer's contents). */
  type Bytes = seq<byte>

  datatype Option<T> = None | Some(value: T)

  /**
   * The status codes of `Status` (status.h), in the order of their numeric
   * values 0..7. `Ok` is the code of the null (success) state.
   */
  datatype Code = Ok | NotFound | NotSupported | InvalidArgument | IOError
                | RuntimeError | IllegalState | OOM

  /** The value of an operation that either succeeds or reports a non-OK code. */
  datatype Result<T> = Success(value: T) | Failure(code: Code)

  /** Rows per column block (`Column::BLOCK_SIZE`, 1 << 16). */
  const BLOCK_SIZE: nat := 65536

  /** `Padding(n, 8)`: `n` rounded up to the next multiple of 8. */
  function Padding8(n: nat): (r: nat)
    ensures r % 8 == 0
    ensures n <= r < n + 8
  {
    (n + 7) / 8 * 8
  }

  /** Number of blocks of `b` items needed to hold `n` items: ceil(n / b). */
  function NBlock(n: nat, b: nat): (r: nat)
    requires b > 0
    ensures r * b >= n
    ensures r == 0 || (r - 1) * b < n
  {
    var q := (n + b - 1) / b;
    assert n + b - 1 == q * b + (n + b - 1) % b;
    assert (q - 1) * b == q * b - b;
    q
  }

  /**
   * The byte holding the number `x` (a `uint8_t` assignment), built bit by
   * bit so that its value is established by induction rather than by a
   * conversion the solver handles poorly.
   */
  function ToByte(x: nat): (b: byte)
    requires x < 256
    decreases x
  {
    if x == 0 then 0 else (ToByte(x / 2) << 1) | (if x % 2 == 1 then 1 else 0)
  }

  lemma ShiftInBit(b: byte, c: byte)
    requires b < 128 && c < 2
    ensures ((b << 1) | c) as nat == 2 * (b as nat) + c as nat
  {
  }

  /** `ToByte(x)` holds the value `x`. */
  lemma {:induction false} ByteRoundTrip(x: nat)
    requires x < 256
    ensures ToByte(x) as nat == x
    decreases x
  {
    if x > 0 {
      ByteRoundTrip(x / 2);
      var c: byte := if x % 2 == 1 then 1 else 0;
      ShiftInBit(ToByte(x / 2), c);
    }
  }

  lemma ByteBound(b: byte)
    ensures b as nat < 256
  {
  }

  /** Two-byte little-endian encoding of `n` (the layout of a `uint16_t`). */
  function LE16(n: nat): (r: Bytes)
    requires n < 0x1_0000
    ensures |r| == 2
  {
    [ToByte(n % 256), ToByte(n / 256)]
  }

  /** The two bytes of `LE16(n)` hold the value `n`. */
  lemma LE16Value(n: nat)
    requires n < 0x1_0000
    ensures LE16(n)[0] as nat + 256 * LE16(n)[1] as nat == n
  {
    ByteRoundTrip(n % 256);
    ByteRoundTrip(n / 256);
  }

  /** The `uint16_t` stored little-endian at `b[at..at+2]`. */
  function ReadLE16(b: Bytes, at: nat): (n: nat)
    requires at + 2 <= |b|
    ensures n < 0x1_0000
  {
    ByteBound(b[at]);
    ByteBound(b[at + 1]);
    b[at] as nat + 256 * b[at + 1] as nat
  }

  /** Four-byte little-endian encoding of `n` (the layout of a `uint32_t`). */
  function LE32(n: nat): (r: Bytes)
    requires n < 0x1_0000_0000
    ensures |r| == 4
  {
    [ToByte(n % 256), ToByte(n / 256 % 256), ToByte(n / 65536 % 256), ToByte(n / 16777216)]
  }

  /** The four bytes of `LE32(n)` hold the value `n`. */
  lemma LE32Value(n: nat)
    requires n < 0x1_0000_0000
    ensures LE32(n)[0] as nat + 256 * LE32(n)[1] as nat + 65536 * LE32(n)[2] as nat + 16777216 * LE32(n)[3] as nat == n
  {
    var b0, b1, b2, b3 := n % 256, n / 256 % 256, n / 65536 % 256, n / 16777216;
    assert n / 256 == b1 + 256 * (n / 65536);
    assert n / 65536 == b2 + 256 * b3;
    ByteRoundTrip(b0);
    ByteRoundTrip(b1);
    ByteRoundTrip(b2);
    ByteRoundTrip(b3);
  }

  /** The `uint32_t` stored little-endian at `b[at..at+4]`. */
  function ReadLE32(b: Bytes, at: nat): (n: nat)
    requires at + 4 <= |b|
    ensures n < 0x1_0000_0000
  {
    var b0, b1, b2, b3 := b[at] as nat, b[at + 1] as nat, b[at + 2] as nat, b[at + 3] as nat;
    ByteBound(b[at]);
    ByteBound(b[at + 1]);
    ByteBound(b[at + 2]);
    ByteBound(b[at + 3]);
    assert b0 + 256 * b1 < 65536;
    assert b0 + 256 * b1 + 65536 * b2 < 16777216;
    b0 + 256 * b1 + 65536 * b2 + 16777216 * b3
  }

  lemma LE16RoundTrip(n: nat, b: Bytes, at: nat)
    requires n < 0x1_0000 && at + 2 <= |b| && b[at..at + 2] == LE16(n)
    ensures ReadLE16(b, at) == n
  {
    LE16Value(n);
    assert b[at] == LE16(n)[0] && b[at + 1] == LE16(n)[1];
  }

  lemma LE32RoundTrip(n: nat, b: Bytes, at: nat)
    requires n < 0x1_0000_0000 && at + 4 <= |b| && b[at..at + 4] == LE32(n)
    ensures ReadLE32(b, at) == n
  {
    LE32Value(n);
    assert b[at] == LE32(n)[0] && b[at + 1] == LE32(n)[1];
    assert b[at + 2] == LE32(n)[2] && b[at + 3] == LE32(n)[3];
  }

  /** A run of `n` zero bytes. */
  function Zeros(n: nat): (r: Bytes)
    ensures |r| == n
    ensures forall i :: 0 <= i < n ==> r[i] == 0
  {
    seq(n, _ => 0)
  }

  /** `b` with `src` written over the bytes from `at` on. */
  function Overwrite(b: Bytes, at: nat, src: Bytes): (r: Bytes)
    requires at + |src| <= |b|
    ensures |r| == |b|
  {
    b[..at] + src + b[at + |src|..]
  }

  /** `Overwrite(b, at, src)` keeps the bytes before `at`, holds `src` from `at` and keeps the bytes after it. */
  lemma OverwriteParts(b: Bytes, at: nat, src: Bytes)
    requires at + |src| <= |b|
    ensures var r := Overwrite(b, at, src);
      r[..at] == b[..at] && r[at..at + |src|] == src && r[at + |src|..] == b[at + |src|..]
  {
    var r := Overwrite(b, at, src);
    assert r[..at] == b[..at];
    assert r[at..at + |src|] == src;
  }

  /** Byte `j` of `Overwrite(b, at, src)`: from `src` inside the written range, from `b` outside it. */
  lemma OverwriteAt(b: Bytes, at: nat, src: Bytes, j: nat)
    requires at + |src| <= |b| && j < |b|
    ensures Overwrite(b, at, src)[j] == if at <= j < at + |src| then src[j - at] else b[j]
  {
    var r := Overwrite(b, at, src);
    if j < at {
      assert r[j] == b[..at][j];
    } else if j < at + |src| {
      assert r[j] == (b[..at] + src)[j];
    } else {
      assert r[j] == b[at + |src|..][j - at - |src|];
    }
  }

  /** Writing inside the window `lo..hi` changes that window as writing into the window alone would, and keeps the bytes before it. */
  lemma OverwriteWindow(b: Bytes, window: Bytes, lo: nat, hi: nat, at: nat, src: Bytes)
    requires lo <= at && at + |src| <= hi <= |b| && window == b[lo..hi]
    ensures Overwrite(b, at, src)[lo..hi] == Overwrite(window, at - lo, src)
    ensures Overwrite(b, at, src)[..lo] == b[..lo]
  {
    var r := Overwrite(b, at, src);
    var w := Overwrite(window, at - lo, src);
    forall i | 0 <= i < hi - lo
      ensures r[lo..hi][i] == w[i]
    {
      OverwriteAt(b, at, src, lo + i);
      OverwriteAt(window, at - lo, src, i);
    }
    forall i | 0 <= i < lo
      ensures r[..lo][i] == b[..lo][i]
    {
      OverwriteAt(b, at, src, i);
    }
  }

  /** Sequences that agree on three consecutive parts are equal. */
  lemma EqualByParts(m: Bytes, r: Bytes, i: nat, j: nat)
    requires i <= j <= |m| == |r|
    requires m[..i] == r[..i] && m[i..j] == r[i..j] && m[j..] == r[j..]
    ensures m == r
  {
    assert m == m[..i] + m[i..j] + m[j..];
    assert r == r[..i] + r[i..j] + r[j..];
  }

  /** `memcpy(result + at, src, |src|)`: `src` is written over the bytes from `at` on, the others are kept. */
  method CopyInto(result: array<byte>, at: nat, src: Bytes)
    requires at + |src| <= result.Length
    modifies result
    ensures result[..] == Overwrite(old(result[..]), at, src)
  {
    ghost var before := result[..];
    forall i | 0 <= i < |src| {
      result[at + i] := src[i];
    }
    OverwriteParts(before, at, src);
    EqualByParts(result[..], Overwrite(before, at, src), at, at + |src|);
  }
}
