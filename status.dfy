/**
 * `Status`: the outcome of an operation. A successful status holds no state
 * (`_state == nullptr`); a failed one owns a byte array laid out as
 *
 *   bytes 0..4   message length `size`, a little-endian `uint32_t`
 *   byte  4      the status code
 *   bytes 5..7   the POSIX code, a little-endian `int16_t`
 *   bytes 7..    the message: `msg`, then `": "` and `msg2` when `msg2` is non-empty
 *
 * The constructor writes that array step by step; the accessors decode it.
 */
module Statuses {
  import opened Common

  /** A status: no state for OK, the encoded byte array otherwise. */
  datatype Status = Status(state: Option<Bytes>)

  /** The ASCII bytes of a literal. */
  function Ascii(s: string): (r: Bytes)
    requires forall i :: 0 <= i < |s| ==> s[i] as nat < 256
    ensures |r| == |s|
    ensures forall i :: 0 <= i < |s| ==> r[i] as nat == s[i] as nat
  {
    if |s| == 0 then []
    else
      ByteRoundTrip(s[0] as nat);
      [ToByte(s[0] as nat)] + Ascii(s[1..])
  }

  /** The numeric value of each code (`enum Code` in status.h). */
  function CodeByte(c: Code): (b: byte)
    ensures b <= 7
  {
    match c
    case Ok => 0
    case NotFound => 1
    case NotSupported => 2
    case InvalidArgument => 3
    case IOError => 4
    case RuntimeError => 5
    case IllegalState => 6
    case OOM => 7
  }

  /** `static_cast<Code>` of a stored code byte. */
  function CodeFromByte(b: byte): (c: Code)
    requires b <= 7
    ensures CodeByte(c) == b
  {
    if b == 0 then Ok
    else if b == 1 then NotFound
    else if b == 2 then NotSupported
    else if b == 3 then InvalidArgument
    else if b == 4 then IOError
    else if b == 5 then RuntimeError
    else if b == 6 then IllegalState
    else OOM
  }

  /** The code survives its trip through byte 4. */
  lemma CodeRoundTrip(c: Code)
    ensures CodeFromByte(CodeByte(c)) == c
  {
  }

  /** The two's-complement `uint16_t` pattern of an `int16_t`. */
  function Posix16(p: int): (u: nat)
    requires -0x8000 <= p < 0x8000
    ensures u < 0x1_0000
  {
    if p < 0 then p + 0x1_0000 else p
  }

  /** The `int16_t` whose two's-complement pattern is `u`. */
  function FromPosix16(u: nat): (p: int)
    requires u < 0x1_0000
    ensures -0x8000 <= p < 0x8000
    ensures Posix16(p) == u
  {
    if u >= 0x8000 then u - 0x1_0000 else u
  }

  /** A POSIX code survives its trip through bytes 5..7. */
  lemma PosixRoundTrip(p: int)
    requires -0x8000 <= p < 0x8000
    ensures FromPosix16(Posix16(p)) == p
  {
  }

  /** A state array the constructor could have produced. */
  predicate WellFormed(st: Status)
  {
    match st.state
    case None => true
    case Some(b) => |b| >= 7 && ReadLE32(b, 0) + 7 == |b| && b[4] <= 7
  }

  /** `operator bool`: a status is OK exactly when it holds no state. */
  predicate IsOk(st: Status)
  {
    st.state.None?
  }

  /** `code()`: byte 4 of the state, or `kOk` without state. */
  function CodeOf(st: Status): (c: Code)
    requires WellFormed(st)
    ensures c == Ok <== IsOk(st)
  {
    match st.state
    case None => Ok
    case Some(b) => CodeFromByte(b[4])
  }

  /** `message()`: the `size` bytes from byte 7 on, or an empty slice without state. */
  function Message(st: Status): (m: Bytes)
    requires WellFormed(st)
    ensures IsOk(st) ==> m == []
    ensures !IsOk(st) ==> |m| == ReadLE32(st.state.value, 0)
  {
    match st.state
    case None => []
    case Some(b) => b[7..7 + ReadLE32(b, 0)]
  }

  /** `posix_code()`: the `int16_t` at bytes 5..7, or 0 without state. */
  function PosixCode(st: Status): (p: int)
    requires WellFormed(st)
    ensures -0x8000 <= p < 0x8000
    ensures IsOk(st) ==> p == 0
  {
    match st.state
    case None => 0
    case Some(b) => FromPosix16(ReadLE16(b, 5))
  }

  /** The bytes of `": "`, placed between the two message parts. */
  const SEPARATOR: Bytes := [0x3a, 0x20]

  /** The message the constructor stores for `msg` and `msg2`. */
  function FullMessage(msg: Bytes, msg2: Bytes): Bytes
  {
    if |msg2| > 0 then msg + SEPARATOR + msg2 else msg
  }

  /**
   * The private constructor `Status(code, msg, msg2, posix_code)`: a fresh
   * array of `size + 7` bytes filled field by field. Constructing an OK
   * status this way is a checked error. Message lengths are `uint32_t`.
   */
  method Make(code: Code, msg: Bytes, msg2: Bytes, posix: int) returns (st: Status)
    requires code != Ok
    requires -0x8000 <= posix < 0x8000
    requires |FullMessage(msg, msg2)| < 0x1_0000_0000
    ensures WellFormed(st) && !IsOk(st)
    ensures CodeOf(st) == code
    ensures PosixCode(st) == posix
    ensures Message(st) == FullMessage(msg, msg2)
  {
    var len1, len2 := |msg|, |msg2|;
    var size := len1 + (if len2 != 0 then 2 + len2 else 0);
    var result := new byte[size + 7];
    WriteHeader(result, size, code, posix);
    ghost var header := result[..7];
    WriteMessage(result, msg, msg2);
    HeaderDecodes(header, result[..], size, code, posix);
    st := Status(Some(result[..]));
  }

  /** The bytes `WriteMessage` leaves in `b`: `msg` at 7, then `": "` and `msg2` when `msg2` is non-empty. */
  function MessageWritten(b: Bytes, msg: Bytes, msg2: Bytes): (r: Bytes)
    requires |b| == 7 + |FullMessage(msg, msg2)|
    ensures |r| == |b|
  {
    var withMsg := Overwrite(b, 7, msg);
    if |msg2| > 0 then Overwrite(Overwrite(withMsg, 7 + |msg|, SEPARATOR), 9 + |msg|, msg2) else withMsg
  }

  /** The writes keep the header and leave the full message after it. */
  lemma MessageWrittenParts(b: Bytes, msg: Bytes, msg2: Bytes)
    requires |b| == 7 + |FullMessage(msg, msg2)|
    ensures MessageWritten(b, msg, msg2)[..7] == b[..7]
    ensures MessageWritten(b, msg, msg2)[7..] == FullMessage(msg, msg2)
  {
    var n := |msg|;
    var withMsg := Overwrite(b, 7, msg);
    OverwriteParts(b, 7, msg);
    if |msg2| > 0 {
      var withSep := Overwrite(withMsg, 7 + n, SEPARATOR);
      OverwriteParts(withMsg, 7 + n, SEPARATOR);
      var r := Overwrite(withSep, 9 + n, msg2);
      OverwriteParts(withSep, 9 + n, msg2);
      assert r[..7] == withSep[..9 + n][..7];
      assert r[7..7 + n] == withSep[..9 + n][7..7 + n] == withMsg[7..7 + n];
      assert r[7 + n..9 + n] == withSep[..9 + n][7 + n..];
      assert r[7..] == r[7..7 + n] + r[7 + n..9 + n] + r[9 + n..];
    } else {
      assert withMsg[7..] == withMsg[7..7 + n];
    }
  }

  /** Fill bytes 7.. with `msg`, then `": "` and `msg2` when `msg2` is non-empty. */
  method WriteMessage(result: array<byte>, msg: Bytes, msg2: Bytes)
    requires result.Length == 7 + |FullMessage(msg, msg2)|
    modifies result
    ensures result[..7] == old(result[..7])
    ensures result[7..] == FullMessage(msg, msg2)
  {
    var len1, len2 := |msg|, |msg2|;
    ghost var start := result[..];
    CopyInto(result, 7, msg);
    if len2 != 0 {
      CopyInto(result, 7 + len1, SEPARATOR);
      CopyInto(result, 9 + len1, msg2);
    }
    assert result[..] == MessageWritten(start, msg, msg2);
    MessageWrittenParts(start, msg, msg2);
    assert result[..7] == result[..][..7];
  }

  /** The seven header bytes hold the message length, the code and the POSIX code. */
  predicate HeaderHolds(h: Bytes, size: nat, code: Code, posix: int)
    requires -0x8000 <= posix < 0x8000
  {
    |h| >= 7 && ReadLE32(h, 0) == size && h[4] == CodeByte(code) && ReadLE16(h, 5) == Posix16(posix)
  }

  /** A state array whose header holds `size`, `code` and `posix` decodes to them. */
  lemma HeaderDecodes(h: Bytes, b: Bytes, size: nat, code: Code, posix: int)
    requires -0x8000 <= posix < 0x8000
    requires HeaderHolds(h, size, code, posix) && |h| == 7 && |b| == size + 7 && b[..7] == h
    ensures WellFormed(Status(Some(b)))
    ensures CodeOf(Status(Some(b))) == code
    ensures PosixCode(Status(Some(b))) == posix
    ensures Message(Status(Some(b))) == b[7..]
  {
    assert b[0] == h[0] && b[1] == h[1] && b[2] == h[2] && b[3] == h[3];
    assert b[4] == h[4] && b[5] == h[5] && b[6] == h[6];
    assert ReadLE32(b, 0) == ReadLE32(h, 0);
    assert ReadLE16(b, 5) == ReadLE16(h, 5);
    CodeRoundTrip(code);
    PosixRoundTrip(posix);
  }

  /** Fill bytes 0..7 of a fresh state array, field by field. */
  method WriteHeader(result: array<byte>, size: nat, code: Code, posix: int)
    requires -0x8000 <= posix < 0x8000 && size < 0x1_0000_0000 && result.Length >= 7
    modifies result
    ensures HeaderHolds(result[..7], size, code, posix)
  {
    var sizeBytes := LE32(size);
    result[0], result[1], result[2], result[3] := sizeBytes[0], sizeBytes[1], sizeBytes[2], sizeBytes[3];
    result[4] := CodeByte(code);
    var posixBytes := LE16(Posix16(posix));
    result[5], result[6] := posixBytes[0], posixBytes[1];
    assert result[..7][0..4] == sizeBytes;
    LE32RoundTrip(size, result[..7], 0);
    assert result[..7][5..7] == posixBytes;
    LE16RoundTrip(Posix16(posix), result[..7], 5);
  }

  /** `Status::OK()`: no state. Its POSIX code reads as 0, although the accessor's comment promises -1. */
  function OkStatus(): (st: Status)
    ensures WellFormed(st) && IsOk(st)
    ensures CodeOf(st) == Ok && Message(st) == [] && PosixCode(st) == 0
  {
    Status(None)
  }

  /** `Status::NotFound(msg, msg2, posix_code = -1)`. */
  method NotFoundStatus(msg: Bytes, msg2: Bytes, posix: int) returns (st: Status)
    requires -0x8000 <= posix < 0x8000 && |FullMessage(msg, msg2)| < 0x1_0000_0000
    ensures WellFormed(st) && CodeOf(st) == NotFound
    ensures Message(st) == FullMessage(msg, msg2) && PosixCode(st) == posix
    ensures posix == -1 ==> ToString(st) == Ascii("Not found") + SEPARATOR + FullMessage(msg, msg2)
    ensures posix != -1 ==> ToString(st) == Ascii("Not found") + SEPARATOR + FullMessage(msg, msg2) + ErrorNote(posix)
  {
    st := Make(NotFound, msg, msg2, posix);
    MadePrints(st, msg, msg2, posix);
  }

  /** `Status::NotSupported(msg, msg2, posix_code = -1)`. */
  method NotSupportedStatus(msg: Bytes, msg2: Bytes, posix: int) returns (st: Status)
    requires -0x8000 <= posix < 0x8000 && |FullMessage(msg, msg2)| < 0x1_0000_0000
    ensures WellFormed(st) && CodeOf(st) == NotSupported
    ensures Message(st) == FullMessage(msg, msg2) && PosixCode(st) == posix
    ensures posix == -1 ==> ToString(st) == Ascii("Not implemented") + SEPARATOR + FullMessage(msg, msg2)
    ensures posix != -1 ==> ToString(st) == Ascii("Not implemented") + SEPARATOR + FullMessage(msg, msg2) + ErrorNote(posix)
  {
    st := Make(NotSupported, msg, msg2, posix);
    MadePrints(st, msg, msg2, posix);
  }

  /** `Status::InvalidArgument(msg, msg2, posix_code = -1)`. */
  method InvalidArgumentStatus(msg: Bytes, msg2: Bytes, posix: int) returns (st: Status)
    requires -0x8000 <= posix < 0x8000 && |FullMessage(msg, msg2)| < 0x1_0000_0000
    ensures WellFormed(st) && CodeOf(st) == InvalidArgument
    ensures Message(st) == FullMessage(msg, msg2) && PosixCode(st) == posix
    ensures posix == -1 ==> ToString(st) == Ascii("Invalid argument") + SEPARATOR + FullMessage(msg, msg2)
    ensures posix != -1 ==> ToString(st) == Ascii("Invalid argument") + SEPARATOR + FullMessage(msg, msg2) + ErrorNote(posix)
  {
    st := Make(InvalidArgument, msg, msg2, posix);
    MadePrints(st, msg, msg2, posix);
  }

  /** `Status::IOError(msg, msg2, posix_code = -1)`. */
  method IOErrorStatus(msg: Bytes, msg2: Bytes, posix: int) returns (st: Status)
    requires -0x8000 <= posix < 0x8000 && |FullMessage(msg, msg2)| < 0x1_0000_0000
    ensures WellFormed(st) && CodeOf(st) == IOError
    ensures Message(st) == FullMessage(msg, msg2) && PosixCode(st) == posix
    ensures posix == -1 ==> ToString(st) == Ascii("IO error") + SEPARATOR + FullMessage(msg, msg2)
    ensures posix != -1 ==> ToString(st) == Ascii("IO error") + SEPARATOR + FullMessage(msg, msg2) + ErrorNote(posix)
  {
    st := Make(IOError, msg, msg2, posix);
    MadePrints(st, msg, msg2, posix);
  }

  /**
   * `Status::OOM(msg, msg2, posix_code = -1)`: built with the IO-error code,
   * so it is indistinguishable from an IO error and prints as one.
   */
  method OOMStatus(msg: Bytes, msg2: Bytes, posix: int) returns (st: Status)
    requires -0x8000 <= posix < 0x8000 && |FullMessage(msg, msg2)| < 0x1_0000_0000
    ensures WellFormed(st) && CodeOf(st) == IOError && CodeOf(st) != OOM
    ensures CodeAsString(st) == Ascii("IO error")
    ensures Message(st) == FullMessage(msg, msg2) && PosixCode(st) == posix
    ensures posix == -1 ==> ToString(st) == Ascii("IO error") + SEPARATOR + FullMessage(msg, msg2)
    ensures posix != -1 ==> ToString(st) == Ascii("IO error") + SEPARATOR + FullMessage(msg, msg2) + ErrorNote(posix)
  {
    st := Make(IOError, msg, msg2, posix);
    MadePrints(st, msg, msg2, posix);
  }

  /** `CodeAsString()`: the name of the code; a state holding `kOOM` has none and is fatal. */
  function CodeAsString(st: Status): Bytes
    requires WellFormed(st) && CodeOf(st) != OOM
  {
    match CodeOf(st)
    case Ok => Ascii("OK")
    case NotFound => Ascii("Not found")
    case NotSupported => Ascii("Not implemented")
    case InvalidArgument => Ascii("Invalid argument")
    case IOError => Ascii("IO error")
    case RuntimeError => Ascii("Runtime error")
    case IllegalState => Ascii("Illegal state")
  }

  /** The decimal digits of `n`, as `%d` prints them. */
  function Decimal(n: int): (r: Bytes)
    ensures |r| > 0
  {
    if n < 0 then Ascii("-") + Digits(-n) else Digits(n)
  }

  /** The number a `%d` rendering denotes: an optional minus sign, then digits. */
  function DecimalValue(r: Bytes): int
  {
    if |r| > 0 && r[0] == 0x2d then 0 - DigitsValue(r[1..]) as int else DigitsValue(r)
  }

  /** The `%d` rendering of any POSIX code denotes that code, negative ones included. */
  lemma DecimalRoundTrip(n: int)
    ensures DecimalValue(Decimal(n)) == n
  {
    if n < 0 {
      var r := Decimal(n);
      assert r[0] == 0x2d && r[1..] == Digits(-n);
      DigitsRoundTrip(-n);
    } else {
      DigitsRoundTrip(n);
    }
  }

  /** The digits of `n`, most significant first. */
  function Digits(n: nat): (r: Bytes)
    ensures |r| > 0
    ensures forall i :: 0 <= i < |r| ==> 0x30 <= r[i] <= 0x39
  {
    ByteRoundTrip(0x30 + n % 10);
    var last := ToByte(0x30 + n % 10);
    if n < 10 then [last] else Digits(n / 10) + [last]
  }

  /** The number a run of decimal digits denotes. */
  function DigitsValue(r: Bytes): nat
  {
    if |r| == 0 then 0
    else DigitsValue(r[..|r| - 1]) * 10 + (if r[|r| - 1] >= 0x30 then (r[|r| - 1] - 0x30) as nat else 0)
  }

  /** The digits printed for `n` denote `n`. */
  lemma {:induction false} DigitsRoundTrip(n: nat)
    ensures DigitsValue(Digits(n)) == n
  {
    ByteRoundTrip(0x30 + n % 10);
    var r := Digits(n);
    assert r[..|r| - 1] == if n < 10 then [] else Digits(n / 10);
    if n >= 10 {
      DigitsRoundTrip(n / 10);
    }
  }

  /** How a status built by `Make` prints: its name, `": "`, its message, and the error note unless the POSIX code is -1. */
  lemma MadePrints(st: Status, msg: Bytes, msg2: Bytes, posix: int)
    requires WellFormed(st) && !IsOk(st) && CodeOf(st) != OOM
    requires Message(st) == FullMessage(msg, msg2) && PosixCode(st) == posix
    ensures posix == -1 ==> ToString(st) == CodeAsString(st) + SEPARATOR + FullMessage(msg, msg2)
    ensures posix != -1 ==> ToString(st) == CodeAsString(st) + SEPARATOR + FullMessage(msg, msg2) + ErrorNote(posix)
  {
    assert CodeAsString(st) + SEPARATOR + FullMessage(msg, msg2) + [] == CodeAsString(st) + SEPARATOR + FullMessage(msg, msg2);
  }

  /**
   * The text `" (error N)"` printed after a failure's message: what stands
   * between `" (error "` and `")"` denotes the POSIX code.
   */
  function ErrorNote(posix: int): (r: Bytes)
    ensures |r| > 9 && DecimalValue(r[8..|r| - 1]) == posix
  {
    var r := Ascii(" (error ") + Decimal(posix) + Ascii(")");
    assert r[8..|r| - 1] == Decimal(posix);
    DecimalRoundTrip(posix);
    r
  }

  /**
   * `ToString()`: the code's name; for a failure, then `": "` and the
   * message, and `" (error N)"` unless the POSIX code is -1.
   */
  function ToString(st: Status): (r: Bytes)
    requires WellFormed(st) && CodeOf(st) != OOM
    ensures IsOk(st) ==> r == Ascii("OK")
    ensures !IsOk(st) ==> (|r| == |CodeAsString(st)| + 2 + |Message(st)| <==> PosixCode(st) == -1)
  {
    if IsOk(st) then CodeAsString(st)
    else
      var posix := PosixCode(st);
      CodeAsString(st) + SEPARATOR + Message(st)
        + (if posix != -1 then ErrorNote(posix) else [])
  }

  /** `CopyState`: read the length field and copy `size + 7` bytes. */
  function CopyState(state: Bytes): (r: Bytes)
    requires |state| >= 4 && ReadLE32(state, 0) + 7 <= |state|
    ensures |r| == ReadLE32(state, 0) + 7
  {
    state[..ReadLE32(state, 0) + 7]
  }

  /** The copy constructor: OK stays OK, a failure gets a copy of its state. */
  function Copy(st: Status): Status
    requires WellFormed(st)
  {
    match st.state
    case None => Status(None)
    case Some(b) => Status(Some(CopyState(b)))
  }

  /** A copy is identical to the original: same state bytes, hence same code, message and POSIX code. */
  lemma CopyIsIdentical(st: Status)
    requires WellFormed(st)
    ensures Copy(st) == st
    ensures WellFormed(Copy(st)) && CodeOf(Copy(st)) == CodeOf(st)
    ensures Message(Copy(st)) == Message(st) && PosixCode(Copy(st)) == PosixCode(st)
  {
    if st.state.Some? {
      var b := st.state.value;
      assert b[..ReadLE32(b, 0) + 7] == b;
    }
  }
}
