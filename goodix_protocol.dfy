/**
 * Wire protocol of the Goodix 5395 fingerprint sensor: frame encoding and
 * decoding with an additive checksum, the acknowledgement check, the
 * mixed-endian 32-bit reader, the OTP integrity hash, the image descrambler
 * and the FDT base-table transform.
 *
 * A byte is an integer in 0..255. Every place where the C code computes in
 * `int` and stores the result in a `guint8` or `guint16` is written with an
 * explicit `% 0x100` or `% 0x1_0000`; shifts by constants are
 * multiplications and divisions, masks `& (2^k - 1)` are `% 2^k`, and `|`
 * and `^` are `Bits.Or` and `Bits.Xor`.
 */
module GoodixProtocol {

  import ModArith
  import Bits

  type byte = x: int | 0 <= x < 0x100

  /** The value range of a `guint16`. */
  type uint16 = x: int | 0 <= x < 0x1_0000

  /** Checksum byte that tells the receiver not to validate the frame. */
  const NullChecksum: byte := 0x88

  /** Size of the packed header: a `cmd` byte and a 16-bit `length`. */
  const HeaderSize: nat := 3

  /** Index of the OTP byte that holds the expected hash. */
  const OtpHashOffset: nat := 25

  /** Raw image bytes per chunk, and decoded bytes per chunk. */
  const ChunkSize: nat := 6
  const GroupSize: nat := 4

  datatype Option<T> = None | Some(value: T)

  datatype Result<T, E> = Ok(value: T) | Err(error: E)

  datatype Outcome<E> = Pass | Fail(error: E)

  /** A logical message: 4-bit category, 3-bit command and a payload. */
  datatype Message = Message(category: byte, command: byte, payload: seq<byte>)

  /** The decoder's only failure: the checksum it computed (`expected`) is not
      the checksum byte of the frame (`received`). */
  datatype DecodeError = ChecksumMismatch(expected: byte, received: byte)

  /** Reasons an acknowledgement is rejected. */
  datatype AckError = NotAnAck | AckHasCommand

  // ---------------------------------------------------------------------
  // Checksum
  // ---------------------------------------------------------------------

  /** Unbounded sum of the bytes. */
  function Sum(s: seq<byte>): nat
  {
    if s == [] then 0 else Sum(s[..|s| - 1]) + s[|s| - 1]
  }

  /** The frame checksum of `s`: the byte that brings the sum of `s` to
      0xAA modulo 256. */
  function ChecksumOf(s: seq<byte>): (c: byte)
    ensures (Sum(s) + c) % 0x100 == 0xAA
  {
    (0xAA - Sum(s)) % 0x100
  }

  /** The checksum routine: an 8-bit accumulator that wraps on every
      addition, then `0xAA - sum` masked to 8 bits (`& 0xFF` on a two's
      complement `int` is the non-negative remainder). Its length parameter
      is a `guint16`. */
  method CalcChecksum(data: seq<byte>, length: uint16) returns (checksum: byte)
    requires length <= |data|
    ensures checksum == (0xAA - Sum(data[..length]) % 0x100) % 0x100
    ensures checksum == ChecksumOf(data[..length])
  {
    var sum: byte := 0;
    var i := 0;
    while i < length
      invariant 0 <= i <= length
      invariant sum == Sum(data[..i]) % 0x100
    {
      assert data[..i + 1][..i] == data[..i];
      ModArith.AddMod(Sum(data[..i]), data[i], 0x100);
      sum := (sum + data[i]) % 0x100;
      i := i + 1;
    }
    ModArith.SubMod(0xAA, Sum(data[..length]), 0x100);
    checksum := (0xAA - sum) % 0x100;
  }

  /** Sum after replacing one byte. */
  lemma {:induction false} SumUpdate(s: seq<byte>, j: nat, x: byte)
    requires j < |s|
    ensures Sum(s[j := x]) == Sum(s) - s[j] + x
  {
    var t := s[j := x];
    if j == |s| - 1 {
      assert t[..|t| - 1] == s[..|s| - 1];
    } else {
      assert t[..|t| - 1] == s[..|s| - 1][j := x];
      SumUpdate(s[..|s| - 1], j, x);
    }
  }

  /** Changing any single byte always changes the checksum. */
  lemma ChecksumDetectsSingleByteChange(s: seq<byte>, j: nat, x: byte)
    requires j < |s| && x != s[j]
    ensures ChecksumOf(s[j := x]) != ChecksumOf(s)
  {
    SumUpdate(s, j, x);
    ModArith.ShiftChangesMod(0xAA - Sum(s), s[j] - x, 0x100);
  }

  // ---------------------------------------------------------------------
  // Messages
  // ---------------------------------------------------------------------

  /** Builds a message from the first `length` bytes of `payload`. */
  function CreateMessage(category: byte, command: byte, payload: seq<byte>, length: byte): (m: Message)
    requires length <= |payload|
    ensures m.category == category && m.command == command
    ensures |m.payload| == length && m.payload == payload[..length]
  {
    Message(category, command, payload[..length])
  }

  /** Builds a message that takes the payload as it is. */
  function CreateMessageByteArray(category: byte, command: byte, payload: seq<byte>): (m: Message)
    ensures m.category == category && m.command == command && m.payload == payload
  {
    Message(category, command, payload)
  }

  /** Setting an error that is already set keeps the earlier one: the
      result is the first error when there is one, otherwise the second. */
  function FirstError<E>(first: Option<E>, second: Option<E>): (r: Option<E>)
    ensures r.Some? <==> first.Some? || second.Some?
    ensures first.Some? ==> r == first
    ensures first.None? ==> r == second
  {
    if first.Some? then first else second
  }

  /** Accepts exactly the acknowledgement message: category 0xB, command 0.
      When both checks fail only the first error is kept. */
  function CheckAck(m: Message): (r: Outcome<AckError>)
    ensures r.Pass? <==> m.category == 0xB && m.command == 0
    ensures m.category != 0xB ==> r == Fail(NotAnAck)
    ensures m.category == 0xB && m.command != 0 ==> r == Fail(AckHasCommand)
  {
    var categoryError := if m.category != 0xB then Some(NotAnAck) else None;
    var commandError := if m.command != 0 then Some(AckHasCommand) else None;
    match FirstError(categoryError, commandError)
    case Some(e) => Fail(e)
    case None => Pass
  }

  /** Reads four bytes as two byte-swapped 16-bit halves. `length` is not
      used. */
  function DecodeU32(data: seq<byte>, length: nat): (r: nat)
    requires |data| >= 4
    ensures r < 0x1_0000_0000
    ensures r % 0x100 == data[1]
    ensures r / 0x100 % 0x100 == data[0]
    ensures r / 0x1_0000 % 0x100 == data[3]
    ensures r / 0x100_0000 == data[2]
  {
    DecodeU32Bytes(data[0], data[1], data[2], data[3]);
    data[0] as int * 0x100 + data[1] + data[2] as int * 0x100_0000 + data[3] as int * 0x1_0000
  }

  /** The four bytes of `d0 * 2^8 + d1 + d2 * 2^24 + d3 * 2^16`. */
  lemma DecodeU32Bytes(d0: byte, d1: byte, d2: byte, d3: byte)
    ensures var r := d0 as int * 0x100 + d1 + d2 as int * 0x100_0000 + d3 as int * 0x1_0000;
      && r < 0x1_0000_0000
      && r % 0x100 == d1 && r / 0x100 % 0x100 == d0
      && r / 0x1_0000 % 0x100 == d3 && r / 0x100_0000 == d2
  {
    var r := d0 as int * 0x100 + d1 + d2 as int * 0x100_0000 + d3 as int * 0x1_0000;
    var high := d2 as int * 0x100 + d3;
    var low := d0 as int * 0x100 + d1;
    assert r == high * 0x1_0000 + low;
    ModArith.ModUnique(r, 0x100, high * 0x100 + d0, d1);
    ModArith.ModUnique(high * 0x100 + d0, 0x100, high, d0);
    ModArith.ModUnique(r, 0x1_0000, high, low);
    ModArith.ModUnique(high, 0x100, d2, d3);
    ModArith.ModUnique(r, 0x100_0000, d2, d3 as int * 0x1_0000 + low);
  }

  // ---------------------------------------------------------------------
  // Frame encoding
  // ---------------------------------------------------------------------

  /** The header's `cmd` byte: `category << 4 | command << 1` stored into a
      `guint8`. */
  function CmdByte(category: byte, command: byte): (b: byte)
    ensures b % 0x10 == command % 8 * 2
    ensures b / 0x10 == Bits.Or(category, command / 8) % 0x10
  {
    CmdByteLayout(category, command);
    Bits.Or(category * 0x10, command * 2) % 0x100
  }

  /** Where the bits of `category << 4 | command << 1` land in a byte: the
      low nibble holds the low three bits of `command` above a zero bit, the
      high nibble the low four bits of `category | command >> 3`. */
  lemma CmdByteLayout(category: byte, command: byte)
    ensures var b := Bits.Or(category * 0x10, command * 2) % 0x100;
      && b % 0x10 == command % 8 * 2
      && b / 0x10 == Bits.Or(category, command / 8) % 0x10
  {
    var h := Bits.Or(category, command / 8);
    var l := command % 8 * 2;
    var x := Bits.Or(category * 0x10, command * 2);
    assert x == h * 0x10 + l by {
      CmdByteSplit(category, command);
    }
    ModArith.ModUnique(x, 0x100, h / 0x10, h % 0x10 * 0x10 + l);
    ModArith.ModUnique(h % 0x10 * 0x10 + l, 0x10, h % 0x10, l);
  }

  lemma CmdByteSplit(category: byte, command: byte)
    ensures Bits.Or(category * 0x10, command * 2) == Bits.Or(category, command / 8) * 0x10 + command % 8 * 2
  {
    Bits.OrAboveNibble(category, command * 2);
    DoubledNibbles(command);
  }

  lemma DoubledNibbles(command: byte)
    ensures command * 2 / 0x10 == command / 8 && command * 2 % 0x10 == command % 8 * 2
  {
    ModArith.ModUnique(command * 2, 0x10, command / 8, command % 8 * 2);
  }

  /** The decoder's reading of the `cmd` byte: `cmd >> 4` and
      `(cmd & 0xF) >> 1`. */
  function CategoryOf(cmd: byte): (category: byte)
    ensures category * 0x10 <= cmd < category * 0x10 + 0x10
  {
    cmd / 0x10
  }

  function CommandOf(cmd: byte): (command: byte)
    ensures command < 8 && cmd % 0x10 == 2 * command + cmd % 2
  {
    cmd % 0x10 / 2
  }

  /** A category that fits 4 bits and a command that fits 3 bits survive the
      `cmd` byte, which then carries them side by side. */
  lemma CmdByteFields(category: byte, command: byte)
    requires category < 0x10 && command < 8
    ensures CmdByte(category, command) == category * 0x10 + command * 2
    ensures CategoryOf(CmdByte(category, command)) == category
    ensures CommandOf(CmdByte(category, command)) == command
  {
    var cmd: int := category * 0x10 + command * 2;
    OrOfNibbles(category, command * 2);
    ModArith.ModUnique(cmd, 0x100, 0, cmd);
    ModArith.ModUnique(cmd, 0x10, category, command * 2);
  }

  /** `high << 4 | low` of two nibbles is `16 * high + low`. */
  lemma OrOfNibbles(high: nat, low: nat)
    requires high < 0x10 && low < 0x10
    ensures Bits.Or(high * 0x10, low) == high * 0x10 + low
  {
    Bits.Shift4(high);
    Bits.Shift4(1);
    Bits.OrDisjoint(high, low, 4);
  }

  /** The payload length the encoder uses: the payload's length stored in a
      `guint16`. */
  function PayloadLength(m: Message): (n: uint16)
    ensures n <= |m.payload|
    ensures |m.payload| < 0x1_0000 ==> n == |m.payload|
  {
    |m.payload| % 0x1_0000
  }

  /** The header's `length` field: payload length plus the checksum byte,
      stored in a `guint16`. */
  function LengthField(n: uint16): (v: uint16)
    ensures n < 0xFFFF ==> v == n + 1
    ensures n == 0xFFFF ==> v == 0
  {
    (n + 1) % 0x1_0000
  }

  /** Number of bytes the checksum routine covers when its caller passes
      `k`: its length parameter is a `guint16`. */
  function ChecksumSpan(k: nat): (span: uint16)
    ensures span <= k
    ensures k < 0x1_0000 ==> span == k
  {
    k % 0x1_0000
  }

  function LowByte(v: uint16): byte { v % 0x100 }
  function HighByte(v: uint16): byte { v / 0x100 }

  /** Size of the encoded buffer: header, payload and checksum, rounded up
      to a multiple of `blockSize` when `padData` is set. */
  function FrameSize(n: uint16, padData: bool, blockSize: nat): (size: nat)
    requires blockSize > 0
    ensures var len := HeaderSize + n + 1;
      if padData then size % blockSize == 0 && len <= size < len + blockSize
      else size == len
  {
    var len := HeaderSize + n + 1;
    if padData && len % blockSize != 0 then
      ModArith.RoundUpIsMultiple(len, blockSize);
      len + blockSize - len % blockSize
    else
      len
  }

  function Zeros(k: nat): (z: seq<byte>)
    ensures |z| == k && forall i | 0 <= i < k :: z[i] == 0
  {
    seq(k, _ => 0)
  }

  /** Header and payload: the part of the frame the checksum covers. */
  function FrameBody(m: Message): (body: seq<byte>)
    ensures var n := PayloadLength(m);
      && |body| == HeaderSize + n
      && body[0] == CmdByte(m.category, m.command)
      && body[1] == LowByte(LengthField(n)) && body[2] == HighByte(LengthField(n))
      && body[HeaderSize..] == m.payload[..n]
  {
    var length := LengthField(PayloadLength(m));
    [CmdByte(m.category, m.command), LowByte(length), HighByte(length)] + m.payload[..PayloadLength(m)]
  }

  /** The checksum byte of the frame: calculated over the body, or the
      sentinel. */
  function FrameChecksum(body: seq<byte>, calcChecksum: bool): byte
  {
    if calcChecksum then ChecksumOf(body[..ChecksumSpan(|body|)]) else NullChecksum
  }

  /** The buffer the encoder produces for message `m`: body, checksum byte
      and zero padding up to the frame size. */
  function Frame(m: Message, calcChecksum: bool, padData: bool, blockSize: nat): (f: seq<byte>)
    requires blockSize > 0
    ensures |f| == FrameSize(PayloadLength(m), padData, blockSize)
    ensures f[..HeaderSize + PayloadLength(m)] == FrameBody(m)
    ensures f[HeaderSize + PayloadLength(m)] == FrameChecksum(FrameBody(m), calcChecksum)
  {
    var body := FrameBody(m);
    body + [FrameChecksum(body, calcChecksum)] + Zeros(FrameSize(PayloadLength(m), padData, blockSize) - (|body| + 1))
  }

  /** The byte layout of an encoded frame. */
  lemma FrameLayout(m: Message, calcChecksum: bool, padData: bool, blockSize: nat)
    requires blockSize > 0
    ensures var f := Frame(m, calcChecksum, padData, blockSize); var n := PayloadLength(m);
      && |f| == FrameSize(n, padData, blockSize)
      && f[0] == CmdByte(m.category, m.command)
      && f[1] + 0x100 * (f[2] as int) == LengthField(n)
      && f[HeaderSize..HeaderSize + n] == m.payload[..n]
      && f[HeaderSize + n] == (if calcChecksum then ChecksumOf(f[..ChecksumSpan(HeaderSize + n)]) else NullChecksum)
      && forall i | HeaderSize + n + 1 <= i < |f| :: f[i] == 0
  {
    var f := Frame(m, calcChecksum, padData, blockSize);
    var n := PayloadLength(m);
    var body := FrameBody(m);
    assert f[..|body|] == body;
    assert f[..ChecksumSpan(|body|)] == body[..ChecksumSpan(|body|)] by {
      assert f[..|body|][..ChecksumSpan(|body|)] == f[..ChecksumSpan(|body|)];
    }
    assert f[HeaderSize..HeaderSize + n] == body[HeaderSize..] by {
      assert f[..|body|][HeaderSize..] == f[HeaderSize..HeaderSize + n];
    }
  }

  /** Encodes `message` into a zero-filled buffer, field by field. */
  method Encode(message: Message, calcChecksum: bool, padData: bool, blockSize: nat)
    returns (data: seq<byte>, dataLen: nat)
    requires blockSize > 0
    ensures data == Frame(message, calcChecksum, padData, blockSize)
    ensures dataLen == |data|
  {
    var payloadLen := PayloadLength(message);
    dataLen := HeaderSize + payloadLen + 1;
    if padData && dataLen % blockSize != 0 {
      dataLen := dataLen + blockSize - dataLen % blockSize;
    }
    assert dataLen == FrameSize(payloadLen, padData, blockSize);
    var buf := new byte[dataLen](_ => 0);
    buf[0] := CmdByte(message.category, message.command);
    var length := LengthField(payloadLen);
    buf[1] := LowByte(length);
    buf[2] := HighByte(length);
    forall i | 0 <= i < payloadLen {
      buf[HeaderSize + i] := message.payload[i];
    }
    var withPayload := HeaderSize + payloadLen;
    ghost var written := buf[..];
    ZeroFilledFrame(written, message);
    ghost var body := FrameBody(message);
    ghost var zeros := Zeros(dataLen - (withPayload + 1));
    if calcChecksum {
      assert written[..ChecksumSpan(withPayload)] == body[..ChecksumSpan(withPayload)];
      var checksum := CalcChecksum(buf[..], ChecksumSpan(withPayload));
      buf[withPayload] := checksum;
    } else {
      buf[withPayload] := NullChecksum;
    }
    data := buf[..];
    assert data == written[withPayload := FrameChecksum(body, calcChecksum)];
    SetAfter(body, zeros, FrameChecksum(body, calcChecksum));
  }

  /** A zero-filled buffer with the header and the payload written into it
      is the frame body, a zero byte and zeros. */
  lemma ZeroFilledFrame(w: seq<byte>, m: Message)
    requires var n := PayloadLength(m);
      && |w| >= HeaderSize + n + 1
      && w[0] == CmdByte(m.category, m.command)
      && w[1] == LowByte(LengthField(n)) && w[2] == HighByte(LengthField(n))
      && (forall i | 0 <= i < n :: w[HeaderSize + i] == m.payload[i])
      && (forall i | HeaderSize + n <= i < |w| :: w[i] == 0)
    ensures w == FrameBody(m) + [0] + Zeros(|w| - (HeaderSize + PayloadLength(m) + 1))
  {
    var n := PayloadLength(m);
    var body := FrameBody(m);
    var r := body + [0] + Zeros(|w| - (HeaderSize + n + 1));
    forall i | 0 <= i < |w|
      ensures w[i] == r[i]
    {
      if HeaderSize <= i < HeaderSize + n {
        assert body[i] == body[HeaderSize..][i - HeaderSize];
      }
    }
  }

  lemma SetAfter(body: seq<byte>, zeros: seq<byte>, c: byte)
    ensures (body + [0] + zeros)[|body| := c] == body + [c] + zeros
  {
  }

  // ---------------------------------------------------------------------
  // Frame decoding
  // ---------------------------------------------------------------------

  /** The header's `length` field, read little-endian. */
  function DeclaredLength(data: seq<byte>): (n: nat)
    requires |data| >= HeaderSize
    ensures n < 0x1_0000 && n % 0x100 == data[1] && n / 0x100 == data[2]
  {
    ModArith.ModUnique(data[1] + 0x100 * (data[2] as int), 0x100, data[2], data[1]);
    data[1] + 0x100 * (data[2] as int)
  }

  /** What the decoder needs of its input: a non-zero `length` field and
      every byte it declares. */
  predicate HoldsDeclaredFrame(data: seq<byte>)
  {
    |data| >= HeaderSize && DeclaredLength(data) >= 1 && HeaderSize + DeclaredLength(data) <= |data|
  }

  /** Decodes a frame, validating its checksum unless it is the sentinel. */
  function Decode(data: seq<byte>): (r: Result<Message, DecodeError>)
    requires HoldsDeclaredFrame(data)
    ensures var span := HeaderSize + DeclaredLength(data) - 1;
      && (r.Ok? <==> data[span] == NullChecksum || data[span] == ChecksumOf(data[..ChecksumSpan(span)]))
      && (r.Ok? ==> r.value.category == CategoryOf(data[0]) && r.value.command == CommandOf(data[0])
                    && r.value.category < 0x10 && r.value.command < 8
                    && r.value.payload == data[HeaderSize..span])
      && (r.Err? ==> r.error == ChecksumMismatch(ChecksumOf(data[..ChecksumSpan(span)]), data[span])
                     && r.error.expected != r.error.received)
  {
    var dataLength := HeaderSize + DeclaredLength(data) - 1;
    var received := data[dataLength];
    var expected := ChecksumOf(data[..ChecksumSpan(dataLength)]);
    if received != NullChecksum && received != expected then
      Err(ChecksumMismatch(expected, received))
    else
      Ok(Message(CategoryOf(data[0]), CommandOf(data[0]), data[HeaderSize..dataLength]))
  }

  /** Decoding an encoded message gives the message back, with or without a
      checksum and with or without padding. */
  lemma DecodeEncodeRoundTrip(m: Message, calcChecksum: bool, padData: bool, blockSize: nat)
    requires blockSize > 0
    requires m.category < 0x10 && m.command < 8 && |m.payload| <= 0xFFFE
    ensures var f := Frame(m, calcChecksum, padData, blockSize);
      && HoldsDeclaredFrame(f)
      && DeclaredLength(f) == |m.payload| + 1
      && Decode(f) == Ok(m)
  {
    var f := Frame(m, calcChecksum, padData, blockSize);
    var n := |m.payload|;
    FrameLayout(m, calcChecksum, padData, blockSize);
    assert DeclaredLength(f) == n + 1;
    CmdByteFields(m.category, m.command);
    assert m.payload[..n] == m.payload;
    assert Decode(f) == Ok(Message(CategoryOf(f[0]), CommandOf(f[0]), f[HeaderSize..HeaderSize + n]));
  }

  /** With a calculated checksum, corrupting one payload byte makes the
      decoder report a mismatch against the frame's checksum byte, unless
      that checksum happens to be the sentinel. */
  lemma DecodeRejectsCorruptedPayload(m: Message, padData: bool, blockSize: nat, j: nat, x: byte)
    requires blockSize > 0
    requires |m.payload| <= 0xFFFC && j < |m.payload| && x != m.payload[j]
    ensures var f := Frame(m, true, padData, blockSize);
      var g := f[HeaderSize + j := x];
      var n := |m.payload|;
      && HoldsDeclaredFrame(g)
      && (f[HeaderSize + n] != NullChecksum ==>
            Decode(g) == Err(ChecksumMismatch(ChecksumOf(g[..HeaderSize + n]), f[HeaderSize + n])))
  {
    var f := Frame(m, true, padData, blockSize);
    var n := |m.payload|;
    var g := f[HeaderSize + j := x];
    FrameLayout(m, true, padData, blockSize);
    assert DeclaredLength(g) == DeclaredLength(f) == n + 1;
    assert f[HeaderSize + j] == m.payload[j] by {
      assert f[HeaderSize..HeaderSize + n][j] == m.payload[..n][j];
    }
    assert g[..HeaderSize + n] == f[..HeaderSize + n][HeaderSize + j := x];
    ChecksumDetectsSingleByteChange(f[..HeaderSize + n], HeaderSize + j, x);
  }

  /** A payload of exactly 65535 bytes wraps the header's `length` field to
      0, so the encoder's frame is not one the decoder can read. */
  lemma FrameOfFullPayloadNotDecodable(m: Message, calcChecksum: bool, padData: bool, blockSize: nat)
    requires blockSize > 0 && |m.payload| == 0xFFFF
    ensures var f := Frame(m, calcChecksum, padData, blockSize);
      DeclaredLength(f) == 0 && !HoldsDeclaredFrame(f)
  {
    FrameLayout(m, calcChecksum, padData, blockSize);
  }

  /** A decoded frame is an acknowledgement exactly when its `cmd` byte is
      0xB0, or 0xB1 with the reserved low bit set. */
  lemma AckFromCmdByte(data: seq<byte>)
    requires HoldsDeclaredFrame(data) && Decode(data).Ok?
    ensures CheckAck(Decode(data).value).Pass? <==> data[0] == 0xB0 || data[0] == 0xB1
  {
  }

  // ---------------------------------------------------------------------
  // OTP hash
  // ---------------------------------------------------------------------

  /** `a ^ b` of two bytes. */
  function Xor8(a: byte, b: byte): byte
  {
    Bits.Shift8(1);
    Bits.XorBound(a, b, 8);
    Bits.Xor(a, b)
  }

  /** The hash state after the first `n` OTP bytes, skipping the stored hash
      at index 25: `state := table[state ^ otp[i]]` from 0. */
  function OtpFold(otp: seq<byte>, table: seq<byte>, n: nat): (state: byte)
    requires n <= |otp| && |table| >= 0x100
    ensures n == 0 ==> state == 0
    ensures n > 0 ==> state in table
  {
    if n == 0 then 0
    else
      var state := OtpFold(otp, table, n - 1);
      if n - 1 == OtpHashOffset then state else table[Xor8(state, otp[n - 1])]
  }

  /** Computes the OTP hash: `~state & 0xFF`, the complement of the folded
      state. */
  method ComputeOtpHash(otp: seq<byte>, otpLength: nat, table: seq<byte>) returns (hash: byte)
    requires otpLength <= |otp| && |table| >= 0x100
    ensures hash == 0xFF - OtpFold(otp, table, otpLength)
  {
    var state: byte := 0;
    var i := 0;
    while i < otpLength
      invariant 0 <= i <= otpLength
      invariant state == OtpFold(otp, table, i)
    {
      if i != OtpHashOffset {
        state := table[Xor8(state, otp[i])];
      }
      i := i + 1;
    }
    hash := (-(state as int) - 1) % 0x100;
  }

  /** Compares the hash stored at index 25 with the computed one. */
  method VerifyOtpHash(otp: seq<byte>, otpLength: nat, table: seq<byte>) returns (valid: bool)
    requires OtpHashOffset < |otp| && otpLength <= |otp| && |table| >= 0x100
    ensures valid <==> otp[OtpHashOffset] == 0xFF - OtpFold(otp, table, otpLength)
  {
    var received := otp[OtpHashOffset];
    var computed := ComputeOtpHash(otp, otpLength, table);
    valid := received == computed;
  }

  /** The stored hash byte takes no part in the hash. */
  lemma {:induction false} OtpFoldIgnoresStoredHash(otp: seq<byte>, table: seq<byte>, n: nat, x: byte)
    requires OtpHashOffset < |otp| && n <= |otp| && |table| >= 0x100
    ensures OtpFold(otp[OtpHashOffset := x], table, n) == OtpFold(otp, table, n)
  {
    if n > 0 {
      OtpFoldIgnoresStoredHash(otp, table, n - 1, x);
    }
  }

  /** Exactly one value of the stored hash byte passes verification. */
  lemma OtpHashUniqueValidByte(otp: seq<byte>, otpLength: nat, table: seq<byte>, x: byte)
    requires OtpHashOffset < |otp| && otpLength <= |otp| && |table| >= 0x100
    ensures var stored := otp[OtpHashOffset := x];
      (stored[OtpHashOffset] == 0xFF - OtpFold(stored, table, otpLength)) <==> x == 0xFF - OtpFold(otp, table, otpLength)
  {
    OtpFoldIgnoresStoredHash(otp, table, otpLength, x);
  }

  // ---------------------------------------------------------------------
  // Image descrambler
  // ---------------------------------------------------------------------

  /** Unpacks one 6-byte chunk into four bytes. Each value is a 12-bit
      sample computed in C `int` and stored into a `guint8`, so only its
      low eight bits survive. */
  function DescrambleChunk(c: seq<byte>): (g: seq<byte>)
    requires |c| == ChunkSize
    ensures |g| == GroupSize
    ensures g[0] == c[1]
    ensures g[1] == c[3] % 0x10 * 0x10 + c[0] / 0x10
    ensures g[2] == c[2]
    ensures g[3] == c[4] % 0x10 * 0x10 + c[5] / 0x10
  {
    KeepLowByte(c[0] % 0x10, c[1]);
    PackNibbles(c[3], c[0] / 0x10);
    KeepLowByte(c[5] % 0x10, c[2]);
    PackNibbles(c[4], c[5] / 0x10);
    var c: seq<int> := c;
    [ (c[0] % 0x10 * 0x100 + c[1]) % 0x100,
      (c[3] * 0x10 + c[0] / 0x10) % 0x100,
      (c[5] % 0x10 * 0x100 + c[2]) % 0x100,
      (c[4] * 0x10 + c[5] / 0x10) % 0x100 ]
  }

  /** Storing `hi << 8 + b` into a byte keeps `b`. */
  lemma KeepLowByte(hi: nat, b: byte)
    ensures (hi * 0x100 + b) % 0x100 == b
  {
    ModArith.ModUnique(hi * 0x100 + b, 0x100, hi, b);
  }

  /** Storing `a << 4 + n` into a byte, for a nibble `n`, keeps the low
      nibble of `a` above `n`. */
  lemma PackNibbles(a: byte, n: nat)
    requires n < 0x10
    ensures (a * 0x10 + n) % 0x100 == a % 0x10 * 0x10 + n
  {
    assert a * 0x10 + n == a / 0x10 * 0x100 + (a % 0x10 * 0x10 + n);
    ModArith.ModUnique(a * 0x10 + n, 0x100, a / 0x10, a % 0x10 * 0x10 + n);
  }

  lemma DescrambleChunkExample()
    ensures DescrambleChunk([0x12, 0x34, 0x56, 0x78, 0x9A, 0xBC]) == [0x34, 0x81, 0x56, 0xAB]
  {
  }

  /** Input chunk `k` of a raw image. */
  function Chunk(image: seq<byte>, k: nat): seq<byte>
    requires ChunkSize * k + ChunkSize <= |image|
  {
    image[ChunkSize * k..ChunkSize * k + ChunkSize]
  }

  /** Output group `k` of a decoded image. */
  function Group(decoded: seq<byte>, k: nat): seq<byte>
    requires GroupSize * k + GroupSize <= |decoded|
  {
    decoded[GroupSize * k..GroupSize * k + GroupSize]
  }

  /** Decodes a raw image chunk by chunk; group `k` of the output is the
      descrambled chunk `k` and depends on nothing else. */
  method DecodeImage(image: seq<byte>) returns (decoded: seq<byte>)
    requires |image| % ChunkSize == 0
    ensures |decoded| == |image| / ChunkSize * GroupSize
    ensures forall k | 0 <= k < |image| / ChunkSize :: Group(decoded, k) == DescrambleChunk(Chunk(image, k))
  {
    decoded := [];
    var i := 0;
    ghost var chunks := 0;
    while i < |image|
      invariant i == ChunkSize * chunks <= |image|
      invariant |decoded| == GroupSize * chunks
      invariant forall k | 0 <= k < chunks :: Group(decoded, k) == DescrambleChunk(Chunk(image, k))
    {
      var buffer := DescrambleChunk(image[i..i + ChunkSize]);
      assert Chunk(image, chunks) == image[i..i + ChunkSize];
      DecodedGroupsExtend(image, decoded, chunks);
      decoded := decoded + buffer;
      i := i + ChunkSize;
      chunks := chunks + 1;
    }
  }

  /** Appending the next descrambled chunk keeps every earlier group. */
  lemma DecodedGroupsExtend(image: seq<byte>, decoded: seq<byte>, chunks: nat)
    requires ChunkSize * chunks + ChunkSize <= |image| && |decoded| == GroupSize * chunks
    requires forall k | 0 <= k < chunks :: Group(decoded, k) == DescrambleChunk(Chunk(image, k))
    ensures var next := decoded + DescrambleChunk(Chunk(image, chunks));
      forall k | 0 <= k < chunks + 1 :: Group(next, k) == DescrambleChunk(Chunk(image, k))
  {
    var next := decoded + DescrambleChunk(Chunk(image, chunks));
    forall k | 0 <= k < chunks + 1
      ensures Group(next, k) == DescrambleChunk(Chunk(image, k))
    {
      if k < chunks {
        assert Group(next, k) == Group(decoded, k);
      }
    }
  }

  // ---------------------------------------------------------------------
  // FDT base transform
  // ---------------------------------------------------------------------

  /** Word `k` of a table of little-endian 16-bit words. */
  function Word(table: seq<byte>, k: nat): seq<byte>
    requires 2 * k + 2 <= |table|
  {
    table[2 * k..2 * k + 2]
  }

  /** Transforms one little-endian word `v` into
      `(v & 0xFFFE) * 0x80 | v >> 1` stored into a `guint16`, emitted
      little-endian. Byte-wise, the new low byte is `lo >> 1 | hi << 7` and
      the new high byte is that low byte or'ed with `hi >> 1`. */
  function FdtBaseWord(w: seq<byte>): (b: seq<byte>)
    requires |w| == 2
    ensures |b| == 2
    ensures b[0] == w[0] / 2 + w[1] % 2 * 0x80
    ensures b[1] == Bits.Or(b[0], w[1] / 2)
  {
    FdtBaseWordBytes(w[0], w[1]);
    var v := Bits.Or(w[0], w[1] as int * 0x100);
    var base := Bits.Or((v - v % 2) * 0x80, v / 2) % 0x1_0000;
    [base % 0x100, base / 0x100]
  }

  /** The bit-level reasoning behind `FdtBaseWord`. */
  lemma FdtBaseWordBytes(lo: byte, hi: byte)
    ensures var v := Bits.Or(lo, hi as int * 0x100);
      var base := Bits.Or((v - v % 2) * 0x80, v / 2) % 0x1_0000;
      && base % 0x100 == lo / 2 + hi % 2 * 0x80
      && base / 0x100 == Bits.Or(lo / 2 + hi % 2 * 0x80, hi / 2)
  {
    WordValue(lo, hi);
    HalfWord(lo, hi);
    var v := Bits.Or(lo, hi as int * 0x100);
    assert v == lo + hi as int * 0x100;
    var u := v / 2;
    assert (v - v % 2) * 0x80 == u * 0x100;
    OrSelfShifted(u);
  }

  /** `v >> 1` of the word `lo + 256 * hi`, and its two bytes. */
  lemma HalfWord(lo: byte, hi: byte)
    ensures var v := lo + hi as int * 0x100; var u := v / 2;
      && (v - v % 2) * 0x80 == u * 0x100
      && u % 0x100 == lo / 2 + hi % 2 * 0x80
      && u / 0x100 == hi / 2
  {
    var v := lo + hi as int * 0x100;
    var r := lo / 2 + hi % 2 * 0x80;
    assert v == 2 * (hi / 2 * 0x100 + r) + lo % 2;
    ModArith.ModUnique(v, 2, hi / 2 * 0x100 + r, lo % 2);
    ModArith.ModUnique(hi / 2 * 0x100 + r, 0x100, hi / 2, r);
  }

  /** `lo | hi << 8` of two bytes is `lo + 256 * hi`. */
  lemma WordValue(lo: byte, hi: byte)
    ensures Bits.Or(lo, hi as int * 0x100) == lo + hi as int * 0x100
  {
    Bits.Shift8(1);
    Bits.Shift8(hi);
    Bits.OrCommutes(lo, hi as int * 0x100);
    Bits.OrDisjoint(hi, lo, 8);
  }

  /** `u << 8 | u` truncated to 16 bits, for a 15-bit `u`: its low byte is
      the low byte of `u`, its high byte that low byte or'ed with the high
      byte of `u`. */
  lemma OrSelfShifted(u: nat)
    requires u < 0x8000
    ensures var l, h := u % 0x100, u / 0x100;
      var base := Bits.Or(u * 0x100, u) % 0x1_0000;
      && base % 0x100 == l
      && base / 0x100 == Bits.Or(l, h)
  {
    var l, h := u % 0x100, u / 0x100;
    OrShiftedSplit(u);
    OrWithHighByte(u);
    Bits.Shift8(1);
    Bits.OrBound(l, h, 8);
    var full := Bits.Or(u * 0x100, u);
    assert full == h * 0x1_0000 + (Bits.Or(l, h) * 0x100 + l);
    ModArith.ModUnique(full, 0x1_0000, h, Bits.Or(l, h) * 0x100 + l);
    ModArith.ModUnique(Bits.Or(l, h) * 0x100 + l, 0x100, Bits.Or(l, h), l);
  }

  lemma OrShiftedSplit(u: nat)
    ensures Bits.Or(u * 0x100, u) == Bits.Or(u, u / 0x100) * 0x100 + u % 0x100
  {
    var h := Bits.Or(u, u / 0x100);
    assert Bits.Or(Bits.Shl(u, 8) + 0, u) == Bits.Shl(h, 8) + u % 0x100 by {
      Bits.Shift8(1);
      Bits.Shift8(u);
      Bits.OrSplit(u, 0, u, 8);
      Bits.OrZero(u % 0x100);
    }
    Bits.Shift8(u);
    Bits.Shift8(h);
  }

  lemma OrWithHighByte(u: nat)
    requires u < 0x1_0000
    ensures Bits.Or(u, u / 0x100) == u / 0x100 * 0x100 + Bits.Or(u % 0x100, u / 0x100)
  {
    var l, h := u % 0x100, u / 0x100;
    Bits.Shift8(1);
    Bits.Shift8(h);
    assert u == Bits.Shl(h, 8) + l;
    Bits.OrSplit(h, l, h, 8);
    Bits.ShrLowSmall(h, 8);
    Bits.OrZero(h);
  }

  lemma FdtBaseWordExample()
    ensures FdtBaseWord([0x34, 0x12]) == [0x1A, 0x1B]
  {
    assert Bits.Or(0x1A, 0x09) == 0x1B;
  }

  /** Builds the FDT base table word by word, within the input's bounds. */
  method GenerateFdtBase(fdt: seq<byte>) returns (base: seq<byte>)
    requires |fdt| % 2 == 0
    ensures |base| == |fdt|
    ensures forall k | 0 <= k < |fdt| / 2 :: Word(base, k) == FdtBaseWord(Word(fdt, k))
  {
    base := [];
    var i := 0;
    while i < |fdt|
      invariant i % 2 == 0 && i <= |fdt|
      invariant |base| == i
      invariant forall k | 0 <= k < i / 2 :: Word(base, k) == FdtBaseWord(Word(fdt, k))
    {
      var buffer := FdtBaseWord(fdt[i..i + 2]);
      assert Word(fdt, i / 2) == fdt[i..i + 2];
      ghost var before := base;
      base := base + buffer;
      forall k | 0 <= k < i / 2 + 1
        ensures Word(base, k) == FdtBaseWord(Word(fdt, k))
      {
        if k < i / 2 {
          assert Word(base, k) == Word(before, k);
        } else {
          assert Word(base, k) == buffer;
        }
      }
      i := i + 2;
    }
  }

  /** The loop indices of the FDT transform as written: `i = 0, 2, 4, …`
      while `i <= len`. Each iteration reads bytes `i` and `i + 1`. */
  function AsWrittenFdtIndices(i: nat, len: nat): (indices: seq<nat>)
    ensures forall k | 0 <= k < |indices| :: indices[k] == i + 2 * k && indices[k] <= len
    decreases len + 2 - i
  {
    if i <= len then [i] + AsWrittenFdtIndices(i + 2, len) else []
  }

  /** The loop as written, started at any `i <= len`, runs `(len - i) / 2 + 1`
      iterations, and the last one reads byte `indices[last] + 1`, which is
      at or past the end of a table of `len` bytes. From `i = 0` that is one
      iteration more than the `len / 2` whole words of the table. */
  lemma {:induction false} AsWrittenFdtLoopReadsPastEnd(i: nat, len: nat)
    requires i % 2 == 0 && i <= len
    ensures var indices := AsWrittenFdtIndices(i, len);
      && |indices| == (len - i) / 2 + 1
      && indices[|indices| - 1] + 1 >= len
    decreases len - i
  {
    if i + 2 <= len {
      AsWrittenFdtLoopReadsPastEnd(i + 2, len);
    }
  }
}
