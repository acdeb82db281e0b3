# Goodix 5395 wire protocol in Dafny

This project models the protocol layer of the libfprint driver for the
Goodix 5395 fingerprint sensor, `libfprint/drivers/goodix/5395/goodix_protocol.c`.
That layer holds the byte-exact transforms every exchange with the sensor
goes through:

- **Framing.** A message is a 4-bit category, a 3-bit command and a
  payload. It travels as a 3-byte header, the payload and a checksum byte.
  The header holds a `cmd` byte with the category in the high nibble and the
  command in bits 1–3, then a little-endian `length` that counts payload and
  checksum. The checksum makes the byte sum of the frame equal 0xAA modulo
  256. A checksum byte of 0x88 tells the receiver not to check. Outgoing
  frames can be zero-padded to a multiple of the USB transfer block size.
- **Acknowledgements.** An ack is the message with category 0xB and
  command 0.
- **A mixed-endian 32-bit reader.** It reads two byte-swapped 16-bit
  halves.
- **The OTP integrity hash.** A table-driven fold over the sensor's
  one-time-programmable bytes skips the stored hash at index 25 and ends
  with a complement.
- **The image descrambler.** Each 6-byte chunk of a raw frame becomes four
  bytes.
- **The FDT base transform.** Each little-endian 16-bit word of the
  finger-detection table is turned into the base value the sensor expects.

Files:

- `goodix_protocol.dfy`, module `GoodixProtocol`: the model and its
  proofs.
- `bits.dfy`, module `Bits`: bitwise OR and XOR of non-negative integers,
  defined bit by bit, with the lemmas that turn `a << k | b` of disjoint
  operands into arithmetic.
- `mod_arith.dfy`, module `ModArith`: uniqueness of Euclidean division and
  the modular identities the checksum and the descrambler need.

A byte is an integer in `0..255`. Wherever the C code computes in `int` and
stores into a `guint8` or `guint16`, the model writes the truncation out as
`% 0x100` or `% 0x1_0000`. Shifts by constants become multiplications and
divisions. A mask `& (2^k - 1)` becomes `% 2^k`. `|` and `^` become
`Bits.Or` and `Bits.Xor`.

The code is imperative in a few places, and the model follows it there:

- The checksum and the OTP hash are `method`s with loops over an 8-bit
  accumulator.
- The encoder writes its fields into a zero-filled `array`.
- The image and FDT transforms are loops that append to their output.

Each method is proved against a specification function: `ChecksumOf`,
`OtpFold`, `Frame`, `DescrambleChunk` and `FdtBaseWord`. The properties are
proved about those functions. The rest is pure functions.

## Model

| member | source | states |
|---|---|---|
| GoodixProtocol.ChecksumOf | libfprint/drivers/goodix/5395/goodix_protocol.c:57-63 | the checksum is the byte that brings the sum of the covered bytes to 0xAA modulo 256 |
| GoodixProtocol.CalcChecksum | libfprint/drivers/goodix/5395/goodix_protocol.c:57-63 | the loop with an 8-bit wrapping accumulator returns `(0xAA - (sum mod 256)) mod 256` of the unbounded byte sum, which is `ChecksumOf` of the first `length` bytes |
| GoodixProtocol.ChecksumDetectsSingleByteChange | libfprint/drivers/goodix/5395/goodix_protocol.c:57-63 | replacing any one byte with a different value always changes the checksum |
| GoodixProtocol.CreateMessage | libfprint/drivers/goodix/5395/goodix_protocol.c:116-123 | the message carries the given category and command, and exactly the first `length` payload bytes |
| GoodixProtocol.CreateMessageByteArray | libfprint/drivers/goodix/5395/goodix_protocol.c:125-131 | the message carries the given category, command and the whole payload |
| GoodixProtocol.CheckAck | libfprint/drivers/goodix/5395/goodix_protocol.c:40-55 | passes iff category is 0xB and command is 0; a wrong category fails with `NotAnAck`, also when the command is wrong too, because `g_set_error` keeps the first error it is given (lines 42-48, modelled by `FirstError`); a right category with a non-zero command fails with `AckHasCommand` |
| GoodixProtocol.DecodeU32 | libfprint/drivers/goodix/5395/goodix_protocol.c:111-113 | the result is below 2^32 and its bytes from least significant up are `d[1]`, `d[0]`, `d[3]`, `d[2]` |
| GoodixProtocol.PayloadLength | libfprint/drivers/goodix/5395/goodix_protocol.c:67 | the `guint16` payload length never exceeds the payload and equals it for payloads shorter than 65536 bytes |
| GoodixProtocol.LengthField | libfprint/drivers/goodix/5395/goodix_protocol.c:79 | the header length is the payload length plus one for lengths below 0xFFFF, and wraps to 0 for a length of exactly 0xFFFF |
| GoodixProtocol.ChecksumSpan | libfprint/drivers/goodix/5395/goodix_protocol.c:57 | the `guint16` length parameter never covers more bytes than the caller asks for, and exactly as many below 65536 |
| GoodixProtocol.CmdByteFields | libfprint/drivers/goodix/5395/goodix_protocol.c:104-105 | for category < 16 and command < 8 the `cmd` byte is `16 * category + 2 * command`, and the decoder's `cmd >> 4` and `(cmd & 0xF) >> 1` give both back |
| GoodixProtocol.FrameSize | libfprint/drivers/goodix/5395/goodix_protocol.c:69-73 | without padding the frame is header, payload and checksum; with padding it is the least multiple of the block size that holds them |
| GoodixProtocol.FrameLayout | libfprint/drivers/goodix/5395/goodix_protocol.c:65-89 | the encoded frame has that size, byte 0 is the `cmd` byte, bytes 1–2 hold the length field little-endian, then the payload, then the checksum of everything before it (or 0x88), then zeros |
| GoodixProtocol.Encode | libfprint/drivers/goodix/5395/goodix_protocol.c:65-89 | the bytes written into the zero-filled buffer are exactly `Frame`, and the returned length is the buffer's length |
| GoodixProtocol.Decode | libfprint/drivers/goodix/5395/goodix_protocol.c:91-109 | succeeds iff the byte at `3 + length - 1` is 0x88 or the checksum of the bytes before it; success yields category `CategoryOf(data[0])` < 16, command `CommandOf(data[0])` < 8 and payload `data[3 .. 3 + length - 1)`; failure reports the computed and the received checksum, which differ, and yields no message |
| GoodixProtocol.DecodeEncodeRoundTrip | libfprint/drivers/goodix/5395/goodix_protocol.c:65-109 | for category < 16, command < 8 and at most 65534 payload bytes, decoding an encoded frame gives the message back, with or without checksum and padding |
| GoodixProtocol.DecodeRejectsCorruptedPayload | libfprint/drivers/goodix/5395/goodix_protocol.c:94-101 | for payloads of at most 0xFFFC bytes, in a frame with a calculated checksum other than 0x88, changing one payload byte makes the decoder fail with a checksum mismatch; for 65533 or 65534 payload bytes the `guint16` checksum length wraps to 0 or 1, so the checksum covers at most the `cmd` byte and a changed payload byte goes unnoticed |
| GoodixProtocol.AckFromCmdByte | libfprint/drivers/goodix/5395/goodix_protocol.c:40-55 | a successfully decoded frame is an ack iff its `cmd` byte is 0xB0 or 0xB1 |
| GoodixProtocol.ComputeOtpHash | libfprint/drivers/goodix/5395/goodix_protocol.c:133-142 | the loop's result is `255 - OtpFold`, the complement of `state := table[state ^ otp[i]]` folded over every index except 25 |
| GoodixProtocol.VerifyOtpHash | libfprint/drivers/goodix/5395/goodix_protocol.c:144-148 | valid iff `otp[25]` equals `255 - OtpFold` |
| GoodixProtocol.OtpFoldIgnoresStoredHash | libfprint/drivers/goodix/5395/goodix_protocol.c:133-142 | changing `otp[25]` never changes the computed hash |
| GoodixProtocol.OtpHashUniqueValidByte | libfprint/drivers/goodix/5395/goodix_protocol.c:144-148 | exactly one value of the stored hash byte makes verification pass |
| GoodixProtocol.DescrambleChunk | libfprint/drivers/goodix/5395/goodix_protocol.c:157-160 | after truncation to a byte the four outputs are `c1`, the low nibble of `c3` above the high nibble of `c0`, `c2`, and the low nibble of `c4` above the high nibble of `c5` |
| GoodixProtocol.DescrambleChunkExample | libfprint/drivers/goodix/5395/goodix_protocol.c:157-160 | `[12 34 56 78 9A BC]` descrambles to `[34 81 56 AB]` |
| GoodixProtocol.DecodeImage | libfprint/drivers/goodix/5395/goodix_protocol.c:150-165 | for input of a multiple of 6 bytes, the output has 4 bytes per chunk and group `k` is the descrambled chunk `k` |
| GoodixProtocol.FdtBaseWord | libfprint/drivers/goodix/5395/goodix_protocol.c:176-179 | for the word `lo + 256 * hi`, the new low byte is `lo >> 1` with bit 0 of `hi` on top, and the new high byte is that low byte or'ed with `hi >> 1` |
| GoodixProtocol.FdtBaseWordBytes | libfprint/drivers/goodix/5395/goodix_protocol.c:176-179 | the word formula `((v & 0xFFFE) * 0x80 OR v >> 1) mod 2^16`, with `v = lo OR hi << 8`, splits into exactly those two bytes |
| GoodixProtocol.FdtBaseWordExample | libfprint/drivers/goodix/5395/goodix_protocol.c:176-179 | the word 0x1234 becomes the bytes `1A 1B` |
| GoodixProtocol.GenerateFdtBase | libfprint/drivers/goodix/5395/goodix_protocol.c:172-183 | for a table of even length the output is as long as the input and each output word is `FdtBaseWord` of the input word |
| GoodixProtocol.AsWrittenFdtLoopReadsPastEnd | libfprint/drivers/goodix/5395/goodix_protocol.c:175 | the loop as written runs `(len - i) / 2 + 1` times, and its last iteration reads a byte at or past the end of the table |
| GoodixProtocol.FirstError | libfprint/drivers/goodix/5395/goodix_protocol.c:42-48 | setting an error when one is already set keeps the first: the result is the first error if there is one, otherwise the second, and there is an error iff either call set one |
| GoodixProtocol.CmdByte | libfprint/drivers/goodix/5395/goodix_protocol.c:78 | the low nibble of the `cmd` byte is `command mod 8` shifted left by one, and the high nibble is `category` or'ed with the command bits above bit 2, truncated to 4 bits |
| GoodixProtocol.CategoryOf | libfprint/drivers/goodix/5395/goodix_protocol.c:104 | `cmd >> 4` is the category whose 16-value block contains `cmd` |
| GoodixProtocol.CommandOf | libfprint/drivers/goodix/5395/goodix_protocol.c:105 | `(cmd & 0xF) >> 1` is below 8, and the low nibble of `cmd` is twice it plus bit 0 |
| GoodixProtocol.DeclaredLength | libfprint/drivers/goodix/5395/goodix_protocol.c:93 | the header's `length` is below 65536, with low byte `data[1]` and high byte `data[2]` |
| GoodixProtocol.Frame | libfprint/drivers/goodix/5395/goodix_protocol.c:65-89 | the encoder's buffer has the frame size, starts with the header and payload, and carries the checksum byte (or 0x88) right after them |
| GoodixProtocol.FrameOfFullPayloadNotDecodable | libfprint/drivers/goodix/5395/goodix_protocol.c:79 | a payload of exactly 65535 bytes gives a frame whose `length` field is 0, which the decoder cannot read |
| GoodixProtocol.OtpFold | libfprint/drivers/goodix/5395/goodix_protocol.c:135-140 | the fold starts from state 0, and after at least one byte its state is an entry of the table |
| GoodixProtocol.AsWrittenFdtIndices | libfprint/drivers/goodix/5395/goodix_protocol.c:175 | the loop as written visits `i, i + 2, i + 4, …`, each at most `len` |

## Left out

- `fpi_goodix_protocol_data_to_str` and `fpi_goodix_protocol_write_pgm`:
  diagnostic hex dump and file export through `sprintf`, `fopen` and
  `fwrite`, which is I/O.
- `fpi_goodix_protocol_free_message`, `g_malloc0` and the `GByteArray`
  ownership: memory management. Messages and byte arrays are values, so the
  model has no aliasing. `create_message_byte_array` shares the caller's
  array; the model copies.
- `GError` texts and `fp_dbg` logging: errors are `Result`/`Outcome` values.
- `goodix_protocol.h` is not part of this model. The header is assumed
  packed: a `cmd` byte and a 16-bit `length`, 3 bytes in all.
  `GOODIX_EP_OUT_MAX_BUF_SIZE` is the parameter `blockSize > 0`.
- The decoder reads `length` without byte-order conversion. The model reads
  it little-endian, as the encoder writes it.
- GoodixProtocol.Decode: requires `HoldsDeclaredFrame`, that is, a
  non-zero `length` field and all the bytes it declares. The decoder does
  no bounds check of its own. A short buffer makes it read past the end.
  A zero `length` gives `data_length = 2`. Reading `data[2]` is still in
  bounds, and a checksum mismatch is rejected cleanly (lines 93-99). Only
  when the check passes, or the byte is 0x88, does line 107 append
  `0 - 1`, that is 2^32 - 1, bytes and read out of bounds. The requires
  therefore also drops that clean rejection of a zero-length frame.
- Encoding a payload of exactly 65535 bytes wraps the `length` field to 0
  (line 79). The decoder cannot read the resulting frame, and
  `FrameOfFullPayloadNotDecodable` states so. The round trip is stated
  only up to 65534 payload bytes.
- GoodixProtocol.DecodeU32: returns the mathematical value, below 2^32. In C
  the sum is a signed `int`, and it overflows (undefined behaviour) when
  `d[2] >= 0x80`.
- GoodixProtocol.Encode: `data_len` is a `guint32`, but the model's length
  is unbounded. The two differ only for a block size near 2^32.
- GoodixProtocol.DecodeImage: requires a length that is a multiple of 6,
  because the C loop reads past the end of the last partial chunk
  otherwise.
- GoodixProtocol.GenerateFdtBase: models the loop with `i < len` and
  requires an even length. As written, the loop reads past the end of the
  table (see Findings).
- GoodixProtocol.ComputeOtpHash: requires at least 256 table entries and
  `otp_length` bytes of OTP data, which the C code takes on trust from its
  caller.
- The checksum routine's `guint16` length parameter is modelled as
  written, by `ChecksumSpan`. For frames of 65536 bytes or more, the
  checksum covers only the first `span mod 65536` bytes. Encoder and decoder
  truncate alike, so the round trip holds up to 65534 payload bytes.

## Findings

| source | as written | input that shows it | evidently intended | confidence | as-written member | corrected member |
|---|---|---|---|---|---|---|
| libfprint/drivers/goodix/5395/goodix_protocol.c:175 | the FDT loop runs while `i <= len`, so its last iteration starts at index `len` and reads bytes `len` and `len + 1` | a 2-byte table `[34 12]`: the second iteration reads bytes 2 and 3, which lie past its end, and appends a second, spurious word | loop while `i < len`, one output word per input word | not executed | GoodixProtocol.AsWrittenFdtLoopReadsPastEnd | GoodixProtocol.GenerateFdtBase |
