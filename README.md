# GF font decoder, modelled in Dafny

This project models the decoder for GF ("generic font") files, the raster
font format that METAFONT writes, together with the byte readers it uses.

A GF file is a stream of one-byte opcodes, each followed by its parameters.
The decoder reads one opcode at a time and updates a decoding context:

- `paint` draws runs of pixels, alternating black and white;
- `skip` and `new_row` move the pen down to a later row;
- `boc`/`boc1` begin a character and set its bounding box;
- `eoc` stores the finished character in the font;
- `xxx`/`yyy` collect specials and their numeric parameters;
- `pre` checks the identification byte 131 and reads the title;
- `post` ends the decode.

The readers `read1`..`read4` decode big-endian integers of 1 to 4 bytes.
Reads of 1 to 3 bytes are zero-extended. A 4-byte read is two's complement.
`read_string` reads a string of an exact, positive length.

The project has five modules:

- `BigEndian` defines the value of a read: `from_be_bytes` over a
  zero-extended 4-byte buffer. It is proved equal to a reference unsigned /
  two's-complement definition, with round trips against the big-endian
  encoding.
- `Outcome` holds the error kinds and a `Result` type that supports `:-`.
- `FileReader` has pure functions saying what a read at a position yields
  (`IntAt`, `StringAt`). A `Reader` class performs each read in place: it
  fills a buffer array and advances a position in a byte sequence. Each
  read method is proved to do what the function says.
- `GfSpec` is the value-level semantics:
  - each handler as a function of the decode state;
  - `Dispatch` for one opcode and `Step` for one turn of the loop;
  - `Run` and `Decode` for the whole loop.
  Lemmas state what a step and a whole decode guarantee:
  - characters are only appended;
  - only `post` finishes a decode;
  - every recorded run is at least one pixel wide, starts at or right of min_m and lies on or below max_n (nothing bounds it by max_m or min_n);
  - a decode depends only on the bytes up to `post`;
  - the unit tests' expected values.
- `GfReader` is the decoder as the source runs it: classes `Context` and
  `CharacterContext`, whose handler methods update fields in place, and
  `GfRead`, the `while !finished` loop. Each handler method is proved to
  produce exactly the state its `GfSpec` function gives. `GfRead` is proved
  to return exactly `GfSpec.Run` from the initial state.

Reads past the end of the input fail with `UnexpectedEof`. The source's
`read1`..`read4` do not fail there; see "## Findings".

Two points where the specification and the code differ follow the code:

- The specification describes postamble metrics and fixed-point reads. The
  code reads none of them: `post` only sets `finished`.
- `read_string` asserts that the size is positive. A zero-length special or
  title therefore aborts the decode; it is modelled as the error
  `NonPositiveStringSize`.

## Model

| member | source | states |
|---|---|---|
| BigEndian.FromBeBytes | src/file_reader.rs:14 | `i32::from_be_bytes`: the result is an i32, and it is negative exactly when the first byte has its top bit set |
| BigEndian.FromBeBytesIsTwosComplement | src/file_reader.rs:26 | `from_be_bytes` is the unsigned big-endian value, minus 2^32 when the top bit is set |
| BigEndian.ReadValue | src/file_reader.rs:5-27 | the value of a 1- to 4-byte read is an i32; 1-3 byte reads lie in [0, 256^k); the value is negative only for a 4-byte read whose first byte is >= 0x80 |
| BigEndian.ZeroExtended | src/file_reader.rs:12-25 | the 4-byte buffer `read2`..`read4` fill: zeros first, the k read bytes in its last k places |
| Outcome.Message | src/gf_reader.rs:62-72 | each failure reports its own text: the four `GFError` messages, `read_exact`'s end-of-input message and the failed assertion's; distinct failures report distinct texts |
| BigEndian.FromBeBytesReads | src/file_reader.rs:11-27 | zero-extending k bytes into the tail of a zeroed 4-byte buffer and applying `from_be_bytes` gives `ReadValue` of those bytes |
| BigEndian.Read4RoundTrip | src/file_reader.rs:23-27 | `read4` of the big-endian encoding of any i32 returns that i32 |
| BigEndian.Read4Bijective | src/file_reader.rs:23-27 | every 4 bytes are the big-endian encoding of the i32 `read4` makes of them |
| BigEndian.NarrowReadRoundTrip | src/file_reader.rs:11-21 | `read1`..`read3` invert the unsigned k-byte encoding of every value below 256^k |
| BigEndian.NarrowReadBijective | src/file_reader.rs:11-21 | every k-byte input (k = 1..3) is the unsigned encoding of the value read from it |
| BigEndian.ReadValueExamples | src/file_reader.rs:46-77 | [47] gives 47, [47,56] gives 12088, [47,56,0] gives 12088*256, [ff,ff,00,00] gives -65536 |
| FileReader.IntAt | src/file_reader.rs:5-27 | `readN` at a position succeeds exactly when N bytes remain, otherwise `UnexpectedEof`; it consumes exactly N bytes; 1-3 byte values lie in [0, 256^N); a 1-byte read is the byte itself; a 4-byte value is negative exactly when its first byte is >= 0x80 |
| FileReader.CursorIntAt | src/file_reader.rs:5-27 | `readN` as written over an in-memory stream: it consumes at most the bytes left, agrees with `IntAt` when N bytes remain, and yields 0 at the end of input |
| FileReader.StringAt | src/file_reader.rs:29-33 | `read_string(size)` fails for size <= 0, fails with `UnexpectedEof` when fewer than size bytes remain, and otherwise returns exactly the next size bytes and consumes them |
| FileReader.Reader.constructor | src/file_reader.rs:46-49 | a stream over the given bytes, positioned at the start |
| FileReader.Reader.ReadInto | src/file_reader.rs:31-32 | filling `buf[from..]` succeeds exactly when enough bytes remain; it copies the next bytes in order, keeps `buf[..from]`, and advances the position by the count; on failure nothing changes |
| FileReader.Reader.Read1 | src/file_reader.rs:5-9 | the read returns and consumes what `IntAt(data, pos, 1)` says; on failure the position is unchanged |
| FileReader.Reader.Read2 | src/file_reader.rs:11-15 | reading two bytes into the low half of a zeroed 4-byte buffer gives `IntAt(data, pos, 2)` |
| FileReader.Reader.Read3 | src/file_reader.rs:17-21 | reading three bytes into the low three bytes of a zeroed buffer gives `IntAt(data, pos, 3)` |
| FileReader.Reader.Read4 | src/file_reader.rs:23-27 | reading four bytes and applying `from_be_bytes` gives `IntAt(data, pos, 4)` |
| FileReader.Reader.ReadString | src/file_reader.rs:29-33 | the read returns and consumes what `StringAt(data, pos, size)` says |
| FileReader.ReadSuccessiveBytes | src/file_reader.rs:46-53 | two `read1` calls on a fresh stream return its first and second bytes, or `UnexpectedEof` when they are missing |
| FileReader.StringAtExample | src/file_reader.rs:79-85 | size 11 over the 26-letter alphabet gives its first 11 letters |
| GfSpec.Paint | src/gf_reader.rs:74-88 | m grows by exactly d and the colour flips; a run (m, n, d) is appended exactly when the colour was black and d > 0; nothing else in the character changes |
| GfSpec.BocCommon | src/gf_reader.rs:99-115 | a started character with the given code and box, no runs and no specials; the pen at (min_m, max_n), colour white |
| GfSpec.Boc | src/gf_reader.rs:90-97 | only the open character and the position change, and the position only moves forward |
| GfSpec.BocReads | src/gf_reader.rs:90-97 | `boc` succeeds exactly when 20 bytes remain, otherwise `UnexpectedEof`; it skips the 4-byte pointer and takes min_m, max_m, min_n and max_n from the next four 4-byte fields |
| GfSpec.Boc1 | src/gf_reader.rs:117-123 | `boc1` succeeds exactly when 4 bytes remain, otherwise `UnexpectedEof`; the box is (max_m - del_m, max_m, max_n - del_n, max_n) from the four bytes; nothing but the character and position changes |
| GfSpec.Eoc | src/gf_reader.rs:125-129 | the open character's record is appended to the font's characters, the character is no longer started, nothing else changes |
| GfSpec.Skip | src/gf_reader.rs:131-136 | colour white, m back to min_m, n down by exactly rows + 1, the record unchanged |
| GfSpec.NewRow | src/gf_reader.rs:138-143 | colour black, m = min_m + indent, n down by exactly 1, the record unchanged |
| GfSpec.Xxx | src/gf_reader.rs:145-152 | a negative size fails with `NegativeLengthForSpecial` and size 0 aborts; otherwise it succeeds exactly when size bytes remain, and it appends a special holding those bytes with no parameters to the decoder's specials |
| GfSpec.Yyy | src/gf_reader.rs:154-157 | it fails with `YYYWithoutXXX` exactly when there is no special; otherwise v is appended to the parameters of the last special only |
| GfSpec.Pre | src/gf_reader.rs:159-166 | it fails with `InvalidGFID` exactly when id != 131; it succeeds exactly when id is 131, a length byte k > 0 follows and k bytes remain after it; with id 131, k == 0 gives `NonPositiveStringSize` and a missing length byte or too few title bytes give `UnexpectedEof`; on success only the title and position change, and the title is the next k bytes after a length byte k |
| GfSpec.Post | src/gf_reader.rs:170-174 | it sets `finished` and changes nothing else |
| GfSpec.Dispatch | src/gf_reader.rs:203-280 | opcodes 0-63 are `paint(opcode)`, 74-238 are `new_row(opcode - 74)`, 244 changes nothing; the position only moves forward |
| GfSpec.DispatchErrors | src/gf_reader.rs:203-280 | `InvalidOpCode` exactly for opcodes 245, 246 and 249-255; `NegativeLengthForSpecial` only from `xxx4` (242); `YYYWithoutXXX` exactly for 243 with its parameter present and no special; `InvalidGFID` only from `pre` (247) |
| GfSpec.DispatchFinishes | src/gf_reader.rs:270-273 | `post` succeeds whenever its 4-byte pointer is there, and a successful command finishes the decode exactly when it is `post` |
| GfSpec.Step | src/gf_reader.rs:201-280 | a turn of the loop consumes at least the opcode byte; at the end of input it fails with `UnexpectedEof` |
| GfSpec.Run | src/gf_reader.rs:201-282 | a successful decode from a state keeps that state's characters as a prefix of the result; an unfinished state at the end of input fails with `UnexpectedEof` |
| GfSpec.StepKeepsChars | src/gf_reader.rs:201-280 | a successful turn appends the open character exactly when its opcode is `eoc`, and otherwise keeps the characters |
| GfSpec.StepFinishesOnlyOnPost | src/gf_reader.rs:201-280 | a turn finishes the decode exactly when its opcode is `post`, and it then consumes exactly 5 bytes |
| GfSpec.InitialWellFormed | src/gf_reader.rs:178-198 | the initial context is well formed |
| GfSpec.PaintKeepsPen | src/gf_reader.rs:74-88 | a paint of d >= 0 keeps the pen at or right of min_m and on or below max_n, and every run at least one pixel wide, at or right of min_m, on or below max_n |
| GfSpec.DispatchKeepsWellFormed | src/gf_reader.rs:203-280 | every command keeps the state well formed: no character has specials, every run is at least one pixel wide, right of min_m and not above max_n |
| GfSpec.StepKeepsWellFormed | src/gf_reader.rs:201-280 | a turn of the loop keeps the state well formed |
| GfSpec.RunWellFormed | src/gf_reader.rs:201-282 | every character of a successful decode from a well-formed state is well formed |
| GfSpec.DecodeWellFormed | src/gf_reader.rs:177-283 | every character a successful decode returns has no specials, and all its runs are at least one pixel wide, at or right of min_m, on or below max_n |
| GfSpec.IntAtAgree | src/file_reader.rs:5-27 | a successful `readN` gives the same result on any input that agrees on the bytes it consumed |
| GfSpec.StringAtAgree | src/file_reader.rs:29-33 | a successful `read_string` gives the same result on any input that agrees on the bytes it consumed |
| GfSpec.BocAgree | src/gf_reader.rs:90-97 | a successful `boc` depends only on the bytes it consumed |
| GfSpec.Boc1Agree | src/gf_reader.rs:117-123 | a successful `boc1` depends only on the bytes it consumed |
| GfSpec.PreAgree | src/gf_reader.rs:159-166 | a successful `pre` depends only on the bytes it consumed |
| GfSpec.DispatchAgree | src/gf_reader.rs:203-280 | a successful command depends only on the bytes it consumed |
| GfSpec.StepAgree | src/gf_reader.rs:201-280 | a successful turn of the loop depends only on the bytes it consumed |
| GfSpec.RunIgnoresTrailingBytes | src/gf_reader.rs:201-282 | bytes appended after a successfully decoded input do not change the result |
| GfSpec.SuccessEndsAtPost | src/gf_reader.rs:201-282 | a successful decode ends at a `post` opcode and its 4-byte pointer, and decoding the input cut just after that pointer gives the same font |
| GfSpec.Decode | src/gf_reader.rs:177-283 | `gfreader` over a whole input, from the initial context at position 0: the empty input fails with `UnexpectedEof`, and a successful decode read at least one byte |
| GfSpec.AsWrittenSpinsAtEnd | src/gf_reader.rs:201-204 | with `read1` as written, a turn at the end of input reads opcode 0 without consuming anything and does `paint(0)`; two such turns restore the character, so the loop never ends |
| GfSpec.StrictStopsAtEnd | src/gf_reader.rs:201-202 | with reads that fail at the end of input, a decode there fails with `UnexpectedEof` |
| GfSpec.PaintExample | src/gf_reader.rs:314-330 | paint 12, 12, 0 from the start: one run (0, 0, 12), the pen at 24, colour white |
| GfSpec.BocExample | src/gf_reader.rs:332-352 | `boc` 65 over the test bytes gives box (0x100, 0x200, 0x300, 0x400) and the pen at (0x100, 0x400) |
| GfSpec.Boc1Example | src/gf_reader.rs:354-370 | `boc1` 65 over [05,10,1f,3f] gives box (0x0b, 0x10, 0x20, 0x3f) and the pen at (0x0b, 0x3f) |
| GfSpec.EocExample | src/gf_reader.rs:372-389 | after boc1, paint 0, paint 32 and eoc, the stored character has one run; the next boc1 starts an empty character and leaves the stored one unchanged |
| GfSpec.RowExamples | src/gf_reader.rs:391-413 | skip 3 from row 0 gives row -4 at column 0 in white; new_row 3 gives row -1 at column 3 in black |
| GfSpec.SpecialsExample | src/gf_reader.rs:415-432 | xxx 5 over "rule " then yyy 47 and yyy 21 give one special "rule " with parameters [47, 21] |
| GfSpec.PreExample | src/gf_reader.rs:434-440 | pre 131 over "\x05Title" stores the title "Title"; any other id fails with `InvalidGFID` |
| GfSpec.InitialCharacter | src/gf_reader.rs:181-195 | the character a decode starts with: all-zero code and box, no specials or runs, black, pen at (0, 0), not started |
| GfSpec.Initial | src/gf_reader.rs:178-198 | the state a decode starts in: not finished, empty title, no characters, no specials, the initial character, reading from the given position |
| GfReader.CharacterContext.constructor | src/gf_reader.rs:181-195 | the initial character: all-zero record, colour black, pen at (0, 0), not started |
| GfReader.Context.constructor | src/gf_reader.rs:178-198 | the initial context over the given input: not finished, empty font, no specials |
| GfReader.Context.Paint | src/gf_reader.rs:74-88 | the context afterwards is `GfSpec.Paint` of the one before; only the open character changes |
| GfReader.Context.BocCommon | src/gf_reader.rs:99-115 | the open character becomes `GfSpec.BocCommon` of the arguments |
| GfReader.Context.Boc | src/gf_reader.rs:90-97 | the five reads and the update yield exactly `GfSpec.Boc` of the old context, or its error |
| GfReader.Context.Boc1 | src/gf_reader.rs:117-123 | the four reads and the update yield exactly `GfSpec.Boc1` of the old context, or its error |
| GfReader.Context.Eoc | src/gf_reader.rs:125-129 | the context afterwards is `GfSpec.Eoc` of the one before |
| GfReader.Context.Skip | src/gf_reader.rs:131-136 | the context afterwards is `GfSpec.Skip` of the one before |
| GfReader.Context.NewRow | src/gf_reader.rs:138-143 | the context afterwards is `GfSpec.NewRow` of the one before |
| GfReader.Context.Xxx | src/gf_reader.rs:145-152 | the context afterwards is `GfSpec.Xxx` of the one before, or its error |
| GfReader.Context.Yyy | src/gf_reader.rs:154-157 | the context afterwards is `GfSpec.Yyy` of the one before, or its error |
| GfReader.Context.Pre | src/gf_reader.rs:159-166 | the context afterwards is `GfSpec.Pre` of the one before, or its error |
| GfReader.Context.Post | src/gf_reader.rs:170-174 | the context afterwards is `GfSpec.Post` of the one before |
| GfReader.Context.Dispatch | src/gf_reader.rs:203-280 | the `match` on an opcode does exactly what `GfSpec.Dispatch` says, result and new context |
| GfReader.Context.DispatchCharacter | src/gf_reader.rs:204-225 | the arms for opcodes 0-69 do exactly what `GfSpec.Dispatch` says |
| GfReader.Context.DispatchRows | src/gf_reader.rs:226-239 | the arms for opcodes 70-238 do exactly what `GfSpec.Dispatch` says |
| GfReader.Context.DispatchFont | src/gf_reader.rs:240-278 | the arms for opcodes 239-255 do exactly what `GfSpec.Dispatch` says |
| GfReader.GfRead | src/gf_reader.rs:177-283 | the `while !finished` loop returns exactly `GfSpec.Run` from the initial context at the input's position, so every lemma about `Run` and `Decode` holds of it |

## Left out

- src/main.rs is not part of this model: it only opens a hard-coded file and prints character codes.
- The input is a byte sequence held in memory, not an arbitrary `std::io::Read`; operating-system short reads and I/O errors other than running out of input are not modelled.
- `read_string` decodes with `String::from_utf8_lossy`; the model keeps titles and specials as the raw bytes.
- The `anyhow`/`thiserror` plumbing is replaced by one `Result` type over the four `GFError` cases plus `UnexpectedEof` and `NonPositiveStringSize`.
- GfReader.Context.Boc: on failure the contract states only the error, not the partly updated context. The same holds for the other handler methods that read. `gfreader` discards the context on any error.
- GfSpec.Paint: m is an unbounded integer; the i32 addition at src/gf_reader.rs:86 can overflow, which the model does not capture.
- GfSpec.Skip: n is an unbounded integer; the i32 arithmetic `n -= rows + 1` at src/gf_reader.rs:134 can overflow, which the model does not capture.
- GfSpec.NewRow: m and n are unbounded integers; the i32 addition `min_m + indent` at src/gf_reader.rs:140, with min_m from a 4-byte `boc` field, and `n -= 1` at src/gf_reader.rs:141 can overflow, which the model does not capture.
- The postamble's metrics, the character locators (opcodes 245 and 246) and `post_post` (249) are not decoded, because the code does not decode them: `post` only sets `finished`, and the other opcodes are refused.
- The `as u8` cast of the opcode is the identity on the 0-255 values `read1` returns, and is not written out.

## Findings

| source | as written | input that shows it | evidently intended | confidence | as-written member | corrected member |
|---|---|---|---|---|---|---|
| src/file_reader.rs:7 | `read1`..`read4` use `read`, which at the end of input copies nothing and still succeeds, so `read1` returns 0 | the empty input, or GF data that ends at a command boundary before `post`: the loop reads opcode 0, does `paint(0)` without consuming a byte, and repeats forever. The same `read` also lets a `post` whose 4-byte pointer is cut short finish the decode successfully, where the corrected reads reject it | a read past the end fails, as `read_exact` does in `read_string`, and `gfreader` returns the error | not executed | FileReader.CursorIntAt, GfSpec.AsWrittenSpinsAtEnd | FileReader.IntAt, GfSpec.StrictStopsAtEnd |
