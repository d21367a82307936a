# P1 telegram decoder core, modelled in Dafny

This project models the core of a decoder for the P1 port of Dutch smart
meters (DSMR). The meter sends telegrams: a `/`, a body, a `!` and four hex
digits. The four digits are the CRC-16/ARC of everything from the `/` up to
and including the `!`. The project covers three pieces of the decoder.

- **The datagram reader** (`src/p1/reader.rs`) pulls telegrams out of a
  buffered byte source.
  - `Reader` models the source as a list of non-empty chunks, one per refill
    of the buffer. `FillBuf` returns the head chunk, and after a partial
    `consume` the rest of that chunk is what the next `fill_buf` returns.
    `FillBuf` and `Consume` model the `BufRead` calls.
  - `Reader` follows the reader's phases one by one: `sync_to_datagram`,
    `read_datagram`, `read_crc_bytes` and `next_datagram`.
  - `FrameSpec` states on the flat byte stream what one `next()` call cuts
    out and what it leaves.
  - `Reader.Next` is proved equal to `FrameSpec.Next` on the flattened
    stream, however the bytes are chunked. This is chunking invariance.
- **The checksum stage** (`src/p1/mod.rs`).
  - `P1.ParseCrcText` reads the trailer the way Rust's
    `u16::from_str_radix(_, 16)` does. That includes an optional leading `+`
    and both letter cases.
  - `P1.VerifyDatagramCrc` and `P1.VerifyCrc` compare the trailer with a
    bitwise CRC-16/ARC (`Crc16`).
  - A known-answer lemma pins the CRC to the CRC-16/ARC catalogue value.
- **OBIS identifiers** (`src/obis.rs`). This code writes the IEC 62056-61
  value groups as `[A-][B:]C.D.E.F`. The standard uses `*` before F.
  - `Obis.Match` models the anchored regular expression of `parse` over ASCII
    digits.
  - `Obis.ParseAsWritten` models `parse` as written, including its two panics.
  - `Obis.Parse` is the `Option`-returning version that the signature
    promises.
  - `Obis.Format` models `Display`.
  - The round trip `Parse(Format(id)) == Some(id)` is proved. In the other
    direction, `Format` gives back exactly the parsed texts that have no
    leading zeros and write group F.

Modules:
- `Common`: bytes, `Option`, and the prefix scan that `take_while` performs.
- `Crc16`: the checksum.
- `P1`: `mod.rs`.
- `FrameSpec` and `Reader`: `reader.rs`.
- `Obis`: `obis.rs`.

Edge cases the code has, kept in the model:
- `parse` accepts digit runs of any length, so `096` reads as 96. It panics
  on a group above 255 and on a missing group E (`src/obis.rs:21-26`).
- `next()` panics on a frame shorter than five bytes
  (`src/p1/reader.rs:91`).
- See Findings for all three.

## Model

| member | source | states |
|---|---|---|
| `Crc16.UpdateAppend` | src/p1/mod.rs:29-31 | Feeding the digest two slices one after the other gives the same checksum as feeding their concatenation. |
| `Crc16.CheckValue` | src/p1/mod.rs:29-31 | The checksum of ASCII "123456789" is 0xBB3D, the check value of CRC-16/ARC (polynomial 0x8005 reflected, init 0, no final XOR). |
| `Crc16.UpdateInjective` | src/p1/mod.rs:29-31 | Two different register states stay different after any common input. |
| `Crc16.SingleByteChangeDetected` | src/p1/mod.rs:29-31 | Replacing any single byte of the input by a different byte changes the checksum. |
| `P1.ParseCrcText` | src/p1/mod.rs:44-54 | Take the text after an optional leading `+` that is not the whole text. A value is returned iff that text is non-empty, all hex digits in either case, and denotes a number below 2^16 by the integer reading `HexValue`. The value is that number. Four digits or fewer never overflow. |
| `P1.AccumulateValue` | src/p1/mod.rs:46 | The checked digit accumulation succeeds iff the integer reading stays below 2^16, and then equals it. Overflow checks reject exactly the texts whose number does not fit a `u16`. |
| `P1.PlusIgnored` | src/p1/mod.rs:46 | A leading `+` before text that does not itself start with `+` does not change the result. |
| `P1.ParseHex4` | src/p1/mod.rs:44-54 | Four hex digits written for `v`, in upper or lower case, parse back to exactly `v`. |
| `P1.ParseCrcTextExamples` | src/p1/mod.rs:44-54 | "+ABC" is 0xABC and lower-case "bb3d" is 0xBB3D. A lone "+", "-ABC" and a non-hex digit give `None`. |
| `P1.VerifyDatagramCrc` | src/p1/mod.rs:26-42 | The bytes are returned unchanged. The result is `Datagram` iff the last four bytes parse to the CRC of all earlier bytes, `/` and `!` included. Otherwise it is `InvalidCrc` carrying the parsed expectation and the computed CRC. The source needs at least four bytes. |
| `P1.VerifyCrc` | src/p1/mod.rs:19-24 | `IncompleteDatagram` and `InvalidCrc` pass through unchanged. A `Datagram` gets the checksum verdict, with its bytes unchanged. |
| `P1.SealedVerifies` | src/p1/mod.rs:60-71 | A telegram whose trailer is the checksum of what precedes it is accepted as `Datagram`, byte for byte. |
| `P1.CorruptionDetected` | src/p1/mod.rs:73-88 | Changing one byte before the trailer of a correct telegram gives `InvalidCrc`. It carries the altered bytes, the announced checksum and a different computed checksum. |
| `FrameSpec.Next` | src/p1/reader.rs:22-96 | On a flat stream: there is no item iff the stream holds no `/`. Otherwise the stream is noise free of `/`, then the item's bytes, then the rest. The item starts with its only `/`. A `Datagram` has the complete shape: `/`, a body free of `/` and `!`, then `!` and four bytes other than `/`. A panic frame is shorter than five bytes. |
| `FrameSpec.FromStart` | src/p1/reader.rs:40-96 | From a `/`, the item's bytes and what is left are exactly the stream. A body ended by `/` or end of stream is `IncompleteDatagram` of `/` and the body, and the stop is left. |
| `FrameSpec.AfterBody` | src/p1/reader.rs:61-95 | After the `!`, the frame is the body plus `min(5, bytes before the next /)` bytes, and exactly the bytes after those are left. The item is never `InvalidCrc`, a `Datagram` has the complete shape, and a panic frame is shorter than five bytes. |
| `FrameSpec.CompleteFrameRecognised` | src/p1/reader.rs:146-197 | Noise, then a complete telegram, then anything: the result is the telegram as `Datagram`, and whatever follows it is left untouched. Noise is dropped, and trailer collection stops after five bytes. |
| `FrameSpec.TruncatedBodyIncomplete` | src/p1/reader.rs:266-308 | A body cut by a new `/`, or by the end of the stream, gives `IncompleteDatagram` of exactly the bytes before the cut. The `/` is left for the next call. |
| `FrameSpec.TruncatedTrailer` | src/p1/reader.rs:310-332 | A trailer cut short by `/` or end of stream gives `IncompleteDatagram` with the partial trailer, or the line-91 panic when the frame is shorter than five bytes. The `/` is left for the next call. |
| `FrameSpec.ShortFramePanics` | src/p1/reader.rs:91 | The stream `/!` panics with frame `/!` and nothing left. |
| `FrameSpec.Outcomes` | src/p1/reader.rs:99-108 | Draining the iterator yields telegrams, ended by exhaustion or by a panic. |
| `Reader.FillBuf` | src/p1/reader.rs:26-31 | The buffer is empty exactly at end of stream. |
| `Reader.Consume` | src/p1/reader.rs:32 | Consuming `n` buffered bytes removes exactly the first `n` bytes of the stream. |
| `Reader.SyncToDatagram` | src/p1/reader.rs:22-38 | The source is left at the first `/`, with every earlier byte dropped. The returned count is the number of dropped bytes, or 0 when the stream ends first. |
| `Reader.ReadDatagram` | src/p1/reader.rs:40-59 | At end of stream nothing is read. Otherwise the result is `/` plus the bytes up to the next `/` or `!`, which stays in the source. |
| `Reader.ReadBody` | src/p1/reader.rs:47-58 | Across any number of buffers, exactly the bytes before the first `/` or `!` are appended, and the rest stays in the source. |
| `Reader.ReadCrcBytes` | src/p1/reader.rs:61-79 | Exactly the next `min(5, bytes before the next /)` bytes are appended, and the rest stays in the source. |
| `Reader.CollectCrc` | src/p1/reader.rs:65-78 | The loop with `needed` bytes still wanted takes at most `needed` bytes up to a `/`, however the buffers are split. |
| `Reader.TrailerDecision` | src/p1/reader.rs:91 | On a frame of at least five bytes, the byte five from the end is `!` iff all five trailer bytes arrived. |
| `Reader.FinishFrame` | src/p1/reader.rs:88-95 | Reading the trailer and deciding at line 91 gives the flat-stream item and leaves the flat-stream rest. |
| `Reader.Finish` | src/p1/reader.rs:84-95 | A body followed by end of stream or `/` is `IncompleteDatagram`, with nothing consumed. After `!` the result is the flat-stream decision. |
| `Reader.NextDatagram` | src/p1/reader.rs:81-96 | On any chunking, one call gives the item of `FrameSpec.Next` on the flattened stream, with the empty sentinel at end of stream, and leaves its rest. |
| `Reader.Next` | src/p1/reader.rs:99-108 | The empty sentinel ends the iteration. Item and remaining bytes equal `FrameSpec.Next` of the concatenated bytes, for every chunking. |
| `Reader.ChunkingInvariance` | src/p1/reader.rs:199-264 | Two sources with the same bytes, split differently, give the same item and leave the same bytes. |
| `Reader.ShortFrameUnderflows` | src/p1/reader.rs:91 | However `/!` is chunked, the frame is two bytes long and `len - 5` underflows. |
| `Reader.NextGuarded` | src/p1/reader.rs:91-95 | With the length checked before the index, no panic occurs. A too-short frame becomes `IncompleteDatagram`, and every other item and the rest are unchanged. |
| `Reader.Drain` | src/p1/reader.rs:99-108 | Iterating over a chunked source yields the same item sequence as the flat-stream iteration. |
| `Reader.SealedTelegramDelivered` | src/p1/reader.rs:146-197 | A sealed telegram after noise, in any chunking, is delivered whole, leaves what follows, and passes the checksum stage unchanged. |
| `Obis.Decimal` | src/obis.rs:41 | `{}` writes a non-empty digit run without leading zeros whose decimal value is the number. |
| `Obis.ToU8` | src/obis.rs:21-26 | A digit run converts iff its value is below 256, and converts to that value. |
| `Obis.Match` | src/obis.rs:17-20 | A match yields captures the pattern can produce whose rendering is exactly the whole input, so the match is anchored at both ends. |
| `Obis.MatchRender` | src/obis.rs:17-20 | Every capture set the pattern can produce is found again from its own text. |
| `Obis.MatchIff` | src/obis.rs:17-20 | A text matches with given captures iff the captures are well formed and render to the text. |
| `Obis.Values` | src/obis.rs:20-27 | A value is produced iff every present group fits in `u8` and group E is present. The value is what the groups denote, with F defaulting to 255. |
| `Obis.DenotesUnique` | src/obis.rs:20-27 | Captures determine the identifier they denote. |
| `Obis.Build` | src/obis.rs:20-28 | The unwrap closure returns iff every group fits and E is present, and then returns what they denote. It panics on the missing E iff groups A to D fit and E is absent. |
| `Obis.ParseAsWritten` | src/obis.rs:15-30 | `None` iff the pattern does not match. A panic iff the pattern matches but the captures do not fit. |
| `Obis.Parse` | src/obis.rs:15-30 | Any returned identifier is denoted by well-formed captures that render to the input. |
| `Obis.ParseComplete` | src/obis.rs:15-30 | Every text that renders captures denoting `id` parses to `id`. |
| `Obis.ParseIff` | src/obis.rs:15-30 | `Parse(s) == Some(id)` iff some well-formed captures render to `s` and denote `id`. |
| `Obis.ParseAsWrittenAgrees` | src/obis.rs:15-30 | Where the source returns, it returns `Parse`'s result. It panics iff the pattern matches but `Parse` gives `None`. |
| `Obis.CapturesOf` | src/obis.rs:33-42 | `Format(id)` is `Render(CapturesOf(id))`, the text of these captures, which has no leading zeros and always writes F. `Display` writes A and B only when present and always writes C, D, E and F. These are well-formed captures that denote the identifier. |
| `Obis.RoundTrip` | src/obis.rs:15-42 | `Parse(Format(id)) == Some(id)` for every identifier. |
| `Obis.DecimalOfValue` | src/obis.rs:41 | Writing the value of a digit run without leading zeros gives back that run. |
| `Obis.CanonicalFormat` | src/obis.rs:33-42 | Take well-formed captures without leading zeros that include group F. Formatting the identifier they denote gives back their text. |
| `Obis.TextRoundTrip` | src/obis.rs:15-42 | Take a text written without leading zeros and with group F, whose groups fit. It parses, and `Format` of the result gives the text back. |
| `Obis.FormatAllGroups` | src/obis.rs:49-53 | Formats all six groups as "1-0:96.7.21.255". |
| `Obis.FormatWithoutA` | src/obis.rs:61-65 | Without A: "0:96.7.21.255". |
| `Obis.FormatWithoutB` | src/obis.rs:73-77 | Without B: "1-96.7.21.255". |
| `Obis.FormatWithoutAB` | src/obis.rs:85-89 | Without A and B: "96.7.21.255". |
| `Obis.ParseAllGroups` | src/obis.rs:55-59 | "1-0:96.7.21.255" parses to all six groups. |
| `Obis.ParseWithoutA` | src/obis.rs:67-71 | "0:96.7.21.255" parses with A absent. |
| `Obis.ParseWithoutB` | src/obis.rs:79-83 | "1-96.7.21.255" parses with B absent. |
| `Obis.ParseWithoutAB` | src/obis.rs:91-95 | "96.7.21.255" parses with A and B absent. |
| `Obis.ParseWithoutF` | src/obis.rs:97-101 | "1-0:96.7.21" parses with F = 255. |
| `Obis.LeadingZerosAccepted` | src/obis.rs:21-26 | "096.7.21" parses as 96, and formatting the result does not give back that text. |
| `Obis.OverflowPanics` | src/obis.rs:21-26 | "256.7.21" matches the pattern and the source panics on overflow. The corrected parse gives `None`. |
| `Obis.MissingEPanics` | src/obis.rs:17-25 | "96.7" matches the pattern and the source panics on the missing group E. The corrected parse gives `None`. |
| `Obis.SecondGroupARejected` | src/obis.rs:17 | A second `-` group, as in `1-2-96.7.21.255`, is never matched. |
| `Obis.ExtraGroupRejected` | src/obis.rs:17 | A third dotted group after D, which is trailing text, is never matched. |
| `Obis.ShortTextsRejected` | src/obis.rs:17 | The empty text and a lone group do not match. |

## Left out

- I/O errors from `fill_buf` are not modelled: the source is infallible. That covers their `?` propagation and the iterator's `self.error` (`src/p1/reader.rs:106`). The iterator is not claimed to be fused.
- The CRC crate's table-driven implementation is not modelled. `Crc16` is the bitwise register with the parameters the crate is configured with (`crc16::USB`, reflected polynomial 0xA001, init 0, no final XOR, `CalcType::Reverse`). That mapping is an assumption of the model.
- The regular-expression engine and `lazy_static` are not modelled. The pattern is modelled directly as a grammar over ASCII digits. Rust's `\d` also matches non-ASCII Unicode digits, on which the source would panic at the `u8` conversion; here those texts do not match.
- `fmt::Formatter` and `write!` are not modelled. `Display` is the pure function `Obis.Format`.
- The test harness (`TickleReader`, `BufReader`) is replaced by the chunk-list source. The fixture telegram files are not part of this model, so the concrete checksums of the invalid-checksum test (0xBAD7 and 0xE47C) are not reproduced. `P1.CorruptionDetected` states the general property instead.
- The two `ReadDatagram` enums (`src/p1/reader.rs:3-7` and `src/p1/mod.rs:8-17`) are one datatype, `P1.ReadDatagram`. The conversion between them is not shown in the source.
- The count of dropped bytes that `Reader.SyncToDatagram` returns is modelled but unused, as in the source.
- A Rust panic is modelled as an item (`FrameSpec.Panic`) that ends the iteration. Unwinding is not modelled.
- The `from_utf8` check of `parse_crc_text` is folded into the hex-digit check, because bytes that are not valid UTF-8 are never ASCII hex digits.

## Findings

| source | as written | input that shows it | evidently intended | confidence | as-written member | corrected member |
|---|---|---|---|---|---|---|
| src/p1/reader.rs:91 | `datagram[datagram.len() - 5]` is indexed without checking the length | the bytes `/!` then end of stream (0x2F 0x21): the frame has two bytes and `len - 5` underflows, which panics | a frame too short to hold a trailer is reported as `IncompleteDatagram` | not executed | `Reader.ShortFrameUnderflows` | `Reader.NextGuarded` |
| src/obis.rs:17-26 | `(\d+)` accepts any digit run, and `u8::from_str_radix(..).unwrap()` panics above 255 | "256.7.21" | `parse` returns `None` for text that is not an identifier | not executed | `Obis.OverflowPanics` | `Obis.ParseIff` |
| src/obis.rs:17-25 | group E is optional in the pattern, but `cap.get(5)` is unwrapped unconditionally | "96.7" | `parse` returns `None` when group E is missing | not executed | `Obis.MissingEPanics` | `Obis.Parse` |
