# bno08x-rvc in Dafny

A model of the core of the `bno08x-rvc` crate, which decodes the "UART-RVC" byte
stream of a BNO08x inertial sensor. Bytes arriving from the serial port are pushed
into a bounded single-producer/single-consumer queue by a `Processor`; a `Parser`
later reads the bytes available, searches them for the two-byte header `0xAAAA`,
takes the 17-byte body that follows, and computes a release size: how many leading
bytes of the view may be retired.

Modules, leaves first:

- `Rust` and `Wrappers` (prelude.dfy): `u8`, `u16`, a `Completion` for calls that may
  panic, `Option`, `Result`.
- `BBQueue` (bbqueue.dfy): the queue the crate is built on, as an abstract bounded
  byte sequence: a one-time split, exact write grants that are committed, and a read
  of the bytes available. It is a foreign library; only its interface is modelled.
- `Rvc` (rvc.dfy): the constants and the error type of `src/lib.rs`; the baud rate
  (115 200) is kept as a constant that nothing in the core uses.
- `FrameParser` (parser.dfy): `RawFrame`, `State`, and the `Parser` class of
  `src/parser.rs`. `Parser.Parse` is the byte-by-byte loop of the source, with the
  search state and last frame as fields, the release counter `idx` and the remaining
  length `remLen`. It is proved equal to `Parsed`, a value-level reference built from
  `Step` (one header-search transition), `Scan` (the search state after a run of bytes)
  and `FindBody` (the first position where the search reaches `GetFrameData`).
- `FrameParserProperties` (parser_properties.dfy): what `Parsed` does, stated against
  `Scan` alone: the frame taken, the release size and the new state for each of the
  three outcomes, and the properties of the header search.
- `ByteSink` (processor.dfy): the `Processor` class of `src/processor.rs` and
  `Submitted`, the queue contents an all-or-nothing append leaves.
- `Bno08xRvc` and `Bno08xRvcExample` (bno08x_rvc.dfy): `create` from `src/lib.rs`,
  and the crate's example program as a verified client.

## Where the code departs from a working decoder

The model follows `src/parser.rs` as written wherever it departs from a working
decoder. parser.rs as written does not compile; the model takes its evident intent: `idx`
is a running release counter (0 at the start, one per header-search byte, 17 or the
remaining length for a body), and the `frame` returned at parser.rs:102 is the
parser's last frame. The field access left dangling at parser.rs:86 does nothing.

- A second header byte other than 0xAA keeps the search in
  `LookingForSecondHeaderByte` (parser.rs:78-80) instead of going back to the
  first-byte search, so `0xAA`, any non-0xAA noise, `0xAA` is taken for a header
  (`NoisyHeaderStillSyncs`).
- Only the first body byte is decoded, into `index` (parser.rs:85). The record has no
  `roll` field and its readings are unsigned 16-bit (parser.rs:7-18). No checksum is
  checked.
- A header followed by fewer than 17 bytes is still reported as a frame, the unchanged
  last frame, and the whole view, header included, is given as the release size
  (`ParseIncompleteBody`), so the header is lost once a caller releases the size
  `parse` returns.
- The search state is reset only after a body (parser.rs:92). When the view runs out
  first, the state carries over to the next call (`StateCarriesOver`).
- `worker` drops its read grant without releasing, so no byte is ever retired and the
  release size is discarded; it unwraps the result of `parse`, so a view shorter than
  19 bytes makes it panic (`Parser.Worker`). It never calls its callback. Every later
  call therefore parses the same bytes again: from the first-byte search, the first
  frame in the queue is reported again and a later frame is never reached
  (`ParseRepeatsWithoutRelease`).

## Model

| member | source | states |
|---|---|---|
| Rvc.HeaderHighByte | src/parser.rs:68 | the byte expected first, `(0xAAAA >> 8) as u8`, is 0xAA |
| Rvc.HeaderLowByte | src/parser.rs:76 | the byte expected second, the truncating cast `0xAAAA as u8`, is 0xAA |
| Rvc.HeaderIsTwoBytes | src/lib.rs:9 | the two header bytes rebuild the header 0xAAAA and are the same byte |
| Rvc.FrameLayout | src/parser.rs:84 | a 19-byte frame is the 2-byte header plus a 17-byte body |
| Rvc.BufferHoldsThreeFrames | src/lib.rs:8-13 | the queue is 19 * 3 + 1 = 58 bytes: three whole frames fit, a fourth does not |
| FrameParser.Step | src/parser.rs:67-81 | first-byte search: 0xAA moves to the second-byte search, any other byte stays; second-byte search: 0xAA moves to GetFrameData, any other byte stays in the second-byte search |
| FrameParser.FindBody | src/parser.rs:65-95 | the scan stops at the first position where the header search stands in GetFrameData, and at no earlier one; None when there is no such position |
| FrameParser.Parsed | src/parser.rs:62-108 | a view shorter than 19 bytes gives None and changes nothing; otherwise a release size never above the view length, and a frame is reported exactly when a header is found; a reported frame is the new last frame and comes with the state reset; no frame means the whole view is released; only `index` of the last frame can change |
| FrameParser.Parser.constructor | src/parser.rs:33-50 | a new parser is in LookingForFirstHeaderByte, its last frame has every field 0, and it reads the given queue |
| FrameParser.Parser.Worker | src/parser.rs:52-60 | an empty queue gives `Err(BbqError(InsufficientSize))` and parses nothing; otherwise the view is parsed as `Parsed` says, a view shorter than 19 bytes panics, and no byte is released |
| FrameParser.Parser.Parse | src/parser.rs:62-109 | the byte loop, with the release counter and the remaining length counting down without underflow, leaves the parser state and returns exactly what `Parsed` gives |
| FrameParserProperties.ScanAppend | src/parser.rs:65-81 | searching two pieces in turn is searching their concatenation |
| FrameParserProperties.FirstSearchSkipsNoise | src/parser.rs:67-72 | in the first-byte search every non-0xAA byte is skipped |
| FrameParserProperties.SecondSearchSkipsNoise | src/parser.rs:75-80 | after a first header byte, every non-0xAA byte is skipped and the search never returns to the first byte |
| FrameParserProperties.NoisyHeaderStillSyncs | src/parser.rs:67-81 | 0xAA, any run of non-0xAA bytes, 0xAA reaches GetFrameData |
| FrameParserProperties.ParseTakesFirstBody | src/parser.rs:83-93 | with 17 bytes after the first header, the body's first byte becomes `index`, that frame is reported, the release size is the body's end, and the search is reset |
| FrameParserProperties.ParseIncompleteBody | src/parser.rs:83-103 | with fewer than 17 bytes after the first header, the unchanged last frame is reported, the whole view is released, and the search is reset |
| FrameParserProperties.ParseWithoutHeader | src/parser.rs:96-100 | with no header in the view, no frame is reported, the release size is the view length, and the search state is the one the last byte left |
| FrameParserProperties.ParseIgnoresBytesAfterBody | src/parser.rs:92-93 | at most one frame per call: after a full body the scan stops, so bytes appended to the view change nothing |
| FrameParserProperties.StateCarriesOver | src/parser.rs:96-100 | a call that ends right after a header leaves GetFrameData, and the next call over the same bytes takes the view's first byte as a body |
| FrameParserProperties.ParseRepeatsWithoutRelease | src/parser.rs:52-60 | since the worker releases nothing, a parser in the first-byte search that took a full body reports the same frame, release size and state when the same bytes are parsed again |
| FrameParserProperties.ExampleVector | examples/check.rs:12 | on the example program's vector a fresh parser takes index 0xDE at offset 5 and may release all but the last three bytes |
| ByteSink.Submitted | src/processor.rs:16-27 | a slice longer than the 58-byte queue never fits, whatever the queue holds; a refusal happens only for lack of space; on success the old bytes are kept and the new ones equal the slice byte for byte, in order |
| ByteSink.SubmitInPieces | src/processor.rs:17-21 | a burst fits exactly when its two pieces fit in turn, and leaves the same queue |
| ByteSink.Processor.constructor | src/processor.rs:10-14 | a processor built on the producer half of a split 58-byte queue writes to that queue and is ready for `ProcessSlice` |
| ByteSink.Processor.ProcessSlice | src/processor.rs:16-27 | all or nothing: success exactly when the slice fits, and then the queue holds its old bytes followed by the slice; otherwise `Err(BbqError(InsufficientSize))` and the queue is unchanged |
| Bno08xRvc.Create | src/lib.rs:20-32 | on an unsplit buffer, a new processor and a new parser sharing that buffer, the parser freshly initialised; on a buffer already split, `Err(BbqError(AlreadySplit))`; only the split flag can change, so the queue's contents and write side stay as they were and a processor built earlier stays ready |
| Bno08xRvcExample.ExampleRun | examples/check.rs:10-37 | creating the pair, submitting the example vector and running the worker once returns normally, sets the last frame's index to 0xDE, and leaves every submitted byte in the queue |
| Bno08xRvcExample.CreateTwice | src/lib.rs:20-32 | a second `create` over the same buffer gives `Err(BbqError(AlreadySplit))`, and the processor from the first one can still submit the example vector |

## Left out

- Checksum validation, the little-endian decoding of the remaining fields and the
  floating-point conversion to degrees and m/s²: the source does none of them.
- The callback passed to `worker`: the source never calls it.
- `get_last_raw_frame` and the `Debug` formatting used by the example programs: they
  are not defined in the crate's source.
- The queue's `release` operation: the source never calls it.
- ByteSink.Processor.ProcessSlice: success is stated as "the slice fits in the free
  space"; the real queue may also refuse a grant when the free space is split in two by
  wrap-around, which the abstract queue does not model.
- Bno08xRvc.Create: the queue's split is modelled as a flag; the library's own
  initialisation of the buffer is not modelled.
- FrameParser.Parser.Worker reads the whole queue contents as one view; the real queue may hand out
  only the first of two segments when its contents wrap around.
- Interrupts, the RTIC task set-up, LED and logging of examples/nucleo_l476rg_rtic.rs,
  and the concurrent use of the two queue halves: hardware I/O and concurrency.
