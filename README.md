# Amazon event-stream parser, modelled in Dafny

This project models `event_stream_parser.py`, a decoder for the Amazon
event-stream binary framing (`application/vnd.amazon.eventstream`) as
Amazon Q returns it. Each frame on the wire has three parts:

- a 12-byte prelude: the big-endian 32-bit total length, the big-endian
  32-bit header block length, and a prelude checksum;
- a header block, then the payload;
- a trailing 4-byte message checksum.

Neither checksum is ever read.

The modules follow the structure of the source:

- `Wire` (`wire.dfy`) holds the shared vocabulary:
  - bytes, and the big-endian 16- and 32-bit fields `struct.unpack` reads;
  - Python's clamping slice `s[i:j]`;
  - JSON values;
  - `Codec`, the three library services the code relies on and that the
    model takes as parameters: strict UTF-8 decode, lossy UTF-8 decode and
    `json.loads`.
- `HeaderBlock` (`headers.dfy`) is `parse_headers`. It is an imperative
  method, `ParseHeaders`, whose offset loop is proved equal to a functional
  specification, `DecodeHeaderBlock`. The specification has two steps:
  1. a byte-level walk, `WalkHeaders`, which stops silently at the first
     truncated entry;
  2. the text decoding of names and type-7 values into a dictionary where
     the last entry with a name wins (`Collect`).
- `Messages` (`message.dfy`) is `parse_message`. It rejects short input,
  slices the header block and the payload Python-style, and decodes the
  payload to JSON, raw bytes or nothing. It also holds a frame encoder and
  the decode-of-encode round trip.
- `TextFallback` (`fallback.dfy`) is `_parse_text_fallback`. It finds the
  earliest of the four prefixes, matches the closing brace while tracking
  quotes and escapes, and classifies each parsed object. The imperative
  methods (`ParseTextFallback`, `ScanOnce`, `FindMatchingBrace`) are proved
  equal to the functional scan `FallbackEvents`.
- `Reassembly` (`reassembler.dfy`) is `parse_stream`.
  - The per-chunk step is a class `Reassembler` with fields `buffer` and
    `parseErrors`.
  - Its inner loop (`Pump`) is proved equal to the functional drain
    `Drain`.
  - `Drain` has two modes, chosen by its `recover` flag:
    - `recover = false` is the code as written;
    - `recover = true` is the evident intent, in which the fallback runs
      after three consecutive failures (see Findings).
  - Properties of the stream are proved about `Drain` and `Feed` (chunk by
    chunk): frame order, independence from chunking, the error counter,
    and the zero-length stall.
- `EventInfo` (`event_info.dfy`) holds the two small pure helpers,
  `extract_event_info` and `parse_text_stream_line`. The latter comes with
  a model of Python's `str.strip`.

Two points of the code's behaviour shape the model:

- **Header decoding can fail.** Truncation of the header block is silent,
  but `decode('utf-8')` on a header name or a type-7 value raises on
  invalid UTF-8, and the `except` of `parse_message` turns that into None
  (event_stream_parser.py:53, :73, :130-132). This includes the name of an
  entry that is truncated after its name.
- **Which bytes the fallback scans.** The code calls the fallback in two
  places. The `struct.error` branch (event_stream_parser.py:163-169) would
  scan the whole buffer, but it is reached before any frame is cut. The
  `except` branch (:194-199) is the only one reached after a frame has been
  cut off the buffer (:178), so the corrected variant scans the rest of the
  buffer after the failed frame.

## Model

| member | source | states |
|---|---|---|
| Wire.BE16 | event_stream_parser.py:65 | a big-endian 16-bit field is below 2^16 |
| Wire.BE32 | event_stream_parser.py:98-99 | a big-endian 32-bit field is below 2^32 |
| Wire.BE16OfU16 | event_stream_parser.py:65 | reading back a packed 16-bit length gives the length |
| Wire.BE32OfU32 | event_stream_parser.py:98-99 | reading back a packed 32-bit length gives the length |
| Wire.U32OfBE32 | event_stream_parser.py:98-99 | every 4 bytes are the packing of the number they read as |
| Wire.SliceBound | event_stream_parser.py:108 | Python slice bound normalisation: negatives count from the end, the result is clamped to the length |
| Wire.PySlice | event_stream_parser.py:114 | a Python slice never fails, equals the Dafny slice for in-range bounds, and is empty when the bounds cross |
| HeaderBlock.ReadEntry | event_stream_parser.py:43-77 | an entry is read in full only if every field fits; its size is 4 + name + value and never exceeds the bytes |
| HeaderBlock.ReadEntryEncodes | event_stream_parser.py:43-77 | the bytes of a fully read entry are exactly that entry's encoding |
| HeaderBlock.WalkHeaders | event_stream_parser.py:43-80 | every entry the walk reads fits its length fields |
| HeaderBlock.WalkHeadersReadsPrefix | event_stream_parser.py:43-71 | the walk never reads past the block: the entries read re-encode to a prefix, and the rest is empty or a truncated entry whose name is kept only when complete |
| HeaderBlock.ParseHeaders | event_stream_parser.py:29-80 | the offset loop returns exactly the specified dictionary, or None where a decode raises |
| HeaderBlock.ReadHeader | event_stream_parser.py:43-77 | one loop pass reads the entry at the offset: it ends the block on truncation, fails on undecodable text, otherwise advances by the entry's positive size |
| HeaderBlock.NameFailsAt | event_stream_parser.py:53 | an undecodable complete name fails the entry even if the rest of the entry is truncated |
| HeaderBlock.TruncatedEndsBlock | event_stream_parser.py:51-70 | a truncated entry ends the block with the dictionary of the entries before it |
| HeaderBlock.FailedEntryFailsBlock | event_stream_parser.py:73 | an entry whose text does not decode makes the whole block fail |
| HeaderBlock.CollectNone | event_stream_parser.py:78 | the dictionary cannot be built if and only if some entry fails to decode |
| HeaderBlock.HeaderBlockFailure | event_stream_parser.py:43-80 | a block fails if and only if a complete entry, or the name of a truncated last entry, does not decode; truncation alone is never an error |
| HeaderBlock.ReadEncodedEntry | event_stream_parser.py:47-77 | an encoded entry reads back as itself, whatever follows it |
| HeaderBlock.ReadTruncatedEntry | event_stream_parser.py:51-70 | every strict prefix of an encoded entry reads as truncated, keeping the name when the name is complete |
| HeaderBlock.WalkEncoded | event_stream_parser.py:43-80 | encoded entries are walked back in order, then the walk goes on into what follows |
| HeaderBlock.HeaderBlockRoundTrip | event_stream_parser.py:29-80 | decoding an encoded header block gives the dictionary of its entries |
| HeaderBlock.HeaderBlockTruncated | event_stream_parser.py:43-71 | a block cut inside its last entry silently yields the entries before the cut; it fails only on an undecodable complete name |
| HeaderBlock.CollectLastWins | event_stream_parser.py:78 | every decoded name is a key, and a name not repeated later maps to its own value |
| HeaderBlock.CollectKeys | event_stream_parser.py:78 | every key of the decoded dictionary is the decoded name of some entry |
| HeaderBlock.SingleEntryValue | event_stream_parser.py:72-75 | a value is text for type 7 (and fails if it is not UTF-8); for any other type it is the raw bytes |
| Messages.DecodePayload | event_stream_parser.py:116-122 | an empty payload gives None; a payload that is UTF-8 JSON gives the JSON value; anything else gives the unchanged bytes |
| Messages.ParseMessage | event_stream_parser.py:94-95 | a decoded frame is at least 16 bytes long |
| Messages.ParseMessageCases | event_stream_parser.py:93-132 | None for under 16 bytes, for input shorter than the declared length, and exactly when the header block fails; otherwise the length field, headers and payload come from the Python slices of the prelude's lengths |
| Messages.EncodeFrame | event_stream_parser.py:18-25 | a frame is 16 bytes longer than its header block and payload |
| Messages.FramePrelude | event_stream_parser.py:98-99 | an encoded frame declares its own total length and its header block length |
| Messages.FrameSlices | event_stream_parser.py:108-114 | the header block and payload slices of an encoded frame are the parts it was built from |
| Messages.FrameRoundTrip | event_stream_parser.py:98-128 | an encoded frame declares its own length and decodes to its header dictionary, decoded payload and length, whatever the checksums |
| Messages.RawPayloadUnchanged | event_stream_parser.py:118-122 | a payload that is not UTF-8 JSON reaches the caller as the very bytes sent |
| TextFallback.Find | event_stream_parser.py:223-226 | `str.find`: a non-negative result is an occurrence of the pattern at or after the start |
| TextFallback.FindFirst | event_stream_parser.py:223-226 | `str.find` gives the first occurrence at or after the start, and -1 only when there is none |
| TextFallback.EarliestCandidate | event_stream_parser.py:223-233 | a result is a position at or after the start where one of the four prefixes occurs |
| TextFallback.EarliestFirst | event_stream_parser.py:223-233 | every prefix occurrence at or after the start bounds the result: none is found only when no prefix occurs, and the one found is the least |
| TextFallback.MatchingBrace | event_stream_parser.py:236-266 | a result is an index of the text at or after the opening brace |
| TextFallback.MatchingBraceFirst | event_stream_parser.py:236-266 | the index found is the first at which the brace depth, counted outside strings, returns to zero; None only when no index does |
| TextFallback.FindMatchingBrace | event_stream_parser.py:236-263 | the brace-counting loop returns the matching brace's index, or -1 when none exists |
| TextFallback.StringBodySkipped | event_stream_parser.py:252-256 | braces inside a quoted string do not change the scan |
| TextFallback.EscapedCharSkipped | event_stream_parser.py:244-250 | a backslash makes the next character, a quote included, be skipped |
| TextFallback.Contains | event_stream_parser.py:274-289 | Python's `in` on a parsed value: it raises on null, booleans and numbers, and tests keys for an object |
| TextFallback.Classify | event_stream_parser.py:274-293 | the classification in order: content gives an assistant response; then name with toolUseId, input, or stop give a tool use; no event otherwise; the payload is unchanged |
| TextFallback.ScanRound | event_stream_parser.py:221-299 | a round that does not stop moves the search start strictly forward and emits at most one synthetic event |
| TextFallback.ScanStep | event_stream_parser.py:268-299 | a failed parse or an unclassified object emits nothing and goes on past the brace; a scalar payload ends the scan |
| TextFallback.ScanRoundParsed | event_stream_parser.py:229-271 | a round with a candidate whose brace matches hands exactly the text from the brace to its match to `json.loads`, and resumes after the match |
| TextFallback.ScanOnce | event_stream_parser.py:222-299 | the loop body computes exactly one round of the scan |
| TextFallback.ParseTextFallback | event_stream_parser.py:202-304 | the scan loop returns exactly the events of the scan specification, in text order |
| TextFallback.ScanEventsShape | event_stream_parser.py:273-293 | every event the scan emits carries one `:event-type` header naming one of the two kinds and a JSON payload |
| TextFallback.CandidateIsBrace | event_stream_parser.py:223-226 | every candidate starts with an opening brace |
| TextFallback.NoBraceNoCandidate | event_stream_parser.py:229-231 | text without an opening brace holds no candidate |
| TextFallback.FirstCandidate | event_stream_parser.py:233 | a candidate with no opening brace before it is the earliest |
| TextFallback.NoMoreCandidates | event_stream_parser.py:229-231 | text without an opening brace yields no events |
| TextFallback.ContentObjectCloses | event_stream_parser.py:236-263 | a `{"content":"…"}` object is closed by its last brace, whatever braces its string holds |
| TextFallback.LastRound | event_stream_parser.py:221-299 | an object that is the only candidate, is closed by its last character and parses to an object with `content` gives exactly one assistant-response event |
| TextFallback.Exhausted | event_stream_parser.py:229-231 | once no prefix occurs after the search start, the scan ends with no further event |
| TextFallback.HeadCandidate | event_stream_parser.py:223-233 | a content object with no opening brace before it is the earliest candidate |
| TextFallback.TailCandidates | event_stream_parser.py:223-231 | no candidate follows a content object that no opening brace follows |
| TextFallback.ObjectCloses | event_stream_parser.py:236-263 | amid any text, the brace matcher stops at the content object's last character |
| TextFallback.LoneObject | event_stream_parser.py:223-263 | a content object amid text with no other opening brace is the first and only candidate and is closed by its own last brace |
| TextFallback.ContentObjectRecovered | event_stream_parser.py:202-304 | text of brace-free noise around a content object recovers exactly that object as an assistant response |
| TextFallback.BracesInsideStringKept | event_stream_parser.py:236-263 | `{"content":"a{b}c"}` is recovered as one object |
| Reassembly.ParseMessageRejectsEmpty | event_stream_parser.py:94-95 | the frame decoder rejects the empty frame |
| Reassembly.Drain | event_stream_parser.py:154-199 | the inner loop ends waiting for input (under 12 bytes, or fewer than the declared length) unless it stalls as written; with recovery the count stays below 3 |
| Reassembly.DrainLeavesSuffix | event_stream_parser.py:177-178 | frames are only ever cut off the front: what stays buffered is a suffix of the buffer |
| Reassembly.Reassembler.constructor | event_stream_parser.py:146-147 | the buffer starts empty and the count at zero |
| Reassembly.Reassembler.FeedChunk | event_stream_parser.py:150-199 | appending a chunk and draining as written gives the drained messages, buffer and count, or reports the zero-length stall |
| Reassembly.Reassembler.FeedChunkWithRecovery | event_stream_parser.py:150-199 | the same step with the fallback run on reaching three failures; it never stalls |
| Reassembly.Reassembler.Pump | event_stream_parser.py:154-199 | the while loop over the buffer computes exactly the drain of the old buffer and count |
| Reassembly.DrainAppend | event_stream_parser.py:150-178 | as written, bytes arriving later do not change what the earlier bytes already drained |
| Reassembly.ChunkingIrrelevant | event_stream_parser.py:150-178 | as written, feeding chunks one by one emits exactly what draining their concatenation does |
| Reassembly.DrainFrames | event_stream_parser.py:173-185 | frames laid end to end are cut off in wire order, each decoded from exactly its own bytes, and each success resets the count |
| Reassembly.FramesOf | event_stream_parser.py:18-25 | the frames of a message list are their encodings, one by one |
| Reassembly.SentFrameDecodes | event_stream_parser.py:98-128 | an encoded frame declares its own length and decodes to its expected message |
| Reassembly.DecodedSent | event_stream_parser.py:98-128 | encoded frames decode, one by one, to their expected messages |
| Reassembly.FramesInChunks | event_stream_parser.py:150-185 | decodable frames, cut into chunks in any way, come out in order with nothing left and no failure |
| Reassembly.EncodedStreamDecodes | event_stream_parser.py:135-199 | end to end: sent frames cut into chunks in any way come out as exactly their messages, in order |
| Reassembly.AsWrittenNeverRecovers | event_stream_parser.py:181-188 | as written, every emitted message comes from a frame: the fallback never runs |
| Reassembly.FrameStep | event_stream_parser.py:173-199 | one frame: a zero length stalls as written; otherwise exactly the declared bytes reach the decoder, a success is emitted and resets the count, and a failure counts (with recovery, the third runs the fallback) |
| Reassembly.ZeroLength | event_stream_parser.py:173-188 | as written, a zero declared length never consumes a byte; with recovery the third failure clears the buffer |
| Reassembly.BadFrameRejected | event_stream_parser.py:94-95 | a 12-byte frame is too short to decode |
| Reassembly.BadFrameFails | event_stream_parser.py:186-199 | a rejected frame counts one failure, or with recovery at the limit hands the rest to the fallback |
| Reassembly.ThreeBadFrames | event_stream_parser.py:186-199 | three rejected frames in a row: as written they only count to 3; with recovery the fallback gets the rest |
| Reassembly.ThreeBadFramesThenText | event_stream_parser.py:181-199 | three bad frames then `garbage{"content":"hi"}more-garbage`: as written, nothing comes out and the text stays buffered; with recovery, one assistant-response event comes out and the buffer is emptied |
| Reassembly.RecoveredTextEvents | event_stream_parser.py:202-304 | the fallback finds exactly one assistant-response event, for the one content object, in `garbage{"content":"hi"}more-garbage` |
| EventInfo.HeaderOr | event_stream_parser.py:320-322 | a present, truthy colon header wins; otherwise the plain header if present; None if and only if neither applies |
| EventInfo.ExtractEventInfo | event_stream_parser.py:307-329 | for each of the three fields: the colon header's value when present and truthy, otherwise the plain header's value when present, and None exactly when neither applies; the payload passes through |
| EventInfo.FallbackEventInfo | event_stream_parser.py:274-293 | a fallback event summarises as an assistant response or a tool use, with no content or message type |
| EventInfo.PlainNameFallsBack | event_stream_parser.py:320 | a frame whose only header is the plain `event-type` still reports that event type |
| EventInfo.EmptyPrimaryIgnored | event_stream_parser.py:320 | an empty colon header is falsy and is skipped |
| EventInfo.TrimLeft | event_stream_parser.py:343 | `lstrip` removes only leading whitespace, and the result does not start with whitespace |
| EventInfo.TrimRight | event_stream_parser.py:343 | `rstrip` removes only trailing whitespace, and the result does not end with whitespace |
| EventInfo.StripCuts | event_stream_parser.py:343 | `strip` cuts whitespace-only ends, and the result neither starts nor ends with whitespace |
| EventInfo.ParseTextStreamLine | event_stream_parser.py:333-356 | a line parses if and only if, once stripped, it starts with `{`, ends with `}` and `json.loads` accepts it, and then the result is the parse |
| EventInfo.TrimLeftSpaces | event_stream_parser.py:343 | leading whitespace does not change `lstrip` |
| EventInfo.TrimRightSpaces | event_stream_parser.py:343 | trailing whitespace does not change `rstrip` |
| EventInfo.StripPadding | event_stream_parser.py:343 | whitespace around a line does not change what `strip` leaves |
| EventInfo.LinePadding | event_stream_parser.py:343-356 | padding a line with whitespace never changes what it parses to |
| EventInfo.ContentLineParsed | event_stream_parser.py:341-352 | an indented `{"content":"…"}` line with a line break is handed to `json.loads` as the object text |
| EventInfo.BlankLineSkipped | event_stream_parser.py:346-347 | a whitespace-only line gives None |

## Left out

- Logging (`logger.warning`, `logger.error`, `logger.info`, `exc_info`) is side-effect-only output and is not modelled.
- The async machinery (`async for`, `yield`) is not modelled. Each chunk is one call to `Reassembler.FeedChunk`, and the messages it yields are its result.
- The strict and lossy UTF-8 codecs and `json.loads` are parameters (`Codec`), not models. The fallback scanner is given the text the lossy decode produces.
- JSON numbers are Dafny reals; floating-point behaviour is not modelled.
- The prelude and message checksums are never read by the source, so nothing checks them here either.
- The `struct.error` branch (event_stream_parser.py:156-170) is not modelled as a separate path. Reading 4 bytes of a buffer of at least 12 bytes cannot fail, and `BE32` is total.
- The `except` branch around `parse_message` (event_stream_parser.py:189-199) is not modelled as a separate path either. `parse_message` catches everything itself, so here it is a total function returning `Option`. What these two branches would do is the corrected variant (`recover = true`).
- Exceptions other than `UnicodeDecodeError` and `JSONDecodeError` are not modelled: memory errors, and recursion errors inside `json.loads`.
- Reassembly.Drain: the endless loop on a declared length of 0 is reported as `stalled`, not as non-termination. `Feed` stops at a stalled step, because the source never returns from it.
- Reassembly.ChunkingIrrelevant: it is stated for the code as written only. With recovery, the bytes present when the third failure happens depend on chunk boundaries, so the messages may too.
- Bytes left in the buffer when the stream ends are dropped silently by the source. The model leaves them in `buffer` and states nothing further about them.
- Reassembly.Drain is stated for any frame decoder that rejects the empty frame, which `parse_message` does (`ParseMessageRejectsEmpty`). The loop also calls the fallback through a parameter, instantiated by `FrameDecoder` and `TextRecovery`.
- Reassembly.Latin1 builds test bytes for a text. It is no model of the lossy decoder, which stays a parameter.

## Findings

| source | as written | input that shows it | evidently intended | confidence | as-written member | corrected member |
|---|---|---|---|---|---|---|
| event_stream_parser.py:186-188 | a frame that `parse_message` rejects only increments `parse_errors`; the text fallback and buffer clear sit in branches that cannot fire (:156-170, :189-199), so the degradation mode never runs | three 12-byte frames declaring length 12, then `garbage{"content":"hi"}more-garbage`: no message comes out and the text stays buffered | after 3 consecutive failures, run the text fallback over the buffer, emit what it recovers, clear the buffer and reset the count | not executed | Reassembly.AsWrittenNeverRecovers | Reassembly.ThreeBadFramesThenText |
| event_stream_parser.py:173-178 | a declared `total_length` of 0 passes the completeness check, removes no bytes and hands an empty frame to the decoder, so the inner loop spins forever | any buffer of 12 or more bytes whose first four bytes are zero | a zero-length frame counts as a failure and the recovery path eventually clears the buffer | not executed | Reassembly.ZeroLength | Reassembly.Reassembler.FeedChunkWithRecovery |
