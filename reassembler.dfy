/** The stream reassembler of parse_stream: a byte buffer and a count of
    consecutive decode failures, updated chunk by chunk. Frames are cut off
    the front of the buffer as soon as their declared length is buffered. */
module Reassembly {
  import opened Wire
  import opened HeaderBlock
  import opened Messages
  import opened TextFallback

  /** The loop runs while at least a prelude's worth of bytes is buffered. */
  const PRELUDE_LENGTH: nat := 12

  /** `max_errors`: the failure count at which the text fallback runs. */
  const MAX_ERRORS: nat := 3

  /** The frame decoder the loop calls: parse_message. The loop is stated
      for any decoder that, like parse_message, rejects the empty frame. */
  function FrameDecoder(c: Codec): Bytes -> Option<Message>
  {
    f => ParseMessage(f, c)
  }

  /** The recovery of the corrected variant: the text fallback over the
      rest of the buffer, decoded leniently as UTF-8. */
  function TextRecovery(c: Codec): Bytes -> seq<Message>
  {
    b => FallbackEvents(c.lossyUtf8(b), c.json)
  }

  predicate RejectsEmpty(decode: Bytes -> Option<Message>)
  {
    decode([]).None?
  }

  lemma {:induction false} ParseMessageRejectsEmpty(c: Codec)
    ensures RejectsEmpty(FrameDecoder(c))
  {
  }

  /** What draining the buffer produces: the messages in emission order,
      the bytes left buffered, the failure count, and whether the loop is
      stuck on a zero declared length (the source then never returns). */
  datatype Drained = Drained(emitted: seq<Message>, rest: Bytes, errors: nat, stalled: bool)

  function Then(ms: seq<Message>, d: Drained): Drained
  {
    d.(emitted := ms + d.emitted)
  }

  /** The loop waits for more input: under 12 bytes, or fewer bytes than
      the declared total length. */
  predicate Waiting(buf: Bytes)
  {
    |buf| < PRELUDE_LENGTH || |buf| < BE32(buf[..4])
  }

  /** The inner `while` of parse_stream (event_stream_parser.py:154-199) on
      buffer `buf` with failure count `errors`.

      With `recover` false this is the code as written: a frame that fails
      to decode only counts (:186-188), and a declared length of 0 removes
      nothing, so the loop spins forever; that is reported as `stalled`.

      With `recover` true the fallback is wired where the failure is
      counted: on reaching MAX_ERRORS the scanner runs over the rest of the
      buffer, whose bytes are then dropped and the count reset. */
  function Drain(buf: Bytes, errors: nat, decode: Bytes -> Option<Message>, fallback: Bytes -> seq<Message>, recover: bool): (d: Drained)
    requires RejectsEmpty(decode)
    ensures d.stalled ==> !recover
    ensures !d.stalled ==> Waiting(d.rest)
    ensures recover && errors < MAX_ERRORS ==> d.errors < MAX_ERRORS
    decreases |buf|, if errors < MAX_ERRORS then MAX_ERRORS - errors else 0
  {
    if Waiting(buf) then Drained([], buf, errors, false)
    else
      var total := BE32(buf[..4]);
      if total == 0 && !recover then Drained([], buf, errors, true)
      else
        var rest := buf[total..];
        match decode(buf[..total])
        case Some(m) => Then([m], Drain(rest, 0, decode, fallback, recover))
        case None =>
          if recover && errors + 1 >= MAX_ERRORS then
            Drained(fallback(rest), [], 0, false)
          else Drain(rest, errors + 1, decode, fallback, recover)
  }

  /** Draining only ever removes whole frames from the front: what stays
      buffered is a suffix of the buffer. */
  lemma {:induction false} DrainLeavesSuffix(buf: Bytes, errors: nat, decode: Bytes -> Option<Message>,
                                             fallback: Bytes -> seq<Message>, recover: bool)
    requires RejectsEmpty(decode)
    ensures var d := Drain(buf, errors, decode, fallback, recover);
      |d.rest| <= |buf| && d.rest == buf[|buf| - |d.rest|..]
    decreases |buf|, if errors < MAX_ERRORS then MAX_ERRORS - errors else 0
  {
    if !Waiting(buf) {
      var total := BE32(buf[..4]);
      if total > 0 || recover {
        var rest := buf[total..];
        var next := if decode(buf[..total]).Some? then 0 else errors + 1;
        if decode(buf[..total]).Some? || !recover || errors + 1 < MAX_ERRORS {
          DrainLeavesSuffix(rest, next, decode, fallback, recover);
          var r := Drain(rest, next, decode, fallback, recover).rest;
          assert rest[|rest| - |r|..] == buf[|buf| - |r|..];
        }
      }
    }
  }

  /** The reassembly state of one parse_stream call. */
  class Reassembler {
    var buffer: Bytes
    var parseErrors: nat

    constructor ()
      ensures buffer == [] && parseErrors == 0
    {
      buffer := [];
      parseErrors := 0;
    }

    /** One pass of the `async for` body, as written
        (event_stream_parser.py:150-199): append the chunk, then cut frames. */
    method FeedChunk(chunk: Bytes, c: Codec) returns (emitted: seq<Message>, stalled: bool)
      modifies this
      ensures Drain(old(buffer) + chunk, old(parseErrors), FrameDecoder(c), TextRecovery(c), false) ==
        Drained(emitted, buffer, parseErrors, stalled)
    {
      buffer := buffer + chunk;
      ParseMessageRejectsEmpty(c);
      emitted, stalled := Pump(FrameDecoder(c), c, false);
    }

    /** The same step with the fallback run when the count of failed frames
        reaches MAX_ERRORS. */
    method FeedChunkWithRecovery(chunk: Bytes, c: Codec) returns (emitted: seq<Message>)
      modifies this
      ensures Drain(old(buffer) + chunk, old(parseErrors), FrameDecoder(c), TextRecovery(c), true) ==
        Drained(emitted, buffer, parseErrors, false)
    {
      buffer := buffer + chunk;
      ParseMessageRejectsEmpty(c);
      var stalled;
      emitted, stalled := Pump(FrameDecoder(c), c, true);
    }

    /** The inner `while` loop over the buffer, calling `decode` on each
        frame it cuts off. */
    method Pump(decode: Bytes -> Option<Message>, c: Codec, recover: bool) returns (emitted: seq<Message>, stalled: bool)
      requires RejectsEmpty(decode)
      modifies this
      ensures Drain(old(buffer), old(parseErrors), decode, TextRecovery(c), recover) ==
        Drained(emitted, buffer, parseErrors, stalled)
    {
      var buf: Bytes, errs: nat := buffer, parseErrors;
      emitted := [];
      stalled := false;
      while |buf| >= PRELUDE_LENGTH
        invariant !stalled
        invariant Drain(old(buffer), old(parseErrors), decode, TextRecovery(c), recover) ==
          Then(emitted, Drain(buf, errs, decode, TextRecovery(c), recover))
        decreases |buf|, if errs < MAX_ERRORS then MAX_ERRORS - errs else 0
      {
        var totalLength := BE32(buf[..4]);
        if |buf| < totalLength {
          break;
        }
        FrameStep(buf, errs, decode, TextRecovery(c), recover);
        if totalLength == 0 && !recover {
          stalled := true;
          break;
        }
        var messageData := buf[..totalLength];
        buf := buf[totalLength..];
        var message := decode(messageData);
        if message.Some? {
          ThenThen(emitted, [message.value], Drain(buf, 0, decode, TextRecovery(c), recover));
          errs := 0;
          emitted := emitted + [message.value];
        } else {
          errs := errs + 1;
          if recover && errs >= MAX_ERRORS {
            var events := ParseTextFallback(c.lossyUtf8(buf), c.json);
            assert events == TextRecovery(c)(buf);
            ThenThen(emitted, events, Drain([], 0, decode, TextRecovery(c), recover));
            emitted := emitted + events;
            buf, errs := [], 0;
            break;
          }
        }
      }
      ThenThen(emitted, [], Drained([], buf, errs, stalled));
      buffer, parseErrors := buf, errs;
    }
  }

  // ---------------------------------------------------------------------
  // Chunking

  function Concat(chunks: seq<Bytes>): Bytes
  {
    if chunks == [] then [] else chunks[0] + Concat(chunks[1..])
  }

  /** Feeding the chunks one call at a time, from buffer `buf` and count
      `errors`; a stalled step ends the stream, as the source never returns
      from it. */
  function Feed(chunks: seq<Bytes>, buf: Bytes, errors: nat, decode: Bytes -> Option<Message>, fallback: Bytes -> seq<Message>, recover: bool): Drained
    requires RejectsEmpty(decode)
  {
    if chunks == [] then Drained([], buf, errors, false)
    else
      var d := Drain(buf + chunks[0], errors, decode, fallback, recover);
      if d.stalled then d
      else Then(d.emitted, Feed(chunks[1..], d.rest, d.errors, decode, fallback, recover))
  }

  lemma {:induction false} ThenThen(a: seq<Message>, b: seq<Message>, d: Drained)
    ensures Then(a, Then(b, d)) == Then(a + b, d)
  {
    assert a + (b + d.emitted) == (a + b) + d.emitted;
  }

  /** As written, bytes arriving later never change what was already
      drained: draining `b1 + b2` first does what draining `b1` does, then
      goes on with the remaining bytes followed by `b2`. */
  lemma {:induction false} DrainAppend(b1: Bytes, b2: Bytes, errors: nat, decode: Bytes -> Option<Message>, fallback: Bytes -> seq<Message>)
    requires RejectsEmpty(decode)
    ensures Drain(b1, errors, decode, fallback, false).stalled ==> Drain(b1 + b2, errors, decode, fallback, false).stalled
    ensures var d := Drain(b1, errors, decode, fallback, false);
      !d.stalled ==>
        Drain(b1 + b2, errors, decode, fallback, false) == Then(d.emitted, Drain(d.rest + b2, d.errors, decode, fallback, false))
    decreases |b1|
  {
    var d := Drain(b1, errors, decode, fallback, false);
    if Waiting(b1) {
      assert d.rest + b2 == b1 + b2;
      assert [] + Drain(b1 + b2, errors, decode, fallback, false).emitted == Drain(b1 + b2, errors, decode, fallback, false).emitted;
    } else {
      var b := b1 + b2;
      var total := BE32(b1[..4]);
      assert b[..4] == b1[..4];
      if total > 0 {
        assert b[..total] == b1[..total];
        assert b[total..] == b1[total..] + b2;
        var next := if decode(b1[..total]).Some? then 0 else errors + 1;
        DrainAppend(b1[total..], b2, next, decode, fallback);
        if decode(b1[..total]).Some? {
          var d1 := Drain(b1[total..], 0, decode, fallback, false);
          if !d1.stalled {
            ThenThen([decode(b1[..total]).value], d1.emitted, Drain(d1.rest + b2, d1.errors, decode, fallback, false));
          }
        }
      }
    }
  }

  /** The messages do not depend on how the bytes were cut into chunks: as
      written, feeding the chunks one by one emits exactly what draining
      their concatenation at once does (unless the loop spins). */
  lemma {:induction false} ChunkingIrrelevant(chunks: seq<Bytes>, buf: Bytes, errors: nat,
                                              decode: Bytes -> Option<Message>, fallback: Bytes -> seq<Message>)
    requires RejectsEmpty(decode)
    requires Waiting(buf)
    requires !Drain(buf + Concat(chunks), errors, decode, fallback, false).stalled
    ensures Feed(chunks, buf, errors, decode, fallback, false) == Drain(buf + Concat(chunks), errors, decode, fallback, false)
    decreases |chunks|
  {
    if chunks == [] {
      assert buf + Concat(chunks) == buf;
    } else {
      var more := Concat(chunks[1..]);
      assert buf + Concat(chunks) == (buf + chunks[0]) + more;
      DrainAppend(buf + chunks[0], more, errors, decode, fallback);
      var d := Drain(buf + chunks[0], errors, decode, fallback, false);
      ChunkingIrrelevant(chunks[1..], d.rest, d.errors, decode, fallback);
    }
  }

  // ---------------------------------------------------------------------
  // Frames in sequence

  /** A byte string that decodes as one frame and declares its own length. */
  predicate DecodableFrame(f: Bytes, decode: Bytes -> Option<Message>)
  {
    |f| >= PRELUDE_LENGTH && BE32(f[..4]) == |f| && decode(f).Some?
  }

  function Decoded(fs: seq<Bytes>, decode: Bytes -> Option<Message>): seq<Message>
    requires forall i :: 0 <= i < |fs| ==> DecodableFrame(fs[i], decode)
  {
    if fs == [] then []
    else
      assert DecodableFrame(fs[0], decode);
      [decode(fs[0]).value] + Decoded(fs[1..], decode)
  }

  /** Frame extraction: frames laid end to end are cut off one by one, in
      wire order, each handed to the decoder exactly as it was sent; each
      success resets the failure count. */
  lemma {:induction false} DrainFrames(fs: seq<Bytes>, tail: Bytes, errors: nat,
                                       decode: Bytes -> Option<Message>, fallback: Bytes -> seq<Message>, recover: bool)
    requires RejectsEmpty(decode)
    requires forall i :: 0 <= i < |fs| ==> DecodableFrame(fs[i], decode)
    ensures Drain(Concat(fs) + tail, errors, decode, fallback, recover) ==
      Then(Decoded(fs, decode), Drain(tail, if fs == [] then errors else 0, decode, fallback, recover))
    decreases |fs|
  {
    if fs == [] {
      assert Concat(fs) + tail == tail;
      assert [] + Drain(tail, errors, decode, fallback, recover).emitted == Drain(tail, errors, decode, fallback, recover).emitted;
    } else {
      var f := fs[0];
      assert DecodableFrame(f, decode);
      var rest := Concat(fs[1..]) + tail;
      var b := Concat(fs) + tail;
      assert b == f + rest;
      assert b[..4] == f[..4];
      assert b[..|f|] == f;
      assert b[|f|..] == rest;
      DrainFrames(fs[1..], tail, 0, decode, fallback, recover);
      ThenThen([decode(f).value], Decoded(fs[1..], decode), Drain(tail, 0, decode, fallback, recover));
    }
  }

  /** The parts of one frame to be sent. */
  datatype FrameParts = FrameParts(entries: seq<Entry>, payload: Bytes, preludeCrc: Bytes, messageCrc: Bytes)

  /** The parts fit the wire format and their header names and text values
      are valid UTF-8. */
  predicate Sendable(p: FrameParts, c: Codec)
  {
    && AllWellFormed(p.entries)
    && |p.preludeCrc| == 4 && |p.messageCrc| == 4
    && 16 + |EncodeEntries(p.entries)| + |p.payload| < TWO_32
    && Collect(p.entries, c.utf8).Some?
  }

  function FrameOf(p: FrameParts, c: Codec): Bytes
    requires Sendable(p, c)
  {
    EncodeFrame(p.entries, p.payload, p.preludeCrc, p.messageCrc)
  }

  /** The message a receiver should see for the frame. */
  function Expected(p: FrameParts, c: Codec): Message
    requires Sendable(p, c)
  {
    Message(Collect(p.entries, c.utf8).value, DecodePayload(p.payload, c), Some(|FrameOf(p, c)|))
  }

  function FramesOf(ps: seq<FrameParts>, c: Codec): (fs: seq<Bytes>)
    requires forall i :: 0 <= i < |ps| ==> Sendable(ps[i], c)
    ensures |fs| == |ps| && forall i :: 0 <= i < |ps| ==> fs[i] == FrameOf(ps[i], c)
  {
    if ps == [] then [] else [FrameOf(ps[0], c)] + FramesOf(ps[1..], c)
  }

  function ExpectedAll(ps: seq<FrameParts>, c: Codec): (ms: seq<Message>)
    requires forall i :: 0 <= i < |ps| ==> Sendable(ps[i], c)
  {
    if ps == [] then [] else [Expected(ps[0], c)] + ExpectedAll(ps[1..], c)
  }

  lemma {:induction false} SentFrameDecodes(p: FrameParts, c: Codec)
    requires Sendable(p, c)
    ensures DecodableFrame(FrameOf(p, c), FrameDecoder(c))
    ensures FrameDecoder(c)(FrameOf(p, c)) == Some(Expected(p, c))
  {
    FrameRoundTrip(p.entries, p.payload, p.preludeCrc, p.messageCrc, c);
  }

  lemma {:induction false} DecodedSent(ps: seq<FrameParts>, c: Codec)
    requires forall i :: 0 <= i < |ps| ==> Sendable(ps[i], c)
    ensures forall i :: 0 <= i < |ps| ==> DecodableFrame(FramesOf(ps, c)[i], FrameDecoder(c))
    ensures Decoded(FramesOf(ps, c), FrameDecoder(c)) == ExpectedAll(ps, c)
    decreases |ps|
  {
    var fs := FramesOf(ps, c);
    forall i | 0 <= i < |ps| ensures DecodableFrame(fs[i], FrameDecoder(c)) {
      SentFrameDecodes(ps[i], c);
    }
    if ps != [] {
      SentFrameDecodes(ps[0], c);
      assert fs[1..] == FramesOf(ps[1..], c);
      DecodedSent(ps[1..], c);
    }
  }

  /** As written, decodable frames laid end to end and cut into chunks in
      any way come out as their decoded messages, in order, with nothing
      left buffered and no failure counted. */
  lemma {:induction false} FramesInChunks(fs: seq<Bytes>, chunks: seq<Bytes>, decode: Bytes -> Option<Message>, fallback: Bytes -> seq<Message>)
    requires RejectsEmpty(decode)
    requires forall i :: 0 <= i < |fs| ==> DecodableFrame(fs[i], decode)
    requires Concat(chunks) == Concat(fs)
    ensures Feed(chunks, [], 0, decode, fallback, false) == Drained(Decoded(fs, decode), [], 0, false)
  {
    DrainFrames(fs, [], 0, decode, fallback, false);
    assert [] + Concat(chunks) == Concat(fs) + [];
    assert Drain([], 0, decode, fallback, false) == Drained([], [], 0, false);
    assert Decoded(fs, decode) + [] == Decoded(fs, decode);
    ChunkingIrrelevant(chunks, [], 0, decode, fallback);
  }

  /** End to end, as written: well-formed frames sent one after another and
      cut into chunks in any way come out as exactly their messages, in
      order, with nothing left buffered and no failure counted. */
  lemma {:induction false} EncodedStreamDecodes(ps: seq<FrameParts>, chunks: seq<Bytes>, c: Codec)
    requires forall i :: 0 <= i < |ps| ==> Sendable(ps[i], c)
    requires Concat(chunks) == Concat(FramesOf(ps, c))
    ensures RejectsEmpty(FrameDecoder(c))
    ensures Feed(chunks, [], 0, FrameDecoder(c), TextRecovery(c), false) == Drained(ExpectedAll(ps, c), [], 0, false)
  {
    ParseMessageRejectsEmpty(c);
    DecodedSent(ps, c);
    FramesInChunks(FramesOf(ps, c), chunks, FrameDecoder(c), TextRecovery(c));
  }

  // ---------------------------------------------------------------------
  // The failure count and the fallback

  /** As written, every message the loop emits comes from a frame: the text
      fallback never runs, whatever the failures. */
  lemma {:induction false} AsWrittenNeverRecovers(buf: Bytes, errors: nat, c: Codec)
    ensures RejectsEmpty(FrameDecoder(c))
    ensures forall m :: m in Drain(buf, errors, FrameDecoder(c), TextRecovery(c), false).emitted ==> m.totalLength.Some?
    decreases |buf|
  {
    ParseMessageRejectsEmpty(c);
    if !Waiting(buf) {
      var total := BE32(buf[..4]);
      if total > 0 {
        var frame := ParseMessage(buf[..total], c);
        AsWrittenNeverRecovers(buf[total..], if frame.Some? then 0 else errors + 1, c);
      }
    }
  }

  /** One frame's effect on the loop, as written and with recovery: a
      declared length of 0 stalls the code as written; otherwise a decoded
      frame is emitted and resets the count, a failed one counts, and only
      with recovery does reaching MAX_ERRORS run the fallback over the rest
      of the buffer. */
  lemma {:induction false} FrameStep(buf: Bytes, errors: nat, decode: Bytes -> Option<Message>, fallback: Bytes -> seq<Message>, recover: bool)
    requires RejectsEmpty(decode)
    requires |buf| >= PRELUDE_LENGTH && BE32(buf[..4]) <= |buf|
    ensures var total := BE32(buf[..4]);
      var d := Drain(buf, errors, decode, fallback, recover);
      && (total == 0 && !recover ==> d == Drained([], buf, errors, true))
      && (total > 0 || recover ==>
          && (decode(buf[..total]).Some? ==>
                d == Then([decode(buf[..total]).value], Drain(buf[total..], 0, decode, fallback, recover)))
          && (decode(buf[..total]).None? && (!recover || errors + 1 < MAX_ERRORS) ==>
                d == Drain(buf[total..], errors + 1, decode, fallback, recover))
          && (decode(buf[..total]).None? && recover && errors + 1 >= MAX_ERRORS ==>
                d == Drained(fallback(buf[total..]), [], 0, false)))
  {
  }

  /** As written, a declared length of 0 never consumes a byte: the loop
      spins forever. With recovery the third failure clears the buffer. */
  lemma {:induction false} ZeroLength(buf: Bytes, errors: nat, decode: Bytes -> Option<Message>, fallback: Bytes -> seq<Message>)
    requires RejectsEmpty(decode)
    requires |buf| >= PRELUDE_LENGTH && BE32(buf[..4]) == 0
    ensures Drain(buf, errors, decode, fallback, false) == Drained([], buf, errors, true)
    ensures errors < MAX_ERRORS ==>
      Drain(buf, errors, decode, fallback, true) == Drained(fallback(buf), [], 0, false)
    decreases MAX_ERRORS - errors
  {
    assert buf[..0] == [] && buf[0..] == buf;
    if errors + 1 < MAX_ERRORS {
      ZeroLength(buf, errors + 1, decode, fallback);
    }
  }

  // ---------------------------------------------------------------------
  // Three bad frames, then text

  /** A 12-byte frame declaring 12 bytes: too short to decode. */
  const BAD_FRAME: Bytes := U32(12) + [0, 0, 0, 0, 0, 0, 0, 0]

  /** The bytes of a string of characters below 256, one byte each (any
      other character becomes a zero byte). */
  function Latin1(s: string): (b: Bytes)
    ensures |b| == |s|
    ensures forall i :: 0 <= i < |s| && s[i] as int < 256 ==> b[i] == s[i] as int
  {
    if s == [] then []
    else [if s[0] as int < 256 then s[0] as int else 0] + Latin1(s[1..])
  }

  lemma {:induction false} BadFrameRejected(c: Codec)
    ensures RejectsEmpty(FrameDecoder(c)) && FrameDecoder(c)(BAD_FRAME).None?
  {
    assert |BAD_FRAME| < 16;
  }

  /** A frame the decoder rejects counts one failure, or with recovery at
      the count's limit hands the rest of the buffer to the fallback. */
  lemma {:induction false} BadFrameFails(rest: Bytes, errors: nat, decode: Bytes -> Option<Message>, fallback: Bytes -> seq<Message>, recover: bool)
    requires RejectsEmpty(decode) && decode(BAD_FRAME).None?
    ensures Drain(BAD_FRAME + rest, errors, decode, fallback, recover) ==
      if recover && errors + 1 >= MAX_ERRORS then Drained(fallback(rest), [], 0, false)
      else Drain(rest, errors + 1, decode, fallback, recover)
  {
    var b := BAD_FRAME + rest;
    assert b[..4] == U32(12);
    BE32OfU32(12);
    assert b[..12] == BAD_FRAME && b[12..] == rest;
  }

  /** Three rejected frames in a row: as written they only count; with
      recovery the third hands the rest of the buffer to the fallback. */
  lemma {:induction false} ThreeBadFrames(rest: Bytes, decode: Bytes -> Option<Message>, fallback: Bytes -> seq<Message>)
    requires RejectsEmpty(decode) && decode(BAD_FRAME).None?
    ensures Drain(BAD_FRAME + (BAD_FRAME + (BAD_FRAME + rest)), 0, decode, fallback, false) ==
      Drain(rest, 3, decode, fallback, false)
    ensures Drain(BAD_FRAME + (BAD_FRAME + (BAD_FRAME + rest)), 0, decode, fallback, true) ==
      Drained(fallback(rest), [], 0, false)
  {
    var r1 := BAD_FRAME + rest;
    var r2 := BAD_FRAME + r1;
    var r3 := BAD_FRAME + r2;
    forall recover: bool
      ensures Drain(r3, 0, decode, fallback, recover) == Drain(r2, 1, decode, fallback, recover)
      ensures Drain(r2, 1, decode, fallback, recover) == Drain(r1, 2, decode, fallback, recover)
    {
      BadFrameFails(r2, 0, decode, fallback, recover);
      BadFrameFails(r1, 1, decode, fallback, recover);
    }
    BadFrameFails(rest, 2, decode, fallback, false);
    BadFrameFails(rest, 2, decode, fallback, true);
  }

  const NOISE_BEFORE: string := "garbage"
  const NOISE_AFTER: string := "more-garbage"
  const RECOVERED_TEXT: string := NOISE_BEFORE + ContentObject("hi") + NOISE_AFTER

  /** Three frames too short to decode followed by the text
      `garbage{"content":"hi"}more-garbage`. As written, no message comes
      out and the text stays buffered, waiting for a frame of the length its
      first four bytes declare. With recovery exactly one assistant-response
      event comes out and the buffer is cleared. */
  lemma {:induction false} ThreeBadFramesThenText(c: Codec)
    requires c.lossyUtf8(Latin1(RECOVERED_TEXT)) == RECOVERED_TEXT
    requires c.json(ContentObject("hi")) == Some(JObject(map["content" := JString("hi")]))
    ensures RejectsEmpty(FrameDecoder(c))
    ensures var buf := BAD_FRAME + (BAD_FRAME + (BAD_FRAME + Latin1(RECOVERED_TEXT)));
      && Drain(buf, 0, FrameDecoder(c), TextRecovery(c), false) == Drained([], Latin1(RECOVERED_TEXT), 3, false)
      && Drain(buf, 0, FrameDecoder(c), TextRecovery(c), true) ==
           Drained([EventOf(ASSISTANT_RESPONSE, JObject(map["content" := JString("hi")]))], [], 0, false)
  {
    BadFrameRejected(c);
    var text := Latin1(RECOVERED_TEXT);
    ThreeBadFrames(text, FrameDecoder(c), TextRecovery(c));
    assert |text| == 35;
    assert text[0] == 'g' as int;
    assert BE32(text[..4]) > |text|;
    RecoveredTextEvents(c.json);
    assert TextRecovery(c)(text) == FallbackEvents(RECOVERED_TEXT, c.json);
  }

  /** The text fallback finds in `garbage{"content":"hi"}more-garbage`
      exactly the one content object. */
  lemma {:induction false} RecoveredTextEvents(json: string -> Option<Json>)
    requires json(ContentObject("hi")) == Some(JObject(map["content" := JString("hi")]))
    ensures FallbackEvents(RECOVERED_TEXT, json) ==
      [EventOf(ASSISTANT_RESPONSE, JObject(map["content" := JString("hi")]))]
  {
    assert NoOpenBrace(NOISE_BEFORE) && NoOpenBrace(NOISE_AFTER) && PlainString("hi");
    ContentObjectRecovered(NOISE_BEFORE, "hi", NOISE_AFTER, json, JObject(map["content" := JString("hi")]));
  }
}
