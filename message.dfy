/** One event-stream frame: a 12-byte prelude (total length, header block
    length, prelude checksum), the header block, the payload and a trailing
    4-byte message checksum. Neither checksum is ever read. */
module Messages {
  import opened Wire
  import opened HeaderBlock

  /** The payload of a decoded message: a JSON value (JSON null standing for
      Python's None, which an empty payload yields) or the raw bytes when
      they are not UTF-8 JSON text. */
  datatype Payload = JsonValue(json: Json) | RawBytes(bytes: Bytes)

  /** A decoded message. Frames carry their declared total length; the
      messages the text fallback synthesises carry none. */
  datatype Message = Message(headers: Headers, payload: Payload, totalLength: Option<nat>)

  /** The payload rule of parse_message (event_stream_parser.py:117-122):
      empty bytes give None, bytes that decode as UTF-8 and parse as JSON
      give the JSON value, anything else is kept unchanged. */
  function DecodePayload(p: Bytes, c: Codec): (v: Payload)
    ensures p == [] ==> v == JsonValue(JNull)
    ensures v.RawBytes? ==> v.bytes == p && p != []
    ensures p != [] && c.utf8(p).Some? && c.json(c.utf8(p).value).Some? ==>
      v == JsonValue(c.json(c.utf8(p).value).value)
    ensures p != [] && (c.utf8(p).None? || c.json(c.utf8(p).value).None?) ==> v == RawBytes(p)
  {
    if p == [] then JsonValue(JNull)
    else
      match c.utf8(p)
      case None => RawBytes(p)
      case Some(text) =>
        match c.json(text)
        case None => RawBytes(p)
        case Some(j) => JsonValue(j)
  }

  /** parse_message (event_stream_parser.py:83-132). Short input, input
      shorter than the declared total length, and a header block that fails
      to decode (the UnicodeDecodeError the outer `except` catches) give
      None. The slices are Python slices: the header block is clamped to
      the input and the payload ends 4 bytes before the declared length,
      counted from the end of the input when that length is below 4. */
  function ParseMessage(data: Bytes, c: Codec): (r: Option<Message>)
    ensures r.Some? ==> |data| >= 16
  {
    if |data| < 16 then None
    else
      var total := BE32(data[..4]);
      var headersLength := BE32(data[4..8]);
      if |data| < total then None
      else
        match DecodeHeaderBlock(PySlice(data, 12, 12 + headersLength), c.utf8)
        case None => None
        case Some(headers) =>
          var payload := PySlice(data, 12 + headersLength, total - 4);
          Some(Message(headers, DecodePayload(payload, c), Some(total)))
  }

  /** What parse_message returns, case by case: None for short input, for
      input shorter than the declared length and for an undecodable header
      block; otherwise the message whose length field is the declared one,
      whose headers are the decoded header block slice and whose payload is
      the decoded payload slice. */
  lemma {:induction false} ParseMessageCases(data: Bytes, c: Codec)
    ensures |data| < 16 ==> ParseMessage(data, c).None?
    ensures |data| >= 16 && |data| < BE32(data[..4]) ==> ParseMessage(data, c).None?
    ensures |data| >= 16 && |data| >= BE32(data[..4]) ==>
      var hb := DecodeHeaderBlock(PySlice(data, 12, 12 + BE32(data[4..8])), c.utf8);
      (ParseMessage(data, c).None? <==> hb.None?)
    ensures ParseMessage(data, c).Some? ==>
      var m := ParseMessage(data, c).value;
      && m.totalLength == Some(BE32(data[..4])) && BE32(data[..4]) <= |data|
      && Some(m.headers) == DecodeHeaderBlock(PySlice(data, 12, 12 + BE32(data[4..8])), c.utf8)
      && m.payload == DecodePayload(PySlice(data, 12 + BE32(data[4..8]), BE32(data[..4]) - 4), c)
  {
  }

  /** The byte layout of a frame with the given header entries, payload and
      (unchecked) checksum bytes. */
  function EncodeFrame(es: seq<Entry>, payload: Bytes, preludeCrc: Bytes, messageCrc: Bytes): (f: Bytes)
    requires AllWellFormed(es)
    requires |preludeCrc| == 4 && |messageCrc| == 4
    requires 16 + |EncodeEntries(es)| + |payload| < TWO_32
    ensures |f| == 16 + |EncodeEntries(es)| + |payload|
  {
    var hb := EncodeEntries(es);
    U32(16 + |hb| + |payload|) + U32(|hb|) + preludeCrc + hb + payload + messageCrc
  }

  /** The two lengths an encoded frame declares in its prelude. */
  lemma {:induction false} FramePrelude(es: seq<Entry>, payload: Bytes, preludeCrc: Bytes, messageCrc: Bytes)
    requires AllWellFormed(es)
    requires |preludeCrc| == 4 && |messageCrc| == 4
    requires 16 + |EncodeEntries(es)| + |payload| < TWO_32
    ensures var f := EncodeFrame(es, payload, preludeCrc, messageCrc);
      BE32(f[..4]) == |f| && BE32(f[4..8]) == |EncodeEntries(es)|
  {
    var hb := EncodeEntries(es);
    var f := EncodeFrame(es, payload, preludeCrc, messageCrc);
    assert f[..4] == U32(|f|);
    assert f[4..8] == U32(|hb|);
    BE32OfU32(|f|);
    BE32OfU32(|hb|);
  }

  /** The header block and payload slices parse_message takes from an
      encoded frame are the header block and payload it was built from. */
  lemma {:induction false} FrameSlices(es: seq<Entry>, payload: Bytes, preludeCrc: Bytes, messageCrc: Bytes)
    requires AllWellFormed(es)
    requires |preludeCrc| == 4 && |messageCrc| == 4
    requires 16 + |EncodeEntries(es)| + |payload| < TWO_32
    ensures var f := EncodeFrame(es, payload, preludeCrc, messageCrc);
      var hb := EncodeEntries(es);
      PySlice(f, 12, 12 + |hb|) == hb && PySlice(f, 12 + |hb|, |f| - 4) == payload
  {
    var hb := EncodeEntries(es);
    var f := EncodeFrame(es, payload, preludeCrc, messageCrc);
    assert f[12..12 + |hb|] == hb;
    assert f[12 + |hb|..|f| - 4] == payload;
  }

  /** Decoding a frame built from its parts gives back its header
      dictionary, its payload and its length; the checksums play no part. */
  lemma {:induction false} FrameRoundTrip(es: seq<Entry>, payload: Bytes, preludeCrc: Bytes, messageCrc: Bytes, c: Codec)
    requires AllWellFormed(es)
    requires |preludeCrc| == 4 && |messageCrc| == 4
    requires 16 + |EncodeEntries(es)| + |payload| < TWO_32
    ensures var f := EncodeFrame(es, payload, preludeCrc, messageCrc);
      BE32(f[..4]) == |f|
    ensures var f := EncodeFrame(es, payload, preludeCrc, messageCrc);
      ParseMessage(f, c) ==
        match Collect(es, c.utf8)
        case None => None
        case Some(h) => Some(Message(h, DecodePayload(payload, c), Some(|f|)))
  {
    FramePrelude(es, payload, preludeCrc, messageCrc);
    FrameSlices(es, payload, preludeCrc, messageCrc);
    HeaderBlockRoundTrip(es, c.utf8);
  }

  /** A payload that is not UTF-8 JSON text reaches the caller as the very
      bytes of the frame. */
  lemma {:induction false} RawPayloadUnchanged(es: seq<Entry>, payload: Bytes, preludeCrc: Bytes, messageCrc: Bytes, c: Codec)
    requires AllWellFormed(es)
    requires |preludeCrc| == 4 && |messageCrc| == 4
    requires 16 + |EncodeEntries(es)| + |payload| < TWO_32
    requires Collect(es, c.utf8).Some?
    requires payload != [] && (c.utf8(payload).None? || c.json(c.utf8(payload).value).None?)
    ensures var r := ParseMessage(EncodeFrame(es, payload, preludeCrc, messageCrc), c);
      r.Some? && r.value.payload == RawBytes(payload)
  {
    FrameRoundTrip(es, payload, preludeCrc, messageCrc, c);
  }
}
