/** The two small helpers beside the parser: the event summary of a decoded
    message, and the reader of one line of a plain-text event stream. */
module EventInfo {
  import opened Wire
  import opened HeaderBlock
  import opened Messages
  import opened TextFallback

  // ---------------------------------------------------------------------
  // extract_event_info

  /** The summary extract_event_info returns; a field is None where no
      header supplies it. */
  datatype EventSummary = EventSummary(
    eventType: Option<HeaderValue>,
    contentType: Option<HeaderValue>,
    messageType: Option<HeaderValue>,
    payload: Payload)

  /** Python truthiness of a header value: an empty string or empty byte
      string is false. */
  predicate Truthy(v: HeaderValue)
  {
    match v
    case Text(s) => s != []
    case Raw(b) => b != []
  }

  /** `headers.get(primary) or headers.get(alternate)`: the primary header
      when it is present and truthy, otherwise whatever the alternate lookup
      gives, None included. */
  function HeaderOr(h: Headers, primary: string, alternate: string): (r: Option<HeaderValue>)
    ensures primary in h && Truthy(h[primary]) ==> r == Some(h[primary])
    ensures !(primary in h && Truthy(h[primary])) && alternate in h ==> r == Some(h[alternate])
    ensures r.None? <==> !(primary in h && Truthy(h[primary])) && alternate !in h
  {
    if primary in h && Truthy(h[primary]) then Some(h[primary])
    else if alternate in h then Some(h[alternate])
    else None
  }

  /** extract_event_info (event_stream_parser.py:306-329): each field reads
      the colon-prefixed header first and the plain name second; the payload
      is passed through. */
  function ExtractEventInfo(m: Message): (e: EventSummary)
    ensures e.payload == m.payload
    ensures ":event-type" in m.headers && Truthy(m.headers[":event-type"]) ==>
      e.eventType == Some(m.headers[":event-type"])
    ensures !(":event-type" in m.headers && Truthy(m.headers[":event-type"])) && "event-type" in m.headers ==>
      e.eventType == Some(m.headers["event-type"])
    ensures e.eventType.None? <==>
      !(":event-type" in m.headers && Truthy(m.headers[":event-type"])) && "event-type" !in m.headers
    ensures ":content-type" in m.headers && Truthy(m.headers[":content-type"]) ==>
      e.contentType == Some(m.headers[":content-type"])
    ensures !(":content-type" in m.headers && Truthy(m.headers[":content-type"])) && "content-type" in m.headers ==>
      e.contentType == Some(m.headers["content-type"])
    ensures e.contentType.None? <==>
      !(":content-type" in m.headers && Truthy(m.headers[":content-type"])) && "content-type" !in m.headers
    ensures ":message-type" in m.headers && Truthy(m.headers[":message-type"]) ==>
      e.messageType == Some(m.headers[":message-type"])
    ensures !(":message-type" in m.headers && Truthy(m.headers[":message-type"])) && "message-type" in m.headers ==>
      e.messageType == Some(m.headers["message-type"])
    ensures e.messageType.None? <==>
      !(":message-type" in m.headers && Truthy(m.headers[":message-type"])) && "message-type" !in m.headers
  {
    EventSummary(
      HeaderOr(m.headers, ":event-type", "event-type"),
      HeaderOr(m.headers, ":content-type", "content-type"),
      HeaderOr(m.headers, ":message-type", "message-type"),
      m.payload)
  }

  /** Every event the text fallback synthesises summarises as an assistant
      response or a tool use, with no content or message type and its JSON
      payload passed through. */
  lemma {:induction false} FallbackEventInfo(text: string, json: string -> Option<Json>, m: Message)
    requires m in FallbackEvents(text, json)
    ensures var e := ExtractEventInfo(m);
      && (e.eventType == Some(Text(ASSISTANT_RESPONSE)) || e.eventType == Some(Text(TOOL_USE)))
      && e.contentType == None && e.messageType == None
      && e.payload.JsonValue?
  {
    ScanEventsShape(text, json, 0);
  }

  /** A frame whose only header is the plain `event-type` name still
      summarises with that event type, whatever its value. */
  lemma {:induction false} PlainNameFallsBack(m: Message, v: HeaderValue)
    requires m.headers == map["event-type" := v]
    ensures ExtractEventInfo(m).eventType == Some(v)
    ensures ExtractEventInfo(m).contentType == None && ExtractEventInfo(m).messageType == None
  {
  }

  /** An empty colon-prefixed header is falsy, so the plain one wins; with
      no plain one the field is None rather than the empty value. */
  lemma {:induction false} EmptyPrimaryIgnored(h: Headers)
    requires ":event-type" in h && h[":event-type"] == Text([])
    ensures "event-type" in h ==>
      ExtractEventInfo(Message(h, JsonValue(JNull), None)).eventType == Some(h["event-type"])
    ensures "event-type" !in h ==>
      ExtractEventInfo(Message(h, JsonValue(JNull), None)).eventType == None
  {
  }

  // ---------------------------------------------------------------------
  // parse_text_stream_line

  /** Python's `str.isspace` for one character: the characters with
      bidirectional class WS, B or S, or general category Zs. */
  predicate IsSpace(ch: char)
  {
    var c := ch as int;
    || c == 0x20 || 0x09 <= c <= 0x0d || 0x1c <= c <= 0x1f
    || c == 0x85 || c == 0xa0 || c == 0x1680 || 0x2000 <= c <= 0x200a
    || c == 0x2028 || c == 0x2029 || c == 0x202f || c == 0x205f || c == 0x3000
  }

  predicate AllSpace(s: string)
  {
    forall k :: 0 <= k < |s| ==> IsSpace(s[k])
  }

  /** `s.lstrip()`: the suffix of `s` after its leading whitespace. */
  function TrimLeft(s: string): (r: string)
    ensures |r| <= |s| && r == s[|s| - |r|..]
    ensures AllSpace(s[..|s| - |r|])
    ensures r != [] ==> !IsSpace(r[0])
  {
    if s != [] && IsSpace(s[0]) then TrimLeft(s[1..]) else s
  }

  /** `s.rstrip()`: the prefix of `s` before its trailing whitespace. */
  function TrimRight(s: string): (r: string)
    ensures |r| <= |s| && r == s[..|r|]
    ensures AllSpace(s[|r|..])
    ensures r != [] ==> !IsSpace(r[|r| - 1])
  {
    if s != [] && IsSpace(s[|s| - 1]) then TrimRight(s[..|s| - 1]) else s
  }

  /** `s.strip()`. */
  function Strip(s: string): string
  {
    TrimRight(TrimLeft(s))
  }

  /** `r` is `s` with a whitespace-only prefix and suffix cut off. */
  predicate PaddedInfix(r: string, s: string)
  {
    exists i :: 0 <= i <= |s| - |r| && r == s[i..i + |r|] && AllSpace(s[..i]) && AllSpace(s[i + |r|..])
  }

  /** Stripping cuts whitespace only, and what remains neither starts nor
      ends with whitespace. */
  lemma {:induction false} StripCuts(s: string)
    ensures PaddedInfix(Strip(s), s)
    ensures Strip(s) != [] ==> !IsSpace(Strip(s)[0]) && !IsSpace(Strip(s)[|Strip(s)| - 1])
  {
    var l := TrimLeft(s);
    TwoCuts(s, l, TrimRight(l));
  }

  /** A whitespace suffix cut off a whitespace-free-start suffix leaves an
      infix between two whitespace runs. */
  lemma {:induction false} TwoCuts(s: string, l: string, r: string)
    requires |l| <= |s| && l == s[|s| - |l|..] && AllSpace(s[..|s| - |l|])
    requires |r| <= |l| && r == l[..|r|] && AllSpace(l[|r|..])
    requires l != [] ==> !IsSpace(l[0])
    requires r != [] ==> !IsSpace(r[|r| - 1])
    ensures PaddedInfix(r, s)
    ensures r != [] ==> !IsSpace(r[0]) && !IsSpace(r[|r| - 1])
  {
    var i := |s| - |l|;
    assert r == s[i..i + |r|];
    assert l[|r|..] == s[i + |r|..];
    if r != [] {
      assert r[0] == l[0];
    }
  }

  /** parse_text_stream_line (event_stream_parser.py:332-356): the stripped
      line, when it is non-empty and starts with `{` and ends with `}`, is
      handed to json.loads; anything else, and a line json.loads rejects,
      gives None. */
  function ParseTextStreamLine(line: string, json: string -> Option<Json>): (r: Option<Json>)
    ensures var s := Strip(line);
      r.Some? <==> |s| >= 2 && s[0] == '{' && s[|s| - 1] == '}' && json(s).Some?
    ensures r.Some? ==> r == json(Strip(line))
  {
    ParseStripped(Strip(line), json)
  }

  function ParseStripped(s: string, json: string -> Option<Json>): Option<Json>
  {
    if s == [] then None
    else if s[0] == '{' && s[|s| - 1] == '}' then json(s)
    else None
  }

  lemma {:induction false} TrimLeftSpaces(p: string, s: string)
    requires AllSpace(p)
    ensures TrimLeft(p + s) == TrimLeft(s)
    decreases |p|
  {
    if p != [] {
      assert (p + s)[0] == p[0];
      assert (p + s)[1..] == p[1..] + s;
      TrimLeftSpaces(p[1..], s);
    } else {
      assert p + s == s;
    }
  }

  lemma {:induction false} TrimLeftAppend(s: string, q: string)
    requires TrimLeft(s) != []
    ensures TrimLeft(s + q) == TrimLeft(s) + q
    decreases |s|
  {
    assert (s + q)[0] == s[0];
    if IsSpace(s[0]) {
      assert (s + q)[1..] == s[1..] + q;
      TrimLeftAppend(s[1..], q);
    }
  }

  lemma {:induction false} TrimRightSpaces(s: string, q: string)
    requires AllSpace(q)
    ensures TrimRight(s + q) == TrimRight(s)
    decreases |q|
  {
    if q != [] {
      var sq := s + q;
      assert sq[|sq| - 1] == q[|q| - 1];
      assert sq[..|sq| - 1] == s + q[..|q| - 1];
      TrimRightSpaces(s, q[..|q| - 1]);
    } else {
      assert s + q == s;
    }
  }

  lemma {:induction false} AllSpaceTrimsAway(s: string)
    requires AllSpace(s)
    ensures TrimLeft(s) == []
  {
  }

  /** Whitespace around a line does not change what strip leaves. */
  lemma {:induction false} StripPadding(p: string, s: string, q: string)
    requires AllSpace(p) && AllSpace(q)
    ensures Strip(p + s + q) == Strip(s)
  {
    assert p + s + q == p + (s + q);
    TrimLeftSpaces(p, s + q);
    if TrimLeft(s) != [] {
      TrimLeftAppend(s, q);
      TrimRightSpaces(TrimLeft(s), q);
    } else {
      assert AllSpace(s) by {
        assert s[..|s|] == s;
      }
      TrimLeftSpaces(s, q);
      AllSpaceTrimsAway(q);
    }
  }

  /** Padding a line with whitespace never changes what it parses to. */
  lemma {:induction false} LinePadding(p: string, line: string, q: string, json: string -> Option<Json>)
    requires AllSpace(p) && AllSpace(q)
    ensures ParseTextStreamLine(p + line + q, json) == ParseTextStreamLine(line, json)
  {
    StripPadding(p, line, q);
  }

  /** A `{"content":"…"}` line, indented and followed by a line break, is
      handed to json.loads exactly as the object text. */
  lemma {:induction false} ContentLineParsed(indent: string, s: string, json: string -> Option<Json>)
    requires AllSpace(indent)
    ensures ParseTextStreamLine(indent + ContentObject(s) + "\n", json) == json(ContentObject(s))
  {
    var x := ContentObject(s);
    LinePadding(indent, x, "\n", json);
    ContentObjectEnds(s);
    Unpadded(x);
    assert ParseTextStreamLine(x, json) == ParseStripped(x, json);
  }

  /** A string that neither starts nor ends with whitespace strips to itself. */
  lemma {:induction false} Unpadded(x: string)
    requires x != [] && !IsSpace(x[0]) && !IsSpace(x[|x| - 1])
    ensures Strip(x) == x
  {
    assert TrimLeft(x) == x;
  }

  /** A line that is only whitespace is skipped. */
  lemma {:induction false} BlankLineSkipped(line: string, json: string -> Option<Json>)
    requires AllSpace(line)
    ensures ParseTextStreamLine(line, json) == None
  {
    AllSpaceTrimsAway(line);
  }
}
