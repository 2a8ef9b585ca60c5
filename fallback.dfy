/** The degraded text scanner of _parse_text_fallback: it looks for JSON
    objects that start with one of four known prefixes, delimits each by
    quote- and escape-aware brace counting, parses it, and turns each
    recognised object into a synthetic event message. */
module TextFallback {
  import opened Wire
  import opened HeaderBlock
  import opened Messages

  // ---------------------------------------------------------------------
  // Searching for the four prefixes

  predicate OccursAt(text: string, pat: string, i: nat)
  {
    i + |pat| <= |text| && text[i..i + |pat|] == pat
  }

  /** `text.find(pat, from)` for a non-empty pattern: the least index at or
      after `from` where `pat` occurs, or -1. */
  function Find(text: string, pat: string, from: nat): (r: int)
    requires pat != []
    ensures r == -1 || (from <= r && OccursAt(text, pat, r))
    decreases |text| - from
  {
    if from + |pat| > |text| then -1
    else if OccursAt(text, pat, from) then from
    else Find(text, pat, from + 1)
  }

  /** `find` returns the first occurrence, and -1 only when there is none. */
  lemma {:induction false} FindFirst(text: string, pat: string, from: nat)
    requires pat != []
    ensures var r := Find(text, pat, from);
      && (r >= 0 ==> forall k :: from <= k < r ==> !OccursAt(text, pat, k))
      && (r == -1 ==> forall k :: from <= k ==> !OccursAt(text, pat, k))
    decreases |text| - from
  {
    if from + |pat| <= |text| && !OccursAt(text, pat, from) {
      FindFirst(text, pat, from + 1);
    }
  }

  const CONTENT_PREFIX: string := "{\"content\":"
  const NAME_PREFIX: string := "{\"name\":"
  const INPUT_PREFIX: string := "{\"input\":"
  const STOP_PREFIX: string := "{\"stop\":"

  /** One of the four prefixes starts at position `i`. */
  predicate CandidateAt(text: string, i: nat)
  {
    || OccursAt(text, CONTENT_PREFIX, i)
    || OccursAt(text, NAME_PREFIX, i)
    || OccursAt(text, INPUT_PREFIX, i)
    || OccursAt(text, STOP_PREFIX, i)
  }

  /** Adds a `find` result to the least non-negative one seen so far. */
  function Earlier(best: Option<nat>, pos: int): Option<nat>
  {
    if pos < 0 then best
    else if best.Some? && best.value <= pos then best
    else Some(pos)
  }

  /** The candidate list and its minimum (event_stream_parser.py:223-233):
      the first position at or after `from` where any prefix starts. */
  function EarliestCandidate(text: string, from: nat): (r: Option<nat>)
    ensures r.Some? ==> from <= r.value && CandidateAt(text, r.value)
  {
    var c := Find(text, CONTENT_PREFIX, from);
    var n := Find(text, NAME_PREFIX, from);
    var i := Find(text, INPUT_PREFIX, from);
    var s := Find(text, STOP_PREFIX, from);
    Earlier(Earlier(Earlier(Earlier(None, c), n), i), s)
  }

  /** The candidate found is the first one, and none is found only when
      no prefix starts at or after `from`. */
  lemma {:induction false} EarliestFirst(text: string, from: nat)
    ensures forall k :: from <= k && CandidateAt(text, k) ==>
      EarliestCandidate(text, from).Some? && EarliestCandidate(text, from).value <= k
  {
    FindFirst(text, CONTENT_PREFIX, from);
    FindFirst(text, NAME_PREFIX, from);
    FindFirst(text, INPUT_PREFIX, from);
    FindFirst(text, STOP_PREFIX, from);
    var c := Find(text, CONTENT_PREFIX, from);
    var n := Find(text, NAME_PREFIX, from);
    var i := Find(text, INPUT_PREFIX, from);
    var s := Find(text, STOP_PREFIX, from);
    var e1 := Earlier(None, c);
    var e2 := Earlier(e1, n);
    var e3 := Earlier(e2, i);
    forall k | from <= k && CandidateAt(text, k)
      ensures EarliestCandidate(text, from).Some? && EarliestCandidate(text, from).value <= k
    {
      assert 0 <= c <= k || 0 <= n <= k || 0 <= i <= k || 0 <= s <= k;
      EarlierBound(None, c, k);
      EarlierBound(e1, n, k);
      EarlierBound(e2, i, k);
      EarlierBound(e3, s, k);
    }
  }

  /** Adding a position never moves the least one seen past a bound that
      either of them already meets. */
  lemma {:induction false} EarlierBound(best: Option<nat>, pos: int, k: int)
    ensures (best.Some? && best.value <= k) || 0 <= pos <= k ==>
      Earlier(best, pos).Some? && Earlier(best, pos).value <= k
  {
  }

  // ---------------------------------------------------------------------
  // Brace matching

  /** The loop variables of the brace scan: the depth, whether the scan is
      inside a quoted string, and whether the next character is escaped. */
  datatype BraceState = BraceState(depth: int, inString: bool, escapeNext: bool)

  const Start: BraceState := BraceState(0, false, false)

  /** The effect of one character on the scan (event_stream_parser.py:244-260).
      A backslash escapes the next character, inside or outside a string. */
  function Step(st: BraceState, ch: char): BraceState
  {
    if st.escapeNext then st.(escapeNext := false)
    else if ch == '\\' then st.(escapeNext := true)
    else if ch == '"' then st.(inString := !st.inString)
    else if !st.inString && ch == '{' then st.(depth := st.depth + 1)
    else if !st.inString && ch == '}' then st.(depth := st.depth - 1)
    else st
  }

  /** The character is a closing brace that brings the depth back to zero. */
  predicate Closes(st: BraceState, ch: char)
  {
    !st.escapeNext && !st.inString && ch == '}' && st.depth == 1
  }

  /** The scan state after the characters of `s`. */
  function Run(st: BraceState, s: string): BraceState
  {
    if s == [] then st else Step(Run(st, s[..|s| - 1]), s[|s| - 1])
  }

  /** The scan state on reaching index `k` when the scan started at `start`. */
  function StateAt(text: string, start: nat, k: nat): BraceState
    requires start <= k <= |text|
  {
    Run(Start, text[start..k])
  }

  /** Index `k` holds the brace that closes the object opened at `start`. */
  predicate ClosesAt(text: string, start: nat, k: nat)
    requires start <= k
  {
    k < |text| && Closes(StateAt(text, start, k), text[k])
  }

  /** The first closing index at or after `i`, scanning on from state `st`. */
  function MatchFrom(text: string, i: nat, st: BraceState): (r: Option<nat>)
    requires i <= |text|
    ensures r.Some? ==> i <= r.value < |text|
    decreases |text| - i
  {
    if i == |text| then None
    else if Closes(st, text[i]) then Some(i)
    else MatchFrom(text, i + 1, Step(st, text[i]))
  }

  lemma {:induction false} StateAtStep(text: string, start: nat, k: nat)
    requires start <= k < |text|
    ensures StateAt(text, start, k + 1) == Step(StateAt(text, start, k), text[k])
  {
    assert text[start..k + 1][..k - start] == text[start..k];
  }

  lemma {:induction false} MatchFromFirstClose(text: string, start: nat, i: nat)
    requires start <= i <= |text|
    requires forall k :: start <= k < i ==> !ClosesAt(text, start, k)
    ensures var r := MatchFrom(text, i, StateAt(text, start, i));
      && (r.Some? ==> ClosesAt(text, start, r.value))
      && (r.Some? ==> forall k :: start <= k < r.value ==> !ClosesAt(text, start, k))
      && (r.None? ==> forall k :: start <= k < |text| ==> !ClosesAt(text, start, k))
    decreases |text| - i
  {
    if i < |text| && !ClosesAt(text, start, i) {
      StateAtStep(text, start, i);
      MatchFromFirstClose(text, start, i + 1);
    }
  }

  /** The position of the brace that closes the object opened at `start`:
      the first index at which the depth, counted outside strings, returns
      to zero; None when the text ends first. */
  function MatchingBrace(text: string, start: nat): (r: Option<nat>)
    requires start <= |text|
    ensures r.Some? ==> start <= r.value < |text|
  {
    MatchFrom(text, start, Start)
  }

  /** The index found closes the object and is the first that does; none
      is found only when no index closes it. */
  lemma {:induction false} MatchingBraceFirst(text: string, start: nat)
    requires start <= |text|
    ensures var r := MatchingBrace(text, start);
      && (r.Some? ==> ClosesAt(text, start, r.value))
      && (r.Some? ==> forall k :: start <= k < r.value ==> !ClosesAt(text, start, k))
      && (r.None? ==> forall k :: start <= k < |text| ==> !ClosesAt(text, start, k))
  {
    MatchFromFirstClose(text, start, start);
    assert text[start..start] == [];
  }

  /** The brace-counting loop of event_stream_parser.py:236-263; -1 stands
      for "no matching brace", as `json_end` does in the source. */
  method FindMatchingBrace(text: string, jsonStart: nat) returns (jsonEnd: int)
    requires jsonStart <= |text|
    ensures MatchingBrace(text, jsonStart).None? ==> jsonEnd == -1
    ensures MatchingBrace(text, jsonStart).Some? ==> jsonEnd == MatchingBrace(text, jsonStart).value
  {
    var braceCount := 0;
    var inString := false;
    var escapeNext := false;
    jsonEnd := -1;
    for i := jsonStart to |text|
      invariant MatchFrom(text, jsonStart, Start) ==
        MatchFrom(text, i, BraceState(braceCount, inString, escapeNext))
      invariant jsonEnd == -1
    {
      var ch := text[i];
      if escapeNext {
        escapeNext := false;
        continue;
      }
      if ch == '\\' {
        escapeNext := true;
        continue;
      }
      if ch == '"' {
        inString := !inString;
        continue;
      }
      if !inString {
        if ch == '{' {
          braceCount := braceCount + 1;
        } else if ch == '}' {
          braceCount := braceCount - 1;
          if braceCount == 0 {
            jsonEnd := i;
            break;
          }
        }
      }
    }
  }

  // ---------------------------------------------------------------------
  // Classification

  /** Python's `key in payload` for a parsed JSON value: a key of an
      object, an element of a list, a substring of a string; None for the
      TypeError raised on null, booleans and numbers. */
  function Contains(payload: Json, key: string): (r: Option<bool>)
    ensures r.None? <==> (payload.JNull? || payload.JBool? || payload.JNumber?)
    ensures payload.JObject? ==> r == Some(key in payload.fields)
  {
    match payload
    case JObject(fields) => Some(key in fields)
    case JArray(items) => Some(JString(key) in items)
    case JString(s) => Some(exists i :: 0 <= i <= |s| && OccursAt(s, key, i))
    case _ => None
  }

  datatype Verdict = NoEvent | Emit(event: Message) | Raises

  const ASSISTANT_RESPONSE: string := "assistantResponseEvent"
  const TOOL_USE: string := "toolUseEvent"
  const EVENT_TYPE: string := ":event-type"

  /** The synthetic message the fallback emits for a parsed object. */
  function EventOf(eventType: string, payload: Json): Message
  {
    Message(map[EVENT_TYPE := Text(eventType)], JsonValue(payload), None)
  }

  /** The classification chain of event_stream_parser.py:274-293. `Raises`
      stands for the TypeError of `in` on a scalar, which the outer `except`
      turns into the end of the scan. */
  function Classify(payload: Json): (v: Verdict)
    ensures v.Emit? ==> v.event.payload == JsonValue(payload) && v.event.totalLength == None
    ensures v.Emit? ==> v.event == EventOf(ASSISTANT_RESPONSE, payload) || v.event == EventOf(TOOL_USE, payload)
    ensures payload.JObject? ==> !v.Raises?
    ensures payload.JObject? && "content" in payload.fields ==> v == Emit(EventOf(ASSISTANT_RESPONSE, payload))
    ensures payload.JObject? && "content" !in payload.fields ==>
      (v == Emit(EventOf(TOOL_USE, payload)) <==>
        ("name" in payload.fields && "toolUseId" in payload.fields) ||
        "input" in payload.fields || "stop" in payload.fields)
    ensures payload.JObject? ==>
      (v == NoEvent <==>
        && "content" !in payload.fields
        && !("name" in payload.fields && "toolUseId" in payload.fields)
        && "input" !in payload.fields
        && "stop" !in payload.fields)
  {
    match Contains(payload, "content")
    case None => Raises
    case Some(true) => Emit(EventOf(ASSISTANT_RESPONSE, payload))
    case Some(false) =>
      var hasName := Contains(payload, "name").value;
      var hasToolUseId := Contains(payload, "toolUseId").value;
      if hasName && hasToolUseId then Emit(EventOf(TOOL_USE, payload))
      else if Contains(payload, "input").value then Emit(EventOf(TOOL_USE, payload))
      else if Contains(payload, "stop").value then Emit(EventOf(TOOL_USE, payload))
      else NoEvent
  }

  // ---------------------------------------------------------------------
  // The scan

  /** A message the scan synthesises: no total length, a single
      `:event-type` header naming one of the two event kinds, and a parsed
      JSON value as payload. */
  predicate Synthetic(m: Message)
  {
    && m.totalLength == None
    && m.payload.JsonValue?
    && (m.headers == map[EVENT_TYPE := Text(ASSISTANT_RESPONSE)] ||
        m.headers == map[EVENT_TYPE := Text(TOOL_USE)])
  }

  /** The outcome of one round of the scan loop: stop, or go on at `next`
      after emitting `emitted`. */
  datatype Round = Stop | Continue(emitted: seq<Message>, next: nat)

  /** One round of the scan from `from` (event_stream_parser.py:221-299):
      no candidate or no matching brace stops the scan, as does the
      TypeError of a scalar payload; otherwise the scan goes on just past
      the closing brace, whether or not the text parsed. */
  function ScanRound(text: string, json: string -> Option<Json>, from: nat): (r: Round)
    requires from <= |text|
    ensures r.Continue? ==> from < r.next <= |text| && |r.emitted| <= 1
    ensures r.Continue? ==> forall m :: m in r.emitted ==> Synthetic(m)
  {
    match EarliestCandidate(text, from)
    case None => Stop
    case Some(jsonStart) =>
      match MatchingBrace(text, jsonStart)
      case None => Stop
      case Some(jsonEnd) =>
        Parsed(json(text[jsonStart..jsonEnd + 1]), jsonEnd + 1)
  }

  /** What the parse result of a delimited object does to the scan: a
      JSONDecodeError skips it, a parsed value goes by its verdict. */
  function Parsed(parsed: Option<Json>, next: nat): Round
  {
    match parsed
    case None => Continue([], next)
    case Some(payload) => Outcome(Classify(payload), next)
  }

  /** What a verdict does to the scan: a TypeError stops it, otherwise it
      goes on at `next`, emitting the event if there is one. */
  function Outcome(v: Verdict, next: nat): Round
  {
    match v
    case Raises => Stop
    case NoEvent => Continue([], next)
    case Emit(event) => Continue([event], next)
  }

  /** The events the scan emits from position `from` on, in text order. */
  function ScanFrom(text: string, json: string -> Option<Json>, from: nat): (events: seq<Message>)
    requires from <= |text|
    decreases |text| - from
  {
    match ScanRound(text, json, from)
    case Stop => []
    case Continue(emitted, next) => emitted + ScanFrom(text, json, next)
  }

  /** One round of the scan loop, in terms of its parse result and verdict. */
  lemma {:induction false} ScanStep(text: string, json: string -> Option<Json>, from: nat, jsonStart: nat, jsonEnd: nat,
                 parsed: Option<Json>, verdict: Verdict)
    requires from <= |text|
    requires EarliestCandidate(text, from) == Some(jsonStart)
    requires jsonStart <= |text| && MatchingBrace(text, jsonStart) == Some(jsonEnd)
    requires parsed == json(text[jsonStart..jsonEnd + 1])
    requires parsed.Some? ==> verdict == Classify(parsed.value)
    ensures parsed.None? ==> ScanRound(text, json, from) == Continue([], jsonEnd + 1)
    ensures parsed.Some? && verdict.Raises? ==> ScanRound(text, json, from) == Stop
    ensures parsed.Some? && verdict.NoEvent? ==> ScanRound(text, json, from) == Continue([], jsonEnd + 1)
    ensures parsed.Some? && verdict.Emit? ==> ScanRound(text, json, from) == Continue([verdict.event], jsonEnd + 1)
  {
    ScanRoundParsed(text, json, from, jsonStart, jsonEnd);
  }

  /** A round with a candidate and its matching brace goes by the parse
      result of the delimited text. */
  lemma {:induction false} ScanRoundParsed(text: string, json: string -> Option<Json>, from: nat, jsonStart: nat, jsonEnd: nat)
    requires from <= |text|
    requires EarliestCandidate(text, from) == Some(jsonStart)
    requires jsonStart <= |text| && MatchingBrace(text, jsonStart) == Some(jsonEnd)
    ensures jsonEnd < |text|
    ensures ScanRound(text, json, from) == Parsed(json(text[jsonStart..jsonEnd + 1]), jsonEnd + 1)
  {
  }

  lemma {:induction false} Reassociate<T>(a: seq<T>, b: seq<T>, c: seq<T>, d: seq<T>)
    requires a + (b + c) == d
    ensures (a + b) + c == d
  {
    assert (a + b) + c == a + (b + c);
  }

  /** The events _parse_text_fallback returns for the decoded buffer text. */
  function FallbackEvents(text: string, json: string -> Option<Json>): seq<Message>
  {
    ScanFrom(text, json, 0)
  }

  /** The body of the scan loop (event_stream_parser.py:222-299): find the
      earliest candidate, match its brace, parse and classify the object. */
  method ScanOnce(text: string, json: string -> Option<Json>, searchStart: nat) returns (r: Round)
    requires searchStart <= |text|
    ensures r == ScanRound(text, json, searchStart)
  {
    var contentStart := Find(text, CONTENT_PREFIX, searchStart);
    var nameStart := Find(text, NAME_PREFIX, searchStart);
    var inputStart := Find(text, INPUT_PREFIX, searchStart);
    var stopStart := Find(text, STOP_PREFIX, searchStart);
    var candidates := Earlier(Earlier(Earlier(Earlier(None, contentStart), nameStart), inputStart), stopStart);
    assert candidates == EarliestCandidate(text, searchStart);
    if candidates.None? {
      return Stop;
    }
    var jsonStart := candidates.value;
    var jsonEnd := FindMatchingBrace(text, jsonStart);
    if jsonEnd < 0 {
      return Stop;
    }
    var parsed := json(text[jsonStart..jsonEnd + 1]);
    if parsed.None? {
      ScanStep(text, json, searchStart, jsonStart, jsonEnd, parsed, NoEvent);
      return Continue([], jsonEnd + 1);
    }
    var verdict := Classify(parsed.value);
    ScanStep(text, json, searchStart, jsonStart, jsonEnd, parsed, verdict);
    match verdict
    case Raises => r := Stop;
    case NoEvent => r := Continue([], jsonEnd + 1);
    case Emit(event) => r := Continue([event], jsonEnd + 1);
  }

  /** _parse_text_fallback (event_stream_parser.py:202-304) on the text the
      lossy UTF-8 decode of the buffer yields. */
  method ParseTextFallback(text: string, json: string -> Option<Json>) returns (events: seq<Message>)
    ensures events == FallbackEvents(text, json)
  {
    events := [];
    var searchStart := 0;
    while true
      invariant searchStart <= |text|
      invariant events + ScanFrom(text, json, searchStart) == FallbackEvents(text, json)
      decreases |text| - searchStart
    {
      var round := ScanOnce(text, json, searchStart);
      if round.Stop? {
        assert events + [] == events;
        return;
      }
      Reassociate(events, round.emitted, ScanFrom(text, json, round.next), FallbackEvents(text, json));
      events := events + round.emitted;
      searchStart := round.next;
    }
  }

  // ---------------------------------------------------------------------
  // Properties of the scan

  /** Every event the scan emits is a synthetic message. */
  lemma {:induction false} ScanEventsShape(text: string, json: string -> Option<Json>, from: nat)
    requires from <= |text|
    ensures forall m :: m in ScanFrom(text, json, from) ==> Synthetic(m)
    decreases |text| - from
  {
    match ScanRound(text, json, from)
    case Stop =>
    case Continue(emitted, next) =>
      ScanEventsShape(text, json, next);
  }

  /** Every prefix begins with an opening brace, so a candidate does too. */
  lemma {:induction false} CandidateIsBrace(text: string, k: nat)
    requires CandidateAt(text, k)
    ensures k < |text| && text[k] == '{'
  {
    if OccursAt(text, CONTENT_PREFIX, k) {
      assert text[k] == text[k..k + |CONTENT_PREFIX|][0];
    } else if OccursAt(text, NAME_PREFIX, k) {
      assert text[k] == text[k..k + |NAME_PREFIX|][0];
    } else if OccursAt(text, INPUT_PREFIX, k) {
      assert text[k] == text[k..k + |INPUT_PREFIX|][0];
    } else {
      assert text[k] == text[k..k + |STOP_PREFIX|][0];
    }
  }

  /** Characters other than a quote and a backslash inside a string leave
      the scan state alone: braces there are not counted. */
  lemma {:induction false} StringBodySkipped(text: string, i: nat, n: nat, st: BraceState)
    requires i + n <= |text|
    requires st.inString && !st.escapeNext
    requires forall k :: i <= k < i + n ==> text[k] != '"' && text[k] != '\\'
    ensures MatchFrom(text, i, st) == MatchFrom(text, i + n, st)
    decreases n
  {
    if n > 0 {
      assert Step(st, text[i]) == st;
      StringBodySkipped(text, i + 1, n - 1, st);
    }
  }

  /** A backslash inside a string escapes the next character, a quote
      included, without ending the string. */
  lemma {:induction false} EscapedCharSkipped(text: string, i: nat, st: BraceState)
    requires i + 2 <= |text| && text[i] == '\\'
    requires !st.escapeNext
    ensures MatchFrom(text, i, st) == MatchFrom(text, i + 2, st)
  {
    assert Step(Step(st, text[i]), text[i + 1]) == st;
  }

  /** The object `{"content":"s"}`, for a string body without quotes or
      backslashes. */
  function ContentObject(s: string): string
  {
    CONTENT_PREFIX + "\"" + s + "\"}"
  }

  /** `{"content":"s"}` starts with an opening brace and ends with a closing one. */
  lemma {:induction false} ContentObjectEnds(s: string)
    ensures var x := ContentObject(s);
      |x| == 14 + |s| && x[0] == '{' && x[|x| - 1] == '}'
  {
  }

  /** `t` holds no opening brace. */
  predicate NoOpenBrace(t: string)
  {
    forall k :: 0 <= k < |t| ==> t[k] != '{'
  }

  /** `s` holds neither a double quote nor a backslash, so it stands for
      itself inside a JSON string literal. */
  predicate PlainString(s: string)
  {
    forall k :: 0 <= k < |s| ==> s[k] != '"' && s[k] != '\\'
  }

  /** `{"content":"s"}` is closed by its last brace, whatever braces `s`
      holds. */
  lemma {:induction false} ContentObjectCloses(text: string, p: nat, s: string)
    requires PlainString(s)
    requires p + |ContentObject(s)| <= |text| && text[p..p + |ContentObject(s)|] == ContentObject(s)
    ensures MatchingBrace(text, p) == Some(p + |ContentObject(s)| - 1)
  {
    var x := ContentObject(s);
    assert |x| == 14 + |s|;
    forall k | 0 <= k < |x| ensures text[p + k] == x[k] {
      assert text[p..p + |x|][k] == x[k];
    }
    assert x[0] == '{' && x[1] == '"' && x[9] == '"' && x[10] == ':' && x[11] == '"';
    assert x[12 + |s|] == '"' && x[13 + |s|] == '}';
    var inKey := BraceState(1, true, false);
    var out := BraceState(1, false, false);
    assert MatchFrom(text, p, Start) == MatchFrom(text, p + 2, inKey);
    forall k | p + 2 <= k < p + 9 ensures text[k] != '"' && text[k] != '\\' {
      assert x[k - p] == CONTENT_PREFIX[k - p];
    }
    StringBodySkipped(text, p + 2, 7, inKey);
    assert MatchFrom(text, p + 9, inKey) == MatchFrom(text, p + 10, out);
    assert MatchFrom(text, p + 10, out) == MatchFrom(text, p + 11, out);
    assert MatchFrom(text, p + 11, out) == MatchFrom(text, p + 12, inKey);
    forall k | p + 12 <= k < p + 12 + |s| ensures text[k] != '"' && text[k] != '\\' {
      assert text[k] == x[k - p] == s[k - p - 12];
    }
    StringBodySkipped(text, p + 12, |s|, inKey);
    assert MatchFrom(text, p + 12 + |s|, inKey) == MatchFrom(text, p + 13 + |s|, out);
  }

  /** Where there is no opening brace no prefix can start. */
  lemma {:induction false} NoBraceNoCandidate(text: string, a: nat, b: nat)
    requires a <= b <= |text|
    requires forall k :: a <= k < b ==> text[k] != '{'
    ensures forall k :: a <= k < b ==> !CandidateAt(text, k)
    ensures b == |text| ==> forall k :: a <= k ==> !CandidateAt(text, k)
  {
    forall k | a <= k && CandidateAt(text, k) ensures b < |text| && b <= k {
      CandidateIsBrace(text, k);
    }
  }

  /** A candidate preceded by no opening brace is the earliest one. */
  lemma {:induction false} FirstCandidate(text: string, p: nat)
    requires CandidateAt(text, p)
    requires forall k :: 0 <= k < p ==> text[k] != '{'
    ensures EarliestCandidate(text, 0) == Some(p)
  {
    CandidateIsBrace(text, p);
    NoBraceNoCandidate(text, 0, p);
    EarliestFirst(text, 0);
  }

  /** Text without an opening brace yields no events. */
  lemma {:induction false} NoMoreCandidates(text: string, json: string -> Option<Json>, from: nat)
    requires from <= |text|
    requires forall k :: from <= k < |text| ==> text[k] != '{'
    ensures ScanFrom(text, json, from) == []
  {
    NoBraceNoCandidate(text, from, |text|);
  }

  /** In `pre + x + post` the object `x` is the first candidate, its brace
      closes at its last character, and no candidate follows it. */
  predicate LoneFacts(pre: string, x: string, post: string)
  {
    var text := pre + x + post;
    && x != []
    && EarliestCandidate(text, 0) == Some(|pre|)
    && MatchingBrace(text, |pre|) == Some(|pre| + |x| - 1)
    && EarliestCandidate(text, |pre| + |x|) == None
  }

  /** An object `x` that is the only candidate of `pre + x + post` and
      parses to a payload with a `content` key gives exactly one event. */
  lemma {:induction false} LastRound(pre: string, x: string, post: string, json: string -> Option<Json>, payload: Json)
    requires LoneFacts(pre, x, post)
    requires json(x) == Some(payload)
    requires payload.JObject? && "content" in payload.fields
    ensures FallbackEvents(pre + x + post, json) == [EventOf(ASSISTANT_RESPONSE, payload)]
  {
    var text := pre + x + post;
    var n := |pre| + |x|;
    assert text[|pre|..n] == x;
    var event := EventOf(ASSISTANT_RESPONSE, payload);
    assert Classify(payload) == Emit(event);
    ScanStep(text, json, 0, |pre|, n - 1, Some(payload), Emit(event));
    assert ScanRound(text, json, 0) == Continue([event], n);
    assert ScanFrom(text, json, 0) == [event] + ScanFrom(text, json, n);
    Exhausted(text, json, n);
    assert [event] + [] == [event];
  }

  /** Once no candidate is left the scan stops. */
  lemma {:induction false} Exhausted(text: string, json: string -> Option<Json>, from: nat)
    requires from <= |text| && EarliestCandidate(text, from) == None
    ensures ScanFrom(text, json, from) == []
  {
  }

  lemma {:induction false} ContentPrefixAt(text: string, p: nat, s: string)
    requires p + |ContentObject(s)| <= |text| && text[p..p + |ContentObject(s)|] == ContentObject(s)
    ensures OccursAt(text, CONTENT_PREFIX, p)
  {
    var x := ContentObject(s);
    assert text[p..p + |CONTENT_PREFIX|] == x[..|CONTENT_PREFIX|] == CONTENT_PREFIX;
  }

  /** A content object preceded by no opening brace is the earliest candidate. */
  lemma {:induction false} HeadCandidate(pre: string, s: string, post: string)
    requires NoOpenBrace(pre)
    ensures EarliestCandidate(pre + ContentObject(s) + post, 0) == Some(|pre|)
  {
    var x := ContentObject(s);
    var text := pre + x + post;
    var p := |pre|;
    assert text[p..p + |x|] == x;
    forall k | 0 <= k < p ensures text[k] != '{' {
      assert text[k] == pre[k];
    }
    ContentPrefixAt(text, p, s);
    FirstCandidate(text, p);
  }

  /** No candidate follows a content object that no opening brace follows. */
  lemma {:induction false} TailCandidates(pre: string, s: string, post: string)
    requires NoOpenBrace(post)
    ensures EarliestCandidate(pre + ContentObject(s) + post, |pre| + |ContentObject(s)|) == None
  {
    var x := ContentObject(s);
    var text := pre + x + post;
    var p := |pre|;
    forall k | p + |x| <= k < |text| ensures text[k] != '{' {
      assert text[k] == post[k - p - |x|];
    }
    NoBraceNoCandidate(text, p + |x|, |text|);
  }

  /** The brace matcher stops at the content object's closing brace. */
  lemma {:induction false} ObjectCloses(pre: string, s: string, post: string)
    requires PlainString(s)
    ensures var text := pre + ContentObject(s) + post;
      && 0 < |ContentObject(s)| && |pre| + |ContentObject(s)| <= |text|
      && MatchingBrace(text, |pre|) == Some(|pre| + |ContentObject(s)| - 1)
      && text[|pre|..|pre| + |ContentObject(s)|] == ContentObject(s)
  {
    var x := ContentObject(s);
    var text := pre + x + post;
    assert text[|pre|..|pre| + |x|] == x;
    ContentObjectEnds(s);
    ContentObjectCloses(text, |pre|, s);
  }

  /** A content object amid text with no other opening brace is the only
      candidate. */
  lemma {:induction false} LoneObject(pre: string, s: string, post: string)
    requires NoOpenBrace(pre)
    requires NoOpenBrace(post)
    requires PlainString(s)
    ensures LoneFacts(pre, ContentObject(s), post)
  {
    ObjectCloses(pre, s, post);
    HeadCandidate(pre, s, post);
    TailCandidates(pre, s, post);
  }

  /** One `{"content":"s"}` object amid text with no opening brace is
      recovered as exactly one assistant-response event carrying the parsed
      object. */
  lemma {:induction false} ContentObjectRecovered(pre: string, s: string, post: string, json: string -> Option<Json>, payload: Json)
    requires NoOpenBrace(pre)
    requires NoOpenBrace(post)
    requires PlainString(s)
    requires json(ContentObject(s)) == Some(payload)
    requires payload.JObject? && "content" in payload.fields
    ensures FallbackEvents(pre + ContentObject(s) + post, json) == [EventOf(ASSISTANT_RESPONSE, payload)]
  {
    LoneObject(pre, s, post);
    LastRound(pre, ContentObject(s), post, json, payload);
  }

  /** Braces inside the quoted content are not counted: `{"content":"a{b}c"}`
      is recovered as one object. */
  lemma {:induction false} BracesInsideStringKept(json: string -> Option<Json>, payload: Json)
    requires json(ContentObject("a{b}c")) == Some(payload)
    requires payload.JObject? && "content" in payload.fields
    ensures FallbackEvents(ContentObject("a{b}c"), json) == [EventOf(ASSISTANT_RESPONSE, payload)]
  {
    var x := ContentObject("a{b}c");
    assert "" + x + "" == x;
    ContentObjectRecovered("", "a{b}c", "", json, payload);
  }
}
