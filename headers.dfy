/** The header block of one event-stream frame: a run of entries, each
    a 1-byte name length, the name, a 1-byte value type, a big-endian
    16-bit value length and the value. */
module HeaderBlock {
  import opened Wire

  /** A decoded header value: text for type 7, the raw bytes otherwise. */
  datatype HeaderValue = Text(s: string) | Raw(bytes: Bytes)

  type Headers = map<string, HeaderValue>

  /** The value type tag for UTF-8 text. */
  const STRING_TYPE: Byte := 7

  /** One entry as it sits on the wire, before any text decoding. */
  datatype Entry = Entry(name: Bytes, tag: Byte, value: Bytes)

  /** The lengths of an entry fit their 1-byte and 2-byte length fields. */
  predicate WellFormed(e: Entry)
  {
    |e.name| < 0x100 && |e.value| < TWO_16
  }

  predicate AllWellFormed(es: seq<Entry>)
  {
    forall i :: 0 <= i < |es| ==> WellFormed(es[i])
  }

  function EncodeEntry(e: Entry): (b: Bytes)
    requires WellFormed(e)
    ensures |b| == 4 + |e.name| + |e.value|
  {
    [|e.name|] + e.name + [e.tag] + U16(|e.value|) + e.value
  }

  function EncodeEntries(es: seq<Entry>): Bytes
    requires AllWellFormed(es)
  {
    if es == [] then [] else EncodeEntry(es[0]) + EncodeEntries(es[1..])
  }

  /** The outcome of reading one entry at the front of a non-empty byte string. */
  datatype EntryRead =
    | Complete(entry: Entry, size: nat)
      // the whole entry is present and occupies the first `size` bytes
    | Truncated(name: Option<Bytes>)
      // the bytes end inside the entry; `name` holds the name if all of it was present

  /** One iteration of the header loop (event_stream_parser.py:43-78), apart
      from text decoding: every field is read only after checking that it fits. */
  function ReadEntry(b: Bytes): (r: EntryRead)
    requires |b| > 0
    ensures r.Complete? ==> WellFormed(r.entry) && r.size == 4 + |r.entry.name| + |r.entry.value| <= |b|
  {
    var n := b[0] as nat;
    if 1 + n > |b| then Truncated(None)
    else
      var name := b[1..1 + n];
      if 1 + n >= |b| then Truncated(Some(name))
      else
        var tag := b[1 + n];
        if 1 + n + 1 + 2 > |b| then Truncated(Some(name))
        else
          var len := BE16(b[2 + n..4 + n]);
          if 4 + n + len > |b| then Truncated(Some(name))
          else
            Complete(Entry(name, tag, b[4 + n..4 + n + len]), 4 + n + len)
  }

  /** An entry read in full is exactly the encoding of that entry. */
  lemma {:induction false} ReadEntryEncodes(b: Bytes)
    requires |b| > 0 && ReadEntry(b).Complete?
    ensures var r := ReadEntry(b); b[..r.size] == EncodeEntry(r.entry)
  {
    var n := b[0] as nat;
    var e := ReadEntry(b).entry;
    var m := 4 + n + |e.value|;
    U16OfBE16(b[2 + n..4 + n]);
    assert e.name == b[1..1 + n] && e.value == b[4 + n..m] && [e.tag] == b[1 + n..2 + n];
    assert b[..m] == b[..1] + b[1..1 + n] + b[1 + n..2 + n] + b[2 + n..4 + n] + b[4 + n..m];
  }

  /** The entries of a header block, read front to back until the bytes run out
      or an entry is truncated. */
  datatype Walk = Walk(entries: seq<Entry>, danglingName: Option<Bytes>)

  function PrependEntries(es: seq<Entry>, w: Walk): Walk
  {
    Walk(es + w.entries, w.danglingName)
  }

  /** The byte-level walk of parse_headers: the entries it reads in full, in
      order, re-encode to a prefix of the block; what follows that prefix is
      empty or a truncated entry, and the walk keeps the truncated entry's name
      when the name itself was complete. */
  function WalkHeaders(b: Bytes): (w: Walk)
    decreases |b|
    ensures AllWellFormed(w.entries)
  {
    if |b| == 0 then Walk([], None)
    else
      match ReadEntry(b)
      case Truncated(name) => Walk([], name)
      case Complete(e, k) =>
        var w := WalkHeaders(b[k..]);
        assert forall i :: 1 <= i < |[e] + w.entries| ==> ([e] + w.entries)[i] == w.entries[i - 1];
        Walk([e] + w.entries, w.danglingName)
  }

  /** The entries of `w` re-encode to a prefix of `b`; what follows that prefix
      is empty or a truncated entry, whose name `w` keeps when it was complete. */
  ghost predicate ReadsPrefix(b: Bytes, w: Walk)
    requires AllWellFormed(w.entries)
  {
    var enc := EncodeEntries(w.entries);
    && |enc| <= |b| && b[..|enc|] == enc
    && var rest := b[|enc|..];
       if rest == [] then w.danglingName == None
       else ReadEntry(rest).Truncated? && w.danglingName == ReadEntry(rest).name
  }

  /** parse_headers stops at the first entry it cannot read in full and
      returns exactly the entries read before it. */
  lemma {:induction false} WalkHeadersReadsPrefix(b: Bytes)
    decreases |b|
    ensures ReadsPrefix(b, WalkHeaders(b))
  {
    if |b| > 0 {
      match ReadEntry(b)
      case Truncated(name) =>
      case Complete(e, k) =>
        WalkHeadersReadsPrefix(b[k..]);
        WalkStep(b, e, k, WalkHeaders(b[k..]));
    }
  }

  lemma {:induction false} WalkStep(b: Bytes, e: Entry, k: nat, w: Walk)
    requires 0 < k <= |b| && ReadEntry(b) == Complete(e, k)
    requires AllWellFormed(w.entries) && ReadsPrefix(b[k..], w)
    ensures AllWellFormed([e] + w.entries)
    ensures ReadsPrefix(b, Walk([e] + w.entries, w.danglingName))
  {
    ReadEntryEncodes(b);
    var es := [e] + w.entries;
    assert es[0] == e && es[1..] == w.entries;
    var enc := EncodeEntries(w.entries);
    var all := EncodeEntries(es);
    assert all == b[..k] + enc;
    assert |all| == k + |enc|;
    assert b == b[..k] + b[k..];
    assert b[..|all|] == b[..k] + b[k..][..|enc|];
    assert b[|all|..] == b[k..][|enc|..];
  }

  /** Decodes the name and value of an entry: the name is always UTF-8 text,
      the value is text for type 7 and raw bytes for every other type. None
      where `decode('utf-8')` would raise. */
  function DecodeEntry(e: Entry, utf8: Bytes -> Option<string>): Option<(string, HeaderValue)>
  {
    match utf8(e.name)
    case None => None
    case Some(name) =>
      if e.tag == STRING_TYPE then
        match utf8(e.value)
        case None => None
        case Some(s) => Some((name, Text(s)))
      else Some((name, Raw(e.value)))
  }

  /** Stores the decoded entries into a dictionary in order, so that a later
      entry with the same name replaces an earlier one. */
  function Collect(es: seq<Entry>, utf8: Bytes -> Option<string>): Option<Headers>
  {
    if es == [] then Some(map[])
    else
      match Collect(es[..|es| - 1], utf8)
      case None => None
      case Some(h) =>
        match DecodeEntry(es[|es| - 1], utf8)
        case None => None
        case Some(kv) => Some(h[kv.0 := kv.1])
  }

  /** The result of parse_headers on a header block, or None where it raises
      UnicodeDecodeError. A truncated entry whose name was complete still has
      its name decoded (event_stream_parser.py:53), so an undecodable name
      there fails as well. */
  function DecodeHeaderBlock(b: Bytes, utf8: Bytes -> Option<string>): Option<Headers>
  {
    var w := WalkHeaders(b);
    match Collect(w.entries, utf8)
    case None => None
    case Some(h) =>
      if w.danglingName.Some? && utf8(w.danglingName.value).None? then None else Some(h)
  }

  /** What one pass of the parse_headers loop makes of the entry at the
      offset: the block ends there (a truncated entry), decoding raises, or
      the decoded name and value and the entry's size in bytes. */
  datatype HeaderRead = Cut | Failed | Read(name: string, value: HeaderValue, size: nat)

  function EntryOutcome(r: EntryRead, utf8: Bytes -> Option<string>): HeaderRead
  {
    match r
    case Truncated(name) => if name.Some? && utf8(name.value).None? then Failed else Cut
    case Complete(e, k) =>
      match DecodeEntry(e, utf8)
      case None => Failed
      case Some(kv) => Read(kv.0, kv.1, k)
  }

  /** parse_headers (event_stream_parser.py:29-80), the offset loop over the
      block. Each `break` of the source is a `return` of the dictionary built
      so far here, which is what the source does right after its loop. */
  method ParseHeaders(data: Bytes, utf8: Bytes -> Option<string>) returns (r: Option<Headers>)
    ensures r == DecodeHeaderBlock(data, utf8)
  {
    var headers: Headers := map[];
    var offset := 0;
    ghost var done: seq<Entry> := [];
    while offset < |data|
      invariant offset <= |data|
      invariant WalkHeaders(data) == PrependEntries(done, WalkHeaders(data[offset..]))
      invariant Collect(done, utf8) == Some(headers)
      decreases |data| - offset
    {
      var h := ReadHeader(data, offset, utf8);
      match h
      case Cut =>
        TruncatedEndsBlock(data, offset, done, utf8);
        return Some(headers);
      case Failed =>
        FailedEntryFailsBlock(data, offset, done, utf8);
        return None;
      case Read(name, value, size) =>
        ghost var e := ReadEntry(data[offset..]).entry;
        var next := offset + size;
        EntryStep(data, offset, e, size, next, done, utf8, headers, (name, value));
        headers := headers[name := value];
        done := done + [e];
        offset := next;
    }
    assert WalkHeaders(data[offset..]) == Walk([], None);
    assert done + [] == done;
    r := Some(headers);
  }

  /** The body of the parse_headers loop (event_stream_parser.py:38-77): the
      name length byte, the name, the value type byte, the 16-bit value
      length and the value, stopping at the first field that runs past the
      block; the name is decoded as soon as it is read. */
  method ReadHeader(data: Bytes, offset: nat, utf8: Bytes -> Option<string>) returns (h: HeaderRead)
    requires offset < |data|
    ensures h == EntryOutcome(ReadEntry(data[offset..]), utf8)
    ensures h.Read? ==> 0 < h.size <= |data| - offset
  {
    var start := offset;
    var nameLength := data[start] as nat;
    var at := start + 1;
    if at + nameLength > |data| {
      NameCutAt(data, start);
      return Cut;
    }
    var name := utf8(data[at..at + nameLength]);
    if name.None? {
      NameFailsAt(data, start, utf8);
      return Failed;
    }
    at := at + nameLength;
    if at >= |data| {
      ValueCutAt(data, start);
      return Cut;
    }
    var valueType := data[at];
    at := at + 1;
    if at + 2 > |data| {
      ValueCutAt(data, start);
      return Cut;
    }
    var valueLength := BE16(data[at..at + 2]);
    at := at + 2;
    if at + valueLength > |data| {
      ValueCutAt(data, start);
      return Cut;
    }
    EntryAt(data, start);
    var raw := data[at..at + valueLength];
    var value: HeaderValue;
    if valueType == STRING_TYPE {
      var text := utf8(raw);
      if text.None? {
        return Failed;
      }
      value := Text(text.value);
    } else {
      value := Raw(raw);
    }
    h := Read(name.value, value, at + valueLength - start);
  }

  // ReadEntry at an offset, stated on the whole block the loop indexes.

  lemma {:induction false} NameCutAt(data: Bytes, start: nat)
    requires start < |data| && start + 1 + data[start] as nat > |data|
    ensures ReadEntry(data[start..]) == Truncated(None)
  {
  }

  lemma {:induction false} ValueCutAt(data: Bytes, start: nat)
    requires start < |data|
    requires var n := data[start] as nat;
      && start + 1 + n <= |data|
      && (start + 4 + n > |data| || start + 4 + n + BE16(data[start + 2 + n..start + 4 + n]) > |data|)
    ensures var n := data[start] as nat;
      ReadEntry(data[start..]) == Truncated(Some(data[start + 1..start + 1 + n]))
  {
    var b := data[start..];
    var n := data[start] as nat;
    assert b[1..1 + n] == data[start + 1..start + 1 + n];
    if start + 4 + n <= |data| {
      assert b[2 + n..4 + n] == data[start + 2 + n..start + 4 + n];
    }
  }

  lemma {:induction false} EntryAt(data: Bytes, start: nat)
    requires start < |data|
    requires var n := data[start] as nat;
      start + 4 + n <= |data| && start + 4 + n + BE16(data[start + 2 + n..start + 4 + n]) <= |data|
    ensures var n := data[start] as nat;
      var len := BE16(data[start + 2 + n..start + 4 + n]);
      ReadEntry(data[start..]) ==
        Complete(Entry(data[start + 1..start + 1 + n], data[start + 1 + n], data[start + 4 + n..start + 4 + n + len]),
                 4 + n + len)
  {
    var b := data[start..];
    var n := data[start] as nat;
    assert b[1..1 + n] == data[start + 1..start + 1 + n];
    assert b[2 + n..4 + n] == data[start + 2 + n..start + 4 + n];
    var len := BE16(data[start + 2 + n..start + 4 + n]);
    assert b[4 + n..4 + n + len] == data[start + 4 + n..start + 4 + n + len];
  }

  /** A name that is not UTF-8 fails the entry, complete or not. */
  lemma {:induction false} NameFailsAt(data: Bytes, start: nat, utf8: Bytes -> Option<string>)
    requires start < |data|
    requires var n := data[start] as nat;
      start + 1 + n <= |data| && utf8(data[start + 1..start + 1 + n]).None?
    ensures EntryOutcome(ReadEntry(data[start..]), utf8) == Failed
  {
    var n := data[start] as nat;
    if start + 4 + n > |data| || start + 4 + n + BE16(data[start + 2 + n..start + 4 + n]) > |data| {
      ValueCutAt(data, start);
    } else {
      EntryAt(data, start);
    }
  }

  lemma {:induction false} TruncatedEndsBlock(data: Bytes, start: nat, done: seq<Entry>, utf8: Bytes -> Option<string>)
    requires start < |data| && EntryOutcome(ReadEntry(data[start..]), utf8) == Cut
    requires WalkHeaders(data) == PrependEntries(done, WalkHeaders(data[start..]))
    requires Collect(done, utf8).Some?
    ensures DecodeHeaderBlock(data, utf8) == Collect(done, utf8)
  {
    assert WalkHeaders(data).entries == done;
  }

  /** One complete entry extends both the walk and the dictionary. */
  lemma {:induction false} EntryStep(data: Bytes, start: nat, e: Entry, k: nat, next: nat, done: seq<Entry>,
                  utf8: Bytes -> Option<string>, headers: Headers, kv: (string, HeaderValue))
    requires start < |data| && ReadEntry(data[start..]) == Complete(e, k) && next == start + k
    requires WalkHeaders(data) == PrependEntries(done, WalkHeaders(data[start..]))
    requires Collect(done, utf8) == Some(headers)
    requires DecodeEntry(e, utf8) == Some(kv)
    ensures next <= |data|
    ensures WalkHeaders(data) == PrependEntries(done + [e], WalkHeaders(data[next..]))
    ensures Collect(done + [e], utf8) == Some(headers[kv.0 := kv.1])
  {
    WalkAt(data, start, next);
    PrependAssoc(done, e, WalkHeaders(data[next..]));
    CollectSnoc(done, e, utf8);
  }

  lemma {:induction false} PrependAssoc(done: seq<Entry>, e: Entry, w: Walk)
    ensures PrependEntries(done, PrependEntries([e], w)) == PrependEntries(done + [e], w)
  {
    assert done + ([e] + w.entries) == (done + [e]) + w.entries;
  }

  lemma {:induction false} CollectSnoc(done: seq<Entry>, e: Entry, utf8: Bytes -> Option<string>)
    ensures Collect(done + [e], utf8) ==
      match Collect(done, utf8)
      case None => None
      case Some(h) =>
        match DecodeEntry(e, utf8)
        case None => None
        case Some(kv) => Some(h[kv.0 := kv.1])
  {
    var es := done + [e];
    assert es[..|es| - 1] == done && es[|es| - 1] == e;
  }

  lemma {:induction false} ConsConcat<T>(es: seq<T>, x: seq<T>)
    requires es != []
    ensures [es[0]] + (es[1..] + x) == es + x
  {
    assert es == [es[0]] + es[1..];
  }

  lemma {:induction false} WalkFront(b: Bytes, e: Entry, k: nat)
    requires |b| > 0 && ReadEntry(b) == Complete(e, k)
    ensures WalkHeaders(b) == PrependEntries([e], WalkHeaders(b[k..]))
  {
  }

  lemma {:induction false} WalkAt(data: Bytes, start: nat, next: nat)
    requires start < |data| && ReadEntry(data[start..]).Complete?
    requires next == start + ReadEntry(data[start..]).size
    ensures next <= |data|
    ensures WalkHeaders(data[start..]) == PrependEntries([ReadEntry(data[start..]).entry], WalkHeaders(data[next..]))
  {
    var r := ReadEntry(data[start..]);
    assert data[start..][r.size..] == data[next..];
  }

  lemma {:induction false} FailedEntryFailsBlock(data: Bytes, start: nat, done: seq<Entry>, utf8: Bytes -> Option<string>)
    requires start < |data|
    requires WalkHeaders(data) == PrependEntries(done, WalkHeaders(data[start..]))
    requires Collect(done, utf8).Some?
    requires EntryOutcome(ReadEntry(data[start..]), utf8) == Failed
    ensures DecodeHeaderBlock(data, utf8) == None
  {
    var rest := data[start..];
    match ReadEntry(rest)
    case Truncated(name) =>
      assert WalkHeaders(data).entries == done;
    case Complete(e, k) =>
      var es := WalkHeaders(data).entries;
      assert es == done + [e] + WalkHeaders(rest[k..]).entries;
      assert es[|done|] == e;
      CollectNone(es, utf8);
  }

  /** The dictionary cannot be built exactly when some entry fails to decode. */
  lemma {:induction false} CollectNone(es: seq<Entry>, utf8: Bytes -> Option<string>)
    ensures Collect(es, utf8).None? <==> exists i :: 0 <= i < |es| && DecodeEntry(es[i], utf8).None?
  {
    if es != [] {
      var init := es[..|es| - 1];
      CollectNone(init, utf8);
      if Collect(init, utf8).None? {
        var i :| 0 <= i < |init| && DecodeEntry(init[i], utf8).None?;
        assert es[i] == init[i];
      }
      if exists i :: 0 <= i < |es| && DecodeEntry(es[i], utf8).None? {
        var i :| 0 <= i < |es| && DecodeEntry(es[i], utf8).None?;
        if i < |es| - 1 {
          assert init[i] == es[i];
        }
      }
    }
  }

  /** A header block fails only on text that does not decode: some complete
      entry fails, or the name of a truncated last entry does. Truncation by
      itself is never an error. */
  lemma {:induction false} HeaderBlockFailure(b: Bytes, utf8: Bytes -> Option<string>)
    ensures var w := WalkHeaders(b);
      DecodeHeaderBlock(b, utf8).None? <==>
        || (exists i :: 0 <= i < |w.entries| && DecodeEntry(w.entries[i], utf8).None?)
        || (w.danglingName.Some? && utf8(w.danglingName.value).None?)
  {
    CollectNone(WalkHeaders(b).entries, utf8);
  }

  /** Where each field of an encoded entry sits. */
  lemma {:induction false} EncodeEntryFields(e: Entry)
    requires WellFormed(e)
    ensures var b := EncodeEntry(e); var n := |e.name|;
      && b[0] == n && b[1..1 + n] == e.name && b[1 + n] == e.tag
      && b[2 + n..4 + n] == U16(|e.value|) && b[4 + n..] == e.value
  {
  }

  /** Reading an encoded entry gives the entry back, whatever follows it. */
  lemma {:induction false} ReadEncodedEntry(e: Entry, tail: Bytes)
    requires WellFormed(e)
    ensures ReadEntry(EncodeEntry(e) + tail) == Complete(e, |EncodeEntry(e)|)
  {
    var enc := EncodeEntry(e);
    var b := enc + tail;
    var n := |e.name|;
    EncodeEntryFields(e);
    assert b[..|enc|] == enc;
    assert b[1..1 + n] == enc[1..1 + n];
    assert b[2 + n..4 + n] == enc[2 + n..4 + n];
    BE16OfU16(|e.value|);
    assert b[4 + n..4 + n + |e.value|] == enc[4 + n..];
  }

  /** A strict prefix of an encoded entry is truncated; the name is reported
      exactly when all of its bytes are present. */
  lemma {:induction false} ReadTruncatedEntry(e: Entry, p: Bytes)
    requires WellFormed(e)
    requires 0 < |p| < |EncodeEntry(e)| && p == EncodeEntry(e)[..|p|]
    ensures ReadEntry(p) == Truncated(if |p| > |e.name| then Some(e.name) else None)
  {
    var b := EncodeEntry(e);
    var n := |e.name|;
    EncodeEntryFields(e);
    assert p[0] == b[0];
    if |p| > n {
      assert p[1..1 + n] == b[1..1 + n];
      if |p| >= 4 + n {
        assert p[2 + n..4 + n] == b[2 + n..4 + n];
        BE16OfU16(|e.value|);
      }
    }
  }

  /** Header entries encoded one after another are read back in order. */
  lemma {:induction false} WalkEncoded(es: seq<Entry>, tail: Bytes)
    requires AllWellFormed(es)
    ensures WalkHeaders(EncodeEntries(es) + tail) == PrependEntries(es, WalkHeaders(tail))
  {
    if es == [] {
      assert EncodeEntries(es) + tail == tail;
    } else {
      var e := es[0];
      var more := es[1..];
      assert AllWellFormed(more) by {
        forall i | 0 <= i < |more| ensures WellFormed(more[i]) {
          assert more[i] == es[i + 1];
        }
      }
      var rest := EncodeEntries(more) + tail;
      var b := EncodeEntry(e) + rest;
      assert EncodeEntries(es) + tail == b;
      ReadEncodedEntry(e, rest);
      WalkFront(b, e, |EncodeEntry(e)|);
      assert b[|EncodeEntry(e)|..] == rest;
      WalkEncoded(more, tail);
      ConsConcat(es, WalkHeaders(tail).entries);
    }
  }

  /** The header block of well-formed entries decodes to the dictionary those
      entries describe. */
  lemma {:induction false} HeaderBlockRoundTrip(es: seq<Entry>, utf8: Bytes -> Option<string>)
    requires AllWellFormed(es)
    ensures DecodeHeaderBlock(EncodeEntries(es), utf8) == Collect(es, utf8)
  {
    WalkEncoded(es, []);
    assert EncodeEntries(es) + [] == EncodeEntries(es);
    assert es + [] == es;
  }

  /** A header block cut off inside an entry silently yields the entries
      before the cut; only a complete but undecodable name of the cut entry
      makes the block fail. */
  lemma {:induction false} HeaderBlockTruncated(es: seq<Entry>, e: Entry, p: Bytes, utf8: Bytes -> Option<string>)
    requires AllWellFormed(es) && WellFormed(e)
    requires 0 < |p| < |EncodeEntry(e)| && p == EncodeEntry(e)[..|p|]
    ensures DecodeHeaderBlock(EncodeEntries(es) + p, utf8) ==
      if Collect(es, utf8).Some? && |p| > |e.name| && utf8(e.name).None? then None
      else Collect(es, utf8)
  {
    WalkEncoded(es, p);
    ReadTruncatedEntry(e, p);
    assert WalkHeaders(p) == Walk([], if |p| > |e.name| then Some(e.name) else None);
    assert es + [] == es;
  }

  predicate HasName(e: Entry, utf8: Bytes -> Option<string>, name: string)
  {
    DecodeEntry(e, utf8).Some? && DecodeEntry(e, utf8).value.0 == name
  }

  /** The decoded dictionary has a key for each decoded entry name, and
      keeps the value of the last entry with that name. */
  lemma {:induction false} CollectLastWins(es: seq<Entry>, utf8: Bytes -> Option<string>, i: nat)
    requires Collect(es, utf8).Some? && i < |es|
    ensures DecodeEntry(es[i], utf8).Some?
    ensures var kv := DecodeEntry(es[i], utf8).value;
      && kv.0 in Collect(es, utf8).value
      && ((forall j :: i < j < |es| ==> !HasName(es[j], utf8, kv.0)) ==>
            Collect(es, utf8).value[kv.0] == kv.1)
  {
    var init := es[..|es| - 1];
    CollectNone(es, utf8);
    if i < |es| - 1 {
      assert init[i] == es[i];
      CollectLastWins(init, utf8, i);
      forall j | i < j < |init| ensures HasName(init[j], utf8, DecodeEntry(es[i], utf8).value.0) == HasName(es[j], utf8, DecodeEntry(es[i], utf8).value.0) {
        assert init[j] == es[j];
      }
    }
  }

  /** Every key of the decoded dictionary is the decoded name of some entry. */
  lemma {:induction false} CollectKeys(es: seq<Entry>, utf8: Bytes -> Option<string>, k: string)
    requires Collect(es, utf8).Some? && k in Collect(es, utf8).value
    ensures exists i :: 0 <= i < |es| && HasName(es[i], utf8, k)
    decreases |es|
  {
    var init := es[..|es| - 1];
    var last := |es| - 1;
    if !HasName(es[last], utf8, k) {
      CollectKeys(init, utf8, k);
      var i :| 0 <= i < |init| && HasName(init[i], utf8, k);
      assert init[i] == es[i];
    }
  }

  /** A header block holding a single entry: the name maps to the value as
      text for type 7 and as the unchanged bytes for any other type. */
  lemma {:induction false} SingleEntryValue(e: Entry, utf8: Bytes -> Option<string>)
    requires WellFormed(e) && utf8(e.name).Some?
    ensures e.tag == STRING_TYPE && utf8(e.value).Some? ==>
      DecodeHeaderBlock(EncodeEntry(e), utf8) == Some(map[utf8(e.name).value := Text(utf8(e.value).value)])
    ensures e.tag == STRING_TYPE && utf8(e.value).None? ==>
      DecodeHeaderBlock(EncodeEntry(e), utf8) == None
    ensures e.tag != STRING_TYPE ==>
      DecodeHeaderBlock(EncodeEntry(e), utf8) == Some(map[utf8(e.name).value := Raw(e.value)])
  {
    HeaderBlockRoundTrip([e], utf8);
    assert [e][1..] == [];
    assert EncodeEntries([e]) == EncodeEntry(e) + [] == EncodeEntry(e);
    assert [e][..0] == [];
  }
}
