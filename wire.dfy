/** Basic vocabulary of the event-stream codec: bytes, big-endian integers,
    Python-style slices, JSON values, and the text/JSON codecs that the decoder
    relies on but that are not themselves part of this model. */
module Wire {

  datatype Option<+T> = None | Some(value: T)

  /** A byte as Python's `bytes` indexing yields it. */
  type Byte = x: int | 0 <= x < 256

  type Bytes = seq<Byte>

  const TWO_16: nat := 0x1_0000
  const TWO_32: nat := 0x1_0000_0000

  /** `struct.unpack('>H', b)`: a big-endian unsigned 16-bit integer. */
  function BE16(b: Bytes): (n: nat)
    requires |b| == 2
    ensures n < TWO_16
  {
    b[0] as int * 0x100 + b[1]
  }

  /** `struct.unpack('>I', b)`: a big-endian unsigned 32-bit integer. */
  function BE32(b: Bytes): (n: nat)
    requires |b| == 4
    ensures n < TWO_32
  {
    b[0] as int * 0x100_0000 + b[1] as int * 0x1_0000 + b[2] as int * 0x100 + b[3]
  }

  /** `struct.pack('>H', n)`. */
  function U16(n: nat): (b: Bytes)
    requires n < TWO_16
    ensures |b| == 2
  {
    [n / 0x100, n % 0x100]
  }

  /** `struct.pack('>I', n)`: the high 16 bits, then the low 16 bits. */
  function U32(n: nat): (b: Bytes)
    requires n < TWO_32
    ensures |b| == 4
  {
    U16(n / TWO_16) + U16(n % TWO_16)
  }

  lemma {:induction false} BE16OfU16(n: nat)
    requires n < TWO_16
    ensures BE16(U16(n)) == n
  {
  }

  lemma {:induction false} U16OfBE16(b: Bytes)
    requires |b| == 2
    ensures U16(BE16(b)) == b
  {
    var n := BE16(b);
    assert n / 0x100 == b[0];
    assert n % 0x100 == b[1];
  }

  /** A 32-bit field is its high 16-bit half followed by its low half. */
  lemma {:induction false} BE32Halves(b: Bytes)
    requires |b| == 4
    ensures BE32(b) == BE16(b[..2]) * TWO_16 + BE16(b[2..])
  {
  }

  lemma {:induction false} BE32OfU32(n: nat)
    requires n < TWO_32
    ensures BE32(U32(n)) == n
  {
    var hi, lo := n / TWO_16, n % TWO_16;
    var b := U32(n);
    assert b[..2] == U16(hi) && b[2..] == U16(lo);
    BE32Halves(b);
    BE16OfU16(hi);
    BE16OfU16(lo);
  }

  lemma {:induction false} U32OfBE32(b: Bytes)
    requires |b| == 4
    ensures U32(BE32(b)) == b
  {
    var hi, lo := BE16(b[..2]), BE16(b[2..]);
    BE32Halves(b);
    assert BE32(b) / TWO_16 == hi && BE32(b) % TWO_16 == lo;
    U16OfBE16(b[..2]);
    U16OfBE16(b[2..]);
    assert b == b[..2] + b[2..];
  }

  /** Python's normalisation of one slice bound `i` against a sequence of
      length `n`: a negative bound counts from the end, and the result is
      clamped into 0..n. */
  function SliceBound(i: int, n: nat): (k: nat)
    ensures k <= n
    ensures 0 <= i <= n ==> k == i
    ensures i > n ==> k == n
    ensures -(n as int) <= i < 0 ==> k == n as int + i
    ensures i < -(n as int) ==> k == 0
  {
    if i < 0 then (if i + n < 0 then 0 else i + n)
    else if i > n then n
    else i
  }

  /** Python's `s[i:j]` for integer bounds (step 1): never fails, empty when
      the normalised bounds cross. */
  function PySlice<T>(s: seq<T>, i: int, j: int): (r: seq<T>)
    ensures |r| <= |s|
    ensures 0 <= i <= j <= |s| ==> r == s[i..j]
    ensures 0 <= j <= i ==> r == []
  {
    var a := SliceBound(i, |s|);
    var b := SliceBound(j, |s|);
    if a < b then s[a..b] else []
  }

  /** A JSON value as `json.loads` returns it. Objects are dictionaries, in
      which a repeated key keeps its last value. */
  datatype Json =
    | JNull
    | JBool(b: bool)
    | JNumber(n: real)
    | JString(s: string)
    | JArray(items: seq<Json>)
    | JObject(fields: map<string, Json>)

  /** The three library services the decoder calls:
      `utf8` is `bytes.decode('utf-8')` (None where it raises UnicodeDecodeError),
      `lossyUtf8` is `bytes.decode('utf-8', errors='ignore')`, and
      `json` is `json.loads` (None where it raises JSONDecodeError). */
  datatype Codec = Codec(
    utf8: Bytes -> Option<string>,
    lossyUtf8: Bytes -> string,
    json: string -> Option<Json>)
}
