/** Distinguished encoding of ASN.1 objects as src/crypto/asn1.c writes and reads it. */
module Der {
  import opened Units
  import opened Wrappers

  /** An object with contents of its own, or one made up of other objects. */
  datatype Object = Primitive(tag: Byte, content: seq<Byte>) | Constructed(tag: Byte, parts: seq<Object>)

  // ----- Writing

  /** A positive number in as few bytes as possible. */
  function LengthBytes(n: nat): seq<Byte> {
    if n == 0 then [] else LengthBytes(n / 256) + [n % 256]
  }

  lemma {:induction false} LengthBytesCount(n: nat, k: nat)
    requires n < Power256(k)
    ensures |LengthBytes(n)| <= k
  {
    if n > 0 {
      LengthBytesCount(n / 256, k - 1);
    }
  }

  /** The lengths that fit in a machine word. */
  const MAX_LEN_LEN: nat := 8

  ghost predicate Encodable(n: nat) {
    n < Power256(MAX_LEN_LEN)
  }

  /** The identifier octet and the length octets of section 10.1 of ITU-T X.690. */
  ghost function HeaderBytes(tag: Byte, len: nat): seq<Byte>
    requires Encodable(len)
  {
    LengthBytesCount(len, MAX_LEN_LEN);
    [tag] + if len < 128 then [len] else [128 + |LengthBytes(len)|] + LengthBytes(len)
  }

  /** The length octets are the fewest possible: no leading zero, and the short form whenever that will do. */
  lemma {:induction false} LengthBytesMinimal(n: nat)
    requires n > 0
    ensures LengthBytes(n) != [] && LengthBytes(n)[0] != 0
  {
    if n >= 256 {
      LengthBytesMinimal(n / 256);
    }
  }

  lemma {:induction false} LengthBytesValue(n: nat)
    ensures Unsigned(LengthBytes(n)) == n
  {
    if n > 0 {
      LengthBytesValue(n / 256);
      var b := LengthBytes(n);
      assert b[..|b| - 1] == LengthBytes(n / 256);
    }
  }

  // ----- Reading

  const ANY := -1
  const EINVAL_EMPTY := 1
  const EINVAL_LEN_LEN := 2
  const EINVAL_LEN := 3
  const ENXIO := 4

  /** The number of values of an unsigned int. */
  const UINT: nat := 0x1_0000_0000

  datatype Start = Fail(rc: int) | Body(at: nat, len: nat)

  /** Where the body of the object at the start of `data` lies, if its length does not exceed what is left. */
  function StartOf(data: seq<Byte>, tag: int, extra: nat): Start {
    if |data| < 2 then Fail(-EINVAL_EMPTY)
    else if tag != ANY && tag != data[0] then Fail(-ENXIO)
    else
      var long := data[1] >= 128;
      var at := if long then 2 else 1;
      var k := if long then data[1] - 128 else 1;
      if |data| - at < k then Fail(-EINVAL_LEN_LEN)
      else
        var len := Unsigned(data[at..at + k]) % UINT;
        if |data| - at - k + extra < len then Fail(-EINVAL_LEN)
        else if len >= UINT / 2 then Fail(len - UINT)
        else Body(at + k, len)
  }

  /** An accepted length never exceeds the rest of the cursor. */
  lemma AcceptedLength(data: seq<Byte>, tag: int)
    ensures StartOf(data, tag, 0).Body? ==>
      2 <= StartOf(data, tag, 0).at && StartOf(data, tag, 0).at + StartOf(data, tag, 0).len <= |data|
    ensures StartOf(data, tag, 0).Fail? ==> StartOf(data, tag, 0).rc < 0
  {
    hide Unsigned;
  }

  /** The header that is written is read back, whatever follows. */
  lemma HeaderRead(tag: Byte, body: seq<Byte>, rest: seq<Byte>, expected: int)
    requires |body| < UINT / 2 && Encodable(|body|) && (expected == ANY || expected == tag)
    ensures StartOf(HeaderBytes(tag, |body|) + body + rest, expected, 0) == Body(|HeaderBytes(tag, |body|)|, |body|)
  {
    hide Power256, Unsigned, LengthBytes;
    var n := |body|;
    var h := HeaderBytes(tag, n);
    var data := h + body + rest;
    if n < 128 {
      assert data[1..2] == [n];
      OneByte(n);
    } else {
      var l := LengthBytes(n);
      LengthBytesMinimal(n);
      LengthBytesCount(n, MAX_LEN_LEN);
      assert data[2..2 + |l|] == l;
      LengthBytesValue(n);
    }
  }

  lemma OneByte(b: Byte)
    ensures Unsigned([b]) == b
  {
    assert [b][..0] == [];
  }

  /** An octet under 128 after the tag is the length itself. */
  lemma ShortForm(data: seq<Byte>, tag: int)
    requires |data| >= 2
    ensures tag != ANY && tag != data[0] ==> StartOf(data, tag, 0).Fail?
    ensures (tag == ANY || tag == data[0]) && data[1] < 128 ==>
      if data[1] <= |data| - 2 then StartOf(data, tag, 0) == Body(2, data[1]) else StartOf(data, tag, 0).Fail?
  {
    hide Unsigned;
    OneByte(data[1]);
    assert data[1..2] == [data[1]];
  }

  // ----- Trees of objects

  /** Bit 6 of the identifier octet tells whether an object is made up of others (section 8.1.2.5 of X.690). */
  predicate HasParts(tag: Byte) {
    tag / 32 % 2 == 1
  }

  /** In each of the four classes, the lower 32 of 64 identifiers are primitive and the upper 32 are constructed. */
  lemma PartsBit(kind: nat, number: nat)
    requires kind < 4 && number < 32
    ensures !HasParts(64 * kind + number) && HasParts(64 * kind + 32 + number)
  {
    assert (64 * kind + number) / 32 == 2 * kind;
    assert (64 * kind + 32 + number) / 32 == 2 * kind + 1;
  }

  /** The object has the kind that its tag says, and so have all those in it. */
  ghost predicate Tagged(o: Object) {
    match o
    case Primitive(tag, _) => !HasParts(tag)
    case Constructed(tag, parts) => HasParts(tag) && forall p :: p in parts ==> Tagged(p)
  }

  /** The length of the encoding, as a number of any size. */
  ghost function Measure(o: Object): nat {
    match o
    case Primitive(_, content) => HeaderSize(|content|) + |content|
    case Constructed(_, parts) => HeaderSize(MeasureAll(parts)) + MeasureAll(parts)
  }

  ghost function MeasureAll(parts: seq<Object>): nat {
    if parts == [] then 0 else Measure(parts[0]) + MeasureAll(parts[1..])
  }

  ghost function HeaderSize(n: nat): nat {
    if n < 128 then 2 else 2 + |LengthBytes(n)|
  }

  /** Under 2^31 bytes. */
  ghost predicate Small(n: nat) {
    n < UINT / 2
  }

  lemma SmallEncodable(n: nat)
    requires Small(n)
    ensures Encodable(n)
  {
    Power256Monotonic(4, MAX_LEN_LEN);
    assert Power256(4) == UINT;
  }

  ghost function Encode(o: Object): (data: seq<Byte>)
    requires Small(Measure(o))
    ensures |data| == Measure(o)
    decreases o, 1
  {
    match o
    case Primitive(tag, content) =>
      SmallEncodable(|content|);
      HeaderBytes(tag, |content|) + content
    case Constructed(tag, parts) =>
      var body := EncodeAll(parts);
      SmallEncodable(|body|);
      HeaderBytes(tag, |body|) + body
  }

  ghost function EncodeAll(parts: seq<Object>): (data: seq<Byte>)
    requires Small(MeasureAll(parts))
    ensures |data| == MeasureAll(parts)
    decreases parts, 0
  {
    if parts == [] then [] else Encode(parts[0]) + EncodeAll(parts[1..])
  }

  /** All the objects in `data`, one after the other. */
  ghost function DecodeAll(data: seq<Byte>): Option<seq<Object>>
    decreases |data|, 0
  {
    if data == [] then Some([])
    else
      AcceptedLength(data, ANY);
      match StartOf(data, ANY, 0)
      case Fail(_) => None
      case Body(at, len) =>
        var first := DecodeBody(data[0], data[at..at + len]);
        var others := DecodeAll(data[at + len..]);
        if first.Some? && others.Some? then Some([first.value] + others.value) else None
  }

  ghost function DecodeBody(tag: Byte, body: seq<Byte>): Option<Object>
    decreases |body|, 1
  {
    if HasParts(tag) then
      match DecodeAll(body)
      case None => None
      case Some(parts) => Some(Constructed(tag, parts))
    else Some(Primitive(tag, body))
  }

  /** The parts of the encoding of an object. */
  ghost function BodyOf(o: Object): (body: seq<Byte>)
    requires Small(Measure(o))
    ensures Small(|body|)
  {
    match o
    case Primitive(_, content) => content
    case Constructed(_, parts) => EncodeAll(parts)
  }

  lemma EncodeParts(o: Object)
    requires Small(Measure(o))
    ensures Encodable(|BodyOf(o)|) && Encode(o) == HeaderBytes(o.tag, |BodyOf(o)|) + BodyOf(o)
  {
    hide HeaderBytes, Encodable;
    SmallEncodable(|BodyOf(o)|);
  }

  lemma SplitAt(h: seq<Byte>, body: seq<Byte>, rest: seq<Byte>)
    ensures var d := h + body + rest;
            d[|h|..|h| + |body|] == body && d[|h| + |body|..] == rest
  {}

  /** Reading the first object of a sequence finds its tag, its body and what follows. */
  lemma FirstRead(o: Object, rest: seq<Byte>)
    requires Small(Measure(o))
    ensures var data := Encode(o) + rest;
            var s := StartOf(data, ANY, 0);
            && data != [] && data[0] == o.tag && s.Body? && s.at + s.len <= |data|
            && data[s.at..s.at + s.len] == BodyOf(o) && data[s.at + s.len..] == rest && s.at + s.len == |Encode(o)|
  {
    hide StartOf, Encode, BodyOf;
    EncodeParts(o);
    HeaderTag(o.tag, |BodyOf(o)|);
    HeaderRead(o.tag, BodyOf(o), rest, ANY);
    SplitAt(HeaderBytes(o.tag, |BodyOf(o)|), BodyOf(o), rest);
  }

  lemma HeaderTag(tag: Byte, n: nat)
    requires Encodable(n)
    ensures HeaderBytes(tag, n) != [] && HeaderBytes(tag, n)[0] == tag
  {
    hide Power256;
  }

  lemma PartsFacts(o: Object)
    requires Tagged(o) && Small(Measure(o)) && o.Constructed?
    ensures (forall p :: p in o.parts ==> Tagged(p)) && Small(MeasureAll(o.parts)) && HasParts(o.tag)
    ensures BodyOf(o) == EncodeAll(o.parts)
  {
    hide Encode, EncodeAll, HasParts;
  }

  lemma BodyDecoded(o: Object)
    requires Tagged(o) && Small(Measure(o))
    requires o.Constructed? ==> DecodeAll(BodyOf(o)) == Some(o.parts)
    ensures DecodeBody(o.tag, BodyOf(o)) == Some(o)
  {
    hide DecodeAll, EncodeAll, HasParts, Measure;
  }

  /** One object after another is read in the order in which they were written. */
  lemma DecodeNext(o: Object, rest: seq<Byte>, others: seq<Object>)
    requires Small(Measure(o)) && DecodeBody(o.tag, BodyOf(o)) == Some(o) && DecodeAll(rest) == Some(others)
    ensures DecodeAll(Encode(o) + rest) == Some([o] + others)
  {
    hide StartOf, Encode, DecodeBody, BodyOf, Measure;
    FirstRead(o, rest);
  }

  /** Every forest of objects under 2^31 bytes is recovered from its encoding. */
  lemma {:induction false} DecodeEncode(objects: seq<Object>)
    requires (forall o :: o in objects ==> Tagged(o)) && Small(MeasureAll(objects))
    ensures DecodeAll(EncodeAll(objects)) == Some(objects)
    decreases objects
  {
    hide Encode, DecodeBody, DecodeAll, BodyOf, Tagged, Measure, HasParts;
    if objects == [] {
      NothingDecoded();
    } else {
      var o, others := objects[0], objects[1..];
      assert Tagged(o);
      DecodeEncode(others);
      if o.Constructed? {
        PartsFacts(o);
        DecodeEncode(o.parts);
      }
      BodyDecoded(o);
      DecodeNext(o, EncodeAll(others), others);
      assert [o] + others == objects;
    }
  }

  lemma NothingDecoded()
    ensures DecodeAll([]) == Some([])
  {}
}
