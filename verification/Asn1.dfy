/** The cursor and the builder of src/crypto/asn1.c, which move and grow in place. */
module Asn1 {
  import opened Units
  import opened ListOps
  import opened Der
  import opened Wrappers

  const ENOENT := 5
  const ENOMEM := 12

  class Cursor {
    const buffer: seq<Byte>
    var pos: nat
    var len: nat

    ghost predicate Valid()
      reads this
    {
      pos + len <= |buffer|
    }

    function Contents(): seq<Byte>
      reads this
      requires pos + len <= |buffer|
    {
      buffer[pos..pos + len]
    }

    constructor (buffer: seq<Byte>, pos: nat, len: nat)
      requires pos + len <= |buffer|
      ensures Valid() && this.buffer == buffer && this.pos == pos && this.len == len
    {
      this.buffer, this.pos, this.len := buffer, pos, len;
    }

    method Advance(n: nat)
      requires Valid() && n <= len
      modifies this
      ensures Valid() && pos == old(pos) + n && len == old(len) - n && Contents() == old(Contents())[n..]
    {
      pos := pos + n;
      len := len - n;
    }

    /** Reads `k` length octets into an unsigned int. */
    method ReadLength(k: nat) returns (r: nat)
      requires Valid() && k <= len
      modifies this
      ensures Valid() && r == Unsigned(old(Contents())[..k]) % UINT
      ensures pos == old(pos) + k && len == old(len) - k && Contents() == old(Contents())[k..]
    {
      hide Unsigned;
      ghost var all := Contents();
      r := 0;
      UnsignedNone();
      for i := 0 to k
        invariant Valid() && pos == old(pos) + i && len == old(len) - i
        invariant r == Unsigned(all[..i]) % UINT
      {
        UnsignedNext(all, i);
        ShiftIn(r, Unsigned(all[..i]), all[i], UINT);
        r := (r * 256 + buffer[pos]) % UINT;
        Advance(1);
      }
    }

    /** asn1_start() */
    method Start(tag: int, extra: nat) returns (r: int)
      requires Valid()
      modifies this
      ensures Valid()
      ensures match StartOf(old(Contents()), tag, extra)
              case Fail(rc) => r == rc
              case Body(at, n) => r == n && at <= old(len) && pos == old(pos) + at && len == old(len) - at
    {
      hide Unsigned;
      ghost var data := Contents();
      if len < 2 {
        return -EINVAL_EMPTY;
      }
      if tag != ANY && tag != buffer[pos] {
        return -ENXIO;
      }
      Advance(1);
      var k := buffer[pos];
      if k >= 128 {
        k := k - 128;
        Advance(1);
      } else {
        k := 1;
      }
      if len < k {
        return -EINVAL_LEN_LEN;
      }
      ghost var at := pos - old(pos);
      assert Contents() == data[at..];
      assert data[at..][..k] == data[at..at + k];
      var n := ReadLength(k);
      if len + extra < n {
        return -EINVAL_LEN;
      }
      r := if n >= UINT / 2 then n - UINT else n;
    }

    /** asn1_invalidate_cursor() */
    method Invalidate()
      modifies this
      ensures Valid() && len == 0
    {
      pos, len := 0, 0;
    }

    /** asn1_enter() */
    method Enter(tag: int) returns (rc: int)
      requires Valid()
      modifies this
      ensures Valid()
      ensures match StartOf(old(Contents()), tag, 0)
              case Fail(e) => rc == e && len == 0
              case Body(at, n) => rc == 0 && at + n <= old(len) && pos == old(pos) + at && len == n
      ensures rc == 0 ==> old(len) >= 2 && (tag == -1 || tag == old(buffer[pos]))
      ensures rc != 0 ==> len == 0
      ensures old(len) >= 2 && (tag == -1 || tag == old(buffer[pos])) && old(buffer[pos + 1]) < 128 ==>
        if old(buffer[pos + 1]) <= old(len) - 2
        then rc == 0 && pos == old(pos) + 2 && len == old(buffer[pos + 1]) else rc != 0
    {
      if len >= 2 {
        ShortForm(Contents(), tag);
      }
      AcceptedLength(Contents(), tag);
      var n := Start(tag, 0);
      if n < 0 {
        Invalidate();
        return n;
      }
      len := n;
      rc := 0;
    }

    /** asn1_skip(): an error at the end of the data, which also invalidates the cursor. */
    method Skip(tag: int) returns (rc: int)
      requires Valid()
      modifies this
      ensures Valid()
      ensures match StartOf(old(Contents()), tag, 0)
              case Fail(e) => rc == e && len == 0
              case Body(at, n) =>
                && at + n <= old(len) && (rc == 0 <==> at + n < old(len))
                && (rc == 0 ==> pos == old(pos) + at + n && len == old(len) - at - n)
                && (rc != 0 ==> rc == -ENOENT && len == 0)
    {
      AcceptedLength(Contents(), tag);
      rc := SkipIfExists(tag);
      if rc != 0 {
        Invalidate();
      }
    }

    method SkipIfExists(tag: int) returns (rc: int)
      requires Valid()
      modifies this
      ensures Valid()
      ensures match StartOf(old(Contents()), tag, 0)
              case Fail(e) => rc == e
              case Body(at, n) =>
                && at + n <= old(len) && pos == old(pos) + at + n && len == old(len) - at - n
                && rc == if len == 0 then -ENOENT else 0
    {
      AcceptedLength(Contents(), tag);
      var n := Start(tag, 0);
      if n < 0 {
        return n;
      }
      Advance(n);
      rc := if len == 0 then -ENOENT else 0;
    }

    /** asn1_shrink() */
    method Shrink(tag: int) returns (rc: int)
      requires Valid()
      modifies this
      ensures Valid()
      ensures match StartOf(old(Contents()), tag, 0)
              case Fail(e) => rc == e && len == 0
              case Body(at, n) => rc == 0 && at + n <= old(len) && pos == old(pos) && len == at + n
    {
      AcceptedLength(Contents(), tag);
      var temp := new Cursor(buffer, pos, len);
      var n := temp.Start(tag, 0);
      if n < 0 {
        Invalidate();
        return n;
      }
      len := temp.pos + n - pos;
      rc := 0;
    }
  }

  lemma UnsignedNone()
    ensures Unsigned([]) == 0
  {}

  lemma UnsignedNext(data: seq<Byte>, i: nat)
    requires i < |data|
    ensures Unsigned(data[..i + 1]) == Unsigned(data[..i]) * 256 + data[i]
  {
    assert data[..i + 1][..i] == data[..i];
  }

  // ----- Walking a tree of objects

  /** The result of reading some objects and then the rest. */
  ghost function Following(read: seq<Object>, rest: Option<seq<Object>>): Option<seq<Object>> {
    match rest
    case None => None
    case Some(others) => Some(read + others)
  }

  lemma FollowingNone(rest: Option<seq<Object>>)
    ensures Following([], rest) == rest
  {
    if rest.Some? {
      assert [] + rest.value == rest.value;
    }
  }

  /** What reading one object contributes to reading all of them. */
  lemma DecodeStep(read: seq<Object>, data: seq<Byte>)
    requires data != []
    ensures match StartOf(data, ANY, 0)
            case Fail(_) => Following(read, DecodeAll(data)) == None
            case Body(at, n) =>
              && at + n <= |data|
              && match DecodeBody(data[0], data[at..at + n])
                 case None => Following(read, DecodeAll(data)) == None
                 case Some(o) => Following(read, DecodeAll(data)) == Following(read + [o], DecodeAll(data[at + n..]))
  {
    hide StartOf, DecodeBody, DecodeAll;
    AcceptedLength(data, ANY);
    match StartOf(data, ANY, 0)
    case Fail(_) => DecodeFails(data);
    case Body(at, n) =>
      DecodeUnfold(data, at, n);
      match DecodeBody(data[0], data[at..at + n])
      case None =>
      case Some(o) =>
        var others := DecodeAll(data[at + n..]);
        if others.Some? {
          Associative(read, [o], others.value);
        }
  }

  lemma DecodeFails(data: seq<Byte>)
    requires data != [] && StartOf(data, ANY, 0).Fail?
    ensures DecodeAll(data) == None
  {
    hide StartOf;
  }

  lemma DecodeUnfold(data: seq<Byte>, at: nat, n: nat)
    requires data != [] && StartOf(data, ANY, 0) == Body(at, n) && at + n <= |data|
    ensures var first, others := DecodeBody(data[0], data[at..at + n]), DecodeAll(data[at + n..]);
            DecodeAll(data) == if first.Some? && others.Some? then Some([first.value] + others.value) else None
  {
    hide StartOf, DecodeBody;
  }

  /** Walks over all the objects at the cursor, entering those that are made up of others. */
  method Walk(c: Cursor) returns (r: Option<seq<Object>>)
    requires c.Valid()
    modifies c
    ensures r == DecodeAll(old(c.Contents()))
    decreases c.len
  {
    hide StartOf, DecodeAll, DecodeBody;
    ghost var all := DecodeAll(c.Contents());
    NothingDecoded();
    var objects := [];
    if c.len == 0 {
      assert c.Contents() == [];
      return Some([]);
    }
    FollowingNone(all);
    while true
      invariant c.Valid() && 0 < c.len <= old(c.len)
      invariant Following(objects, DecodeAll(c.Contents())) == all
      decreases c.len
    {
      ghost var data := c.Contents();
      DecodeStep(objects, data);
      AcceptedLength(data, ANY);
      var o := WalkFirst(c);
      if o.None? {
        return None;
      }
      objects := objects + [o.value];
      var rc := c.Skip(ANY);
      if rc == -ENOENT {
        assert data[StartOf(data, ANY, 0).at + StartOf(data, ANY, 0).len..] == [];
        assert objects + [] == objects;
        return Some(objects);
      }
      assert c.Contents() == data[StartOf(data, ANY, 0).at + StartOf(data, ANY, 0).len..];
    }
  }

  /** The object at the cursor, read through a copy that is first shrunk to it. */
  method WalkFirst(c: Cursor) returns (r: Option<Object>)
    requires c.Valid() && c.len > 0
    ensures match StartOf(c.Contents(), ANY, 0)
            case Fail(_) => r == None
            case Body(at, n) => at + n <= c.len && r == DecodeBody(c.Contents()[0], c.Contents()[at..at + n])
    decreases c.len, 0
  {
    hide StartOf, DecodeAll;
    ghost var data := c.Contents();
    AcceptedLength(data, ANY);
    var inner := new Cursor(c.buffer, c.pos, c.len);
    var rc := inner.Shrink(ANY);
    if rc != 0 {
      return None;
    }
    ghost var s := StartOf(data, ANY, 0);
    PartOfPart(c.buffer, c.pos, c.len, 0, s.at + s.len);
    assert inner.Contents() == data[..s.at + s.len];
    ShrunkStart(data, inner.Contents());
    var tag := c.buffer[c.pos];
    rc := inner.Enter(ANY);
    PartOfPart(c.buffer, c.pos, c.len, s.at, s.len);
    assert inner.Contents() == data[s.at..s.at + s.len];
    if HasParts(tag) {
      var parts := Walk(inner);
      if parts.None? {
        return None;
      }
      return Some(Constructed(tag, parts.value));
    }
    return Some(Primitive(tag, inner.Contents()));
  }

  /** A cursor shrunk to its first object still starts with that object. */
  lemma ShrunkStart(data: seq<Byte>, shrunk: seq<Byte>)
    requires StartOf(data, ANY, 0).Body? && StartOf(data, ANY, 0).at + StartOf(data, ANY, 0).len <= |data|
    requires shrunk == data[..StartOf(data, ANY, 0).at + StartOf(data, ANY, 0).len]
    ensures StartOf(shrunk, ANY, 0) == StartOf(data, ANY, 0)
  {
    hide Unsigned;
    var long := data[1] >= 128;
    var at := if long then 2 else 1;
    var k := if long then data[1] - 128 else 1;
    assert shrunk[at..at + k] == data[at..at + k];
  }

  // ----- Building from back to front

  /** The number of length octets of the long form. */
  method CountLength(len: nat) returns (k: nat)
    ensures k == |LengthBytes(len)|
  {
    hide LengthBytes;
    LengthBytesEnd();
    k := 0;
    var temp: nat := len;
    while temp != 0
      invariant k + |LengthBytes(temp)| == |LengthBytes(len)|
      decreases temp
    {
      LengthBytesNext(temp);
      k := k + 1;
      temp := temp / 256;
    }
  }

  /** Fills the length octets in from the last. */
  method FillLength(length: array<Byte>, len: nat)
    requires length.Length == |LengthBytes(len)|
    modifies length
    ensures length[..] == LengthBytes(len)
  {
    hide LengthBytes;
    LengthBytesEnd();
    var k, temp: nat := length.Length, len;
    while temp != 0
      invariant 0 <= k <= length.Length && k == |LengthBytes(temp)|
      invariant LengthBytes(temp) + length[k..] == LengthBytes(len)
      decreases temp
    {
      LengthBytesNext(temp);
      ghost var tail := length[k..];
      k := k - 1;
      length[k] := temp % 256;
      assert length[k..] == [temp % 256] + tail;
      Associative(LengthBytes(temp / 256), [temp % 256], tail);
      temp := temp / 256;
    }
    assert length[0..] == length[..];
  }

  /** asn1_header(): the length octets are counted first and then filled in from the last. */
  method Header(tag: Byte, len: nat) returns (h: seq<Byte>)
    requires Encodable(len)
    ensures h == HeaderBytes(tag, len)
    ensures len < 128 ==> h == [tag, len]
    ensures len >= 128 ==>
      |h| > 2 && h[0] == tag && h[1] == 128 + (|h| - 2) && h[2] != 0 && Unsigned(h[2..]) == len
  {
    hide LengthBytes, Power256, Unsigned;
    LengthBytesCount(len, MAX_LEN_LEN);
    if len < 128 {
      return [tag, len];
    }
    var count := CountLength(len);
    var length := new Byte[count](_ => 0);
    FillLength(length, len);
    h := [tag, 128 + count] + length[..];
    LengthBytesMinimal(len);
    LengthBytesValue(len);
    assert h[2..] == length[..];
  }

  lemma LengthBytesNext(n: nat)
    requires n > 0
    ensures LengthBytes(n) == LengthBytes(n / 256) + [n % 256]
  {}

  lemma LengthBytesEnd()
    ensures LengthBytes(0) == []
  {}

  /** Whether each reallocation in turn succeeds; all builders share one heap. */
  class Memory {
    const grants: nat -> bool
    var calls: nat

    constructor (grants: nat -> bool)
      ensures this.grants == grants && calls == 0
    {
      this.grants, calls := grants, 0;
    }
  }

  /** The next `n` reallocations succeed. */
  ghost predicate Granted(grants: nat -> bool, from: nat, n: nat) {
    forall k :: from <= k < from + n ==> grants(k)
  }

  class Builder {
    const memory: Memory
    /** The buffer, or none; none with a length that is not zero stands for an earlier failure. */
    var data: Option<seq<Byte>>
    var len: nat

    ghost predicate Valid()
      reads this
    {
      data.Some? ==> |data.value| == len
    }

    /** A builder on which memory ran out when it already had contents. */
    ghost predicate Failed()
      reads this
    {
      data.None? && len > 0
    }

    ghost function Contents(): seq<Byte>
      reads this
    {
      if data.Some? then data.value else []
    }

    constructor (memory: Memory)
      ensures Valid() && !Failed() && Contents() == [] && len == 0 && this.memory == memory
    {
      this.memory, data, len := memory, None, 0;
    }

    /**
     * What one call does to the memory, and when it succeeds: not after a failure, and otherwise if memory is
     * granted.
     */
    twostate predicate Called(rc: int)
      reads this, memory
    {
      && Valid() && rc <= 0 && (rc == 0 <==> !old(Failed()) && memory.grants(old(memory.calls)))
      && memory.calls == old(memory.calls) + (if old(Failed()) then 0 else 1)
      && (rc != 0 ==> data.None? && len == old(len))
    }

    /** asn1_grow(): makes room before the contents. A failure with contents is permanent, any other is forgotten. */
    method Grow(extra: nat) returns (rc: int)
      requires Valid()
      modifies this, memory
      ensures Called(rc) && (rc != 0 ==> (Failed() <==> old(len) > 0))
      ensures rc == 0 ==> data.Some? && len == old(len) + extra && data.value[extra..] == old(Contents())
    {
      if len != 0 && data.None? {
        return -ENOMEM;
      }
      var grown := memory.grants(memory.calls);
      memory.calls := memory.calls + 1;
      if !grown {
        data := None;
        return -ENOMEM;
      }
      var contents := if data.Some? then data.value else [];
      data := Some(seq(extra, _ => 0) + contents);
      len := len + extra;
      rc := 0;
    }

    /** asn1_prepend_raw() */
    method PrependRaw(raw: seq<Byte>) returns (rc: int)
      requires Valid()
      modifies this, memory
      ensures Called(rc)
      ensures rc == 0 ==> data == Some(raw + old(Contents())) && len == old(len) + |raw|
    {
      rc := Grow(|raw|);
      if rc == 0 {
        data := Some(raw + data.value[|raw|..]);
      }
    }

    /** asn1_prepend() */
    method Prepend(tag: Byte, content: seq<Byte>) returns (rc: int)
      requires Valid() && Encodable(|content|)
      modifies this, memory
      ensures Called(rc)
      ensures rc == 0 ==> data == Some(HeaderBytes(tag, |content|) + content + old(Contents()))
    {
      hide HeaderBytes, Encodable;
      var header := Header(tag, |content|);
      rc := Grow(|header| + |content|);
      if rc == 0 {
        data := Some(header + content + data.value[|header| + |content|..]);
      }
    }

    /** asn1_wrap() */
    method Wrap(tag: Byte) returns (rc: int)
      requires Valid() && Encodable(len)
      modifies this, memory
      ensures Called(rc)
      ensures rc == 0 ==> data == Some(HeaderBytes(tag, old(len)) + old(Contents()))
    {
      hide HeaderBytes, Encodable;
      var header := Header(tag, len);
      rc := Grow(|header|);
      if rc == 0 {
        data := Some(header + data.value[|header|..]);
      }
    }
  }

  lemma BuildFacts(objects: seq<Object>)
    requires Small(MeasureAll(objects)) && objects != []
    ensures Small(Measure(objects[0])) && Small(MeasureAll(objects[1..]))
    ensures EncodeAll(objects) == Encode(objects[0]) + EncodeAll(objects[1..])
  {
    hide Encode, Measure;
  }

  lemma NothingEncoded()
    ensures MeasureAll([]) == 0 && EncodeAll([]) == []
  {}

  lemma PartsSmall(o: Object)
    requires Small(Measure(o)) && o.Constructed?
    ensures Small(MeasureAll(o.parts)) && BodyOf(o) == EncodeAll(o.parts)
  {
    hide Encode, EncodeAll;
  }

  /** How many reallocations it takes to write objects. */
  ghost function Grows(o: Object): nat {
    match o
    case Primitive(_, _) => 1
    case Constructed(_, parts) => GrowsAll(parts) + 2
  }

  ghost function GrowsAll(objects: seq<Object>): nat {
    if objects == [] then 0 else GrowsAll(objects[1..]) + Grows(objects[0])
  }

  lemma GrowsParts(o: Object)
    ensures Grows(o) == if o.Primitive? then 1 else GrowsAll(o.parts) + 2
  {}

  /**
   * Writes objects before the contents of a builder, last first, each made up of others in a builder of its own. It
   * succeeds if and only if all the memory that it takes is granted.
   */
  method Build(b: Builder, objects: seq<Object>) returns (rc: int)
    requires b.Valid() && !b.Failed() && Small(MeasureAll(objects))
    modifies b, b.memory
    ensures b.Valid() && rc <= 0
    ensures rc == 0 <==> Granted(b.memory.grants, old(b.memory.calls), GrowsAll(objects))
    ensures rc == 0 ==> b.memory.calls == old(b.memory.calls) + GrowsAll(objects)
    ensures rc == 0 ==> !b.Failed() && b.Contents() == EncodeAll(objects) + old(b.Contents())
    ensures rc == 0 ==> b.len == |b.Contents()|
    decreases objects, 0
  {
    hide Encode, EncodeAll, HeaderBytes, Encodable, Measure, MeasureAll, Small, Grows;
    if objects == [] {
      NothingEncoded();
      return 0;
    }
    var o := objects[0];
    BuildFacts(objects);
    ghost var from, most := b.memory.calls, GrowsAll(objects[1..]);
    GrantedParts(b.memory.grants, from, most, Grows(o));
    rc := Build(b, objects[1..]);
    if rc != 0 {
      return;
    }
    ghost var built := b.Contents();
    rc := BuildFirst(b, o);
    if rc == 0 {
      assert Encode(o) + (EncodeAll(objects[1..]) + old(b.Contents())) == EncodeAll(objects) + old(b.Contents());
    }
  }

  lemma GrantedParts(grants: nat -> bool, from: nat, m: nat, n: nat)
    ensures Granted(grants, from, m + n) <==> Granted(grants, from, m) && Granted(grants, from + m, n)
  {
    if Granted(grants, from, m) && Granted(grants, from + m, n) {
      forall k | from <= k < from + (m + n)
        ensures grants(k)
      {
        assert k < from + m || from + m <= k < from + m + n;
      }
    }
  }

  lemma GrantedOne(grants: nat -> bool, from: nat)
    ensures Granted(grants, from, 1) <==> grants(from)
  {}

  /** Writes one object before the contents of a builder. */
  method BuildFirst(b: Builder, o: Object) returns (rc: int)
    requires b.Valid() && !b.Failed() && Small(Measure(o))
    modifies b, b.memory
    ensures b.Valid() && rc <= 0
    ensures rc == 0 <==> Granted(b.memory.grants, old(b.memory.calls), Grows(o))
    ensures rc == 0 ==> b.memory.calls == old(b.memory.calls) + Grows(o)
    ensures rc == 0 ==> b.data == Some(Encode(o) + old(b.Contents()))
    decreases o, 1
  {
    hide Encode, EncodeAll, HeaderBytes, Encodable, Measure, MeasureAll, Small, Grows, Granted;
    EncodeParts(o);
    GrowsParts(o);
    ghost var grants, from := b.memory.grants, b.memory.calls;
    if o.Primitive? {
      GrantedOne(grants, from);
      rc := b.Prepend(o.tag, o.content);
      return;
    }
    PartsSmall(o);
    ghost var most := GrowsAll(o.parts);
    GrantedParts(grants, from, most, 2);
    GrantedParts(grants, from + most, 1, 1);
    GrantedOne(grants, from + most);
    GrantedOne(grants, from + most + 1);
    var inner := new Builder(b.memory);
    rc := Build(inner, o.parts);
    if rc != 0 {
      return;
    }
    assert EncodeAll(o.parts) + [] == EncodeAll(o.parts);
    rc := inner.Wrap(o.tag);
    if rc != 0 {
      return;
    }
    rc := b.PrependRaw(inner.data.value);
  }

  // ----- Several calls of which only the last status is looked at

  datatype Step = Raw(raw: seq<Byte>) | Item(tag: Byte, content: seq<Byte>) | Around(tag: Byte)

  /** The length of the contents after a step. */
  ghost function Longer(len: nat, step: Step): nat {
    match step
    case Raw(raw) => |raw| + len
    case Item(_, content) => HeaderSize(|content|) + |content| + len
    case Around(_) => HeaderSize(len) + len
  }

  ghost function Size(len: nat, steps: seq<Step>): nat
    decreases steps
  {
    if steps == [] then len else Size(Longer(len, steps[0]), steps[1..])
  }

  /** The steps write no more than a machine word can count. */
  ghost predicate Representable(len: nat, steps: seq<Step>) {
    Encodable(Size(len, steps))
  }

  /** The contents after a step that succeeds. */
  ghost function Lay(contents: seq<Byte>, step: Step): (r: seq<Byte>)
    requires Encodable(Longer(|contents|, step))
    ensures |r| == Longer(|contents|, step)
  {
    match step
    case Raw(raw) => raw + contents
    case Item(tag, content) => HeaderBytes(tag, |content|) + content + contents
    case Around(tag) => HeaderBytes(tag, |contents|) + contents
  }

  /** The contents after steps that all succeed. */
  ghost function Laid(contents: seq<Byte>, steps: seq<Step>): (r: seq<Byte>)
    requires Representable(|contents|, steps)
    ensures |r| == Size(|contents|, steps)
    decreases steps
  {
    if steps == [] then contents
    else
      SizeGrows(Longer(|contents|, steps[0]), steps[1..]);
      Laid(Lay(contents, steps[0]), steps[1..])
  }

  lemma {:induction false} LengthBytesMonotonic(m: nat, n: nat)
    requires m <= n
    ensures |LengthBytes(m)| <= |LengthBytes(n)|
  {
    if m > 0 {
      LengthBytesMonotonic(m / 256, n / 256);
    }
  }

  lemma LongerMonotonic(m: nat, n: nat, step: Step)
    requires m <= n
    ensures n <= Longer(n, step) && Longer(m, step) <= Longer(n, step) && (m < n ==> Longer(m, step) < Longer(n, step))
    ensures step != Raw([]) ==> n < Longer(n, step)
  {
    LengthBytesMonotonic(m, n);
  }

  lemma {:induction false} SizeGrows(len: nat, steps: seq<Step>)
    ensures len <= Size(len, steps)
    decreases steps
  {
    if steps != [] {
      LongerMonotonic(len, len, steps[0]);
      SizeGrows(Longer(len, steps[0]), steps[1..]);
    }
  }

  lemma {:induction false} SizeMonotonic(m: nat, n: nat, steps: seq<Step>)
    requires m <= n
    ensures Size(m, steps) <= Size(n, steps) && (m < n ==> Size(m, steps) < Size(n, steps))
    decreases steps
  {
    if steps != [] {
      LongerMonotonic(m, n, steps[0]);
      SizeMonotonic(Longer(m, steps[0]), Longer(n, steps[0]), steps[1..]);
    }
  }

  /** Leaving out the first steps makes the contents no longer, and shorter if one of them had something to add. */
  lemma {:induction false} LostSize(len: nat, steps: seq<Step>, k: nat)
    requires k <= |steps|
    ensures Size(len, steps[k..]) <= Size(len, steps)
    ensures (exists j :: 0 <= j < k && steps[j] != Raw([])) ==> Size(len, steps[k..]) < Size(len, steps)
    decreases k
  {
    if k > 0 {
      var rest := steps[1..];
      assert rest[k - 1..] == steps[k..];
      LongerMonotonic(len, len, steps[0]);
      LostSize(len, rest, k - 1);
      SizeMonotonic(len, Longer(len, steps[0]), rest);
      if j :| 0 <= j < k && steps[j] != Raw([]) {
        assert j > 0 ==> rest[j - 1] == steps[j];
      }
    }
  }

  lemma EncodableBelow(m: nat, n: nat)
    requires m <= n && Encodable(n)
    ensures Encodable(m)
  {}

  lemma RepresentableRest(len: nat, steps: seq<Step>, k: nat)
    requires k <= |steps| && Representable(len, steps)
    ensures Representable(len, steps[k..])
  {
    LostSize(len, steps, k);
    EncodableBelow(Size(len, steps[k..]), Size(len, steps));
  }

  lemma RepresentableNext(len: nat, steps: seq<Step>)
    requires steps != [] && Representable(len, steps)
    ensures Encodable(len) && Encodable(Longer(len, steps[0])) && Representable(Longer(len, steps[0]), steps[1..])
    ensures Representable(len, steps[1..])
  {
    hide Encodable;
    SizeGrows(Longer(len, steps[0]), steps[1..]);
    LongerMonotonic(len, len, steps[0]);
    EncodableBelow(Longer(len, steps[0]), Size(len, steps));
    EncodableBelow(len, Size(len, steps));
    RepresentableRest(len, steps, 1);
  }

  /** What the next `n` reallocations are answered. */
  ghost function Answers(grants: nat -> bool, from: nat, n: nat): (r: seq<bool>)
    ensures |r| == n
  {
    seq(n, j requires 0 <= j => grants(from + j))
  }

  /**
   * The steps from number `k` on are granted memory. Those before are refused it, or have nothing to add, on a builder
   * that is empty.
   */
  ghost predicate Survives(answers: seq<bool>, len: nat, steps: seq<Step>, k: nat)
    requires |answers| == |steps|
  {
    && k < |steps| && (k > 0 ==> len == 0)
    && (forall j :: 0 <= j < k ==> !answers[j] || steps[j] == Raw([]))
    && (forall j :: k <= j < |steps| ==> answers[j])
  }

  lemma SurvivesRest(answers: seq<bool>, len: nat, next: nat, steps: seq<Step>, k: nat)
    requires 1 < |steps| == |answers|
    ensures Survives(answers, len, steps, 0) <==> answers[0] && Survives(answers[1..], next, steps[1..], 0)
    ensures len == 0 && next == 0 && (!answers[0] || steps[0] == Raw([]))
        ==> (Survives(answers, len, steps, k + 1) <==> Survives(answers[1..], next, steps[1..], k))
    ensures len > 0 || (answers[0] && steps[0] != Raw([])) ==> !Survives(answers, len, steps, k + 1)
  {
    var a, rest := answers[1..], steps[1..];
    assert forall j :: 0 <= j < |a| ==> a[j] == answers[j + 1] && rest[j] == steps[j + 1];
    assert forall j :: 0 < j < |answers| ==> answers[j] == a[j - 1] && steps[j] == rest[j - 1];
  }

  method Do(b: Builder, step: Step) returns (rc: int)
    requires b.Valid() && Encodable(b.len) && Encodable(Longer(b.len, step))
    modifies b, b.memory
    ensures b.Called(rc)
    ensures rc == 0 ==> Encodable(Longer(|old(b.Contents())|, step)) && b.data == Some(Lay(old(b.Contents()), step))
  {
    hide HeaderBytes;
    match step
    case Raw(raw) =>
      rc := b.PrependRaw(raw);
    case Item(tag, content) =>
      rc := b.Prepend(tag, content);
    case Around(tag) =>
      rc := b.Wrap(tag);
  }

  /** No call that had something to add was refused memory. */
  ghost predicate NothingLost(answers: seq<bool>, steps: seq<Step>)
    requires |answers| == |steps|
  {
    forall j :: 0 <= j < |steps| ==> answers[j] || steps[j] == Raw([])
  }

  ghost predicate AllGranted(answers: seq<bool>) {
    forall j :: 0 <= j < |answers| ==> answers[j]
  }

  /** The contents after the steps from number `k` on. */
  ghost function LaidFrom(contents: seq<Byte>, steps: seq<Step>, k: nat): seq<Byte>
    requires k <= |steps| && Representable(|contents|, steps)
  {
    RepresentableRest(|contents|, steps, k);
    Laid(contents, steps[k..])
  }

  lemma LaidFromAll(contents: seq<Byte>, steps: seq<Step>)
    requires Representable(|contents|, steps)
    ensures LaidFrom(contents, steps, 0) == Laid(contents, steps)
  {
    assert steps[0..] == steps;
  }

  lemma LaidFromNext(contents: seq<Byte>, steps: seq<Step>)
    requires steps != [] && Representable(|contents|, steps)
    requires Encodable(Longer(|contents|, steps[0])) && Representable(Longer(|contents|, steps[0]), steps[1..])
    ensures LaidFrom(contents, steps, 0) == LaidFrom(Lay(contents, steps[0]), steps[1..], 0)
  {
    hide Lay, Encodable;
    LaidFromAll(contents, steps);
    LaidFromAll(Lay(contents, steps[0]), steps[1..]);
  }

  lemma LaidFromLater(contents: seq<Byte>, steps: seq<Step>, k: nat)
    requires 0 < k <= |steps| && Representable(|contents|, steps) && Representable(|contents|, steps[1..])
    ensures LaidFrom(contents, steps, k) == LaidFrom(contents, steps[1..], k - 1)
  {
    assert steps[1..][k - 1..] == steps[k..];
  }

  /** What a chain of calls leaves, given the answers. */
  ghost predicate ChainResult(answers: seq<bool>, was: seq<Byte>, steps: seq<Step>, ok: bool, now: seq<Byte>)
    requires |answers| == |steps| && Representable(|was|, steps)
  {
    && (ok <==> exists k: nat :: Survives(answers, |was|, steps, k))
    && (forall k: nat :: Survives(answers, |was|, steps, k) ==> now == LaidFrom(was, steps, k))
  }

  lemma ChainEnds(answers: seq<bool>, was: seq<Byte>, step: Step, ok: bool, now: seq<Byte>)
    requires |answers| == 1 && ok == answers[0] && Representable(|was|, [step])
    requires Encodable(Longer(|was|, step)) && (ok ==> now == Lay(was, step))
    ensures ChainResult(answers, was, [step], ok, now)
  {
    hide Lay, Encodable;
    assert Survives(answers, |was|, [step], 0) <==> answers[0];
    LaidFromAll(was, [step]);
    assert [step][1..] == [];
    assert Laid(was, [step]) == Laid(Lay(was, step), []);
  }

  lemma ChainGranted(answers: seq<bool>, was: seq<Byte>, steps: seq<Step>, ok: bool, now: seq<Byte>)
    requires 1 < |answers| == |steps| && Representable(|was|, steps) && answers[0]
    requires Encodable(Longer(|was|, steps[0])) && Representable(Longer(|was|, steps[0]), steps[1..])
    requires ChainResult(answers[1..], Lay(was, steps[0]), steps[1..], ok, now)
    ensures ChainResult(answers, was, steps, ok, now)
  {
    hide Survives, Encodable, Representable, LaidFrom;
    var next, rest := Lay(was, steps[0]), steps[1..];
    LongerMonotonic(|was|, |was|, steps[0]);
    SurvivesRest(answers, |was|, |next|, steps, 0);
    LaidFromNext(was, steps);
    if ok {
      var k: nat :| Survives(answers[1..], |next|, rest, k);
      SurvivesEmpty(answers[1..], |next|, rest, k);
      SurvivesRest(answers, |was|, |next|, steps, k);
      assert Survives(answers, |was|, steps, if k == 0 then 0 else k + 1);
    }
    forall k: nat | Survives(answers, |was|, steps, k)
      ensures ok && k < |steps| && now == LaidFrom(was, steps, k)
    {
      SurvivesEmpty(answers, |was|, steps, k);
      if k == 0 {
        assert Survives(answers[1..], |next|, rest, 0);
      } else {
        SurvivesRest(answers, |was|, |next|, steps, k - 1);
        assert Survives(answers[1..], |next|, rest, k - 1);
        assert next == was;
        LaidFromLater(was, steps, k);
      }
    }
  }

  lemma SurvivesEmpty(answers: seq<bool>, len: nat, steps: seq<Step>, k: nat)
    requires |answers| == |steps|
    ensures Survives(answers, len, steps, k) ==> k < |steps| && (k > 0 ==> len == 0)
  {}

  lemma ChainRefused(answers: seq<bool>, was: seq<Byte>, steps: seq<Step>, ok: bool, now: seq<Byte>)
    requires 1 < |answers| == |steps| && Representable(|was|, steps) && !answers[0]
    requires was != [] ==> !ok
    requires was == [] ==> Representable(0, steps[1..]) && ChainResult(answers[1..], [], steps[1..], ok, now)
    ensures ChainResult(answers, was, steps, ok, now)
  {
    hide Survives, Encodable, Representable, LaidFrom;
    var rest := steps[1..];
    SurvivesRest(answers, |was|, 0, steps, 0);
    if was == [] && ok {
      var k: nat :| Survives(answers[1..], 0, rest, k);
      SurvivesRest(answers, |was|, 0, steps, k);
      assert Survives(answers, |was|, steps, k + 1);
    }
    forall k: nat | Survives(answers, |was|, steps, k)
      ensures ok && k < |steps| && now == LaidFrom(was, steps, k)
    {
      SurvivesEmpty(answers, |was|, steps, k);
      SurvivesRest(answers, |was|, 0, steps, k - 1);
      assert Survives(answers[1..], 0, rest, k - 1);
      LaidFromLater([], steps, k);
    }
  }

  /**
   * Writes several things before the contents, as callers do that look only at the last status. A failure with contents
   * is permanent; a refusal on an empty builder is forgotten with what was to be written.
   */
  method Chain(b: Builder, steps: seq<Step>) returns (rc: int)
    requires b.Valid() && steps != [] && Representable(b.len, steps)
    modifies b, b.memory
    ensures b.Valid() && rc <= 0
    ensures old(b.Failed()) ==> rc != 0
    ensures !old(b.Failed()) ==>
      ChainResult(Answers(b.memory.grants, old(b.memory.calls), |steps|), old(b.Contents()), steps,
                  rc == 0, b.Contents())
    decreases steps
  {
    hide Survives, Encodable, Representable, Lay;
    RepresentableNext(b.len, steps);
    ghost var answers := Answers(b.memory.grants, b.memory.calls, |steps|);
    ghost var was := b.Contents();
    rc := Do(b, steps[0]);
    if |steps| == 1 {
      assert steps == [steps[0]];
      if !old(b.Failed()) {
        ChainEnds(answers, was, steps[0], rc == 0, b.Contents());
      }
      return;
    }
    assert answers[1..] == Answers(b.memory.grants, old(b.memory.calls) + 1, |steps| - 1);
    ghost var granted := rc == 0;
    rc := Chain(b, steps[1..]);
    if granted {
      ChainGranted(answers, was, steps, rc == 0, b.Contents());
    } else if !old(b.Failed()) {
      ChainRefused(answers, was, steps, rc == 0, b.Contents());
    }
  }

  /**
   * A chain whose last status is zero has written everything exactly if no call that had something to add was refused
   * memory. With contents before the chain, or after the first call, the last status is zero exactly if all were
   * granted.
   */
  lemma ChainExactly(answers: seq<bool>, was: seq<Byte>, steps: seq<Step>, ok: bool, now: seq<Byte>)
    requires 0 < |answers| == |steps| && Representable(|was|, steps) && ChainResult(answers, was, steps, ok, now)
    ensures ok ==> (now == Laid(was, steps) <==> NothingLost(answers, steps))
    ensures was != [] || (answers[0] && steps[0] != Raw([])) ==> (ok <==> AllGranted(answers))
    ensures AllGranted(answers) ==> ok
  {
    hide Encodable, Representable, Laid;
    LaidFromAll(was, steps);
    assert AllGranted(answers) ==> Survives(answers, |was|, steps, 0);
    if ok {
      var k: nat :| Survives(answers, |was|, steps, k);
      LostSize(|was|, steps, k);
      RepresentableRest(|was|, steps, k);
      assert NothingLost(answers, steps) <==> forall j :: 0 <= j < k ==> steps[j] == Raw([]);
      if NothingLost(answers, steps) {
        NothingAdded(was, steps, k);
      }
    }
  }

  lemma {:induction false} NothingAdded(was: seq<Byte>, steps: seq<Step>, k: nat)
    requires k <= |steps| && Representable(|was|, steps) && Representable(|was|, steps[k..])
    requires forall j :: 0 <= j < k ==> steps[j] == Raw([])
    ensures Laid(was, steps) == Laid(was, steps[k..])
    decreases k
  {
    hide Encodable;
    if k == 0 {
      assert steps[0..] == steps;
    } else {
      var rest := steps[1..];
      assert rest[k - 1..] == steps[k..];
      RepresentableNext(|was|, steps);
      assert Lay(was, Raw([])) == was;
      NothingAdded(was, rest, k - 1);
    }
  }

  /** A builder that is still empty when it is refused memory starts afresh: what was to be written first is missing. */
  method Forgets() returns (first: int, second: int, contents: seq<Byte>)
    ensures first != 0 && second == 0 && contents == [2]
  {
    var memory := new Memory((k: nat) => k > 0);
    var b := new Builder(memory);
    first := b.PrependRaw([1]);
    second := b.PrependRaw([2]);
    contents := b.data.value;
  }
}
