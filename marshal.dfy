/** Marshallable records and the whole-object helpers Object2String and
    String2Object of dspacket.h.

    A Marshallable is a type with a marshal that pushes its fields in order
    and an unmarshal that pops them in the same order. Voidmable pushes and
    pops nothing. Sample stands for a user record: a 16-bit id, a name and a
    vector of bytes. */
module Marshal {
  import opened Errors
  import opened Wire
  import opened Codec
  import opened Packet
  import opened Streams

  // ---------------------------------------------------------------------------
  // Voidmable

  datatype Void = Void

  function VoidCodec(): Codec<Void> {
    Codec(_ => Ok([]), s => Ok((Void, s)))
  }

  /** Voidmable writes nothing and reads nothing; it round-trips, but it is
      not NonEmpty, so a vector of them is outside VectorSound. */
  lemma VoidRoundTrips()
    ensures RoundTrips(VoidCodec()) && Advances(VoidCodec())
  {
    var c := VoidCodec();
    forall x: Void, rest: seq<byte> | c.enc(x).Ok? && |c.enc(x).value| <= MaxPackSize
      ensures c.dec(c.enc(x).value + rest) == Ok((x, rest))
    {
      assert x == Void && c.enc(x).value + rest == rest;
      assert c.dec(rest) == Ok((Void, rest));
    }
    forall s: seq<byte> | c.dec(s).Ok?
      ensures IsSuffix(c.dec(s).value.1, s)
    {
      assert s[|s| - |s|..] == s;
    }
  }

  // ---------------------------------------------------------------------------
  // An example record

  datatype Sample = Sample(id: u16, name: seq<byte>, data: seq<byte>)

  /** A vector of uint8_t writes each byte as itself. */
  lemma {:induction false} BytesEncodeAsThemselves(xs: seq<byte>)
    ensures EncodeElements(U8Codec(), xs) == Ok(xs)
  {
    if xs != [] {
      BytesEncodeAsThemselves(xs[1..]);
      assert [xs[0]] + xs[1..] == xs;
    }
  }

  /** The data as a container of bytes: a 32-bit count, then the bytes. */
  function EncodeData(xs: seq<byte>): (r: seq<byte>)
    ensures EncodeContainer(U8Codec(), xs) == Ok(r)
    ensures r == ToBytes32(|xs| % 0x1_0000_0000) + xs
  {
    BytesEncodeAsThemselves(xs);
    EncodeContainer(U8Codec(), xs).value
  }

  /** marshal: p << id << name << data. */
  function EncodeSample(x: Sample): (r: Result<seq<byte>>)
    ensures r.Err? <==> |x.name| > 0xFFFF
    ensures r.Err? ==> r.error == OversizeString
    ensures r.Ok? ==> |r.value| == 2 + 2 + |x.name| + 4 + |x.data|
  {
    match EncodeString(x.name)
    case Err(e) => Err(e)
    case Ok(n) => Ok(ToBytes16(x.id) + n + EncodeData(x.data))
  }

  /** unmarshal into an existing object: up >> id >> name >> data. The id
      and the name are overwritten; the bytes are appended to the ones the
      object already holds, as operator>> for std::vector does. */
  function DecodeSample(into: Sample, s: seq<byte>): Result<(Sample, seq<byte>)> {
    match DecodeU16(s)
    case Err(e) => Err(e)
    case Ok((id, t)) =>
      match DecodeString(t)
      case Err(e) => Err(e)
      case Ok((name, u)) =>
        match DecodeVector(U8Codec(), into.data, u)
        case Err(e) => Err(e)
        case Ok((data, w)) => Ok((Sample(id, name, data), w))
  }

  /** The record as a value nested in others: decoded into a fresh object. */
  function SampleCodec(): Codec<Sample> {
    Codec(EncodeSample, s => DecodeSample(Sample(0, [], []), s))
  }

  /** Decoding into an object appends to its data and replaces the rest. */
  lemma SampleDecodeInto(into: Sample, x: Sample, rest: seq<byte>)
    requires EncodeSample(x).Ok? && |EncodeSample(x).value| <= MaxPackSize
    ensures DecodeSample(into, EncodeSample(x).value + rest)
            == Ok((Sample(x.id, x.name, into.data + x.data), rest))
  {
    U8Sound();
    var n, d := EncodeString(x.name).value, EncodeData(x.data);
    assert EncodeSample(x).value + rest == ToBytes16(x.id) + (n + (d + rest));
    FromToBytes16(x.id, n + (d + rest));
    assert (ToBytes16(x.id) + (n + (d + rest)))[2..] == n + (d + rest);
    StringSound();
    assert DecodeString(n + (d + rest)) == Ok((x.name, d + rest));
    VectorRoundTrip(U8Codec(), into.data, x.data, rest);
  }

  /** The record is a sound codec: it round-trips, moves forward, and takes
      at least its id's two bytes. */
  lemma SampleSound()
    ensures Sound(SampleCodec())
  {
    var c := SampleCodec();
    forall x, rest | c.enc(x).Ok? && |c.enc(x).value| <= MaxPackSize
      ensures c.dec(c.enc(x).value + rest) == Ok((x, rest))
    {
      SampleDecodeInto(Sample(0, [], []), x, rest);
      assert [] + x.data == x.data;
    }
    forall s | c.dec(s).Ok?
      ensures IsSuffix(c.dec(s).value.1, s)
    {
      SampleAdvances(Sample(0, [], []), s);
    }
  }

  /** Decoding a record leaves a suffix of its input. */
  lemma SampleAdvances(into: Sample, s: seq<byte>)
    requires DecodeSample(into, s).Ok?
    ensures IsSuffix(DecodeSample(into, s).value.1, s)
  {
    U8Sound();
    var t := DecodeU16(s).value.1;
    var u := DecodeString(t).value.1;
    var v := DecodeU32(u).value.1;
    ElementsAdvance(U8Codec(), DecodeU32(u).value.0, v);
    assert IsSuffix(v, u) && IsSuffix(u, t) && IsSuffix(t, s);
    SuffixTransitive(u, t, s);
    SuffixTransitive(v, u, s);
  }

  /** The record {1, "ab", {9, 8, 7}} on the wire: 00 01 | 00 02 61 62 |
      00 00 00 03 09 08 07. */
  lemma SampleWireExample()
    ensures EncodeSample(Sample(1, [0x61, 0x62], [9, 8, 7])) ==
            Ok([0, 1,  0, 2, 0x61, 0x62,  0, 0, 0, 3, 9, 8, 7])
  {
    assert ToBytes16(0) == [0, 0] && ToBytes16(1) == [0, 1] && ToBytes16(2) == [0, 2];
    assert ToBytes16(3) == [0, 3] && ToBytes32(3) == [0, 0, 0, 3];
    assert EncodeString([0x61, 0x62]) == Ok([0, 2] + [0x61, 0x62]);
    assert [0, 1] + ([0, 2] + [0x61, 0x62]) + ([0, 0, 0, 3] + [9, 8, 7])
        == [0, 1,  0, 2, 0x61, 0x62,  0, 0, 0, 3, 9, 8, 7];
  }

  /** Sample::marshal. A failure part way leaves the fields written so far. */
  method MarshalSample(p: Pack, x: Sample) returns (r: Outcome)
    requires p.Valid()
    modifies p.pb.Repr
    ensures p.Valid() && fresh(p.pb.Repr - old(p.pb.Repr))
    ensures r.Pass? ==> EncodeSample(x).Ok? && p.pb.Contents() == old(p.pb.Contents()) + EncodeSample(x).value
    ensures EncodeSample(x).Ok? && |old(p.pb.Contents())| + |EncodeSample(x).value| <= MaxPackSize ==> r.Pass?
    ensures r.Fail? ==> r.error == CapacityExceeded || (r.error == OversizeString && EncodeSample(x).Err?)
    ensures EncodeSample(x).Err? && |old(p.pb.Contents())| + 2 <= MaxPackSize ==> r == Fail(OversizeString)
    ensures old(p.pb.Contents()) <= p.pb.Contents()
  {
    ghost var before := p.pb.Contents();
    r := MarshalHead(p, x.id, x.name);
    if r.Fail? {
      return;
    }
    r := MarshalContainer(p, U8Codec(), x.data);
    if r.Pass? {
      ghost var a, b, c := ToBytes16(x.id), EncodeString(x.name).value, EncodeData(x.data);
      AppendAssoc(before + a, b, c);
      AppendAssoc(before, a, b + c);
      AppendAssoc(a, b, c);
    }
  }

  /** The fields before the data: p << id << name. */
  method MarshalHead(p: Pack, id: u16, name: seq<byte>) returns (r: Outcome)
    requires p.Valid()
    modifies p.pb.Repr
    ensures p.Valid() && fresh(p.pb.Repr - old(p.pb.Repr))
    ensures r.Pass? <==> |name| <= 0xFFFF && |old(p.pb.Contents())| + 4 + |name| <= MaxPackSize
    ensures r.Pass? ==> p.pb.Contents() == old(p.pb.Contents()) + ToBytes16(id) + EncodeString(name).value
    ensures r.Fail? ==> r.error == if |name| > 0xFFFF && |old(p.pb.Contents())| + 2 <= MaxPackSize
                                   then OversizeString else CapacityExceeded
    ensures old(p.pb.Contents()) <= p.pb.Contents()
  {
    r := p.PushU16(id);
    if r.Fail? {
      return;
    }
    r := p.PushString(name);
  }

  /** Sample::unmarshal into the object `into`. */
  method UnmarshalSample(up: Unpack, into: Sample) returns (r: Result<Sample>)
    requires up.Valid()
    modifies up
    ensures up.Valid() && up.input == old(up.input)
    ensures r.Ok? <==> DecodeSample(into, old(up.Remaining())).Ok?
    ensures r.Err? ==> r.error == ShortRead
    ensures r.Ok? ==> r.value == DecodeSample(into, old(up.Remaining())).value.0
    ensures r.Ok? ==> up.Remaining() == DecodeSample(into, old(up.Remaining())).value.1
  {
    U8Sound();
    ghost var s0 := up.Remaining();
    var id :- up.PopU16(false);
    ghost var s1 := up.Remaining();
    assert DecodeU16(s0) == Ok((id, s1));
    var name :- up.PopString();
    ghost var s2 := up.Remaining();
    assert DecodeString(s1) == Ok((name, s2));
    var data := GetVector(up, U8Codec(), into.data);
    if data.Err? {
      SampleDecodeError(into, s0);
      return Err(data.error);
    }
    r := Ok(Sample(id, name, data.value));
  }

  /** Bytes fail to decode only when the input runs out. */
  lemma {:induction false} BytesDecodeError(k: nat, s: seq<byte>)
    requires DecodeElements(U8Codec(), k, s).Err?
    ensures DecodeElements(U8Codec(), k, s).error == ShortRead
  {
    if DecodeU8(s).Ok? {
      BytesDecodeError(k - 1, DecodeU8(s).value.1);
    }
  }

  /** The only way unmarshal fails is a read past the end of the input. */
  lemma SampleDecodeError(into: Sample, s: seq<byte>)
    requires DecodeSample(into, s).Err?
    ensures DecodeSample(into, s).error == ShortRead
  {
    if DecodeU16(s).Ok? {
      var t := DecodeU16(s).value.1;
      if DecodeString(t).Ok? {
        var u := DecodeString(t).value.1;
        if DecodeU32(u).Ok? {
          BytesDecodeError(DecodeU32(u).value.0, DecodeU32(u).value.1);
        }
      }
    }
  }

  // ---------------------------------------------------------------------------
  // Object2String / String2Object

  /** Object2String: marshal into a fresh pack buffer and copy out what was
      written. The only failures are a name too long for its prefix and a
      record too big for the buffer. */
  method Object2String(x: Sample) returns (r: Result<seq<byte>>)
    ensures r.Ok? <==> EncodeSample(x).Ok? && |EncodeSample(x).value| <= MaxPackSize
    ensures r.Ok? ==> r.value == EncodeSample(x).value
    ensures r.Err? ==> r.error == if EncodeSample(x).Err? then OversizeString else CapacityExceeded
  {
    var pb := new PackBuffer();
    var made := Pack.Open(pb, 0);
    var p := made.value;
    var o := MarshalSample(p, x);
    if o.Fail? {
      return Err(o.error);
    }
    var d := p.Data();
    r := Ok(d);
  }

  /** String2Object: unmarshal from the string, true unless a read came up
      short. It never calls finish, so bytes after the record are ignored.
      After a failure the source's object keeps whatever fields were read
      before the short read; obj is not specified then. */
  method String2Object(str: seq<byte>, into: Sample) returns (ok: bool, obj: Sample)
    ensures ok <==> DecodeSample(into, str).Ok?
    ensures ok ==> obj == DecodeSample(into, str).value.0
  {
    var up := new Unpack(str);
    var r := UnmarshalSample(up, into);
    ok := r.Ok?;
    obj := if r.Ok? then r.value else into;
  }

  /** What Object2String produced, with anything at all after it, is read
      back by String2Object into a fresh object as the record itself. The
      trailing bytes are what is left unread: a finish after the record
      passes exactly when there are none. */
  lemma ObjectStringRoundTrip(x: Sample, trailing: seq<byte>)
    requires EncodeSample(x).Ok? && |EncodeSample(x).value| <= MaxPackSize
    ensures DecodeSample(Sample(0, [], []), EncodeSample(x).value + trailing).Ok?
    ensures DecodeSample(Sample(0, [], []), EncodeSample(x).value + trailing).value.0 == x
    ensures DecodeSample(Sample(0, [], []), EncodeSample(x).value + trailing).value.1 == trailing
  {
    SampleDecodeInto(Sample(0, [], []), x, trailing);
    assert [] + x.data == x.data;
  }
}
