/** The operator<< / operator>> overloads of dspacket.h and the container
    loops marshal_container and unmarshal_container. Each operator is proved
    against the pure encoder or decoder of module Codec. A value of any other
    type is written and read through its Codec (PutValue, GetValue). */
module Streams {
  import opened Errors
  import opened Wire
  import opened Codec
  import opened Packet

  // ---------------------------------------------------------------------------
  // operator<<

  /** bool: byte 1 or 0. */
  method PutBool(p: Pack, b: bool) returns (r: Outcome)
    requires p.Valid()
    modifies p.pb.Repr
    ensures p.Valid() && fresh(p.pb.Repr - old(p.pb.Repr))
    ensures r.Pass? <==> |old(p.pb.Contents())| + 1 <= MaxPackSize
    ensures r.Fail? ==> r.error == CapacityExceeded
    ensures p.pb.Contents() == if r.Pass? then old(p.pb.Contents()) + EncodeBool(b) else old(p.pb.Contents())
  {
    r := p.PushU8(if b then 1 else 0);
  }

  /** int8_t .. int64_t: the two's-complement bit pattern as the unsigned type. */
  method PutI8(p: Pack, i: i8) returns (r: Outcome)
    requires p.Valid()
    modifies p.pb.Repr
    ensures p.Valid() && fresh(p.pb.Repr - old(p.pb.Repr))
    ensures r.Pass? <==> |old(p.pb.Contents())| + 1 <= MaxPackSize
    ensures p.pb.Contents() == if r.Pass? then old(p.pb.Contents()) + I8Codec().enc(i).value else old(p.pb.Contents())
  {
    r := p.PushU8(Bits8(i));
  }

  method PutI16(p: Pack, i: i16) returns (r: Outcome)
    requires p.Valid()
    modifies p.pb.Repr
    ensures p.Valid() && fresh(p.pb.Repr - old(p.pb.Repr))
    ensures r.Pass? <==> |old(p.pb.Contents())| + 2 <= MaxPackSize
    ensures p.pb.Contents() == if r.Pass? then old(p.pb.Contents()) + I16Codec().enc(i).value else old(p.pb.Contents())
  {
    r := p.PushU16(Bits16(i));
  }

  method PutI32(p: Pack, i: i32) returns (r: Outcome)
    requires p.Valid()
    modifies p.pb.Repr
    ensures p.Valid() && fresh(p.pb.Repr - old(p.pb.Repr))
    ensures r.Pass? <==> |old(p.pb.Contents())| + 4 <= MaxPackSize
    ensures p.pb.Contents() == if r.Pass? then old(p.pb.Contents()) + I32Codec().enc(i).value else old(p.pb.Contents())
  {
    r := p.PushU32(Bits32(i));
  }

  method PutI64(p: Pack, i: i64) returns (r: Outcome)
    requires p.Valid()
    modifies p.pb.Repr
    ensures p.Valid() && fresh(p.pb.Repr - old(p.pb.Repr))
    ensures r.Pass? <==> |old(p.pb.Contents())| + 8 <= MaxPackSize
    ensures p.pb.Contents() == if r.Pass? then old(p.pb.Contents()) + I64Codec().enc(i).value else old(p.pb.Contents())
  {
    r := p.PushU64(Bits64(i));
  }

  /** p << x for an x of any type: its encoding, or its encoder's error. */
  method PutValue<T(!new)>(p: Pack, c: Codec<T>, x: T) returns (r: Outcome)
    requires p.Valid()
    modifies p.pb.Repr
    ensures p.Valid() && fresh(p.pb.Repr - old(p.pb.Repr))
    ensures r.Pass? <==> c.enc(x).Ok? && |old(p.pb.Contents())| + |c.enc(x).value| <= MaxPackSize
    ensures r.Fail? ==> r.error == if c.enc(x).Err? then c.enc(x).error else CapacityExceeded
    ensures p.pb.Contents() == if r.Pass? then old(p.pb.Contents()) + c.enc(x).value else old(p.pb.Contents())
  {
    var e := c.enc(x);
    if e.Err? {
      return Fail(e.error);
    }
    r := p.Push(e.value);
  }

  /** marshal_container: the count as uint32_t, then each element in order.
      A failure part way leaves what was written so far. */
  method MarshalContainer<T(!new)>(p: Pack, c: Codec<T>, xs: seq<T>) returns (r: Outcome)
    requires p.Valid()
    modifies p.pb.Repr
    ensures p.Valid() && fresh(p.pb.Repr - old(p.pb.Repr))
    ensures r.Pass? ==> EncodeContainer(c, xs).Ok? &&
                        p.pb.Contents() == old(p.pb.Contents()) + EncodeContainer(c, xs).value
    ensures EncodeContainer(c, xs).Ok? && |old(p.pb.Contents())| + |EncodeContainer(c, xs).value| <= MaxPackSize
            ==> r.Pass?
    ensures r.Fail? && EncodeContainer(c, xs).Ok? ==> r.error == CapacityExceeded
    ensures old(p.pb.Contents()) <= p.pb.Contents()
  {
    ghost var before := p.pb.Contents();
    r := p.PushU32(|xs| % 0x1_0000_0000);
    if r.Fail? {
      return;
    }
    r := PutElements(p, c, xs);
    if r.Pass? {
      AppendAssoc(before, ToBytes32(|xs| % 0x1_0000_0000), EncodeElements(c, xs).value);
    }
  }

  /** The loop of marshal_container: p << x for each element x in turn. */
  method PutElements<T(!new)>(p: Pack, c: Codec<T>, xs: seq<T>) returns (r: Outcome)
    requires p.Valid()
    modifies p.pb.Repr
    ensures p.Valid() && fresh(p.pb.Repr - old(p.pb.Repr))
    ensures r.Pass? ==> EncodeElements(c, xs).Ok? &&
                        p.pb.Contents() == old(p.pb.Contents()) + EncodeElements(c, xs).value
    ensures EncodeElements(c, xs).Ok? && |old(p.pb.Contents())| + |EncodeElements(c, xs).value| <= MaxPackSize
            ==> r.Pass?
    ensures r.Fail? && EncodeElements(c, xs).Ok? ==> r.error == CapacityExceeded
    ensures old(p.pb.Contents()) <= p.pb.Contents()
  {
    ghost var before := p.pb.Contents();
    r := Pass;
    var i := 0;
    while i < |xs|
      invariant 0 <= i <= |xs|
      invariant p.Valid() && fresh(p.pb.Repr - old(p.pb.Repr))
      invariant EncodeElements(c, xs[..i]).Ok?
      invariant p.pb.Contents() == before + EncodeElements(c, xs[..i]).value
      invariant r.Pass?
    {
      ghost var done := EncodeElements(c, xs[..i]).value;
      var e := PutValue(p, c, xs[i]);
      if e.Fail? {
        ElementFails(c, xs, i, |before|);
        return e;
      }
      ElementsSnoc(c, xs, i);
      AppendAssoc(before, done, c.enc(xs[i]).value);
      i := i + 1;
    }
    assert xs[..i] == xs;
  }

  lemma AppendAssoc(a: seq<byte>, b: seq<byte>, c: seq<byte>)
    ensures (a + b) + c == a + (b + c)
  {
  }

  /** When element i cannot be written after those before it, the whole run
      could not have been: either that element has no encoding or the run is
      longer than the room left. */
  lemma ElementFails<T(!new)>(c: Codec<T>, xs: seq<T>, i: nat, used: nat)
    requires i < |xs| && EncodeElements(c, xs[..i]).Ok?
    requires c.enc(xs[i]).Ok? ==>
               used + |EncodeElements(c, xs[..i]).value| + |c.enc(xs[i]).value| > MaxPackSize
    ensures EncodeElements(c, xs).Ok? ==> c.enc(xs[i]).Ok?
    ensures !(EncodeElements(c, xs).Ok? && used + |EncodeElements(c, xs).value| <= MaxPackSize)
  {
    if EncodeElements(c, xs).Ok? {
      ElementsPrefix(c, xs, i);
    }
  }

  // ---------------------------------------------------------------------------
  // operator>>

  /** bool: any non-zero byte is true. */
  method GetBool(up: Unpack) returns (r: Result<bool>)
    requires up.Valid()
    modifies up
    ensures up.Valid() && up.input == old(up.input)
    ensures r == (match DecodeBool(old(up.Remaining())) case Ok((b, _)) => Ok(b) case Err(e) => Err(e))
    ensures up.Remaining() == if r.Ok? then DecodeBool(old(up.Remaining())).value.1 else old(up.Remaining())
  {
    var u :- up.PopU8(false);
    r := Ok(u != 0);
  }

  method GetI8(up: Unpack) returns (r: Result<i8>)
    requires up.Valid()
    modifies up
    ensures up.Valid() && up.input == old(up.input)
    ensures r == (match DecodeI8(old(up.Remaining())) case Ok((i, _)) => Ok(i) case Err(e) => Err(e))
    ensures up.Remaining() == if r.Ok? then DecodeI8(old(up.Remaining())).value.1 else old(up.Remaining())
  {
    var u :- up.PopU8(false);
    r := Ok(Signed8(u));
  }

  method GetI16(up: Unpack) returns (r: Result<i16>)
    requires up.Valid()
    modifies up
    ensures up.Valid() && up.input == old(up.input)
    ensures r == (match DecodeI16(old(up.Remaining())) case Ok((i, _)) => Ok(i) case Err(e) => Err(e))
    ensures up.Remaining() == if r.Ok? then DecodeI16(old(up.Remaining())).value.1 else old(up.Remaining())
  {
    var u :- up.PopU16(false);
    r := Ok(Signed16(u));
  }

  method GetI32(up: Unpack) returns (r: Result<i32>)
    requires up.Valid()
    modifies up
    ensures up.Valid() && up.input == old(up.input)
    ensures r == (match DecodeI32(old(up.Remaining())) case Ok((i, _)) => Ok(i) case Err(e) => Err(e))
    ensures up.Remaining() == if r.Ok? then DecodeI32(old(up.Remaining())).value.1 else old(up.Remaining())
  {
    var u :- up.PopU32(false);
    r := Ok(Signed32(u));
  }

  method GetI64(up: Unpack) returns (r: Result<i64>)
    requires up.Valid()
    modifies up
    ensures up.Valid() && up.input == old(up.input)
    ensures r == (match DecodeI64(old(up.Remaining())) case Ok((i, _)) => Ok(i) case Err(e) => Err(e))
    ensures up.Remaining() == if r.Ok? then DecodeI64(old(up.Remaining())).value.1 else old(up.Remaining())
  {
    var u :- up.PopU64(false);
    r := Ok(Signed64(u));
  }

  /** up >> x for an x of any type: decode from what is left and move past
      the bytes the decoder used. */
  method GetValue<T(!new)>(up: Unpack, c: Codec<T>) returns (r: Result<T>)
    requires up.Valid() && Advances(c)
    modifies up
    ensures up.Valid() && up.input == old(up.input)
    ensures r.Ok? <==> c.dec(old(up.Remaining())).Ok?
    ensures r.Err? ==> r.error == c.dec(old(up.Remaining())).error
    ensures r.Ok? ==> r.value == c.dec(old(up.Remaining())).value.0
    ensures r.Ok? ==> up.Remaining() == c.dec(old(up.Remaining())).value.1
    ensures IsSuffix(up.Remaining(), old(up.Remaining()))
  {
    var s := up.Remaining();
    var d := c.dec(s);
    if d.Err? {
      return Err(d.error);
    }
    var t := d.value.1;
    var used := |s| - |t|;
    var _ := up.PopFetchPtr(used, false);
    r := Ok(d.value.0);
  }

  /** The decoded elements, placed after those decoded before. */
  function Then<T>(got: seq<T>, d: Result<(seq<T>, seq<byte>)>): Result<(seq<T>, seq<byte>)> {
    match d
    case Err(e) => Err(e)
    case Ok((xs, t)) => Ok((got + xs, t))
  }

  lemma ThenAppend<T>(got: seq<T>, x: T, d: Result<(seq<T>, seq<byte>)>)
    ensures Then(got, Then([x], d)) == Then(got + [x], d)
  {
    if d.Ok? {
      assert got + ([x] + d.value.0) == got + [x] + d.value.0;
    }
  }

  lemma ThenNothing<T>(d: Result<(seq<T>, seq<byte>)>)
    ensures Then([], d) == d
  {
    if d.Ok? {
      assert [] + d.value.0 == d.value.0;
    }
  }

  lemma ThenNone<T(!new)>(c: Codec<T>, got: seq<T>, s: seq<byte>)
    ensures Then(got, DecodeElements(c, 0, s)) == Ok((got, s))
  {
    assert got + [] == got;
  }

  /** Decoding k > 0 elements fails with the first element's error. */
  lemma DecodeElementsFails<T(!new)>(c: Codec<T>, k: nat, s: seq<byte>)
    requires k > 0 && c.dec(s).Err?
    ensures DecodeElements(c, k, s) == Err(c.dec(s).error)
  {
  }

  /** Decoding k elements is decoding one and then k - 1 more. */
  lemma DecodeElementsStep<T(!new)>(c: Codec<T>, k: nat, s: seq<byte>)
    requires k > 0 && c.dec(s).Ok?
    ensures DecodeElements(c, k, s) == Then([c.dec(s).value.0], DecodeElements(c, k - 1, c.dec(s).value.1))
  {
  }

  /** unmarshal_container's loop: count elements, counting down. */
  method GetElements<T(!new)>(up: Unpack, c: Codec<T>, count: nat) returns (r: Result<seq<T>>)
    requires up.Valid() && Advances(c)
    modifies up
    ensures up.Valid() && up.input == old(up.input)
    ensures r.Ok? <==> DecodeElements(c, count, old(up.Remaining())).Ok?
    ensures r.Err? ==> r.error == DecodeElements(c, count, old(up.Remaining())).error
    ensures r.Ok? ==> r.value == DecodeElements(c, count, old(up.Remaining())).value.0
    ensures r.Ok? ==> up.Remaining() == DecodeElements(c, count, old(up.Remaining())).value.1
  {
    ghost var start := up.Remaining();
    var got: seq<T> := [];
    var k := count;
    ThenNothing(DecodeElements(c, count, start));
    while k > 0
      invariant up.Valid() && up.input == old(up.input)
      invariant DecodeElements(c, count, start) == Then(got, DecodeElements(c, k, up.Remaining()))
      decreases k
    {
      ghost var here := up.Remaining();
      var x := GetValue(up, c);
      if x.Err? {
        DecodeElementsFails(c, k, here);
        return Err(x.error);
      }
      DecodeElementsStep(c, k, here);
      ThenAppend(got, x.value, DecodeElements(c, k - 1, up.Remaining()));
      got := got + [x.value];
      k := k - 1;
    }
    ThenNone(c, got, up.Remaining());
    r := Ok(got);
  }

  /** operator>> for std::vector: the count, then the elements appended after
      what the vector holds. */
  method GetVector<T(!new)>(up: Unpack, c: Codec<T>, into: seq<T>) returns (r: Result<seq<T>>)
    requires up.Valid() && Advances(c)
    modifies up
    ensures up.Valid() && up.input == old(up.input)
    ensures r.Ok? <==> DecodeVector(c, into, old(up.Remaining())).Ok?
    ensures r.Err? ==> r.error == DecodeVector(c, into, old(up.Remaining())).error
    ensures r.Ok? ==> r.value == DecodeVector(c, into, old(up.Remaining())).value.0
    ensures r.Ok? ==> up.Remaining() == DecodeVector(c, into, old(up.Remaining())).value.1
  {
    var n :- up.PopU32(false);
    var xs :- GetElements(up, c, n);
    r := Ok(into + xs);
  }

  /** operator>> for std::set: each element inserted; duplicates collapse. */
  method GetSet<T(==, !new)>(up: Unpack, c: Codec<T>, into: set<T>) returns (r: Result<set<T>>)
    requires up.Valid() && Advances(c)
    modifies up
    ensures up.Valid() && up.input == old(up.input)
    ensures r.Ok? <==> DecodeSet(c, into, old(up.Remaining())).Ok?
    ensures r.Err? ==> r.error == DecodeSet(c, into, old(up.Remaining())).error
    ensures r.Ok? ==> r.value == DecodeSet(c, into, old(up.Remaining())).value.0
    ensures r.Ok? ==> up.Remaining() == DecodeSet(c, into, old(up.Remaining())).value.1
  {
    var n :- up.PopU32(false);
    var xs :- GetElements(up, c, n);
    r := Ok(into + (set x | x in xs));
  }

  /** operator>> for std::map: key-value pairs, each inserted unless its key
      is already present. */
  method GetMap<K(==, !new), V(!new)>(up: Unpack, ck: Codec<K>, cv: Codec<V>, into: map<K, V>)
    returns (r: Result<map<K, V>>)
    requires up.Valid() && Advances(ck) && Advances(cv)
    modifies up
    ensures up.Valid() && up.input == old(up.input)
    ensures r.Ok? <==> DecodeMap(ck, cv, into, old(up.Remaining())).Ok?
    ensures r.Err? ==> r.error == DecodeMap(ck, cv, into, old(up.Remaining())).error
    ensures r.Ok? ==> r.value == DecodeMap(ck, cv, into, old(up.Remaining())).value.0
    ensures r.Ok? ==> up.Remaining() == DecodeMap(ck, cv, into, old(up.Remaining())).value.1
  {
    PairAdvances(ck, cv);
    var n :- up.PopU32(false);
    var ps :- GetElements(up, PairCodec(ck, cv), n);
    r := Ok(InsertAll(into, ps));
  }
}
