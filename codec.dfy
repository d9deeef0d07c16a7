/** The wire format of the operator<< / operator>> overloads of dspacket.h, as
    pure functions: each encoder gives the bytes a DSPack appends for a value,
    each decoder reads a value off the front of the bytes a DSUnpack has left
    and returns it with what remains.

    The overloads for containers and pairs are generic in the element type;
    here an element type is represented by a Codec, a pair of an encoder and
    a decoder, and the containers are functions of the element's Codec. */
module Codec {
  import opened Errors
  import opened Wire

  /** The capacity of DSPackBuffer: 262144 blocks of 4 KiB. Every encoding is
      written into one, so no encoding longer than this is ever produced. */
  const MaxPackSize: nat := 0x4000_0000

  /** How one type goes onto the wire and comes back off it. */
  datatype Codec<!T> = Codec(enc: T -> Result<seq<byte>>, dec: seq<byte> -> Result<(T, seq<byte>)>)

  /** Decoding what was encoded gives the value back and leaves exactly the
      bytes that followed, for every value whose encoding fits a pack buffer. */
  ghost predicate RoundTrips<T(!new)>(c: Codec<T>) {
    forall x, rest ::
      c.enc(x).Ok? && |c.enc(x).value| <= MaxPackSize ==> c.dec(c.enc(x).value + rest) == Ok((x, rest))
  }

  /** A decoder only moves forward: what it leaves is a suffix of its input. */
  ghost predicate Advances<T(!new)>(c: Codec<T>) {
    forall s :: c.dec(s).Ok? ==> IsSuffix(c.dec(s).value.1, s)
  }

  /** Every encoding takes at least one byte. */
  ghost predicate NonEmpty<T(!new)>(c: Codec<T>) {
    forall x :: c.enc(x).Ok? ==> |c.enc(x).value| > 0
  }

  /** The three properties every codec of the wire format has. */
  ghost predicate Sound<T(!new)>(c: Codec<T>) {
    RoundTrips(c) && Advances(c) && NonEmpty(c)
  }

  predicate IsSuffix(r: seq<byte>, s: seq<byte>) {
    |r| <= |s| && r == s[|s| - |r|..]
  }

  lemma SuffixTransitive(a: seq<byte>, b: seq<byte>, c: seq<byte>)
    requires IsSuffix(a, b) && IsSuffix(b, c)
    ensures IsSuffix(a, c)
  {
    assert c[|c| - |b|..][|b| - |a|..] == c[|c| - |a|..];
  }

  // ---------------------------------------------------------------------------
  // Fixed-width unsigned integers: pop_uint8/16/32/64.

  function DecodeU8(s: seq<byte>): (r: Result<(byte, seq<byte>)>)
    ensures r.Err? <==> |s| < 1
    ensures r.Err? ==> r.error == ShortRead
    ensures r.Ok? ==> s == [r.value.0] + r.value.1
  {
    if |s| < 1 then Err(ShortRead) else Ok((s[0], s[1..]))
  }

  function DecodeU16(s: seq<byte>): (r: Result<(u16, seq<byte>)>)
    ensures r.Err? <==> |s| < 2
    ensures r.Err? ==> r.error == ShortRead
    ensures r.Ok? ==> s == ToBytes16(r.value.0) + r.value.1
  {
    if |s| < 2 then Err(ShortRead)
    else
      ToFromBytes16(s);
      assert s == s[..2] + s[2..];
      Ok((FromBytes16(s), s[2..]))
  }

  function DecodeU32(s: seq<byte>): (r: Result<(u32, seq<byte>)>)
    ensures r.Err? <==> |s| < 4
    ensures r.Err? ==> r.error == ShortRead
    ensures r.Ok? ==> s == ToBytes32(r.value.0) + r.value.1
  {
    if |s| < 4 then Err(ShortRead)
    else
      ToFromBytes32(s);
      assert s == s[..4] + s[4..];
      Ok((FromBytes32(s), s[4..]))
  }

  function DecodeU64(s: seq<byte>): (r: Result<(u64, seq<byte>)>)
    ensures r.Err? <==> |s| < 8
    ensures r.Err? ==> r.error == ShortRead
    ensures r.Ok? ==> s == ToBytes64(r.value.0) + r.value.1
  {
    if |s| < 8 then Err(ShortRead)
    else
      ToFromBytes64(s);
      assert s == s[..8] + s[8..];
      Ok((FromBytes64(s), s[8..]))
  }

  function U8Codec(): Codec<byte> {
    Codec(v => Ok([v]), DecodeU8)
  }

  function U16Codec(): Codec<u16> {
    Codec(v => Ok(ToBytes16(v)), DecodeU16)
  }

  function U32Codec(): Codec<u32> {
    Codec(v => Ok(ToBytes32(v)), DecodeU32)
  }

  function U64Codec(): Codec<u64> {
    Codec(v => Ok(ToBytes64(v)), DecodeU64)
  }

  lemma U8Sound()
    ensures Sound(U8Codec())
  {
    var c := U8Codec();
    forall x, rest | c.enc(x).Ok? && |c.enc(x).value| <= MaxPackSize
      ensures c.dec(c.enc(x).value + rest) == Ok((x, rest))
    {
      assert ([x] + rest)[1..] == rest;
    }
  }

  lemma U16Sound()
    ensures Sound(U16Codec())
  {
    var c := U16Codec();
    forall x: u16, rest: seq<byte> | c.enc(x).Ok? && |c.enc(x).value| <= MaxPackSize
      ensures c.dec(c.enc(x).value + rest) == Ok((x, rest))
    {
      FromToBytes16(x, rest);
      assert (ToBytes16(x) + rest)[2..] == rest;
    }
  }

  lemma U32Sound()
    ensures Sound(U32Codec())
  {
    var c := U32Codec();
    forall x: u32, rest: seq<byte> | c.enc(x).Ok? && |c.enc(x).value| <= MaxPackSize
      ensures c.dec(c.enc(x).value + rest) == Ok((x, rest))
    {
      FromToBytes32(x, rest);
      assert (ToBytes32(x) + rest)[4..] == rest;
    }
  }

  lemma U64Sound()
    ensures Sound(U64Codec())
  {
    var c := U64Codec();
    forall x: u64, rest: seq<byte> | c.enc(x).Ok? && |c.enc(x).value| <= MaxPackSize
      ensures c.dec(c.enc(x).value + rest) == Ok((x, rest))
    {
      FromToBytes64(x, rest);
      assert (ToBytes64(x) + rest)[8..] == rest;
    }
  }

  // ---------------------------------------------------------------------------
  // bool: one byte, 1 or 0 on the way out, anything non-zero is true on the way in.

  function EncodeBool(b: bool): seq<byte> {
    [if b then 1 else 0]
  }

  function DecodeBool(s: seq<byte>): (r: Result<(bool, seq<byte>)>)
    ensures r.Err? <==> |s| < 1
    ensures r.Ok? ==> r.value == (s[0] != 0, s[1..])
  {
    match DecodeU8(s)
    case Err(e) => Err(e)
    case Ok((u, t)) => Ok((u != 0, t))
  }

  function BoolCodec(): Codec<bool> {
    Codec(b => Ok(EncodeBool(b)), DecodeBool)
  }

  lemma BoolSound()
    ensures Sound(BoolCodec())
  {
    var c := BoolCodec();
    forall x, rest | c.enc(x).Ok? && |c.enc(x).value| <= MaxPackSize
      ensures c.dec(c.enc(x).value + rest) == Ok((x, rest))
    {
      assert (EncodeBool(x) + rest)[1..] == rest;
    }
  }

  // ---------------------------------------------------------------------------
  // Signed integers travel as their two's-complement bit pattern: the C casts
  // (uintN_t)iN on the way out and (intN_t)uN on the way in.

  type i8 = x: int | -0x80 <= x < 0x80
  type i16 = x: int | -0x8000 <= x < 0x8000
  type i32 = x: int | -0x8000_0000 <= x < 0x8000_0000
  type i64 = x: int | -0x8000_0000_0000_0000 <= x < 0x8000_0000_0000_0000

  function Signed8(b: byte): i8 {
    if b < 0x80 then b else b - 0x100
  }

  function Signed16(u: u16): i16 {
    if u < 0x8000 then u else u - 0x1_0000
  }

  function Signed32(u: u32): i32 {
    if u < 0x8000_0000 then u else u - 0x1_0000_0000
  }

  function Signed64(u: u64): i64 {
    if u < 0x8000_0000_0000_0000 then u else u - 0x1_0000_0000_0000_0000
  }

  /** (uint8_t)i: the cast back, (int8_t), recovers i; non-negative values keep their value. */
  function Bits8(i: i8): (b: byte)
    ensures Signed8(b) == i
    ensures 0 <= i ==> b == i
  {
    if i < 0 then i + 0x100 else i
  }

  function Bits16(i: i16): (u: u16)
    ensures Signed16(u) == i
    ensures 0 <= i ==> u == i
  {
    if i < 0 then i + 0x1_0000 else i
  }

  function Bits32(i: i32): (u: u32)
    ensures Signed32(u) == i
    ensures 0 <= i ==> u == i
  {
    if i < 0 then i + 0x1_0000_0000 else i
  }

  function Bits64(i: i64): (u: u64)
    ensures Signed64(u) == i
    ensures 0 <= i ==> u == i
  {
    if i < 0 then i + 0x1_0000_0000_0000_0000 else i
  }

  /** Every bit pattern is the pattern of exactly one signed value. */
  lemma BitsSigned(b: byte, u16: u16, u32: u32, u64: u64)
    ensures Bits8(Signed8(b)) == b && Bits16(Signed16(u16)) == u16
    ensures Bits32(Signed32(u32)) == u32 && Bits64(Signed64(u64)) == u64
  {
  }

  function DecodeI8(s: seq<byte>): (r: Result<(i8, seq<byte>)>)
    ensures r.Err? <==> |s| < 1
    ensures r.Ok? ==> s == [Bits8(r.value.0)] + r.value.1
  {
    match DecodeU8(s)
    case Err(e) => Err(e)
    case Ok((u, t)) => Ok((Signed8(u), t))
  }

  function DecodeI16(s: seq<byte>): (r: Result<(i16, seq<byte>)>)
    ensures r.Err? <==> |s| < 2
    ensures r.Ok? ==> s == ToBytes16(Bits16(r.value.0)) + r.value.1
  {
    match DecodeU16(s)
    case Err(e) => Err(e)
    case Ok((u, t)) => Ok((Signed16(u), t))
  }

  function DecodeI32(s: seq<byte>): (r: Result<(i32, seq<byte>)>)
    ensures r.Err? <==> |s| < 4
    ensures r.Ok? ==> s == ToBytes32(Bits32(r.value.0)) + r.value.1
  {
    match DecodeU32(s)
    case Err(e) => Err(e)
    case Ok((u, t)) => Ok((Signed32(u), t))
  }

  function DecodeI64(s: seq<byte>): (r: Result<(i64, seq<byte>)>)
    ensures r.Err? <==> |s| < 8
    ensures r.Ok? ==> s == ToBytes64(Bits64(r.value.0)) + r.value.1
  {
    match DecodeU64(s)
    case Err(e) => Err(e)
    case Ok((u, t)) => Ok((Signed64(u), t))
  }

  function I8Codec(): Codec<i8> {
    Codec(i => Ok([Bits8(i)]), DecodeI8)
  }

  function I16Codec(): Codec<i16> {
    Codec(i => Ok(ToBytes16(Bits16(i))), DecodeI16)
  }

  function I32Codec(): Codec<i32> {
    Codec(i => Ok(ToBytes32(Bits32(i))), DecodeI32)
  }

  function I64Codec(): Codec<i64> {
    Codec(i => Ok(ToBytes64(Bits64(i))), DecodeI64)
  }

  lemma SignedSound()
    ensures Sound(I8Codec()) && Sound(I16Codec()) && Sound(I32Codec()) && Sound(I64Codec())
  {
    U8Sound();
    U16Sound();
    U32Sound();
    U64Sound();
    forall x: i8, rest: seq<byte> ensures I8Codec().dec(I8Codec().enc(x).value + rest) == Ok((x, rest)) {
      assert U8Codec().dec(U8Codec().enc(Bits8(x)).value + rest) == Ok((Bits8(x), rest));
    }
    forall x: i16, rest: seq<byte> ensures I16Codec().dec(I16Codec().enc(x).value + rest) == Ok((x, rest)) {
      assert U16Codec().dec(U16Codec().enc(Bits16(x)).value + rest) == Ok((Bits16(x), rest));
    }
    forall x: i32, rest: seq<byte> ensures I32Codec().dec(I32Codec().enc(x).value + rest) == Ok((x, rest)) {
      assert U32Codec().dec(U32Codec().enc(Bits32(x)).value + rest) == Ok((Bits32(x), rest));
    }
    forall x: i64, rest: seq<byte> ensures I64Codec().dec(I64Codec().enc(x).value + rest) == Ok((x, rest)) {
      assert U64Codec().dec(U64Codec().enc(Bits64(x)).value + rest) == Ok((Bits64(x), rest));
    }
  }

  // ---------------------------------------------------------------------------
  // Strings: push_string / pop_string (16-bit length) and push_string32 /
  // pop_string32 (32-bit length), raw bytes after the length.

  function EncodeString(s: seq<byte>): (r: Result<seq<byte>>)
    ensures r.Err? <==> |s| > 0xFFFF
    ensures r.Err? ==> r.error == OversizeString
    ensures r.Ok? ==> |r.value| == 2 + |s| && r.value[2..] == s
  {
    if |s| > 0xFFFF then Err(OversizeString) else Ok(ToBytes16(|s|) + s)
  }

  function EncodeString32(s: seq<byte>): (r: Result<seq<byte>>)
    ensures r.Err? <==> |s| > 0xFFFF_FFFF
    ensures r.Err? ==> r.error == OversizeString
    ensures r.Ok? ==> |r.value| == 4 + |s| && r.value[4..] == s
  {
    if |s| > 0xFFFF_FFFF then Err(OversizeString) else Ok(ToBytes32(|s|) + s)
  }

  /** The length, then that many bytes; short when either is missing. */
  function DecodeString(s: seq<byte>): (r: Result<(seq<byte>, seq<byte>)>)
    ensures r.Ok? <==> |s| >= 2 && |s| - 2 >= FromBytes16(s)
    ensures r.Err? ==> r.error == ShortRead
    ensures r.Ok? ==> |r.value.0| <= 0xFFFF
    ensures r.Ok? ==> s == ToBytes16(|r.value.0|) + r.value.0 + r.value.1
  {
    match DecodeU16(s)
    case Err(e) => Err(e)
    case Ok((n, t)) =>
      if |t| < n then Err(ShortRead)
      else
        assert t == t[..n] + t[n..];
        Ok((t[..n], t[n..]))
  }

  function DecodeString32(s: seq<byte>): (r: Result<(seq<byte>, seq<byte>)>)
    ensures r.Ok? <==> |s| >= 4 && |s| - 4 >= FromBytes32(s)
    ensures r.Err? ==> r.error == ShortRead
    ensures r.Ok? ==> |r.value.0| <= 0xFFFF_FFFF
    ensures r.Ok? ==> s == ToBytes32(|r.value.0|) + r.value.0 + r.value.1
  {
    match DecodeU32(s)
    case Err(e) => Err(e)
    case Ok((n, t)) =>
      if |t| < n then Err(ShortRead)
      else
        assert t == t[..n] + t[n..];
        Ok((t[..n], t[n..]))
  }

  function StringCodec(): Codec<seq<byte>> {
    Codec(EncodeString, DecodeString)
  }

  function String32Codec(): Codec<seq<byte>> {
    Codec(EncodeString32, DecodeString32)
  }

  lemma StringSound()
    ensures Sound(StringCodec()) && Sound(String32Codec())
  {
    forall x, rest | EncodeString(x).Ok?
      ensures DecodeString(EncodeString(x).value + rest) == Ok((x, rest))
    {
      var e := EncodeString(x).value + rest;
      FromToBytes16(|x|, x + rest);
      assert e == ToBytes16(|x|) + (x + rest);
      assert e[2..] == x + rest;
      assert (x + rest)[..|x|] == x && (x + rest)[|x|..] == rest;
    }
    forall x, rest | EncodeString32(x).Ok?
      ensures DecodeString32(EncodeString32(x).value + rest) == Ok((x, rest))
    {
      var e := EncodeString32(x).value + rest;
      FromToBytes32(|x|, x + rest);
      assert e == ToBytes32(|x|) + (x + rest);
      assert e[4..] == x + rest;
      assert (x + rest)[..|x|] == x && (x + rest)[|x|..] == rest;
    }
  }

  // ---------------------------------------------------------------------------
  // std::pair: first, then second, no framing.

  function EncodePair<A(!new), B(!new)>(ca: Codec<A>, cb: Codec<B>, p: (A, B)): Result<seq<byte>> {
    match ca.enc(p.0)
    case Err(e) => Err(e)
    case Ok(x) =>
      match cb.enc(p.1)
      case Err(e) => Err(e)
      case Ok(y) => Ok(x + y)
  }

  function DecodePair<A(!new), B(!new)>(ca: Codec<A>, cb: Codec<B>, s: seq<byte>): Result<((A, B), seq<byte>)> {
    match ca.dec(s)
    case Err(e) => Err(e)
    case Ok((a, t)) =>
      match cb.dec(t)
      case Err(e) => Err(e)
      case Ok((b, u)) => Ok(((a, b), u))
  }

  function PairCodec<A(!new), B(!new)>(ca: Codec<A>, cb: Codec<B>): Codec<(A, B)> {
    Codec(p => EncodePair(ca, cb, p), s => DecodePair(ca, cb, s))
  }

  /** The pair decoder moves forward when both of its parts do. */
  lemma PairAdvances<A(!new), B(!new)>(ca: Codec<A>, cb: Codec<B>)
    requires Advances(ca) && Advances(cb)
    ensures Advances(PairCodec(ca, cb))
  {
    var c := PairCodec(ca, cb);
    forall s | c.dec(s).Ok?
      ensures IsSuffix(c.dec(s).value.1, s)
    {
      var t := ca.dec(s).value.1;
      assert IsSuffix(t, s);
      assert IsSuffix(cb.dec(t).value.1, t);
    }
  }

  lemma PairSound<A(!new), B(!new)>(ca: Codec<A>, cb: Codec<B>)
    requires Sound(ca) && Sound(cb)
    ensures Sound(PairCodec(ca, cb))
  {
    var c := PairCodec(ca, cb);
    forall p: (A, B), rest: seq<byte> | c.enc(p).Ok? && |c.enc(p).value| <= MaxPackSize
      ensures c.dec(c.enc(p).value + rest) == Ok((p, rest))
    {
      var x, y := ca.enc(p.0).value, cb.enc(p.1).value;
      assert x + y + rest == x + (y + rest);
      assert ca.dec(x + (y + rest)) == Ok((p.0, y + rest));
      assert cb.dec(y + rest) == Ok((p.1, rest));
    }
    PairAdvances(ca, cb);
  }

  // ---------------------------------------------------------------------------
  // Containers: marshal_container writes uint32_t(c.size()) and then every
  // element in iteration order; unmarshal_container reads the count and then
  // decodes that many elements, inserting each into the output container.

  /** The elements back to back, or the first element's error. */
  function EncodeElements<T(!new)>(c: Codec<T>, xs: seq<T>): Result<seq<byte>> {
    if xs == [] then Ok([])
    else
      match c.enc(xs[0])
      case Err(e) => Err(e)
      case Ok(b) =>
        match EncodeElements(c, xs[1..])
        case Err(e) => Err(e)
        case Ok(bs) => Ok(b + bs)
  }

  /** The count is cast to uint32_t, so it wraps for 2^32 elements or more. */
  function EncodeContainer<T(!new)>(c: Codec<T>, xs: seq<T>): Result<seq<byte>> {
    match EncodeElements(c, xs)
    case Err(e) => Err(e)
    case Ok(b) => Ok(ToBytes32(|xs| % 0x1_0000_0000) + b)
  }

  /** count elements, in the order they come. */
  function DecodeElements<T(!new)>(c: Codec<T>, count: nat, s: seq<byte>): Result<(seq<T>, seq<byte>)> {
    if count == 0 then Ok(([], s))
    else
      match c.dec(s)
      case Err(e) => Err(e)
      case Ok((x, t)) =>
        match DecodeElements(c, count - 1, t)
        case Err(e) => Err(e)
        case Ok((xs, u)) => Ok(([x] + xs, u))
  }

  function DecodeContainer<T(!new)>(c: Codec<T>, s: seq<byte>): Result<(seq<T>, seq<byte>)> {
    match DecodeU32(s)
    case Err(e) => Err(e)
    case Ok((n, t)) => DecodeElements(c, n, t)
  }

  /** operator>> for std::vector: back_inserter appends after what is there. */
  function DecodeVector<T(!new)>(c: Codec<T>, into: seq<T>, s: seq<byte>): Result<(seq<T>, seq<byte>)> {
    match DecodeContainer(c, s)
    case Err(e) => Err(e)
    case Ok((xs, t)) => Ok((into + xs, t))
  }

  /** operator>> for std::set: inserter adds each element; duplicates collapse. */
  function DecodeSet<T(==,!new)>(c: Codec<T>, into: set<T>, s: seq<byte>): Result<(set<T>, seq<byte>)> {
    match DecodeContainer(c, s)
    case Err(e) => Err(e)
    case Ok((xs, t)) => Ok((into + (set x | x in xs), t))
  }

  /** std::map::insert for each pair in turn: a key already present keeps the
      value it has. */
  function InsertAll<K(==,!new), V(!new)>(m: map<K, V>, ps: seq<(K, V)>): map<K, V>
    decreases |ps|
  {
    if ps == [] then m
    else InsertAll(if ps[0].0 in m then m else m[ps[0].0 := ps[0].1], ps[1..])
  }

  /** operator>> for std::map: pairs, key then value, inserted one by one. */
  function DecodeMap<K(==,!new), V(!new)>(ck: Codec<K>, cv: Codec<V>, into: map<K, V>, s: seq<byte>)
    : Result<(map<K, V>, seq<byte>)>
  {
    match DecodeContainer(PairCodec(ck, cv), s)
    case Err(e) => Err(e)
    case Ok((ps, t)) => Ok((InsertAll(into, ps), t))
  }

  /** A vector nested in another value: decoded into an empty vector. */
  function VectorCodec<T(!new)>(c: Codec<T>): Codec<seq<T>> {
    Codec(xs => EncodeContainer(c, xs), s => DecodeVector(c, [], s))
  }

  /** The encoding of two runs of elements is the encoding of the first
      followed by that of the second; it fails exactly when one of them does. */
  lemma {:induction false} ElementsAppend<T(!new)>(c: Codec<T>, xs: seq<T>, ys: seq<T>)
    ensures EncodeElements(c, xs + ys).Ok? <==> EncodeElements(c, xs).Ok? && EncodeElements(c, ys).Ok?
    ensures EncodeElements(c, xs + ys).Ok? ==>
              EncodeElements(c, xs + ys).value == EncodeElements(c, xs).value + EncodeElements(c, ys).value
  {
    if xs == [] {
      assert xs + ys == ys;
    } else {
      assert (xs + ys)[0] == xs[0] && (xs + ys)[1..] == xs[1..] + ys;
      ElementsAppend(c, xs[1..], ys);
      if EncodeElements(c, xs + ys).Ok? {
        var b := c.enc(xs[0]).value;
        assert b + (EncodeElements(c, xs[1..]).value + EncodeElements(c, ys).value)
            == (b + EncodeElements(c, xs[1..]).value) + EncodeElements(c, ys).value;
      }
    }
  }

  /** One more element encodes to the encoding so far followed by its own. */
  lemma ElementsSnoc<T(!new)>(c: Codec<T>, xs: seq<T>, i: nat)
    requires i < |xs| && EncodeElements(c, xs[..i]).Ok? && c.enc(xs[i]).Ok?
    ensures EncodeElements(c, xs[..i + 1]).Ok?
    ensures EncodeElements(c, xs[..i + 1]).value == EncodeElements(c, xs[..i]).value + c.enc(xs[i]).value
  {
    ElementsAppend(c, xs[..i], [xs[i]]);
    assert xs[..i] + [xs[i]] == xs[..i + 1];
    assert [xs[i]][1..] == [];
    assert c.enc(xs[i]).value + [] == c.enc(xs[i]).value;
  }

  /** When all elements encode, so does each one and each run before it, and
      together they take no more bytes than the whole. */
  lemma ElementsPrefix<T(!new)>(c: Codec<T>, xs: seq<T>, i: nat)
    requires i < |xs| && EncodeElements(c, xs).Ok?
    ensures EncodeElements(c, xs[..i]).Ok? && c.enc(xs[i]).Ok?
    ensures |EncodeElements(c, xs[..i]).value| + |c.enc(xs[i]).value| <= |EncodeElements(c, xs).value|
  {
    ElementsAppend(c, xs[..i], xs[i..]);
    assert xs[..i] + xs[i..] == xs;
    assert xs[i..][0] == xs[i];
  }

  /** Each element's encoding takes a byte at least, so there are no more
      elements than bytes. */
  lemma {:induction false} ElementsLength<T(!new)>(c: Codec<T>, xs: seq<T>)
    requires NonEmpty(c) && EncodeElements(c, xs).Ok?
    ensures |xs| <= |EncodeElements(c, xs).value|
  {
    if xs != [] {
      ElementsLength(c, xs[1..]);
    }
  }

  lemma {:induction false} ElementsRoundTrip<T(!new)>(c: Codec<T>, xs: seq<T>, rest: seq<byte>)
    requires RoundTrips(c) && EncodeElements(c, xs).Ok?
    requires |EncodeElements(c, xs).value| <= MaxPackSize
    ensures DecodeElements(c, |xs|, EncodeElements(c, xs).value + rest) == Ok((xs, rest))
  {
    if xs != [] {
      var b, bs := c.enc(xs[0]).value, EncodeElements(c, xs[1..]).value;
      assert |b| <= MaxPackSize && |bs| <= MaxPackSize;
      assert b + bs + rest == b + (bs + rest);
      assert c.dec(b + (bs + rest)) == Ok((xs[0], bs + rest));
      ElementsRoundTrip(c, xs[1..], rest);
      assert EncodeElements(c, xs).value + rest == b + (bs + rest);
      assert DecodeElements(c, |xs| - 1, bs + rest) == Ok((xs[1..], rest));
      assert [xs[0]] + xs[1..] == xs;
    } else {
      assert [] + rest == rest;
    }
  }

  lemma {:induction false} ElementsAdvance<T(!new)>(c: Codec<T>, n: nat, s: seq<byte>)
    requires Advances(c) && DecodeElements(c, n, s).Ok?
    ensures IsSuffix(DecodeElements(c, n, s).value.1, s)
  {
    if n > 0 {
      var t := c.dec(s).value.1;
      assert IsSuffix(t, s);
      ElementsAdvance(c, n - 1, t);
    }
  }

  /** The container's bytes decode to the elements in the order they were
      written, provided the count did not wrap. */
  lemma ContainerRoundTrip<T(!new)>(c: Codec<T>, xs: seq<T>, rest: seq<byte>)
    requires RoundTrips(c) && EncodeContainer(c, xs).Ok?
    requires |EncodeContainer(c, xs).value| <= MaxPackSize
    requires |xs| < 0x1_0000_0000
    ensures DecodeContainer(c, EncodeContainer(c, xs).value + rest) == Ok((xs, rest))
  {
    var b := EncodeElements(c, xs).value;
    assert EncodeContainer(c, xs).value + rest == ToBytes32(|xs|) + (b + rest);
    FromToBytes32(|xs|, b + rest);
    assert (ToBytes32(|xs|) + (b + rest))[4..] == b + rest;
    ElementsRoundTrip(c, xs, rest);
  }

  /** With non-empty elements a container that fits a pack buffer has fewer
      than 2^32 elements, so its count never wraps. */
  lemma ContainerFits<T(!new)>(c: Codec<T>, xs: seq<T>)
    requires NonEmpty(c) && EncodeContainer(c, xs).Ok?
    requires |EncodeContainer(c, xs).value| <= MaxPackSize
    ensures |xs| < 0x1_0000_0000
  {
    ElementsLength(c, xs);
  }

  /** vector: decoded elements follow the ones already in the vector, in order. */
  lemma VectorRoundTrip<T(!new)>(c: Codec<T>, into: seq<T>, xs: seq<T>, rest: seq<byte>)
    requires Sound(c) && EncodeContainer(c, xs).Ok?
    requires |EncodeContainer(c, xs).value| <= MaxPackSize
    ensures DecodeVector(c, into, EncodeContainer(c, xs).value + rest) == Ok((into + xs, rest))
  {
    ContainerFits(c, xs);
    ContainerRoundTrip(c, xs, rest);
  }

  /** set: the set of encoded values is added to the set decoded into. */
  lemma SetRoundTrip<T(!new)>(c: Codec<T>, into: set<T>, xs: seq<T>, rest: seq<byte>)
    requires Sound(c) && EncodeContainer(c, xs).Ok?
    requires |EncodeContainer(c, xs).value| <= MaxPackSize
    ensures DecodeSet(c, into, EncodeContainer(c, xs).value + rest) == Ok((into + (set x | x in xs), rest))
  {
    ContainerFits(c, xs);
    ContainerRoundTrip(c, xs, rest);
  }

  /** Keys already in the map keep their values. */
  lemma {:induction false} InsertAllKeeps<K(!new), V(!new)>(m: map<K, V>, ps: seq<(K, V)>, k: K)
    requires k in m
    ensures k in InsertAll(m, ps) && InsertAll(m, ps)[k] == m[k]
    decreases |ps|
  {
    if ps != [] {
      InsertAllKeeps(if ps[0].0 in m then m else m[ps[0].0 := ps[0].1], ps[1..], k);
    }
  }

  /** A key not in the map takes the value of its first pair. */
  lemma {:induction false} InsertAllFirst<K(!new), V(!new)>(m: map<K, V>, ps: seq<(K, V)>, i: nat)
    requires i < |ps| && ps[i].0 !in m
    requires forall j :: 0 <= j < i ==> ps[j].0 != ps[i].0
    ensures ps[i].0 in InsertAll(m, ps) && InsertAll(m, ps)[ps[i].0] == ps[i].1
    decreases |ps|
  {
    var m' := if ps[0].0 in m then m else m[ps[0].0 := ps[0].1];
    if i == 0 {
      InsertAllKeeps(m', ps[1..], ps[0].0);
    } else {
      assert ps[i].0 !in m';
      InsertAllFirst(m', ps[1..], i - 1);
    }
  }

  /** The keys after insertion are the old keys and the keys of the pairs. */
  lemma {:induction false} InsertAllKeys<K(!new), V(!new)>(m: map<K, V>, ps: seq<(K, V)>)
    ensures InsertAll(m, ps).Keys == m.Keys + (set p | p in ps :: p.0)
    decreases |ps|
  {
    if ps != [] {
      var m' := if ps[0].0 in m then m else m[ps[0].0 := ps[0].1];
      InsertAllKeys(m', ps[1..]);
      assert (set p | p in ps :: p.0) == {ps[0].0} + (set p | p in ps[1..] :: p.0);
    }
  }

  /** map: decoding the pairs of a map (distinct keys) into an empty map gives
      back every key with its value and no other key. */
  lemma MapRoundTrip<K(!new), V(!new)>(ck: Codec<K>, cv: Codec<V>, ps: seq<(K, V)>, rest: seq<byte>)
    requires Sound(ck) && Sound(cv)
    requires forall i, j :: 0 <= i < j < |ps| ==> ps[i].0 != ps[j].0
    requires EncodeContainer(PairCodec(ck, cv), ps).Ok?
    requires |EncodeContainer(PairCodec(ck, cv), ps).value| <= MaxPackSize
    ensures DecodeMap(ck, cv, map[], EncodeContainer(PairCodec(ck, cv), ps).value + rest).Ok?
    ensures var (m, t) := DecodeMap(ck, cv, map[], EncodeContainer(PairCodec(ck, cv), ps).value + rest).value;
            t == rest && m.Keys == (set p | p in ps :: p.0) &&
            forall i :: 0 <= i < |ps| ==> m[ps[i].0] == ps[i].1
  {
    PairSound(ck, cv);
    ContainerFits(PairCodec(ck, cv), ps);
    ContainerRoundTrip(PairCodec(ck, cv), ps, rest);
    InsertAllKeys(map[], ps);
    forall i | 0 <= i < |ps|
      ensures InsertAll(map[], ps)[ps[i].0] == ps[i].1
    {
      InsertAllFirst(map[], ps, i);
    }
  }

  /** Vectors nest: a vector of a sound codec is itself sound. */
  lemma VectorSound<T(!new)>(c: Codec<T>)
    requires Sound(c)
    ensures Sound(VectorCodec(c))
  {
    var v := VectorCodec(c);
    forall xs, rest | v.enc(xs).Ok? && |v.enc(xs).value| <= MaxPackSize
      ensures v.dec(v.enc(xs).value + rest) == Ok((xs, rest))
    {
      VectorRoundTrip(c, [], xs, rest);
      assert [] + xs == xs;
    }
    forall s | v.dec(s).Ok?
      ensures IsSuffix(v.dec(s).value.1, s)
    {
      var t := DecodeU32(s).value.1;
      ElementsAdvance(c, DecodeU32(s).value.0, t);
    }
  }
}
