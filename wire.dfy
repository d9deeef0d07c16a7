/** Fixed-width integers, the byte swap of dspacket.h (DS_HTONS, DS_HTONL,
    DS_HTONLL and their DS_NTOH* aliases) and the most-significant-byte-first
    wire layout.

    Bytes and unsigned integers are integer ranges. A shift left by k bits is
    a multiplication by 2^k, a shift right a division, a truncating cast a
    remainder, and an `|` of two values whose set bits do not overlap a sum.

    The source copies the swapped value into the buffer with memcpy, that is,
    in the host's memory layout. The wire is fixed as most significant byte
    first, which is what that copy produces on a little-endian host: the
    lemmas StoreSwapped16/32/64 and LoadSwapped16/32/64 state that. */
module Wire {

  type byte = b: int | 0 <= b < 0x100
  type u16 = x: int | 0 <= x < 0x1_0000
  type u32 = x: int | 0 <= x < 0x1_0000_0000
  type u64 = x: int | 0 <= x < 0x1_0000_0000_0000_0000

  // ---------------------------------------------------------------------------
  // DS_HTONS, DS_HTONL, DS_HTONLL. DS_NTOH* are the same functions.

  /** (u16 << 8) | (u16 >> 8) in 16 bits: the two bytes trade places. */
  function Htons(x: u16): u16 {
    (x % 0x100) * 0x100 + x / 0x100
  }

  /** The low half swapped moves to the top, the high half swapped to the bottom. */
  function Htonl(x: u32): u32 {
    Htons(x % 0x1_0000) * 0x1_0000 + Htons(x / 0x1_0000)
  }

  /** The same construction one width up. */
  function Htonll(x: u64): u64 {
    Htonl(x % 0x1_0000_0000) * 0x1_0000_0000 + Htonl(x / 0x1_0000_0000)
  }

  lemma Split8(hi: byte, lo: byte)
    ensures (hi * 0x100 + lo) / 0x100 == hi
    ensures (hi * 0x100 + lo) % 0x100 == lo
  {
  }

  lemma Split16(hi: u16, lo: u16)
    ensures (hi * 0x1_0000 + lo) / 0x1_0000 == hi
    ensures (hi * 0x1_0000 + lo) % 0x1_0000 == lo
  {
  }

  lemma Split32(hi: u32, lo: u32)
    ensures (hi * 0x1_0000_0000 + lo) / 0x1_0000_0000 == hi
    ensures (hi * 0x1_0000_0000 + lo) % 0x1_0000_0000 == lo
  {
  }

  /** DS_NTOHS(DS_HTONS(x)) == x. */
  lemma HtonsInvolutive(x: u16)
    ensures Htons(Htons(x)) == x
  {
    Split8(x % 0x100, x / 0x100);
  }

  /** DS_NTOHL(DS_HTONL(x)) == x. */
  lemma HtonlInvolutive(x: u32)
    ensures Htonl(Htonl(x)) == x
  {
    var hi, lo := x / 0x1_0000, x % 0x1_0000;
    Split16(Htons(lo), Htons(hi));
    HtonsInvolutive(lo);
    HtonsInvolutive(hi);
  }

  /** DS_NTOHLL(DS_HTONLL(x)) == x. */
  lemma HtonllInvolutive(x: u64)
    ensures Htonll(Htonll(x)) == x
  {
    var hi, lo := x / 0x1_0000_0000, x % 0x1_0000_0000;
    Halves64(x, hi, lo);
    Halves64(Htonll(x), Htonl(lo), Htonl(hi));
    HtonlInvolutive(lo);
    HtonlInvolutive(hi);
  }

  /** How the 64-bit functions see a value given as two 32-bit halves. */
  lemma Halves64(y: u64, hi: u32, lo: u32)
    requires y == hi * 0x1_0000_0000 + lo
    ensures Htonll(y) == Htonl(lo) * 0x1_0000_0000 + Htonl(hi)
    ensures Stored64(y) == Stored32(lo) + Stored32(hi)
  {
    Split32(hi, lo);
    assert y % 0x1_0000_0000 == lo;
    assert y / 0x1_0000_0000 == hi;
  }

  // ---------------------------------------------------------------------------
  // Host memory layout (little-endian): what memcpy copies out of, and what a
  // pointer cast reads back into, a uintN_t variable.

  function Stored16(x: u16): seq<byte> {
    [x % 0x100, x / 0x100]
  }

  function Stored32(x: u32): seq<byte> {
    Stored16(x % 0x1_0000) + Stored16(x / 0x1_0000)
  }

  function Stored64(x: u64): seq<byte> {
    Stored32(x % 0x1_0000_0000) + Stored32(x / 0x1_0000_0000)
  }

  function Loaded16(b: seq<byte>): u16
    requires |b| == 2
  {
    b[0] + (b[1] as int) * 0x100
  }

  function Loaded32(b: seq<byte>): u32
    requires |b| == 4
  {
    Loaded16(b[..2]) + Loaded16(b[2..]) * 0x1_0000
  }

  function Loaded64(b: seq<byte>): u64
    requires |b| == 8
  {
    Loaded32(b[..4]) + Loaded32(b[4..]) * 0x1_0000_0000
  }

  // ---------------------------------------------------------------------------
  // The wire layout: most significant byte first.

  function ToBytes16(v: u16): (r: seq<byte>)
    ensures |r| == 2
  {
    [v / 0x100, v % 0x100]
  }

  function ToBytes32(v: u32): (r: seq<byte>)
    ensures |r| == 4
  {
    ToBytes16(v / 0x1_0000) + ToBytes16(v % 0x1_0000)
  }

  function ToBytes64(v: u64): (r: seq<byte>)
    ensures |r| == 8
  {
    ToBytes32(v / 0x1_0000_0000) + ToBytes32(v % 0x1_0000_0000)
  }

  function FromBytes16(b: seq<byte>): u16
    requires |b| >= 2
  {
    (b[0] as int) * 0x100 + b[1]
  }

  function FromBytes32(b: seq<byte>): u32
    requires |b| >= 4
  {
    FromBytes16(b) * 0x1_0000 + FromBytes16(b[2..])
  }

  function FromBytes64(b: seq<byte>): u64
    requires |b| >= 8
  {
    FromBytes32(b) * 0x1_0000_0000 + FromBytes32(b[4..])
  }

  /** Reading back the first two bytes of an encoding gives the value,
      whatever follows it. */
  lemma FromToBytes16(v: u16, rest: seq<byte>)
    ensures FromBytes16(ToBytes16(v) + rest) == v
  {
  }

  lemma {:induction false} FromToBytes32(v: u32, rest: seq<byte>)
    ensures FromBytes32(ToBytes32(v) + rest) == v
  {
    var hi, lo := v / 0x1_0000, v % 0x1_0000;
    assert ToBytes32(v) + rest == ToBytes16(hi) + (ToBytes16(lo) + rest);
    assert (ToBytes32(v) + rest)[2..] == ToBytes16(lo) + rest;
    FromToBytes16(hi, ToBytes16(lo) + rest);
    FromToBytes16(lo, rest);
  }

  lemma {:induction false} FromToBytes64(v: u64, rest: seq<byte>)
    ensures FromBytes64(ToBytes64(v) + rest) == v
  {
    var hi, lo := v / 0x1_0000_0000, v % 0x1_0000_0000;
    assert ToBytes64(v) + rest == ToBytes32(hi) + (ToBytes32(lo) + rest);
    assert (ToBytes64(v) + rest)[4..] == ToBytes32(lo) + rest;
    FromToBytes32(hi, ToBytes32(lo) + rest);
    FromToBytes32(lo, rest);
  }

  /** Every byte pair is the encoding of the value it reads as: no two
      encodings collide and none is invalid. */
  lemma ToFromBytes16(b: seq<byte>)
    requires |b| >= 2
    ensures ToBytes16(FromBytes16(b)) == b[..2]
  {
  }

  lemma {:induction false} ToFromBytes32(b: seq<byte>)
    requires |b| >= 4
    ensures ToBytes32(FromBytes32(b)) == b[..4]
  {
    var hi, lo := FromBytes16(b), FromBytes16(b[2..]);
    Split16(hi, lo);
    ToFromBytes16(b);
    ToFromBytes16(b[2..]);
    assert b[..4] == b[..2] + b[2..][..2];
  }

  lemma {:induction false} ToFromBytes64(b: seq<byte>)
    requires |b| >= 8
    ensures ToBytes64(FromBytes64(b)) == b[..8]
  {
    var hi, lo := FromBytes32(b), FromBytes32(b[4..]);
    Split32(hi, lo);
    ToFromBytes32(b);
    ToFromBytes32(b[4..]);
    assert b[..8] == b[..4] + b[4..][..4];
  }

  // ---------------------------------------------------------------------------
  // push_uintN copies the swapped value out of memory; pop_uintN loads the
  // bytes into a variable and swaps them back.

  /** memcpy of DS_HTONS(x) lays down x most significant byte first. */
  lemma StoreSwapped16(x: u16)
    ensures Stored16(Htons(x)) == ToBytes16(x)
  {
  }

  lemma {:induction false} StoreSwapped32(x: u32)
    ensures Stored32(Htonl(x)) == ToBytes32(x)
  {
    var hi, lo := x / 0x1_0000, x % 0x1_0000;
    Split16(Htons(lo), Htons(hi));
    assert Htonl(x) % 0x1_0000 == Htons(hi);
    assert Htonl(x) / 0x1_0000 == Htons(lo);
    StoreSwapped16(hi);
    StoreSwapped16(lo);
  }

  lemma {:induction false} StoreSwapped64(x: u64)
    ensures Stored64(Htonll(x)) == ToBytes64(x)
  {
    var hi, lo := x / 0x1_0000_0000, x % 0x1_0000_0000;
    Halves64(x, hi, lo);
    Halves64(Htonll(x), Htonl(lo), Htonl(hi));
    StoreSwapped32(hi);
    StoreSwapped32(lo);
  }

  /** DS_NTOHS of the two bytes loaded from memory is their most-significant-first value. */
  lemma LoadSwapped16(b: seq<byte>)
    requires |b| == 2
    ensures Htons(Loaded16(b)) == FromBytes16(b)
  {
  }

  lemma {:induction false} LoadSwapped32(b: seq<byte>)
    requires |b| == 4
    ensures Htonl(Loaded32(b)) == FromBytes32(b)
  {
    var lo, hi := Loaded16(b[..2]), Loaded16(b[2..]);
    Split16(hi, lo);
    LoadSwapped16(b[..2]);
    LoadSwapped16(b[2..]);
  }

  lemma {:induction false} LoadSwapped64(b: seq<byte>)
    requires |b| == 8
    ensures Htonll(Loaded64(b)) == FromBytes64(b)
  {
    var lo, hi := Loaded32(b[..4]), Loaded32(b[4..]);
    Halves64(Loaded64(b), hi, lo);
    LoadSwapped32(b[..4]);
    LoadSwapped32(b[4..]);
    FromBytes32Prefix(b);
  }

  /** Only the first four bytes count. */
  lemma FromBytes32Prefix(b: seq<byte>)
    requires |b| >= 4
    ensures FromBytes32(b[..4]) == FromBytes32(b)
  {
    assert b[..4][2..] == b[2..4];
    assert FromBytes16(b[2..4]) == FromBytes16(b[2..]);
  }
}
