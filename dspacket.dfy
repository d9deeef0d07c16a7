/** The objects of dspacket.h that change state: DSPackBuffer, the DSPack
    write head over it, the DSUnpack read cursor, and the operator<< /
    operator>> overloads that drive them. Every method is proved against the
    pure wire format of module Codec: what a push appends is the encoding,
    and what a pop returns and leaves is what the decoder gives. */
module Packet {
  import opened Errors
  import opened Wire
  import opened Buffer
  import opened Codec

  const BlockAlloc4K: nat := 4096
  const PackMaxBlocks: nat := 1024 * 256

  /** DSPackBuffer: a DSBuffer of 4 KiB blocks, at most 262144 of them, whose
      failures become CapacityExceeded. */
  class PackBuffer {
    const buffer: DSBuffer
    ghost var Repr: set<object>

    ghost predicate Valid()
      reads this, Repr
      ensures Valid() ==> this in Repr
    {
      this in Repr && buffer in Repr && buffer.Repr <= Repr && this !in buffer.Repr &&
      buffer.Valid() && buffer.blockSize == BlockAlloc4K && buffer.maxBlockCount == PackMaxBlocks
    }

    ghost function Contents(): seq<byte>
      reads this, Repr
      requires Valid()
    {
      buffer.Contents()
    }

    constructor ()
      ensures Valid() && fresh(Repr)
      ensures Contents() == []
    {
      buffer := new DSBuffer(BlockAlloc4K, PackMaxBlocks);
      new;
      Repr := {this} + buffer.Repr;
    }

    function Size(): (n: nat)
      reads this, Repr
      requires Valid()
      ensures n == |Contents()|
    {
      buffer.Size()
    }

    /** data(), read out as the bytes in use. */
    method Data() returns (d: seq<byte>)
      requires Valid()
      ensures d == Contents()
    {
      d := buffer.data[..buffer.size];
    }

    method Reserve(n: nat) returns (r: Outcome)
      requires Valid()
      modifies Repr
      ensures Valid() && fresh(Repr - old(Repr))
      ensures r.Pass? <==> n <= MaxPackSize
      ensures r.Fail? ==> r.error == CapacityExceeded
      ensures Contents() == old(Contents())
    {
      var ok := buffer.Reserve(n);
      Repr := Repr + buffer.Repr;
      r := if ok then Pass else Fail(CapacityExceeded);
    }

    /** resize(n): the buffer's resize with the default fill byte 0. */
    method Resize(n: nat) returns (r: Outcome)
      requires Valid()
      modifies Repr
      ensures Valid() && fresh(Repr - old(Repr))
      ensures r.Pass? <==> n <= MaxPackSize
      ensures r.Fail? ==> r.error == CapacityExceeded
      ensures Contents() == if r.Pass? then Resized(old(Contents()), n, 0) else old(Contents())
    {
      var ok := buffer.Resize(n, 0);
      Repr := Repr + buffer.Repr;
      r := if ok then Pass else Fail(CapacityExceeded);
    }

    method Append(b: seq<byte>) returns (r: Outcome)
      requires Valid()
      modifies Repr
      ensures Valid() && fresh(Repr - old(Repr))
      ensures r.Pass? <==> |old(Contents())| + |b| <= MaxPackSize
      ensures r.Fail? ==> r.error == CapacityExceeded
      ensures Contents() == if r.Pass? then old(Contents()) + b else old(Contents())
    {
      var ok := buffer.Append(b);
      Repr := Repr + buffer.Repr;
      r := if ok then Pass else Fail(CapacityExceeded);
    }

    method Replace(pos: nat, b: seq<byte>) returns (r: Outcome)
      requires Valid()
      modifies Repr
      ensures Valid() && fresh(Repr - old(Repr))
      ensures r.Pass? <==> |Spliced(old(Contents()), pos, b)| <= MaxPackSize
      ensures r.Fail? ==> r.error == CapacityExceeded
      ensures Contents() == if r.Pass? then Spliced(old(Contents()), pos, b) else old(Contents())
    {
      var ok := buffer.Replace(pos, b);
      Repr := Repr + buffer.Repr;
      r := if ok then Pass else Fail(CapacityExceeded);
    }
  }

  /** DSPack: appends to a shared pack buffer; what it has written is what
      lies past its offset. replace positions are absolute in the buffer. */
  class Pack {
    const pb: PackBuffer
    const offset: nat

    ghost predicate Valid()
      reads this, pb, pb.Repr
    {
      pb.Valid() && offset <= |pb.Contents()|
    }

    /** The bytes past the offset: data() .. data() + size(). */
    ghost function Written(): seq<byte>
      reads this, pb, pb.Repr
      requires Valid()
    {
      pb.Contents()[offset..]
    }

    constructor Make(pb: PackBuffer, offset: nat)
      ensures this.pb == pb && this.offset == offset
    {
      this.pb := pb;
      this.offset := offset;
    }

    /** DSPack(pb, off): the offset is the buffer's size plus off, and the
        buffer is resized to it, zero-filling the gap. */
    static method Open(pb: PackBuffer, off: nat) returns (r: Result<Pack>)
      requires pb.Valid()
      modifies pb.Repr
      ensures pb.Valid() && fresh(pb.Repr - old(pb.Repr))
      ensures r.Ok? <==> |old(pb.Contents())| + off <= MaxPackSize
      ensures r.Err? ==> r.error == CapacityExceeded && pb.Contents() == old(pb.Contents())
      ensures r.Ok? ==> fresh(r.value) && r.value.pb == pb && r.value.offset == |old(pb.Contents())| + off
      ensures r.Ok? ==> r.value.Valid() && r.value.Written() == []
      ensures r.Ok? ==> pb.Contents() == old(pb.Contents()) + Fill(0, off)
    {
      var offset := pb.Size() + off;
      var o := pb.Resize(offset);
      if o.Fail? {
        return Err(o.error);
      }
      var p := new Pack.Make(pb, offset);
      r := Ok(p);
    }

    /** data(), read out. */
    method Data() returns (d: seq<byte>)
      requires Valid()
      ensures d == Written()
    {
      d := pb.buffer.data[offset..pb.buffer.size];
    }

    function Size(): (n: nat)
      reads this, pb, pb.Repr
      requires Valid()
      ensures n == |Written()|
    {
      pb.Size() - offset
    }

    method Push(b: seq<byte>) returns (r: Outcome)
      requires Valid()
      modifies pb.Repr
      ensures Valid() && fresh(pb.Repr - old(pb.Repr))
      ensures r.Pass? <==> |old(pb.Contents())| + |b| <= MaxPackSize
      ensures r.Fail? ==> r.error == CapacityExceeded
      ensures pb.Contents() == if r.Pass? then old(pb.Contents()) + b else old(pb.Contents())
    {
      r := pb.Append(b);
    }

    method PushU8(v: byte) returns (r: Outcome)
      requires Valid()
      modifies pb.Repr
      ensures Valid() && fresh(pb.Repr - old(pb.Repr))
      ensures r.Pass? <==> |old(pb.Contents())| + 1 <= MaxPackSize
      ensures r.Fail? ==> r.error == CapacityExceeded
      ensures pb.Contents() == if r.Pass? then old(pb.Contents()) + [v] else old(pb.Contents())
    {
      r := Push([v]);
    }

    /** push_uint16: the swapped value's memory bytes, that is, v most
        significant byte first. */
    method PushU16(v: u16) returns (r: Outcome)
      requires Valid()
      modifies pb.Repr
      ensures Valid() && fresh(pb.Repr - old(pb.Repr))
      ensures r.Pass? <==> |old(pb.Contents())| + 2 <= MaxPackSize
      ensures r.Fail? ==> r.error == CapacityExceeded
      ensures pb.Contents() == if r.Pass? then old(pb.Contents()) + ToBytes16(v) else old(pb.Contents())
    {
      StoreSwapped16(v);
      r := Push(Stored16(Htons(v)));
    }

    method PushU32(v: u32) returns (r: Outcome)
      requires Valid()
      modifies pb.Repr
      ensures Valid() && fresh(pb.Repr - old(pb.Repr))
      ensures r.Pass? <==> |old(pb.Contents())| + 4 <= MaxPackSize
      ensures r.Fail? ==> r.error == CapacityExceeded
      ensures pb.Contents() == if r.Pass? then old(pb.Contents()) + ToBytes32(v) else old(pb.Contents())
    {
      StoreSwapped32(v);
      r := Push(Stored32(Htonl(v)));
    }

    method PushU64(v: u64) returns (r: Outcome)
      requires Valid()
      modifies pb.Repr
      ensures Valid() && fresh(pb.Repr - old(pb.Repr))
      ensures r.Pass? <==> |old(pb.Contents())| + 8 <= MaxPackSize
      ensures r.Fail? ==> r.error == CapacityExceeded
      ensures pb.Contents() == if r.Pass? then old(pb.Contents()) + ToBytes64(v) else old(pb.Contents())
    {
      StoreSwapped64(v);
      r := Push(Stored64(Htonll(v)));
    }

    /** push_string: too long a string is refused before anything is written;
        when the length fits but the bytes do not, the length stays written. */
    method PushString(s: seq<byte>) returns (r: Outcome)
      requires Valid()
      modifies pb.Repr
      ensures Valid() && fresh(pb.Repr - old(pb.Repr))
      ensures r.Pass? <==> |s| <= 0xFFFF && |old(pb.Contents())| + 2 + |s| <= MaxPackSize
      ensures r.Fail? ==> r.error == if |s| > 0xFFFF then OversizeString else CapacityExceeded
      ensures r.Pass? ==> pb.Contents() == old(pb.Contents()) + EncodeString(s).value
      ensures r.Fail? && |s| <= 0xFFFF && |old(pb.Contents())| + 2 <= MaxPackSize ==>
                pb.Contents() == old(pb.Contents()) + ToBytes16(|s|)
      ensures r.Fail? && !(|s| <= 0xFFFF && |old(pb.Contents())| + 2 <= MaxPackSize) ==>
                pb.Contents() == old(pb.Contents())
    {
      if |s| > 0xFFFF {
        return Fail(OversizeString);
      }
      r := PushCounted16(s);
    }

    /** The length as uint16_t, then the bytes; the length stays written when
        the bytes do not fit. */
    method PushCounted16(s: seq<byte>) returns (r: Outcome)
      requires Valid() && |s| <= 0xFFFF
      modifies pb.Repr
      ensures Valid() && fresh(pb.Repr - old(pb.Repr))
      ensures r.Pass? <==> |old(pb.Contents())| + 2 + |s| <= MaxPackSize
      ensures r.Fail? ==> r.error == CapacityExceeded
      ensures r.Pass? ==> pb.Contents() == old(pb.Contents()) + (ToBytes16(|s|) + s)
      ensures r.Fail? ==> pb.Contents() == if |old(pb.Contents())| + 2 <= MaxPackSize
                                           then old(pb.Contents()) + ToBytes16(|s|) else old(pb.Contents())
    {
      r := PushU16(|s|);
      if r.Fail? {
        return;
      }
      r := Push(s);
    }

    method PushString32(s: seq<byte>) returns (r: Outcome)
      requires Valid()
      modifies pb.Repr
      ensures Valid() && fresh(pb.Repr - old(pb.Repr))
      ensures r.Pass? <==> |s| <= 0xFFFF_FFFF && |old(pb.Contents())| + 4 + |s| <= MaxPackSize
      ensures r.Fail? ==> r.error == if |s| > 0xFFFF_FFFF then OversizeString else CapacityExceeded
      ensures r.Pass? ==> pb.Contents() == old(pb.Contents()) + EncodeString32(s).value
      ensures r.Fail? && |s| <= 0xFFFF_FFFF && |old(pb.Contents())| + 4 <= MaxPackSize ==>
                pb.Contents() == old(pb.Contents()) + ToBytes32(|s|)
      ensures r.Fail? && !(|s| <= 0xFFFF_FFFF && |old(pb.Contents())| + 4 <= MaxPackSize) ==>
                pb.Contents() == old(pb.Contents())
    {
      if |s| > 0xFFFF_FFFF {
        return Fail(OversizeString);
      }
      r := PushCounted32(s);
    }

    /** The count as uint32_t, then the bytes; the count stays written when
        the bytes do not fit. */
    method PushCounted32(s: seq<byte>) returns (r: Outcome)
      requires Valid() && |s| <= 0xFFFF_FFFF
      modifies pb.Repr
      ensures Valid() && fresh(pb.Repr - old(pb.Repr))
      ensures r.Pass? <==> |old(pb.Contents())| + 4 + |s| <= MaxPackSize
      ensures r.Fail? ==> r.error == CapacityExceeded
      ensures r.Pass? ==> pb.Contents() == old(pb.Contents()) + (ToBytes32(|s|) + s)
      ensures r.Fail? ==> pb.Contents() == if |old(pb.Contents())| + 4 <= MaxPackSize
                                           then old(pb.Contents()) + ToBytes32(|s|) else old(pb.Contents())
    {
      r := PushU32(|s|);
      if r.Fail? {
        return;
      }
      r := Push(s);
    }

    method Replace(pos: nat, b: seq<byte>) returns (r: Outcome)
      requires Valid()
      modifies pb.Repr
      ensures Valid() && fresh(pb.Repr - old(pb.Repr))
      ensures r.Pass? <==> |Spliced(old(pb.Contents()), pos, b)| <= MaxPackSize
      ensures r.Fail? ==> r.error == CapacityExceeded
      ensures pb.Contents() == if r.Pass? then Spliced(old(pb.Contents()), pos, b) else old(pb.Contents())
    {
      SplicedLength(pb.Contents(), pos, b);
      r := pb.Replace(pos, b);
    }

    method ReplaceU8(pos: nat, v: byte) returns (r: Outcome)
      requires Valid()
      modifies pb.Repr
      ensures Valid() && fresh(pb.Repr - old(pb.Repr))
      ensures r.Fail? ==> r.error == CapacityExceeded
      ensures r.Pass? <==> |Spliced(old(pb.Contents()), pos, [v])| <= MaxPackSize
      ensures pb.Contents() == if r.Pass? then Spliced(old(pb.Contents()), pos, [v]) else old(pb.Contents())
    {
      r := Replace(pos, [v]);
    }

    /** replace_uint16 as evidently intended: v at its full width, most
        significant byte first (see ReplaceFirstByteAsWritten16 for the code as
        written). */
    method ReplaceU16(pos: nat, v: u16) returns (r: Outcome)
      requires Valid()
      modifies pb.Repr
      ensures Valid() && fresh(pb.Repr - old(pb.Repr))
      ensures r.Fail? ==> r.error == CapacityExceeded
      ensures r.Pass? <==> |Spliced(old(pb.Contents()), pos, ToBytes16(v))| <= MaxPackSize
      ensures pb.Contents() == if r.Pass? then Spliced(old(pb.Contents()), pos, ToBytes16(v)) else old(pb.Contents())
    {
      StoreSwapped16(v);
      r := Replace(pos, Stored16(Htons(v)));
    }

    method ReplaceU32(pos: nat, v: u32) returns (r: Outcome)
      requires Valid()
      modifies pb.Repr
      ensures Valid() && fresh(pb.Repr - old(pb.Repr))
      ensures r.Fail? ==> r.error == CapacityExceeded
      ensures r.Pass? <==> |Spliced(old(pb.Contents()), pos, ToBytes32(v))| <= MaxPackSize
      ensures pb.Contents() == if r.Pass? then Spliced(old(pb.Contents()), pos, ToBytes32(v)) else old(pb.Contents())
    {
      StoreSwapped32(v);
      r := Replace(pos, Stored32(Htonl(v)));
    }

    method ReplaceU64(pos: nat, v: u64) returns (r: Outcome)
      requires Valid()
      modifies pb.Repr
      ensures Valid() && fresh(pb.Repr - old(pb.Repr))
      ensures r.Fail? ==> r.error == CapacityExceeded
      ensures r.Pass? <==> |Spliced(old(pb.Contents()), pos, ToBytes64(v))| <= MaxPackSize
      ensures pb.Contents() == if r.Pass? then Spliced(old(pb.Contents()), pos, ToBytes64(v)) else old(pb.Contents())
    {
      StoreSwapped64(v);
      r := Replace(pos, Stored64(Htonll(v)));
    }

    /** replace_string: the length truncated to 16 bits (no size check) at
        pos, then the bytes at pos + 2. */
    method ReplaceString(pos: nat, s: seq<byte>) returns (r: Outcome)
      requires Valid()
      modifies pb.Repr
      ensures Valid() && fresh(pb.Repr - old(pb.Repr))
      ensures r.Fail? ==> r.error == CapacityExceeded
      ensures r.Pass? <==> |Spliced(Spliced(old(pb.Contents()), pos, ToBytes16(|s| % 0x1_0000)), pos + 2, s)| <= MaxPackSize
      ensures r.Pass? ==> pb.Contents() == Spliced(Spliced(old(pb.Contents()), pos, ToBytes16(|s| % 0x1_0000)), pos + 2, s)
      ensures r.Fail? ==> pb.Contents() ==
                            if |Spliced(old(pb.Contents()), pos, ToBytes16(|s| % 0x1_0000))| <= MaxPackSize
                            then Spliced(old(pb.Contents()), pos, ToBytes16(|s| % 0x1_0000))
                            else old(pb.Contents())
    {
      ghost var lengthDone := Spliced(old(pb.Contents()), pos, ToBytes16(|s| % 0x1_0000));
      SplicedLength(lengthDone, pos + 2, s);
      r := ReplaceU16(pos, |s| % 0x1_0000);
      if r.Fail? {
        return;
      }
      r := Replace(pos + 2, s);
    }

    method ReplaceString32(pos: nat, s: seq<byte>) returns (r: Outcome)
      requires Valid()
      modifies pb.Repr
      ensures Valid() && fresh(pb.Repr - old(pb.Repr))
      ensures r.Fail? ==> r.error == CapacityExceeded
      ensures r.Pass? <==> |Spliced(Spliced(old(pb.Contents()), pos, ToBytes32(|s| % 0x1_0000_0000)), pos + 4, s)| <= MaxPackSize
      ensures r.Pass? ==> pb.Contents() == Spliced(Spliced(old(pb.Contents()), pos, ToBytes32(|s| % 0x1_0000_0000)), pos + 4, s)
      ensures r.Fail? ==> pb.Contents() ==
                            if |Spliced(old(pb.Contents()), pos, ToBytes32(|s| % 0x1_0000_0000))| <= MaxPackSize
                            then Spliced(old(pb.Contents()), pos, ToBytes32(|s| % 0x1_0000_0000))
                            else old(pb.Contents())
    {
      ghost var lengthDone := Spliced(old(pb.Contents()), pos, ToBytes32(|s| % 0x1_0000_0000));
      SplicedLength(lengthDone, pos + 4, s);
      r := ReplaceU32(pos, |s| % 0x1_0000_0000);
      if r.Fail? {
        return;
      }
      r := Replace(pos + 4, s);
    }
  }

  /** A Spliced buffer is never shorter than the one it came from. */
  lemma SplicedLength(s: seq<byte>, pos: nat, b: seq<byte>)
    ensures |s| <= |Spliced(s, pos, b)|
  {
    if |b| > 0 && pos < |s| {
      SplicedInside(s, pos, b);
    }
  }

  /** replace_uint16/32/64 take their value as a uint8_t: the value is
      truncated to its low byte, swapped, and truncated again into that byte,
      which is then the first byte written (the rest is read past the end of
      the one-byte variable). */
  function ReplaceFirstByteAsWritten16(v: u16): byte {
    Htons(v % 0x100) % 0x100
  }

  function ReplaceFirstByteAsWritten32(v: u32): byte {
    Htonl(v % 0x100) % 0x100
  }

  function ReplaceFirstByteAsWritten64(v: u64): byte {
    Htonll(v % 0x100) % 0x100
  }

  /** As written, the first byte of every backpatched integer is 0; v = 0x0102
      should put 1 there. The corrected ReplaceU16 puts ToBytes16(v)[0]. */
  lemma ReplaceAsWrittenLosesValue(v: u16)
    ensures ReplaceFirstByteAsWritten16(v) == 0
    ensures ToBytes16(0x0102)[0] == 1 != ReplaceFirstByteAsWritten16(0x0102)
  {
    FirstByteLost16(v);
    FirstByteLost16(0x0102);
  }

  lemma ReplaceAsWrittenLosesValue32(v: u32)
    ensures ReplaceFirstByteAsWritten32(v) == 0
    ensures ToBytes32(0x0102_0304)[0] == 1 != ReplaceFirstByteAsWritten32(0x0102_0304)
  {
    FirstByteLost32(v);
    FirstByteLost32(0x0102_0304);
    assert ToBytes32(0x0102_0304)[0] == ToBytes16(0x0102)[0];
  }

  lemma ReplaceAsWrittenLosesValue64(v: u64)
    ensures ReplaceFirstByteAsWritten64(v) == 0
    ensures ToBytes64(0x0102_0304_0506_0708)[0] == 1 != ReplaceFirstByteAsWritten64(0x0102_0304_0506_0708)
  {
    var w: u64 := 0x0102_0304_0506_0708;
    FirstByteLost64(v);
    FirstByteLost64(w);
    assert w / 0x1_0000_0000 == 0x0102_0304;
    assert ToBytes64(w)[0] == ToBytes32(0x0102_0304)[0];
    assert ToBytes32(0x0102_0304)[0] == ToBytes16(0x0102)[0];
  }

  lemma FirstByteLost16(v: u16)
    ensures ReplaceFirstByteAsWritten16(v) == 0
  {
    var lo: int := v % 0x100;
    SwapByte16(lo);
    MulLowByte(lo);
  }

  lemma FirstByteLost32(v: u32)
    ensures ReplaceFirstByteAsWritten32(v) == 0
  {
    var lo: int := v % 0x100;
    SwapByte32(lo);
    var h: int := Htons(lo);
    MulLowByte(h * 0x100);
    assert h * 0x1_0000 == (h * 0x100) * 0x100;
  }

  lemma FirstByteLost64(v: u64)
    ensures ReplaceFirstByteAsWritten64(v) == 0
  {
    var lo: int := v % 0x100;
    SwapByte64(lo);
    var l: int := Htonl(lo);
    MulLowByte(l * 0x100_0000);
    assert l * 0x1_0000_0000 == (l * 0x100_0000) * 0x100;
  }

  /** A multiple of 0x100 has a zero low byte. */
  lemma MulLowByte(m: int)
    ensures (m * 0x100) % 0x100 == 0
  {
  }

  /** The swap of a value below 0x100 moves its byte to the top, one width at
      a time. */
  lemma SwapByte16(lo: nat)
    requires lo < 0x100
    ensures Htons(lo) == lo * 0x100
  {
    assert lo % 0x100 == lo && lo / 0x100 == 0;
  }

  lemma SwapByte32(lo: nat)
    requires lo < 0x100
    ensures Htonl(lo) == Htons(lo) * 0x1_0000
  {
    assert lo % 0x1_0000 == lo && lo / 0x1_0000 == 0;
    assert Htons(0) == 0;
  }

  lemma SwapByte64(lo: nat)
    requires lo < 0x100
    ensures Htonll(lo) == Htonl(lo) * 0x1_0000_0000
  {
    Halves64(lo, 0, lo);
    assert Htons(0) == 0;
  }

  /** Backpatching a length prefix: replacing a field with bytes of the same
      length changes that field and nothing else. */
  lemma BackpatchU32(pre: seq<byte>, placeholder: u32, post: seq<byte>, v: u32)
    ensures Spliced(pre + ToBytes32(placeholder) + post, |pre|, ToBytes32(v)) == pre + ToBytes32(v) + post
  {
    SplicedField(pre, ToBytes32(placeholder), post, ToBytes32(v));
  }

  /** replace_string over a string of the same length rewrites that string. */
  lemma BackpatchString(pre: seq<byte>, s0: seq<byte>, post: seq<byte>, s: seq<byte>)
    requires |s| == |s0| <= 0xFFFF
    ensures Spliced(Spliced(pre + EncodeString(s0).value + post, |pre|, ToBytes16(|s| % 0x1_0000)), |pre| + 2, s)
            == pre + EncodeString(s).value + post
  {
    var l := ToBytes16(|s|);
    assert Spliced(pre + EncodeString(s0).value + post, |pre|, ToBytes16(|s| % 0x1_0000))
        == (pre + l) + s0 + post by {
      assert |s| % 0x1_0000 == |s|;
      assert pre + EncodeString(s0).value + post == pre + l + (s0 + post);
      SplicedField(pre, l, s0 + post, l);
      assert pre + l + (s0 + post) == (pre + l) + s0 + post;
    }
    assert Spliced((pre + l) + s0 + post, |pre| + 2, s) == pre + EncodeString(s).value + post by {
      SplicedField(pre + l, s0, post, s);
      assert (pre + l) + s + post == pre + EncodeString(s).value + post;
    }
  }

  // ---------------------------------------------------------------------------
  // DSUnpack

  /** What pop_StringPtr returns: where the string's bytes lie in the input. */
  datatype StringPtr = StringPtr(start: nat, len: nat)

  /** DSUnpack: a window [pos, pos + size) of the input it was given. The
      window only ever shrinks from the front. */
  class Unpack {
    var input: seq<byte>
    var pos: nat       // m_pData, as an index into input
    var size: nat      // m_nSize

    ghost predicate Valid()
      reads this
    {
      pos + size == |input|
    }

    function Remaining(): (r: seq<byte>)
      reads this
      requires Valid()
      ensures |r| == size
    {
      input[pos..]
    }

    constructor (bytes: seq<byte>)
      ensures Valid() && input == bytes && Remaining() == bytes
    {
      input, pos, size := bytes, 0, |bytes|;
    }

    method Reset(bytes: seq<byte>)
      modifies this
      ensures Valid() && input == bytes && Remaining() == bytes
    {
      input, pos, size := bytes, 0, |bytes|;
    }

    function Empty(): (b: bool)
      reads this
      requires Valid()
      ensures b <==> Remaining() == []
    {
      size == 0
    }

    /** finish(): an error exactly when bytes are left over. */
    function Finish(): (r: Outcome)
      reads this
      requires Valid()
      ensures r.Pass? <==> Remaining() == []
      ensures r.Fail? ==> r.error == TrailingData
    {
      if !Empty() then Fail(TrailingData) else Pass
    }

    /** pop_fetch_ptr(n, peek): where the next n bytes start; the cursor moves
        past them unless peek is set. Too few bytes left is a short read. */
    method PopFetchPtr(n: nat, peek: bool) returns (r: Result<nat>)
      requires Valid()
      modifies this
      ensures Valid() && input == old(input)
      ensures r.Ok? <==> n <= old(size)
      ensures r.Err? ==> r.error == ShortRead
      ensures r.Ok? ==> r.value == old(pos) && r.value + n <= |input|
      ensures r.Ok? ==> input[r.value..r.value + n] == old(Remaining())[..n]
      ensures Remaining() == if r.Ok? && !peek then old(Remaining())[n..] else old(Remaining())
    {
      if size < n {
        return Err(ShortRead);
      }
      r := Ok(pos);
      if !peek {
        pos, size := pos + n, size - n;
      }
    }

    method PopU8(peek: bool) returns (r: Result<byte>)
      requires Valid()
      modifies this
      ensures Valid() && input == old(input)
      ensures r.Ok? <==> DecodeU8(old(Remaining())).Ok?
      ensures r.Err? ==> r.error == ShortRead
      ensures r.Ok? ==> r.value == DecodeU8(old(Remaining())).value.0
      ensures Remaining() == if r.Ok? && !peek then DecodeU8(old(Remaining())).value.1 else old(Remaining())
    {
      var p :- PopFetchPtr(1, peek);
      r := Ok(input[p]);
    }

    /** pop_uint16: load the two bytes from memory and swap them back. */
    method PopU16(peek: bool) returns (r: Result<u16>)
      requires Valid()
      modifies this
      ensures Valid() && input == old(input)
      ensures r.Ok? <==> DecodeU16(old(Remaining())).Ok?
      ensures r.Err? ==> r.error == ShortRead
      ensures r.Ok? ==> r.value == DecodeU16(old(Remaining())).value.0
      ensures Remaining() == if r.Ok? && !peek then DecodeU16(old(Remaining())).value.1 else old(Remaining())
    {
      ghost var s := Remaining();
      var p :- PopFetchPtr(2, peek);
      var b := input[p..p + 2];
      LoadSwapped16(b);
      ToFromBytes16(s);
      r := Ok(Htons(Loaded16(b)));
    }

    method PopU32(peek: bool) returns (r: Result<u32>)
      requires Valid()
      modifies this
      ensures Valid() && input == old(input)
      ensures r.Ok? <==> DecodeU32(old(Remaining())).Ok?
      ensures r.Err? ==> r.error == ShortRead
      ensures r.Ok? ==> r.value == DecodeU32(old(Remaining())).value.0
      ensures Remaining() == if r.Ok? && !peek then DecodeU32(old(Remaining())).value.1 else old(Remaining())
    {
      ghost var s := Remaining();
      var p :- PopFetchPtr(4, peek);
      var b := input[p..p + 4];
      LoadSwapped32(b);
      ReadsPrefix(s, b);
      r := Ok(Htonl(Loaded32(b)));
    }

    method PopU64(peek: bool) returns (r: Result<u64>)
      requires Valid()
      modifies this
      ensures Valid() && input == old(input)
      ensures r.Ok? <==> DecodeU64(old(Remaining())).Ok?
      ensures r.Err? ==> r.error == ShortRead
      ensures r.Ok? ==> r.value == DecodeU64(old(Remaining())).value.0
      ensures Remaining() == if r.Ok? && !peek then DecodeU64(old(Remaining())).value.1 else old(Remaining())
    {
      ghost var s := Remaining();
      var p :- PopFetchPtr(8, peek);
      var b := input[p..p + 8];
      LoadSwapped64(b);
      ReadsPrefix(s, b);
      r := Ok(Htonll(Loaded64(b)));
    }

    /** pop_string: the 16-bit length, then that many bytes. When the length
        was read but the bytes are missing the cursor stays past the length. */
    method PopString() returns (r: Result<seq<byte>>)
      requires Valid()
      modifies this
      ensures Valid() && input == old(input)
      ensures r.Ok? <==> DecodeString(old(Remaining())).Ok?
      ensures r.Err? ==> r.error == ShortRead
      ensures r.Ok? ==> r.value == DecodeString(old(Remaining())).value.0
      ensures r.Ok? ==> Remaining() == DecodeString(old(Remaining())).value.1
      ensures r.Err? ==> Remaining() == if |old(Remaining())| < 2 then old(Remaining()) else old(Remaining())[2..]
    {
      var p, n := PopStringAt(2);
      r := if p.Ok? then Ok(input[p.value..p.value + n]) else Err(p.error);
    }

    method PopString32() returns (r: Result<seq<byte>>)
      requires Valid()
      modifies this
      ensures Valid() && input == old(input)
      ensures r.Ok? <==> DecodeString32(old(Remaining())).Ok?
      ensures r.Err? ==> r.error == ShortRead
      ensures r.Ok? ==> r.value == DecodeString32(old(Remaining())).value.0
      ensures r.Ok? ==> Remaining() == DecodeString32(old(Remaining())).value.1
      ensures r.Err? ==> Remaining() == if |old(Remaining())| < 4 then old(Remaining()) else old(Remaining())[4..]
    {
      var p, n := PopStringAt(4);
      r := if p.Ok? then Ok(input[p.value..p.value + n]) else Err(p.error);
    }

    /** pop_StringPtr: the string is not copied; its place in the input is
        returned instead. */
    method PopStringPtr() returns (r: Result<StringPtr>)
      requires Valid()
      modifies this
      ensures Valid() && input == old(input)
      ensures r.Ok? <==> DecodeString(old(Remaining())).Ok?
      ensures r.Err? ==> r.error == ShortRead
      ensures r.Ok? ==> r.value.start + r.value.len <= |input| &&
                        input[r.value.start..r.value.start + r.value.len] == DecodeString(old(Remaining())).value.0
      ensures r.Ok? ==> Remaining() == DecodeString(old(Remaining())).value.1
    {
      var p, n := PopStringAt(2);
      r := if p.Ok? then Ok(StringPtr(p.value, n)) else Err(p.error);
    }

    method PopStringPtr32() returns (r: Result<StringPtr>)
      requires Valid()
      modifies this
      ensures Valid() && input == old(input)
      ensures r.Ok? <==> DecodeString32(old(Remaining())).Ok?
      ensures r.Err? ==> r.error == ShortRead
      ensures r.Ok? ==> r.value.start + r.value.len <= |input| &&
                        input[r.value.start..r.value.start + r.value.len] == DecodeString32(old(Remaining())).value.0
      ensures r.Ok? ==> Remaining() == DecodeString32(old(Remaining())).value.1
    {
      var p, n := PopStringAt(4);
      r := if p.Ok? then Ok(StringPtr(p.value, n)) else Err(p.error);
    }

    /** The steps pop_string, pop_string32 and pop_StringPtr(32) share: read a
        length of `width` bytes, then fetch that many bytes. */
    method PopStringAt(width: nat) returns (p: Result<nat>, n: nat)
      requires Valid() && (width == 2 || width == 4)
      modifies this
      ensures Valid() && input == old(input)
      ensures p.Ok? <==> DecodeStringOf(width, old(Remaining())).Ok?
      ensures p.Err? ==> p.error == ShortRead
      ensures p.Ok? ==> p.value + n <= |input| && input[p.value..p.value + n] == DecodeStringOf(width, old(Remaining())).value.0
      ensures p.Ok? ==> Remaining() == DecodeStringOf(width, old(Remaining())).value.1
      ensures p.Err? ==> Remaining() == if |old(Remaining())| < width then old(Remaining()) else old(Remaining())[width..]
    {
      ghost var s := Remaining();
      if width == 2 {
        var l := PopU16(false);
        if l.Err? {
          return Err(l.error), 0;
        }
        n := l.value;
      } else {
        var l := PopU32(false);
        if l.Err? {
          return Err(l.error), 0;
        }
        n := l.value;
      }
      ghost var t := Remaining();
      assert t == s[width..];
      p := PopFetchPtr(n, false);
      if p.Ok? {
        assert input[p.value..p.value + n] == t[..n];
      }
    }
  }

  /** The decoder of a length-prefixed string of the given prefix width. */
  function DecodeStringOf(width: nat, s: seq<byte>): Result<(seq<byte>, seq<byte>)>
    requires width == 2 || width == 4
  {
    if width == 2 then DecodeString(s) else DecodeString32(s)
  }

  /** A value read from the first bytes of s depends on those bytes alone. */
  lemma ReadsPrefix(s: seq<byte>, b: seq<byte>)
    requires |b| <= |s| && b == s[..|b|]
    ensures |b| >= 4 ==> FromBytes32(b) == FromBytes32(s)
    ensures |b| >= 8 ==> FromBytes64(b) == FromBytes64(s)
  {
    if |b| >= 4 {
      assert b[2..][..2] == s[2..][..2];
    }
    if |b| >= 8 {
      assert b[4..][..4] == s[4..][..4];
      assert b[4..][2..][..2] == s[4..][2..][..2];
    }
  }
}
