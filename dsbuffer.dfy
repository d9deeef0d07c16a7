/** DSBuffer (dsbuffer.h): a growable byte buffer made of whole blocks, with a
    hard ceiling on the number of blocks.

    The class keeps the source's three fields: the byte region (an array whose
    length is the capacity; the empty array stands for the NULL pointer), the
    logical size and the block count. The template parameters (the
    allocator's block size and MaxBlockCount) become constant fields. The
    functions before the class say what each operation does to the logical
    contents, the bytes [0, size); the methods are proved against them. */
module Buffer {
  import opened Wire

  /** size_t(-1): erase's default length, meaning "to the end". */
  const SIZE_MAX: nat := 0xFFFF_FFFF_FFFF_FFFF

  // ---------------------------------------------------------------------------
  // Block arithmetic of __increaseCapacity.

  /** nSize / blockSize, plus one when there is a remainder. */
  function BlocksFor(n: nat, blockSize: nat): nat
    requires 0 < blockSize
  {
    n / blockSize + (if n % blockSize != 0 then 1 else 0)
  }

  /** BlocksFor(n) blocks hold n bytes with less than one block to spare:
      it is the smallest block multiple that is at least n. */
  lemma BlocksForIsLeast(n: nat, blockSize: nat)
    requires 0 < blockSize
    ensures n <= BlocksFor(n, blockSize) * blockSize < n + blockSize
  {
    var q, r := n / blockSize, n % blockSize;
    assert n == q * blockSize + r;
    if r != 0 {
      assert BlocksFor(n, blockSize) * blockSize == q * blockSize + blockSize;
    }
  }

  lemma MulMono(a: nat, b: nat, c: nat)
    requires a <= b
    ensures a * c <= b * c
  {
  }

  lemma MulStrict(a: nat, b: nat, c: nat)
    requires a < b
    ensures a * c + c <= b * c
  {
    MulMono(a + 1, b, c);
  }

  /** No other block count has the property of BlocksForIsLeast. */
  lemma BlocksForUnique(n: nat, k: nat, blockSize: nat)
    requires 0 < blockSize
    requires n <= k * blockSize < n + blockSize
    ensures k == BlocksFor(n, blockSize)
  {
    var j := BlocksFor(n, blockSize);
    BlocksForIsLeast(n, blockSize);
    if k < j {
      MulStrict(k, j, blockSize);
    } else if j < k {
      MulStrict(j, k, blockSize);
    }
  }

  /** Growing k blocks by the blocks for the missing bytes gives the blocks
      for the whole request: reserve's capacity does not depend on the
      capacity it started from. */
  lemma BlocksForShift(n: nat, k: nat, blockSize: nat)
    requires 0 < blockSize && k * blockSize <= n
    ensures k + BlocksFor(n - k * blockSize, blockSize) == BlocksFor(n, blockSize)
  {
    var j := BlocksFor(n - k * blockSize, blockSize);
    BlocksForIsLeast(n - k * blockSize, blockSize);
    assert (k + j) * blockSize == k * blockSize + j * blockSize;
    BlocksForUnique(n, k + j, blockSize);
  }

  /** The block ceiling is a byte ceiling: n bytes fit in m blocks exactly
      when n <= m * blockSize. */
  lemma BlocksForWithin(n: nat, m: nat, blockSize: nat)
    requires 0 < blockSize
    ensures BlocksFor(n, blockSize) <= m <==> n <= m * blockSize
  {
    var j := BlocksFor(n, blockSize);
    BlocksForIsLeast(n, blockSize);
    if j <= m {
      MulMono(j, m, blockSize);
    } else {
      MulStrict(m, j, blockSize);
    }
  }

  // ---------------------------------------------------------------------------
  // What each operation does to the logical contents.

  function Fill(c: byte, n: nat): (r: seq<byte>)
    ensures |r| == n
  {
    seq(n, _ => c)
  }

  /** resize(n, c): shrink to n, or grow by copies of c. */
  function Resized(s: seq<byte>, n: nat, c: byte): seq<byte> {
    if n <= |s| then s[..n] else s + Fill(c, n - |s|)
  }

  /** replace(pos, b): overwrite at pos, extending the contents when b runs
      past the end; at or past the end it appends at the old end instead. */
  function Spliced(s: seq<byte>, pos: nat, b: seq<byte>): seq<byte> {
    if |b| == 0 then s
    else if pos >= |s| then s + b
    else if pos + |b| <= |s| then s[..pos] + b + s[pos + |b|..]
    else s[..pos] + b
  }

  /** erase(pos, n) as intended: drop the bytes [pos, pos + n). */
  function Erased(s: seq<byte>, pos: nat, n: nat): seq<byte> {
    if n == 0 || pos >= |s| then s
    else if n == SIZE_MAX || pos + n >= |s| then s[..pos]
    else s[..pos] + s[pos + n..]
  }

  /** erase(pos, n) as dsbuffer.h:184-189 writes it: a range that ends before
      the end is copied down, but the size is never reduced, so the last n
      bytes remain, now twice. */
  function ErasedAsWritten(s: seq<byte>, pos: nat, n: nat): seq<byte> {
    if n == 0 || pos >= |s| then s
    else if n == SIZE_MAX || pos + n >= |s| then s[..pos]
    else s[..pos] + s[pos + n..] + s[|s| - n..]
  }

  /** resize keeps the first min(n, size) bytes and sets every new byte to c. */
  lemma ResizedBytes(s: seq<byte>, n: nat, c: byte)
    ensures |Resized(s, n, c)| == n
    ensures forall i :: 0 <= i < n && i < |s| ==> Resized(s, n, c)[i] == s[i]
    ensures forall i :: |s| <= i < n ==> Resized(s, n, c)[i] == c
  {
  }

  /** replace inside the contents: [pos, pos + |b|) holds b, every other byte
      is unchanged, and the size becomes max(size, pos + |b|). */
  lemma SplicedInside(s: seq<byte>, pos: nat, b: seq<byte>)
    requires pos < |s|
    ensures |Spliced(s, pos, b)| == if pos + |b| > |s| then pos + |b| else |s|
    ensures Spliced(s, pos, b)[pos..pos + |b|] == b
    ensures forall i :: 0 <= i < |s| && !(pos <= i < pos + |b|) ==> Spliced(s, pos, b)[i] == s[i]
  {
  }

  /** replace at or past the end lands the bytes at the old end, not at pos. */
  lemma SplicedPastEnd(s: seq<byte>, pos: nat, b: seq<byte>)
    requires |s| <= pos
    ensures Spliced(s, pos, b) == s + b
  {
  }

  /** Overwriting a field with one of the same width changes only that field:
      the backpatching use of replace. */
  lemma SplicedField(pre: seq<byte>, field: seq<byte>, post: seq<byte>, b: seq<byte>)
    requires |b| == |field|
    ensures Spliced(pre + field + post, |pre|, b) == pre + b + post
  {
    var s := pre + field + post;
    if |b| > 0 {
      assert s[..|pre|] == pre;
      assert s[|pre| + |b|..] == post;
    }
  }

  /** erase leaves every byte before pos, and the bytes after the erased
      range close up behind them. */
  lemma ErasedBytes(s: seq<byte>, pos: nat, n: nat)
    requires 0 < n && pos < |s|
    ensures |Erased(s, pos, n)| == if n == SIZE_MAX || pos + n >= |s| then pos else |s| - n
    ensures forall i :: 0 <= i < pos ==> Erased(s, pos, n)[i] == s[i]
    ensures forall i :: pos <= i < |Erased(s, pos, n)| ==> Erased(s, pos, n)[i] == s[i + n]
  {
  }

  /** The bytes memcpy leaves after copying the n bytes past a gap down over
      it, front to back: the gap closed, then the old last n bytes again. */
  lemma GapClosed(s: seq<byte>, d: seq<byte>, pos: nat, n: nat)
    requires 0 < n != SIZE_MAX && pos + n < |s| == |d|
    requires forall k :: 0 <= k < pos ==> d[k] == s[k]
    requires forall k :: pos <= k < |s| - n ==> d[k] == s[k + n]
    requires forall k :: |s| - n <= k < |s| ==> d[k] == s[k]
    ensures d == ErasedAsWritten(s, pos, n)
    ensures d[..|s| - n] == Erased(s, pos, n)
  {
    var t := s[..pos] + s[pos + n..] + s[|s| - n..];
    forall k | 0 <= k < |s|
      ensures d[k] == t[k]
    {
      if k < pos {
      } else if k < |s| - n {
        assert t[k] == s[k + n];
      } else {
        assert t[k] == s[k];
      }
    }
    assert d == t;
    assert t[..|s| - n] == s[..pos] + s[pos + n..];
  }

  /** The erase of dsbuffer.h:184-189 does not shorten the contents: erasing
      the first byte of [1, 2, 3] leaves [2, 3, 3] where [2, 3] is meant. */
  lemma EraseMiddleKeepsSize(s: seq<byte>, pos: nat, n: nat)
    requires 0 < n && n != SIZE_MAX && pos + n < |s|
    ensures |ErasedAsWritten(s, pos, n)| == |s|
    ensures |Erased(s, pos, n)| == |s| - n
    ensures ErasedAsWritten([1, 2, 3], 0, 1) == [2, 3, 3] && Erased([1, 2, 3], 0, 1) == [2, 3]
  {
  }

  // ---------------------------------------------------------------------------

  /** memcpy(dst, src, n) between two distinct regions. */
  method CopyPrefix(src: array<byte>, dst: array<byte>, n: nat)
    requires src != dst && n <= src.Length && n <= dst.Length
    modifies dst
    ensures dst[..n] == src[..n]
  {
    var i := 0;
    while i < n
      invariant 0 <= i <= n
      invariant dst[..i] == src[..i]
    {
      dst[i] := src[i];
      i := i + 1;
    }
  }

  class DSBuffer {
    const blockSize: nat        // allocator::blockSize
    const maxBlockCount: nat    // MaxBlockCount
    var data: array<byte>       // m_pData: capacity bytes, of which [0, size) are in use
    var size: nat               // m_nSize
    var blockCount: nat         // m_nBlockCount
    ghost var Repr: set<object>

    /** size <= capacity == blockSize * blockCount and blockCount <= maxBlockCount. */
    ghost predicate Valid()
      reads this, Repr
      ensures Valid() ==> this in Repr
    {
      Repr == {this, data} &&
      0 < blockSize &&
      data.Length == blockSize * blockCount &&
      size <= data.Length &&
      blockCount <= maxBlockCount
    }

    /** The logical contents: the bytes in use. */
    ghost function Contents(): seq<byte>
      reads this, Repr
      requires Valid()
    {
      data[..size]
    }

    function Capacity(): (c: nat)
      reads this, Repr
      requires Valid()
      ensures |Contents()| <= c <= MaxCapacity()
    {
      MulMono(blockCount, maxBlockCount, blockSize);
      blockSize * blockCount
    }

    function MaxCapacity(): nat
      reads this
    {
      blockSize * maxBlockCount
    }

    function Size(): (n: nat)
      reads this, Repr
      requires Valid()
      ensures n == |Contents()|
    {
      size
    }

    function Empty(): (b: bool)
      reads this, Repr
      requires Valid()
      ensures b <==> Contents() == []
    {
      size == 0
    }

    function CurFreeSize(): (f: nat)
      reads this, Repr
      requires Valid()
      ensures |Contents()| + f == Capacity()
    {
      Capacity() - size
    }

    function MaxFreeSize(): (f: nat)
      reads this, Repr
      requires Valid()
      ensures |Contents()| + f == MaxCapacity()
    {
      MaxCapacity() - size
    }

    constructor (blockSize: nat, maxBlockCount: nat)
      requires 0 < blockSize
      ensures Valid() && fresh(Repr)
      ensures this.blockSize == blockSize && this.maxBlockCount == maxBlockCount
      ensures Contents() == [] && blockCount == 0
    {
      this.blockSize := blockSize;
      this.maxBlockCount := maxBlockCount;
      data := new byte[0];
      size := 0;
      blockCount := 0;
      Repr := {this, data};
    }

    /** __free: give every block back and become empty. */
    method Free()
      requires Valid()
      modifies Repr
      ensures Valid() && fresh(Repr - old(Repr))
      ensures blockCount == 0 && Contents() == []
    {
      if blockCount > 0 {
        data := new byte[0];
        size := 0;
        blockCount := 0;
        Repr := {this, data};
      }
    }

    /** __increaseCapacity(n): add BlocksFor(n) blocks, copying the bytes in
        use into the new region, or fail with nothing changed when the block
        count would pass maxBlockCount. */
    method IncreaseCapacity(n: nat) returns (ok: bool)
      requires Valid()
      modifies Repr
      ensures Valid() && fresh(Repr - old(Repr))
      ensures ok <==> old(blockCount) + BlocksFor(n, blockSize) <= maxBlockCount
      ensures blockCount == if ok then old(blockCount) + BlocksFor(n, blockSize) else old(blockCount)
      ensures !ok ==> data == old(data)
      ensures Contents() == old(Contents())
    {
      if n == 0 {
        return true;
      }
      var increase := n / blockSize;
      if n % blockSize != 0 {
        increase := increase + 1;
      }
      assert increase == BlocksFor(n, blockSize);
      if blockCount + increase > maxBlockCount {
        return false;
      }
      var count := blockCount + increase;
      var region := new byte[blockSize * count];
      MulMono(blockCount, count, blockSize);
      if blockCount > 0 {
        CopyPrefix(data, region, size);
      } else {
        assert size == 0;
      }
      data := region;
      blockCount := count;
      Repr := {this, data};
      return true;
    }

    /** reserve(n): make room for n bytes without touching the contents. */
    method Reserve(n: nat) returns (ok: bool)
      requires Valid()
      modifies Repr
      ensures Valid() && fresh(Repr - old(Repr))
      ensures ok <==> n <= MaxCapacity()
      ensures Contents() == old(Contents())
      ensures n <= old(Capacity()) ==> data == old(data) && blockCount == old(blockCount)
      ensures old(Capacity()) < n ==>
                blockCount == if ok then BlocksFor(n, blockSize) else old(blockCount)
    {
      var capacity := blockSize * blockCount;
      if n <= capacity {
        MulMono(blockCount, maxBlockCount, blockSize);
        return true;
      }
      ok := IncreaseCapacity(n - capacity);
      BlocksForShift(n, old(blockCount), blockSize);
      BlocksForWithin(n, maxBlockCount, blockSize);
    }

    /** Growth for a result of `need` bytes, as resize, append and replace do it:
        when the free tail is too short, ask __increaseCapacity for the
        missing bytes. */
    method GrowFor(need: nat) returns (ok: bool)
      requires Valid() && size <= need
      modifies Repr
      ensures Valid() && fresh(Repr - old(Repr))
      ensures ok <==> need <= MaxCapacity()
      ensures ok ==> need <= Capacity()
      ensures Contents() == old(Contents())
      ensures blockCount == if ok && old(Capacity()) < need then BlocksFor(need, blockSize) else old(blockCount)
    {
      var free := blockSize * blockCount - size;
      if need - size > free {
        ok := IncreaseCapacity(need - size - free);
        BlocksForShift(need, old(blockCount), blockSize);
        BlocksForWithin(need, maxBlockCount, blockSize);
        if ok {
          BlocksForIsLeast(need, blockSize);
        }
      } else {
        MulMono(blockCount, maxBlockCount, blockSize);
        ok := true;
      }
    }

    /** resize(n, c): set the size to n; new bytes are c. Fails, changing
        nothing, past the maximum capacity. */
    method Resize(n: nat, c: byte) returns (ok: bool)
      requires Valid()
      modifies Repr
      ensures Valid() && fresh(Repr - old(Repr))
      ensures ok <==> n <= MaxCapacity()
      ensures Contents() == if ok then Resized(old(Contents()), n, c) else old(Contents())
      ensures blockCount == if ok && old(Capacity()) < n then BlocksFor(n, blockSize) else old(blockCount)
    {
      if n > size {
        ok := GrowFor(n);
        if !ok {
          return false;
        }
        // memset(__tail(), c, n - size)
        SetFrom(size, n, c);
        assert data[..n] == old(Contents()) + Fill(c, n - size);
      } else {
        MulMono(blockCount, maxBlockCount, blockSize);
      }
      size := n;
      return true;
    }

    /** Set the bytes [from, to) of the region to c (memset). */
    method SetFrom(from: nat, to: nat, c: byte)
      requires Valid() && from <= to <= data.Length
      modifies data
      ensures data[..] == old(data[..from]) + Fill(c, to - from) + old(data[to..])
    {
      var i := from;
      while i < to
        invariant from <= i <= to
        invariant data[..from] == old(data[..from])
        invariant forall k :: from <= k < i ==> data[k] == c
        invariant data[i..] == old(data[i..])
      {
        data[i] := c;
        i := i + 1;
      }
      assert data[..] == data[..from] + data[from..to] + data[to..];
    }

    /** Copy b into the region at pos (memcpy). */
    method CopyIn(pos: nat, b: seq<byte>)
      requires Valid() && pos + |b| <= data.Length
      modifies data
      ensures data[..] == old(data[..pos]) + b + old(data[pos + |b|..])
      ensures pos + |b| <= size ==> data[..size] == old(Contents())[..pos] + b + old(Contents())[pos + |b|..]
    {
      var i := 0;
      while i < |b|
        invariant 0 <= i <= |b|
        invariant data[..pos] == old(data[..pos])
        invariant data[pos..pos + i] == b[..i]
        invariant data[pos + |b|..] == old(data[pos + |b|..])
        invariant forall k :: pos + i <= k < pos + |b| ==> data[k] == old(data[k])
      {
        data[pos + i] := b[i];
        i := i + 1;
      }
      assert data[..] == data[..pos] + data[pos..pos + |b|] + data[pos + |b|..];
      if pos + |b| <= size {
        assert data[..size] == data[..][..size];
        assert old(data[pos + |b|..])[..size - pos - |b|] == old(Contents())[pos + |b|..];
      }
    }

    /** append(b): add b at the end; no-op success when b is empty. */
    method Append(b: seq<byte>) returns (ok: bool)
      requires Valid()
      modifies Repr
      ensures Valid() && fresh(Repr - old(Repr))
      ensures ok <==> |old(Contents())| + |b| <= MaxCapacity()
      ensures Contents() == if ok then old(Contents()) + b else old(Contents())
      ensures blockCount == if ok && old(Capacity()) < |Contents()| then BlocksFor(|Contents()|, blockSize) else old(blockCount)
    {
      if |b| == 0 {
        MulMono(blockCount, maxBlockCount, blockSize);
        assert old(Contents()) + b == old(Contents());
        return true;
      }
      ok := GrowFor(size + |b|);
      if !ok {
        return false;
      }
      ghost var before := data[..size];
      CopyIn(size, b);
      size := size + |b|;
      assert data[..size] == before + b;
    }

    /** replace(pos, b): overwrite in place from pos, growing when b runs past
        the end; at or past the end it is append. */
    method Replace(pos: nat, b: seq<byte>) returns (ok: bool)
      requires Valid()
      modifies Repr
      ensures Valid() && fresh(Repr - old(Repr))
      ensures ok <==> |Spliced(old(Contents()), pos, b)| <= MaxCapacity()
      ensures Contents() == if ok then Spliced(old(Contents()), pos, b) else old(Contents())
      ensures blockCount == if ok && old(Capacity()) < |Contents()| then BlocksFor(|Contents()|, blockSize) else old(blockCount)
    {
      if |b| == 0 {
        MulMono(blockCount, maxBlockCount, blockSize);
        return true;
      }
      if pos >= size {
        ok := Append(b);
        return;
      }
      if pos + |b| > size {
        ok := Resize(pos + |b|, 0);
        if !ok {
          return false;
        }
      } else {
        MulMono(blockCount, maxBlockCount, blockSize);
      }
      ghost var before := Contents();
      assert before[..pos] == old(Contents())[..pos];
      CopyIn(pos, b);
      return true;
    }

    /** Copy the n bytes after [pos, pos + n) down to pos, front to back, as
        memcpy(m_pData + pos, m_pData + pos + n, size - (pos + n)) does. */
    method CloseGap(pos: nat, n: nat)
      requires Valid() && 0 < n != SIZE_MAX && pos + n < size
      modifies data
      ensures data[..size] == ErasedAsWritten(old(Contents()), pos, n)
      ensures data[..size - n] == Erased(old(Contents()), pos, n)
    {
      ghost var s := data[..size];
      var moved := size - (pos + n);
      var i := 0;
      while i < moved
        invariant 0 <= i <= moved
        invariant forall k :: 0 <= k < pos ==> data[k] == s[k]
        invariant forall k :: pos <= k < pos + i ==> data[k] == s[k + n]
        invariant forall k :: pos + i <= k < size ==> data[k] == s[k]
      {
        data[pos + i] := data[pos + n + i];
        i := i + 1;
      }
      GapClosed(s, data[..size], pos, n);
    }

    /** erase(pos, n, free), with the shortening the source leaves out (see
        EraseAsWritten): drop [pos, pos + n); a range reaching the end (or
        n == SIZE_MAX) truncates to pos. When that empties the buffer and free
        is set, every block is given back. */
    method Erase(pos: nat, n: nat, free: bool) returns (ok: bool)
      requires Valid()
      modifies Repr
      ensures Valid() && fresh(Repr - old(Repr))
      ensures ok
      ensures Contents() == Erased(old(Contents()), pos, n)
      ensures blockCount == if n != 0 && pos < old(size) && Contents() == [] && free then 0 else old(blockCount)
    {
      if n == 0 {
        return true;
      }
      if pos >= size {
        return true;
      }
      if n == SIZE_MAX || pos + n >= size {
        Truncate(pos);
      } else {
        CloseGap(pos, n);
        size := size - n;
      }
      if size == 0 && free {
        Free();
      }
      return true;
    }

    /** The range reaching the end: resize(pos), which only shrinks here. */
    method Truncate(pos: nat)
      requires Valid() && pos <= size
      modifies Repr
      ensures Valid() && fresh(Repr - old(Repr))
      ensures Contents() == old(Contents())[..pos]
      ensures blockCount == old(blockCount)
    {
      MulMono(blockCount, maxBlockCount, blockSize);
      var _ := Resize(pos, 0);
    }

    /** erase exactly as dsbuffer.h:170-196 writes it: the middle-range branch
        moves the bytes but keeps the size. Its result is undefined there (the
        function ends without a return statement), so it has none here. */
    method EraseAsWritten(pos: nat, n: nat, free: bool)
      requires Valid()
      modifies Repr
      ensures Valid() && fresh(Repr - old(Repr))
      ensures Contents() == ErasedAsWritten(old(Contents()), pos, n)
    {
      ghost var target := ErasedAsWritten(Contents(), pos, n);
      if n == 0 || pos >= size {
        return;
      }
      if n == SIZE_MAX || pos + n >= size {
        Truncate(pos);
        assert Contents() == target;
      } else {
        CloseGap(pos, n);
        assert Contents() == target;
      }
      if size == 0 && free {
        Free();
      }
    }
  }
}
