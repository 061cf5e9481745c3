/** The pool allocator of the JSON library: blocks cut from chunks, by absolute addresses. */
module PoolAllocator {
  import opened Common

  const SHARED := 32
  const HEADER := 24

  /** Rounded up to a multiple of eight. */
  function Align(n: nat): (r: nat)
    ensures r % 8 == 0 && n <= r < n + 8
  {
    (n + 7) / 8 * 8
  }

  lemma AlignTwice(n: nat)
    ensures Align(Align(n)) == Align(n)
  {
  }

  /** A chunk whose header is at `at`. */
  datatype Chunk = Chunk(at: nat, capacity: nat, size: nat)

  function Base(c: Chunk): nat {
    c.at + HEADER
  }

  predicate Disjoint(a: nat, n: nat, b: nat, m: nat) {
    a + n <= b || b + m <= a
  }

  /** A block that was handed out, in the `home`-th chunk counted from the oldest. */
  datatype Block = Block(addr: nat, size: nat, home: nat)

  predicate ChunkOk(c: Chunk) {
    c.at % 8 == 0 && c.size % 8 == 0 && c.size <= c.capacity
  }

  predicate ChunksOk(cs: seq<Chunk>) {
    cs != [] && (forall i :: 0 <= i < |cs| ==> ChunkOk(cs[i])) &&
    forall i, j :: 0 <= i < j < |cs| ==> Disjoint(cs[i].at, HEADER + cs[i].capacity, cs[j].at, HEADER + cs[j].capacity)
  }

  /** Aligned, not empty, and within what its chunk has given out. */
  predicate Inside(b: Block, cs: seq<Chunk>) {
    b.home < |cs| && b.addr % 8 == 0 && b.size % 8 == 0 && b.size > 0 &&
    var c := cs[|cs| - 1 - b.home];
    Base(c) <= b.addr && b.addr + b.size <= Base(c) + c.size
  }

  /** `n` bytes at `addr` were taken off the newest chunk, or off a new one if that has no room. */
  predicate TakenOff(before: seq<Chunk>, after: seq<Chunk>, n: nat, addr: nat, answer: Answer, capacity: nat) {
    before != [] && after != [] &&
    var head := before[0];
    if head.size + n <= head.capacity then
      after == before[0 := head.(size := head.size + n)] && addr == Base(head) + head.size
    else
      answer.At? && after[1..] == before && addr == Base(after[0]) &&
      after[0] == Chunk(answer.at, if capacity > n then capacity else n, n)
  }

  predicate BlocksOk(bs: seq<Block>, cs: seq<Chunk>) {
    (forall i :: 0 <= i < |bs| ==> Inside(bs[i], cs)) &&
    forall i, j :: 0 <= i < j < |bs| ==> Disjoint(bs[i].addr, bs[i].size, bs[j].addr, bs[j].size)
  }

  function TotalSize(cs: seq<Chunk>): nat {
    if cs == [] then 0 else cs[0].size + TotalSize(cs[1..])
  }

  function TotalCapacity(cs: seq<Chunk>): nat {
    if cs == [] then 0 else cs[0].capacity + TotalCapacity(cs[1..])
  }

  function TotalBlocks(bs: seq<Block>): nat {
    if bs == [] then 0 else TotalBlocks(bs[..|bs| - 1]) + bs[|bs| - 1].size
  }

  lemma {:induction false} SizeWithinCapacity(cs: seq<Chunk>)
    requires forall i :: 0 <= i < |cs| ==> ChunkOk(cs[i])
    ensures TotalSize(cs) <= TotalCapacity(cs)
  {
    if cs != [] {
      assert ChunkOk(cs[0]);
      SizeWithinCapacity(cs[1..]);
    }
  }

  lemma TotalBlocksSnoc(bs: seq<Block>, b: Block)
    ensures TotalBlocks(bs + [b]) == TotalBlocks(bs) + b.size
  {
    assert (bs + [b])[..|bs|] == bs;
  }

  lemma {:induction false} TotalBlocksGrown(bs: seq<Block>, i: nat, b: Block)
    requires i < |bs|
    ensures TotalBlocks(bs[i := b]) == TotalBlocks(bs) - bs[i].size + b.size
    decreases |bs|
  {
    var n := |bs| - 1;
    if i == n {
      assert bs[i := b][..n] == bs[..n];
    } else {
      assert bs[i := b][..n] == bs[..n][i := b];
      TotalBlocksGrown(bs[..n], i, b);
    }
  }

  /** The system gives `n` bytes at `at`: aligned, and not in use. */
  predicate Given(at: nat, n: nat, cs: seq<Chunk>) {
    at % 8 == 0 && forall i :: 0 <= i < |cs| ==> Disjoint(at, n, cs[i].at, HEADER + cs[i].capacity)
  }

  /** A chunk in front keeps all blocks where they are. */
  lemma ChunkInFront(bs: seq<Block>, cs: seq<Chunk>, c: Chunk)
    requires ChunksOk(cs) && BlocksOk(bs, cs) && ChunkOk(c) && Given(c.at, HEADER + c.capacity, cs)
    ensures ChunksOk([c] + cs) && BlocksOk(bs, [c] + cs)
  {
    var ds := [c] + cs;
    forall i | 0 <= i < |bs| ensures Inside(bs[i], ds) {
      assert Inside(bs[i], cs);
      assert ds[|ds| - 1 - bs[i].home] == cs[|cs| - 1 - bs[i].home];
    }
  }

  /** The list after its head gave out `more`. */
  function Grown(cs: seq<Chunk>, more: nat): seq<Chunk>
    requires cs != []
  {
    cs[0 := cs[0].(size := cs[0].size + more)]
  }

  lemma ChunksStayOk(cs: seq<Chunk>, more: nat)
    requires ChunksOk(cs) && more % 8 == 0 && cs[0].size + more <= cs[0].capacity
    ensures ChunksOk(Grown(cs, more)) && TotalSize(Grown(cs, more)) == TotalSize(cs) + more
  {
    assert Grown(cs, more)[1..] == cs[1..];
    assert ChunkOk(cs[0]);
  }

  /** What was given out stays, and does not meet the new part. */
  lemma BlockStays(b: Block, cs: seq<Chunk>, more: nat)
    requires ChunksOk(cs) && Inside(b, cs) && cs[0].size + more <= cs[0].capacity
    ensures Inside(b, Grown(cs, more)) && Disjoint(b.addr, b.size, Base(cs[0]) + cs[0].size, more)
  {
    var k := |cs| - 1 - b.home;
    assert ChunkOk(cs[k]);
    if k > 0 {
      assert Disjoint(cs[0].at, HEADER + cs[0].capacity, cs[k].at, HEADER + cs[k].capacity);
    }
  }

  lemma BlocksStay(bs: seq<Block>, cs: seq<Chunk>, more: nat)
    requires ChunksOk(cs) && BlocksOk(bs, cs) && cs[0].size + more <= cs[0].capacity
    ensures BlocksOk(bs, Grown(cs, more))
    ensures forall i :: 0 <= i < |bs| ==> Disjoint(bs[i].addr, bs[i].size, Base(cs[0]) + cs[0].size, more)
  {
    hide Inside, Disjoint;
    forall i | 0 <= i < |bs|
      ensures Inside(bs[i], Grown(cs, more)) && Disjoint(bs[i].addr, bs[i].size, Base(cs[0]) + cs[0].size, more)
    {
      BlockStays(bs[i], cs, more);
    }
  }

  /** The new part becomes a block of its own. */
  lemma NewBlock(bs: seq<Block>, cs: seq<Chunk>, more: nat)
    requires ChunksOk(cs) && BlocksOk(bs, cs) && more % 8 == 0 && more > 0 && cs[0].size + more <= cs[0].capacity
    ensures ChunksOk(Grown(cs, more)) && TotalSize(Grown(cs, more)) == TotalSize(cs) + more
    ensures var b := Block(Base(cs[0]) + cs[0].size, more, |cs| - 1);
            BlocksOk(bs + [b], Grown(cs, more)) && TotalBlocks(bs + [b]) == TotalBlocks(bs) + more
  {
    var b := Block(Base(cs[0]) + cs[0].size, more, |cs| - 1);
    ChunksStayOk(cs, more);
    BlocksStay(bs, cs, more);
    TotalBlocksSnoc(bs, b);
    InHead(b, cs, more);
    hide Inside, Grown, ChunksOk, BlocksOk;
    OneBlockMore(bs, b, Grown(cs, more));
  }

  lemma OneBlockMore(bs: seq<Block>, b: Block, cs: seq<Chunk>)
    requires BlocksOk(bs, cs) && Inside(b, cs)
    requires forall i :: 0 <= i < |bs| ==> Disjoint(bs[i].addr, bs[i].size, b.addr, b.size)
    ensures BlocksOk(bs + [b], cs)
  {
    hide Inside, Disjoint;
  }

  lemma InHead(b: Block, cs: seq<Chunk>, more: nat)
    requires ChunksOk(cs) && more % 8 == 0 && more > 0
    requires b == Block(Base(cs[0]) + cs[0].size, more, |cs| - 1)
    ensures Inside(b, Grown(cs, more))
  {
    assert ChunkOk(cs[0]);
  }

  /** The last block of the head takes the new part. */
  lemma BlockGrows(bs: seq<Block>, cs: seq<Chunk>, more: nat, i: nat)
    requires ChunksOk(cs) && BlocksOk(bs, cs) && more % 8 == 0 && more > 0 && cs[0].size + more <= cs[0].capacity
    requires i < |bs| && bs[i].home == |cs| - 1 && bs[i].addr + bs[i].size == Base(cs[0]) + cs[0].size
    ensures ChunksOk(Grown(cs, more)) && TotalSize(Grown(cs, more)) == TotalSize(cs) + more
    ensures var b := bs[i].(size := bs[i].size + more);
            BlocksOk(bs[i := b], Grown(cs, more)) && TotalBlocks(bs[i := b]) == TotalBlocks(bs) + more
  {
    var b := bs[i].(size := bs[i].size + more);
    ChunksStayOk(cs, more);
    BlocksStay(bs, cs, more);
    TotalBlocksGrown(bs, i, b);
    GrownInside(bs[i], cs, more);
    hide Inside, Grown, ChunksOk, Base, Disjoint, TotalBlocks, TotalSize;
    forall j | 0 <= j < |bs| && j != i
      ensures Disjoint(bs[j].addr, bs[j].size, b.addr, b.size) && Disjoint(b.addr, b.size, bs[j].addr, bs[j].size)
    {
      NotEmpty(bs[j], cs);
      DisjointFromBoth(bs[j].addr, bs[j].size, bs[i].addr, bs[i].size, more);
      assert if i < j then Disjoint(bs[i].addr, bs[i].size, bs[j].addr, bs[j].size)
             else Disjoint(bs[j].addr, bs[j].size, bs[i].addr, bs[i].size);
    }
  }

  lemma NotEmpty(b: Block, cs: seq<Chunk>)
    ensures Inside(b, cs) ==> b.size > 0
  {
  }

  lemma DisjointFromBoth(a: nat, n: nat, b: nat, m: nat, more: nat)
    requires n > 0 && (Disjoint(a, n, b, m) || Disjoint(b, m, a, n)) && Disjoint(a, n, b + m, more)
    requires m > 0 && more > 0
    ensures Disjoint(a, n, b, m + more) && Disjoint(b, m + more, a, n)
  {
  }

  lemma GrownInside(b: Block, cs: seq<Chunk>, more: nat)
    requires ChunksOk(cs) && Inside(b, cs) && more % 8 == 0
    requires b.home == |cs| - 1 && b.addr + b.size == Base(cs[0]) + cs[0].size
    ensures Inside(b.(size := b.size + more), Grown(cs, more))
  {
  }

  /** A block that ends where the head's used part ends lies in the head. */
  lemma LastIsInHead(bs: seq<Block>, cs: seq<Chunk>, i: nat, size: nat)
    requires ChunksOk(cs) && BlocksOk(bs, cs) && i < |bs| && 0 < size <= bs[i].size
    requires bs[i].addr + size == Base(cs[0]) + cs[0].size
    ensures bs[i].home == |cs| - 1 && size == bs[i].size
  {
    assert Inside(bs[i], cs);
  }

  /** The bytes of the live blocks stay when one of them is moved. */
  lemma OthersUntouched(bs: seq<Block>, cs: seq<Chunk>, q: nat, n: nat, home: nat, before: nat -> Byte,
      after: nat -> Byte, j: nat, a: nat)
    requires BlocksOk(bs + [Block(q, n, home)], cs)
    requires forall x: nat :: x < q || q + n <= x ==> after(x) == before(x)
    requires j < |bs| && bs[j].addr <= a < bs[j].addr + bs[j].size
    ensures after(a) == before(a)
  {
    var all := bs + [Block(q, n, home)];
    assert Disjoint(all[j].addr, all[j].size, all[|bs|].addr, all[|bs|].size);
  }

  /** What the system's allocator answers. */
  datatype Answer = Failed | At(at: nat)

  /** A pointer that may be null. */
  datatype Pointer = Null | To(addr: nat)

  class MemoryPoolAllocator {
    const chunkCapacity: nat
    /** The list of chunks, newest first; only that one serves. */
    var chunks: seq<Chunk>
    ghost var blocks: seq<Block>
    /** The bytes in memory. */
    var mem: nat -> Byte

    ghost predicate Valid()
      reads this
    {
      chunks != [] && ChunksOk(chunks) && BlocksOk(blocks, chunks) && TotalSize(chunks) == TotalBlocks(blocks)
    }

    /** One empty chunk, of no capacity, behind the shared data at `shared`. */
    constructor (chunkSize: nat, shared: nat)
      requires shared % 8 == 0
      ensures Valid() && blocks == [] && chunkCapacity == chunkSize
      ensures chunks == [Chunk(shared + SHARED, 0, 0)]
    {
      chunkCapacity := chunkSize;
      chunks, blocks, mem := [Chunk(shared + SHARED, 0, 0)], [], (a: nat) => '\0';
    }

    /** The first chunk is what the caller's buffer leaves after alignment and the headers. */
    constructor WithBuffer(buffer: nat, size: nat, chunkSize: nat)
      requires size >= Align(buffer) - buffer + SHARED + HEADER
      ensures Valid() && blocks == [] && chunkCapacity == chunkSize
      ensures |chunks| == 1 && buffer <= chunks[0].at && Base(chunks[0]) + chunks[0].capacity == buffer + size
    {
      chunkCapacity := chunkSize;
      var aligned := Align(buffer);
      chunks, blocks := [Chunk(aligned + SHARED, size - (aligned - buffer) - SHARED - HEADER, 0)], [];
      mem := (a: nat) => '\0';
    }

    method AddChunk(capacity: nat, answer: Answer) returns (ok: bool)
      requires Valid() && (answer.At? ==> Given(answer.at, HEADER + capacity, chunks))
      modifies this`chunks
      ensures Valid() && (ok <==> answer.At?)
      ensures chunks == if ok then [Chunk(answer.at, capacity, 0)] + old(chunks) else old(chunks)
    {
      if answer.Failed? { return false; }
      ChunkInFront(blocks, chunks, Chunk(answer.at, capacity, 0));
      chunks := [Chunk(answer.at, capacity, 0)] + chunks;
      return true;
    }

    /** How much a new chunk must hold. */
    function Wanted(size: nat): nat
      reads this
    {
      if chunkCapacity > Align(size) then chunkCapacity else Align(size)
    }

    /** A new block behind the others; null for nothing, or when a chunk is needed and refused. */
    method Malloc(size: nat, answer: Answer) returns (p: Pointer)
      requires Valid() && (answer.At? ==> Given(answer.at, HEADER + Wanted(size), chunks))
      modifies this`chunks, this`blocks
      ensures Valid()
      ensures p == Null <==> size == 0 || (old(chunks[0].size + Align(size) > chunks[0].capacity) && answer.Failed?)
      ensures p == Null ==> blocks == old(blocks) && chunks == old(chunks)
      ensures p.To? ==> blocks == old(blocks) + [Block(p.addr, Align(size), |chunks| - 1)]
      ensures p.To? ==> TakenOff(old(chunks), chunks, Align(size), p.addr, answer, chunkCapacity)
    {
      hide ChunksOk, BlocksOk, TotalSize, TotalBlocks, Given;
      if size == 0 { return Null; }
      var n := Align(size);
      if chunks[0].size + n > chunks[0].capacity {
        var ok := AddChunk(Wanted(size), answer);
        if !ok { return Null; }
      }
      p := To(Base(chunks[0]) + chunks[0].size);
      NewBlock(blocks, chunks, n);
      blocks := blocks + [Block(p.addr, n, |chunks| - 1)];
      chunks := chunks[0 := chunks[0].(size := chunks[0].size + n)];
    }

    /** The new size asks for no more than the block has. */
    predicate Fits(originalSize: nat, newSize: nat)
      reads this
    {
      Align(originalSize) >= Align(newSize)
    }

    /** The block is the last one of the newest chunk, which has room for it to grow. */
    predicate GrowsInPlace(addr: nat, originalSize: nat, newSize: nat)
      requires chunks != []
      reads this
    {
      addr + Align(originalSize) == Base(chunks[0]) + chunks[0].size &&
      chunks[0].size + Align(newSize) - Align(originalSize) <= chunks[0].capacity
    }

    predicate StaysPut(addr: nat, originalSize: nat, newSize: nat)
      requires chunks != []
      reads this
    {
      Fits(originalSize, newSize) || GrowsInPlace(addr, originalSize, newSize)
    }

    /** A new block with the contents of the old one. */
    method MoveTo(addr: nat, original: nat, wanted: nat, answer: Answer) returns (q: Pointer)
      requires Valid() && (answer.At? ==> Given(answer.at, HEADER + Wanted(wanted), chunks)) && wanted > 0
      modifies this
      ensures Valid()
      ensures q == Null <==> old(chunks[0].size + Align(wanted) > chunks[0].capacity) && answer.Failed?
      ensures q == Null ==> blocks == old(blocks) && chunks == old(chunks) && mem == old(mem)
      ensures q.To? ==>
              blocks == old(blocks) + [Block(q.addr, Align(wanted), |chunks| - 1)] &&
              TakenOff(old(chunks), chunks, Align(wanted), q.addr, answer, chunkCapacity) &&
              (forall a: nat :: q.addr <= a < q.addr + original ==> mem(a) == old(mem)(addr + (a - q.addr))) &&
              (forall a: nat :: a < q.addr || q.addr + original <= a ==> mem(a) == old(mem)(a))
    {
      hide ChunksOk, BlocksOk, TotalSize, TotalBlocks, Given, TakenOff;
      q := Malloc(wanted, answer);
      if q.To? {
        var was, to := mem, q.addr;
        mem := (a: nat) => if to <= a < to + original then was(addr + (a - to)) else was(a);
      }
    }

    /** Keeps the block if it is large enough, grows it where it is if it is the last one and there is room,
        else makes a new one; in every case the old contents are there, and no other byte changes. */
    method Realloc(p: Pointer, originalSize: nat, newSize: nat, answer: Answer, ghost i: nat) returns (q: Pointer)
      requires Valid() && (answer.At? ==> Given(answer.at, HEADER + Wanted(newSize), chunks))
      requires p.To? ==> i < |blocks| && blocks[i].addr == p.addr && 0 < Align(originalSize) <= blocks[i].size
      modifies this
      ensures Valid()
      ensures newSize == 0 ==> q == Null
      ensures newSize > 0 && p.To? && old(StaysPut(p.addr, originalSize, newSize)) ==> q == p
      ensures newSize > 0 && !(p.To? && old(StaysPut(p.addr, originalSize, newSize))) ==>
              (q == Null <==> old(chunks[0].size + Align(newSize) > chunks[0].capacity) && answer.Failed?)
      ensures q == Null ==> blocks == old(blocks) && chunks == old(chunks) && mem == old(mem)
      ensures p == Null && q.To? ==>
              blocks == old(blocks) + [Block(q.addr, Align(newSize), |chunks| - 1)] &&
              TakenOff(old(chunks), chunks, Align(newSize), q.addr, answer, chunkCapacity) && mem == old(mem)
      ensures p.To? && newSize > 0 && old(Fits(originalSize, newSize)) ==>
              blocks == old(blocks) && chunks == old(chunks) && mem == old(mem)
      ensures p.To? && newSize > 0 && !old(Fits(originalSize, newSize)) &&
              old(GrowsInPlace(p.addr, originalSize, newSize)) ==>
              blocks == old(blocks[i := blocks[i].(size := Align(newSize))]) && mem == old(mem) &&
              var head := old(chunks[0]);
              chunks == old(chunks)[0 := head.(size := head.size + Align(newSize) - Align(originalSize))]
      ensures p.To? && q.To? && !old(StaysPut(p.addr, originalSize, newSize)) ==>
              blocks == old(blocks) + [Block(q.addr, Align(newSize), |chunks| - 1)] &&
              TakenOff(old(chunks), chunks, Align(newSize), q.addr, answer, chunkCapacity) &&
              (forall a: nat :: q.addr <= a < q.addr + Align(originalSize) ==>
                mem(a) == old(mem)(p.addr + (a - q.addr))) &&
              (forall a: nat :: a < q.addr || q.addr + Align(originalSize) <= a ==> mem(a) == old(mem)(a))
    {
      hide ChunksOk, BlocksOk, TotalSize, TotalBlocks, Given, TakenOff;
      AlignTwice(newSize);
      if p == Null {
        q := Malloc(newSize, answer);
        return;
      }
      if newSize == 0 { return Null; }
      var original, wanted := Align(originalSize), Align(newSize);
      if original >= wanted { return p; }
      if p.addr == Base(chunks[0]) + chunks[0].size - original {
        LastIsInHead(blocks, chunks, i, original);
        var increment := wanted - original;
        if chunks[0].size + increment <= chunks[0].capacity {
          BlockGrows(blocks, chunks, increment, i);
          blocks := blocks[i := blocks[i].(size := wanted)];
          chunks := chunks[0 := chunks[0].(size := chunks[0].size + increment)];
          return p;
        }
      }
      q := MoveTo(p.addr, original, wanted, answer);
    }

    /** Frees all chunks but the oldest, and everything in that one. */
    method Clear()
      requires Valid()
      modifies this`chunks, this`blocks
      ensures Valid() && blocks == [] && |chunks| == 1
      ensures chunks == [old(chunks[|chunks| - 1]).(size := 0)]
    {
      while |chunks| > 1
        invariant chunks != [] && chunks[|chunks| - 1] == old(chunks[|chunks| - 1])
        decreases |chunks|
      {
        chunks := chunks[1..];
      }
      assert ChunkOk(chunks[0]);
      chunks := chunks[0 := chunks[0].(size := 0)];
      blocks := [];
    }

    /** What was given out, block by block. */
    method Size() returns (size: nat)
      requires Valid()
      ensures size == TotalBlocks(blocks) && size <= TotalCapacity(chunks)
    {
      size := 0;
      var c := chunks;
      while c != []
        invariant size + TotalSize(c) == TotalSize(chunks)
        decreases |c|
      {
        size := size + c[0].size;
        c := c[1..];
      }
      SizeWithinCapacity(chunks);
    }

    method Capacity() returns (capacity: nat)
      ensures capacity == TotalCapacity(chunks)
    {
      capacity := 0;
      var c := chunks;
      while c != []
        invariant capacity + TotalCapacity(c) == TotalCapacity(chunks)
        decreases |c|
      {
        capacity := capacity + c[0].capacity;
        c := c[1..];
      }
    }
  }
}
