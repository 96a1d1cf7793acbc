/** The pool allocator of the DOM: blocks cut in turn from the newest of a linked list of chunks. */
module MemoryPools {

  import opened Wrappers

  type Byte = b: int | 0 <= b < 256

  /** RAPIDJSON_ALIGN(sizeof(ChunkHeader)) on a 64-bit machine. */
  const HEADER: nat := 24
  /** No object is larger, and no address: sums of two sizes stay below 2^64. */
  const LARGEST: nat := 0x4000_0000_0000_0000

  datatype Block = Block(address: nat, size: nat)

  datatype Region = Region(base: nat, capacity: nat, size: nat)

  function Align(n: nat): (a: nat)
    ensures a % 8 == 0 && n <= a < n + 8
  {
    (n + 7) / 8 * 8
  }

  function Start(r: Region): nat {
    r.base + HEADER
  }

  /// ## Blocks that fill the used part of a chunk

  /** The blocks follow each other from `start` to `end` without a gap. */
  predicate Tiles(blocks: seq<Block>, start: nat, end: nat) {
    if blocks == [] then start == end
    else
      var last := blocks[|blocks| - 1];
      && last.size > 0 && last.size % 8 == 0 && last.address + last.size == end
      && start <= last.address && Tiles(blocks[..|blocks| - 1], start, last.address)
  }

  predicate Disjoint(a: Block, b: Block) {
    a.address + a.size <= b.address || b.address + b.size <= a.address
  }

  predicate Within(b: Block, start: nat, end: nat) {
    start <= b.address && b.address + b.size <= end && b.address % 8 == start % 8 && b.size > 0
  }

  lemma {:induction false} TilesWithin(blocks: seq<Block>, start: nat, end: nat, i: nat)
    requires Tiles(blocks, start, end) && i < |blocks|
    ensures start <= end && Within(blocks[i], start, end)
  {
    var front, last := blocks[..|blocks| - 1], blocks[|blocks| - 1];
    TilesAligned(blocks, start, end);
    TilesAligned(front, start, last.address);
    if i < |front| {
      TilesWithin(front, start, last.address, i);
    }
  }

  lemma {:induction false} TilesAligned(blocks: seq<Block>, start: nat, end: nat)
    requires Tiles(blocks, start, end)
    ensures start <= end && end % 8 == start % 8
  {
    if blocks != [] {
      TilesAligned(blocks[..|blocks| - 1], start, blocks[|blocks| - 1].address);
    }
  }

  lemma {:induction false} TilesDisjoint(blocks: seq<Block>, start: nat, end: nat, i: nat, j: nat)
    requires Tiles(blocks, start, end) && i < j < |blocks|
    ensures Disjoint(blocks[i], blocks[j])
  {
    var front, last := blocks[..|blocks| - 1], blocks[|blocks| - 1];
    if j < |front| {
      TilesDisjoint(front, start, last.address, i, j);
    } else {
      TilesWithin(front, start, last.address, i);
    }
  }

  function TotalSize(blocks: seq<Block>): nat {
    if blocks == [] then 0 else TotalSize(blocks[..|blocks| - 1]) + blocks[|blocks| - 1].size
  }

  lemma {:induction false} TilesTotal(blocks: seq<Block>, start: nat, end: nat)
    requires Tiles(blocks, start, end)
    ensures start + TotalSize(blocks) == end
  {
    if blocks != [] {
      TilesTotal(blocks[..|blocks| - 1], start, blocks[|blocks| - 1].address);
    }
  }

  lemma {:induction false} TotalAdds(a: seq<Block>, b: seq<Block>)
    ensures TotalSize(a + b) == TotalSize(a) + TotalSize(b)
  {
    if b == [] {
      assert a + b == a;
    } else {
      TotalAdds(a, b[..|b| - 1]);
      assert (a + b)[..|a + b| - 1] == a + b[..|b| - 1];
    }
  }

  lemma TilesMore(blocks: seq<Block>, start: nat, end: nat, size: nat)
    requires Tiles(blocks, start, end) && size > 0 && size % 8 == 0
    ensures Tiles(blocks + [Block(end, size)], start, end + size)
  {
    TilesAligned(blocks, start, end);
    assert (blocks + [Block(end, size)])[..|blocks|] == blocks;
  }

  lemma TilesExtended(blocks: seq<Block>, start: nat, end: nat, size: nat)
    requires Tiles(blocks, start, end) && blocks != []
    requires blocks[|blocks| - 1].size <= size && size % 8 == 0
    ensures var last := blocks[|blocks| - 1];
            Tiles(blocks[|blocks| - 1 := Block(last.address, size)], start, last.address + size)
  {
    var last := blocks[|blocks| - 1];
    assert blocks[|blocks| - 1 := Block(last.address, size)][..|blocks| - 1] == blocks[..|blocks| - 1];
  }

  /// ## The chunks together

  predicate Apart(a: Region, b: Region) {
    Start(a) + a.capacity <= b.base || Start(b) + b.capacity <= a.base
  }

  /** `handed[i]` are the blocks cut from chunk `i`; the newest chunk is the first. */
  predicate Tiled(regions: seq<Region>, handed: seq<seq<Block>>) {
    && |regions| == |handed|
    && (forall i :: 0 <= i < |regions| ==>
          regions[i].size <= regions[i].capacity
          && Tiles(handed[i], Start(regions[i]), Start(regions[i]) + regions[i].size))
    && forall i, j :: 0 <= i < j < |regions| ==> Apart(regions[i], regions[j])
  }

  /** Every block handed out since the last clear, oldest first. */
  function Blocks(handed: seq<seq<Block>>): seq<Block> {
    if handed == [] then [] else Blocks(handed[1..]) + handed[0]
  }

  function TotalUsed(regions: seq<Region>): nat {
    if regions == [] then 0 else regions[0].size + TotalUsed(regions[1..])
  }

  lemma TiledRest(regions: seq<Region>, handed: seq<seq<Block>>)
    requires Tiled(regions, handed) && regions != []
    ensures Tiled(regions[1..], handed[1..])
  {
    var rest := regions[1..];
    forall i, j | 0 <= i < j < |rest|
      ensures Apart(rest[i], rest[j])
    {
      assert Apart(regions[i + 1], regions[j + 1]);
    }
  }

  /** Every block lies in the used part of one chunk, and is aligned as that chunk is. */
  lemma {:induction false} BlockInChunk(regions: seq<Region>, handed: seq<seq<Block>>, n: nat) returns (k: nat)
    requires Tiled(regions, handed) && n < |Blocks(handed)|
    ensures k < |regions|
    ensures Within(Blocks(handed)[n], Start(regions[k]), Start(regions[k]) + regions[k].size)
  {
    TiledRest(regions, handed);
    var older := Blocks(handed[1..]);
    if n < |older| {
      k := BlockInChunk(regions[1..], handed[1..], n);
      k := k + 1;
    } else {
      k := 0;
      TilesWithin(handed[0], Start(regions[0]), Start(regions[0]) + regions[0].size, n - |older|);
    }
  }

  /** Any two blocks are disjoint. */
  lemma {:induction false} BlocksDisjoint(regions: seq<Region>, handed: seq<seq<Block>>, m: nat, n: nat)
    requires Tiled(regions, handed) && m < n < |Blocks(handed)|
    ensures Disjoint(Blocks(handed)[m], Blocks(handed)[n])
  {
    TiledRest(regions, handed);
    var older := Blocks(handed[1..]);
    var r := regions[0];
    if n < |older| {
      BlocksDisjoint(regions[1..], handed[1..], m, n);
    } else if m >= |older| {
      TilesDisjoint(handed[0], Start(r), Start(r) + r.size, m - |older|, n - |older|);
    } else {
      TilesWithin(handed[0], Start(r), Start(r) + r.size, n - |older|);
      var k := BlockInChunk(regions[1..], handed[1..], m);
      assert Apart(regions[0], regions[k + 1]);
    }
  }

  /** The used sizes of the chunks add up to the bytes handed out. */
  lemma {:induction false} UsedIsHandedOut(regions: seq<Region>, handed: seq<seq<Block>>)
    requires Tiled(regions, handed)
    ensures TotalUsed(regions) == TotalSize(Blocks(handed))
  {
    if regions != [] {
      TiledRest(regions, handed);
      UsedIsHandedOut(regions[1..], handed[1..]);
      TilesTotal(handed[0], Start(regions[0]), Start(regions[0]) + regions[0].size);
      TotalAdds(Blocks(handed[1..]), handed[0]);
    }
  }

  lemma OlderBlock(regions: seq<Region>, handed: seq<seq<Block>>, n: nat, size: nat)
    requires Tiled(regions, handed) && regions != [] && n < |Blocks(handed[1..])|
    requires size <= Blocks(handed[1..])[n].size
    ensures Blocks(handed[1..])[n].address + size != Start(regions[0]) + regions[0].size
  {
    TiledRest(regions, handed);
    var k := BlockInChunk(regions[1..], handed[1..], n);
    assert Apart(regions[0], regions[k + 1]);
  }

  /** A block that ends where the newest chunk's used part ends is the newest block of that chunk. */
  lemma LastBlock(regions: seq<Region>, handed: seq<seq<Block>>, n: nat, size: nat)
    requires Tiled(regions, handed) && n < |Blocks(handed)| && size <= Blocks(handed)[n].size
    requires Blocks(handed)[n].address + size == Start(regions[0]) + regions[0].size
    ensures n == |Blocks(handed)| - 1 && handed[0] != [] && size == Blocks(handed)[n].size
    ensures Blocks(handed)[n] == handed[0][|handed[0]| - 1]
  {
    var r, older := regions[0], Blocks(handed[1..]);
    TiledRest(regions, handed);
    if n < |older| {
      OlderBlock(regions, handed, n, size);
      assert false;
    } else {
      var front, last := handed[0][..|handed[0]| - 1], handed[0][|handed[0]| - 1];
      TilesWithin(handed[0], Start(r), Start(r) + r.size, n - |older|);
      if n - |older| < |front| {
        TilesWithin(front, Start(r), last.address, n - |older|);
      }
    }
  }

  lemma HeadGrows(regions: seq<Region>, handed: seq<seq<Block>>, blocks: seq<Block>, size: nat)
    requires Tiled(regions, handed) && regions != [] && size <= regions[0].capacity
    requires Tiles(blocks, Start(regions[0]), Start(regions[0]) + size)
    ensures Tiled(regions[0 := regions[0].(size := size)], handed[0 := blocks])
    ensures Blocks(handed[0 := blocks]) == Blocks(handed[1..]) + blocks
  {
    var more := regions[0 := regions[0].(size := size)];
    assert handed[0 := blocks][1..] == handed[1..];
    forall i, j | 0 <= i < j < |more|
      ensures Apart(more[i], more[j])
    {
      assert Apart(regions[i], regions[j]);
    }
  }

  lemma ChunkAdded(regions: seq<Region>, handed: seq<seq<Block>>, r: Region)
    requires Tiled(regions, handed) && r.size == 0
    requires forall i :: 0 <= i < |regions| ==> Apart(r, regions[i])
    ensures Tiled([r] + regions, [[]] + handed) && Blocks([[]] + handed) == Blocks(handed)
  {
    var more := [r] + regions;
    forall i, j | 0 <= i < j < |more|
      ensures Apart(more[i], more[j])
    {
      assert i > 0 ==> Apart(regions[i - 1], regions[j - 1]);
    }
    assert ([[]] + handed)[1..] == handed;
    assert Blocks(handed) + [] == Blocks(handed);
  }

  /// ## The allocator

  class ChunkHeader {
    const base: nat
    const capacity: nat
    var size: nat
    const next: ChunkHeader?

    constructor (base: nat, capacity: nat, next: ChunkHeader?)
      ensures this.base == base && this.capacity == capacity && size == 0 && this.next == next
    {
      this.base, this.capacity, size, this.next := base, capacity, 0, next;
    }
  }

  /** The chunk that follows chunk `i` in the list. */
  function After(chunks: seq<ChunkHeader>, i: nat): ChunkHeader? {
    if i + 1 < |chunks| then chunks[i + 1] else null
  }

  /** The list from `head` runs through `chunks`, each once, and ends with the user's buffer if any. */
  predicate Linked(head: ChunkHeader?, chunks: seq<ChunkHeader>, userBuffer: ChunkHeader?) {
    && (head == if chunks == [] then null else chunks[0])
    && (forall i :: 0 <= i < |chunks| ==> chunks[i].next == After(chunks, i))
    && (forall i, j :: 0 <= i < j < |chunks| ==> chunks[i] != chunks[j])
    && (forall i :: 0 <= i < |chunks| ==> (chunks[i] == userBuffer <==> userBuffer != null && i == |chunks| - 1))
    && (userBuffer != null ==> chunks != [])
  }

  /** Every chunk lies in memory, and those from the base allocator are aligned. */
  predicate Placed(chunks: seq<ChunkHeader>, userBuffer: ChunkHeader?, limit: nat) {
    forall i :: 0 <= i < |chunks| ==>
      && chunks[i].base + HEADER + chunks[i].capacity <= limit
      && (chunks[i] != userBuffer ==> chunks[i].base % 8 == 0)
  }

  lemma LinkedMore(head: ChunkHeader?, chunks: seq<ChunkHeader>, userBuffer: ChunkHeader?, chunk: ChunkHeader)
    requires Linked(head, chunks, userBuffer) && chunk.next == head && chunk != userBuffer && chunk !in chunks
    ensures Linked(chunk, [chunk] + chunks, userBuffer)
  {
    var more := [chunk] + chunks;
    forall i | 0 <= i < |more|
      ensures more[i].next == After(more, i)
    {
      assert i > 0 ==> more[i] == chunks[i - 1] && After(more, i) == After(chunks, i - 1);
    }
  }

  lemma PlacedMore(chunks: seq<ChunkHeader>, userBuffer: ChunkHeader?, limit: nat, chunk: ChunkHeader)
    requires Placed(chunks, userBuffer, limit) && chunk.base % 8 == 0
    requires chunk.base + HEADER + chunk.capacity <= limit
    ensures Placed([chunk] + chunks, userBuffer, limit)
  {
  }

  /** After clearing, the list is the user's buffer if there is one. */
  lemma OnlyBuffer(chunks: seq<ChunkHeader>, userBuffer: ChunkHeader?, limit: nat)
    requires (userBuffer != null ==> chunks != [] && chunks[|chunks| - 1] == userBuffer)
    requires forall i :: 0 <= i < |chunks| ==> chunks[i].next == After(chunks, i)
    requires Placed(chunks, userBuffer, limit)
    ensures var kept := if userBuffer == null then [] else [userBuffer];
            Linked(userBuffer, kept, userBuffer) && Placed(kept, userBuffer, limit)
  {
    if userBuffer != null {
      var last := |chunks| - 1;
      assert chunks[last].next == After(chunks, last) == null;
      assert After([userBuffer], 0) == null;
    }
  }

  class MemoryPoolAllocator {
    const memory: array<Byte>            // all addresses
    const chunkCapacity: nat
    const userBuffer: ChunkHeader?
    var chunkHead: ChunkHeader?
    var freed: seq<nat>                  // the chunks given back to the base allocator
    ghost var chunks: seq<ChunkHeader>
    ghost var handed: seq<seq<Block>>

    ghost function Regions(): seq<Region>
      reads this, chunks
    {
      seq(|chunks|, i requires 0 <= i < |chunks| reads this, chunks =>
        Region(chunks[i].base, chunks[i].capacity, chunks[i].size))
    }

    ghost predicate Valid()
      reads this, chunks
    {
      && Linked(chunkHead, chunks, userBuffer) && Placed(chunks, userBuffer, memory.Length)
      && Tiled(Regions(), handed) && memory.Length <= LARGEST && chunkCapacity <= LARGEST
    }

    ghost function Handed(): seq<Block>
      reads this
    {
      Blocks(handed)
    }

    /** What the base allocator promises of the address of a new chunk. */
    ghost predicate Free(base: nat, capacity: nat)
      requires Valid()
      reads this, chunks
    {
      && base % 8 == 0 && base + HEADER + capacity <= memory.Length
      && forall i :: 0 <= i < |chunks| ==> Apart(Region(base, capacity, 0), Regions()[i])
    }

    /** An allocator without a buffer of the user's. */
    constructor (memory: array<Byte>, chunkCapacity: nat)
      requires memory.Length <= LARGEST && chunkCapacity <= LARGEST
      ensures Valid() && this.memory == memory && chunks == [] && Handed() == []
    {
      this.memory, this.chunkCapacity, userBuffer, chunkHead, freed := memory, chunkCapacity, null, null, [];
      chunks, handed := [], [];
    }

    /** An allocator whose first chunk is a buffer of the user's. */
    constructor WithBuffer(memory: array<Byte>, buffer: nat, size: nat, chunkCapacity: nat)
      requires memory.Length <= LARGEST && chunkCapacity <= LARGEST
      requires size > HEADER && buffer + size <= memory.Length
      ensures Valid() && this.memory == memory && Handed() == [] && userBuffer != null && fresh(userBuffer)
      ensures chunks == [userBuffer] && Regions() == [Region(buffer, size - HEADER, 0)]
    {
      var chunk := new ChunkHeader(buffer, size - HEADER, null);
      this.memory, this.chunkCapacity, userBuffer, chunkHead, freed := memory, chunkCapacity, chunk, chunk, [];
      chunks, handed := [chunk], [[]];
      new;
      assert Blocks(handed[1..]) == [];
    }

    /** Puts a new chunk in front, if the base allocator has one at `region`. */
    method AddChunk(capacity: nat, region: Option<nat>) returns (ok: bool)
      requires Valid() && (region.Some? ==> Free(region.value, capacity))
      modifies this
      ensures Valid() && ok == region.Some? && Handed() == old(Handed()) && freed == old(freed)
      ensures ok ==> chunkHead != null && fresh(chunkHead) && chunks == [chunkHead] + old(chunks)
      ensures ok ==> Regions() == [Region(region.value, capacity, 0)] + old(Regions()) && handed == [[]] + old(handed)
      ensures !ok ==> chunks == old(chunks) && handed == old(handed) && chunkHead == old(chunkHead)
    {
      if region.None? {
        return false;
      }
      ghost var before := Regions();
      ChunkAdded(before, handed, Region(region.value, capacity, 0));
      var chunk := new ChunkHeader(region.value, capacity, chunkHead);
      LinkedMore(chunkHead, chunks, userBuffer, chunk);
      PlacedMore(chunks, userBuffer, memory.Length, chunk);
      chunkHead := chunk;
      chunks, handed := [chunk] + chunks, [[]] + handed;
      assert Regions() == [Region(region.value, capacity, 0)] + before;
      ok := true;
    }

    /** Whether the newest chunk cannot hold `size` more bytes. */
    predicate NeedsChunk(size: nat)
      reads this, chunkHead
    {
      chunkHead == null || chunkHead.size + size > chunkHead.capacity
    }

    function ChunkSize(size: nat): nat {
      if chunkCapacity > size then chunkCapacity else size
    }

    /** Sets the used size of the newest chunk, which `blocks` then fill. */
    method Resize(size: nat, ghost blocks: seq<Block>)
      requires Valid() && chunkHead != null && size <= chunkHead.capacity
      requires Tiles(blocks, chunkHead.base + HEADER, chunkHead.base + HEADER + size)
      modifies this`handed, chunkHead
      ensures Valid() && |handed| == old(|handed|) > 0 && Handed() == Blocks(old(handed)[1..]) + blocks
    {
      ghost var before := Regions();
      assert before[0] == Region(chunkHead.base, chunkHead.capacity, chunkHead.size);
      HeadGrows(before, handed, blocks, size);
      chunkHead.size := size;
      handed := handed[0 := blocks];
      assert Regions() == before[0 := before[0].(size := size)];
    }

    /** Cuts a block from the newest chunk. */
    method Cut(size: nat) returns (p: nat)
      requires Valid() && !NeedsChunk(size) && size > 0 && size % 8 == 0
      modifies this`handed, chunkHead
      ensures Valid() && Handed() == old(Handed()) + [Block(p, size)] && |handed| == old(|handed|)
    {
      p := chunkHead.base + HEADER + chunkHead.size;
      assert Regions()[0] == Region(chunkHead.base, chunkHead.capacity, chunkHead.size);
      TilesMore(handed[0], chunkHead.base + HEADER, p, size);
      HandedRegrouped(Blocks(handed[1..]), handed[0], Block(p, size));
      Resize(chunkHead.size + size, handed[0] + [Block(p, size)]);
    }

    /** Hands out a new block of the aligned size, or nothing. */
    method Malloc(size: nat, region: Option<nat>) returns (p: Option<nat>)
      requires Valid() && size <= LARGEST && (region.Some? ==> Free(region.value, ChunkSize(Align(size))))
      modifies this, chunks
      ensures Valid() && freed == old(freed)
      ensures p.None? <==> size == 0 || (old(NeedsChunk(Align(size))) && region.None?)
      ensures Handed() == if p.None? then old(Handed()) else old(Handed()) + [Block(p.value, Align(size))]
    {
      if size == 0 {
        return None;
      }
      var aligned := Align(size);
      assert chunkHead != null ==> chunkHead.size + aligned < 0x1_0000_0000_0000_0000 by {
        assert chunkHead != null ==> Regions()[0].size <= Regions()[0].capacity;
      }
      if chunkHead == null || chunkHead.size + aligned > chunkHead.capacity {
        var ok := AddChunk(ChunkSize(aligned), region);
        if !ok {
          return None;
        }
        assert Regions()[0] == Region(region.value, ChunkSize(aligned), 0);
      }
      var address := Cut(aligned);
      p := Some(address);
    }

    /** Copies `n` bytes between ranges that do not overlap. */
    method Copy(to: nat, from: nat, n: nat)
      requires to + n <= memory.Length && from + n <= memory.Length && (to + n <= from || from + n <= to)
      modifies memory
      ensures memory[to..to + n] == old(memory[from..from + n])
      ensures forall a :: 0 <= a < memory.Length && !(to <= a < to + n) ==> memory[a] == old(memory[a])
    {
      var i := 0;
      while i < n
        invariant 0 <= i <= n
        invariant memory[to..to + i] == old(memory[from..from + i])
        invariant forall a :: 0 <= a < memory.Length && !(to <= a < to + i) ==> memory[a] == old(memory[a])
      {
        memory[to + i] := memory[from + i];
        i := i + 1;
      }
    }

    lemma InMemory(n: nat)
      requires Valid() && n < |Handed()|
      ensures Handed()[n].address + Handed()[n].size <= memory.Length && Handed()[n].size > 0
    {
      var k := BlockInChunk(Regions(), handed, n);
      assert Regions()[k].size <= Regions()[k].capacity;
      assert chunks[k].base + HEADER + chunks[k].capacity <= memory.Length;
    }

    /** Blocks are aligned, except in a buffer of the user's that is not. */
    lemma BlocksAligned(n: nat)
      requires Valid() && n < |Handed()|
      requires userBuffer == null || userBuffer.base % 8 == 0
      ensures Handed()[n].address % 8 == 0
    {
      var k := BlockInChunk(Regions(), handed, n);
      assert chunks[k].base % 8 == 0;
      assert Regions()[k].base == chunks[k].base;
    }

    /** Whether block `n` ends the used part of the newest chunk. */
    lemma Newest(n: nat, size: nat)
      requires Valid() && n < |Handed()| && size <= Handed()[n].size
      ensures chunkHead != null
      ensures Handed()[n].address + size == chunkHead.base + HEADER + chunkHead.size ==>
                && n == |Handed()| - 1 && handed[0] != [] && size == Handed()[n].size
                && Handed()[n] == handed[0][|handed[0]| - 1]
    {
      assert handed != [];
      if Handed()[n].address + size == chunkHead.base + HEADER + chunkHead.size {
        LastBlock(Regions(), handed, n, size);
      }
    }

    lemma LengthenedFits(increment: nat)
      requires Valid() && chunkHead != null && handed[0] != [] && increment % 8 == 0
      ensures var start := chunkHead.base + HEADER;
              Tiles(Lengthened(handed[0], increment), start, start + (chunkHead.size + increment))
      ensures Handed() != [] && Blocks(handed[1..]) + Lengthened(handed[0], increment)
              == Lengthened(Handed(), increment)
    {
      var start, last := chunkHead.base + HEADER, handed[0][|handed[0]| - 1];
      assert Regions()[0] == Region(chunkHead.base, chunkHead.capacity, chunkHead.size);
      TilesExtended(handed[0], start, start + chunkHead.size, last.size + increment);
      UpdatedLast(Blocks(handed[1..]), handed[0], Block(last.address, last.size + increment));
    }

    /** Lengthens the newest block where it is. */
    method Extend(increment: nat)
      requires Valid() && !NeedsChunk(increment) && handed[0] != [] && increment % 8 == 0
      modifies this`handed, chunkHead
      ensures Valid() && old(Handed()) != [] && Handed() == Lengthened(old(Handed()), increment)
    {
      ghost var blocks := Lengthened(handed[0], increment);
      LengthenedFits(increment);
      Resize(chunkHead.size + increment, blocks);
    }

    /** Gives a larger block the contents of block `n`, of which the caller uses `originalSize` bytes:
        the same address if the block can be kept or lengthened, otherwise a new one. Nothing but the
        new block is written. */
    method Grow(originalPtr: nat, originalSize: nat, newSize: nat, region: Option<nat>, ghost n: nat)
      returns (p: Option<nat>)
      requires Valid() && newSize <= LARGEST && newSize % 8 == 0 && originalSize % 8 == 0 && originalSize < newSize
      requires n < |Handed()| && Handed()[n].address == originalPtr && originalSize <= Handed()[n].size
      requires region.Some? ==> Free(region.value, ChunkSize(newSize))
      modifies this, chunks, memory
      ensures Valid() && freed == old(freed)
      ensures Handed() == Reallocated(old(Handed()), n, p, newSize)
      ensures p == Some(originalPtr) ==> n == |old(Handed())| - 1 && originalSize == old(Handed())[n].size
      ensures p.Some? ==> Moved(old(memory[..]), originalPtr, memory[..], p.value, originalSize)
      ensures Preserved(old(Handed()), old(memory[..]), memory[..])
    {
      Newest(n, originalSize);
      if originalPtr + originalSize == chunkHead.base + HEADER + chunkHead.size {
        if chunkHead.size + (newSize - originalSize) <= chunkHead.capacity {
          Extend(newSize - originalSize);
          InMemory(n);
          return Some(originalPtr);
        }
      }
      p := Move(originalPtr, originalSize, newSize, region, n);
    }

    /** Allocates a new block and copies the old one into it. */
    method Move(originalPtr: nat, originalSize: nat, newSize: nat, region: Option<nat>, ghost n: nat)
      returns (p: Option<nat>)
      requires Valid() && 0 < newSize <= LARGEST && newSize % 8 == 0 && originalSize <= newSize
      requires n < |Handed()| && Handed()[n].address == originalPtr && originalSize <= Handed()[n].size
      requires region.Some? ==> Free(region.value, ChunkSize(newSize))
      modifies this, chunks, memory
      ensures Valid() && freed == old(freed) && p != Some(originalPtr)
      ensures Handed() == Reallocated(old(Handed()), n, p, newSize)
      ensures p.Some? ==> Moved(old(memory[..]), originalPtr, memory[..], p.value, originalSize)
      ensures Preserved(old(Handed()), old(memory[..]), memory[..])
    {
      ghost var before, bytes := Handed(), memory[..];
      assert Align(newSize) == newSize;
      p := Malloc(newSize, region);
      if p.Some? {
        NewBlockApart(before, Block(p.value, newSize));
        InMemory(n);
        InMemory(|before|);
        assert Disjoint(before[n], Block(p.value, newSize));
        if originalSize > 0 {
          Copy(p.value, originalPtr, originalSize);
        }
        NothingLost(before, Block(p.value, newSize), bytes, memory[..], originalSize);
      }
    }

    lemma NewBlockApart(before: seq<Block>, block: Block)
      requires Valid() && Handed() == before + [block]
      ensures forall k :: 0 <= k < |before| ==> Disjoint(before[k], block)
    {
      forall k | 0 <= k < |before|
        ensures Disjoint(before[k], block)
      {
        BlocksDisjoint(Regions(), handed, k, |before|);
      }
    }

    /** `originalPtr` is nothing, or the address of the block `n` that was handed out and of which the
        caller last asked for `originalSize` bytes or fewer than it has. */
    method Realloc(originalPtr: Option<nat>, originalSize: nat, newSize: nat, region: Option<nat>, ghost n: nat)
      returns (p: Option<nat>)
      requires Valid() && originalSize <= LARGEST - 7 && newSize <= LARGEST - 7
      requires originalPtr.Some? ==>
                 n < |Handed()| && Handed()[n].address == originalPtr.value && Align(originalSize) <= Handed()[n].size
      requires region.Some? ==> Free(region.value, ChunkSize(Align(newSize)))
      modifies this, chunks, memory
      ensures Valid() && freed == old(freed)
      ensures newSize == 0 ==> p.None?
      ensures originalPtr.None? ==>
                Handed() == if p.None? then old(Handed()) else old(Handed()) + [Block(p.value, Align(newSize))]
      ensures originalPtr.Some? && (p.None? || Align(newSize) <= Align(originalSize)) ==> Handed() == old(Handed())
      ensures originalPtr.Some? && p.Some? && Align(originalSize) < Align(newSize) ==>
                Handed() == if p == originalPtr then old(Handed())[n := Block(p.value, Align(newSize))]
                            else old(Handed()) + [Block(p.value, Align(newSize))]
      ensures originalPtr.Some? && 0 < newSize && Align(newSize) <= Align(originalSize) ==> p == originalPtr
      ensures originalPtr.Some? && p.Some? ==>
                Moved(old(memory[..]), originalPtr.value, memory[..], p.value,
                      if Align(originalSize) <= Align(newSize) then Align(originalSize) else Align(newSize))
      ensures Preserved(old(Handed()), old(memory[..]), memory[..])
    {
      if originalPtr.None? {
        p := Malloc(newSize, region);
        return;
      }
      if newSize == 0 {
        return None;
      }
      var had, wanted := Align(originalSize), Align(newSize);
      if had >= wanted {
        InMemory(n);
        MovedNowhere(memory[..], originalPtr.value, wanted);
        return originalPtr;
      }
      p := Grow(originalPtr.value, had, wanted, region, n);
    }

    /** Frees chunks up to the user's buffer. */
    method FreeChunks()
      requires Valid()
      modifies `chunkHead, `freed
      ensures chunkHead == userBuffer
      ensures freed == old(freed) + Bases(chunks[..|chunks| - if userBuffer == null then 0 else 1])
    {
      ghost var i, n := 0, if userBuffer == null then |chunks| else |chunks| - 1;
      assert chunks[..0] == [] && freed + [] == freed;
      while chunkHead != null && chunkHead != userBuffer
        invariant i <= n && chunkHead == (if i < |chunks| then chunks[i] else null)
        invariant freed == old(freed) + Bases(chunks[..i])
        decreases n - i
      {
        assert chunks[..i + 1][..i] == chunks[..i] && chunks[i].next == After(chunks, i);
        var next := chunkHead.next;
        freed := freed + [chunkHead.base];
        chunkHead := next;
        i := i + 1;
      }
      assert i == n;
    }

    /** Leaves the user's buffer, emptied, as the only chunk. */
    method KeepBuffer(ghost kept: seq<ChunkHeader>)
      requires kept == (if userBuffer == null then [] else [userBuffer]) && chunkHead == userBuffer
      requires Linked(userBuffer, kept, userBuffer) && Placed(kept, userBuffer, memory.Length)
      requires memory.Length <= LARGEST && chunkCapacity <= LARGEST
      modifies `chunks, `handed, userBuffer
      ensures Valid() && Handed() == [] && chunks == kept
    {
      NoBlocks();
      chunks, handed := kept, if userBuffer == null then [] else [[]];
      if chunkHead != null && chunkHead == userBuffer {
        chunkHead.size := 0;
        EmptyTiled(Region(userBuffer.base, userBuffer.capacity, 0));
        assert Regions() == [Region(userBuffer.base, userBuffer.capacity, 0)];
      } else {
        assert Regions() == [];
      }
    }

    /** Gives back every chunk but the user's buffer, and empties that. */
    method Clear()
      requires Valid()
      modifies this, chunks
      ensures Valid() && Handed() == []
      ensures chunks == if userBuffer == null then [] else [userBuffer]
      ensures freed == old(freed) + Bases(old(chunks)[..|old(chunks)| - |chunks|])
    {
      OnlyBuffer(chunks, userBuffer, memory.Length);
      FreeChunks();
      KeepBuffer(if userBuffer == null then [] else [userBuffer]);
    }

    /** The number of bytes handed out. */
    method Size() returns (size: nat)
      requires Valid()
      ensures size == TotalSize(Handed())
    {
      UsedIsHandedOut(Regions(), handed);
      size := 0;
      var c := chunkHead;
      ghost var i := 0;
      while c != null
        invariant i <= |chunks| && c == (if i < |chunks| then chunks[i] else null)
        invariant size + TotalUsed(Regions()[i..]) == TotalUsed(Regions())
        decreases |chunks| - i
      {
        assert Regions()[i..][1..] == Regions()[i + 1..];
        size := size + c.size;
        c, i := c.next, i + 1;
      }
    }
  }

  /** The last block is longer. */
  function Lengthened(blocks: seq<Block>, increment: nat): seq<Block>
    requires blocks != []
  {
    var last := blocks[|blocks| - 1];
    blocks[|blocks| - 1 := Block(last.address, last.size + increment)]
  }

  /** The blocks after block `n` has been given `size` bytes at `p`. */
  function Reallocated(blocks: seq<Block>, n: nat, p: Option<nat>, size: nat): seq<Block> {
    if p.None? then blocks
    else if n < |blocks| && blocks[n].address == p.value then blocks[n := Block(p.value, size)]
    else blocks + [Block(p.value, size)]
  }

  /** The `n` bytes at `from` are now at `to`. */
  predicate Moved(before: seq<Byte>, from: nat, after: seq<Byte>, to: nat, n: nat) {
    from + n <= |before| && to + n <= |after| && after[to..to + n] == before[from..from + n]
  }

  lemma MovedNowhere(memory: seq<Byte>, p: nat, n: nat)
    requires p + n <= |memory|
    ensures Moved(memory, p, memory, p, n)
  {
  }

  /** The contents of the blocks are the same. */
  predicate Preserved(blocks: seq<Block>, before: seq<Byte>, after: seq<Byte>) {
    && |before| == |after|
    && forall k, a ::
         0 <= k < |blocks| && blocks[k].address <= a < blocks[k].address + blocks[k].size && a < |before| ==>
         after[a] == before[a]
  }

  function Bases(chunks: seq<ChunkHeader>): seq<nat> {
    if chunks == [] then [] else Bases(chunks[..|chunks| - 1]) + [chunks[|chunks| - 1].base]
  }

  lemma NothingLost(blocks: seq<Block>, block: Block, before: seq<Byte>, after: seq<Byte>, n: nat)
    requires |before| == |after| && n <= block.size && forall k :: 0 <= k < |blocks| ==> Disjoint(blocks[k], block)
    requires forall a :: 0 <= a < |before| && !(block.address <= a < block.address + n) ==> after[a] == before[a]
    ensures Preserved(blocks, before, after)
  {
  }

  lemma NoBlocks()
    ensures Blocks([]) == [] && Blocks([[]]) == []
  {
    assert Blocks([[]]) == Blocks([]) + [];
  }

  lemma EmptyTiled(r: Region)
    requires r.size == 0
    ensures Tiled([r], [[]])
  {
  }

  lemma UpdatedLast(a: seq<Block>, b: seq<Block>, x: Block)
    requires b != []
    ensures a + b[|b| - 1 := x] == (a + b)[|a + b| - 1 := x]
  {
  }

  lemma HandedRegrouped(a: seq<Block>, b: seq<Block>, x: Block)
    ensures a + (b + [x]) == a + b + [x]
  {
  }
}
