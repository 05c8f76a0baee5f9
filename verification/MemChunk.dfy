/** mem/memchunk.c: many small allocations carved out of few large blocks. */
module MemChunk {
  const DEFAULT_BLOCK_SIZE: nat := 1024

  /** MEMCHUNK_BLOCK: the header of a block with `cap` payload bytes behind it. */
  class Block {
    const cap: nat
    var next: Block?

    constructor (cap: nat)
      ensures this.cap == cap && next == null
    {
      this.cap := cap;
      next := null;
    }
  }

  /** The bytes off .. off + len of the payload of a block. */
  datatype Region = Region(block: Block, off: nat, len: nat)

  ghost predicate Inside(r: Region) {
    r.off + r.len <= r.block.cap
  }

  /** No byte belongs to both. */
  ghost predicate Apart(a: Region, b: Region) {
    a.block != b.block || a.len == 0 || b.len == 0 || a.off + a.len <= b.off || b.off + b.len <= a.off
  }

  ghost function Reserved(blocks: seq<Block>): nat {
    if blocks == [] then 0 else blocks[0].cap + Reserved(blocks[1..])
  }

  ghost function Requested(regions: seq<Region>): nat {
    if regions == [] then 0 else Requested(regions[..|regions| - 1]) + regions[|regions| - 1].len
  }

  ghost predicate Distinct(blocks: seq<Block>) {
    forall i, j :: 0 <= i < j < |blocks| ==> blocks[i] != blocks[j]
  }

  ghost function Elements(blocks: seq<Block>): set<Block> {
    set b | b in blocks
  }

  ghost predicate Chained(blocks: seq<Block>, head: Block?)
    reads Elements(blocks)
  {
    && head == (if blocks == [] then null else blocks[0])
    && (blocks != [] ==> blocks[|blocks| - 1].next == null)
    && (forall i, j :: 0 <= i < j < |blocks| && j == i + 1 ==> blocks[i].next == blocks[j])
  }

  lemma RequestedMore(regions: seq<Region>, r: Region)
    ensures Requested(regions + [r]) == Requested(regions) + r.len
  {
    assert (regions + [r])[..|regions|] == regions;
  }

  lemma ReservedFirst(b: Block, blocks: seq<Block>)
    ensures Reserved([b] + blocks) == b.cap + Reserved(blocks)
  {
    assert ([b] + blocks)[1..] == blocks;
  }

  /** The state of an allocator, apart from the links between the blocks. */
  datatype State = State(blocks: seq<Block>, regions: seq<Region>, freeOff: nat, blockSize: nat) {
    /** Every region lies in its block, no two overlap, and the rest of the head block is free. */
    ghost predicate Held() {
      && (forall r :: r in regions ==> r.block in blocks && (r.len > 0 ==> Inside(r)))
      && (forall i, j :: 0 <= i < j < |regions| ==> Apart(regions[i], regions[j]))
      && (blocks != [] && freeOff < blockSize ==>
            && blocks[0].cap == blockSize
            && forall r :: r in regions && r.block == blocks[0] && r.len > 0 ==> r.off + r.len <= freeOff)
    }

    /** What the head block has given away: a block made for one big request is used up. */
    ghost function Used(): nat
      requires blocks != []
    {
      if blocks[0].cap == blockSize then freeOff else blocks[0].cap
    }

    /** Every block but the head is at least three quarters full. */
    ghost predicate Thrifty() {
      if blocks == [] then regions == []
      else
        && freeOff <= blockSize && Used() <= Requested(regions)
        && (blocks[0].cap != blockSize ==> freeOff == blockSize)
        && 3 * Reserved(blocks[1..]) <= 4 * (Requested(regions) - Used())
    }

    ghost predicate Sound() {
      blockSize > 0 && Distinct(blocks) && Held() && Thrifty()
    }

    /** Serving a request from the head block. */
    ghost function Take(size: nat): State
      requires blocks != []
    {
      this.(regions := regions + [Region(blocks[0], freeOff, size)], freeOff := freeOff + size)
    }

    lemma TakeSound(size: nat)
      requires Sound() && blocks != [] && freeOff + size <= blockSize
      ensures Take(size).Sound()
      ensures Inside(Region(blocks[0], freeOff, size)) <==> size > 0 || freeOff <= blocks[0].cap
    {
      hide State.Held;
      RequestedMore(regions, Region(blocks[0], freeOff, size));
      TakeHeld(size);
    }

    lemma TakeHeld(size: nat)
      requires Sound() && blocks != [] && freeOff + size <= blockSize
      ensures Take(size).Held()
      ensures size > 0 ==> blocks[0].cap == blockSize
    {
      hide Reserved, Requested;
    }

    /** A standard block becomes the head; what is left of the old one is given up. */
    ghost function NewHead(block: Block): State {
      this.(blocks := [block] + blocks, freeOff := 0)
    }

    lemma NewHeadSound(block: Block)
      requires Sound() && block !in blocks && block.cap == blockSize
      requires blocks != [] ==> 4 * freeOff >= 3 * blockSize
      ensures NewHead(block).Sound()
    {
      assert ([block] + blocks)[1..] == blocks;
      if blocks != [] {
        assert Reserved(blocks) == blocks[0].cap + Reserved(blocks[1..]);
      }
    }

    /** A big request gets a block of its own, behind the head if there is one. */
    ghost function Big(block: Block): State {
      if blocks == [] then State([block], [Region(block, 0, block.cap)], blockSize, blockSize)
      else this.(blocks := [blocks[0], block] + blocks[1..], regions := regions + [Region(block, 0, block.cap)])
    }

    lemma BigSound(block: Block)
      requires Sound() && block !in blocks && block.cap > 0
      ensures Big(block).Sound()
    {
      hide State.Held, Distinct;
      BigDistinct(block);
      BigHeld(block);
      RequestedMore(regions, Region(block, 0, block.cap));
      if blocks != [] {
        ReservedFirst(block, blocks[1..]);
        assert Big(block).blocks[1..] == [block] + blocks[1..];
      }
    }

    lemma BigDistinct(block: Block)
      requires Distinct(blocks) && block !in blocks
      ensures Distinct(Big(block).blocks)
    {
    }

    lemma BigHeld(block: Block)
      requires Held() && Thrifty() && block !in blocks
      ensures Big(block).Held()
    {
      assert blocks != [] ==> blocks == [blocks[0]] + blocks[1..];
    }

    /** The payload reserved is at most 4/3 of the bytes requested, plus one block. */
    lemma WasteBound()
      requires Sound()
      ensures 3 * Reserved(blocks) <= 4 * Requested(regions) + 3 * blockSize
    {
      if blocks != [] {
        assert Reserved(blocks) == blocks[0].cap + Reserved(blocks[1..]);
      }
    }
  }

  /** The one way out of a block: an empty request after a big block, smaller than a standard one, became the
      head. */
  lemma EmptyRequestEscapes(block: Block, blockSize: nat)
    requires 4 * block.cap > blockSize > 0
    ensures
      var s := State([], [], blockSize, blockSize).Big(block);
      && s.Sound() && s.Take(0).regions == [Region(block, 0, block.cap), Region(block, blockSize, 0)]
      && (Inside(s.Take(0).regions[1]) <==> blockSize <= block.cap)
  {
    Nothing(blockSize, blockSize);
    State([], [], blockSize, blockSize).BigSound(block);
  }

  /** The same as a run of the allocator. */
  method EmptyRequestRun() returns (block: Block, off: nat)
    ensures block.cap == 300 && off == 1024 && !Inside(Region(block, off, 0))
  {
    hide State.Held, State.Thrifty, Distinct, Reserved, Requested;
    var chunk := new Chunk(1024);
    var big, start := chunk.Alloc(300, true);
    var empty, end := chunk.Alloc(0, true);
    block, off := empty, end;
  }

  /** Small requests are served one behind the other from a block of 1024 bytes, also after a big one, which gets a
      block of its own size. */
  method SmallAroundBig() returns (first: Block, a: nat, b: nat, second: Block, big: Block, c: nat, third: Block)
    ensures first == second == third && first.cap == 1024 && a == 0 && b == 12 && c == 24
    ensures big != first && big.cap == 2048
  {
    hide State.Held, State.Thrifty, Distinct, Reserved, Requested;
    var chunk := new Chunk(0);
    first, a := Serve(chunk, 12);
    second, b := Serve(chunk, 12);
    var start;
    big, start := Serve(chunk, 2048);
    third, c := Serve(chunk, 12);
  }

  /** A request is big when it needs more than a quarter of a standard block. */
  method BigFromAQuarter() returns (small: Block, big: Block)
    ensures small.cap == 1024 && big.cap == 257
  {
    hide State.Held, State.Thrifty, Distinct, Reserved, Requested;
    var one := new Chunk(0);
    var two := new Chunk(0);
    var start;
    small, start := Serve(one, 256);
    big, start := Serve(two, 257);
  }

  /** A request when memory is available. */
  method Serve(chunk: Chunk, size: nat) returns (block: Block, off: nat)
    requires chunk.Valid()
    modifies chunk, Elements(chunk.blocks)
    ensures chunk.Valid() && chunk.blockSize == old(chunk.blockSize)
    ensures fresh(Elements(chunk.blocks) - old(Elements(chunk.blocks)))
    ensures chunk.Now() == if old(chunk.head) != null && old(chunk.freeOff) + size <= old(chunk.blockSize)
                           then old(chunk.Now()).Take(size)
                           else if 4 * size > old(chunk.blockSize) then old(chunk.Now()).Big(block)
                           else old(chunk.Now()).NewHead(block).Take(size)
    ensures if old(chunk.head) != null && old(chunk.freeOff) + size <= old(chunk.blockSize)
            then block == old(chunk.head) && off == old(chunk.freeOff)
            else fresh(block) && off == 0 && block.cap == if 4 * size > chunk.blockSize then size else chunk.blockSize
    ensures chunk.head == if chunk.blocks == [] then null else chunk.blocks[0]
  {
    var given: Block?;
    given, off := chunk.Alloc(size, true);
    block := given;
  }

  class Chunk {
    var blockSize: nat
    var freeOff: nat
    var head: Block?
    ghost var blocks: seq<Block>
    ghost var regions: seq<Region>

    ghost function Now(): State
      reads this
    {
      State(blocks, regions, freeOff, blockSize)
    }

    ghost predicate Valid()
      reads this, Elements(blocks)
    {
      Chained(blocks, head) && Now().Sound()
    }

    /** memchunk_init. */
    constructor (size: nat)
      ensures Valid() && head == null && blocks == [] && regions == [] && freeOff == blockSize
      ensures blockSize == if size == 0 then DEFAULT_BLOCK_SIZE else size
    {
      blockSize := if size == 0 then DEFAULT_BLOCK_SIZE else size;
      freeOff := if size == 0 then DEFAULT_BLOCK_SIZE else size;
      head := null;
      blocks := [];
      regions := [];
    }

    /** memchunk_alloc; `ok` tells whether malloc would succeed. */
    method Alloc(size: nat, ok: bool) returns (block: Block?, off: nat)
      requires Valid()
      modifies this, Elements(blocks)
      ensures Valid() && blockSize == old(blockSize)
      ensures block == null ==> !ok && Now() == old(Now())
      ensures block != null ==> regions == old(regions) + [Region(block, off, size)]
      ensures block != null ==>
                Now() == if old(head) != null && old(freeOff) + size <= blockSize then old(Now()).Take(size)
                         else if 4 * size > blockSize then old(Now()).Big(block)
                         else old(Now()).NewHead(block).Take(size)
      ensures if old(head) != null && old(freeOff) + size <= blockSize
              then block == old(head) && off == old(freeOff) && blocks == old(blocks)
              else (block == null <==> !ok) && (block != null ==>
                     && fresh(block) && off == 0 && block.cap == (if 4 * size > blockSize then size else blockSize)
                     && |blocks| == |old(blocks)| + 1 && Elements(blocks) == old(Elements(blocks)) + {block})
      ensures block != null ==>
                (Inside(Region(block, off, size)) <==>
                 size > 0 || old(head) == null || old(freeOff) <= old(head).cap)
      ensures fresh(Elements(blocks) - old(Elements(blocks)))
    {
      hide State.Held, State.Thrifty, Distinct, Reserved, Requested;
      Basics(Now());
      if head == null || freeOff + size > blockSize {
        if 4 * size > blockSize {
          if !ok {
            return null, 0;
          }
          block := AllocBig(size);
          off := 0;
          return;
        } else {
          if !ok {
            return null, 0;
          }
          NewHead();
        }
      }
      Now().TakeSound(size);
      block, off := head, freeOff;
      regions := regions + [Region(head, freeOff, size)];
      freeOff := freeOff + size;
    }

    /** memchunk_alloc, a big request: behind the head, which can go on serving small requests. */
    method AllocBig(size: nat) returns (block: Block)
      requires Valid() && 4 * size > blockSize && (head == null || freeOff + size > blockSize)
      modifies this, Elements(blocks)
      ensures Valid() && blockSize == old(blockSize) && block.cap == size && fresh(block)
      ensures |blocks| == |old(blocks)| + 1 && Elements(blocks) == old(Elements(blocks)) + {block}
      ensures Now() == old(Now()).Big(block)
      ensures fresh(Elements(blocks) - old(Elements(blocks)))
    {
      hide State.Held, State.Thrifty, Reserved, Requested;
      block := new Block(size);
      Basics(Now());
      ghost var next := Now().Big(block);
      Now().BigSound(block);
      if head != null {
        LinkBehindHead(block);
      } else {
        block.next := null;
        head := block;
        freeOff := blockSize;
        blocks := [block];
      }
      regions := regions + [Region(block, 0, size)];
      assert Now() == next;
    }

    /** memchunk_alloc, a big request: the new block becomes the second one. */
    method LinkBehindHead(block: Block)
      requires Chained(blocks, head) && Distinct(blocks) && blocks != [] && block !in blocks
      modifies this`blocks, head, block
      ensures blocks == [head, block] + old(blocks)[1..] && Chained(blocks, head)
    {
      hide Distinct;
      ghost var was := blocks;
      assert |was| > 1 ==> head.next == was[1];
      assert forall i :: 0 < i < |was| ==> was[i] != head by {
        Apartness(was);
      }
      block.next := head.next;
      head.next := block;
      blocks := [head, block] + was[1..];
      assert forall i :: 1 < i < |blocks| ==> blocks[i] == was[i - 1];
    }

    /** memchunk_alloc, a new standard block. */
    method NewHead()
      requires Valid() && (head == null || 4 * freeOff >= 3 * blockSize)
      modifies this
      ensures Valid() && blockSize == old(blockSize) && regions == old(regions) && freeOff == 0
      ensures head != null && fresh(head) && head.cap == blockSize && blocks == [head] + old(blocks)
    {
      hide State.Held, State.Thrifty, Distinct, Reserved, Requested;
      var block := new Block(blockSize);
      Now().NewHeadSound(block);
      block.next := head;
      head := block;
      freeOff := 0;
      blocks := [block] + blocks;
    }

    /** memchunk_fini: frees every block once, never looking at one that is freed. */
    method Fini() returns (freed: seq<Block>)
      requires Valid()
      modifies this, Elements(blocks)
      ensures freed == old(blocks) && Distinct(freed)
      ensures Valid() && head == null && blocks == [] && regions == []
    {
      hide State.Held, State.Thrifty, Reserved, Requested;
      ghost var all := blocks;
      freed := [];
      Nothing(blockSize, freeOff);
      var block := head;
      while block != null
        invariant freed <= all && head == block && blockSize == old(blockSize) && freeOff == old(freeOff)
        invariant block == if |freed| < |all| then all[|freed|] else null
        invariant forall i, j :: |freed| <= i < j < |all| && j == i + 1 ==> all[i].next == all[j]
        invariant |freed| < |all| ==> all[|all| - 1].next == null
        decreases |all| - |freed|
      {
        assert forall i :: |freed| < i < |all| ==> all[i] != block;
        head := block.next;
        Free(block);
        freed := freed + [block];
        block := head;
      }
      blocks, regions := [], [];
    }
  }

  lemma Nothing(blockSize: nat, freeOff: nat)
    ensures blockSize > 0 ==> State([], [], freeOff, blockSize).Sound()
  {
  }

  lemma Apartness(blocks: seq<Block>)
    requires Distinct(blocks) && blocks != []
    ensures forall i :: 0 < i < |blocks| ==> blocks[i] != blocks[0]
  {
  }

  lemma Basics(s: State)
    requires s.Sound()
    ensures if s.blocks == [] then s.regions == [] else s.freeOff <= s.blockSize
  {
  }

  /** free: nothing is known of the block afterwards. */
  method Free(block: Block)
    modifies block
  {
    block.next := null;
  }
}
