/** The kernel heap: a doubly linked list of blocks that tile the arena in address order. */
module Heap {

  const NULL: nat := 0
  const KERNEL_HEAP: nat := 0x10_0000
  const HEAP_MAX: nat := 0x100_0000
  const ARENA: nat := 0x1_0000
  const HEADER: nat := 16
  const U32: nat := 0x1_0000_0000

  datatype Block = Block(next: nat, prev: nat, size: nat, inUse: bool)

  /** Block headers by address; the headers of blocks that have been absorbed stay behind in memory. */
  type Memory = map<nat, Block>

  /** (size + 3) & ~3 in 32 bits */
  function Round(size: nat): (r: nat)
    ensures r < U32
  {
    (size + 3) % U32 / 4 * 4
  }

  /** Rounding reaches the next multiple of four, but wraps to nothing for the last three sizes. */
  lemma RoundUp(size: nat)
    requires size < U32
    ensures if size <= U32 - 4 then size <= Round(size) < size + 4 && Round(size) % 4 == 0 else Round(size) == 0
  {
  }

  // ----- well-formed heaps -----

  /** The address behind the block. */
  function After(mem: Memory, block: nat): nat
    requires block in mem
  {
    block + HEADER + mem[block].size
  }

  /** The links of one block of the list: neighbours are in the list, point back, and touch. */
  ghost predicate Linked(mem: Memory, blocks: set<nat>, end: nat, b: nat)
    requires b in mem
  {
    && After(mem, b) <= end
    && (if mem[b].next == NULL then After(mem, b) == end
        else mem[b].next in blocks && mem[b].next in mem && mem[b].next == After(mem, b) && mem[mem[b].next].prev == b)
    && (mem[b].prev == NULL <==> b == KERNEL_HEAP)
    && (mem[b].prev != NULL ==> mem[b].prev in blocks && mem[b].prev in mem && mem[mem[b].prev].next == b)
  }

  /** `blocks` are the blocks of a list that starts at KERNEL_HEAP and tiles the memory up to `end`. */
  ghost predicate Tiles(mem: Memory, blocks: set<nat>, end: nat) {
    && KERNEL_HEAP in blocks && NULL !in blocks
    && (forall b :: b in blocks ==> b in mem && Linked(mem, blocks, end, b))
    && (forall a, b :: a in blocks && b in blocks && a < b ==> a in mem && After(mem, a) <= b)
  }

  /** Some blocks tile the memory up to `end`. */
  ghost predicate TilesTo(mem: Memory, end: nat) {
    exists blocks :: Tiles(mem, blocks, end)
  }

  /** No two neighbours are both free. */
  ghost predicate Coalesced(mem: Memory, blocks: set<nat>)
    requires forall b :: b in blocks ==> b in mem
  {
    forall b :: b in blocks && mem[b].next in blocks ==> mem[b].inUse || mem[mem[b].next].inUse
  }

  /** The blocks in use, with their sizes. */
  ghost function Live(mem: Memory, blocks: set<nat>): map<nat, nat>
    requires forall b :: b in blocks ==> b in mem
  {
    map b | b in blocks && mem[b].inUse :: mem[b].size
  }

  /** Every address of the arena belongs to exactly one block. */
  lemma {:induction false} Covered(mem: Memory, blocks: set<nat>, end: nat, x: nat) returns (b: nat)
    requires Tiles(mem, blocks, end) && KERNEL_HEAP <= x < end
    ensures b in blocks && b <= x < After(mem, b)
    ensures forall c :: c in blocks && c <= x < After(mem, c) ==> c == b
    decreases x
  {
    if x == KERNEL_HEAP {
      b := KERNEL_HEAP;
    } else {
      b := Covered(mem, blocks, end, x - 1);
      assert Linked(mem, blocks, end, b);
      if After(mem, b) == x {
        b := mem[b].next;
      }
    }
  }

  /** Headers and payloads from `b` to the end of the list. */
  ghost function Extent(mem: Memory, blocks: set<nat>, end: nat, b: nat): nat
    requires Tiles(mem, blocks, end) && b in blocks
    decreases end - b
  {
    assert Linked(mem, blocks, end, b);
    HEADER + mem[b].size + if mem[b].next == NULL then 0 else Extent(mem, blocks, end, mem[b].next)
  }

  /** Sizes plus headers always sum to the arena. */
  lemma {:induction false} ExtentIsArena(mem: Memory, blocks: set<nat>, end: nat, b: nat)
    requires Tiles(mem, blocks, end) && b in blocks
    ensures Extent(mem, blocks, end, b) == end - b
    decreases end - b
  {
    assert Linked(mem, blocks, end, b);
    if mem[b].next != NULL {
      ExtentIsArena(mem, blocks, end, mem[b].next);
    }
  }

  /** Once everything has been freed the heap is one block again, whatever happened before. */
  lemma AllFreeIsOneBlock(mem: Memory, blocks: set<nat>, end: nat)
    requires Tiles(mem, blocks, end)
    requires Coalesced(mem, blocks) && Live(mem, blocks) == map[]
    ensures blocks == {KERNEL_HEAP} && mem[KERNEL_HEAP].size == end - KERNEL_HEAP - HEADER
  {
    hide Linked;
    assert forall b :: b in blocks && mem[b].inUse ==> b in Live(mem, blocks);
    LinkedNext(mem, blocks, end, KERNEL_HEAP);
    forall b | b in blocks
      ensures b == KERNEL_HEAP
    {
      LinkedNext(mem, blocks, end, b);
    }
  }

  // ----- splitting and merging -----

  /** Cuts `block` after `size` bytes of payload; the rest becomes a free block behind it. */
  function Split(mem: Memory, block: nat, size: nat): Memory
    requires block in mem && mem[block].size > size + HEADER
    requires mem[block].next != NULL ==> mem[block].next in mem
  {
    var next, rest := mem[block].next, block + HEADER + size;
    var m := mem[rest := Block(next, block, mem[block].size - size - HEADER, false)];
    var n := if next != NULL then m[next := m[next].(prev := rest)] else m;
    n[block := n[block].(next := rest, size := size)]
  }

  /** Gives `block` the space of its successor. */
  function Absorb(mem: Memory, block: nat): Memory
    requires block in mem && mem[block].next in mem
    requires mem[mem[block].next].next != NULL ==> mem[mem[block].next].next in mem
  {
    var gone := mem[mem[block].next];
    var m := mem[block := mem[block].(size := mem[block].size + gone.size + HEADER, next := gone.next)];
    if gone.next != NULL then m[gone.next := m[gone.next].(prev := block)] else m
  }

  /** `a` and `b` agree on the size and state of the blocks other than those in `but`. */
  ghost predicate SameBut(a: Memory, b: Memory, blocks: set<nat>, but: set<nat>)
    requires forall x :: x in blocks ==> x in a && x in b
  {
    forall x :: x in blocks && x !in but ==> b[x].size == a[x].size && b[x].inUse == a[x].inUse
  }

  /** Links after a split, one block at a time. */
  lemma SplitLinked(mem: Memory, blocks: set<nat>, end: nat, block: nat, size: nat, b: nat)
    requires block in blocks && block in mem && mem[block].size > size + HEADER && NULL !in blocks
    requires Linked(mem, blocks, end, block) && b in blocks && b in mem && Linked(mem, blocks, end, b)
    requires block + HEADER + size !in blocks && KERNEL_HEAP in blocks
    ensures var m := Split(mem, block, size);
      b in m && Linked(m, blocks + {block + HEADER + size}, end, b)
  {
  }

  /** `m` is `mem` with `block` cut behind `size` bytes: what became of each header. */
  ghost predicate IsSplit(mem: Memory, m: Memory, blocks: set<nat>, block: nat, size: nat) {
    var rest := block + HEADER + size;
    && block in mem && block in m && rest in m && rest !in blocks && mem[block].size > size + HEADER
    && m[block] == mem[block].(next := rest, size := size)
    && m[rest] == Block(mem[block].next, block, mem[block].size - size - HEADER, false)
    && forall b :: b in blocks && b != block ==> b in mem && b in m && m[b].next == mem[b].next
  }

  lemma SplitShape(mem: Memory, blocks: set<nat>, end: nat, block: nat, size: nat)
    requires Tiles(mem, blocks, end) && block in blocks && mem[block].size > size + HEADER
    ensures mem[block].next != NULL ==> mem[block].next in mem
    ensures IsSplit(mem, Split(mem, block, size), blocks, block, size)
    ensures SameBut(mem, Split(mem, block, size), blocks, {block})
  {
    hide Linked;
    LinkedNext(mem, blocks, end, block);
  }

  lemma SplitTiles(mem: Memory, blocks: set<nat>, end: nat, block: nat, size: nat)
    requires Tiles(mem, blocks, end) && block in blocks && mem[block].size > size + HEADER
    ensures mem[block].next != NULL ==> mem[block].next in mem
    ensures var m := Split(mem, block, size);
      && IsSplit(mem, m, blocks, block, size) && SameBut(mem, m, blocks, {block})
      && Tiles(m, blocks + {block + HEADER + size}, end)
  {
    hide Linked;
    LinkedNext(mem, blocks, end, block);
    SplitShape(mem, blocks, end, block, size);
    forall b | b in blocks
      ensures b in Split(mem, block, size) && Linked(Split(mem, block, size), blocks + {block + HEADER + size}, end, b)
    {
      SplitLinked(mem, blocks, end, block, size, b);
    }
    RestLinked(mem, blocks, end, block, size);
    hide Split;
    assert forall b :: b in blocks ==> b <= block || b >= After(mem, block);
  }

  lemma RestLinked(mem: Memory, blocks: set<nat>, end: nat, block: nat, size: nat)
    requires block in blocks && block in mem && mem[block].size > size + HEADER && KERNEL_HEAP <= block
    requires Linked(mem, blocks, end, block) && block + HEADER + size !in blocks
    ensures var m := Split(mem, block, size);
      Linked(m, blocks + {block + HEADER + size}, end, block + HEADER + size)
  {
  }

  lemma LinkedNext(mem: Memory, blocks: set<nat>, end: nat, b: nat)
    requires Tiles(mem, blocks, end) && b in blocks
    ensures KERNEL_HEAP <= b && After(mem, b) <= end && mem[b].next != b
    ensures if mem[b].next == NULL then After(mem, b) == end
            else
              && mem[b].next in blocks && mem[b].next in mem && mem[b].next == After(mem, b)
              && mem[mem[b].next].prev == b
    ensures mem[b].prev == NULL <==> b == KERNEL_HEAP
    ensures mem[b].prev != NULL ==> mem[b].prev in blocks && mem[b].prev in mem && mem[mem[b].prev].next == b
  {
    hide Linked;
    StartsLow(mem, blocks, end, b);
    assert Linked(mem, blocks, end, b);
    LinkedIs(mem, blocks, end, b);
  }

  lemma LinkedIs(mem: Memory, blocks: set<nat>, end: nat, b: nat)
    requires b in mem && Linked(mem, blocks, end, b)
    ensures After(mem, b) <= end
    ensures if mem[b].next == NULL then After(mem, b) == end
            else
              && mem[b].next in blocks && mem[b].next in mem && mem[b].next == After(mem, b)
              && mem[mem[b].next].prev == b
    ensures mem[b].prev == NULL <==> b == KERNEL_HEAP
    ensures mem[b].prev != NULL ==> mem[b].prev in blocks && mem[b].prev in mem && mem[mem[b].prev].next == b
  {
  }

  lemma {:induction false} StartsLow(mem: Memory, blocks: set<nat>, end: nat, b: nat)
    requires Tiles(mem, blocks, end) && b in blocks
    ensures KERNEL_HEAP <= b
    decreases b
  {
    hide Linked;
    LinkedIs(mem, blocks, end, b);
    if b < KERNEL_HEAP {
      var p := mem[b].prev;
      LinkedIs(mem, blocks, end, p);
      StartsLow(mem, blocks, end, p);
    }
  }

  lemma AbsorbLinked(mem: Memory, blocks: set<nat>, end: nat, block: nat, b: nat)
    requires block in blocks && block in mem && mem[block].next != NULL && NULL !in blocks && KERNEL_HEAP <= block
    requires Linked(mem, blocks, end, block) && Linked(mem, blocks, end, mem[block].next)
    requires b <= block || b > mem[block].next
    requires b in blocks && b in mem && Linked(mem, blocks, end, b)
    ensures var m := Absorb(mem, block);
      b in m && Linked(m, blocks - {mem[block].next}, end, b)
  {
  }

  lemma AbsorbTiles(mem: Memory, blocks: set<nat>, end: nat, block: nat)
    requires Tiles(mem, blocks, end) && block in blocks && mem[block].next != NULL
    ensures mem[block].next in mem && (mem[mem[block].next].next != NULL ==> mem[mem[block].next].next in mem)
    ensures var m, gone := Absorb(mem, block), mem[block].next;
      && gone in blocks && Tiles(m, blocks - {gone}, end) && SameBut(mem, m, blocks - {gone}, {block})
      && m[block] == mem[block].(next := mem[gone].next, size := mem[block].size + mem[gone].size + HEADER)
      && forall b :: b in blocks - {gone} && b != block ==> m[b].next == mem[b].next
  {
    hide Linked;
    var gone := mem[block].next;
    LinkedNext(mem, blocks, end, block);
    LinkedNext(mem, blocks, end, gone);
    var m := Absorb(mem, block);
    forall b | b in blocks - {gone}
      ensures b in m && Linked(m, blocks - {gone}, end, b)
    {
      assert block < b ==> After(mem, block) <= b;
      AbsorbLinked(mem, blocks, end, block, b);
    }
  }

  // ----- kmalloc and kfree -----

  /** A block that first fit would take. */
  predicate Serves(b: Block, size: nat) { !b.inUse && b.size >= size }

  /** The lowest block that serves a request. */
  ghost predicate FirstFit(mem: Memory, blocks: set<nat>, size: nat, block: nat) {
    && block in blocks && block in mem && Serves(mem[block], size)
    && forall b :: b in blocks && b < block ==> b in mem && !Serves(mem[b], size)
  }

  /** What freeing a block takes off heap_used: its size, and after it was merged the free block behind it as well. */
  function FreedSize(mem: Memory, block: nat): nat
    requires block in mem
  {
    var next := mem[block].next;
    mem[block].size + if next in mem && next != NULL && !mem[next].inUse then HEADER + mem[next].size else 0
  }

  /** A block just taken would give back all that it was cut from. */
  lemma FreedIsWhole(mem: Memory, blocks: set<nat>, end: nat, block: nat)
    requires Tiles(mem, blocks, end) && Coalesced(mem, blocks) && block in blocks && block in mem && !mem[block].inUse
    ensures FreedSize(mem[block := mem[block].(inUse := true)], block) == mem[block].size
  {
    hide Linked;
    LinkedNext(mem, blocks, end, block);
  }

  lemma FreedIsSplit(mem: Memory, blocks: set<nat>, end: nat, block: nat, size: nat)
    requires Tiles(mem, blocks, end) && block in blocks && mem[block].size > size + HEADER
    ensures mem[block].next != NULL ==> mem[block].next in mem
    ensures var m := Split(mem, block, size);
      block in m && FreedSize(m[block := m[block].(inUse := true)], block) == mem[block].size
  {
    hide Linked;
    SplitTiles(mem, blocks, end, block, size);
    hide Split;
  }

  /** Adding one size and taking off another gets back, in 32 bits, only if they are equal. */
  lemma AccountBack(used: nat, size: nat, freed: nat)
    requires used < U32 && size < U32 && freed < U32
    ensures ((used + size) % U32 - freed) % U32 == used <==> freed == size
  {
  }

  class Heap {
    var mem: Memory
    var heapCurrent: nat
    var heapUsed: nat
    ghost var blocks: set<nat>
    ghost var end: nat

    ghost predicate Valid()
      reads this
    {
      && Tiles(mem, blocks, end) && end <= U32 && Coalesced(mem, blocks)
      && heapCurrent in mem && heapUsed < U32
    }

    ghost function LiveBlocks(): map<nat, nat>
      requires Valid()
      reads this
    {
      Live(mem, blocks)
    }

    /** The part of memory_init that sets the heap up. */
    constructor ()
      ensures Valid() && LiveBlocks() == map[] && end == KERNEL_HEAP + HEADER + ARENA
    {
      mem := map[KERNEL_HEAP := Block(NULL, NULL, ARENA, false)];
      heapCurrent, heapUsed := KERNEL_HEAP, HEADER;
      blocks, end := {KERNEL_HEAP}, KERNEL_HEAP + HEADER + ARENA;
    }

    /** Takes `block`, cutting off what is left if a header and more fits there. */
    method Take(block: nat, size: nat)
      requires Valid() && block in blocks && block in mem && Serves(mem[block], size) && size < U32
      modifies this`mem, this`blocks, this`heapUsed
      ensures Valid()
      ensures block !in old(LiveBlocks()) && block in LiveBlocks()
      ensures size <= LiveBlocks()[block] <= size + HEADER
      ensures LiveBlocks() == old(LiveBlocks())[block := LiveBlocks()[block]]
      ensures heapUsed == (old(heapUsed) + size) % U32
      ensures block in mem && FreedSize(mem, block) == old(mem)[block].size
    {
      hide Linked, FreedSize, Coalesced;
      Occupy(block, size);
      heapUsed := (heapUsed + size) % U32;
    }

    /** Splits `block` if it is too large, and puts it, or its front, to use. */
    method Occupy(block: nat, size: nat)
      requires Valid() && block in blocks && block in mem && Serves(mem[block], size)
      modifies this`mem, this`blocks
      ensures Valid()
      ensures block !in old(LiveBlocks()) && block in LiveBlocks()
      ensures size <= LiveBlocks()[block] <= size + HEADER
      ensures LiveBlocks() == old(LiveBlocks())[block := LiveBlocks()[block]]
      ensures block in mem && FreedSize(mem, block) == old(mem)[block].size
    {
      hide Linked, FreedSize, Coalesced;
      LinkedNext(mem, blocks, end, block);
      if mem[block].size > size + HEADER {
        SplitTaken(mem, blocks, end, block, size);
        FreedIsSplit(mem, blocks, end, block, size);
        mem := Split(mem, block, size);
        blocks := blocks + {block + HEADER + size};
      } else {
        Taken(mem, blocks, end, block);
        FreedIsWhole(mem, blocks, end, block);
      }
      mem := mem[block := mem[block].(inUse := true)];
    }

    /** Some block would serve a request. */
    ghost predicate Fits(size: nat)
      requires Valid()
      reads this
    {
      exists b :: b in blocks && b in mem && Serves(mem[b], size)
    }

    /**
     * The heap can grow without tearing the list: the new block would lie at the end, and be linked to the last block.
     */
    ghost predicate Aligned()
      requires Valid()
      reads this
    {
      && (KERNEL_HEAP + heapUsed) % U32 == end
      && heapCurrent in blocks && mem[heapCurrent].next == NULL
    }

    /**
     * First fit: the payload address of the lowest block that serves the request. Only when none does is the heap
     * grown, at an address computed from heapUsed; the blocks tile the longer arena then exactly when the heap was
     * aligned. Either way the block is as long as asked for, except that the last three 32-bit sizes get one for a
     * request of nothing.
     */
    method Kmalloc(request: nat) returns (p: nat)
      requires Valid() && request < U32
      modifies this
      ensures old(Fits(Round(request))) ==>
        var size, block := Round(request), p - HEADER;
        && Valid() && end == old(end) && p >= HEADER
        && FirstFit(old(mem), old(blocks), size, block)
        && block !in old(LiveBlocks()) && block in LiveBlocks() && size <= LiveBlocks()[block] <= size + HEADER
        && (request <= LiveBlocks()[block] <==> request <= U32 - 4)
        && LiveBlocks() == old(LiveBlocks())[block := LiveBlocks()[block]]
        && heapUsed == (old(heapUsed) + size) % U32 && heapCurrent == old(heapCurrent)
        && block in mem && FreedSize(mem, block) == old(mem)[block].size
      ensures !old(Fits(Round(request))) && (old(heapUsed) + Round(request)) % U32 > HEAP_MAX ==>
        p == NULL && unchanged(this)
      ensures !old(Fits(Round(request))) && (old(heapUsed) + Round(request)) % U32 <= HEAP_MAX ==>
        var size, block := Round(request), (KERNEL_HEAP + old(heapUsed)) % U32;
        && p == block + HEADER && mem == Grow(old(mem), old(heapCurrent), block, size)
        && block in mem && mem[block].size == size && (request <= size <==> request <= U32 - 4)
        && heapCurrent == block && heapUsed == (old(heapUsed) + size + HEADER) % U32
        && (old(Aligned()) <==> TilesTo(mem, old(end) + HEADER + size))
        && (old(Aligned()) && old(end) + HEADER + size <= U32 ==>
              Valid() && end == old(end) + HEADER + size && LiveBlocks() == old(LiveBlocks())[block := size])
    {
      hide Linked, Coalesced, FreedSize, Round;
      RoundUp(request);
      var size := Round(request);
      var block := Search(size);
      if block != NULL {
        Take(block, size);
        return block + HEADER;
      }
      if (heapUsed + size) % U32 > HEAP_MAX {
        return NULL;
      }
      p := Extend(size);
    }

    /** The walk along the list to the first block that serves the request; NULL when none does. */
    method Search(size: nat) returns (block: nat)
      requires Valid()
      ensures block == NULL <==> !Fits(size)
      ensures block != NULL ==> FirstFit(mem, blocks, size, block)
    {
      hide Linked, Coalesced;
      block := KERNEL_HEAP;
      forall b | b in blocks ensures KERNEL_HEAP <= b { LinkedNext(mem, blocks, end, b); }
      while block != NULL
        invariant block == NULL || block in blocks
        invariant forall b :: b in blocks && (block == NULL || b < block) ==> b in mem && !Serves(mem[b], size)
        decreases if block == NULL then 0 else end - block + 1
      {
        LinkedNext(mem, blocks, end, block);
        if Serves(mem[block], size) {
          return;
        }
        NoneBetween(mem, blocks, end, block);
        block := mem[block].next;
      }
    }

    /** Puts a block in use, linked behind heapCurrent, wherever heapUsed points. */
    method Extend(size: nat) returns (p: nat)
      requires Valid() && size < U32
      modifies this
      ensures var block := (KERNEL_HEAP + old(heapUsed)) % U32;
        && p == block + HEADER && mem == Grow(old(mem), old(heapCurrent), block, size)
        && block in mem && mem[block].size == size && mem[block].inUse
        && heapCurrent == block && heapUsed == (old(heapUsed) + size + HEADER) % U32
        && (old(Aligned()) <==> TilesTo(mem, old(end) + HEADER + size))
        && (old(Aligned()) && old(end) + HEADER + size <= U32 ==>
              Valid() && end == old(end) + HEADER + size && LiveBlocks() == old(LiveBlocks())[block := size])
    {
      hide Linked;
      var block := (KERNEL_HEAP + heapUsed) % U32;
      ghost var aligned := Aligned();
      if aligned {
        GrowTiles(mem, blocks, end, heapCurrent, block, size);
        blocks := blocks + {block};
      } else {
        GrowTorn(mem, blocks, end, heapCurrent, block, size);
      }
      end := end + HEADER + size;
      mem := mem[block := Block(NULL, heapCurrent, size, true)];
      mem := mem[heapCurrent := mem[heapCurrent].(next := block)];
      heapCurrent := block;
      heapUsed := (heapUsed + size + HEADER) % U32;
      p := block + HEADER;
    }

    /** Frees a block and merges it with free neighbours. */
    method Kfree(p: nat)
      requires Valid()
      requires p != NULL ==> p >= HEADER && p - HEADER in LiveBlocks()
      modifies this
      ensures Valid() && end == old(end)
      ensures LiveBlocks() == if p == NULL then old(LiveBlocks()) else old(LiveBlocks()) - {p - HEADER}
      ensures heapCurrent == old(heapCurrent)
      ensures heapUsed == if p == NULL then old(heapUsed) else (old(heapUsed) - FreedSize(old(mem), p - HEADER)) % U32
    {
      hide Linked;
      if p == NULL {
        return;
      }
      var block := p - HEADER;
      Freed(mem, blocks, end, block);
      LinkedNext(mem, blocks, end, block);
      mem := mem[block := mem[block].(inUse := false)];
      hide Tiles, Live;
      var size := MergeAround(block);
      heapUsed := (heapUsed - size) % U32;
    }

    /** Merges a block just freed with the free block behind it, then with the free block in front of it. */
    method MergeAround(block: nat) returns (size: nat)
      requires Tiles(mem, blocks, end) && block in blocks && block in mem && !mem[block].inUse
      requires CoalescedBut(mem, blocks, {mem[block].prev} + {block})
      requires mem[block].next != NULL ==> mem[block].next != mem[block].prev
      modifies this`mem, this`blocks
      ensures Tiles(mem, blocks, end) && Coalesced(mem, blocks) && Live(mem, blocks) == old(Live(mem, blocks))
      ensures size == old(FreedSize(mem, block)) && mem.Keys == old(mem.Keys)
    {
      hide Linked, Absorb, Live;
      var prev := mem[block].prev;
      LinkedNext(mem, blocks, end, block);
      if mem[block].next != NULL && !mem[mem[block].next].inUse {
        AbsorbNext(block, {prev});
      }
      assert CoalescedBut(mem, blocks, {prev});
      LinkedNext(mem, blocks, end, block);
      size := mem[block].size;
      if prev != NULL && !mem[prev].inUse {
        AbsorbNext(prev, {});
      }
    }

    /**
     * Freeing what was just allocated restores the live payloads, but heapUsed only if the block was an exact fit:
     * allocation adds the size asked for, freeing takes off all that the block has become.
     */
    method KmallocKfree(request: nat)
      requires Valid() && request < U32 && Fits(Round(request))
      modifies this
      ensures Valid() && LiveBlocks() == old(LiveBlocks())
      ensures exists b: nat :: FirstFit(old(mem), old(blocks), Round(request), b) &&
                (heapUsed == old(heapUsed) <==> old(mem)[b].size == Round(request))
    {
      hide Linked, Coalesced, Live, FreedSize;
      var p := Kmalloc(request);
      LinkedNext(old(mem), old(blocks), old(end), p - HEADER);
      AccountBack(old(heapUsed), Round(request), old(mem)[p - HEADER].size);
      Kfree(p);
    }

    /** Merges a free block with the free block behind it. */
    method AbsorbNext(block: nat, ghost but: set<nat>)
      requires Tiles(mem, blocks, end) && block in blocks && block in mem && mem[block].next in mem
      requires mem[block].next != NULL
      requires !mem[block].inUse && !mem[mem[block].next].inUse
      requires CoalescedBut(mem, blocks, but + {block}) && mem[block].next !in but
      modifies this`mem, this`blocks
      ensures Tiles(mem, blocks, end) && mem == Absorb(old(mem), block)
      ensures blocks == old(blocks) - {old(mem[block].next)}
      ensures Live(mem, blocks) == old(Live(mem, blocks)) && CoalescedBut(mem, blocks, but)
      ensures block in mem && mem[block].prev == old(mem[block].prev) && !mem[block].inUse
      ensures mem[block].size == old(mem[block].size + mem[mem[block].next].size) + HEADER
      ensures mem.Keys == old(mem.Keys)
    {
      hide Linked;
      LinkedNext(mem, blocks, end, block);
      AbsorbTiles(mem, blocks, end, block);
      AbsorbCoalesced(mem, blocks, end, block, but);
      blocks := blocks - {mem[block].next};
      mem := Absorb(mem, block);
    }
  }

  /** No two neighbours are both free, unless the first is in `but`. */
  ghost predicate CoalescedBut(mem: Memory, blocks: set<nat>, but: set<nat>)
    requires forall b :: b in blocks ==> b in mem
  {
    forall b :: b in blocks && b !in but && mem[b].next in blocks ==> mem[b].inUse || mem[mem[b].next].inUse
  }

  lemma Freed(mem: Memory, blocks: set<nat>, end: nat, block: nat)
    requires Tiles(mem, blocks, end) && Coalesced(mem, blocks) && block in blocks && mem[block].inUse
    ensures var m := mem[block := mem[block].(inUse := false)];
      && Tiles(m, blocks, end) && CoalescedBut(m, blocks, {m[block].prev} + {block})
      && Live(m, blocks) == Live(mem, blocks) - {block}
    ensures mem[block].next != NULL ==> mem[block].next != mem[block].prev
  {
    hide Linked;
    FlagTiles(mem, blocks, end, block);
    LinkedNext(mem, blocks, end, block);
    var m := mem[block := mem[block].(inUse := false)];
    if mem[block].prev != NULL {
      LinkedNext(mem, blocks, end, mem[block].prev);
    }
    forall b | b in blocks && b != block && b != mem[block].prev && m[b].next in blocks
      ensures m[b].inUse || m[m[b].next].inUse
    {
      LinkedNext(mem, blocks, end, b);
    }
  }

  lemma AbsorbCoalesced(mem: Memory, blocks: set<nat>, end: nat, block: nat, but: set<nat>)
    requires Tiles(mem, blocks, end) && block in blocks && mem[block].next in blocks && mem[block].next !in but
    requires !mem[block].inUse && !mem[mem[block].next].inUse && CoalescedBut(mem, blocks, but + {block})
    requires mem[mem[block].next].next != NULL ==> mem[mem[block].next].next in mem
    ensures var m, bs := Absorb(mem, block), blocks - {mem[block].next};
      CoalescedBut(m, bs, but) && Live(m, bs) == Live(mem, blocks)
      && m[block].prev == mem[block].prev
  {
    hide Linked;
    var m, gone := Absorb(mem, block), mem[block].next;
    LinkedNext(mem, blocks, end, block);
    LinkedNext(mem, blocks, end, gone);
    AbsorbTiles(mem, blocks, end, block);
    forall b | b in blocks - {gone} && b !in but && m[b].next in blocks - {gone}
      ensures m[b].inUse || m[m[b].next].inUse
    {
      LinkedNext(mem, blocks, end, b);
    }
  }

  /** The new block behind `current`, as kmalloc writes it when nothing fits. */
  function Grow(mem: Memory, current: nat, block: nat, size: nat): Memory
    requires current in mem
  {
    var m := mem[block := Block(NULL, current, size, true)];
    m[current := m[current].(next := block)]
  }

  /** No block of the list starts between a block and its successor. */
  lemma NoneBetween(mem: Memory, blocks: set<nat>, end: nat, block: nat)
    requires Tiles(mem, blocks, end) && block in blocks
    ensures forall b :: b in blocks && b > block ==> mem[block].next != NULL && b >= mem[block].next
  {
    hide Linked;
    LinkedNext(mem, blocks, end, block);
    forall b | b in blocks && b > block
      ensures mem[block].next != NULL && b >= mem[block].next
    {
      LinkedNext(mem, blocks, end, b);
    }
  }

  lemma GrowLinked(mem: Memory, blocks: set<nat>, end: nat, current: nat, size: nat, b: nat)
    requires current in blocks && current in mem && mem[current].next == NULL && end !in blocks && NULL !in blocks
    requires Linked(mem, blocks, end, current) && KERNEL_HEAP <= current && KERNEL_HEAP in blocks
    requires b in blocks && b in mem && Linked(mem, blocks, end, b) && (mem[b].next == NULL ==> b == current)
    ensures Linked(Grow(mem, current, end, size), blocks + {end}, end + HEADER + size, b)
    ensures Linked(Grow(mem, current, end, size), blocks + {end}, end + HEADER + size, end)
  {
  }

  /** Growing at the end behind the last block extends the tiling. */
  lemma GrowTiles(mem: Memory, blocks: set<nat>, end: nat, current: nat, block: nat, size: nat)
    requires Tiles(mem, blocks, end) && current in blocks && mem[current].next == NULL && block == end
    ensures var m := Grow(mem, current, block, size);
      && Tiles(m, blocks + {block}, end + HEADER + size)
      && (Coalesced(mem, blocks) ==> Coalesced(m, blocks + {block}))
      && Live(m, blocks + {block}) == Live(mem, blocks)[block := size]
  {
    hide Linked;
    LinkedNext(mem, blocks, end, current);
    var m := Grow(mem, current, block, size);
    forall b | b in blocks
      ensures b < end
    {
      LinkedNext(mem, blocks, end, b);
    }
    forall b | b in blocks
      ensures b < end && (mem[b].next == NULL ==> b == current)
      ensures Linked(m, blocks + {block}, end + HEADER + size, b)
    {
      LinkedNext(mem, blocks, end, b);
      if mem[b].next == NULL {
        LastIsOne(mem, blocks, end, current, b);
      }
      GrowLinked(mem, blocks, end, current, size, b);
    }
    GrowLinked(mem, blocks, end, current, size, current);
    forall b | b in blocks + {block}
      ensures b != block ==> m[b].next == if b == current then block else mem[b].next
      ensures m[b].inUse == if b == block then true else mem[b].inUse
    {
    }
    forall b | b in blocks
      ensures mem[b].next != block
    {
      LinkedNext(mem, blocks, end, b);
    }
  }

  lemma LastIsOne(mem: Memory, blocks: set<nat>, end: nat, a: nat, b: nat)
    requires Tiles(mem, blocks, end) && a in blocks && b in blocks && mem[a].next == NULL && mem[b].next == NULL
    ensures a == b
  {
    hide Linked;
    LinkedNext(mem, blocks, end, a);
    LinkedNext(mem, blocks, end, b);
  }

  lemma GrowTorn(mem: Memory, blocks: set<nat>, end: nat, current: nat, block: nat, size: nat)
    requires Tiles(mem, blocks, end) && current in mem
    requires !(block == end && current in blocks && mem[current].next == NULL)
    ensures !TilesTo(Grow(mem, current, block, size), end + HEADER + size)
  {
    hide Linked;
    if TilesTo(Grow(mem, current, block, size), end + HEADER + size) {
      var bs :| Tiles(Grow(mem, current, block, size), bs, end + HEADER + size);
      GrowTears(mem, blocks, end, current, block, size, bs, KERNEL_HEAP);
    }
  }

  /** Growing anywhere else leaves no list that tiles the longer arena: walking it from the start runs into the tear. */
  lemma {:induction false} GrowTears(mem: Memory, blocks: set<nat>, end: nat, current: nat, block: nat, size: nat,
                                     bs: set<nat>, b: nat)
    requires Tiles(mem, blocks, end) && current in mem
    requires !(block == end && current in blocks && mem[current].next == NULL)
    requires Tiles(Grow(mem, current, block, size), bs, end + HEADER + size)
    requires b in blocks && b in bs
    ensures false
    decreases end - b
  {
    hide Linked;
    var m := Grow(mem, current, block, size);
    LinkedNext(mem, blocks, end, b);
    LinkedNext(m, bs, end + HEADER + size, b);
    if b == block {
    } else if b == current {
      LinkedNext(m, bs, end + HEADER + size, block);
      if mem[b].next != NULL {
        LinkedNext(mem, blocks, end, mem[b].next);
      }
    } else if mem[b].next != NULL {
      GrowTears(mem, blocks, end, current, block, size, bs, mem[b].next);
    }
  }

  /** A free block put to use as it is. */
  lemma Taken(mem: Memory, blocks: set<nat>, end: nat, block: nat)
    requires Tiles(mem, blocks, end) && Coalesced(mem, blocks) && block in blocks && !mem[block].inUse
    ensures var m := mem[block := mem[block].(inUse := true)];
      Tiles(m, blocks, end) && Coalesced(m, blocks) && Live(m, blocks) == Live(mem, blocks)[block := mem[block].size]
  {
    hide Linked;
    FlagTiles(mem, blocks, end, block);
  }

  /** A free block split and its front part put to use. */
  lemma SplitTaken(mem: Memory, blocks: set<nat>, end: nat, block: nat, size: nat)
    requires Tiles(mem, blocks, end) && Coalesced(mem, blocks)
    requires block in blocks && !mem[block].inUse && mem[block].size > size + HEADER
    ensures mem[block].next != NULL ==> mem[block].next in mem
    ensures var s, bs := Split(mem, block, size), blocks + {block + HEADER + size};
      var m := s[block := s[block].(inUse := true)];
      Tiles(m, bs, end) && Coalesced(m, bs) && Live(m, bs) == Live(mem, blocks)[block := size]
  {
    hide Linked;
    LinkedNext(mem, blocks, end, block);
    SplitTiles(mem, blocks, end, block, size);
    hide Split;
    var s, rest := Split(mem, block, size), block + HEADER + size;
    var m, bs := s[block := s[block].(inUse := true)], blocks + {rest};
    FlagTiles(s, bs, end, block);
    forall b | b in bs && m[b].next in bs
      ensures m[b].inUse || m[m[b].next].inUse
    {
      if b == rest {
        assert m[b].next in blocks;
      } else if b != block {
        RestOnlyAfter(mem, blocks, end, block, size, b);
      }
    }
  }

  /** No block of the list but the one that is split comes right before the rest. */
  lemma RestOnlyAfter(mem: Memory, blocks: set<nat>, end: nat, block: nat, size: nat, b: nat)
    requires Tiles(mem, blocks, end) && block in blocks && b in blocks && b != block && mem[b].next != NULL
    requires block + HEADER + size !in blocks
    ensures mem[b].next in blocks && mem[b].next != block + HEADER + size
  {
    hide Linked;
    LinkedNext(mem, blocks, end, b);
  }

  /** The tiling does not depend on which blocks are in use. */
  lemma FlagTiles(mem: Memory, blocks: set<nat>, end: nat, block: nat)
    requires Tiles(mem, blocks, end) && block in blocks
    ensures forall inUse :: Tiles(mem[block := mem[block].(inUse := inUse)], blocks, end)
  {
    hide Linked;
    forall inUse
      ensures Tiles(mem[block := mem[block].(inUse := inUse)], blocks, end)
    {
      var m := mem[block := mem[block].(inUse := inUse)];
      forall b | b in blocks
        ensures Linked(m, blocks, end, b)
      {
        FlagLinked(mem, blocks, end, block, inUse, b);
      }
    }
  }

  lemma FlagLinked(mem: Memory, blocks: set<nat>, end: nat, block: nat, inUse: bool, b: nat)
    requires block in mem && b in mem && Linked(mem, blocks, end, b)
    ensures Linked(mem[block := mem[block].(inUse := inUse)], blocks, end, b)
  {
  }
}
