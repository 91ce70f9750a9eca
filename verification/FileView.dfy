/** What a ZEBXFS file is, in terms of the block store: its block map, the blocks it owns and its bytes. */
module FileView {
  import opened Bytes
  import opened BlockCache
  import opened Inode

  /** The journal's blocks. */
  datatype Region = Region(start: nat, size: nat)

  /** First block after the superblocks, the bitmaps and the inode table (4 + 65535 / 16 is its last block). */
  const FIRST_DATA: nat := 4100

  /** Blocks that no file may own. */
  predicate System(journal: Region, block: nat) {
    block < FIRST_DATA || journal.start <= block < journal.start + journal.size
  }

  /**
   * A file during an operation: the block store, the allocation bitmap, the inode in memory, and how many blocks it
   * has.
   */
  datatype View = View(flat: seq<Block>, used: seq<bool>, ino: Inode, nb: nat)

  ghost predicate Shaped(v: View) {
    |v.flat| == |v.used| == MAX_BLOCKS && |v.ino.direct| == DIRECT && v.nb <= MAX_FILE_BLOCKS
  }

  /** The disk block of file block `k`; 0 for none. */
  ghost function Map(v: View, k: nat): (block: nat)
    requires Shaped(v) && k < MAX_FILE_BLOCKS
  {
    if k < DIRECT then v.ino.direct[k]
    else if v.ino.indirect == 0 || v.ino.indirect >= MAX_BLOCKS then 0
    else Pointer(v.flat[v.ino.indirect], k - DIRECT)
  }

  ghost predicate DataBlock(journal: Region, v: View, block: nat)
    requires Shaped(v)
  {
    block < MAX_BLOCKS && v.used[block] && !System(journal, block)
  }

  /** The first `nb` file blocks, and only those, have blocks of their own, all of them marked used. */
  ghost predicate Mapped(journal: Region, v: View) {
    && Shaped(v)
    && (v.ino.indirect != 0 <==> v.nb > DIRECT)
    && (v.ino.indirect != 0 ==> DataBlock(journal, v, v.ino.indirect))
    && v.ino.doubleIndirect == 0
    && (forall k :: 0 <= k < v.nb ==> DataBlock(journal, v, Map(v, k)) && Map(v, k) != v.ino.indirect)
    && (forall k :: v.nb <= k < MAX_FILE_BLOCKS ==> Map(v, k) == 0)
    && (forall a, b :: 0 <= a < b < v.nb ==> Map(v, a) != Map(v, b))
  }

  ghost predicate Owns(v: View, block: nat)
    requires Shaped(v)
  {
    block != 0 && (block == v.ino.indirect || exists k :: 0 <= k < v.nb && Map(v, k) == block)
  }

  /** Byte `i` of the blocks the file has. */
  ghost function ByteAt(v: View, i: nat): byte
    requires Shaped(v) && i < v.nb * BLOCK_SIZE
  {
    var block := Map(v, i / BLOCK_SIZE);
    if block < MAX_BLOCKS then v.flat[block][i % BLOCK_SIZE] else 0
  }

  /** The inode that the table holds for `inum`. */
  function TableBlock(inum: nat): nat { 4 + inum / INODES_PER_BLOCK }

  function TableBytes(flat: seq<Block>, inum: nat): (bytes: seq<byte>)
    requires |flat| == MAX_BLOCKS && inum < MAX_FILES
    ensures |bytes| == INODE_SIZE
  {
    var offset := inum % INODES_PER_BLOCK * INODE_SIZE;
    flat[TableBlock(inum)][offset..offset + INODE_SIZE]
  }

  function TableInode(flat: seq<Block>, inum: nat): Inode
    requires |flat| == MAX_BLOCKS && inum < MAX_FILES
  {
    Decode(TableBytes(flat, inum))
  }

  /** No inode but `inum` differs in the table. */
  ghost predicate OthersKept(before: seq<Block>, after: seq<Block>, inum: nat)
    requires |before| == |after| == MAX_BLOCKS
  {
    forall m :: 0 < m < MAX_FILES && m != inum ==> TableBytes(after, m) == TableBytes(before, m)
  }

  lemma TableKept(before: seq<Block>, after: seq<Block>)
    requires |before| == |after| == MAX_BLOCKS
    requires forall b :: 4 <= b < FIRST_DATA ==> after[b] == before[b]
    ensures forall m :: 0 < m < MAX_FILES ==> TableBytes(after, m) == TableBytes(before, m)
  {
    assert forall m :: 0 < m < MAX_FILES ==> 4 <= TableBlock(m) < FIRST_DATA;
  }

  /** Only unused and system blocks differ, and of the inodes in the table only `inum`; 0 for none. */
  ghost predicate Quiet(journal: Region, used: seq<bool>, before: seq<Block>, after: seq<Block>, inum: nat) {
    && |before| == |after| == |used| == MAX_BLOCKS
    && (forall b :: 0 <= b < MAX_BLOCKS && used[b] && !System(journal, b) ==> after[b] == before[b])
    && OthersKept(before, after, inum)
  }

  /** Only blocks in `changed` differ. */
  ghost predicate SameBut(before: seq<Block>, after: seq<Block>, changed: set<nat>) {
    && |before| == |after|
    && forall b :: 0 <= b < |before| && b !in changed ==> after[b] == before[b]
  }

  /**
   * `w` is `v` after the file has been given more blocks or other bytes: it took unused blocks only,
   * and changed no block of another file and no other inode.
   */
  ghost predicate Grown(journal: Region, inum: nat, v: View, w: View) {
    && Mapped(journal, v) && Mapped(journal, w) && v.nb <= w.nb
    && (forall b :: 0 <= b < MAX_BLOCKS ==> (w.used[b] <==> v.used[b] || Owns(w, b)))
    && (forall b :: Owns(v, b) ==> Owns(w, b))
    && (forall b :: 0 <= b < MAX_BLOCKS && Owns(w, b) && !Owns(v, b) ==> !v.used[b])
    && (forall b :: 0 <= b < MAX_BLOCKS && v.used[b] && !System(journal, b) && !Owns(v, b) ==> w.flat[b] == v.flat[b])
    && OthersKept(v.flat, w.flat, inum)
  }

  lemma MappedShape(journal: Region, v: View)
    requires Mapped(journal, v)
    ensures Shaped(v)
  {
  }

  lemma MappedOf(journal: Region, inum: nat, v: View, w: View)
    requires Grown(journal, inum, v, w)
    ensures Mapped(journal, v) && Mapped(journal, w) && Shaped(v) && Shaped(w) && v.nb <= w.nb
  {
  }

  lemma GrownTrans(journal: Region, inum: nat, u: View, v: View, w: View)
    requires Grown(journal, inum, u, v) && Grown(journal, inum, v, w)
    ensures Grown(journal, inum, u, w)
  {
  }

  /** A file that shares no block with a grown one keeps its block map and every byte. */
  lemma OtherFileKept(journal: Region, inum: nat, v: View, w: View, other: Inode, nb: nat)
    requires Grown(journal, inum, v, w)
    requires Mapped(journal, View(v.flat, v.used, other, nb))
    requires forall b :: Owns(View(v.flat, v.used, other, nb), b) ==> !Owns(v, b)
    ensures Mapped(journal, View(w.flat, w.used, other, nb))
    ensures forall b :: Owns(View(w.flat, w.used, other, nb), b) <==> Owns(View(v.flat, v.used, other, nb), b)
    ensures forall b :: Owns(View(w.flat, w.used, other, nb), b) ==> !Owns(w, b)
    ensures forall i: nat :: i < nb * BLOCK_SIZE ==>
      ByteAt(View(w.flat, w.used, other, nb), i) == ByteAt(View(v.flat, v.used, other, nb), i)
  {
    var before, after := View(v.flat, v.used, other, nb), View(w.flat, w.used, other, nb);
    if other.indirect != 0 {
      assert Owns(before, other.indirect);
    }
    assert forall k :: 0 <= k < MAX_FILE_BLOCKS ==> Map(after, k) == Map(before, k);
    assert forall k :: 0 <= k < nb ==> Owns(before, Map(before, k));
    forall i: nat | i < nb * BLOCK_SIZE
      ensures ByteAt(after, i) == ByteAt(before, i)
    {
      assert i / BLOCK_SIZE < nb;
    }
  }

  /** Blocks, the indirect one included, of a file of `nb` blocks. */
  function Total(nb: nat): nat { nb + if nb > DIRECT then 1 else 0 }

  /** Changing blocks the file's map does not go through leaves the map alone. */
  lemma MapKept(v: View, w: View)
    requires Shaped(v) && Shaped(w) && w.ino.direct == v.ino.direct && w.ino.indirect == v.ino.indirect
    requires 0 < v.ino.indirect < MAX_BLOCKS ==> w.flat[v.ino.indirect] == v.flat[v.ino.indirect]
    ensures forall k :: 0 <= k < MAX_FILE_BLOCKS ==> Map(w, k) == Map(v, k)
  {
  }

  /** Byte `i` of the file `v` after `data` has been written over it from `from` on; bytes never written are zero. */
  ghost function Spliced(v: View, from: nat, data: seq<byte>, i: nat): byte
    requires Shaped(v)
  {
    if from <= i < from + |data| then data[i - from]
    else if i < v.nb * BLOCK_SIZE then ByteAt(v, i)
    else 0
  }

  /** The bytes of the file are those of `v` with `data` written from `from` on. */
  ghost predicate Holds(v: View, from: nat, data: seq<byte>, w: View)
    requires Shaped(v) && Shaped(w)
  {
    forall i: nat :: i < w.nb * BLOCK_SIZE ==> ByteAt(w, i) == Spliced(v, from, data, i)
  }

  /** Two writes one behind the other are one write, unless the file gained blocks under bytes that were lost. */
  lemma HoldsTrans(v0: View, from: nat, data: seq<byte>, v1: View, more: seq<byte>, v2: View)
    requires Shaped(v0) && Shaped(v1) && Shaped(v2) && v0.nb <= v1.nb <= v2.nb
    requires Holds(v0, from, data, v1) && Holds(v1, from + |data|, more, v2)
    requires v2.nb == v1.nb || from + |data| <= v1.nb * BLOCK_SIZE
    ensures Holds(v0, from, data + more, v2)
  {
    forall i: nat | i < v2.nb * BLOCK_SIZE
      ensures ByteAt(v2, i) == Spliced(v0, from, data + more, i)
    {
      assert ByteAt(v2, i) == Spliced(v1, from + |data|, more, i);
    }
  }

  /** Writing nothing is the same wherever it is done. */
  lemma HoldsNothing(v: View, w: View, from: nat)
    requires Shaped(v) && Shaped(w) && Holds(v, 0, [], w)
    ensures Holds(v, from, [], w)
  {
  }

  /** Every block that `v` has is still there, in the same place. */
  ghost predicate SameBlocks(v: View, w: View) {
    && Shaped(v) && Shaped(w) && v.nb <= w.nb
    && forall k :: 0 <= k < v.nb ==> Map(w, k) == Map(v, k) < MAX_BLOCKS && w.flat[Map(v, k)] == v.flat[Map(v, k)]
  }

  lemma GrownSelf(journal: Region, inum: nat, v: View)
    requires Mapped(journal, v)
    ensures Grown(journal, inum, v, v) && Shaped(v)
    ensures SameBlocks(v, v)
  {
    hide TableBytes;
  }

  /** A write wholly behind the blocks the file has is lost. */
  lemma PastTheEnd(v: View, from: nat, data: seq<byte>, w: View)
    requires Shaped(v) && Shaped(w) && w.nb == v.nb && v.nb * BLOCK_SIZE <= from
    requires Holds(v, from, [], w)
    ensures Holds(v, from, data, w)
  {
  }

  /** The file after changes to system blocks and unused blocks only, and to inode fields other than the map. */
  lemma Untouched(journal: Region, inum: nat, v: View, w: View)
    requires Mapped(journal, v) && w.used == v.used && w.nb == v.nb
    requires w.ino.direct == v.ino.direct && w.ino.indirect == v.ino.indirect
    requires w.ino.doubleIndirect == v.ino.doubleIndirect
    requires Quiet(journal, v.used, v.flat, w.flat, 0) || Quiet(journal, v.used, v.flat, w.flat, inum)
    ensures Grown(journal, inum, v, w) && Mapped(journal, w)
    ensures forall from: nat :: Holds(v, from, [], w)
    ensures SameBlocks(v, w)
    ensures forall b :: Owns(v, b) <==> Owns(w, b)
  {
    MapKept(v, w);
    forall i: nat | i < v.nb * BLOCK_SIZE
      ensures ByteAt(w, i) == ByteAt(v, i)
    {
      assert i / BLOCK_SIZE < v.nb;
    }
    assert forall b :: Owns(v, b) <==> Owns(w, b);
  }

  /** `chunk` stored over block `k` of the file from `offset` on. */
  lemma Overwrite(journal: Region, inum: nat, v: View, w: View, k: nat, offset: nat, chunk: seq<byte>)
    requires Mapped(journal, v) && k < v.nb && Shaped(w) && offset + |chunk| <= BLOCK_SIZE
    requires w.used == v.used && w.nb == v.nb && w.ino == v.ino
    requires w.flat == v.flat[Map(v, k) := Patch(v.flat[Map(v, k)], offset, chunk)]
    ensures Grown(journal, inum, v, w) && Mapped(journal, w)
    ensures forall j :: 0 <= j < MAX_FILE_BLOCKS ==> Map(w, j) == Map(v, j)
    ensures Holds(v, k * BLOCK_SIZE + offset, chunk, w)
  {
    hide TableBytes;
    TableKept(v.flat, w.flat);
    MapKept(v, w);
    assert forall b :: Owns(v, b) <==> Owns(w, b);
    forall i: nat | i < v.nb * BLOCK_SIZE
      ensures ByteAt(w, i) == Spliced(v, k * BLOCK_SIZE + offset, chunk, i)
    {
      OverwrittenByte(journal, v, w, k, offset, chunk, i);
    }
  }

  lemma OverwrittenByte(journal: Region, v: View, w: View, k: nat, offset: nat, chunk: seq<byte>, i: nat)
    requires Mapped(journal, v) && k < v.nb && Shaped(w) && offset + |chunk| <= BLOCK_SIZE
    requires w.nb == v.nb && i < v.nb * BLOCK_SIZE
    requires forall j :: 0 <= j < MAX_FILE_BLOCKS ==> Map(w, j) == Map(v, j)
    requires w.flat[Map(v, k)] == Patch(v.flat[Map(v, k)], offset, chunk)
    requires forall j :: 0 <= j < v.nb && j != k ==> w.flat[Map(v, j)] == v.flat[Map(v, j)]
    ensures ByteAt(w, i) == Spliced(v, k * BLOCK_SIZE + offset, chunk, i)
  {
    hide OthersKept;
    assert i == i / BLOCK_SIZE * BLOCK_SIZE + i % BLOCK_SIZE && i / BLOCK_SIZE < v.nb;
  }

  /** The inode and the pointer block after file block `nb` has been given `block`. */
  ghost predicate Attached(v: View, w: View, block: nat)
    requires Shaped(v) && Shaped(w) && v.nb < MAX_FILE_BLOCKS
  {
    if v.nb < DIRECT then
      w.ino.direct == v.ino.direct[v.nb := block] && w.ino.indirect == v.ino.indirect
    else
      && w.ino.direct == v.ino.direct
      && 0 < w.ino.indirect < MAX_BLOCKS
      && if v.nb == DIRECT
         then w.flat[w.ino.indirect] == SetPointer(ZeroBlock(), 0, block)
         else
           && w.ino.indirect == v.ino.indirect
           && w.flat[w.ino.indirect] == SetPointer(v.flat[w.ino.indirect], v.nb - DIRECT, block)
  }

  lemma MapAttached(v: View, w: View, block: nat, k: nat)
    requires Shaped(v) && Shaped(w) && v.nb < MAX_FILE_BLOCKS && k < MAX_FILE_BLOCKS && block < MAX_BLOCKS
    requires v.nb < DIRECT ==> v.ino.indirect == 0
    requires v.nb == DIRECT ==> v.ino.indirect == 0
    requires v.nb > DIRECT ==> v.ino.indirect != 0
    requires Attached(v, w, block)
    ensures Map(w, k) == if k == v.nb then block else Map(v, k)
  {
    if v.nb >= DIRECT && k >= DIRECT {
      var pointers := if v.nb == DIRECT then ZeroBlock() else v.flat[v.ino.indirect];
      PointerAfterSet(pointers, v.nb - DIRECT, block, k - DIRECT);
      if v.nb == DIRECT {
        PointerOfZero(k - DIRECT);
      }
    }
  }

  /** The blocks that giving the file one more block takes: the block itself, and the pointer block with the 13th. */
  ghost predicate Taken(v: View, w: View, block: nat)
    requires Shaped(v) && Shaped(w) && block < MAX_BLOCKS && w.ino.indirect < MAX_BLOCKS
  {
    && !v.used[block]
    && if v.nb == DIRECT
       then !v.used[w.ino.indirect] && w.ino.indirect != block &&
         w.used == v.used[block := true][w.ino.indirect := true]
       else w.used == v.used[block := true]
  }

  lemma MappedAttached(journal: Region, v: View, w: View, block: nat)
    requires Mapped(journal, v) && v.nb < MAX_FILE_BLOCKS && Shaped(w) && w.nb == v.nb + 1
    requires forall b :: 0 <= b < MAX_BLOCKS && System(journal, b) ==> v.used[b]
    requires block < MAX_BLOCKS && w.ino.indirect < MAX_BLOCKS
    requires Attached(v, w, block) && Taken(v, w, block) && w.ino.doubleIndirect == 0
    ensures Mapped(journal, w)
    ensures forall k :: 0 <= k < MAX_FILE_BLOCKS ==> Map(w, k) == if k == v.nb then block else Map(v, k)
    ensures forall b :: Owns(w, b) <==> Owns(v, b) || b == block || (v.nb == DIRECT && b == w.ino.indirect)
  {
    forall k | 0 <= k < MAX_FILE_BLOCKS
      ensures Map(w, k) == if k == v.nb then block else Map(v, k)
    {
      MapAttached(v, w, block, k);
    }
    forall b
      ensures Owns(w, b) <==> Owns(v, b) || b == block || (v.nb == DIRECT && b == w.ino.indirect)
    {
      if Owns(v, b) && b != v.ino.indirect {
        var k :| 0 <= k < v.nb && Map(v, k) == b;
        assert Map(w, k) == b;
      }
      assert Map(w, v.nb) == block;
    }
  }

  lemma AttachedSame(v: View, m: View, w: View, block: nat)
    requires Shaped(v) && Shaped(m) && Shaped(w) && m.ino == v.ino && m.nb == v.nb < MAX_FILE_BLOCKS
    requires v.nb > DIRECT ==> v.ino.indirect < MAX_BLOCKS && m.flat[v.ino.indirect] == v.flat[v.ino.indirect]
    requires Attached(m, w, block)
    ensures Attached(v, w, block)
  {
  }

  lemma ZeroesAppended(v: View, w: View)
    requires Shaped(v) && Shaped(w) && w.nb == v.nb + 1
    requires forall k :: 0 <= k < v.nb ==> Map(w, k) == Map(v, k) < MAX_BLOCKS && w.flat[Map(v, k)] == v.flat[Map(v, k)]
    requires Map(w, v.nb) < MAX_BLOCKS && w.flat[Map(w, v.nb)] == ZeroBlock()
    ensures Holds(v, 0, [], w)
  {
    forall i: nat | i < w.nb * BLOCK_SIZE
      ensures ByteAt(w, i) == Spliced(v, 0, [], i)
    {
      assert i / BLOCK_SIZE < w.nb;
    }
  }

  /**
   * One more block, zeroed, at the end of the file: `m` is the state after the block has been allocated,
   * `w` the state after it has been entered in the map.
   */
  lemma Extend(journal: Region, inum: nat, v: View, m: View, w: View, block: nat)
    requires Mapped(journal, v) && v.nb < MAX_FILE_BLOCKS && Shaped(m) && Shaped(w) && w.nb == v.nb + 1
    requires FIRST_DATA <= journal.start && 0 < inum < MAX_FILES
    requires forall b :: 0 <= b < MAX_BLOCKS && System(journal, b) ==> v.used[b]
    requires 0 < block < MAX_BLOCKS && m.ino == v.ino && m.nb == v.nb
    requires SameBut(v.flat, m.flat, {1, block}) && m.flat[block] == ZeroBlock()
    requires Attached(m, w, block) && w.ino.doubleIndirect == 0 && w.ino.indirect < MAX_BLOCKS
    requires SameBut(m.flat, w.flat, {1, w.ino.indirect, TableBlock(inum)})
    requires Taken(v, w, block) && OthersKept(v.flat, w.flat, inum)
    ensures Grown(journal, inum, v, w) && Map(w, v.nb) == block
    ensures Holds(v, 0, [], w)
    ensures SameBlocks(v, w) && w.flat[block] == ZeroBlock()
  {
    hide Attached, Pointer, SetPointer, Holds, TableBytes, Grown, OthersKept, Owns, Map;
    AttachedSame(v, m, w, block);
    MappedAttached(journal, v, w, block);
    assert SameBut(v.flat, w.flat, {1, block, w.ino.indirect, TableBlock(inum)});
    GrownAttached(journal, inum, v, w, block);
    BlocksKept(journal, inum, v, w, block);
    hide Mapped, SameBut, Taken;
    ZeroesAppended(v, w);
  }

  lemma BlocksKept(journal: Region, inum: nat, v: View, w: View, block: nat)
    requires Mapped(journal, v) && Mapped(journal, w) && w.nb == v.nb + 1 && FIRST_DATA <= journal.start
    requires 0 < inum < MAX_FILES
    requires forall b :: 0 <= b < MAX_BLOCKS && System(journal, b) ==> v.used[b]
    requires block < MAX_BLOCKS && w.ino.indirect < MAX_BLOCKS && Taken(v, w, block)
    requires forall k :: 0 <= k < v.nb ==> Map(w, k) == Map(v, k)
    requires v.nb != DIRECT ==> w.ino.indirect == v.ino.indirect
    requires SameBut(v.flat, w.flat, {1, block, w.ino.indirect, TableBlock(inum)})
    ensures SameBlocks(v, w)
  {
    hide Map;
    assert System(journal, 1) && System(journal, 0) && System(journal, TableBlock(inum));
    assert forall k :: 0 <= k < v.nb ==> DataBlock(journal, v, Map(v, k));
  }

  lemma GrownAttached(journal: Region, inum: nat, v: View, w: View, block: nat)
    requires Mapped(journal, v) && Mapped(journal, w) && w.nb == v.nb + 1 && 0 < inum < MAX_FILES
    requires forall b :: 0 <= b < MAX_BLOCKS && System(journal, b) ==> v.used[b]
    requires block < MAX_BLOCKS && w.ino.indirect < MAX_BLOCKS && Taken(v, w, block) && OthersKept(v.flat, w.flat, inum)
    requires forall b :: Owns(w, b) <==> Owns(v, b) || b == block || (v.nb == DIRECT && b == w.ino.indirect)
    requires v.nb != DIRECT ==> w.ino.indirect == v.ino.indirect
    requires SameBut(v.flat, w.flat, {1, block, w.ino.indirect, TableBlock(inum)})
    ensures Grown(journal, inum, v, w)
  {
    hide Map, TableBytes, Mapped;
    MappedShape(journal, v);
    assert System(journal, 1) && System(journal, 0) && System(journal, TableBlock(inum));
    OwnedUsed(journal, v);
    OwnedUsed(journal, w);
  }

  lemma OwnedUsed(journal: Region, v: View)
    requires Mapped(journal, v)
    ensures Shaped(v) && v.ino.indirect < MAX_BLOCKS && (v.ino.indirect != 0 ==> Owns(v, v.ino.indirect))
    ensures forall b: nat :: Owns(v, b) ==> b < MAX_BLOCKS && v.used[b]
  {
  }

  /** A block allocated and freed again. */
  lemma Unallocated(journal: Region, inum: nat, v: View, w: View, block: nat)
    requires Mapped(journal, v) && w == v.(flat := w.flat) && SameBut(v.flat, w.flat, {1, block})
    requires block < MAX_BLOCKS ==> !v.used[block] && !System(journal, block)
    requires FIRST_DATA <= journal.start && forall b :: 0 <= b < MAX_BLOCKS && System(journal, b) ==> v.used[b]
    ensures Mapped(journal, w) && Shaped(v) && Shaped(w)
    ensures Grown(journal, inum, v, w) && Holds(v, 0, [], w) && SameBlocks(v, w)
  {
    hide TableBytes, Holds;
    assert System(journal, 1);
    assert forall b :: 4 <= b < FIRST_DATA ==> System(journal, b);
    TableKept(v.flat, w.flat);
    Untouched(journal, inum, v, w);
  }

  /** `out` is what the file holds from `from` on. */
  ghost predicate Reads(v: View, from: nat, out: seq<byte>)
    requires Shaped(v)
  {
    forall i :: 0 <= i < |out| ==> from + i < v.nb * BLOCK_SIZE && out[i] == ByteAt(v, from + i)
  }

  lemma ReadsMore(journal: Region, v: View, from: nat, out: seq<byte>, k: nat, offset: nat, n: nat)
    requires Mapped(journal, v) && Reads(v, from, out) && k < v.nb
    requires from + |out| == k * BLOCK_SIZE + offset && offset + n <= BLOCK_SIZE
    ensures Reads(v, from, out + v.flat[Map(v, k)][offset..offset + n])
  {
    var more := out + v.flat[Map(v, k)][offset..offset + n];
    forall i | 0 <= i < |more|
      ensures from + i < v.nb * BLOCK_SIZE && more[i] == ByteAt(v, from + i)
    {
      if i >= |out| {
        assert from + i == k * BLOCK_SIZE + (offset + i - |out|);
      }
    }
  }

  /**
   * Read where data was written, as far as the blocks go: a prefix of the data, and all of it exactly if they go that
   * far.
   */
  lemma ReadBack(v: View, from: nat, data: seq<byte>, w: View, out: seq<byte>)
    requires Shaped(v) && Shaped(w) && Holds(v, from, data, w) && Reads(w, from, out)
    requires var room := w.nb * BLOCK_SIZE - from;
      |out| == if room <= 0 then 0 else if room < |data| then room else |data|
    ensures out <= data
    ensures out == data <==> data == [] || from + |data| <= w.nb * BLOCK_SIZE
  {
    forall i | 0 <= i < |out|
      ensures out[i] == data[i]
    {
      var byte := out[i];
      assert ByteAt(w, from + i) == Spliced(v, from, data, from + i);
    }
  }

  /** File block numbers below `nb` and disk block `b` is one of theirs. */
  ghost predicate MapsTo(v: View, first: nat, last: nat, block: nat)
    requires Shaped(v) && last <= MAX_FILE_BLOCKS
  {
    exists k :: first <= k < last && Map(v, k) == block
  }

  /** The bitmap `used` is that of `v` without the blocks of file blocks `first` to `last`. */
  ghost predicate Released(v: View, used: seq<bool>, last: nat)
    requires Shaped(v) && last <= v.nb
  {
    && |used| == MAX_BLOCKS
    && forall b :: 0 <= b < MAX_BLOCKS ==> (used[b] <==> v.used[b] && !MapsTo(v, 0, last, b))
  }

  lemma ReleaseNext(journal: Region, v: View, used: seq<bool>, last: nat)
    requires Mapped(journal, v) && last < v.nb && Released(v, used, last)
    ensures Map(v, last) < MAX_BLOCKS && used[Map(v, last)] && !System(journal, Map(v, last)) && Map(v, last) != 0
    ensures Released(v, used[Map(v, last) := false], last + 1)
  {
    var block := Map(v, last);
    assert DataBlock(journal, v, block);
    assert System(journal, 0);
    forall b | 0 <= b < MAX_BLOCKS
      ensures MapsTo(v, 0, last + 1, b) <==> MapsTo(v, 0, last, b) || b == block
    {
    }
  }

  /** One turn of a write: a block taken or not (`v2`), the chunk stored (`v3`), the size in the inode set (`v4`). */
  lemma TurnHolds(journal: Region, inum: nat, v1: View, v2: View, v3: View, v4: View, from: nat, chunk: seq<byte>)
    requires Grown(journal, inum, v1, v2) && Grown(journal, inum, v2, v3)
    requires Shaped(v1) && Shaped(v2) && Shaped(v3) && Holds(v1, 0, [], v2) && Holds(v2, from, chunk, v3)
    requires v2.nb == v1.nb || from <= v1.nb * BLOCK_SIZE
    requires v3.nb == v2.nb && v4 == v3.(ino := v3.ino.(size := v4.ino.size))
    ensures Mapped(journal, v4) && Shaped(v4) && Grown(journal, inum, v1, v4) && Holds(v1, from, chunk, v4)
  {
    hide Holds, Grown, TableBytes;
    MappedOf(journal, inum, v2, v3);
    Untouched(journal, inum, v3, v4);
    GrownTrans(journal, inum, v1, v2, v3);
    GrownTrans(journal, inum, v1, v3, v4);
    HoldsNothing(v1, v2, from);
    HoldsTrans(v1, from, [], v2, chunk, v3);
    HoldsTrans(v1, from, [] + chunk, v3, [], v4);
    assert [] + chunk + [] == chunk;
  }

  /** A write goes on: what has been written, and the chunk behind it. */
  lemma WriteGoesOn(journal: Region, inum: nat, v0: View, v1: View, v2: View, from: nat, data: seq<byte>, written: nat,
                    n: nat)
    requires Shaped(v0) && Shaped(v1) && written + n <= |data|
    requires Grown(journal, inum, v0, v1) && Holds(v0, from, data[..written], v1)
    requires Grown(journal, inum, v1, v2) && Shaped(v2) && Holds(v1, from + written, data[written..written + n], v2)
    requires v2.nb == v1.nb || from + written <= v1.nb * BLOCK_SIZE
    ensures Mapped(journal, v2) && Grown(journal, inum, v0, v2) && Holds(v0, from, data[..written + n], v2)
  {
    hide Holds, Grown;
    MappedOf(journal, inum, v0, v1);
    MappedOf(journal, inum, v1, v2);
    GrownTrans(journal, inum, v0, v1, v2);
    HoldsTrans(v0, from, data[..written], v1, data[written..written + n], v2);
    assert data[..written] + data[written..written + n] == data[..written + n];
  }

  /** After system blocks and inode fields other than the map have changed, the file still holds what it held. */
  lemma StillHolds(journal: Region, inum: nat, v0: View, v: View, w: View, from: nat, data: seq<byte>)
    requires Shaped(v0) && Shaped(v) && Grown(journal, inum, v0, v) && Holds(v0, from, data, v)
    requires w.used == v.used && w.nb == v.nb && |w.ino.direct| == DIRECT
    requires w.ino.direct == v.ino.direct && w.ino.indirect == v.ino.indirect
    requires w.ino.doubleIndirect == v.ino.doubleIndirect
    requires Quiet(journal, v.used, v.flat, w.flat, 0) || Quiet(journal, v.used, v.flat, w.flat, inum)
    ensures Mapped(journal, w) && Shaped(w) && Grown(journal, inum, v0, w) && Holds(v0, from, data, w)
  {
    hide Holds, Grown, Quiet;
    MappedOf(journal, inum, v0, v);
    Untouched(journal, inum, v, w);
    MappedOf(journal, inum, v, w);
    GrownTrans(journal, inum, v0, v, w);
    HoldsTrans(v0, from, data, v, [], w);
    assert data + [] == data;
  }

  /** Nothing but the file's own blocks has been released. */
  lemma AllReleased(journal: Region, v: View, used: seq<bool>)
    requires Mapped(journal, v) && Released(v, used, v.nb)
    ensures v.ino.indirect != 0 ==> used[v.ino.indirect]
    ensures var rest := if v.ino.indirect == 0 then used else used[v.ino.indirect := false];
      forall b :: 0 <= b < MAX_BLOCKS ==> (rest[b] <==> v.used[b] && !Owns(v, b))
  {
    assert System(journal, 0);
    forall b | 0 <= b < MAX_BLOCKS
      ensures Owns(v, b) <==> (b != 0 && b == v.ino.indirect) || MapsTo(v, 0, v.nb, b)
    {
    }
  }

  /** What an empty file has come to own is what has been taken. */
  lemma GrownFromNothing(journal: Region, inum: nat, v: View, w: View)
    requires Grown(journal, inum, v, w) && v.nb == 0
    ensures Mapped(journal, w)
    ensures forall b :: 0 <= b < MAX_BLOCKS ==> (v.used[b] <==> w.used[b] && !Owns(w, b))
    ensures w.ino.indirect < MAX_BLOCKS && forall k :: 0 <= k < DIRECT ==> w.ino.direct[k] < MAX_BLOCKS
  {
    assert forall k :: 0 <= k < DIRECT ==> w.ino.direct[k] == Map(w, k);
    assert forall b :: !Owns(v, b);
  }

  /** Only the size in the inode differs. */
  lemma Resized(journal: Region, inum: nat, v: View, w: View)
    requires Mapped(journal, v) && w == v.(ino := v.ino.(size := w.ino.size))
    ensures Grown(journal, inum, v, w) && SameBlocks(v, w)
    ensures forall k :: 0 <= k < MAX_FILE_BLOCKS ==> Map(w, k) == Map(v, k)
  {
    Untouched(journal, inum, v, w);
    MapKept(v, w);
  }
}
