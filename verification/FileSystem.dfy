/** ZEBXFS above the block cache: block allocation, inodes, block maps, and reading, writing and unlinking files. */
module FileSystem {
  import opened Bytes
  import opened BlockCache
  import opened Inode
  import opened FileView
  import Bitmap

  function Min(a: int, b: int): int { if a < b then a else b }
  function Max(a: int, b: int): int { if a < b then b else a }

  /** The conversion `(int)n` of a 64-bit unsigned number. */
  function AsInt32(n: nat): int {
    var low := n % U32;
    if low < 0x8000_0000 then low else low - U32
  }

  /** A 64-bit offset, as a signed one. */
  function AsInt64(n: nat): int
    requires n < U64
  {
    if n < 0x8000_0000_0000_0000 then n else n - U64
  }

  /** Blocks still to be taken before the file can have one more. */
  function NextCost(nb: nat): nat { if nb == DIRECT then 2 else 1 }

  /** The file cannot get another block. */
  predicate Stuck(nb: nat, free: nat) {
    nb == MAX_FILE_BLOCKS || free < NextCost(nb)
  }

  function BlocksFor(bytes: nat): nat { (bytes + BLOCK_SIZE - 1) / BLOCK_SIZE }

  /** A file of `nb` blocks can be extended to `end` bytes. */
  predicate Room(end: nat, nb: nat, free: nat) {
    BlocksFor(end) <= MAX_FILE_BLOCKS && Total(Max(nb, BlocksFor(end))) - Total(nb) <= free
  }

  lemma RoomIff(end: nat, nb: nat, nb': nat, free: nat)
    requires nb <= nb' <= MAX_FILE_BLOCKS && Total(nb') - Total(nb) <= free
    requires nb' == nb || (nb' - 1) * BLOCK_SIZE < end
    requires end <= nb' * BLOCK_SIZE || Stuck(nb', free - (Total(nb') - Total(nb)))
    ensures end <= nb' * BLOCK_SIZE <==> Room(end, nb, free)
  {
    assert BlocksFor(end) <= nb' <==> end <= nb' * BLOCK_SIZE;
  }

  /** A position given as a signed offset is that position. */
  lemma SeekBack(from: nat, size: nat)
    requires from < U64
    ensures -0x8000_0000_0000_0000 <= AsInt64(from) < 0x8000_0000_0000_0000
    ensures from <= size ==> Min((0 + AsInt64(from)) % U64, size) == from
  {
  }

  lemma BytesLeft(n: nat, size: nat, blocks: nat, from: nat)
    ensures from + n <= size ==>
      Max(0, Min(n, Min(size, blocks) - from)) ==
        if blocks - from <= 0 then 0 else if blocks - from < n then blocks - from else n
  {
  }

  type Word = w: seq<byte> | |w| == 4 witness [0, 0, 0, 0]

  /** A journal record: sequence, type, block, checksum and padding. */
  function JournalEntry(sequence: nat, kind: nat, block: nat, checksum: Word, padding: Word): (entry: seq<byte>)
    ensures |entry| == 24
  {
    Store(sequence, 4) + Store(kind, 4) + Store(block, 8) + checksum + padding
  }

  /** A block starts with a journal record; its checksum and padding are whatever was in memory. */
  ghost predicate Marks(b: Block, sequence: nat, kind: nat, block: nat) {
    exists checksum: Word, padding: Word :: b[..24] == JournalEntry(sequence, kind, block, checksum, padding)
  }

  class FileHandle {
    var inodeNum: nat
    var ino: Inode
    var position: nat
    var dirty: bool

    constructor (inodeNum: nat, ino: Inode)
      ensures this.inodeNum == inodeNum && this.ino == ino && position == 0 && !dirty
    {
      this.inodeNum, this.ino, position, dirty := inodeNum, ino, 0, false;
    }
  }

  lemma TableAfterStore(before: seq<Block>, after: seq<Block>, inum: nat, ino: Inode)
    requires |before| == |after| == MAX_BLOCKS && 0 < inum < MAX_FILES
    requires |ino.direct| == DIRECT && |ino.tail| == 44
    requires after[TableBlock(inum)] ==
      Patch(before[TableBlock(inum)], inum % INODES_PER_BLOCK * INODE_SIZE, Encode(ino))
    requires forall b :: 4 <= b < FIRST_DATA && b != TableBlock(inum) ==> after[b] == before[b]
    ensures TableBytes(after, inum) == Encode(ino)
    ensures OthersKept(before, after, inum)
  {
    var at := inum % INODES_PER_BLOCK * INODE_SIZE;
    var block := after[TableBlock(inum)];
    assert block[at..at + INODE_SIZE] == Encode(ino);
    forall m | 0 < m < MAX_FILES && m != inum
      ensures TableBytes(after, m) == TableBytes(before, m)
    {
      if TableBlock(m) == TableBlock(inum) {
        var other := m % INODES_PER_BLOCK * INODE_SIZE;
        assert m % INODES_PER_BLOCK != inum % INODES_PER_BLOCK;
        assert block[other..other + INODE_SIZE] == before[TableBlock(m)][other..other + INODE_SIZE];
      }
    }
  }

  class Volume {
    const cache: Cache
    const dataBitmap: array<bv8>
    const inodeBitmap: array<bv8>
    const journal: Region
    var journalSequence: nat
    var freeBlocks: nat
    var freeInodes: nat
    /** dataBitmap, one boolean a block. */
    ghost var used: seq<bool>

    /** A mounted file system, whatever its bitmap says. */
    ghost predicate Sound()
      reads this, cache, cache.slots, dataBitmap
    {
      && cache.Valid() && !cache.wearLevelling && cache.reliable && cache.landed && |cache.flat| == MAX_BLOCKS
      && 8 * dataBitmap.Length == MAX_BLOCKS && used == Bitmap.Bits(dataBitmap[..])
      && 8 * inodeBitmap.Length == MAX_FILES && inodeBitmap != dataBitmap && freeInodes < U64
      && journal.size > 0 && FIRST_DATA <= journal.start && journal.start + journal.size <= MAX_BLOCKS
    }

    /** All system blocks are marked used, and the free blocks are those that are not. */
    ghost predicate Valid()
      reads this, cache, cache.slots, dataBitmap
    {
      && Sound()
      && (forall b :: 0 <= b < MAX_BLOCKS && System(journal, b) ==> used[b])
      && freeBlocks == Bitmap.CountClear(used)
    }

    /** The state zebfs_init leaves from a well-formed device: a cache, both bitmaps and the superblock's numbers. */
    constructor (cache: Cache, dataBitmap: array<bv8>, inodeBitmap: array<bv8>, journal: Region, freeInodes: nat)
      requires cache.Valid() && !cache.wearLevelling && cache.reliable && freeInodes < U64
      requires 8 * dataBitmap.Length == MAX_BLOCKS && 8 * inodeBitmap.Length == MAX_FILES && inodeBitmap != dataBitmap
      requires journal.size > 0 && FIRST_DATA <= journal.start && journal.start + journal.size <= MAX_BLOCKS
      requires forall b :: 0 <= b < MAX_BLOCKS && System(journal, b) ==> Bitmap.Bits(dataBitmap[..])[b]
      ensures Valid()
    {
      this.cache, this.dataBitmap, this.inodeBitmap, this.journal := cache, dataBitmap, inodeBitmap, journal;
      journalSequence, this.freeInodes := 0, freeInodes;
      freeBlocks := Bitmap.CountClear(Bitmap.Bits(dataBitmap[..]));
      used := Bitmap.Bits(dataBitmap[..]);
    }

    ghost function ViewOf(ino: Inode, nb: nat): View
      reads this, cache
    {
      View(cache.flat, used, ino, nb)
    }

    /** Stores the superblock in block 1; what lies behind the structure in memory goes with it. */
    method StoreSuperblock()
      requires Sound()
      modifies cache, cache.slots
      ensures Sound() && SameBut(old(cache.flat), cache.flat, {1})
    {
      var image: Block := *;
      cache.WriteBlock(1, image);
    }

    method AllocBlock() returns (block: nat)
      requires Valid()
      modifies this`freeBlocks, this`used, cache, cache.slots, dataBitmap
      ensures Valid()
      ensures block == 0 <==> old(freeBlocks) == 0
      ensures block == 0 ==> used == old(used) && cache.flat == old(cache.flat) && freeBlocks == 0
      ensures block != 0 ==>
        && block < MAX_BLOCKS && !old(used)[block] && !System(journal, block)
        && (forall b :: 0 <= b < block ==> old(used)[b])
        && used == old(used)[block := true] && freeBlocks == old(freeBlocks) - 1
        && SameBut(old(cache.flat), cache.flat, {1, block}) && cache.flat[block] == ZeroBlock()
    {
      hide Bitmap.Bits, Bitmap.CountClear;
      Bitmap.SomeClear(used);
      var found := Bitmap.FindFree(dataBitmap, MAX_BLOCKS);
      if found < 0 {
        return 0;
      }
      forall b | 0 <= b < found
        ensures used[b]
      {
        assert Bitmap.Bits(dataBitmap[..])[b];
      }
      Bitmap.CountClearUpdate(used, found, true);
      used := used[found := true];
      freeBlocks := freeBlocks - 1;
      StoreSuperblock();
      cache.WriteBlock(found, ZeroBlock());
      return found;
    }

    /**
     * Freeing what is not in use puts the count off, freeing a system block lays it open; the state is good exactly
     * otherwise.
     */
    method FreeBlock(block: nat) returns (ok: bool)
      requires Valid()
      modifies this`freeBlocks, this`used, cache, cache.slots, dataBitmap
      ensures Sound()
      ensures ok <==> 0 < block < MAX_BLOCKS
      ensures ok ==> used == old(used)[block := false] && freeBlocks == old(freeBlocks) + 1
      ensures ok ==> SameBut(old(cache.flat), cache.flat, {1})
      ensures !ok ==> used == old(used) && freeBlocks == old(freeBlocks) && cache.flat == old(cache.flat)
      ensures Valid() <==> !ok || (old(used)[block] && !System(journal, block))
    {
      hide Bitmap.Bits, Bitmap.CountClear;
      if block == 0 || block >= MAX_BLOCKS {
        return false;
      }
      Bitmap.Clear(dataBitmap, block);
      Bitmap.CountClearUpdate(used, block, false);
      used := used[block := false];
      freeBlocks := freeBlocks + 1;
      StoreSuperblock();
      return true;
    }

    method ReadInode(inum: nat) returns (ok: bool, ino: Inode)
      requires Valid()
      modifies cache, cache.slots
      ensures Valid() && cache.flat == old(cache.flat)
      ensures ok <==> 0 < inum < MAX_FILES
      ensures ok ==> ino == TableInode(cache.flat, inum)
    {
      if inum == 0 || inum >= MAX_FILES {
        return false, Decode(seq(INODE_SIZE, _ => 0));
      }
      var offset := inum % INODES_PER_BLOCK * INODE_SIZE;
      var buffer := cache.ReadBlock(TableBlock(inum));
      return true, Decode(buffer[offset..offset + INODE_SIZE]);
    }

    method WriteInode(inum: nat, ino: Inode) returns (ok: bool)
      requires Valid() && |ino.direct| == DIRECT && |ino.tail| == 44
      modifies cache, cache.slots
      ensures Valid()
      ensures ok <==> 0 < inum < MAX_FILES
      ensures !ok ==> cache.flat == old(cache.flat)
      ensures ok ==> SameBut(old(cache.flat), cache.flat, {TableBlock(inum)})
      ensures ok ==> TableBytes(cache.flat, inum) == Encode(ino)
      ensures ok ==> Quiet(journal, used, old(cache.flat), cache.flat, inum)
      ensures ok ==> OthersKept(old(cache.flat), cache.flat, inum)
    {
      if inum == 0 || inum >= MAX_FILES {
        return false;
      }
      var offset := inum % INODES_PER_BLOCK * INODE_SIZE;
      var buffer := cache.ReadBlock(TableBlock(inum));
      cache.WriteBlock(TableBlock(inum), Patch(buffer, offset, Encode(ino)));
      TableAfterStore(old(cache.flat), cache.flat, inum, ino);
      return true;
    }

    /** read_block of a block that a file owns. */
    method LoadBlock(block: nat) returns (data: Block)
      requires Valid()
      modifies cache, cache.slots
      ensures Valid() && cache.flat == old(cache.flat)
      ensures 0 < block < MAX_BLOCKS ==> data == cache.flat[block]
    {
      data := cache.ReadBlock(block);
    }

    /** write_block; a block number beyond the device is lost. */
    method StoreBlock(block: nat, data: Block)
      requires Valid()
      modifies cache, cache.slots
      ensures Valid() && cache.flat == if block < MAX_BLOCKS then old(cache.flat)[block := data] else old(cache.flat)
    {
      cache.WriteBlock(block, data);
    }

    // ----- block maps -----

    method InodeReadBlock(ino: Inode, fileBlock: nat, ghost nb: nat) returns (ok: bool, diskBlock: nat)
      requires Valid() && Shaped(ViewOf(ino, nb)) && ino.indirect < MAX_BLOCKS
      modifies cache, cache.slots
      ensures Valid() && cache.flat == old(cache.flat)
      ensures fileBlock < MAX_FILE_BLOCKS ==> ok && diskBlock == Map(ViewOf(ino, nb), fileBlock)
      ensures ok <==> fileBlock < MAX_FILE_BLOCKS + POINTERS * POINTERS
      ensures fileBlock >= MAX_FILE_BLOCKS && ok && ino.doubleIndirect == 0 ==> diskBlock == 0
      ensures fileBlock >= MAX_FILE_BLOCKS && ok && 0 < ino.doubleIndirect < MAX_BLOCKS ==>
        var k := fileBlock - MAX_FILE_BLOCKS;
        var pointers := Pointer(cache.flat[ino.doubleIndirect], k / POINTERS);
        0 < pointers < MAX_BLOCKS ==> diskBlock == Pointer(cache.flat[pointers], k % POINTERS)
    {
      hide Bitmap.Bits, Bitmap.CountClear, Cache.Valid, Pointer;
      if fileBlock < DIRECT {
        return true, ino.direct[fileBlock];
      }
      var k := fileBlock - DIRECT;
      if k < POINTERS {
        if ino.indirect == 0 {
          return true, 0;
        }
        var buffer := cache.ReadBlock(ino.indirect);
        return true, Pointer(buffer, k);
      }
      k := k - POINTERS;
      if k < POINTERS * POINTERS {
        if ino.doubleIndirect == 0 {
          return true, 0;
        }
        var outer := cache.ReadBlock(ino.doubleIndirect);
        var inner := cache.ReadBlock(Pointer(outer, k / POINTERS));
        return true, Pointer(inner, k % POINTERS);
      }
      return false, 0;
    }

    /** Stores `diskBlock` in the file's pointer block, which is allocated first if there is none. */
    method SetIndirect(ino: Inode, k: nat, diskBlock: nat) returns (ok: bool, r: Inode)
      requires Valid() && k < POINTERS
      requires ino.indirect != 0 ==> FIRST_DATA <= ino.indirect < MAX_BLOCKS
      modifies this`freeBlocks, this`used, cache, cache.slots, dataBitmap
      ensures Valid()
      ensures ok <==> ino.indirect != 0 || old(freeBlocks) > 0
      ensures !ok ==> r == ino && used == old(used) && freeBlocks == old(freeBlocks) && cache.flat == old(cache.flat)
      ensures ok ==> r == ino.(indirect := r.indirect) && FIRST_DATA <= r.indirect < MAX_BLOCKS
      ensures ok ==> SameBut(old(cache.flat), cache.flat, {1, r.indirect})
      ensures ok && ino.indirect != 0 ==>
        && r == ino && used == old(used) && freeBlocks == old(freeBlocks)
        && cache.flat[r.indirect] == SetPointer(old(cache.flat)[r.indirect], k, diskBlock)
      ensures ok && ino.indirect == 0 ==>
        && !old(used)[r.indirect]
        && used == old(used)[r.indirect := true] && freeBlocks == old(freeBlocks) - 1
        && cache.flat[r.indirect] == SetPointer(ZeroBlock(), k, diskBlock)
    {
      r := ino;
      if r.indirect == 0 {
        var pointers := AllocBlock();
        r := r.(indirect := pointers);
        if r.indirect == 0 {
          return false, r;
        }
      }
      var buffer := cache.ReadBlock(r.indirect);
      cache.WriteBlock(r.indirect, SetPointer(buffer, k, diskBlock));
      return true, r;
    }

    /** Enters `diskBlock` in the map of the file as file block `nb`, and stores the inode. */
    method InodeWriteBlock(ino: Inode, inum: nat, fileBlock: nat, diskBlock: nat, ghost nb: nat)
      returns (ok: bool, r: Inode)
      requires Valid() && 0 < inum < MAX_FILES && |ino.tail| == 44
      requires Shaped(ViewOf(ino, nb)) && (ino.indirect != 0 ==> FIRST_DATA <= ino.indirect < MAX_BLOCKS)
      requires fileBlock == nb ==> (ino.indirect != 0 <==> nb > DIRECT)
      modifies this`freeBlocks, this`used, cache, cache.slots, dataBitmap
      ensures Valid()
      ensures ok <==> fileBlock < DIRECT || (fileBlock < MAX_FILE_BLOCKS && (ino.indirect != 0 || old(freeBlocks) > 0))
      ensures !ok ==> r == ino && used == old(used) && freeBlocks == old(freeBlocks) && cache.flat == old(cache.flat)
      ensures |r.direct| == DIRECT
      ensures ok && fileBlock == nb ==> Attached(old(ViewOf(ino, nb)), ViewOf(r, nb + 1), diskBlock)
      ensures ok && fileBlock == nb ==>
        if nb == DIRECT
        then !old(used)[r.indirect] && used == old(used)[r.indirect := true] && freeBlocks == old(freeBlocks) - 1
        else used == old(used) && freeBlocks == old(freeBlocks)
      ensures ok ==> r == ino.(direct := r.direct, indirect := r.indirect)
      ensures ok ==> SameBut(old(cache.flat), cache.flat, {1, r.indirect, TableBlock(inum)})
      ensures ok ==> OthersKept(old(cache.flat), cache.flat, inum) && TableBytes(cache.flat, inum) == Encode(r)
    {
      hide Cache.Valid, Encode, TableBytes, Bitmap.Bits, Bitmap.CountClear;
      if fileBlock < DIRECT {
        r := ino.(direct := ino.direct[fileBlock := diskBlock]);
        ok := WriteInode(inum, r);
      } else if fileBlock - DIRECT < POINTERS {
        ok, r := SetIndirect(ino, fileBlock - DIRECT, diskBlock);
        if ok {
          TableKept(old(cache.flat), cache.flat);
          ok := WriteInode(inum, r);
        }
      } else {
        return false, ino;
      }
    }

    /**
     * Gives the file its next block. It fails exactly when no block, or no pointer block, is to be had;
     * the allocation bitmap is then what it was.
     */
    method InodeAllocateBlock(ino: Inode, inum: nat, fileBlock: nat, ghost nb: nat) returns (block: int, r: Inode)
      requires Valid() && 0 < inum < MAX_FILES && |ino.tail| == 44
      requires Mapped(journal, ViewOf(ino, nb))
      requires fileBlock == nb || (fileBlock > nb && Stuck(nb, freeBlocks))
      modifies this`freeBlocks, this`used, cache, cache.slots, dataBitmap
      ensures Valid()
      ensures block == -1 <==> Stuck(nb, old(freeBlocks))
      ensures block == -1 ==>
        && r == ino && used == old(used) && freeBlocks == old(freeBlocks)
        && Grown(journal, inum, old(ViewOf(ino, nb)), ViewOf(r, nb))
        && Holds(old(ViewOf(ino, nb)), 0, [], ViewOf(r, nb)) && SameBlocks(old(ViewOf(ino, nb)), ViewOf(r, nb))
      ensures block != -1 ==>
        && Rewritten(ino, r) && r.size == ino.size && r.modified == ino.modified && r.blocks == (ino.blocks + 1) % U64
        && freeBlocks == old(freeBlocks) - NextCost(nb)
        && Grown(journal, inum, old(ViewOf(ino, nb)), ViewOf(r, nb + 1))
        && block == Map(ViewOf(r, nb + 1), nb)
        && Holds(old(ViewOf(ino, nb)), 0, [], ViewOf(r, nb + 1)) && SameBlocks(old(ViewOf(ino, nb)), ViewOf(r, nb + 1))
        && cache.flat[block] == ZeroBlock()
    {
      hide Cache.Valid, Grown, ByteAt, Holds, SameBlocks, TableBytes, Bitmap.Bits, Bitmap.CountClear, Map;
      ghost var v := ViewOf(ino, nb);
      var diskBlock := AllocBlock();
      if diskBlock == 0 {
        Unallocated(journal, inum, v, ViewOf(ino, nb), MAX_BLOCKS);
        return -1, ino;
      }
      TableKept(old(cache.flat), cache.flat);
      ghost var m := ViewOf(ino, nb);
      var ok;
      ok, r := InodeWriteBlock(ino, inum, fileBlock, diskBlock, nb);
      if !ok {
        var _ := FreeBlock(diskBlock);
        assert used == old(used);
        Unallocated(journal, inum, v, ViewOf(r, nb), diskBlock);
        return -1, r;
      }
      r := r.(blocks := (r.blocks + 1) % U64);
      Extend(journal, inum, v, m, ViewOf(r, nb + 1), diskBlock);
      return diskBlock, r;
    }

    // ----- journal -----

    /** Where the records of the current sequence number go, all of them. */
    ghost function JournalSlot(): (b: nat)
      requires journal.size > 0
      reads this
    {
      journal.start + journalSequence % journal.size
    }

    /**
     * The journal slot is the block, starting with this record; the rest of the block and of the device is the same.
     */
    ghost predicate Recorded(before: seq<Block>, kind: nat, block: nat, rest: seq<byte>)
      reads this, cache
    {
      && journal.size > 0 && JournalSlot() < |cache.flat| && SameBut(before, cache.flat, {JournalSlot()})
      && Marks(cache.flat[JournalSlot()], journalSequence, kind, block) && cache.flat[JournalSlot()][24..] == rest
    }

    /** The record journal_begin and journal_commit put at the head of the journal block. */
    method JournalMark(kind: nat)
      requires Valid()
      modifies cache, cache.slots
      ensures Valid() && Quiet(journal, used, old(cache.flat), cache.flat, 0)
      ensures JournalSlot() < |old(cache.flat)|
      ensures Recorded(old(cache.flat), kind, 0, old(cache.flat[JournalSlot()])[24..])
    {
      hide TableBytes, Bitmap.Bits, Bitmap.CountClear, JournalEntry;
      var block := journal.start + journalSequence % journal.size;
      assert System(journal, block);
      var buffer := cache.ReadBlock(block);
      var checksum: Word, padding: Word := [0, 0, 0, 0], *;
      var entry := JournalEntry(journalSequence, kind, 0, checksum, padding);
      var image := Patch(buffer, 0, entry);
      assert image[..24] == entry && image[24..] == buffer[24..];
      assert Marks(image, journalSequence, kind, 0);
      cache.WriteBlock(block, image);
      TableKept(old(cache.flat), cache.flat);
    }

    method JournalBegin()
      requires Valid()
      modifies this`journalSequence, cache, cache.slots
      ensures Valid() && Quiet(journal, used, old(cache.flat), cache.flat, 0)
      ensures journalSequence == (old(journalSequence) + 1) % U32
      ensures JournalSlot() < |old(cache.flat)| && Recorded(old(cache.flat), 1, 0, old(cache.flat)[JournalSlot()][24..])
    {
      journalSequence := (journalSequence + 1) % U32;
      JournalMark(1);
    }

    method JournalWrite(block: nat, data: Block)
      requires Valid()
      modifies cache, cache.slots
      ensures Valid() && Quiet(journal, used, old(cache.flat), cache.flat, 0)
      ensures Recorded(old(cache.flat), 3, block, data[..BLOCK_SIZE - 24])
    {
      hide TableBytes, Bitmap.Bits, Bitmap.CountClear, JournalEntry;
      var checksum: Word, padding: Word := *, *;
      var entry := JournalEntry(journalSequence, 3, block, checksum, padding);
      var target := journal.start + journalSequence % journal.size;
      assert System(journal, target);
      var image := entry + data[..BLOCK_SIZE - |entry|];
      assert image[..24] == entry && image[24..] == data[..BLOCK_SIZE - 24];
      assert Marks(image, journalSequence, 3, block);
      cache.WriteBlock(target, image);
      TableKept(old(cache.flat), cache.flat);
    }

    /** The commit record goes where the copy of the data went: only the tail of the copy is left. */
    method JournalCommit()
      requires Valid()
      modifies cache, cache.slots
      ensures Valid() && Quiet(journal, used, old(cache.flat), cache.flat, 0)
      ensures JournalSlot() < |old(cache.flat)| && Recorded(old(cache.flat), 2, 0, old(cache.flat)[JournalSlot()][24..])
    {
      JournalMark(2);
    }

    // ----- files -----

    /**
     * The disk block of file block `fileBlock`, allocated if it is the next one; U64 - 1 if there is none to be had.
     */
    method BlockForWriting(file: FileHandle, fileBlock: nat, ghost nb: nat) returns (diskBlock: nat, ghost nb': nat)
      requires Valid() && 0 < file.inodeNum < MAX_FILES && |file.ino.tail| == 44 && file.ino.blocks == nb
      requires Mapped(journal, ViewOf(file.ino, nb))
      requires fileBlock <= nb || Stuck(nb, freeBlocks)
      modifies this`freeBlocks, this`used, cache, cache.slots, dataBitmap, file`ino
      ensures Valid() && Rewritten(old(file.ino), file.ino)
      ensures file.ino.size == old(file.ino.size) && file.ino.modified == old(file.ino.modified)
      ensures file.ino.blocks == nb'
      ensures Mapped(journal, ViewOf(file.ino, nb'))
      ensures Grown(journal, file.inodeNum, old(ViewOf(file.ino, nb)), ViewOf(file.ino, nb'))
      ensures Holds(old(ViewOf(file.ino, nb)), 0, [], ViewOf(file.ino, nb'))
      ensures freeBlocks == old(freeBlocks) - (Total(nb') - Total(nb))
      ensures fileBlock < nb ==> nb' == nb
      ensures fileBlock >= nb ==> nb' == if Stuck(nb, old(freeBlocks)) then nb else nb + 1
      ensures diskBlock == if fileBlock < nb' then Map(ViewOf(file.ino, nb'), fileBlock) else U64 - 1
    {
      hide Cache.Valid, Grown, ByteAt, Holds, SameBlocks, TableBytes, Bitmap.Bits, Bitmap.CountClear;
      var ok;
      ok, diskBlock := InodeReadBlock(file.ino, fileBlock, nb);
      nb' := nb;
      Untouched(journal, file.inodeNum, ViewOf(file.ino, nb), ViewOf(file.ino, nb));
      if !ok || diskBlock == 0 {
        var block, r := InodeAllocateBlock(file.ino, file.inodeNum, fileBlock, nb);
        file.ino := r;
        nb' := if block == -1 then nb else nb + 1;
        MappedOf(journal, file.inodeNum, old(ViewOf(file.ino, nb)), ViewOf(file.ino, nb'));
        diskBlock := if block == -1 then U64 - 1 else block;
      }
    }

    /** Stores `chunk` in a block of the file from `offset` on, and a copy of the block in the journal. */
    method StoreChunk(file: FileHandle, diskBlock: nat, fileBlock: nat, offset: nat, chunk: seq<byte>, ghost nb: nat)
      requires Valid() && Mapped(journal, ViewOf(file.ino, nb)) && 0 < file.inodeNum < MAX_FILES
      requires offset + |chunk| <= BLOCK_SIZE
      requires diskBlock == if fileBlock < nb then Map(ViewOf(file.ino, nb), fileBlock) else U64 - 1
      modifies cache, cache.slots
      ensures Valid() && Mapped(journal, ViewOf(file.ino, nb))
      ensures Grown(journal, file.inodeNum, old(ViewOf(file.ino, nb)), ViewOf(file.ino, nb))
      ensures Holds(old(ViewOf(file.ino, nb)), fileBlock * BLOCK_SIZE + offset, chunk, ViewOf(file.ino, nb))
    {
      hide Cache.Valid, Grown, Holds, ByteAt, TableBytes, Bitmap.Bits, Bitmap.CountClear, Recorded, JournalSlot;
      ghost var v := ViewOf(file.ino, nb);
      var block := cache.ReadBlock(diskBlock);
      block := Patch(block, offset, chunk);
      cache.WriteBlock(diskBlock, block);
      ghost var v1 := ViewOf(file.ino, nb);
      if fileBlock < nb {
        Overwrite(journal, file.inodeNum, v, v1, fileBlock, offset, chunk);
      } else {
        Untouched(journal, file.inodeNum, v, v1);
        assert Holds(v, fileBlock * BLOCK_SIZE + offset, [], v1);
        PastTheEnd(v, fileBlock * BLOCK_SIZE + offset, chunk, v1);
      }
      JournalWrite(diskBlock, block);
      Untouched(journal, file.inodeNum, v1, ViewOf(file.ino, nb));
      GrownTrans(journal, file.inodeNum, v, v1, ViewOf(file.ino, nb));
      HoldsTrans(v, fileBlock * BLOCK_SIZE + offset, chunk, v1, [], ViewOf(file.ino, nb));
      assert chunk + [] == chunk;
    }

    /** One turn of the loop in zebfs_write: `chunk` fits the block that holds the current position. */
    method WriteTurn(file: FileHandle, fileBlock: nat, offset: nat, chunk: seq<byte>, ghost nb: nat)
      returns (ghost nb': nat)
      requires Valid() && 0 < file.inodeNum < MAX_FILES && |file.ino.tail| == 44 && file.ino.blocks == nb
      requires Mapped(journal, ViewOf(file.ino, nb))
      requires file.position == fileBlock * BLOCK_SIZE + offset && |chunk| > 0 && offset + |chunk| <= BLOCK_SIZE
      requires file.position <= nb * BLOCK_SIZE || Stuck(nb, freeBlocks)
      modifies this`freeBlocks, this`used, cache, cache.slots, dataBitmap, file`ino, file`position
      ensures Valid() && Rewritten(old(file.ino), file.ino)
      ensures file.position == old(file.position) + |chunk|
      ensures file.ino.size == Max(old(file.ino.size), file.position) && file.ino.modified == old(file.ino.modified)
      ensures file.ino.blocks == nb'
      ensures Mapped(journal, ViewOf(file.ino, nb'))
      ensures Grown(journal, file.inodeNum, old(ViewOf(file.ino, nb)), ViewOf(file.ino, nb'))
      ensures Holds(old(ViewOf(file.ino, nb)), old(file.position), chunk, ViewOf(file.ino, nb'))
      ensures freeBlocks == old(freeBlocks) - (Total(nb') - Total(nb))
      ensures nb' == nb || (nb' == nb + 1 && nb * BLOCK_SIZE == old(file.position))
      ensures file.position <= nb' * BLOCK_SIZE || Stuck(nb', freeBlocks)
    {
      hide Valid, Cache.Valid, Map, Grown, ByteAt, Holds, Mapped, Shaped, SameBlocks, TableBytes, System;
      MappedShape(journal, ViewOf(file.ino, nb));
      ghost var v1, from := ViewOf(file.ino, nb), file.position;
      var diskBlock;
      diskBlock, nb' := BlockForWriting(file, fileBlock, nb);
      ghost var v2 := ViewOf(file.ino, nb');
      StoreChunk(file, diskBlock, fileBlock, offset, chunk, nb');
      ghost var v3 := ViewOf(file.ino, nb');
      file.position := file.position + |chunk|;
      if file.position > file.ino.size {
        file.ino := file.ino.(size := file.position);
      }
      ghost var v4 := ViewOf(file.ino, nb');
      MappedShape(journal, v2);
      MappedShape(journal, v3);
      TurnHolds(journal, file.inodeNum, v1, v2, v3, v4, from, chunk);
    }

    /** Stores the inode and commits. */
    method Finish(file: FileHandle)
      requires Valid() && 0 < file.inodeNum < MAX_FILES && |file.ino.tail| == 44 && |file.ino.direct| == DIRECT
      modifies cache, cache.slots, file`dirty
      ensures Valid() && Quiet(journal, used, old(cache.flat), cache.flat, file.inodeNum) && !file.dirty
      ensures TableBytes(cache.flat, file.inodeNum) == Encode(file.ino)
    {
      hide Recorded, JournalSlot;
      var _ := WriteInode(file.inodeNum, file.ino);
      file.dirty := false;
      JournalCommit();
    }

    method Write(file: FileHandle, data: seq<byte>, ghost nb: nat) returns (r: int, ghost nb': nat)
      requires Valid() && file.inodeNum < MAX_FILES && |file.ino.tail| == 44 && file.ino.blocks == nb
      requires Mapped(journal, ViewOf(file.ino, nb))
      requires file.position <= file.ino.size && (file.position <= nb * BLOCK_SIZE || Stuck(nb, freeBlocks))
      requires file.position + |data| < U64
      modifies this`freeBlocks, this`used, this`journalSequence, cache, cache.slots, dataBitmap, file
      ensures Valid() && file.inodeNum == old(file.inodeNum)
      ensures Rewritten(old(file.ino), file.ino)
      ensures file.inodeNum == 0 ==> r == -1
      ensures file.inodeNum != 0 ==>
        && r == AsInt32(|data|)
        && file.position == old(file.position) + |data|
        && file.ino.size == Max(old(file.ino.size), file.position)
        && file.ino.blocks == nb' && file.ino.modified <= MAX_TICKS
        && Grown(journal, file.inodeNum, old(ViewOf(file.ino, nb)), ViewOf(file.ino, nb'))
        && Shaped(ViewOf(file.ino, nb')) && Shaped(old(ViewOf(file.ino, nb)))
        && Holds(old(ViewOf(file.ino, nb)), old(file.position), data, ViewOf(file.ino, nb'))
        && freeBlocks == old(freeBlocks) - (Total(nb') - Total(nb))
        && (nb' == nb || (nb' - 1) * BLOCK_SIZE < file.position)
        && (file.position <= nb' * BLOCK_SIZE || Stuck(nb', freeBlocks))
        && TableBytes(cache.flat, file.inodeNum) == Encode(file.ino)
    {
      hide Valid, Cache.Valid, Mapped, Grown, Holds, SameBlocks, TableBytes, Encode, Quiet, AsInt32, Map, Recorded,
        JournalSlot;
      nb' := nb;
      if file.inodeNum == 0 {
        return -1, nb;
      }
      ghost var v0, from := ViewOf(file.ino, nb), file.position;
      JournalBegin();
      Untouched(journal, file.inodeNum, v0, ViewOf(file.ino, nb));
      MappedOf(journal, file.inodeNum, v0, ViewOf(file.ino, nb));
      var written, size := 0, |data|;
      while size > 0
        invariant Valid() && file.inodeNum == old(file.inodeNum) && Rewritten(v0.ino, file.ino)
        invariant file.ino.blocks == nb'
        invariant 0 <= written && 0 <= size && written + size == |data|
        invariant file.position == from + written && file.ino.size == Max(v0.ino.size, file.position)
        invariant Shaped(v0) && Shaped(ViewOf(file.ino, nb')) && Mapped(journal, ViewOf(file.ino, nb'))
        invariant Grown(journal, file.inodeNum, v0, ViewOf(file.ino, nb'))
        invariant Holds(v0, from, data[..written], ViewOf(file.ino, nb'))
        invariant nb <= nb' && freeBlocks == old(freeBlocks) - (Total(nb') - Total(nb))
        invariant nb' == nb || (nb' - 1) * BLOCK_SIZE < file.position
        invariant file.position <= nb' * BLOCK_SIZE || Stuck(nb', freeBlocks)
      {
        ghost var v1, nb1 := ViewOf(file.ino, nb'), nb';
        var fileBlock := file.position / BLOCK_SIZE;
        var offset := file.position % BLOCK_SIZE;
        var n := BLOCK_SIZE - offset;
        if n > size {
          n := size;
        }
        nb' := WriteTurn(file, fileBlock, offset, data[written..written + n], nb');
        MappedOf(journal, file.inodeNum, v1, ViewOf(file.ino, nb'));
        WriteGoesOn(journal, file.inodeNum, v0, v1, ViewOf(file.ino, nb'), from, data, written, n);
        written, size := written + n, size - n;
      }
      assert data[..written] == data;
      ghost var v := ViewOf(file.ino, nb');
      var now := Ticks();
      file.ino := file.ino.(modified := now);
      Finish(file);
      StillHolds(journal, file.inodeNum, v0, v, ViewOf(file.ino, nb'), from, data);
      r := AsInt32(written);
    }

    method ReadChunk(ino: Inode, fileBlock: nat, offset: nat, n: nat, ghost nb: nat)
      returns (ok: bool, bytes: seq<byte>)
      requires Valid() && Mapped(journal, ViewOf(ino, nb)) && offset + n <= BLOCK_SIZE
      modifies cache, cache.slots
      ensures Valid() && cache.flat == old(cache.flat)
      ensures ok <==> fileBlock < nb
      ensures ok ==> Map(ViewOf(ino, nb), fileBlock) < MAX_BLOCKS
      ensures ok ==> bytes == cache.flat[Map(ViewOf(ino, nb), fileBlock)][offset..offset + n]
    {
      hide Cache.Valid, Bitmap.Bits, Bitmap.CountClear;
      var found, diskBlock := InodeReadBlock(ino, fileBlock, nb);
      if !found || diskBlock == 0 {
        return false, [];
      }
      var block := cache.ReadBlock(diskBlock);
      return true, block[offset..offset + n];
    }

    /** How much of which block the next turn of the read loop takes. */
    method ChunkToRead(position: nat, left: nat, limit: nat) returns (fileBlock: nat, offset: nat, n: nat)
      requires left > 0 && position < limit
      ensures position == fileBlock * BLOCK_SIZE + offset && offset < BLOCK_SIZE
      ensures 0 < n == Min(left, Min(BLOCK_SIZE - offset, limit - position))
    {
      fileBlock, offset := position / BLOCK_SIZE, position % BLOCK_SIZE;
      n := BLOCK_SIZE - offset;
      if n > left {
        n := left;
      }
      if position + n > limit {
        n := limit - position;
      }
    }

    /** Reads until `size` bytes, the end of the file or a block the file does not have. */
    method ReadBlocks(file: FileHandle, size: nat, ghost nb: nat) returns (out: seq<byte>)
      requires Valid() && Mapped(journal, ViewOf(file.ino, nb))
      modifies cache, cache.slots, file`position
      ensures Valid() && cache.flat == old(cache.flat) && file.position == old(file.position) + |out|
      ensures |out| == Max(0, Min(size, Min(file.ino.size, nb * BLOCK_SIZE) - old(file.position)))
      ensures Shaped(ViewOf(file.ino, nb)) && Reads(ViewOf(file.ino, nb), old(file.position), out)
    {
      MappedShape(journal, ViewOf(file.ino, nb));
      hide Valid, Sound, Cache.Valid, Reads, Mapped, Map, ByteAt;
      ghost var v, from := ViewOf(file.ino, nb), file.position;
      out := [];
      var left := size;
      while left > 0 && file.position < file.ino.size
        invariant Valid() && ViewOf(file.ino, nb) == v && Shaped(v)
        invariant 0 <= left <= size && |out| == size - left && file.position == from + |out|
        invariant |out| == 0 || file.position <= Min(v.ino.size, nb * BLOCK_SIZE)
        invariant Reads(v, from, out)
      {
        var fileBlock, offset, n := ChunkToRead(file.position, left, file.ino.size);
        var ok, bytes := ReadChunk(file.ino, fileBlock, offset, n, nb);
        if !ok {
          break;
        }
        ReadsMore(journal, v, from, out, fileBlock, offset, n);
        out := out + bytes;
        file.position := file.position + n;
        left := left - n;
      }
    }

    method Read(file: FileHandle, size: nat, ghost nb: nat) returns (r: int, out: seq<byte>)
      requires Valid() && file.inodeNum < MAX_FILES && |file.ino.tail| == 44
      requires Mapped(journal, ViewOf(file.ino, nb))
      modifies cache, cache.slots, file`position, file`ino
      ensures Valid() && |file.ino.tail| == 44
      ensures file.inodeNum == 0 ==> r == -1 && out == []
      ensures file.inodeNum != 0 ==>
        var end := Min(old(file.ino.size), nb * BLOCK_SIZE);
        && r == AsInt32(|out|)
        && |out| == Max(0, Min(size, end - old(file.position)))
        && Shaped(old(ViewOf(file.ino, nb))) && Reads(old(ViewOf(file.ino, nb)), old(file.position), out)
        && file.position == old(file.position) + |out|
        && Quiet(journal, used, old(cache.flat), cache.flat, file.inodeNum)
        && file.ino == old(file.ino).(accessed := file.ino.accessed)
        && TableBytes(cache.flat, file.inodeNum) == Encode(file.ino)
    {
      if file.inodeNum == 0 {
        return -1, [];
      }
      hide Valid, Sound, Cache.Valid, TableBytes, Encode, Reads, Mapped, Quiet, AsInt32, Min, Max;
      out := ReadBlocks(file, size, nb);
      Touch(file);
      r := AsInt32(|out|);
    }

    method Touch(file: FileHandle)
      requires Valid() && 0 < file.inodeNum < MAX_FILES && |file.ino.tail| == 44 && |file.ino.direct| == DIRECT
      modifies cache, cache.slots, file`ino
      ensures Valid() && Quiet(journal, used, old(cache.flat), cache.flat, file.inodeNum)
      ensures file.ino == old(file.ino).(accessed := file.ino.accessed)
      ensures TableBytes(cache.flat, file.inodeNum) == Encode(file.ino)
    {
      var now := Ticks();
      file.ino := file.ino.(accessed := now);
      var _ := WriteInode(file.inodeNum, file.ino);
    }

    /**
     * whence 0 from the start, 1 from the current position, 2 from the end; 64-bit unsigned, then clamped to the size.
     */
    method Seek(file: FileHandle, offset: int, whence: int) returns (ok: bool)
      requires -0x8000_0000_0000_0000 <= offset < 0x8000_0000_0000_0000
      modifies file`position
      ensures ok <==> whence == 0 || whence == 1 || whence == 2
      ensures !ok ==> file.position == old(file.position)
      ensures ok ==>
        var start := if whence == 0 then 0 else if whence == 1 then old(file.position) else file.ino.size;
        file.position == Min((start + offset) % U64, file.ino.size)
    {
      match whence {
        case 0 => file.position := offset % U64;
        case 1 => file.position := (file.position + offset) % U64;
        case 2 => file.position := (file.ino.size + offset) % U64;
        case _ => return false;
      }
      if file.position > file.ino.size {
        file.position := file.ino.size;
      }
      return true;
    }

    /**
     * Writing, seeking back and reading again yields the data exactly when the file's map and the free blocks
     * are large enough; otherwise only a shorter prefix comes back, although both calls report success.
     */
    method WriteSeekRead(file: FileHandle, data: seq<byte>, ghost nb: nat) returns (out: seq<byte>)
      requires Valid() && 0 < file.inodeNum < MAX_FILES && |file.ino.tail| == 44 && file.ino.blocks == nb
      requires Mapped(journal, ViewOf(file.ino, nb))
      requires file.position <= file.ino.size && (file.position <= nb * BLOCK_SIZE || Stuck(nb, freeBlocks))
      requires file.position + |data| < U64
      modifies this`freeBlocks, this`used, this`journalSequence, cache, cache.slots, dataBitmap, file
      ensures out <= data
      ensures out == data <==> data == [] || Room(old(file.position) + |data|, nb, old(freeBlocks))
    {
      hide Valid, Cache.Valid, Grown, TableBytes, Encode, Holds, Reads, Mapped, Quiet, Stuck, Total, Room, Shaped,
        AsInt32, AsInt64, Min;
      ghost var v := ViewOf(file.ino, nb);
      var from := file.position;
      ghost var free := freeBlocks;
      var _, nb' := Write(file, data, nb);
      ghost var w := ViewOf(file.ino, nb');
      MappedOf(journal, file.inodeNum, v, w);
      MappedShape(journal, v);
      SeekBack(from, file.ino.size);
      var _ := Seek(file, AsInt64(from), 0);
      var _, out' := Read(file, |data|, nb');
      BytesLeft(|data|, file.ino.size, nb' * BLOCK_SIZE, from);
      ReadBack(v, from, data, w, out');
      RoomIff(from + |data|, nb, nb', free);
      out := out';
    }

    ghost function InodeBits(): (bits: seq<bool>)
      reads inodeBitmap
      ensures |bits| == 8 * inodeBitmap.Length
    {
      Bitmap.Bits(inodeBitmap[..])
    }

    /** The cache's slots are not the inode bitmap. */
    lemma SlotsApart()
      requires Valid()
      ensures (inodeBitmap as object) != (cache.slots as object)
    {
    }

    /** Takes the lowest free inode number; 0 if there is none, but also if 0 itself was free, which is then taken. */
    method AllocInode() returns (inum: nat)
      requires Valid()
      modifies this`freeInodes, cache, cache.slots, inodeBitmap
      ensures Valid() && inum < MAX_FILES && SameBut(old(cache.flat), cache.flat, {1})
      ensures inum == 0 <==> !old(InodeBits())[0] || forall n :: 0 <= n < MAX_FILES ==> old(InodeBits())[n]
      ensures forall n :: 0 <= n < inum ==> old(InodeBits())[n]
      ensures inum != 0 ==> !old(InodeBits())[inum]
      ensures if old(InodeBits())[inum] then InodeBits() == old(InodeBits()) && freeInodes == old(freeInodes)
              else InodeBits() == old(InodeBits())[inum := true] && freeInodes == (old(freeInodes) - 1) % U64
    {
      hide Bitmap.Bits, Bitmap.CountClear;
      var found := Bitmap.FindFree(inodeBitmap, MAX_FILES);
      if found < 0 {
        return 0;
      }
      forall n | 0 <= n < found
        ensures old(InodeBits())[n]
      {
        assert InodeBits()[n];
      }
      freeInodes := (freeInodes - 1) % U64;
      StoreSuperblock();
      return found;
    }

    method FreeInode(inum: nat) returns (ok: bool)
      requires Valid()
      modifies this`freeInodes, cache, cache.slots, inodeBitmap
      ensures Valid() && SameBut(old(cache.flat), cache.flat, {1})
      ensures ok <==> 0 < inum < MAX_FILES
      ensures ok ==> freeInodes == (old(freeInodes) + 1) % U64 && InodeBits() == old(InodeBits())[inum := false]
      ensures !ok ==> freeInodes == old(freeInodes) && inodeBitmap[..] == old(inodeBitmap[..])
    {
      if inum == 0 || inum >= MAX_FILES {
        return false;
      }
      Bitmap.Clear(inodeBitmap, inum);
      freeInodes := (freeInodes + 1) % U64;
      StoreSuperblock();
      return true;
    }

    /** zebfs_unlink once the path has been looked up: exactly the blocks of the file become free. */
    method Unlink(inum: nat, ghost nb: nat) returns (ok: bool)
      requires Valid() && inum < MAX_FILES
      requires Mapped(journal, ViewOf(TableInode(cache.flat, inum), nb))
      modifies this`freeBlocks, this`freeInodes, this`used, cache, cache.slots, dataBitmap, inodeBitmap
      ensures Valid()
      ensures ok <==> inum != 0
      ensures ok ==> forall b :: 0 <= b < MAX_BLOCKS ==>
        (used[b] <==> old(used)[b] && !Owns(old(ViewOf(TableInode(cache.flat, inum), nb)), b))
      ensures ok ==> SameBut(old(cache.flat), cache.flat, {1})
      ensures ok ==> freeInodes == (old(freeInodes) + 1) % U64 && InodeBits() == old(InodeBits())[inum := false]
      ensures !ok ==>
        && used == old(used) && freeBlocks == old(freeBlocks) && cache.flat == old(cache.flat)
        && freeInodes == old(freeInodes) && InodeBits() == old(InodeBits())
    {
      hide Cache.Valid, Decode, TableBytes, Bitmap.Bits, Bitmap.CountClear, Pointer;
      SlotsApart();
      var found, ino := ReadInode(inum);
      if !found {
        return false;
      }
      ghost var v := ViewOf(ino, nb);
      FreeDirect(ino, nb);
      FreeIndirect(ino, nb, v);
      var _ := FreeInode(inum);
      return true;
    }

    /** Frees the blocks that the inode itself points to. */
    method FreeDirect(ino: Inode, ghost nb: nat)
      requires Valid() && Mapped(journal, ViewOf(ino, nb))
      modifies this`freeBlocks, this`used, cache, cache.slots, dataBitmap
      ensures Valid() && SameBut(old(cache.flat), cache.flat, {1})
      ensures Released(old(ViewOf(ino, nb)), used, Min(DIRECT, nb))
    {
      hide Cache.Valid, Bitmap.Bits, Bitmap.CountClear, Pointer;
      ghost var v := ViewOf(ino, nb);
      var i := 0;
      while i < DIRECT && ino.direct[i] != 0
        invariant Valid() && i <= DIRECT && i <= nb && SameBut(v.flat, cache.flat, {1})
        invariant Released(v, used, i)
      {
        ReleaseNext(journal, v, used, i);
        var _ := FreeBlock(ino.direct[i]);
        i := i + 1;
      }
      assert System(journal, 0);
      assert i < DIRECT ==> Map(v, i) == 0;
    }

    /** Frees the blocks that the pointer block points to, and that block. */
    method FreeIndirect(ino: Inode, ghost nb: nat, ghost v: View)
      requires Valid() && Mapped(journal, v) && v.ino == ino && v.nb == nb && SameBut(v.flat, cache.flat, {1})
      requires Released(v, used, Min(DIRECT, nb))
      modifies this`freeBlocks, this`used, cache, cache.slots, dataBitmap
      ensures Valid() && SameBut(v.flat, cache.flat, {1})
      ensures forall b :: 0 <= b < MAX_BLOCKS ==> (used[b] <==> v.used[b] && !Owns(v, b))
    {
      hide Cache.Valid, Bitmap.Bits, Bitmap.CountClear, Pointer;
      assert System(journal, 0);
      if ino.indirect != 0 {
        var buffer := cache.ReadBlock(ino.indirect);
        for j := 0 to POINTERS
          invariant Valid() && SameBut(v.flat, cache.flat, {1})
          invariant Released(v, used, Min(DIRECT + j, nb))
        {
          var block := Pointer(buffer, j);
          assert block == Map(v, DIRECT + j);
          if block != 0 {
            ReleaseNext(journal, v, used, DIRECT + j);
            var _ := FreeBlock(block);
          }
        }
        AllReleased(journal, v, used);
        var _ := FreeBlock(ino.indirect);
      } else {
        AllReleased(journal, v, used);
      }
    }

    /** A new regular file, as zebfs_create initialises it. */
    function EmptyFile(inum: nat, mode: nat, now: nat): Inode {
      Inode(inum, 1, 0, mode, 0, 0, 0, 0, now, now, now, 1, 0, seq(DIRECT, _ => 0), 0, 0, 0, 0, 0, 0, 0,
        seq(44, _ => 0))
    }

    /**
     * Creating a file, writing anything to it and unlinking it leaves both bitmaps and both counts exactly as they
     * were, even if the disk filled up on the way.
     */
    method CreateWriteUnlink(mode: nat, data: seq<byte>) returns (inum: nat)
      requires Valid() && mode < U32 && |data| < U64
      modifies this`freeBlocks, this`freeInodes, this`used, this`journalSequence, cache, cache.slots, dataBitmap,
        inodeBitmap
      ensures Valid() && used == old(used) && freeBlocks == old(freeBlocks)
      ensures inum == 0 <==> !old(InodeBits())[0] || forall n :: 0 <= n < MAX_FILES ==> old(InodeBits())[n]
      ensures old(InodeBits())[0] ==> InodeBits() == old(InodeBits()) && freeInodes == old(freeInodes)
    {
      hide Cache.Valid, Grown, TableBytes, Encode, Decode, Holds, Quiet, Bitmap.Bits, Bitmap.CountClear;
      SlotsApart();
      inum := AllocInode();
      if inum == 0 {
        return;
      }
      ghost var taken := InodeBits();
      var now := Ticks();
      var ino := EmptyFile(inum, mode, now);
      var _ := WriteInode(inum, ino);
      var file := new FileHandle(inum, ino);
      ghost var v := ViewOf(ino, 0);
      var _, nb := Write(file, data, 0);
      assert InodeBits() == taken;
      GrownFromNothing(journal, inum, v, ViewOf(file.ino, nb));
      DecodeEncode(file.ino);
      var _ := Unlink(inum, nb);
      assert used == old(used);
    }
  }
}
