/** ZEBXFS directories: variable-length records in the blocks of a file. */
module Directory {
  import opened Bytes
  import opened BlockCache
  import opened Inode
  import opened FileView
  import opened FileSystem

  const DIRECTORY: nat := 2
  const RECORD: nat := 32

  datatype Entry = Entry(name: seq<byte>, inum: nat)
  datatype Found = Absent | Found(inum: nat)

  // ----- records -----

  /** entry->inode, entry->rec_len and entry->name_len of the record at `o`, and its end. */
  function RecInode(b: Block, o: nat): nat
    requires o + 4 <= BLOCK_SIZE
  {
    Load(b[o..o + 4])
  }

  function RecLen(b: Block, o: nat): nat
    requires o + 8 <= BLOCK_SIZE
  {
    Load(b[o + 4..o + 6])
  }

  function NameLen(b: Block, o: nat): nat
    requires o + 8 <= BLOCK_SIZE
  {
    b[o + 6] as nat
  }

  /** From `o` on the block is a chain of whole, aligned records that ends in zeros or at the end of the block. */
  ghost predicate Chain(b: Block, o: nat)
    decreases BLOCK_SIZE - o
  {
    o >= BLOCK_SIZE ||
    (&& o % 4 == 0
     && if RecInode(b, o) == 0 then forall i :: o <= i < BLOCK_SIZE ==> b[i] == 0
        else
          && o + 8 <= BLOCK_SIZE && o + 8 + NameLen(b, o) <= BLOCK_SIZE
          && 8 + NameLen(b, o) <= RecLen(b, o)
          && Chain(b, o + RecLen(b, o)))
  }

  /** The entries from `o` on. */
  ghost function Entries(b: Block, o: nat): seq<Entry>
    requires Chain(b, o)
    decreases BLOCK_SIZE - o
  {
    if o >= BLOCK_SIZE || RecInode(b, o) == 0 then []
    else [Entry(b[o + 8..o + 8 + NameLen(b, o)], RecInode(b, o))] + Entries(b, o + RecLen(b, o))
  }

  /** The first free slot from `o` on; BLOCK_SIZE or more if there is none. */
  ghost function FreeSlot(b: Block, o: nat): (slot: nat)
    requires Chain(b, o)
    ensures slot >= o
    decreases BLOCK_SIZE - o
  {
    if o >= BLOCK_SIZE || RecInode(b, o) == 0 then o else FreeSlot(b, o + RecLen(b, o))
  }

  function RecordLength(nameLength: nat): nat { (RECORD + nameLength + 3) / 4 * 4 }

  /** The record as dir_add_entry stores it, header first. */
  function Record(name: seq<byte>, inum: nat, kind: byte): (r: seq<byte>)
    requires |name| < 256
    ensures |r| == 8 + |name|
  {
    Store(inum, 4) + Store(RecordLength(|name|), 2) + [|name| as byte, kind] + name
  }

  lemma RecordFields(b: Block, o: nat, name: seq<byte>, inum: nat, kind: byte)
    requires |name| < 256 && 0 < inum < U32 && o + 8 + |name| <= BLOCK_SIZE
    ensures var c := Patch(b, o, Record(name, inum, kind));
      RecInode(c, o) == inum && RecLen(c, o) == RecordLength(|name|) && NameLen(c, o) == |name| &&
        c[o + 8..o + 8 + |name|] == name
  {
    var r := Record(name, inum, kind);
    var c := Patch(b, o, r);
    assert c[o..o + 4] == r[0..4] == Store(inum, 4);
    assert c[o + 4..o + 6] == r[4..6] == Store(RecordLength(|name|), 2);
    assert c[o + 8..o + 8 + |name|] == r[8..8 + |name|] == name;
    Widths();
    assert Pow256(2) == 65536;
    LoadStore(inum, 4);
    LoadStore(RecordLength(|name|), 2);
  }

  lemma SameRecord(b: Block, c: Block, o: nat)
    requires o + 8 <= BLOCK_SIZE && o + 8 + NameLen(b, o) <= BLOCK_SIZE
    requires forall i :: o <= i < o + 8 + NameLen(b, o) ==> c[i] == b[i]
    ensures RecInode(c, o) == RecInode(b, o) && RecLen(c, o) == RecLen(b, o) && NameLen(c, o) == NameLen(b, o)
    ensures c[o + 8..o + 8 + NameLen(b, o)] == b[o + 8..o + 8 + NameLen(b, o)]
  {
    assert c[o..o + 4] == b[o..o + 4] && c[o + 4..o + 6] == b[o + 4..o + 6];
  }

  lemma ZerosEndChain(c: Block, o: nat)
    requires o % 4 == 0 && forall i :: o <= i < BLOCK_SIZE ==> c[i] == 0
    ensures Chain(c, o) && Entries(c, o) == []
  {
    if o < BLOCK_SIZE {
      LoadZeros(c[o..o + 4]);
    }
  }

  lemma FillHere(b: Block, o: nat, name: seq<byte>, inum: nat, kind: byte)
    requires |name| < 256 && 0 < inum < U32 && o + 8 + |name| <= BLOCK_SIZE && o % 4 == 0
    requires forall i :: o <= i < BLOCK_SIZE ==> b[i] == 0
    ensures var c := Patch(b, o, Record(name, inum, kind));
      Chain(c, o) && Entries(c, o) == [Entry(name, inum)]
  {
    hide Record, Load;
    var c := Patch(b, o, Record(name, inum, kind));
    RecordFields(b, o, name, inum, kind);
    ZerosEndChain(c, o + RecordLength(|name|));
  }

  /** A record in front of a chain. */
  lemma ChainCons(b: Block, o: nat)
    requires o % 4 == 0 && o + 8 <= BLOCK_SIZE && o + 8 + NameLen(b, o) <= BLOCK_SIZE
    requires RecInode(b, o) != 0 && 8 + NameLen(b, o) <= RecLen(b, o) && Chain(b, o + RecLen(b, o))
    ensures Chain(b, o)
    ensures Entries(b, o) == [Entry(b[o + 8..o + 8 + NameLen(b, o)], RecInode(b, o))] + Entries(b, o + RecLen(b, o))
  {
    hide Load;
  }

  lemma ChainUncons(b: Block, o: nat)
    requires o < BLOCK_SIZE && Chain(b, o) && o + 4 <= BLOCK_SIZE && RecInode(b, o) != 0
    ensures o % 4 == 0 && o + 8 <= BLOCK_SIZE && o + 8 + NameLen(b, o) <= BLOCK_SIZE
    ensures 8 + NameLen(b, o) <= RecLen(b, o) && Chain(b, o + RecLen(b, o))
    ensures Entries(b, o) == [Entry(b[o + 8..o + 8 + NameLen(b, o)], RecInode(b, o))] + Entries(b, o + RecLen(b, o))
    ensures FreeSlot(b, o) == FreeSlot(b, o + RecLen(b, o))
  {
    hide Load;
  }

  lemma FreeSlotHere(b: Block, o: nat)
    requires o + 4 <= BLOCK_SIZE && Chain(b, o) && RecInode(b, o) == 0
    ensures FreeSlot(b, o) == o && o % 4 == 0 && Entries(b, o) == [] && forall i :: o <= i < BLOCK_SIZE ==> b[i] == 0
  {
    hide Load;
  }

  lemma ChainStart(b: Block, o: nat)
    requires Chain(b, o) && o < BLOCK_SIZE
    ensures o % 4 == 0 && o + 4 <= BLOCK_SIZE
  {
    hide Load;
  }

  /** Filling the free slot appends one entry to the block and leaves a chain. */
  lemma {:induction false} FillSlot(b: Block, o: nat, name: seq<byte>, inum: nat, kind: byte)
    requires |name| < 256 && 0 < inum < U32
    requires Chain(b, o) && FreeSlot(b, o) + 8 + |name| <= BLOCK_SIZE
    ensures var c := Patch(b, FreeSlot(b, o), Record(name, inum, kind));
      Chain(c, o) && Entries(c, o) == Entries(b, o) + [Entry(name, inum)]
    decreases BLOCK_SIZE - o
  {
    hide Record, RecInode, RecLen, NameLen, RecordLength, Chain, Entries, FreeSlot;
    ChainStart(b, o);
    if RecInode(b, o) == 0 {
      FreeSlotHere(b, o);
      FillHere(b, o, name, inum, kind);
    } else {
      ChainUncons(b, o);
      FillSlot(b, o + RecLen(b, o), name, inum, kind);
      var c := Patch(b, FreeSlot(b, o), Record(name, inum, kind));
      SameRecord(b, c, o);
      ChainCons(c, o);
    }
  }

  // ----- lookups -----

  function Find(entries: seq<Entry>, name: seq<byte>): Found {
    if entries == [] then Absent
    else if entries[0].name == name then Found(entries[0].inum)
    else Find(entries[1..], name)
  }

  lemma {:induction false} FindAppend(a: seq<Entry>, b: seq<Entry>, name: seq<byte>)
    ensures Find(a + b, name) == if Find(a, name).Found? then Find(a, name) else Find(b, name)
  {
    if a == [] {
      assert a + b == b;
    } else {
      FindAppend(a[1..], b, name);
      assert (a + b)[1..] == a[1..] + b;
    }
  }

  lemma FindOne(entry: Entry, name: seq<byte>)
    ensures Find([entry], name) == if entry.name == name then Found(entry.inum) else Absent
  {
  }

  /** A directory: a file of whole blocks, each of them a chain of records. */
  ghost predicate IsDirectory(journal: Region, v: View) {
    && Mapped(journal, v)
    && v.ino.kind == DIRECTORY
    && v.ino.size % BLOCK_SIZE == 0 && v.ino.size >= v.nb * BLOCK_SIZE
    && forall k :: 0 <= k < v.nb ==> Map(v, k) < MAX_BLOCKS && Chain(v.flat[Map(v, k)], 0)
  }

  /** The entries of the first `n` blocks. */
  ghost function Listing(journal: Region, v: View, n: nat): seq<Entry>
    requires IsDirectory(journal, v) && n <= v.nb
  {
    if n == 0 then [] else Listing(journal, v, n - 1) + Entries(v.flat[Map(v, n - 1)], 0)
  }

  /**
   * An entry added at the end of block `k` is found unless its name is listed up to there, and hides entries of its
   * name only.
   */
  lemma {:induction false} ListingWith(journal: Region, v: View, w: View, k: nat, entry: Entry, n: nat, name: seq<byte>)
    requires IsDirectory(journal, v) && IsDirectory(journal, w) && k < n <= v.nb == w.nb
    requires forall j :: 0 <= j < v.nb && j != k ==> w.flat[Map(w, j)] == v.flat[Map(v, j)]
    requires Entries(w.flat[Map(w, k)], 0) == Entries(v.flat[Map(v, k)], 0) + [entry]
    ensures Find(Listing(journal, w, n), name) ==
      if name == entry.name && Find(Listing(journal, v, k + 1), name) == Absent then Found(entry.inum)
        else Find(Listing(journal, v, n), name)
  {
    hide Chain, Entries, Map, Find;
    FindOne(entry, name);
    var old_, new_ := Entries(v.flat[Map(v, n - 1)], 0), Entries(w.flat[Map(w, n - 1)], 0);
    FindAppend(Listing(journal, v, n - 1), old_, name);
    FindAppend(Listing(journal, w, n - 1), new_, name);
    if n - 1 == k {
      ListingSame(journal, v, w, k);
      FindAppend(old_, [entry], name);
    } else {
      ListingWith(journal, v, w, k, entry, n - 1, name);
    }
  }

  lemma {:induction false} ListingSame(journal: Region, v: View, w: View, n: nat)
    requires IsDirectory(journal, v) && IsDirectory(journal, w) && n <= v.nb && n <= w.nb
    requires forall j :: 0 <= j < n ==> w.flat[Map(w, j)] == v.flat[Map(v, j)]
    ensures Listing(journal, w, n) == Listing(journal, v, n)
  {
    hide Chain, Entries, Map;
    if n > 0 {
      ListingSame(journal, v, w, n - 1);
    }
  }

  // ----- dir_lookup and dir_add_entry -----

  /** The record at `o` comes first, then the chain behind it. */
  lemma ChainHead(b: Block, o: nat, name: seq<byte>)
    requires o < BLOCK_SIZE && Chain(b, o)
    ensures o + 4 <= BLOCK_SIZE
    ensures RecInode(b, o) == 0 ==> Find(Entries(b, o), name) == Absent
    ensures RecInode(b, o) != 0 ==>
      && o + 8 + NameLen(b, o) <= BLOCK_SIZE && RecLen(b, o) > 0 && Chain(b, o + RecLen(b, o))
      && Find(Entries(b, o), name) ==
           if b[o + 8..o + 8 + NameLen(b, o)] == name then Found(RecInode(b, o))
             else Find(Entries(b, o + RecLen(b, o)), name)
  {
    hide Load;
    if RecInode(b, o) != 0 {
      assert Entries(b, o)[1..] == Entries(b, o + RecLen(b, o));
    }
  }

  lemma ChainEnd(b: Block, o: nat, name: seq<byte>)
    requires o >= BLOCK_SIZE
    ensures Chain(b, o) && Find(Entries(b, o), name) == Absent
  {
  }

  /** The walk through one block of a directory. */
  method LookupInBlock(b: Block, name: seq<byte>) returns (r: Found)
    requires Chain(b, 0) && |name| < 256
    ensures r == Find(Entries(b, 0), name)
  {
    hide Chain, Entries, Find, RecInode, RecLen, NameLen;
    var o := 0;
    while o < BLOCK_SIZE
      invariant Chain(b, o) && Find(Entries(b, 0), name) == Find(Entries(b, o), name)
      decreases BLOCK_SIZE - o
    {
      ChainHead(b, o, name);
      var inum := RecInode(b, o);
      if inum == 0 {
        return Absent;
      }
      if NameLen(b, o) == |name| && b[o + 8..o + 8 + NameLen(b, o)] == name {
        return Found(inum);
      }
      o := o + RecLen(b, o);
    }
    ChainEnd(b, o, name);
    return Absent;
  }

  method Lookup(fs: Volume, dir: Inode, name: seq<byte>, ghost nb: nat) returns (r: Found)
    requires fs.Valid() && |name| < 256
    requires dir.kind == DIRECTORY ==> IsDirectory(fs.journal, fs.ViewOf(dir, nb))
    modifies fs.cache, fs.cache.slots
    ensures fs.Valid() && fs.cache.flat == old(fs.cache.flat)
    ensures r == if dir.kind == DIRECTORY then Find(Listing(fs.journal, fs.ViewOf(dir, nb), nb), name) else Absent
  {
    hide Volume.Valid, Volume.Sound, Cache.Valid, Chain, Entries;
    ghost var v := fs.ViewOf(dir, nb);
    if dir.kind != DIRECTORY {
      return Absent;
    }
    var offset := 0;
    ghost var k := 0;
    while offset < dir.size
      invariant fs.Valid() && fs.ViewOf(dir, nb) == v
      invariant offset == k * BLOCK_SIZE && k <= nb && Find(Listing(fs.journal, v, k), name) == Absent
    {
      var ok, block := fs.ReadChunk(dir, offset / BLOCK_SIZE, 0, BLOCK_SIZE, nb);
      if !ok {
        return Absent;
      }
      assert block == v.flat[Map(v, k)];
      var found := LookupInBlock(block, name);
      FindAppend(Listing(fs.journal, v, k), Entries(block, 0), name);
      if found.Found? {
        ListingPrefix(fs.journal, v, k + 1, nb, name);
        return found;
      }
      offset := offset + (BLOCK_SIZE - offset % BLOCK_SIZE);
      k := k + 1;
    }
    return Absent;
  }

  lemma {:induction false} ListingPrefix(journal: Region, v: View, k: nat, n: nat, name: seq<byte>)
    requires IsDirectory(journal, v) && k <= n <= v.nb && Find(Listing(journal, v, k), name).Found?
    ensures Find(Listing(journal, v, n), name) == Find(Listing(journal, v, k), name)
  {
    hide Chain, Entries, Map;
    if k < n {
      ListingPrefix(journal, v, k, n - 1, name);
      FindAppend(Listing(journal, v, n - 1), Entries(v.flat[Map(v, n - 1)], 0), name);
    }
  }

  method SlotInBlock(b: Block) returns (o: nat)
    requires Chain(b, 0)
    ensures o == FreeSlot(b, 0)
  {
    o := 0;
    while o < BLOCK_SIZE
      invariant Chain(b, o) && FreeSlot(b, 0) == FreeSlot(b, o)
      decreases BLOCK_SIZE - o
    {
      if RecInode(b, o) == 0 {
        return;
      }
      o := o + RecLen(b, o);
    }
  }

  /** No block before `k` has a free slot. */
  ghost predicate FullBefore(journal: Region, v: View, k: nat)
    requires IsDirectory(journal, v) && k <= v.nb
  {
    forall j :: 0 <= j < k ==> FreeSlot(v.flat[Map(v, j)], 0) >= BLOCK_SIZE
  }

  /** If a block has a free slot, the record fits behind the first one there is. */
  ghost predicate SlotFits(journal: Region, v: View, nameLength: nat)
    requires IsDirectory(journal, v)
  {
    forall k :: 0 <= k < v.nb && FullBefore(journal, v, k) && FreeSlot(v.flat[Map(v, k)], 0) < BLOCK_SIZE ==>
      FreeSlot(v.flat[Map(v, k)], 0) + 8 + nameLength <= BLOCK_SIZE
  }

  /**
   * `w` lists what `v` lists and, unless the name is in one of the first `upto` blocks already, `inum` under the name.
   */
  ghost predicate Added(journal: Region, v: View, w: View, upto: nat, name: seq<byte>, inum: nat)
    requires IsDirectory(journal, v) && IsDirectory(journal, w) && upto <= v.nb
  {
    forall n :: Find(Listing(journal, w, w.nb), n) ==
      if n == name && Find(Listing(journal, v, upto), name) == Absent then Found(inum)
        else Find(Listing(journal, v, v.nb), n)
  }

  /** `upto` counts the blocks up to the first that has a free slot; or all, if none has. */
  ghost predicate UpToFree(journal: Region, v: View, upto: nat)
    requires IsDirectory(journal, v)
  {
    if FullBefore(journal, v, v.nb) then upto == v.nb
    else 0 < upto <= v.nb && FullBefore(journal, v, upto - 1) && FreeSlot(v.flat[Map(v, upto - 1)], 0) < BLOCK_SIZE
  }

  /** The record stored in block `k`, which has a free slot. */
  lemma AddedInBlock(journal: Region, v: View, w: View, k: nat, name: seq<byte>, inum: nat, kind: byte)
    requires IsDirectory(journal, v) && Mapped(journal, w) && k < v.nb == w.nb && w.ino == v.ino
    requires |name| < 256 && 0 < inum < U32
    requires FreeSlot(v.flat[Map(v, k)], 0) + 8 + |name| <= BLOCK_SIZE
    requires w.flat == v.flat[Map(v, k) :=
      Patch(v.flat[Map(v, k)], FreeSlot(v.flat[Map(v, k)], 0), Record(name, inum, kind))]
    requires forall j :: 0 <= j < v.nb ==> Map(w, j) == Map(v, j)
    ensures IsDirectory(journal, w) && Added(journal, v, w, k + 1, name, inum)
  {
    FillSlot(v.flat[Map(v, k)], 0, name, inum, kind);
    hide Chain, Entries, FreeSlot, Record, Listing;
    assert forall j :: 0 <= j < v.nb && j != k ==> Map(v, j) != Map(v, k);
    forall n
      ensures Find(Listing(journal, w, w.nb), n) ==
        if n == name && Find(Listing(journal, v, k + 1), name) == Absent then Found(inum)
          else Find(Listing(journal, v, v.nb), n)
    {
      ListingWith(journal, v, w, k, Entry(name, inum), v.nb, n);
    }
  }

  lemma EmptyBlock()
    ensures Chain(ZeroBlock(), 0) && Entries(ZeroBlock(), 0) == [] && FreeSlot(ZeroBlock(), 0) == 0
  {
    ZerosEndChain(ZeroBlock(), 0);
    LoadZeros(ZeroBlock()[0..4]);
  }

  lemma ListingStep(journal: Region, v: View, n: nat)
    requires IsDirectory(journal, v) && 0 < n <= v.nb
    ensures Listing(journal, v, n) == Listing(journal, v, n - 1) + Entries(v.flat[Map(v, n - 1)], 0)
  {
  }

  /** A new last block without entries. */
  lemma EmptyBlockAdded(journal: Region, v: View, w: View)
    requires IsDirectory(journal, v) && Mapped(journal, w) && SameBlocks(v, w) && w.nb == v.nb + 1
    requires w.ino.kind == v.ino.kind && w.ino.size == w.nb * BLOCK_SIZE
    requires w.flat[Map(w, v.nb)] == ZeroBlock()
    ensures IsDirectory(journal, w) && Listing(journal, w, w.nb) == Listing(journal, v, v.nb)
    ensures FreeSlot(w.flat[Map(w, v.nb)], 0) == 0
  {
    EmptyBlock();
    hide Chain, Entries, FreeSlot, Map, Listing;
    assert DataBlock(journal, w, Map(w, v.nb));
    ListingSame(journal, v, w, v.nb);
    ListingStep(journal, w, w.nb);
  }

  /** The directory's size covers a block that it does not have. */
  predicate Overlong(v: View) {
    v.ino.size != v.nb * BLOCK_SIZE
  }

  datatype Place = Free(diskBlock: nat, buffer: Block, slot: nat) | Full | Missing

  /** Looks for the first free slot in the directory's blocks; a block that is missing ends the search. */
  method FindSlot(fs: Volume, dir: Inode, ghost nb: nat) returns (place: Place, ghost k: nat)
    requires fs.Valid() && IsDirectory(fs.journal, fs.ViewOf(dir, nb))
    modifies fs.cache, fs.cache.slots
    ensures fs.Valid() && fs.cache.flat == old(fs.cache.flat)
    ensures place.Free? ==>
      var v := fs.ViewOf(dir, nb);
      && k < nb && FullBefore(fs.journal, v, k) && place.diskBlock == Map(v, k) < MAX_BLOCKS
      && place.buffer == v.flat[place.diskBlock] && place.slot == FreeSlot(place.buffer, 0) < BLOCK_SIZE
    ensures place.Free? <==> !FullBefore(fs.journal, fs.ViewOf(dir, nb), nb)
    ensures !place.Free? ==> (place.Missing? <==> Overlong(fs.ViewOf(dir, nb)))
  {
    hide Volume.Valid, Volume.Sound, Cache.Valid, Chain, Entries, FreeSlot;
    ghost var v := fs.ViewOf(dir, nb);
    k := 0;
    var offset := 0;
    while offset < dir.size
      invariant fs.Valid() && fs.ViewOf(dir, nb) == v
      invariant offset == k * BLOCK_SIZE && k <= nb && FullBefore(fs.journal, v, k)
    {
      var ok, diskBlock := fs.InodeReadBlock(dir, offset / BLOCK_SIZE, nb);
      if !ok || diskBlock == 0 {
        MissingBlock(fs.journal, v, k);
        return Missing, k;
      }
      PresentBlock(fs.journal, v, k, diskBlock);
      var buffer := fs.LoadBlock(diskBlock);
      var slot := SlotInBlock(buffer);
      if slot < BLOCK_SIZE {
        return Free(diskBlock, buffer, slot), k;
      }
      offset := offset + BLOCK_SIZE;
      k := k + 1;
    }
    return Full, k;
  }

  /** Where the map of a directory has no block, none of its blocks is left. */
  lemma MissingBlock(journal: Region, v: View, k: nat)
    requires IsDirectory(journal, v) && k <= v.nb && (k < MAX_FILE_BLOCKS ==> Map(v, k) == 0)
    ensures k == v.nb
  {
    hide Chain, Map;
    assert System(journal, 0);
    assert forall j :: 0 <= j < v.nb ==> DataBlock(journal, v, Map(v, j));
  }

  lemma PresentBlock(journal: Region, v: View, k: nat, block: nat)
    requires IsDirectory(journal, v) && k <= v.nb && block != 0
    requires if k < MAX_FILE_BLOCKS then block == Map(v, k) else block == 0
    ensures k < v.nb && 0 < block < MAX_BLOCKS && Chain(v.flat[block], 0)
  {
    hide Chain, Map;
  }

  /** A new block (`v1`) filled with a record (`v2`). */
  lemma RecordInNewBlock(journal: Region, dirInum: nat, v: View, v1: View, v2: View, name: seq<byte>, inum: nat,
                         kind: byte)
    requires IsDirectory(journal, v) && |name| < 256 && 0 < inum < U32
    requires Grown(journal, dirInum, v, v1) && SameBlocks(v, v1) && v1.nb == v.nb + 1 && v1.ino.kind == v.ino.kind
    requires Map(v1, v.nb) < MAX_BLOCKS && v1.flat[Map(v1, v.nb)] == ZeroBlock()
    requires v2 == View(v1.flat[Map(v1, v.nb) := Patch(ZeroBlock(), 0, Record(name, inum, kind))], v1.used,
                        v1.ino.(size := v1.nb * BLOCK_SIZE), v1.nb)
    ensures Grown(journal, dirInum, v, v2) && IsDirectory(journal, v2) && Added(journal, v, v2, v.nb, name, inum)
  {
    hide Chain, Entries, FreeSlot, Listing, Record, Pointer, TableBytes, Grown, Find;
    var sized := v1.(ino := v2.ino);
    MappedOf(journal, dirInum, v, v1);
    Resized(journal, dirInum, v1, sized);
    MappedOf(journal, dirInum, v1, sized);
    EmptyBlockAdded(journal, v, sized);
    Overwrite(journal, dirInum, sized, v2, v.nb, 0, Record(name, inum, kind));
    AddedInBlock(journal, sized, v2, v.nb, name, inum, kind);
    ListingStep(journal, sized, sized.nb);
    GrownTrans(journal, dirInum, v1, sized, v2);
    GrownTrans(journal, dirInum, v, v1, v2);
  }

  /** The views on the way to a new block: allocated (`v1`), filled (`v2`), and the inode stored (`v3`). */
  lemma AddedInNewBlock(journal: Region, dirInum: nat, v: View, v1: View, v2: View, v3: View,
                        name: seq<byte>, inum: nat, kind: byte)
    requires IsDirectory(journal, v) && |name| < 256 && 0 < inum < U32
    requires Grown(journal, dirInum, v, v1) && SameBlocks(v, v1) && v1.nb == v.nb + 1 && v1.ino.kind == v.ino.kind
    requires Map(v1, v.nb) < MAX_BLOCKS && v1.flat[Map(v1, v.nb)] == ZeroBlock()
    requires v2 == View(v1.flat[Map(v1, v.nb) := Patch(ZeroBlock(), 0, Record(name, inum, kind))], v1.used,
                        v1.ino.(size := v1.nb * BLOCK_SIZE), v1.nb)
    requires v3 == v2.(flat := v3.flat) && Quiet(journal, v2.used, v2.flat, v3.flat, dirInum)
    ensures Grown(journal, dirInum, v, v3) && IsDirectory(journal, v3) && Added(journal, v, v3, v.nb, name, inum)
  {
    hide Chain, Entries, FreeSlot, Listing, Record, Pointer, TableBytes, Grown, Find, Map;
    RecordInNewBlock(journal, dirInum, v, v1, v2, name, inum, kind);
    Untouched(journal, dirInum, v2, v3);
    ListingSame(journal, v2, v3, v3.nb);
    GrownTrans(journal, dirInum, v, v2, v3);
  }

  /** The directory when no block was to be had: the record goes nowhere, the size grows all the same. */
  lemma NothingAdded(journal: Region, dirInum: nat, v: View, v1: View, v3: View)
    requires IsDirectory(journal, v) && Grown(journal, dirInum, v, v1) && SameBlocks(v, v1) && v1.nb == v.nb
    requires v1.ino == v.ino
    requires v3 == View(v3.flat, v1.used, v.ino.(size := v.ino.size + BLOCK_SIZE), v.nb)
    requires Quiet(journal, v1.used, v1.flat, v3.flat, dirInum)
    ensures Grown(journal, dirInum, v, v3) && IsDirectory(journal, v3) && SameBlocks(v, v3)
    ensures Listing(journal, v3, v3.nb) == Listing(journal, v, v.nb)
  {
    hide Chain, Entries, Listing, Pointer, TableBytes;
    Untouched(journal, dirInum, v1, v3);
    ListingSame(journal, v, v3, v3.nb);
    GrownTrans(journal, dirInum, v, v1, v3);
  }

  /**
   * Reports success whenever it gets to add a block, also when there is none to be had: the record is then lost, and
   * the directory too long for its blocks. From then on it fails, unless a block that it has has a free slot. The
   * entry is there afterwards exactly when a block had a free slot, or the directory had all its blocks and could get
   * another one. It is found unless the name is listed in front of it, and no lookup of another name changes in any
   * case.
   */
  method AddEntry(fs: Volume, dir: Inode, dirInum: nat, name: seq<byte>, inum: nat, kind: byte, ghost nb: nat)
    returns (ok: bool, dir': Inode, ghost nb': nat, ghost upto: nat)
    requires fs.Valid() && 0 < dirInum < MAX_FILES && |dir.tail| == 44
    requires |name| < 256 && 0 < inum < U32
    requires dir.kind == DIRECTORY ==>
      && IsDirectory(fs.journal, fs.ViewOf(dir, nb))
      && SlotFits(fs.journal, fs.ViewOf(dir, nb), |name|)
    modifies fs`freeBlocks, fs`used, fs.cache, fs.cache.slots, fs.dataBitmap
    ensures fs.Valid()
    ensures |dir'.tail| == 44
    ensures dir.kind != DIRECTORY ==> !ok
    ensures !ok ==> dir' == dir && nb' == nb
    ensures !ok ==> fs.used == old(fs.used) && fs.freeBlocks == old(fs.freeBlocks)
    ensures !ok ==> fs.cache.flat == old(fs.cache.flat)
    ensures dir.kind == DIRECTORY ==>
      && Grown(fs.journal, dirInum, old(fs.ViewOf(dir, nb)), fs.ViewOf(dir', nb'))
      && IsDirectory(fs.journal, old(fs.ViewOf(dir, nb))) && IsDirectory(fs.journal, fs.ViewOf(dir', nb'))
      && var v, w := old(fs.ViewOf(dir, nb)), fs.ViewOf(dir', nb');
      && (ok <==> !FullBefore(fs.journal, v, nb) || !Overlong(v))
      && (if !FullBefore(fs.journal, v, nb) || (!Overlong(v) && !Stuck(nb, old(fs.freeBlocks)))
          then upto <= nb && UpToFree(fs.journal, v, upto) && Added(fs.journal, v, w, upto, name, inum)
          else nb' == nb && SameBlocks(v, w) && Listing(fs.journal, w, nb') == Listing(fs.journal, v, nb))
      && (FullBefore(fs.journal, v, nb) && !Overlong(v) ==>
          && dir'.size == dir.size + BLOCK_SIZE && TableBytes(fs.cache.flat, dirInum) == Encode(dir')
          && (Stuck(nb, old(fs.freeBlocks)) ==> dir' == dir.(size := dir'.size)))
      && (!FullBefore(fs.journal, v, nb) ==> dir' == dir && nb' == nb)
  {
    hide Volume.Valid, Volume.Sound, Cache.Valid, Chain, Entries, FreeSlot, Listing, Record, Grown, ByteAt, Holds,
      Quiet, SameBlocks, Find, Map,
      TableBytes, Encode;
    ghost var v := fs.ViewOf(dir, nb);
    if dir.kind != DIRECTORY {
      return false, dir, nb, nb;
    }
    GrownSelf(fs.journal, dirInum, v);
    var place, k := FindSlot(fs, dir, nb);
    match place {
      case Missing =>
        return false, dir, nb, nb;
      case Free(diskBlock, buffer, slot) =>
        fs.StoreBlock(diskBlock, Patch(buffer, slot, Record(name, inum, kind)));
        Overwrite(fs.journal, dirInum, v, fs.ViewOf(dir, nb), k, slot, Record(name, inum, kind));
        AddedInBlock(fs.journal, v, fs.ViewOf(dir, nb), k, name, inum, kind);
        return true, dir, nb, k + 1;
      case Full =>
        dir', nb' := AddBlock(fs, dir, dirInum, name, inum, kind, nb);
        ok, upto := true, nb;
    }
  }

  /** The end of dir_add_entry: a new block with the record in it. */
  method AddBlock(fs: Volume, dir: Inode, dirInum: nat, name: seq<byte>, inum: nat, kind: byte, ghost nb: nat)
    returns (dir': Inode, ghost nb': nat)
    requires fs.Valid() && 0 < dirInum < MAX_FILES && |dir.tail| == 44
    requires |name| < 256 && 0 < inum < U32
    requires IsDirectory(fs.journal, fs.ViewOf(dir, nb)) && !Overlong(fs.ViewOf(dir, nb))
    modifies fs`freeBlocks, fs`used, fs.cache, fs.cache.slots, fs.dataBitmap
    ensures fs.Valid()
    ensures Grown(fs.journal, dirInum, old(fs.ViewOf(dir, nb)), fs.ViewOf(dir', nb'))
    ensures IsDirectory(fs.journal, old(fs.ViewOf(dir, nb))) && IsDirectory(fs.journal, fs.ViewOf(dir', nb'))
    ensures if Stuck(nb, old(fs.freeBlocks))
            then && nb' == nb && dir' == dir.(size := dir'.size) &&
              SameBlocks(old(fs.ViewOf(dir, nb)), fs.ViewOf(dir', nb'))
                 && Listing(fs.journal, fs.ViewOf(dir', nb'), nb') == Listing(fs.journal, old(fs.ViewOf(dir, nb)), nb)
            else Added(fs.journal, old(fs.ViewOf(dir, nb)), fs.ViewOf(dir', nb'), nb, name, inum)
    ensures |dir'.tail| == 44 && dir'.size == dir.size + BLOCK_SIZE
    ensures TableBytes(fs.cache.flat, dirInum) == Encode(dir')
  {
    hide Volume.Valid, Volume.Sound, Cache.Valid, Chain, Entries, FreeSlot, Listing, Record, Grown, ByteAt, Holds,
      Quiet, SameBlocks, Find, Map,
      TableBytes, Encode;
    ghost var v := fs.ViewOf(dir, nb);
    var newBlock, r := fs.InodeAllocateBlock(dir, dirInum, dir.size / BLOCK_SIZE, nb);
    nb' := if newBlock == -1 then nb else nb + 1;
    ghost var v1 := fs.ViewOf(r, nb');
    MappedOf(fs.journal, dirInum, v, v1);
    fs.StoreBlock(if newBlock == -1 then U64 - 1 else newBlock, Patch(ZeroBlock(), 0, Record(name, inum, kind)));
    dir' := r.(size := r.size + BLOCK_SIZE);
    ghost var v2 := fs.ViewOf(dir', nb');
    var _ := fs.WriteInode(dirInum, dir');
    ghost var v3 := fs.ViewOf(dir', nb');
    if newBlock == -1 {
      NothingAdded(fs.journal, dirInum, v, v1, v3);
    } else {
      AddedInNewBlock(fs.journal, dirInum, v, v1, v2, v3, name, inum, kind);
    }
  }

  /** A directory is the same after its inode has become longer and a block of another file has been freed. */
  lemma DirectoryKept(journal: Region, v: View, w: View, freed: nat)
    requires IsDirectory(journal, v) && w.nb == v.nb && w.ino == v.ino.(size := w.ino.size)
    requires w.ino.size % BLOCK_SIZE == 0 && w.ino.size >= w.nb * BLOCK_SIZE
    requires freed < MAX_BLOCKS && !Owns(v, freed) && w.used == v.used[freed := false]
    requires SameBut(v.flat, w.flat, {1})
    ensures IsDirectory(journal, w) && Listing(journal, w, w.nb) == Listing(journal, v, v.nb)
    ensures FullBefore(journal, v, v.nb) ==> FullBefore(journal, w, w.nb)
  {
    hide Chain, Entries, FreeSlot, Listing, Pointer;
    MapKept(v, w);
    ListingSame(journal, v, w, v.nb);
  }

  /** A full directory that is longer than its blocks, where every further entry is refused. */
  ghost predicate Closed(journal: Region, v: View) {
    IsDirectory(journal, v) && Overlong(v) && FullBefore(journal, v, v.nb)
  }

  /**
   * An entry lost to a full disk stays lost: the same call again fails, even when a block has been freed in between,
   * and leaves the directory as it is, so that any later one fails as well.
   */
  method AddEntryAgain(fs: Volume, dir: Inode, dirInum: nat, name: seq<byte>, inum: nat, kind: byte, freed: nat,
                       ghost nb: nat)
    returns (first: bool, second: bool, dir': Inode)
    requires fs.Valid() && 0 < dirInum < MAX_FILES && |dir.tail| == 44
    requires |name| < 256 && 0 < inum < U32
    requires IsDirectory(fs.journal, fs.ViewOf(dir, nb)) && FullBefore(fs.journal, fs.ViewOf(dir, nb), nb)
    requires !Overlong(fs.ViewOf(dir, nb)) && Stuck(nb, fs.freeBlocks)
    requires freed < MAX_BLOCKS && fs.used[freed] && !System(fs.journal, freed) && !Owns(fs.ViewOf(dir, nb), freed)
    modifies fs`freeBlocks, fs`used, fs.cache, fs.cache.slots, fs.dataBitmap
    ensures fs.Valid() && fs.freeBlocks > 0
    ensures first && !second
    ensures Closed(fs.journal, fs.ViewOf(dir', nb))
    ensures IsDirectory(fs.journal, old(fs.ViewOf(dir, nb)))
    ensures Listing(fs.journal, fs.ViewOf(dir', nb), nb) == Listing(fs.journal, old(fs.ViewOf(dir, nb)), nb)
  {
    hide Volume.Valid, Volume.Sound, Cache.Valid, Chain, Entries, FreeSlot, Listing, Record, ByteAt, Holds, Quiet, Find,
      Map;
    ghost var v, nb', upto := fs.ViewOf(dir, nb), nb, nb;
    first, dir', nb', upto := AddEntry(fs, dir, dirInum, name, inum, kind, nb);
    ghost var w := fs.ViewOf(dir', nb);
    var _ := fs.FreeBlock(freed);
    DirectoryKept(fs.journal, w, fs.ViewOf(dir', nb), freed);
    var after;
    second, after, nb', upto := AddEntry(fs, dir', dirInum, name, inum, kind, nb);
  }
}
