/** Physical frames and the two-level page map (32-bit paging, 4-KByte pages). */
module Paging {
  import Bitmap

  const PAGE_SIZE: nat := 4096
  const U32: nat := 0x1_0000_0000
  const BITMAP_BYTES: nat := 0x10_0000
  /** Pages the bitmap has room for; only the first FRAMES of them have an address. */
  const PAGES: nat := 0x80_0000
  const FRAMES: nat := 0x10_0000
  const FIRST_PAGE: nat := 2048
  const ENTRIES: nat := 1024

  datatype Entry = Entry(present: bool, writable: bool, user: bool, address: nat)

  type Table = t: seq<Entry> | |t| == ENTRIES witness seq(ENTRIES, _ => Entry(false, false, false, 0))

  datatype Option = None | Some(frame: nat)

  /** vaddr >> 22 and (vaddr >> 12) & 0x3FF */
  function DirIndex(vaddr: nat): (d: nat)
    ensures vaddr < U32 ==> d < ENTRIES
  {
    vaddr / 0x40_0000
  }

  function TableIndex(vaddr: nat): (t: nat)
    ensures t < ENTRIES
  {
    vaddr / PAGE_SIZE % ENTRIES
  }

  /** The address of a page, in 32 bits. */
  function Address(page: nat): nat { page * PAGE_SIZE % U32 }

  lemma AddressFrame(page: nat)
    ensures Address(page) < U32 && Address(page) % PAGE_SIZE == 0 && Address(page) / PAGE_SIZE == page % FRAMES
  {
    assert page * 4096 % 0x1_0000_0000 == page % 0x10_0000 * 4096;
  }

  /** The lowest page that is not in use. */
  predicate Lowest(used: seq<bool>, page: nat) {
    page < |used| && !used[page] && forall m :: 0 <= m < page ==> used[m]
  }

  /** What one table says of an address. */
  function Lookup(table: Table, vaddr: nat): Option {
    var e := table[TableIndex(vaddr)];
    if e.present then Some(e.address) else None
  }

  /** The frame that a walk of the directory and of the table it names arrives at. */
  function Walk(directory: seq<Entry>, tables: seq<Table>, vaddr: nat): Option
    requires |directory| == ENTRIES && |tables| == FRAMES && vaddr < U32
    requires forall d :: 0 <= d < ENTRIES ==> directory[d].address < FRAMES
  {
    var d := directory[DirIndex(vaddr)];
    if d.present then Lookup(tables[d.address], vaddr) else None
  }

  /** Two addresses on different pages differ in one of the indices. */
  lemma PagesDiffer(v: nat, w: nat)
    ensures v / PAGE_SIZE == w / PAGE_SIZE <==> DirIndex(v) == DirIndex(w) && TableIndex(v) == TableIndex(w)
  {
    assert v / PAGE_SIZE == DirIndex(v) * ENTRIES + TableIndex(v);
    assert w / PAGE_SIZE == DirIndex(w) * ENTRIES + TableIndex(w);
  }

  /**
   * The counters follow the bitmap, modulo 2^32, at a distance: at the start 256 pages are counted as used where 2048
   * are marked, and 0x100000 as all where the bitmap has eight times as many.
   */
  predicate CountersOf(pagesUsed: nat, pagesFree: nat, clear: int) {
    pagesUsed == (PAGES - FIRST_PAGE + 256 - clear) % U32 &&
      pagesFree == (clear - (PAGES - FIRST_PAGE) + 0x10_0000 - 256) % U32
  }

  lemma Remainder(n: int, r: nat, delta: int)
    requires r == n % 0x1_0000_0000
    ensures (r + delta) % 0x1_0000_0000 == (n + delta) % 0x1_0000_0000
  {
    assert n + delta == r + delta + n / 0x1_0000_0000 * 0x1_0000_0000;
    Whole(r + delta, n / 0x1_0000_0000);
  }

  lemma {:induction false} Whole(n: int, q: int)
    ensures (n + q * 0x1_0000_0000) % 0x1_0000_0000 == n % 0x1_0000_0000
    decreases if q < 0 then -q else q
  {
    if q > 0 {
      Whole(n, q - 1);
    } else if q < 0 {
      Whole(n, q + 1);
    }
  }

  lemma CountersMove(pagesUsed: nat, pagesFree: nat, clear: int, delta: int)
    requires CountersOf(pagesUsed, pagesFree, clear)
    ensures CountersOf((pagesUsed - delta) % U32, (pagesFree + delta) % U32, clear + delta)
  {
    Remainder(PAGES - FIRST_PAGE + 256 - clear, pagesUsed, -delta);
    Remainder(clear - (PAGES - FIRST_PAGE) + 0x10_0000 - 256, pagesFree, delta);
  }

  /** A count off by one is not the count. */
  lemma CountersDiffer(pagesUsed: nat, pagesFree: nat, clear: int)
    requires CountersOf(pagesUsed, pagesFree, clear)
    ensures !CountersOf(pagesUsed, pagesFree, clear + 1) && !CountersOf(pagesUsed, pagesFree, clear - 1)
  {
    Remainder(clear - (PAGES - FIRST_PAGE) + 0x10_0000 - 256, pagesFree, 1);
    Remainder(clear - (PAGES - FIRST_PAGE) + 0x10_0000 - 256, pagesFree, -1);
  }

  class MemoryManager {
    const physBitmap: array<bv8>
    const directory: array<Entry>
    /** Physical memory, frame by frame, as page tables see it. */
    var tables: seq<Table>
    var pagesUsed: nat
    var pagesFree: nat
    /** physBitmap, one boolean a page. */
    ghost var used: seq<bool>

    ghost predicate Sound()
      reads this, physBitmap, directory
    {
      && physBitmap.Length == BITMAP_BYTES && directory.Length == ENTRIES && |tables| == FRAMES
      && used == Bitmap.Bits(physBitmap[..])
      && (forall d :: 0 <= d < ENTRIES ==> directory[d].address < FRAMES)
    }

    ghost predicate Shaped()
      reads this, physBitmap, directory
    {
      Sound() && forall n :: 0 <= n < FIRST_PAGE ==> used[n]
    }

    /** The page tables in use lie in frames that are marked used, a different one for each directory entry. */
    ghost predicate Valid()
      reads this, physBitmap, directory
    {
      && Shaped()
      && (forall d :: 0 <= d < ENTRIES && directory[d].present ==> used[directory[d].address])
      && (forall d, e :: 0 <= d < e < ENTRIES && directory[d].present && directory[e].present ==>
        directory[d].address != directory[e].address)
    }

    ghost function Translate(vaddr: nat): Option
      requires Shaped() && vaddr < U32
      reads this, physBitmap, directory
    {
      Walk(directory[..], tables, vaddr)
    }

    ghost predicate Counted()
      reads this
    {
      CountersOf(pagesUsed, pagesFree, Bitmap.CountClear(used))
    }

    /** The bitmap as memory_init leaves it, an empty directory, and memory with any contents. */
    constructor (tables: seq<Table>)
      requires |tables| == FRAMES
      ensures Valid() && fresh(physBitmap) && fresh(directory) && this.tables == tables
      ensures Counted() && forall n :: 0 <= n < PAGES ==> (used[n] <==> n < FIRST_PAGE)
      ensures forall d :: 0 <= d < ENTRIES ==> !directory[d].present
    {
      physBitmap := new bv8[BITMAP_BYTES](i => if 0 <= i < 256 then 0xFF else 0);
      directory := new Entry[ENTRIES](_ => Entry(false, false, false, 0));
      this.tables := tables;
      pagesUsed, pagesFree := 256, 0x10_0000 - 256;
      new;
      used := Bitmap.Bits(physBitmap[..]);
      forall n | 0 <= n < PAGES
        ensures used[n] <==> n < FIRST_PAGE
      {
        Bitmap.AllOnes(physBitmap[n / 8]);
        Bitmap.BitInByte(physBitmap[..], n / 8, n % 8);
      }
      Bitmap.CountClearBehind(used, FIRST_PAGE);
    }

    /** Some page that has an address is free. */
    ghost predicate LowFree()
      requires Shaped()
      reads this, physBitmap, directory
    {
      exists n :: 0 <= n < FRAMES && !used[n]
    }

    /** Marks a free page used, and counts it. */
    method TakePage(page: nat)
      requires Shaped() && FIRST_PAGE <= page < PAGES && !used[page]
      modifies physBitmap, this`used, this`pagesUsed, this`pagesFree
      ensures Shaped() && used == old(used)[page := true]
      ensures old(Counted()) ==> Counted()
    {
      hide Bitmap.CountClear, CountersOf, Bitmap.Bits;
      ghost var clear := Bitmap.CountClear(used);
      if CountersOf(pagesUsed, pagesFree, clear) {
        CountersMove(pagesUsed, pagesFree, clear, -1);
      }
      Bitmap.CountClearUpdate(used, page, true);
      Bitmap.Set(physBitmap, page);
      used := used[page := true];
      pagesUsed := (pagesUsed + 1) % U32;
      pagesFree := (pagesFree - 1) % U32;
      assert Bitmap.CountClear(used) == clear - 1;
    }

    /**
     * Marks the lowest free page used and returns its address in 32 bits; 0 if there is none. The frame at that
     * address was free before exactly when a page below FRAMES was: of higher pages the address is that of another,
     * used page.
     */
    method PhysAlloc() returns (addr: nat)
      requires Shaped()
      modifies physBitmap, this`used, this`pagesUsed, this`pagesFree
      ensures Shaped() && addr < U32 && addr % PAGE_SIZE == 0
      ensures old(LowFree()) ==>
        var n := addr / PAGE_SIZE;
        && FIRST_PAGE <= n < FRAMES && !old(used)[n] && used == old(used)[n := true]
        && forall m :: 0 <= m < n ==> old(used)[m]
      ensures !old(LowFree()) ==> old(used)[addr / PAGE_SIZE]
      ensures forall n :: 0 <= n < PAGES && old(used)[n] ==> used[n]
      ensures old(Counted()) ==> Counted()
      ensures if forall n :: 0 <= n < PAGES ==> old(used)[n] then addr == 0 && used == old(used)
              else exists page: nat ::
                Lowest(old(used), page) && used == old(used)[page := true] && addr == Address(page)
    {
      hide Bitmap.TestBit, Bitmap.SetBit, Bitmap.Bits, Counted, Address;
      for i := 256 to BITMAP_BYTES
        invariant Shaped() && used == old(used) && physBitmap[..] == old(physBitmap[..])
        invariant pagesUsed == old(pagesUsed) && pagesFree == old(pagesFree)
        invariant forall n :: 0 <= n < 8 * i ==> used[n]
      {
        Bitmap.FullByte(physBitmap[..], i);
        if physBitmap[i] != 0xFF {
          for j := 0 to 8
            invariant Shaped() && used == old(used) && physBitmap[..] == old(physBitmap[..])
            invariant pagesUsed == old(pagesUsed) && pagesFree == old(pagesFree)
            invariant forall n :: 0 <= n < 8 * i + j ==> used[n]
          {
            Bitmap.BitInByte(physBitmap[..], i, j);
            if !Bitmap.TestBit(physBitmap[i], j) {
              var page := i * 8 + j;
              TakePage(page);
              AddressFrame(page);
              return Address(page);
            }
          }
        }
      }
      return 0;
    }

    ghost predicate HoldsTable(frame: nat)
      requires Sound()
      reads this, physBitmap, directory
    {
      exists d :: 0 <= d < ENTRIES && directory[d].present && directory[d].address == frame
    }

    /**
     * Frees the frame of an address. The state stays good exactly if the frame is not reserved and holds no page table;
     * freeing a frame twice puts the counters off for good.
     */
    method PhysFree(addr: nat)
      requires Valid() && addr < U32
      modifies physBitmap, this`used, this`pagesUsed, this`pagesFree
      ensures Sound() && used == old(used)[addr / PAGE_SIZE := false]
      ensures Valid() <==> (addr / PAGE_SIZE >= FIRST_PAGE && !HoldsTable(addr / PAGE_SIZE))
      ensures old(Counted()) ==> (Counted() <==> old(used)[addr / PAGE_SIZE])
    {
      hide Bitmap.CountClear, CountersOf, Bitmap.Bits;
      ghost var clear := Bitmap.CountClear(used);
      if CountersOf(pagesUsed, pagesFree, clear) {
        CountersMove(pagesUsed, pagesFree, clear, 1);
        assert clear + 1 - 1 == clear;
        CountersDiffer((pagesUsed - 1) % U32, (pagesFree + 1) % U32, clear + 1);
      }
      if used[addr / PAGE_SIZE] {
        Bitmap.CountClearUpdate(used, addr / PAGE_SIZE, false);
      } else {
        assert used[addr / PAGE_SIZE := false] == used;
      }
      Bitmap.Clear(physBitmap, addr / PAGE_SIZE);
      used := used[addr / PAGE_SIZE := false];
      pagesUsed := (pagesUsed - 1) % U32;
      pagesFree := (pagesFree + 1) % U32;
      assert Bitmap.CountClear(used) == if old(used)[addr / PAGE_SIZE] then clear + 1 else clear;
      ghost var frame := addr / PAGE_SIZE;
      assert !used[frame];
      if HoldsTable(frame) {
        var d :| 0 <= d < ENTRIES && directory[d].present && directory[d].address == frame;
        assert !used[directory[d].address];
      } else if frame >= FIRST_PAGE {
        assert forall d :: 0 <= d < ENTRIES && directory[d].present ==> directory[d].address != frame;
        assert Valid();
      }
    }

    /**
     * The other pages of the mapped page's directory entry: as before if it was present, else as the fresh frame has
     * them.
     */
    ghost predicate NeighboursFrom(vaddr: nat, w: nat, table: Table)
      requires Shaped() && vaddr < U32 && w < U32
      reads this, physBitmap, directory
    {
      DirIndex(w) == DirIndex(vaddr) && w / PAGE_SIZE != vaddr / PAGE_SIZE ==> Translate(w) == Lookup(table, w)
    }

    /**
     * Maps a page. Where its directory entry is absent a fresh table is allocated for it but not cleared, so that
     * the other pages of that entry translate to whatever the frame held.
     */
    method MmapPage(vaddr: nat, paddr: nat, user: bool)
      requires Valid() && vaddr < U32 && paddr < U32
      modifies this, physBitmap, directory
      ensures Shaped()
      ensures old(directory[DirIndex(vaddr)].present || LowFree()) ==>
        && Valid() && Translate(vaddr) == Some(paddr / PAGE_SIZE)
        && (forall w :: 0 <= w < U32 && DirIndex(w) != DirIndex(vaddr) ==> Translate(w) == old(Translate(w)))
      ensures old(directory[DirIndex(vaddr)].present) ==>
        used == old(used) && forall w :: 0 <= w < U32 && w / PAGE_SIZE != vaddr / PAGE_SIZE ==>
          Translate(w) == old(Translate(w))
      ensures old(!directory[DirIndex(vaddr)].present && LowFree()) ==>
        var f := directory[DirIndex(vaddr)].address;
        && !old(used)[f] && used == old(used)[f := true]
        && forall w :: 0 <= w < U32 ==> NeighboursFrom(vaddr, w, old(tables)[f])
      ensures old(!directory[DirIndex(vaddr)].present && !LowFree()) ==>
        || (directory[..] == old(directory[..]) && tables == old(tables))
        || (directory[DirIndex(vaddr)].present && old(used)[directory[DirIndex(vaddr)].address])
      ensures old(Counted()) ==> Counted()
    {
      hide CountersOf, Bitmap.CountClear, Bitmap.Bits, DirIndex, TableIndex;
      var d := DirIndex(vaddr);
      if !directory[d].present {
        var phys := PhysAlloc();
        if phys == 0 {
          return;
        }
        directory[d] := Entry(true, true, user, phys / PAGE_SIZE);
      }
      var f := directory[d].address;
      tables := tables[f := tables[f][TableIndex(vaddr) := Entry(true, true, user, paddr / PAGE_SIZE)]];
      forall w | 0 <= w < U32
        ensures w / PAGE_SIZE == vaddr / PAGE_SIZE <==> DirIndex(w) == d && TableIndex(w) == TableIndex(vaddr)
      {
        PagesDiffer(w, vaddr);
      }
    }

    /** Unmaps one page, and no other. */
    method MunmapPage(vaddr: nat)
      requires Valid() && vaddr < U32
      modifies this`tables
      ensures Valid() && Translate(vaddr) == None
      ensures forall w :: 0 <= w < U32 && w / PAGE_SIZE != vaddr / PAGE_SIZE ==> Translate(w) == old(Translate(w))
    {
      if !directory[DirIndex(vaddr)].present {
        return;
      }
      var f, t := directory[DirIndex(vaddr)].address, TableIndex(vaddr);
      tables := tables[f := tables[f][t := tables[f][t].(present := false)]];
      forall w | 0 <= w < U32 && w / PAGE_SIZE != vaddr / PAGE_SIZE
        ensures Translate(w) == old(Translate(w))
      {
        PagesDiffer(vaddr, w);
      }
    }
  }
}
