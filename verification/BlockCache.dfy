/** The block layer of ZEBXFS: a raw device with wear levelling, and the write-back LRU cache above it. */
module BlockCache {
  import opened Bytes

  const BLOCK_SIZE: nat := 4096
  const MAX_BLOCKS: nat := 786432
  const CACHE_SIZE: nat := 256
  const SECTOR: nat := 512

  type Block = b: seq<byte> | |b| == BLOCK_SIZE witness seq(BLOCK_SIZE, _ => 0)

  function ZeroBlock(): (zero: Block)
    ensures forall i :: 0 <= i < BLOCK_SIZE ==> zero[i] == 0
  {
    seq(BLOCK_SIZE, _ => 0)
  }

  // ----- wear levelling -----

  function Candidate(block: nat, i: nat): (candidate: nat)
    ensures candidate < MAX_BLOCKS
  {
    (block + i) % MAX_BLOCKS
  }

  /** The block that a raw write of `block` reaches after `n` of the 64 candidates have been looked at. */
  function WearTarget(wear: seq<nat>, block: nat, n: nat): (target: nat)
    requires |wear| == MAX_BLOCKS && block < MAX_BLOCKS
    ensures target < MAX_BLOCKS
  {
    if n == 0 then block
    else
      var target := WearTarget(wear, block, n - 1);
      var candidate := Candidate(block, n - 1);
      if wear[candidate] < wear[target] && candidate >= 1024 then candidate else target
  }

  lemma {:induction false} WearTargetIsLeast(wear: seq<nat>, block: nat, n: nat)
    requires |wear| == MAX_BLOCKS && block < MAX_BLOCKS
    ensures var target := WearTarget(wear, block, n);
      && wear[target] <= wear[block]
      && (target != block ==> target >= 1024 && exists i: nat :: i < n && target == Candidate(block, i))
      && (target != block ==> wear[target] < wear[block])
      && forall i: nat :: i < n && Candidate(block, i) >= 1024 ==> wear[target] <= wear[Candidate(block, i)]
  {
    if n > 0 {
      WearTargetIsLeast(wear, block, n - 1);
    }
  }

  /** No candidate outside the reserved area is less worn than the block itself. */
  ghost predicate LeastWorn(wear: seq<nat>, block: nat)
    requires |wear| == MAX_BLOCKS && block < MAX_BLOCKS
  {
    forall i: nat :: i < 64 && Candidate(block, i) >= 1024 ==> wear[block] <= wear[Candidate(block, i)]
  }

  /** A raw write reaches the block it names exactly when that block is a least worn candidate. */
  lemma WriteLandsIff(wear: seq<nat>, block: nat)
    requires |wear| == MAX_BLOCKS && block < MAX_BLOCKS
    ensures WearTarget(wear, block, 64) == block <==> LeastWorn(wear, block)
  {
    WearTargetIsLeast(wear, block, 64);
  }

  /**
   * Rewriting a block of an otherwise unworn device already sends the second copy elsewhere, unless all candidates but
   * the block itself lie in the reserved area: those of a low block, or of the last one, from which they wrap around.
   */
  lemma RewriteIsRedirected(wear: seq<nat>, block: nat)
    requires |wear| == MAX_BLOCKS && block < MAX_BLOCKS
    requires forall b :: 0 <= b < MAX_BLOCKS ==> wear[b] == 0
    ensures WearTarget(wear, block, 64) == block
    ensures WearTarget(wear[block := 1], block, 64) != block <==> 961 <= block < MAX_BLOCKS - 1
  {
    WriteLandsIff(wear, block);
    WriteLandsIff(wear[block := 1], block);
    if 1024 <= block < MAX_BLOCKS - 1 {
      assert Candidate(block, 1) == block + 1;
    } else if 961 <= block < 1024 {
      assert Candidate(block, 1024 - block) == 1024;
    }
  }

  // ----- sectors -----

  /** A block whose first sectors have been written over. */
  ghost predicate Torn(before: Block, after: Block, data: Block, sectors: nat)
    requires sectors <= BLOCK_SIZE / SECTOR
  {
    after == data[..sectors * SECTOR] + before[sectors * SECTOR..]
  }

  function WithSector(b: Block, data: Block, i: nat): Block
    requires i < BLOCK_SIZE / SECTOR
  {
    Patch(b, i * SECTOR, data[i * SECTOR..(i + 1) * SECTOR])
  }

  lemma TornMore(before: Block, mid: Block, data: Block, i: nat)
    requires i < BLOCK_SIZE / SECTOR && Torn(before, mid, data, i)
    ensures Torn(before, WithSector(mid, data, i), data, i + 1)
  {
    var at, to := i * SECTOR, (i + 1) * SECTOR;
    assert mid[..at] == data[..at] && mid[to..] == before[to..];
    assert data[..at] + data[at..to] == data[..to];
  }

  lemma TornEnds(before: Block, after: Block, data: Block)
    ensures Torn(before, before, data, 0)
    ensures Torn(before, after, data, BLOCK_SIZE / SECTOR) ==> after == data
  {
  }

  // ----- cache -----

  datatype Slot = Slot(block: nat, data: Block, dirty: bool, lastAccess: nat)

  const MAX_TICKS: nat := 0xFFFF_FFFF_FFFF_FFFF

  /** A dirty slot holds `block`. */
  ghost predicate Pending(slots: seq<Slot>, block: nat) {
    exists i :: 0 <= i < |slots| && slots[i].block == block && slots[i].dirty
  }

  lemma PendingKept(before: seq<Slot>, after: seq<Slot>, but: set<nat>)
    requires |before| == |after|
    requires forall i :: 0 <= i < |before| && before[i].dirty && before[i].block !in but ==>
      after[i].dirty && after[i].block == before[i].block
    ensures forall block :: Pending(before, block) && block !in but ==> Pending(after, block)
  {
  }

  lemma NotPending(slots: seq<Slot>, block: nat)
    requires forall i :: 0 <= i < |slots| ==> slots[i].block != block
    ensures !Pending(slots, block)
  {
  }

  /** What the cache may reuse: its first empty slot or, when it is full, the first least recently used one. */
  ghost predicate Evictable(slots: seq<Slot>, slot: nat)
    requires slot < |slots|
  {
    if slots[slot].block == 0 then forall i :: 0 <= i < slot ==> slots[i].block != 0
    else
      && (forall i :: 0 <= i < |slots| ==> slots[i].block != 0 && slots[slot].lastAccess <= slots[i].lastAccess)
      && (forall i :: 0 <= i < slot ==> slots[slot].lastAccess < slots[i].lastAccess)
  }

  /** timer_get_ticks: any 64-bit value. */
  method Ticks() returns (now: nat)
    ensures now <= MAX_TICKS
  {
    now :| 0 <= now <= MAX_TICKS;
  }

  class Cache {
    const wearLevelling: bool
    /** No sector access fails. */
    const reliable: bool
    const slots: array<Slot>
    var disk: seq<Block>
    var wear: seq<nat>
    /** What the file system has stored: the last block written to each number. */
    ghost var flat: seq<Block>
    /** Every raw access so far succeeded, and every raw write reached the block it named. */
    ghost var landed: bool

    ghost predicate Coherent()
      reads this, slots
    {
      && |disk| == |flat| == MAX_BLOCKS
      && (forall i :: 0 <= i < slots.Length && 0 < slots[i].block < MAX_BLOCKS ==>
        slots[i].data == flat[slots[i].block])
      && (forall b :: 0 < b < MAX_BLOCKS ==>
            disk[b] == flat[b] || Pending(slots[..], b))
    }

    ghost predicate NoDuplicates()
      reads this, slots
    {
      forall i, j :: 0 <= i < j < slots.Length && slots[i].block == slots[j].block ==> slots[i].block == 0
    }

    ghost predicate Valid()
      reads this, slots
    {
      && slots.Length == CACHE_SIZE
      && |disk| == |wear| == |flat| == MAX_BLOCKS
      && (forall i :: 0 <= i < CACHE_SIZE ==> slots[i].lastAccess <= MAX_TICKS)
      && NoDuplicates()
      && (!wearLevelling && reliable ==> landed)
      && (landed ==> Coherent())
    }

    /** Mounting: an empty cache over a device. */
    constructor (disk: seq<Block>, wearLevelling: bool, reliable: bool)
      requires |disk| == MAX_BLOCKS
      ensures Valid() && landed && fresh(slots) && this.wearLevelling == wearLevelling && this.reliable == reliable
      ensures flat == this.disk == disk
    {
      this.wearLevelling, this.reliable := wearLevelling, reliable;
      slots := new Slot[CACHE_SIZE](_ => Slot(0, ZeroBlock(), false, 0));
      this.disk := disk;
      wear := seq(MAX_BLOCKS, _ => 0);
      flat := disk;
      landed := true;
    }

    /** Whether the next sector access fails, which an unreliable device may do at any time. */
    method Fails() returns (failed: bool)
      ensures reliable ==> !failed
    {
      failed := *;
      if reliable {
        failed := false;
      }
    }

    /** Reads a block sector by sector, up to the first that fails. */
    method ReadBlockRaw(block: nat) returns (ok: bool, data: Block)
      requires |disk| == MAX_BLOCKS
      modifies this`landed
      ensures block >= MAX_BLOCKS ==> !ok && landed == old(landed)
      ensures block < MAX_BLOCKS ==> landed == (old(landed) && ok) && (reliable ==> ok)
      ensures ok ==> data == disk[block]
    {
      data := ZeroBlock();
      if block >= MAX_BLOCKS {
        return false, data;
      }
      hide Torn, WithSector;
      TornEnds(ZeroBlock(), data, disk[block]);
      for i := 0 to BLOCK_SIZE / SECTOR
        invariant landed == old(landed)
        invariant Torn(ZeroBlock(), data, disk[block], i)
      {
        var failed := Fails();
        if failed {
          landed := false;
          return false, data;
        }
        TornMore(ZeroBlock(), data, disk[block], i);
        data := WithSector(data, disk[block], i);
      }
      TornEnds(ZeroBlock(), data, disk[block]);
      ok := true;
    }

    /** The block that a raw write goes to. */
    method ChooseTarget(block: nat) returns (target: nat)
      requires |wear| == MAX_BLOCKS && block < MAX_BLOCKS
      ensures target == if wearLevelling then WearTarget(wear, block, 64) else block
    {
      target := block;
      if wearLevelling {
        for i := 0 to 64
          invariant target < MAX_BLOCKS && target == WearTarget(wear, block, i)
        {
          var candidate := Candidate(block, i);
          if wear[candidate] < wear[target] && candidate >= 1024 {
            target := candidate;
          }
        }
      }
    }

    /** Writes a block sector by sector, up to the first that fails. */
    method WriteSectors(target: nat, data: Block) returns (ok: bool)
      requires |disk| == MAX_BLOCKS && target < MAX_BLOCKS
      modifies this`disk
      ensures |disk| == MAX_BLOCKS && disk == old(disk)[target := disk[target]]
      ensures exists n: nat :: n <= BLOCK_SIZE / SECTOR && Torn(old(disk)[target], disk[target], data, n)
      ensures (ok ==> disk[target] == data) && (reliable ==> ok)
    {
      hide Torn, WithSector;
      TornEnds(disk[target], disk[target], data);
      for i := 0 to BLOCK_SIZE / SECTOR
        invariant |disk| == MAX_BLOCKS && disk == old(disk)[target := disk[target]]
        invariant Torn(old(disk)[target], disk[target], data, i)
      {
        var failed := Fails();
        if failed {
          return false;
        }
        TornMore(old(disk)[target], disk[target], data, i);
        disk := disk[target := WithSector(disk[target], data, i)];
      }
      TornEnds(old(disk)[target], disk[target], data);
      return true;
    }

    method WriteBlockRaw(block: nat, data: Block) returns (ok: bool)
      requires |disk| == |wear| == MAX_BLOCKS
      modifies this`disk, this`wear, this`landed
      ensures |disk| == |wear| == MAX_BLOCKS
      ensures block >= MAX_BLOCKS ==> !ok && disk == old(disk) && wear == old(wear) && landed == old(landed)
      ensures block < MAX_BLOCKS ==>
        var target := if wearLevelling then WearTarget(old(wear), block, 64) else block;
        && wear == old(wear)[target := (old(wear)[target] + 1) % U32]
        && disk == old(disk)[target := disk[target]]
        && (exists n: nat :: n <= BLOCK_SIZE / SECTOR && Torn(old(disk)[target], disk[target], data, n))
        && (ok ==> disk[target] == data)
        && landed == (old(landed) && ok && target == block)
        && (reliable ==> ok)
    {
      hide WearTarget, Torn;
      if block >= MAX_BLOCKS {
        return false;
      }
      var target := ChooseTarget(block);
      wear := wear[target := (wear[target] + 1) % U32];
      ok := WriteSectors(target, data);
      landed := landed && ok && target == block;
    }

    /** The slot of `block`, marked as just used; -1 when it is not cached. */
    method FindCache(block: nat) returns (slot: int)
      requires Valid()
      modifies slots
      ensures Valid()
      ensures -1 <= slot < CACHE_SIZE
      ensures slot == -1 ==> slots[..] == old(slots[..]) && forall i :: 0 <= i < CACHE_SIZE ==> slots[i].block != block
      ensures slot != -1 ==> slots[slot].block == block
      ensures slot != -1 ==> exists now :: slots[..] == old(slots[..])[slot := old(slots[slot]).(lastAccess := now)]
    {
      for i := 0 to CACHE_SIZE
        invariant slots[..] == old(slots[..])
        invariant forall j :: 0 <= j < i ==> slots[j].block != block
      {
        if slots[i].block == block {
          var now := Ticks();
          slots[i] := slots[i].(lastAccess := now);
          PendingKept(old(slots[..]), slots[..], {});
          assert slots[..] == old(slots[..])[i := old(slots[i]).(lastAccess := now)];
          return i;
        }
      }
      return -1;
    }

    method ChooseVictim() returns (slot: nat)
      requires Valid()
      ensures slot < CACHE_SIZE && Evictable(slots[..], slot)
    {
      var minAccess := MAX_TICKS;
      slot := 0;
      for i := 0 to CACHE_SIZE
        invariant slot < CACHE_SIZE && (slot < i || slot == 0)
        invariant forall j :: 0 <= j < i ==> slots[j].block != 0 && minAccess <= slots[j].lastAccess
        invariant if slot < i && slots[slot].lastAccess < MAX_TICKS then minAccess == slots[slot].lastAccess
          else slot == 0 && minAccess == MAX_TICKS
        invariant forall j :: 0 <= j < slot ==> minAccess < slots[j].lastAccess
      {
        if slots[i].block == 0 {
          slot := i;
          break;
        }
        if slots[i].lastAccess < minAccess {
          minAccess := slots[i].lastAccess;
          slot := i;
        }
      }
    }

    /** Writes the slot's block back if it is dirty, as before its eviction. */
    method WriteBack(slot: nat)
      requires Valid() && slot < CACHE_SIZE
      modifies this`disk, this`wear, this`landed
      ensures Valid()
      ensures landed && 0 < slots[slot].block < MAX_BLOCKS ==> disk[slots[slot].block] == flat[slots[slot].block]
    {
      hide WearTarget;
      var victim := slots[slot];
      if victim.dirty && victim.block != 0 {
        var _ := WriteBlockRaw(victim.block, victim.data);
      }
    }

    /** Writes the slot's block back if it is dirty and reads `block` in over it. */
    method Replace(slot: nat, block: nat)
      requires Valid() && slot < CACHE_SIZE
      requires forall i :: 0 <= i < CACHE_SIZE ==> slots[i].block != block
      modifies this, slots
      ensures Valid() && flat == old(flat)
      ensures slots[slot].block == block
      ensures forall i :: 0 <= i < CACHE_SIZE && i != slot ==> slots[i] == old(slots[i])
    {
      WriteBack(slot);
      Fill(slot, block);
    }

    /** Reads `block` in over a slot that has been written back. */
    method Fill(slot: nat, block: nat)
      requires Valid() && slot < CACHE_SIZE
      requires landed && 0 < slots[slot].block < MAX_BLOCKS ==> disk[slots[slot].block] == flat[slots[slot].block]
      requires forall i :: 0 <= i < CACHE_SIZE ==> slots[i].block != block
      modifies this`landed, slots
      ensures Valid()
      ensures slots[slot].block == block
      ensures forall i :: 0 <= i < CACHE_SIZE && i != slot ==> slots[i] == old(slots[i])
    {
      hide Pending;
      NotPending(slots[..], block);
      var victim := slots[slot];
      var now := Ticks();
      var ok, data := ReadBlockRaw(block);
      slots[slot] := Slot(block, if ok then data else ZeroBlock(), false, now);
      PendingKept(old(slots[..]), slots[..], {victim.block});
    }

    /** The slot of `block`, read in from the device if it was not cached. */
    method AllocCache(block: nat) returns (slot: nat)
      requires Valid()
      modifies this, slots
      ensures Valid() && flat == old(flat)
      ensures slot < CACHE_SIZE && slots[slot].block == block
      ensures forall i :: 0 <= i < CACHE_SIZE && i != slot ==> slots[i] == old(slots[i])
      ensures if old(slots[slot]).block == block
              then slots[slot] == old(slots[slot]).(lastAccess := slots[slot].lastAccess)
              else Evictable(old(slots[..]), slot) && forall i :: 0 <= i < CACHE_SIZE ==> old(slots[i]).block != block
    {
      var found := FindCache(block);
      if found != -1 {
        return found;
      }
      slot := ChooseVictim();
      Replace(slot, block);
    }

    method ReadBlock(block: nat) returns (data: Block)
      requires Valid()
      modifies this, slots
      ensures Valid() && flat == old(flat)
      ensures landed && 0 < block < MAX_BLOCKS ==> data == flat[block]
    {
      var slot := AllocCache(block);
      return slots[slot].data;
    }

    method WriteBlock(block: nat, data: Block)
      requires Valid()
      modifies this, slots
      ensures Valid()
      ensures flat == if block < MAX_BLOCKS then old(flat)[block := data] else old(flat)
    {
      var slot := AllocCache(block);
      ghost var before := slots[..];
      slots[slot] := slots[slot].(data := data, dirty := true);
      PendingKept(before, slots[..], {});
      assert slots[..][slot].dirty;
      if block < MAX_BLOCKS {
        flat := flat[block := data];
      }
    }

    /** Writes the slot's block back if it is dirty. */
    method FlushSlot(slot: nat) returns (ok: bool)
      requires Valid() && slot < CACHE_SIZE
      modifies this, slots
      ensures Valid() && flat == old(flat)
      ensures ok ==> !old(slots[slot]).dirty || old(slots[slot]).block < MAX_BLOCKS
      ensures !ok ==> old(slots[slot]).dirty && (reliable ==> old(slots[slot]).block >= MAX_BLOCKS)
      ensures forall i :: 0 <= i < CACHE_SIZE && i != slot ==> slots[i] == old(slots[i])
      ensures ok && slots[slot].dirty ==> slots[slot].block == 0
    {
      hide WearTarget;
      var entry := slots[slot];
      if entry.dirty && entry.block != 0 {
        var written := WriteBlockRaw(entry.block, entry.data);
        if !written {
          return false;
        }
        slots[slot] := entry.(dirty := false);
        PendingKept(old(slots[..]), slots[..], {entry.block});
      }
      return true;
    }

    /** Writes every dirty block back; stops where that fails, as for a block number that the device does not have. */
    method FlushCache() returns (ok: bool)
      requires Valid()
      modifies this, slots
      ensures Valid() && flat == old(flat)
      ensures ok ==> forall i :: 0 <= i < CACHE_SIZE && old(slots[i]).dirty ==> old(slots[i]).block < MAX_BLOCKS
      ensures reliable && !ok ==>
        exists i :: 0 <= i < CACHE_SIZE && old(slots[i]).dirty && old(slots[i]).block >= MAX_BLOCKS
      ensures ok && landed ==> forall b :: 0 < b < MAX_BLOCKS ==> disk[b] == flat[b]
      ensures ok ==> forall i :: 0 <= i < CACHE_SIZE && slots[i].dirty ==> slots[i].block == 0
    {
      for i := 0 to CACHE_SIZE
        invariant Valid() && flat == old(flat)
        invariant forall j :: 0 <= j < i && slots[j].dirty ==> slots[j].block == 0
        invariant forall j :: 0 <= j < i && old(slots[j]).dirty ==> old(slots[j]).block < MAX_BLOCKS
        invariant forall j :: i <= j < CACHE_SIZE ==> slots[j] == old(slots[j])
      {
        var flushed := FlushSlot(i);
        if !flushed {
          return false;
        }
      }
      return true;
    }
  }
}
