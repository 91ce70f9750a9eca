/** Bitmaps as the file system and the frame allocator keep them: bit `n` of an array of bytes. */
module Bitmap {

  /** (byte >> i) & 1 */
  predicate TestBit(b: bv8, i: nat)
    requires i < 8
  {
    (b >> i) & 1 == 1
  }

  function SetBit(b: bv8, i: nat): bv8
    requires i < 8
  {
    b | (1 << i)
  }

  function ClearBit(b: bv8, i: nat): bv8
    requires i < 8
  {
    b & !(1 << i)
  }

  lemma TestAfterSetLow(b: bv8, i: nat, j: nat)
    requires i < 4 && j < 8
    ensures TestBit(SetBit(b, i), j) <==> i == j || TestBit(b, j)
  {
    match j
    case 0 | 1 | 2 | 3 =>
    case _ =>
  }

  lemma TestAfterSetHigh(b: bv8, i: nat, j: nat)
    requires 4 <= i < 8 && j < 8
    ensures TestBit(SetBit(b, i), j) <==> i == j || TestBit(b, j)
  {
    match j
    case 0 | 1 | 2 | 3 =>
    case _ =>
  }

  lemma TestAfterSet(b: bv8, i: nat, j: nat)
    requires i < 8 && j < 8
    ensures TestBit(SetBit(b, i), j) <==> i == j || TestBit(b, j)
  {
    hide TestBit, SetBit;
    if i < 4 {
      TestAfterSetLow(b, i, j);
    } else {
      TestAfterSetHigh(b, i, j);
    }
  }

  lemma TestAfterClearLow(b: bv8, i: nat, j: nat)
    requires i < 4 && j < 8
    ensures TestBit(ClearBit(b, i), j) <==> i != j && TestBit(b, j)
  {
    match j
    case 0 | 1 | 2 | 3 =>
    case _ =>
  }

  lemma TestAfterClearHigh(b: bv8, i: nat, j: nat)
    requires 4 <= i < 8 && j < 8
    ensures TestBit(ClearBit(b, i), j) <==> i != j && TestBit(b, j)
  {
    match j
    case 0 | 1 | 2 | 3 =>
    case _ =>
  }

  lemma TestAfterClear(b: bv8, i: nat, j: nat)
    requires i < 8 && j < 8
    ensures TestBit(ClearBit(b, i), j) <==> i != j && TestBit(b, j)
  {
    hide TestBit, ClearBit;
    if i < 4 {
      TestAfterClearLow(b, i, j);
    } else {
      TestAfterClearHigh(b, i, j);
    }
  }

  lemma AllOnes(b: bv8)
    ensures b == 0xFF <==> forall j: nat :: j < 8 ==> TestBit(b, j)
  {
    if forall j: nat :: j < 8 ==> TestBit(b, j) {
      assert TestBit(b, 0) && TestBit(b, 1) && TestBit(b, 2) && TestBit(b, 3);
      assert TestBit(b, 4) && TestBit(b, 5) && TestBit(b, 6) && TestBit(b, 7);
    }
  }

  /** The abstract value of a bitmap: one boolean per bit. */
  function Bits(bytes: seq<bv8>): (bits: seq<bool>)
    ensures |bits| == 8 * |bytes|
  {
    seq(8 * |bytes|, n requires 0 <= n < 8 * |bytes| => TestBit(bytes[n / 8], n % 8))
  }

  lemma BitInByte(bytes: seq<bv8>, i: nat, j: nat)
    requires i < |bytes| && j < 8
    ensures Bits(bytes)[8 * i + j] == TestBit(bytes[i], j)
  {
  }

  lemma FullByte(bytes: seq<bv8>, i: nat)
    requires i < |bytes|
    ensures bytes[i] == 0xFF <==> forall n :: 8 * i <= n < 8 * i + 8 ==> Bits(bytes)[n]
  {
    AllOnes(bytes[i]);
    forall n | 8 * i <= n < 8 * i + 8
      ensures Bits(bytes)[n] == TestBit(bytes[i], n - 8 * i)
    {
      BitInByte(bytes, i, n - 8 * i);
    }
    if j: nat :| j < 8 && !TestBit(bytes[i], j) {
      BitInByte(bytes, i, j);
    }
  }

  lemma BitsAfterSet(bytes: seq<bv8>, bit: nat)
    requires bit < 8 * |bytes|
    ensures Bits(bytes[bit / 8 := SetBit(bytes[bit / 8], bit % 8)]) == Bits(bytes)[bit := true]
  {
    var after := bytes[bit / 8 := SetBit(bytes[bit / 8], bit % 8)];
    forall n | 0 <= n < 8 * |bytes|
      ensures Bits(after)[n] == Bits(bytes)[bit := true][n]
    {
      TestAfterSet(bytes[bit / 8], bit % 8, n % 8);
      assert n == 8 * (n / 8) + n % 8 && bit == 8 * (bit / 8) + bit % 8;
    }
  }

  lemma BitsAfterClear(bytes: seq<bv8>, bit: nat)
    requires bit < 8 * |bytes|
    ensures Bits(bytes[bit / 8 := ClearBit(bytes[bit / 8], bit % 8)]) == Bits(bytes)[bit := false]
  {
    var after := bytes[bit / 8 := ClearBit(bytes[bit / 8], bit % 8)];
    forall n | 0 <= n < 8 * |bytes|
      ensures Bits(after)[n] == Bits(bytes)[bit := false][n]
    {
      TestAfterClear(bytes[bit / 8], bit % 8, n % 8);
      assert n == 8 * (n / 8) + n % 8 && bit == 8 * (bit / 8) + bit % 8;
    }
  }

  method Set(bitmap: array<bv8>, bit: nat)
    requires bit < 8 * bitmap.Length
    modifies bitmap
    ensures Bits(bitmap[..]) == old(Bits(bitmap[..]))[bit := true]
  {
    BitsAfterSet(bitmap[..], bit);
    ghost var before := bitmap[..];
    bitmap[bit / 8] := SetBit(bitmap[bit / 8], bit % 8);
    assert bitmap[..] == before[bit / 8 := SetBit(before[bit / 8], bit % 8)];
  }

  method Clear(bitmap: array<bv8>, bit: nat)
    requires bit < 8 * bitmap.Length
    modifies bitmap
    ensures Bits(bitmap[..]) == old(Bits(bitmap[..]))[bit := false]
  {
    BitsAfterClear(bitmap[..], bit);
    ghost var before := bitmap[..];
    bitmap[bit / 8] := ClearBit(bitmap[bit / 8], bit % 8);
    assert bitmap[..] == before[bit / 8 := ClearBit(before[bit / 8], bit % 8)];
  }

  /** Finds the lowest clear bit below `size`, sets it and returns it; -1 when all of them are set. */
  method FindFree(bitmap: array<bv8>, size: nat) returns (bit: int)
    requires size <= 8 * bitmap.Length
    modifies bitmap
    ensures bit == -1 || 0 <= bit < size
    ensures bit == -1 ==> bitmap[..] == old(bitmap[..]) && forall n :: 0 <= n < size ==> Bits(bitmap[..])[n]
    ensures bit != -1 ==> !old(Bits(bitmap[..]))[bit] && Bits(bitmap[..]) == old(Bits(bitmap[..]))[bit := true]
    ensures bit != -1 ==> forall n :: 0 <= n < bit ==> Bits(bitmap[..])[n]
  {
    var i := 0;
    while i < size
      invariant 0 <= i <= size
      invariant bitmap[..] == old(bitmap[..])
      invariant forall n :: 0 <= n < i ==> Bits(bitmap[..])[n]
    {
      if !TestBit(bitmap[i / 8], i % 8) {
        Set(bitmap, i);
        return i;
      }
      i := i + 1;
    }
    bit := -1;
  }

  /** How many bits are clear. */
  function CountClear(bits: seq<bool>): (count: nat)
    ensures count <= |bits|
  {
    if bits == [] then 0 else CountClear(bits[..|bits| - 1]) + (if bits[|bits| - 1] then 0 else 1)
  }

  lemma {:induction false} CountClearUpdate(bits: seq<bool>, bit: nat, value: bool)
    requires bit < |bits|
    ensures CountClear(bits[bit := value]) ==
      CountClear(bits) + (if bits[bit] == value then 0 else if value then -1 else 1)
  {
    var last := |bits| - 1;
    var after := bits[bit := value];
    if bit == last {
      assert after[..last] == bits[..last];
    } else {
      CountClearUpdate(bits[..last], bit, value);
      assert after[..last] == bits[..last][bit := value];
    }
  }

  lemma {:induction false} CountClearBehind(bits: seq<bool>, k: nat)
    requires k <= |bits| && (forall n :: 0 <= n < k ==> bits[n]) && (forall n :: k <= n < |bits| ==> !bits[n])
    ensures CountClear(bits) == |bits| - k
    decreases |bits|
  {
    if bits != [] {
      CountClearBehind(bits[..|bits| - 1], if k < |bits| then k else k - 1);
    }
  }

  lemma {:induction false} SomeClear(bits: seq<bool>)
    ensures CountClear(bits) > 0 <==> exists n :: 0 <= n < |bits| && !bits[n]
  {
    if bits != [] {
      var init := bits[..|bits| - 1];
      SomeClear(init);
      if n :| 0 <= n < |bits| && !bits[n] && n < |init| {
        assert !init[n];
      }
    }
  }
}
