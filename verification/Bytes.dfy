/** Disk bytes, and unsigned integers stored in them least significant byte first. */
module Bytes {
  newtype byte = b: int | 0 <= b < 256

  function Pow256(width: nat): (p: nat)
    ensures p > 0
  {
    if width == 0 then 1 else 256 * Pow256(width - 1)
  }

  /** The `width` low bytes of `value`, as a store through an unsigned integer pointer leaves them. */
  function Store(value: nat, width: nat): (bytes: seq<byte>)
    ensures |bytes| == width
  {
    if width == 0 then [] else [(value % 256) as byte] + Store(value / 256, width - 1)
  }

  function Load(bytes: seq<byte>): (value: nat)
    ensures value < Pow256(|bytes|)
  {
    if bytes == [] then 0 else bytes[0] as int + 256 * Load(bytes[1..])
  }

  lemma {:induction false} LoadStore(value: nat, width: nat)
    requires value < Pow256(width)
    ensures Load(Store(value, width)) == value
  {
    if width != 0 {
      LoadStore(value / 256, width - 1);
      assert Store(value, width)[1..] == Store(value / 256, width - 1);
    }
  }

  const U32: nat := 0x1_0000_0000
  const U64: nat := 0x1_0000_0000_0000_0000

  lemma Widths()
    ensures Pow256(4) == U32 && Pow256(8) == U64
  {
    assert Pow256(2) == 65536;
    assert Pow256(4) == 65536 * 65536;
    assert Pow256(6) == 65536 * 65536 * 65536;
  }

  /** `bytes` with `part` copied over it from `offset` on. */
  function Patch<T>(bytes: seq<T>, offset: nat, part: seq<T>): (r: seq<T>)
    requires offset + |part| <= |bytes|
    ensures |r| == |bytes|
    ensures forall i :: 0 <= i < |bytes| ==>
      r[i] == if offset <= i < offset + |part| then part[i - offset] else bytes[i]
  {
    bytes[..offset] + part + bytes[offset + |part|..]
  }
}
