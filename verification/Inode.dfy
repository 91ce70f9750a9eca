/** On-disk inodes: the 256 bytes of the packed structure that reach the inode table, and pointer blocks. */
module Inode {
  import opened Bytes
  import opened BlockCache

  const INODE_SIZE: nat := 256
  const INODES_PER_BLOCK: nat := 16
  const MAX_FILES: nat := 65536
  const DIRECT: nat := 12
  const POINTERS: nat := 512
  const MAX_FILE_BLOCKS: nat := 524

  datatype Inode = Inode(
    number: nat, kind: nat, flags: nat, mode: nat, uid: nat, gid: nat,
    size: nat, blocks: nat, created: nat, modified: nat, accessed: nat,
    linkCount: nat, checksum: nat,
    direct: seq<nat>, indirect: nat, doubleIndirect: nat, tripleIndirect: nat,
    xattrBlock: nat, xattrSize: nat, compression: nat, encryption: nat, tail: seq<byte>)

  /** Every field fits the width it has in the structure; `tail` is key_hash and what of `reserved` is copied. */
  ghost predicate Fits(i: Inode) {
    && i.number < U32 && i.kind < U32 && i.flags < U32 && i.mode < U32 && i.uid < U32 && i.gid < U32
    && i.size < U64 && i.blocks < U64 && i.created < U64 && i.modified < U64 && i.accessed < U64
    && i.linkCount < U32 && i.checksum < U32
    && |i.direct| == DIRECT && (forall k :: 0 <= k < DIRECT ==> i.direct[k] < U64)
    && i.indirect < U64 && i.doubleIndirect < U64 && i.tripleIndirect < U64
    && i.xattrBlock < U64 && i.xattrSize < U32 && i.compression < U32 && i.encryption < U32
    && |i.tail| == 44
  }

  /** What writing to the file may change of its inode. */
  ghost predicate Rewritten(a: Inode, b: Inode) {
    b == a.(direct := b.direct, indirect := b.indirect, size := b.size, blocks := b.blocks, modified := b.modified)
  }

  /** `values` stored one after the other, `width` bytes each. */
  function StoreAll(values: seq<nat>, width: nat): (bytes: seq<byte>)
    ensures |bytes| == width * |values|
  {
    if values == [] then [] else Store(values[0], width) + StoreAll(values[1..], width)
  }

  /** The `k`-th integer of `width` bytes. */
  function Field(bytes: seq<byte>, width: nat, k: nat): (value: nat)
    requires width * (k + 1) <= |bytes|
    ensures value < Pow256(width)
  {
    assert width * k + width == width * (k + 1);
    Load(bytes[width * k..width * k + width])
  }

  lemma ProductGrows(width: nat, a: nat, b: nat)
    requires a <= b
    ensures width * a <= width * b
  {
    assert width * b == width * a + width * (b - a);
  }

  lemma SliceOfSecond<T>(a: seq<T>, b: seq<T>, from: nat, length: nat)
    requires from + length <= |b|
    ensures (a + b)[|a| + from..|a| + from + length] == b[from..from + length]
  {
  }

  lemma {:induction false} FieldOfStoreAll(values: seq<nat>, width: nat, k: nat)
    requires k < |values|
    requires forall j :: 0 <= j < |values| ==> values[j] < Pow256(width)
    ensures width * (k + 1) <= |StoreAll(values, width)|
    ensures Field(StoreAll(values, width), width, k) == values[k]
  {
    hide Load, Store, Pow256;
    ProductGrows(width, k + 1, |values|);
    var bytes := StoreAll(values, width);
    if k == 0 {
      assert bytes[width * 0..width * 0 + width] == Store(values[0], width);
      LoadStore(values[0], width);
    } else {
      FieldOfStoreAll(values[1..], width, k - 1);
      assert width * k == width + width * (k - 1);
      SliceOfSecond(Store(values[0], width), StoreAll(values[1..], width), width * (k - 1), width);
    }
  }

  /** The structure in memory order: six words, five long words, two words, sixteen long words, three words, bytes. */
  function Encode(i: Inode): (bytes: seq<byte>)
    requires |i.direct| == DIRECT && |i.tail| == 44
    ensures |bytes| == INODE_SIZE
  {
    StoreAll([i.number, i.kind, i.flags, i.mode, i.uid, i.gid], 4)
    + StoreAll([i.size, i.blocks, i.created, i.modified, i.accessed], 8)
    + StoreAll([i.linkCount, i.checksum], 4)
    + StoreAll(i.direct + [i.indirect, i.doubleIndirect, i.tripleIndirect, i.xattrBlock], 8)
    + StoreAll([i.xattrSize, i.compression, i.encryption], 4)
    + i.tail
  }

  function Decode(bytes: seq<byte>): (i: Inode)
    requires |bytes| == INODE_SIZE
    ensures Fits(i)
  {
    Widths();
    var a, b, c, d, e := bytes[0..24], bytes[24..64], bytes[64..72], bytes[72..200], bytes[200..212];
    Inode(
      Field(a, 4, 0), Field(a, 4, 1), Field(a, 4, 2), Field(a, 4, 3), Field(a, 4, 4), Field(a, 4, 5),
      Field(b, 8, 0), Field(b, 8, 1), Field(b, 8, 2), Field(b, 8, 3), Field(b, 8, 4),
      Field(c, 4, 0), Field(c, 4, 1),
      seq(DIRECT, k requires 0 <= k < DIRECT => Field(d, 8, k)),
      Field(d, 8, 12), Field(d, 8, 13), Field(d, 8, 14), Field(d, 8, 15),
      Field(e, 4, 0), Field(e, 4, 1), Field(e, 4, 2), bytes[212..256])
  }

  lemma Sections<T>(a: seq<T>, b: seq<T>, c: seq<T>, d: seq<T>, e: seq<T>, f: seq<T>)
    requires |a| == 24 && |b| == 40 && |c| == 8 && |d| == 128 && |e| == 12 && |f| == 44
    ensures var all := a + b + c + d + e + f;
      all[0..24] == a && all[24..64] == b && all[64..72] == c && all[72..200] == d && all[200..212] == e &&
        all[212..256] == f
  {
  }

  /** The fields of `bytes` are `values`. */
  ghost predicate FieldIs(bytes: seq<byte>, width: nat, values: seq<nat>, k: nat)
    requires k < |values|
  {
    width * (k + 1) <= |bytes| && Field(bytes, width, k) == values[k]
  }

  lemma FieldsOfStoreAll(values: seq<nat>, width: nat)
    requires forall j :: 0 <= j < |values| ==> values[j] < Pow256(width)
    ensures forall k :: 0 <= k < |values| ==> FieldIs(StoreAll(values, width), width, values, k)
  {
    forall k | 0 <= k < |values|
      ensures FieldIs(StoreAll(values, width), width, values, k)
    {
      FieldOfStoreAll(values, width, k);
    }
  }

  lemma SixFields(v: seq<nat>, width: nat)
    requires |v| == 6 && forall j :: 0 <= j < 6 ==> v[j] < Pow256(width)
    ensures var b := StoreAll(v, width);
      && 6 * width <= |b| && Field(b, width, 0) == v[0] && Field(b, width, 1) == v[1] && Field(b, width, 2) == v[2]
      && Field(b, width, 3) == v[3] && Field(b, width, 4) == v[4] && Field(b, width, 5) == v[5]
  {
    FieldsOfStoreAll(v, width);
    assert FieldIs(StoreAll(v, width), width, v, 0) && FieldIs(StoreAll(v, width), width, v, 1) &&
      FieldIs(StoreAll(v, width), width, v, 2);
    assert FieldIs(StoreAll(v, width), width, v, 3) && FieldIs(StoreAll(v, width), width, v, 4) &&
      FieldIs(StoreAll(v, width), width, v, 5);
  }

  lemma FiveFields(v: seq<nat>, width: nat)
    requires |v| == 5 && forall j :: 0 <= j < 5 ==> v[j] < Pow256(width)
    ensures var b := StoreAll(v, width);
      && 5 * width <= |b| && Field(b, width, 0) == v[0] && Field(b, width, 1) == v[1] && Field(b, width, 2) == v[2]
      && Field(b, width, 3) == v[3] && Field(b, width, 4) == v[4]
  {
    FieldsOfStoreAll(v, width);
    assert FieldIs(StoreAll(v, width), width, v, 0) && FieldIs(StoreAll(v, width), width, v, 1) &&
      FieldIs(StoreAll(v, width), width, v, 2);
    assert FieldIs(StoreAll(v, width), width, v, 3) && FieldIs(StoreAll(v, width), width, v, 4);
  }

  lemma FewFields(v: seq<nat>, width: nat)
    requires 2 <= |v| <= 3 && forall j :: 0 <= j < |v| ==> v[j] < Pow256(width)
    ensures var b := StoreAll(v, width);
      2 * width <= |b| && Field(b, width, 0) == v[0] && Field(b, width, 1) == v[1]
    ensures |v| == 3 ==> var b := StoreAll(v, width); 3 * width <= |b| && Field(b, width, 2) == v[2]
  {
    FieldsOfStoreAll(v, width);
    assert FieldIs(StoreAll(v, width), width, v, 0) && FieldIs(StoreAll(v, width), width, v, 1);
    assert |v| == 3 ==> FieldIs(StoreAll(v, width), width, v, 2);
  }

  lemma PointerFields(direct: seq<nat>, rest: seq<nat>)
    requires |direct| == DIRECT && |rest| == 4
    requires (forall k :: 0 <= k < DIRECT ==> direct[k] < Pow256(8)) && forall k :: 0 <= k < 4 ==> rest[k] < Pow256(8)
    ensures var b := StoreAll(direct + rest, 8);
      && |b| == 128 && (forall k :: 0 <= k < DIRECT ==> Field(b, 8, k) == direct[k])
      && Field(b, 8, 12) == rest[0] && Field(b, 8, 13) == rest[1] && Field(b, 8, 14) == rest[2]
      && Field(b, 8, 15) == rest[3]
  {
    var v := direct + rest;
    FieldsOfStoreAll(v, 8);
    assert FieldIs(StoreAll(v, 8), 8, v, 12) && FieldIs(StoreAll(v, 8), 8, v, 13) &&
      FieldIs(StoreAll(v, 8), 8, v, 14) && FieldIs(StoreAll(v, 8), 8, v, 15);
    forall k | 0 <= k < DIRECT
      ensures Field(StoreAll(v, 8), 8, k) == direct[k]
    {
      assert FieldIs(StoreAll(v, 8), 8, v, k);
    }
  }

  lemma DecodeEncode(i: Inode)
    requires Fits(i)
    ensures Decode(Encode(i)) == i
  {
    Widths();
    hide Pow256, Store, Load;
    var va, vb, vc, vd, ve :=
      [i.number, i.kind, i.flags, i.mode, i.uid, i.gid],
      [i.size, i.blocks, i.created, i.modified, i.accessed],
      [i.linkCount, i.checksum],
      [i.indirect, i.doubleIndirect, i.tripleIndirect, i.xattrBlock],
      [i.xattrSize, i.compression, i.encryption];
    SixFields(va, 4);
    FiveFields(vb, 8);
    FewFields(vc, 4);
    PointerFields(i.direct, vd);
    FewFields(ve, 4);
    hide StoreAll, Field;
    Sections(StoreAll(va, 4), StoreAll(vb, 8), StoreAll(vc, 4), StoreAll(i.direct + vd, 8), StoreAll(ve, 4), i.tail);
    assert Decode(Encode(i)).direct == i.direct;
  }

  /** ((uint64_t*)block)[k] */
  function Pointer(block: Block, k: nat): (p: nat)
    requires k < POINTERS
    ensures p < U64
  {
    Widths();
    Field(block, 8, k)
  }

  function SetPointer(block: Block, k: nat, p: nat): (r: Block)
    requires k < POINTERS
  {
    Patch(block, 8 * k, Store(p, 8))
  }

  lemma PointerAfterSet(block: Block, k: nat, p: nat, j: nat)
    requires k < POINTERS && j < POINTERS && p < U64
    ensures Pointer(SetPointer(block, k, p), j) == if j == k then p else Pointer(block, j)
  {
    Widths();
    LoadStore(p, 8);
    var after := SetPointer(block, k, p);
    if j == k {
      assert after[8 * j..8 * j + 8] == Store(p, 8);
    } else {
      assert after[8 * j..8 * j + 8] == block[8 * j..8 * j + 8];
    }
  }

  lemma PointerOfZero(k: nat)
    requires k < POINTERS
    ensures Pointer(ZeroBlock(), k) == 0
  {
    LoadZeros(ZeroBlock()[8 * k..8 * k + 8]);
  }

  lemma {:induction false} LoadZeros(bytes: seq<byte>)
    requires forall i :: 0 <= i < |bytes| ==> bytes[i] == 0
    ensures Load(bytes) == 0
  {
    if bytes != [] {
      LoadZeros(bytes[1..]);
    }
  }
}
