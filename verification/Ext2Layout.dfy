/**
 The on-disk layout of the ext2 volume (kernel/fs/ext2.c): one block group of 4 KiB blocks
 holding a superblock, a group descriptor, two bitmaps, an inode table and data blocks.
 A `Vol` is the value the metadata blocks hold; `Represents` ties it to the bytes.
 */
module Ext2Layout {
  import opened Bytes
  import opened Bits

  const BS: nat := 4096
  const INODES: nat := 8192
  const INODE_SIZE: nat := 128
  const BLOCK_BITMAP: nat := 2
  const INODE_BITMAP: nat := 3
  const INODE_TABLE: nat := 4
  const INODE_TABLE_BLOCKS: nat := 256
  const FIRST_DATA: nat := 260
  const ROOT_INO: nat := 2
  const MAX_BLOCKS: nat := 32768            // bits in one bitmap block
  const INDIRECT_ENTRIES: nat := 1024
  const MAX_FILE_BLOCKS: nat := 12 + INDIRECT_ENTRIES
  const MAX_FILE_SIZE: nat := MAX_FILE_BLOCKS * BS
  const DIR_BIT: nat := 0x4000              // EXT2_DIR
  const FILE_MODE: nat := 0x8000            // EXT2_FILE

  // ------------------------------------------------------------------ inodes

  /** An inode. `times`, `flags` and `tail` are the bytes the driver carries but never reads. */
  datatype Inode = Inode(mode: nat, uid: nat, size: nat, times: seq<byte>, gid: nat, links: nat,
                         blocks: nat, flags: seq<byte>, block: seq<nat>, tail: seq<byte>) {
    predicate Fits() {
      && mode < 0x1_0000 && uid < 0x1_0000 && gid < 0x1_0000 && links < 0x1_0000
      && size < 0x1_0000_0000 && blocks < 0x1_0000_0000
      && |times| == 16 && |flags| == 8 && |tail| == 28
      && |block| == 15 && forall i :: 0 <= i < 15 ==> block[i] < 0x1_0000_0000
    }

    /** `mode & EXT2_DIR`. */
    predicate IsDir() { mode / DIR_BIT % 2 == 1 }
  }

  function Zeros(n: nat): (z: seq<byte>)
    ensures |z| == n && forall i :: 0 <= i < n ==> z[i] == 0
  {
    seq(n, _ => 0)
  }

  /** An inode of zero bytes. */
  function ZeroInode(): Inode {
    Inode(0, 0, 0, Zeros(16), 0, 0, 0, Zeros(8), seq(15, _ => 0), Zeros(28))
  }

  function Decode(b: seq<byte>): Inode
    requires |b| == INODE_SIZE
  {
    Inode(U16(b, 0), U16(b, 2), U32(b, 4), b[8..24], U16(b, 24), U16(b, 26), U32(b, 28), b[32..40],
          Words(b[40..100]), b[100..128])
  }

  function Encode(n: Inode): (b: seq<byte>)
    requires n.Fits()
    ensures |b| == INODE_SIZE
  {
    EncodeHead(n) + EncodeTail(n)
  }

  function EncodeHead(n: Inode): (b: seq<byte>)
    requires n.Fits()
    ensures |b| == 40
  {
    LeBytes(n.mode, 2) + LeBytes(n.uid, 2) + LeBytes(n.size, 4) + n.times + LeBytes(n.gid, 2) + LeBytes(n.links, 2)
    + LeBytes(n.blocks, 4) + n.flags
  }

  function EncodeTail(n: Inode): (b: seq<byte>)
    requires n.Fits()
    ensures |b| == 88
  {
    WordBytes(n.block) + n.tail
  }

  lemma HeadSlices(n: Inode)
    requires n.Fits()
    ensures var b := EncodeHead(n);
            && b[0..2] == LeBytes(n.mode, 2) && b[2..4] == LeBytes(n.uid, 2) && b[4..8] == LeBytes(n.size, 4)
            && b[8..24] == n.times && b[24..26] == LeBytes(n.gid, 2) && b[26..28] == LeBytes(n.links, 2)
            && b[28..32] == LeBytes(n.blocks, 4) && b[32..40] == n.flags
  {
    hide LeBytes;
  }

  /** An inode written to its slot reads back. */
  lemma InodeReadsBack(n: Inode)
    requires n.Fits()
    ensures Decode(Encode(n)) == n
  {
    hide LeBytes, Le, EncodeHead, WordBytes;
    var b, h, t := Encode(n), EncodeHead(n), EncodeTail(n);
    HeadSlices(n);
    SubSlices(h, t);
    Limits();
    LeRoundTrip(n.mode, 2);
    LeRoundTrip(n.uid, 2);
    LeRoundTrip(n.size, 4);
    LeRoundTrip(n.gid, 2);
    LeRoundTrip(n.links, 2);
    LeRoundTrip(n.blocks, 4);
    assert t[0..60] == WordBytes(n.block) && t[60..88] == n.tail;
    WordsRoundTrip(n.block);
  }

  lemma SubSlices(h: seq<byte>, t: seq<byte>)
    requires |h| == 40 && |t| == 88
    ensures var b := h + t;
            && b[0..2] == h[0..2] && b[2..4] == h[2..4] && b[4..8] == h[4..8] && b[8..24] == h[8..24]
            && b[24..26] == h[24..26] && b[26..28] == h[26..28] && b[28..32] == h[28..32] && b[32..40] == h[32..40]
            && b[40..100] == t[0..60] && b[100..128] == t[60..88]
  {
  }

  lemma {:induction false} LeZero(k: nat)
    ensures Le(seq(k, _ => 0)) == 0
  {
    if k > 0 {
      LeZero(k - 1);
      assert seq(k, _ => 0 as byte)[1..] == seq(k - 1, _ => 0 as byte);
    }
  }

  lemma ZeroDecodes()
    ensures Decode(Zeros(INODE_SIZE)) == ZeroInode() && ZeroInode().Fits() && !ZeroInode().IsDir()
  {
    hide Le;
    var z := Zeros(INODE_SIZE);
    LeZero(2);
    LeZero(4);
    assert z[0..2] == z[2..4] == z[24..26] == z[26..28] == seq(2, _ => 0);
    assert z[4..8] == z[28..32] == seq(4, _ => 0);
    var w := z[40..100];
    assert forall j :: 0 <= j < 60 ==> w[j] == 0;
    forall i | 0 <= i < 15 ensures Words(w)[i] == 0 { assert w[4 * i..4 * i + 4] == seq(4, _ => 0); }
    assert Words(w) == seq(15, _ => 0);
  }

  // ------------------------------------------------------------------ volume

  /**
   What a volume of `total` blocks holds: bitmap bits (bit `i` of the inode bitmap is inode `i + 1`), the
   free counts of superblock and group descriptor, the inode table, and the contents of every block.
   */
  datatype Vol = Vol(total: nat, used: seq<bool>, inodeUsed: seq<bool>, freeBlocks: nat, freeInodes: nat,
                     groupBlocks: nat, groupInodes: nat, groupDirs: nat, inodes: seq<Inode>, data: seq<seq<byte>>)

  ghost predicate Shape(disk: seq<seq<byte>>) {
    |disk| == MAX_BLOCKS && forall n :: 0 <= n < |disk| ==> |disk[n]| == BS
  }

  ghost predicate CountsAre(disk: seq<seq<byte>>, v: Vol)
    requires Shape(disk)
  {
    && U32(disk[0], 1036) == v.freeBlocks && U32(disk[0], 1040) == v.freeInodes
    && U16(disk[1], 12) == v.groupBlocks && U16(disk[1], 14) == v.groupInodes && U16(disk[1], 16) == v.groupDirs
  }

  /** The bytes of inode slot `i`. */
  function Slot(disk: seq<seq<byte>>, i: nat): (b: seq<byte>)
    requires INODE_TABLE + i / 32 < |disk| && |disk[INODE_TABLE + i / 32]| == BS
    ensures |b| == INODE_SIZE
  {
    disk[INODE_TABLE + i / 32][i % 32 * INODE_SIZE..i % 32 * INODE_SIZE + INODE_SIZE]
  }

  ghost predicate TableIs(disk: seq<seq<byte>>, inodes: seq<Inode>)
    requires Shape(disk)
  {
    |inodes| == INODES && forall i :: 0 <= i < INODES ==> Decode(Slot(disk, i)) == inodes[i]
  }

  ghost predicate DataIs(disk: seq<seq<byte>>, data: seq<seq<byte>>) {
    |data| == |disk| && forall n :: FIRST_DATA <= n < |disk| ==> disk[n] == data[n]
  }

  ghost predicate Represents(disk: seq<seq<byte>>, v: Vol) {
    && Shape(disk)
    && BitsAre(disk[BLOCK_BITMAP], v.used) && BitsAre(disk[INODE_BITMAP], v.inodeUsed)
    && CountsAre(disk, v) && TableIs(disk, v.inodes) && DataIs(disk, v.data)
  }

  // ------------------------------------------- what a single block write changes

  lemma WriteData(disk: seq<seq<byte>>, v: Vol, n: nat, b: seq<byte>)
    requires Represents(disk, v) && FIRST_DATA <= n < MAX_BLOCKS && |b| == BS
    ensures |v.data| == MAX_BLOCKS && Represents(disk[n := b], v.(data := v.data[n := b]))
  {
    hide Decode, BitsAre, U16, U32;
    var d := disk[n := b];
    assert forall i :: 0 <= i < INODES ==> Slot(d, i) == Slot(disk, i);
  }

  lemma WriteBlockBits(disk: seq<seq<byte>>, v: Vol, b: seq<byte>, bits: seq<bool>)
    requires Represents(disk, v) && |b| == BS && BitsAre(b, bits)
    ensures Represents(disk[BLOCK_BITMAP := b], v.(used := bits))
  {
    hide Decode, BitsAre, U16, U32;
    var d := disk[BLOCK_BITMAP := b];
    assert forall i :: 0 <= i < INODES ==> Slot(d, i) == Slot(disk, i);
  }

  lemma WriteInodeBits(disk: seq<seq<byte>>, v: Vol, b: seq<byte>, bits: seq<bool>)
    requires Represents(disk, v) && |b| == BS && BitsAre(b, bits)
    ensures Represents(disk[INODE_BITMAP := b], v.(inodeUsed := bits))
  {
    hide Decode, BitsAre, U16, U32;
    var d := disk[INODE_BITMAP := b];
    assert forall i :: 0 <= i < INODES ==> Slot(d, i) == Slot(disk, i);
  }

  lemma WriteCounts(disk: seq<seq<byte>>, v: Vol, b0: seq<byte>, b1: seq<byte>, v': Vol)
    requires Represents(disk, v) && |b0| == BS && |b1| == BS
    requires v' == v.(freeBlocks := v'.freeBlocks, freeInodes := v'.freeInodes,
                      groupBlocks := v'.groupBlocks, groupInodes := v'.groupInodes, groupDirs := v'.groupDirs)
    requires U32(b0, 1036) == v'.freeBlocks && U32(b0, 1040) == v'.freeInodes
    requires U16(b1, 12) == v'.groupBlocks && U16(b1, 14) == v'.groupInodes && U16(b1, 16) == v'.groupDirs
    ensures Represents(disk[0 := b0][1 := b1], v')
  {
    hide Decode, BitsAre, U16, U32;
    var d := disk[0 := b0][1 := b1];
    assert forall i :: 0 <= i < INODES ==> Slot(d, i) == Slot(disk, i);
  }

  /** Writing the bytes of one inode slot changes that inode and nothing else. */
  lemma WriteSlot(disk: seq<seq<byte>>, v: Vol, i: nat, bytes: seq<byte>)
    requires Represents(disk, v) && i < INODES && |bytes| == INODE_SIZE
    ensures var k := INODE_TABLE + i / 32;
            Represents(disk[k := Overwrite(disk[k], i % 32 * INODE_SIZE, bytes)],
                v.(inodes := v.inodes[i := Decode(bytes)]))
  {
    hide Decode, BitsAre, U16, U32, Overwrite;
    var k := INODE_TABLE + i / 32;
    var d := disk[k := Overwrite(disk[k], i % 32 * INODE_SIZE, bytes)];
    OverwriteRead(disk[k], i % 32 * INODE_SIZE, bytes);
    forall j | 0 <= j < INODES && j != i ensures Slot(d, j) == Slot(disk, j) { OtherSlot(disk, i, bytes, j); }
  }

  lemma OtherSlot(disk: seq<seq<byte>>, i: nat, bytes: seq<byte>, j: nat)
    requires Shape(disk) && i < INODES && j < INODES && i != j && |bytes| == INODE_SIZE
    ensures var k := INODE_TABLE + i / 32;
            Slot(disk[k := Overwrite(disk[k], i % 32 * INODE_SIZE, bytes)], j) == Slot(disk, j)
  {
    hide Overwrite;
    var k := INODE_TABLE + i / 32;
    if j / 32 == i / 32 {
      assert j % 32 != i % 32;
      OverwriteFrame(disk[k], i % 32 * INODE_SIZE, bytes, j % 32 * INODE_SIZE, j % 32 * INODE_SIZE + INODE_SIZE);
    }
  }

  lemma WriteInode(disk: seq<seq<byte>>, v: Vol, i: nat, n: Inode)
    requires Represents(disk, v) && i < INODES && n.Fits()
    ensures var k := INODE_TABLE + i / 32;
            Represents(disk[k := Overwrite(disk[k], i % 32 * INODE_SIZE, Encode(n))], v.(inodes := v.inodes[i := n]))
  {
    hide Represents, Decode, Overwrite, Encode, Inode.Fits;
    WriteSlot(disk, v, i, Encode(n));
    InodeReadsBack(n);
  }
}
