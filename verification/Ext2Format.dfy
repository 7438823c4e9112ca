/**
 What ext2_format writes (kernel/fs/ext2.c): the superblock and group descriptor, two bitmaps, a
 zero inode table and the root directory; and why the resulting volume satisfies the invariant.
 */
module Ext2Format {
  import opened Bytes
  import opened Bits
  import opened Ext2Layout
  import opened Ext2Dir
  import opened Ext2Volume

  const MAGIC: nat := 0xef53

  /** The inode of a directory in block `x`: mode 040755, two links, one block. */
  function DirInode(x: nat): Inode {
    ZeroInode().(mode := 0x41ED, links := 2, size := BS, blocks := 8, block := seq(15, k => if k == 0 then x else 0))
  }

  lemma DirInodeFits(x: nat)
    requires x < MAX_BLOCKS
    ensures DirInode(x).Fits() && DirInode(x).IsDir() && OneBlock(DirInode(x), x)
  {
  }

  // ------------------------------------------------------ superblock and group

  function SuperHead(total: nat): (b: seq<byte>)
    requires FIRST_DATA < total
    ensures |b| == BS
  {
    var b := W32(W32(Zeros(BS), 1024, INODES), 1028, total);
    var b := W32(W32(b, 1036, total - (FIRST_DATA + 1)), 1040, INODES - 10);
    W32(W32(W32(b, 1044, 0), 1048, 2), 1052, 2)
  }

  function SuperBlock(total: nat): (b: seq<byte>)
    requires FIRST_DATA < total
    ensures |b| == BS
  {
    var b := W32(W32(W32(SuperHead(total), 1056, MAX_BLOCKS), 1060, MAX_BLOCKS), 1064, INODES);
    var b := W16(W16(W16(b, 1080, MAGIC), 1082, 1), 1084, 1);
    W32(W16(W32(W32(b, 1100, 1), 1108, 11), 1112, INODE_SIZE), 1120, 2)
  }

  function GroupBlock(total: nat): (b: seq<byte>)
    requires FIRST_DATA < total
    ensures |b| == BS
  {
    var b := W32(W32(W32(Zeros(BS), 0, BLOCK_BITMAP), 4, INODE_BITMAP), 8, INODE_TABLE);
    W16(W16(W16(b, 12, total - FIRST_DATA - 1), 14, INODES - 10), 16, 1)
  }

  /** ext2_probe's test of the superblock. */
  predicate ProbeOk(b: seq<byte>)
    requires |b| == BS
  {
    U16(b, 1080) == MAGIC && U32(b, 1048) == 2 && U16(b, 1112) == INODE_SIZE
  }

  lemma After32(b: seq<byte>, o: nat, v: nat)
    requires o + 4 <= |b| && v < 0x1_0000_0000
    ensures U32(W32(b, o, v), o) == v
    ensures forall p {:trigger U32(W32(b, o, v), p)} ::
              0 <= p && p + 4 <= |b| && (p + 4 <= o || o + 4 <= p) ==> U32(W32(b, o, v), p) == U32(b, p)
    ensures forall p {:trigger U16(W32(b, o, v), p)} ::
              0 <= p && p + 2 <= |b| && (p + 2 <= o || o + 4 <= p) ==> U16(W32(b, o, v), p) == U16(b, p)
  {
    hide U32, W32, U16;
    W32Reads(b, o, v);
    forall p | 0 <= p && p + 4 <= |b| && (p + 4 <= o || o + 4 <= p) ensures U32(W32(b, o, v), p) == U32(b, p)
      { U32Kept(b, o, v, p); }
    forall p | 0 <= p && p + 2 <= |b| && (p + 2 <= o || o + 4 <= p) ensures U16(W32(b, o, v), p) == U16(b, p)
      { W32Frame(b, o, v, p, p + 2); SameHalf(W32(b, o, v), b, p); }
  }

  lemma After16(b: seq<byte>, o: nat, v: nat)
    requires o + 2 <= |b| && v < 0x1_0000
    ensures U16(W16(b, o, v), o) == v
    ensures forall p {:trigger U32(W16(b, o, v), p)} ::
              0 <= p && p + 4 <= |b| && (p + 4 <= o || o + 2 <= p) ==> U32(W16(b, o, v), p) == U32(b, p)
    ensures forall p {:trigger U16(W16(b, o, v), p)} ::
              0 <= p && p + 2 <= |b| && (p + 2 <= o || o + 2 <= p) ==> U16(W16(b, o, v), p) == U16(b, p)
  {
    hide U32, W16, U16;
    W16Reads(b, o, v);
    forall p | 0 <= p && p + 4 <= |b| && (p + 4 <= o || o + 2 <= p) ensures U32(W16(b, o, v), p) == U32(b, p)
      { W16Frame(b, o, v, p, p + 4); SameWord(W16(b, o, v), b, p); }
    forall p | 0 <= p && p + 2 <= |b| && (p + 2 <= o || o + 2 <= p) ensures U16(W16(b, o, v), p) == U16(b, p)
      { W16Frame(b, o, v, p, p + 2); SameHalf(W16(b, o, v), b, p); }
  }

  lemma ZeroWord(o: nat)
    requires o + 4 <= BS
    ensures U32(Zeros(BS), o) == 0
  {
    hide Le;
    LeZero(4);
    assert Zeros(BS)[o..o + 4] == seq(4, _ => 0);
  }

  lemma HeadReads(total: nat)
    requires FIRST_DATA < total <= MAX_BLOCKS
    ensures var b := SuperHead(total);
            && U32(b, 1024) == 8192 && U32(b, 1028) == total && U32(b, 1036) == total - 261 && U32(b, 1040) == 8182
            && U32(b, 1044) == 0 && U32(b, 1048) == 2 && U32(b, 1052) == 2 && U32(b, 1116) == 0
  {
    hide U32, W32, U16, Zeros;
    ZeroWord(1116);
    After32(Zeros(BS), 1024, INODES);
    After32(W32(Zeros(BS), 1024, INODES), 1028, total);
    var b0 := W32(W32(Zeros(BS), 1024, INODES), 1028, total);
    After32(b0, 1036, total - (FIRST_DATA + 1));
    var b1 := W32(b0, 1036, total - (FIRST_DATA + 1));
    After32(b1, 1040, INODES - 10);
    var b2 := W32(b1, 1040, INODES - 10);
    After32(b2, 1044, 0);
    After32(W32(b2, 1044, 0), 1048, 2);
    After32(W32(W32(b2, 1044, 0), 1048, 2), 1052, 2);
  }

  /**
   The superblock at byte 1024 of block 0, field by field: inodes, blocks, free blocks and inodes, first data block,
   block size 4096 twice, blocks and inodes per group, magic number, state, errors, revision, first inode, inode size.
   */
  predicate SuperFields(b: seq<byte>, total: nat) {
    && |b| == 4096 && total >= 261
    && U32(b, 1024) == 8192 && U32(b, 1028) == total && U32(b, 1036) == total - 261 && U32(b, 1040) == 8182
    && U32(b, 1044) == 0 && U32(b, 1048) == 2 && U32(b, 1052) == 2
    && U32(b, 1056) == 32768 && U32(b, 1060) == 32768 && U32(b, 1064) == 8192
    && U16(b, 1080) == 0xef53 && U16(b, 1082) == 1 && U16(b, 1084) == 1
    && U32(b, 1100) == 1 && U32(b, 1108) == 11 && U16(b, 1112) == 128 && U32(b, 1120) == 2
  }

  lemma SuperReads(total: nat)
    requires FIRST_DATA < total <= MAX_BLOCKS
    ensures var b := SuperBlock(total); SuperFields(b, total) && ProbeOk(b) && U32(b, 1116) == 0
  {
    hide U32, W32, U16, W16, SuperHead;
    HeadReads(total);
    var b0 := SuperHead(total);
    After32(b0, 1056, MAX_BLOCKS);
    var b1 := W32(b0, 1056, MAX_BLOCKS);
    After32(b1, 1060, MAX_BLOCKS);
    var b2 := W32(b1, 1060, MAX_BLOCKS);
    After32(b2, 1064, INODES);
    var b3 := W32(b2, 1064, INODES);
    After16(b3, 1080, MAGIC);
    var b4 := W16(b3, 1080, MAGIC);
    After16(b4, 1082, 1);
    var b5 := W16(b4, 1082, 1);
    After16(b5, 1084, 1);
    var b6 := W16(b5, 1084, 1);
    After32(b6, 1100, 1);
    var b7 := W32(b6, 1100, 1);
    After32(b7, 1108, 11);
    var b8 := W32(b7, 1108, 11);
    After16(b8, 1112, INODE_SIZE);
    After32(W16(b8, 1112, INODE_SIZE), 1120, 2);
  }

  lemma GroupReads(total: nat)
    requires FIRST_DATA < total <= MAX_BLOCKS
    ensures var b := GroupBlock(total);
            && U32(b, 0) == 2 && U32(b, 4) == 3 && U32(b, 8) == 4
            && U16(b, 12) == total - 261 && U16(b, 14) == 8182 && U16(b, 16) == 1
  {
    hide U32, W32, U16, W16, Zeros;
    var b0 := W32(Zeros(BS), 0, BLOCK_BITMAP);
    After32(Zeros(BS), 0, BLOCK_BITMAP);
    After32(b0, 4, INODE_BITMAP);
    After32(W32(b0, 4, INODE_BITMAP), 8, INODE_TABLE);
    var b := W32(W32(b0, 4, INODE_BITMAP), 8, INODE_TABLE);
    After16(b, 12, total - FIRST_DATA - 1);
    var b1 := W16(b, 12, total - FIRST_DATA - 1);
    After16(b1, 14, INODES - 10);
    After16(W16(b1, 14, INODES - 10), 16, 1);
  }

  // ------------------------------------------------------------------- bitmaps

  /** `bits` with those of `[lo, hi)` set. */
  function SetRange(bits: seq<bool>, lo: nat, hi: nat): (r: seq<bool>)
    ensures |r| == |bits|
  {
    seq(|bits|, i requires 0 <= i < |bits| => bits[i] || lo <= i < hi)
  }

  function NoBits(): (r: seq<bool>)
    ensures |r| == MAX_BLOCKS && forall i :: 0 <= i < MAX_BLOCKS ==> !r[i]
  {
    seq(MAX_BLOCKS, _ => false)
  }

  lemma SetRangeStep(bits: seq<bool>, lo: nat, i: nat)
    requires lo <= i < |bits|
    ensures SetRange(bits, lo, i)[i := true] == SetRange(bits, lo, i + 1) && SetRange(bits, lo, lo) == bits
  {
  }

  /** Setting a range of clear bits leaves that many fewer clear. */
  lemma {:induction false} ClearSetRange(bits: seq<bool>, lo: nat, hi: nat)
    requires lo <= hi <= |bits| && forall i :: lo <= i < hi ==> !bits[i]
    ensures Clear(SetRange(bits, lo, hi)) == Clear(bits) - (hi - lo)
    decreases hi
  {
    hide Clear;
    if lo == hi {
      assert SetRange(bits, lo, hi) == bits;
    } else {
      ClearSetRange(bits, lo, hi - 1);
      SetRangeStep(bits, lo, hi - 1);
      ClearFlip(SetRange(bits, lo, hi - 1), hi - 1, true);
    }
  }

  lemma {:induction false} AllClear(bits: seq<bool>)
    requires forall i :: 0 <= i < |bits| ==> !bits[i]
    ensures Clear(bits) == |bits|
  {
    if bits != [] { AllClear(bits[1..]); }
  }

  function BlockBits(total: nat): (r: seq<bool>)
    ensures |r| == MAX_BLOCKS
  {
    SetRange(SetRange(NoBits(), 0, FIRST_DATA + 1), total, MAX_BLOCKS)
  }

  function InodeBits(): (r: seq<bool>)
    ensures |r| == MAX_BLOCKS
  {
    SetRange(SetRange(NoBits(), 0, 10), INODES, MAX_BLOCKS)
  }

  /** Two reserved ranges, everything between them free. */
  lemma ReservedCount(first: nat, limit: nat)
    requires first <= limit <= MAX_BLOCKS
    ensures Clear(SetRange(SetRange(NoBits(), 0, first), limit, MAX_BLOCKS)) == limit - first
  {
    hide Clear;
    AllClear(NoBits());
    ClearSetRange(NoBits(), 0, first);
    ClearSetRange(SetRange(NoBits(), 0, first), limit, MAX_BLOCKS);
  }

  // -------------------------------------------------------- the formatted volume

  function EmptyTable(): (t: seq<Inode>)
    ensures |t| == INODES
  {
    seq(INODES, _ => ZeroInode())
  }

  /** The volume before the root directory is written. */
  function Blank(total: nat, data: seq<seq<byte>>): Vol
    requires FIRST_DATA < total
  {
    Vol(total, BlockBits(total), InodeBits(), total - (FIRST_DATA + 1), INODES - 10, total - FIRST_DATA - 1,
        INODES - 10, 1, EmptyTable(), data)
  }

  /** The volume ext2_format leaves. */
  function Formatted(total: nat, data: seq<seq<byte>>): Vol
    requires FIRST_DATA < total && |data| == MAX_BLOCKS
  {
    Blank(total, data).(inodes := EmptyTable()[ROOT_INO - 1 := DirInode(FIRST_DATA)],
                        data := data[FIRST_DATA := NewDir(ROOT_INO, ROOT_INO)])
  }

  lemma BlankShaped(total: nat, data: seq<seq<byte>>)
    requires FIRST_DATA + 1 < total <= MAX_BLOCKS && |data| == MAX_BLOCKS && forall n ::
               0 <= n < MAX_BLOCKS ==> |data[n]| == BS
    ensures Shaped(Blank(total, data)) && Counted(Blank(total, data))
  {
    hide Clear, ZeroInode;
    ZeroDecodes();
    ReservedCount(FIRST_DATA + 1, total);
    ReservedCount(10, INODES);
  }

  lemma FormattedShaped(total: nat, data: seq<seq<byte>>)
    requires FIRST_DATA + 1 < total <= MAX_BLOCKS && |data| == MAX_BLOCKS && forall n ::
               0 <= n < MAX_BLOCKS ==> |data[n]| == BS
    ensures Shaped(Formatted(total, data)) && Counted(Formatted(total, data))
  {
    hide Clear, ZeroInode, Blank, NewDir, DirInode, Counted, BlockBits, InodeBits;
    BlankShaped(total, data);
    DirInodeFits(FIRST_DATA);
    CountedSame(Blank(total, data), Formatted(total, data));
  }

  /** Before any store, only the root directory exists, and only `.` and `..` are bound, both to it. */
  lemma FormattedFinds(total: nat, data: seq<seq<byte>>)
    requires FIRST_DATA + 1 < total <= MAX_BLOCKS && |data| == MAX_BLOCKS && forall n ::
               0 <= n < MAX_BLOCKS ==> |data[n]| == BS
    ensures Shaped(Formatted(total, data)) && DirsOk(Formatted(total, data))
    ensures forall d, nm :: Find(Formatted(total, data), d, nm) == if d == ROOT_INO && Dotted(nm) then ROOT_INO else 0
  {
    hide ZeroInode, NewDir, DirInode, Counted, Tiled, Good, Entries, Lookup, Inode.IsDir, BlockBits, InodeBits, Blank;
    FormattedShaped(total, data);
    var v := Formatted(total, data);
    BlankTotal(total, data);
    DirInodeFits(FIRST_DATA);
    ZeroDecodes();
    NewDirEntries(ROOT_INO, ROOT_INO);
    forall d | ValidIno(d) && d != ROOT_INO ensures At(v, d) == ZeroInode() { }
    forall nm ensures Lookup(Entries(NewDir(ROOT_INO, ROOT_INO), 0), nm) == if Dotted(nm) then ROOT_INO else 0 {
      NewDirLookup(ROOT_INO, ROOT_INO, nm);
    }
  }

  lemma BlankTotal(total: nat, data: seq<seq<byte>>)
    requires FIRST_DATA < total
    ensures Blank(total, data).total == total
  {
  }

  /** ext2_format establishes the invariant. */
  lemma FormattedInv(total: nat, data: seq<seq<byte>>)
    requires FIRST_DATA + 1 < total <= MAX_BLOCKS && |data| == MAX_BLOCKS && forall n ::
               0 <= n < MAX_BLOCKS ==> |data[n]| == BS
    ensures Inv(Formatted(total, data))
  {
    hide ZeroInode, NewDir, DirInode, Counted, Tiled, Good, Entries, Lookup, Find, DirsOk, NoRepeat, Raw, Owned,
         SetRange;
    FormattedShaped(total, data);
    FormattedFinds(total, data);
    var v := Formatted(total, data);
    DirInodeFits(FIRST_DATA);
    RootOwns(v);
    forall i | 0 <= i < INODES && i != ROOT_INO - 1 ensures v.inodes[i] == ZeroInode() { }
    RootNamed(v);
    assert FreeZero(v) by { RootUsed(v.inodeUsed); }
  }

  lemma RootUsed(bits: seq<bool>)
    requires bits == InodeBits()
    ensures bits[ROOT_INO - 1]
  {
  }

  lemma RootOwns(v: Vol)
    requires Shaped(v) && OneBlock(v.inodes[ROOT_INO - 1], FIRST_DATA) && v.used == BlockBits(v.total)
    requires forall i :: 0 <= i < INODES && i != ROOT_INO - 1 ==> v.inodes[i] == ZeroInode()
    ensures AllOwnWell(v) && Apart(v)
  {
    hide Raw, Owned, NoRepeat, ZeroInode, NoBits;
    NewOwnsWell(v, v.inodes[ROOT_INO - 1], FIRST_DATA);
    NoOwner(v);
    forall i | 0 <= i < INODES ensures OwnsWell(v, v.inodes[i]) { }
  }

  lemma NoOwner(v: Vol)
    requires Shaped(v)
    ensures OwnsWell(v, ZeroInode()) && Owned(v.data, ZeroInode()) == {}
  {
  }

  lemma RootNamed(v: Vol)
    requires Shaped(v) && DirsOk(v) && v.inodeUsed == InodeBits()
    requires forall d, nm :: Find(v, d, nm) == if d == ROOT_INO && Dotted(nm) then ROOT_INO else 0
    ensures RefsOk(v) && RefsUnique(v)
  {
    hide Find, DirOk, Inode.IsDir, NoBits;
    forall d, nm ensures RefOk(v, d, nm) { }
    assert Tree(v, {ROOT_INO}) by {
      forall nm ensures TreeRef(v, {ROOT_INO}, ROOT_INO, nm) { }
    }
  }

  // ------------------------------------------------------- what the blocks hold

  /** An all-zero inode table decodes to zero inodes. */
  lemma ZeroTable(disk: seq<seq<byte>>)
    requires Shape(disk) && forall k :: INODE_TABLE <= k < FIRST_DATA ==> disk[k] == Zeros(BS)
    ensures TableIs(disk, EmptyTable())
  {
    hide Decode, ZeroInode;
    ZeroDecodes();
    forall i | 0 <= i < INODES ensures Decode(Slot(disk, i)) == ZeroInode() {
      assert disk[INODE_TABLE + i / 32] == Zeros(BS);
      assert Slot(disk, i) == Zeros(INODE_SIZE);
    }
  }

  lemma BlankHeld(disk: seq<seq<byte>>, total: nat)
    requires Shape(disk) && FIRST_DATA + 1 < total <= MAX_BLOCKS
    requires disk[0] == SuperBlock(total) && disk[1] == GroupBlock(total)
    requires BitsAre(disk[BLOCK_BITMAP], BlockBits(total)) && BitsAre(disk[INODE_BITMAP], InodeBits())
    requires forall k :: INODE_TABLE <= k < FIRST_DATA ==> disk[k] == Zeros(BS)
    ensures Represents(disk, Blank(total, disk)) && Shaped(Blank(total, disk))
  {
    hide U16, U32, SuperBlock, GroupBlock, BitsAre, Decode, BlockBits, InodeBits, EmptyTable, Counted, Shaped, TableIs;
    SuperReads(total);
    GroupReads(total);
    ZeroTable(disk);
    BlankShaped(total, disk);
  }
}
