/**
 The journal that ext_variant_format adds for levels 3 and 4 (kernel/fs/ext_variant.c): 1024 blocks
 and an indirect block reserved behind the root directory, mapped by the reserved inode 8. The edits
 go straight to the disk, without the driver's check against the size of the volume.
 */
module Ext2Journal {
  import opened Bytes
  import opened Bits
  import opened Ext2Layout
  import opened Ext2Dir
  import opened Ext2Volume
  import opened Ext2Files
  import opened Ext2Paths
  import opened Ext2Store
  import opened Ext2Format
  import opened Ext2Disk
  import opened Ext2Outcome
  import opened Ext2

  const JOURNAL_FIRST: nat := 261
  const JOURNAL_BLOCKS: nat := 1024
  const JOURNAL_INDIRECT: nat := 1285
  const JOURNAL_INO: nat := 8

  // --------------------------------------------------------------- the new state

  /** The blocks of the journal, in order. */
  function JournalList(): (fb: seq<nat>)
    ensures |fb| == JOURNAL_BLOCKS && forall i :: 0 <= i < JOURNAL_BLOCKS ==> fb[i] == JOURNAL_FIRST + i
  {
    seq(JOURNAL_BLOCKS, i => JOURNAL_FIRST + i)
  }

  /** Inode 8: mode 0100600, one link, twelve direct blocks and the indirect block. */
  function JournalInode(): Inode {
    ZeroInode().(mode := 0x8180, links := 1, size := JOURNAL_BLOCKS * BS, blocks := (JOURNAL_BLOCKS + 1) * 8,
                 block := seq(15, k => if k < 12 then JOURNAL_FIRST + k else if k == 12 then JOURNAL_INDIRECT else 0))
  }

  lemma JournalInodeIs()
    ensures JournalInode().Fits() && !JournalInode().IsDir() && Filled(JournalInode(), JournalList(), JOURNAL_INDIRECT)
  {
  }

  /** The volume add_journal leaves; `blocks` gives the new contents of the journal's blocks. */
  ghost predicate Journaled(v: Vol, v': Vol) {
    && Shaped(v) && Shaped(v')
    && v' == v.(used := SetRange(v.used, JOURNAL_FIRST, JOURNAL_INDIRECT + 1),
                freeBlocks := Wrap32(v.freeBlocks - (JOURNAL_BLOCKS + 1)),
                    groupBlocks := Wrap16(v.groupBlocks - (JOURNAL_BLOCKS + 1)),
                inodes := v.inodes[JOURNAL_INO - 1 := JournalInode()], data := v'.data)
    && Lists(v'.data[JOURNAL_INDIRECT], JournalList())
    && (forall x :: JOURNAL_FIRST < x < JOURNAL_INDIRECT ==> v'.data[x] == Zeros(BS))
    && (forall x :: 0 <= x < JOURNAL_FIRST || JOURNAL_INDIRECT < x < MAX_BLOCKS ==> v'.data[x] == v.data[x])
  }

  lemma JournalMapped(v: Vol, v': Vol)
    requires Journaled(v, v')
    ensures Mapped(v'.data, JournalInode(), JournalList(), JOURNAL_INDIRECT)
  {
    hide JournalInode, SetRange;
    JournalInodeIs();
  }

  /** Block `i` of inode 8 is block 261 + i of the volume, provided the indirect block is inside it. */
  lemma JournalBlocks(v: Vol, v': Vol, i: nat)
    requires Journaled(v, v') && JOURNAL_INDIRECT < v.total && i < JOURNAL_BLOCKS
    ensures FileBlock(v', At(v', JOURNAL_INO), i) == JOURNAL_FIRST + i
  {
    hide U32, SetRange, JournalInode;
    JournalMapped(v, v');
    assert i >= 12 ==> Words(v'.data[JOURNAL_INDIRECT])[i - 12] == JournalList()[i];
  }

  lemma JournalOwned(v: Vol, v': Vol)
    requires Journaled(v, v')
    ensures NoRepeat(Raw(v'.data, JournalInode()))
    ensures forall x :: x in Owned(v'.data, JournalInode()) <==> JOURNAL_FIRST <= x <= JOURNAL_INDIRECT
  {
    hide Raw, Mapped, SetRange, JournalInode, Shaped;
    JournalMapped(v, v');
    var fb := JournalList();
    MappedOwned(v'.data, JournalInode(), fb, JOURNAL_INDIRECT);
    assert Owned(v'.data, JournalInode()) == Blocks(fb, JOURNAL_INDIRECT);
    forall x | JOURNAL_FIRST <= x < JOURNAL_INDIRECT ensures x in Nonzero(fb) { assert fb[x - JOURNAL_FIRST] == x; }
  }

  // ------------------------------------------------------------------ invariant

  lemma JournalCounted(v: Vol, v': Vol)
    requires Counted(v) && Journaled(v, v') && forall x :: JOURNAL_FIRST <= x <= JOURNAL_INDIRECT ==> !v.used[x]
    ensures Counted(v')
  {
    hide Clear, JournalInode, Lists, Shaped;
    ClearSetRange(v.used, JOURNAL_FIRST, JOURNAL_INDIRECT + 1);
    ClearBound(v.used);
  }

  /** On any volume whose journal blocks are free and inside it, the journal keeps the invariant. */
  lemma JournalKeeps(v: Vol, v': Vol)
    requires Inv(v) && Journaled(v, v') && JOURNAL_INDIRECT < v.total && At(v, JOURNAL_INO) == ZeroInode()
    requires forall x :: JOURNAL_FIRST <= x <= JOURNAL_INDIRECT ==> !v.used[x]
    ensures Inv(v') && SameFinds(v, v')
  {
    hide Inv, Clear, Raw, Owned, NoRepeat, JournalInode, Lists, SetRange, Counted, SameFinds, Find, Inode.IsDir,
         Inode.Fits, OwnsWell, ZeroInode;
    InvCounted(v);
    var v1 := v.(data := v'.data);
    FreeDataKeeps(v, v1);
    var v2 := v'.(inodes := v.inodes);
    JournalCounted(v, v');
    CountedSame(v', v2);
    MarkedOnly(v, v', v1, v2);
    BitsKeep(v1, v2);
    JournalOwned(v, v');
    JournalInodeIs();
    ZeroDecodes();
    assert v2.inodeUsed[JOURNAL_INO - 1] by { ReservedUsed(v); }
    JournalOwnsWell(v, v', v2);
    forall i | 0 <= i < INODES && i != JOURNAL_INO - 1
      ensures Owned(v2.data, JournalInode()) !! Owned(v2.data, v2.inodes[i]) {
      OthersElsewhere(v, v1, i);
    }
    InodeKeeps(v2, JOURNAL_INO, JournalInode());
    assert v2.(inodes := v2.inodes[JOURNAL_INO - 1 := JournalInode()]) == v';
    FindsChain(v, v1, v2);
    FindsChain(v, v2, v');
  }

  lemma ReservedUsed(v: Vol)
    requires Inv(v)
    ensures v.inodeUsed[JOURNAL_INO - 1]
  {
    hide AllOwnWell, Apart, DirsOk, RefsOk, RefsUnique, FreeZero, Clear;
  }

  lemma MarkedOnly(v: Vol, v': Vol, v1: Vol, v2: Vol)
    requires Journaled(v, v') && v1 == v.(data := v'.data) && v2 == v'.(inodes := v.inodes)
    ensures v2 == v1.(used := v2.used, freeBlocks := v2.freeBlocks, groupBlocks := v2.groupBlocks)
    ensures forall x :: 0 <= x < MAX_BLOCKS && v1.used[x] ==> v2.used[x]
  {
    hide JournalInode, Lists;
  }

  lemma JournalOwnsWell(v: Vol, v': Vol, v2: Vol)
    requires Journaled(v, v') && JOURNAL_INDIRECT < v.total && v2 == v'.(inodes := v.inodes) && Shaped(v2)
    ensures OwnsWell(v2, JournalInode())
  {
    hide JournalInode, Lists, Raw, Owned, NoRepeat;
    JournalOwned(v, v');
  }

  lemma OthersElsewhere(v: Vol, v1: Vol, i: nat)
    requires Inv(v) && i < INODES && v1 == v.(data := v1.data) && Raw(v1.data, v.inodes[i]) == Raw(v.data, v.inodes[i])
    requires forall x :: JOURNAL_FIRST <= x <= JOURNAL_INDIRECT ==> !v.used[x]
    ensures forall x :: x in Owned(v1.data, v1.inodes[i]) ==> !(JOURNAL_FIRST <= x <= JOURNAL_INDIRECT)
  {
    hide Inv, Raw, NoRepeat;
    InvCounted(v);
    OwnsOf(v, i);
    assert Owned(v1.data, v1.inodes[i]) == Owned(v.data, v.inodes[i]);
  }

  /**
   Formatting with a journal gives a sound volume exactly when the indirect block 1285 lies inside it,
   that is from 1286 blocks on; on a smaller one inode 8 owns blocks outside the volume.
   */
  lemma JournalSoundIff(total: nat, data: seq<seq<byte>>, v': Vol)
    requires FIRST_DATA + 1 < total <= MAX_BLOCKS && |data| == MAX_BLOCKS && forall n ::
               0 <= n < MAX_BLOCKS ==> |data[n]| == BS
    requires Journaled(Formatted(total, data), v')
    ensures Inv(v') <==> total > JOURNAL_INDIRECT
  {
    hide Inv, Raw, Owned, NoRepeat, JournalInode, Lists, ZeroInode, NewDir, DirInode, Inode.IsDir, Inode.Fits;
    var v := Formatted(total, data);
    FormattedInv(total, data);
    if total > JOURNAL_INDIRECT {
      JournalKeeps(v, v');
    } else {
      JournalOwned(v, v');
      assert JOURNAL_INDIRECT in Owned(v'.data, v'.inodes[JOURNAL_INO - 1]);
      if Inv(v') { OwnsOf(v', JOURNAL_INO - 1); }
    }
  }

  // ------------------------------------------------------------------ the edits

  /** Bitwise or with the power of two `k`. */
  function OrBit(x: nat, k: nat): nat
    requires k > 0
  {
    if x / k % 2 == 1 then x else x + k
  }

  /** The bytes that no field write of the inode touches stay zero. */
  predicate Untouched(b: seq<byte>) {
    && |b| == INODE_SIZE
    && (forall p :: 8 <= p < 24 ==> b[p] == 0) && (forall p :: 32 <= p < 40 ==> b[p] == 0)
       && (forall p :: 100 <= p < 128 ==> b[p] == 0)
    && U16(b, 2) == 0 && U16(b, 24) == 0
  }

  /** Pointer `k` of the inode bytes. */
  function SlotPointer(b: seq<byte>, k: nat): nat
    requires |b| == INODE_SIZE && k < 15
  {
    U32(b, 40 + 4 * k)
  }

  predicate HeadDone(b: seq<byte>)
    requires |b| == INODE_SIZE
  {
    U16(b, 0) == 0x8180 && U32(b, 4) == JOURNAL_BLOCKS * BS && U16(b, 26) == 1 && U32(b, 28) == (JOURNAL_BLOCKS + 1) * 8
  }

  lemma ZeroInodeBytes()
    ensures Untouched(Zeros(INODE_SIZE)) && forall k :: 0 <= k < 15 ==> SlotPointer(Zeros(INODE_SIZE), k) == 0
  {
    hide Le;
    var z := Zeros(INODE_SIZE);
    LeZero(2);
    LeZero(4);
    assert z[2..4] == z[24..26] == seq(2, _ => 0);
    forall k | 0 <= k < 15 ensures SlotPointer(z, k) == 0 { assert z[40 + 4 * k..44 + 4 * k] == seq(4, _ => 0); }
  }

  lemma PutBytes(b: seq<byte>, o: nat, w: nat, r: seq<byte>, v: nat)
    requires Untouched(b) && (w == 2 || w == 4) && (o == 0 || o == 4 || o == 26 || o == 28 || 40 <= o <= 96)
    requires o == 0 || o == 26 ==> w == 2
    requires o + w <= |b| && r == (if w == 2 then W16(b, o, v) else W32(b, o, v))
    requires v < if w == 2 then 0x1_0000 else 0x1_0000_0000
    ensures Untouched(r)
  {
    hide U16, U32;
    if w == 2 { After16(b, o, v); } else { After32(b, o, v); }
    BytesKept(b, o, w, r, v);
  }

  lemma BytesKept(b: seq<byte>, o: nat, w: nat, r: seq<byte>, v: nat)
    requires (w == 2 || w == 4) && o + w <= |b| && r == (if w == 2 then W16(b, o, v) else W32(b, o, v))
    ensures |r| == |b| && forall p :: 0 <= p < |b| && (p < o || o + w <= p) ==> r[p] == b[p]
  {
  }

  lemma HeadWritten()
    ensures var b := HeadBytes(); Untouched(b) && HeadDone(b) && forall k :: 0 <= k < 15 ==> SlotPointer(b, k) == 0
  {
    hide U16, U32, W16, W32, Zeros, Untouched;
    ZeroInodeBytes();
    var b0 := Zeros(INODE_SIZE);
    var b1 := W16(b0, 0, 0x8180);
    After16(b0, 0, 0x8180);
    PutBytes(b0, 0, 2, b1, 0x8180);
    var b2 := W32(b1, 4, JOURNAL_BLOCKS * BS);
    After32(b1, 4, JOURNAL_BLOCKS * BS);
    PutBytes(b1, 4, 4, b2, JOURNAL_BLOCKS * BS);
    var b3 := W16(b2, 26, 1);
    After16(b2, 26, 1);
    PutBytes(b2, 26, 2, b3, 1);
    After32(b3, 28, (JOURNAL_BLOCKS + 1) * 8);
    PutBytes(b3, 28, 4, HeadBytes(), (JOURNAL_BLOCKS + 1) * 8);
    forall k | 0 <= k < 15 ensures SlotPointer(HeadBytes(), k) == 0 { assert SlotPointer(b0, k) == 0; }
  }

  function HeadBytes(): (b: seq<byte>)
    ensures |b| == INODE_SIZE
  {
    W32(W16(W32(W16(Zeros(INODE_SIZE), 0, 0x8180), 4, JOURNAL_BLOCKS * BS), 26, 1), 28, (JOURNAL_BLOCKS + 1) * 8)
  }

  lemma PointerPut(b: seq<byte>, k: nat, v: nat)
    requires Untouched(b) && HeadDone(b) && k < 15 && v < 0x1_0000_0000
    ensures var r := W32(b, 40 + 4 * k, v);
            && Untouched(r) && HeadDone(r) && SlotPointer(r, k) == v
            && forall j :: 0 <= j < 15 && j != k ==> SlotPointer(r, j) == SlotPointer(b, j)
  {
    hide U16, U32, W32, Untouched;
    assert |b| == INODE_SIZE by { SizeOf(b); }
    After32(b, 40 + 4 * k, v);
    PutBytes(b, 40 + 4 * k, 4, W32(b, 40 + 4 * k, v), v);
  }

  lemma SizeOf(b: seq<byte>)
    requires Untouched(b)
    ensures |b| == INODE_SIZE
  {
  }

  lemma SlotDecodes(b: seq<byte>)
    requires Untouched(b) && HeadDone(b) && forall k :: 0 <= k < 15 ==> SlotPointer(b, k) == JournalInode().block[k]
    ensures Decode(b) == JournalInode()
  {
    hide U16, U32;
    var n := JournalInode();
    assert b[8..24] == Zeros(16) && b[32..40] == Zeros(8) && b[100..128] == Zeros(28);
    var w := b[40..100];
    forall k | 0 <= k < 15 ensures Words(w)[k] == n.block[k] {
      assert U32(w, 4 * k) == SlotPointer(b, k) by { SubWord(b, k); }
    }
    assert Words(w) == n.block;
  }

  lemma SubWord(b: seq<byte>, k: nat)
    requires |b| == INODE_SIZE && k < 15
    ensures U32(b[40..100], 4 * k) == U32(b, 40 + 4 * k)
  {
    var w := b[40..100];
    assert forall j :: 4 * k <= j < 4 * k + 4 ==> w[j] == b[40 + j];
    assert w[4 * k..4 * k + 4] == b[40 + 4 * k..40 + 4 * k + 4];
  }

  /** The bytes of inode 8. */
  method JournalSlot() returns (b: seq<byte>)
    ensures |b| == INODE_SIZE && Decode(b) == JournalInode()
  {
    hide Untouched, HeadDone, SlotPointer, HeadBytes, W32, Decode;
    b := HeadBytes();
    HeadWritten();
    for n := 0 to 12
      invariant |b| == INODE_SIZE && Untouched(b) && HeadDone(b)
      invariant forall k :: 0 <= k < 15 ==> SlotPointer(b, k) == if k < n then JOURNAL_FIRST + k else 0
    {
      PointerPut(b, n, JOURNAL_FIRST + n);
      b := W32(b, 40 + n * 4, JOURNAL_FIRST + n);
    }
    PointerPut(b, 12, JOURNAL_INDIRECT);
    b := W32(b, 88, JOURNAL_INDIRECT);
    SlotDecodes(b);
  }

  /** The indirect block: journal blocks from the thirteenth on. */
  method JournalIndirect() returns (b: seq<byte>)
    ensures |b| == BS && Lists(b, JournalList())
  {
    hide W32;
    b := Zeros(BS);
    ZeroLists([]);
    for n := 0 to JOURNAL_BLOCKS - 12
      invariant |b| == BS
      invariant forall j :: 0 <= j < INDIRECT_ENTRIES ==> Words(b)[j] == if j < n then JOURNAL_FIRST + 12 + j else 0
    {
      WordUpdate(b, n, JOURNAL_FIRST + 12 + n);
      b := W32(b, n * 4, JOURNAL_FIRST + 12 + n);
    }
  }

  function Be32(b: seq<byte>, o: nat, v: nat): (r: seq<byte>)
    requires o + 4 <= |b|
    ensures |r| == |b|
  {
    b[o := v / 0x100_0000 % 256][o + 1 := v / 0x1_0000 % 256][o + 2 := v / 0x100 % 256][o + 3 := v % 256]
  }

  /** The journal superblock. */
  function JournalSuper(): (b: seq<byte>)
    ensures |b| == BS
  {
    var b := Be32(Be32(Be32(Be32(Zeros(BS), 0, 0xc03b3998), 4, 4), 8, 0), 12, BS);
    Be32(Be32(Be32(Be32(b, 16, JOURNAL_BLOCKS), 20, 1), 24, 1), 28, 0)
  }

  /** The counters and feature flags of the superblock after add_journal. */
  function JournalCounts(b: seq<byte>): (r: seq<byte>)
    requires |b| == BS
    ensures |r| == BS
  {
    W32(W32(W32(b, 1036, Wrap32(U32(b, 1036) - (JOURNAL_BLOCKS + 1))), 1116, OrBit(U32(b, 1116), 4)), 1248, JOURNAL_INO)
  }

  lemma JournalCountsRead(b: seq<byte>)
    requires |b| == BS && OrBit(U32(b, 1116), 4) < 0x1_0000_0000
    ensures var r := JournalCounts(b);
            && U32(r, 1036) == Wrap32(U32(b, 1036) - (JOURNAL_BLOCKS + 1)) && U32(r, 1040) == U32(b, 1040)
            && U32(r, 1116) == OrBit(U32(b, 1116), 4) && U32(r, 1120) == U32(b, 1120) && (ProbeOk(b) ==> ProbeOk(r))
            && U32(r, 1248) == 8
  {
    hide U32, W32, U16, Wrap32, OrBit;
    var v := Wrap32(U32(b, 1036) - (JOURNAL_BLOCKS + 1));
    After32(b, 1036, v);
    After32(W32(b, 1036, v), 1116, OrBit(U32(b, 1116), 4));
    After32(W32(W32(b, 1036, v), 1116, OrBit(U32(b, 1116), 4)), 1248, JOURNAL_INO);
  }

  lemma GroupCountRead(b: seq<byte>, v: nat)
    requires |b| == BS && v < 0x1_0000
    ensures var r := W16(b, 12, v); U16(r, 12) == v && U16(r, 14) == U16(b, 14) && U16(r, 16) == U16(b, 16)
  {
    hide U32, W16, U16;
    After16(b, 12, v);
  }

  /** Setting bit 2 of a 32-bit word stays inside it. */
  lemma OrBitFits(x: nat)
    requires x < 0x1_0000_0000
    ensures OrBit(x, 4) < 0x1_0000_0000 && OrBit(x, 4) / 4 % 2 == 1
  {
    var q, r := x / 4, x % 4;
    assert x == 4 * q + r && q < 0x4000_0000;
    if q % 2 == 0 { assert (x + 4) / 4 == q + 1; }
  }

  /** The first half of add_journal: bitmap, counters, feature flag and inode 8. */
  method Reserve(d: Driver)
    requires d.Rep()
    modifies d`disk, d`vol
    ensures d.Rep() && |d.vol.data| == MAX_BLOCKS && |old(d.vol).data| == MAX_BLOCKS
    ensures Reserved(old(d.vol), d.vol) && d.vol.data == old(d.vol).data
    ensures Shape(d.disk) && d.disk[0] == JournalCounts(old(d.disk)[0])
  {
    hide BitsAre, Represents, SetRange, W16, U16, U32, JournalCounts, Wrap16, Wrap32, JournalInode, Overwrite, Decode,
         ProbeOk, OrBit;
    ghost var v0 := d.vol;
    ShapeKept(d.disk, v0);
    Bitmaps(d.disk, v0);
    var b := d.MarkRange(d.disk[BLOCK_BITMAP], JOURNAL_FIRST, JOURNAL_INDIRECT + 1, d.vol.used);
    WriteBlockBits(d.disk, d.vol, b, SetRange(v0.used, JOURNAL_FIRST, JOURNAL_INDIRECT + 1));
    d.disk := d.disk[BLOCK_BITMAP := b];
    d.vol := d.vol.(used := SetRange(v0.used, JOURNAL_FIRST, JOURNAL_INDIRECT + 1));
    var b0, b1 := JournalCounts(d.disk[0]), W16(d.disk[1], 12, Wrap16(U16(d.disk[1], 12) - (JOURNAL_BLOCKS + 1)));
    U32Fits(d.disk[0], 1116);
    OrBitFits(U32(d.disk[0], 1116));
    JournalCountsRead(d.disk[0]);
    GroupCountRead(d.disk[1], Wrap16(U16(d.disk[1], 12) - (JOURNAL_BLOCKS + 1)));
    CountsOnDisk(d.disk, d.vol);
    ghost var v1 := d.vol.(freeBlocks := Wrap32(v0.freeBlocks - (JOURNAL_BLOCKS + 1)),
        groupBlocks := Wrap16(v0.groupBlocks - (JOURNAL_BLOCKS + 1)));
    WriteCounts(d.disk, d.vol, b0, b1, v1);
    d.disk := d.disk[0 := b0][1 := b1];
    d.vol := v1;
    var slot := JournalSlot();
    WriteSlot(d.disk, d.vol, JOURNAL_INO - 1, slot);
    d.disk := d.disk[INODE_TABLE := Overwrite(d.disk[INODE_TABLE], (JOURNAL_INO - 1) * INODE_SIZE, slot)];
    d.vol := d.vol.(inodes := d.vol.inodes[JOURNAL_INO - 1 := JournalInode()]);
    JournalInodeIs();
  }

  lemma CountsOnDisk(disk: seq<seq<byte>>, v: Vol)
    requires Represents(disk, v)
    ensures U32(disk[0], 1036) == v.freeBlocks && U32(disk[0], 1040) == v.freeInodes
    ensures U16(disk[1], 12) == v.groupBlocks && U16(disk[1], 14) == v.groupInodes && U16(disk[1], 16) == v.groupDirs
  {
    hide U16, U32, BitsAre;
  }

  ghost predicate Reserved(v: Vol, v': Vol) {
    && Shaped(v)
    && v' == v.(used := SetRange(v.used, JOURNAL_FIRST, JOURNAL_INDIRECT + 1),
                freeBlocks := Wrap32(v.freeBlocks - (JOURNAL_BLOCKS + 1)),
                    groupBlocks := Wrap16(v.groupBlocks - (JOURNAL_BLOCKS + 1)),
                inodes := v.inodes[JOURNAL_INO - 1 := JournalInode()], data := v'.data)
  }

  /** wr on a data block: no check against the size of the volume. */
  method Poke(d: Driver, n: nat, b: seq<byte>)
    requires d.Rep() && FIRST_DATA <= n < MAX_BLOCKS && |b| == BS
    modifies d`disk, d`vol
    ensures d.Rep() && d.vol == old(d.vol).(data := old(d.vol).data[n := b])
    ensures Shape(d.disk) && d.disk[0] == old(d.disk)[0]
  {
    hide Represents;
    ShapeKept(d.disk, d.vol);
    WriteData(d.disk, d.vol, n, b);
    d.disk := d.disk[n := b];
    d.vol := d.vol.(data := d.vol.data[n := b]);
  }

  /**
   The journal on the disk: inode 8 is a file of the 1024 blocks from 261 on, with block 1285 as its indirect block;
   all of them are marked and taken off both counts, the superblock has the journal flag and names inode 8, and block
   261 begins with the journal's own header.
   */
  ghost predicate JournalOnDisk(disk0: seq<seq<byte>>, disk: seq<seq<byte>>) {
    && Shape(disk0) && Shape(disk)
    && OnDisk(disk, 8, 0x8180, 0, 0, 1, 1024 * 4096, 1025 * 8)
    && (forall k :: 0 <= k < 1024 ==> Pointer(disk, 8, k) == 261 + k)
    && (forall i :: 0 <= i < 32768 ==> Bit(disk[2], i) == (Bit(disk0[2], i) || 261 <= i <= 1285))
    && U32(disk[0], 1036) == (U32(disk0[0], 1036) - 1025) % 0x1_0000_0000
    && U16(disk[1], 12) == (U16(disk0[1], 12) - 1025) % 0x1_0000
    && U32(disk[0], 1116) / 4 % 2 == 1 && U32(disk[0], 1248) == 8
    && disk[261][..32] == [0xc0, 0x3b, 0x39, 0x98, 0, 0, 0, 4, 0, 0, 0, 0, 0, 0, 0x10, 0,
                           0, 0, 4, 0, 0, 0, 0, 1, 0, 0, 0, 1, 0, 0, 0, 0]
  }

  lemma JournaledOnDisk(disk0: seq<seq<byte>>, v0: Vol, disk: seq<seq<byte>>, v: Vol)
    requires Represents(disk0, v0) && Represents(disk, v) && Journaled(v0, v) && v.data[JOURNAL_FIRST] == JournalSuper()
    requires disk[0] == JournalCounts(disk0[0])
    ensures JournalOnDisk(disk0, disk)
  {
    hide U16, U32, Bit, JournalCounts, JournalSuper, TableIs, Lists, JournalInode, OrBit, Wrap32, Wrap16, Pointer;
    InodeOnDisk(disk, v, JOURNAL_INO);
    JournalInodeFields();
    forall k | 0 <= k < 1024 ensures Pointer(disk, 8, k) == 261 + k { JournalPointer(disk, v0, v, k); }
    U32Fits(disk0[0], 1116);
    OrBitFits(U32(disk0[0], 1116));
    JournalCountsRead(disk0[0]);
    CountsOnDisk(disk0, v0);
    CountsOnDisk(disk, v);
    Wraps(U32(disk0[0], 1036), U16(disk0[1], 12));
    JournalSuperBytes();
  }

  lemma Wraps(a: nat, b: nat)
    ensures Wrap32(a - 1025) == (a - 1025) % 0x1_0000_0000 && Wrap16(b - 1025) == (b - 1025) % 0x1_0000
  {
  }

  lemma JournalInodeFields()
    ensures var n := JournalInode();
            n.mode == 0x8180 && n.uid == n.gid == 0 && n.links == 1 && n.size == 1024 * 4096 && n.blocks == 1025 * 8
  {
  }

  lemma JournalPointer(disk: seq<seq<byte>>, v0: Vol, v: Vol, k: nat)
    requires Represents(disk, v) && Journaled(v0, v) && k < 1024
    ensures Pointer(disk, 8, k) == 261 + k
  {
    hide U16, U32, Bit, TableIs, SetRange, Wrap32, Wrap16;
    InodeOnDisk(disk, v, JOURNAL_INO);
    if k < 12 {
      assert At(v, 8).block[k] == U32(disk[4], 7 * 128 + 40 + 4 * k);
    } else {
      assert At(v, 8).block[12] == U32(disk[4], 7 * 128 + 40 + 4 * 12) == JOURNAL_INDIRECT;
      assert disk[JOURNAL_INDIRECT] == v.data[JOURNAL_INDIRECT];
      assert Words(disk[JOURNAL_INDIRECT])[k - 12] == JournalList()[k];
    }
  }

  lemma JournalSuperBytes()
    ensures JournalSuper()[..32] == [0xc0, 0x3b, 0x39, 0x98, 0, 0, 0, 4, 0, 0, 0, 0, 0, 0, 0x10, 0,
                                     0, 0, 4, 0, 0, 0, 0, 1, 0, 0, 0, 1, 0, 0, 0, 0]
  {
    hide Be32, Zeros;
    var b := Zeros(BS);
    b := BeNext(b, 0, 0xc03b3998, [0xc0, 0x3b, 0x39, 0x98]);
    b := BeNext(b, 4, 4, [0, 0, 0, 4]);
    b := BeNext(b, 8, 0, [0, 0, 0, 0]);
    b := BeNext(b, 12, BS, [0, 0, 0x10, 0]);
    b := BeNext(b, 16, JOURNAL_BLOCKS, [0, 0, 4, 0]);
    b := BeNext(b, 20, 1, [0, 0, 0, 1]);
    b := BeNext(b, 24, 1, [0, 0, 0, 1]);
    b := BeNext(b, 28, 0, [0, 0, 0, 0]);
  }

  /** One more big-endian word behind those already written. */
  lemma BeNext(b: seq<byte>, o: nat, v: nat, w: seq<byte>) returns (r: seq<byte>)
    requires o + 4 <= |b| && v < 0x1_0000_0000
    requires w == [v / 0x100_0000, v / 0x1_0000 % 256, v / 0x100 % 256, v % 256]
    ensures r == Be32(b, o, v) && r[..o + 4] == b[..o] + w
  {
    r := Be32(b, o, v);
  }

  /** add_journal. */
  method AddJournal(d: Driver)
    requires d.Rep()
    modifies d`disk, d`vol
    ensures d.Rep() && Journaled(old(d.vol), d.vol) && d.vol.data[JOURNAL_FIRST] == JournalSuper()
    ensures Shape(d.disk) && d.disk[0] == JournalCounts(old(d.disk)[0]) && JournalOnDisk(old(d.disk), d.disk)
  {
    hide Represents, JournalCounts, JournalSuper, Lists, SetRange, JournalInode, U32, Wrap16, Wrap32, JournalOnDisk;
    ghost var v0 := d.vol;
    Reserve(d);
    ghost var b0 := d.disk[0];
    var b := JournalIndirect();
    Poke(d, JOURNAL_INDIRECT, b);
    Poke(d, JOURNAL_FIRST, JournalSuper());
    for n := 1 to JOURNAL_BLOCKS
      invariant d.Rep() && Reserved(v0, d.vol) && |d.vol.data| == MAX_BLOCKS && Shape(d.disk) && d.disk[0] == b0
      invariant d.vol.data[JOURNAL_INDIRECT] == b && d.vol.data[JOURNAL_FIRST] == JournalSuper()
      invariant forall x :: JOURNAL_FIRST < x < JOURNAL_FIRST + n ==> d.vol.data[x] == Zeros(BS)
      invariant forall x :: 0 <= x < JOURNAL_FIRST || JOURNAL_INDIRECT < x < MAX_BLOCKS ==> d.vol.data[x] == v0.data[x]
    {
      Poke(d, JOURNAL_FIRST + n, Zeros(BS));
    }
    JournaledOnDisk(old(d.disk), v0, d.disk, d.vol);
  }

  /** ext_variant_detect: what the feature flags of the superblock say. */
  function Detected(b: seq<byte>): nat
    requires |b| == BS
  {
    if U16(b, 1080) != MAGIC then 0
    else if U32(b, 1120) / 0x40 % 2 == 1 then 4 else if U32(b, 1116) / 4 % 2 == 1 then 3 else 2
  }

  /** The extents flag is bit 6 of the word at 1120, the journal flag bit 2 of the word at 1116. */
  lemma DetectedIs(b: seq<byte>, high: nat, low: nat, high': nat, low': nat)
    requires |b| == 4096 && U16(b, 1080) == 0xef53 && low < 64 && low' < 4
    ensures U32(b, 1120) == 128 * high + 64 + low ==> Detected(b) == 4
    ensures U32(b, 1120) == 128 * high + low && U32(b, 1116) == 8 * high' + 4 + low' ==> Detected(b) == 3
    ensures U32(b, 1120) == 128 * high + low && U32(b, 1116) == 8 * high' + low' ==> Detected(b) == 2
  {
    hide U32, U16;
  }

  /** The level-4 edit: the extents flag in the superblock, nothing else. */
  method SetExtents(d: Driver)
    requires d.Rep() && U32(d.disk[0], 1120) == 2
    modifies d`disk
    ensures d.Rep() && Shape(d.disk) && U32(d.disk[0], 1120) == 0x42
    ensures U32(d.disk[0], 1116) == old(U32(d.disk[0], 1116)) && U16(d.disk[0], 1080) == old(U16(d.disk[0], 1080))
  {
    hide Represents, U32, U16, W32;
    ShapeKept(d.disk, d.vol);
    var b := W32(d.disk[0], 1120, OrBit(U32(d.disk[0], 1120), 0x40));
    After32(d.disk[0], 1120, 0x42);
    CountsOnDisk(d.disk, d.vol);
    WriteCounts(d.disk, d.vol, b, d.disk[1], d.vol);
    assert d.disk[0 := b][1 := d.disk[1]] == d.disk[0 := b];
    d.disk := d.disk[0 := b];
  }

  /**
   ext_variant_format: a level from 2 to 4 on a partition of suitable size. The volume is sound at level 2,
   and with a journal exactly from 1286 blocks on; the driver detects the level it was formatted with.
   */
  method FormatVariant(d: Driver, sectors: nat, level: nat) returns (ok: bool, ghost plain: Vol)
    requires Shape(d.disk)
    modifies d
    ensures ok == (2 <= level <= 4 && FIRST_DATA + 1 < sectors / 8 <= MAX_BLOCKS)
    ensures ok ==> d.Rep() && d.mounted && d.blocks == sectors / 8 && Shape(d.disk) && Detected(d.disk[0]) == level
    ensures ok ==> (d.Valid() <==> level == 2 || d.blocks > JOURNAL_INDIRECT)
    ensures ok ==> Shape(plain.data) && plain == Formatted(d.blocks, plain.data) && if level == 2 then d.vol == plain
            else Journaled(plain, d.vol)
  {
    hide Represents, Journaled, Inv, U32, U16, JournalCounts, SuperBlock, Formatted, OrBit, JournalOnDisk, FormatOnDisk,
         JournalSuper;
    plain := d.vol;
    if level < 2 || level > 4 { return false, plain; }
    ok := d.Format(sectors);
    if !ok { return; }
    plain := d.vol;
    ShapeKept(d.disk, d.vol);
    SuperReads(d.blocks);
    InvCounted(d.vol);
    if level >= 3 {
      OrBitFits(0);
      JournalCountsRead(d.disk[0]);
      AddJournal(d);
      JournalSoundIff(d.blocks, plain.data, d.vol);
    }
    if level == 4 { SetExtents(d); }
  }

  // ------------------------------------------------------------------ any run

  datatype Call =
    | Storing(path: seq<byte>, bytes: seq<byte>, mode: nat, uid: nat, gid: nat)
    | Removing(path: seq<byte>)

  /** The last name fits its buffer and the ids their fields; nothing else is asked of a path. */
  ghost predicate Callable(c: Call) {
    ShortLeaf(Names(c.path)) && (c.Storing? ==> c.uid < 0x1_0000 && c.gid < 0x1_0000)
  }

  /** No block has two owners, owned blocks are marked and in the data area, and both counts count the clear bits. */
  ghost predicate Sound(v: Vol) {
    && Shaped(v)
    && (forall i, j :: 0 <= i < j < INODES ==> Owned(v.data, v.inodes[i]) !! Owned(v.data, v.inodes[j]))
    && (forall i, x :: 0 <= i < INODES && x in Owned(v.data, v.inodes[i]) ==> FIRST_DATA <= x < v.total && v.used[x])
    && v.freeBlocks == v.groupBlocks == Clear(v.used) && v.freeInodes == v.groupInodes == Clear(v.inodeUsed)
  }

  lemma InvIsSound(v: Vol)
    requires Inv(v)
    ensures Sound(v)
  {
    hide Owned, Clear, NoRepeat, DirsOk, RefsOk, RefsUnique, FreeZero;
    forall i, x | 0 <= i < INODES && x in Owned(v.data, v.inodes[i]) ensures FIRST_DATA <= x < v.total && v.used[x] {
      assert OwnsWell(v, v.inodes[i]);
    }
  }

  /** Formatting at any level, on a volume that holds the journal if there is one, and then any calls at all. */
  method FormatAndRun(d: Driver, sectors: nat, level: nat, calls: seq<Call>) returns (ok: bool)
    requires Shape(d.disk) && forall i :: 0 <= i < |calls| ==> Callable(calls[i])
    modifies d
    ensures ok == (2 <= level <= 4 && FIRST_DATA + 1 < sectors / 8 <= MAX_BLOCKS)
    ensures ok && (level == 2 || sectors / 8 > JOURNAL_INDIRECT) ==> d.Valid() && Sound(d.vol)
  {
    hide Represents, Inv, Journaled, Formatted, Callable, Sound;
    ghost var plain;
    ok, plain := FormatVariant(d, sectors, level);
    if !ok || (level > 2 && sectors / 8 <= JOURNAL_INDIRECT) { return; }
    for i := 0 to |calls|
      invariant d.Valid() && d.mounted
    {
      Apply(d, calls[i]);
    }
    InvIsSound(d.vol);
  }

  method Apply(d: Driver, c: Call)
    requires d.Valid() && d.mounted && Callable(c)
    modifies d`disk, d`vol
    ensures d.Valid()
  {
    hide Represents, Inv, StoreOutcome, Unlinked, Walkable, Names, Resolve, Parent;
    match c
    case Storing(path, bytes, mode, uid, gid) => var ok := d.Store(path, bytes, mode, uid, gid);
    case Removing(path) => var ok := d.Remove(path);
  }
}
