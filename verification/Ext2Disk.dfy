/**
 What the volume's facts mean to a reader of the disk: where an inode, the bytes of a file and the record of a name
 stand in the blocks, in the numbers of the format.
 */
module Ext2Disk {
  import opened Bytes
  import opened Bits
  import opened Ext2Layout
  import opened Ext2Dir
  import opened Ext2Volume
  import opened Ext2Files
  import opened Ext2Store
  import opened Ext2Format

  // -------------------------------------------------------------------- inodes

  /** What a reader of the disk finds in the slot of inode `ino`: 128 bytes each, from block 4 on. */
  ghost predicate OnDisk(disk: seq<seq<byte>>, ino: nat, mode: nat, uid: nat, gid: nat, links: nat, size: nat,
                         sectors: nat) {
    && Shape(disk) && 1 <= ino <= 8192
    && var b, o := disk[4 + (ino - 1) / 32], (ino - 1) % 32 * 128;
    && U16(b, o) == mode && U16(b, o + 2) == uid && U32(b, o + 4) == size && U16(b, o + 24) == gid
    && U16(b, o + 26) == links && U32(b, o + 28) == sectors
  }

  /** What ext2_stat should report of inode `ino`. */
  ghost predicate StatOf(disk: seq<seq<byte>>, ino: nat, size: nat, mode: nat, uid: nat, gid: nat) {
    forall m: nat, u, g, links, s, k ::
      OnDisk(disk, ino, m, u, g, links, s, k) ==> size == s && mode == m % 512 && uid == u && gid == g
  }

  /** The inode table holds the fields where the format has them, and the fifteen pointers behind them. */
  lemma InodeOnDisk(disk: seq<seq<byte>>, v: Vol, ino: nat)
    requires Represents(disk, v) && 1 <= ino <= INODES
    ensures var n := v.inodes[ino - 1];
            && OnDisk(disk, ino, n.mode, n.uid, n.gid, n.links, n.size, n.blocks) && |n.block| == 15
            && forall k :: 0 <= k < 15 ==>
                 n.block[k] == U32(disk[4 + (ino - 1) / 32], (ino - 1) % 32 * 128 + 40 + 4 * k)
  {
    hide U16, U32, BitsAre, CountsAre, DataIs, Words;
    var i, o := ino - 1, (ino - 1) % 32 * 128;
    var b, s := disk[4 + (ino - 1) / 32], Slot(disk, ino - 1);
    assert Decode(s) == v.inodes[i];
    FieldsInside(b, o, s);
  }

  lemma FieldsInside(b: seq<byte>, o: nat, s: seq<byte>)
    requires o + 128 <= |b| && s == b[o..o + 128]
    ensures U16(b, o) == U16(s, 0) && U16(b, o + 2) == U16(s, 2) && U32(b, o + 4) == U32(s, 4)
    ensures U16(b, o + 24) == U16(s, 24) && U16(b, o + 26) == U16(s, 26) && U32(b, o + 28) == U32(s, 28)
    ensures forall k :: 0 <= k < 15 ==> Words(s[40..100])[k] == U32(b, o + 40 + 4 * k)
  {
    hide Le;
    Inside(b, o, 0, 2);
    Inside(b, o, 2, 4);
    Inside(b, o, 4, 8);
    Inside(b, o, 24, 26);
    Inside(b, o, 26, 28);
    Inside(b, o, 28, 32);
    forall k | 0 <= k < 15 ensures Words(s[40..100])[k] == U32(b, o + 40 + 4 * k) {
      Inside(b, o, 40 + 4 * k, 44 + 4 * k);
      assert s[40..100][4 * k..4 * k + 4] == s[40 + 4 * k..44 + 4 * k];
    }
  }

  lemma Inside(b: seq<byte>, o: nat, lo: nat, hi: nat)
    requires o + 128 <= |b| && lo <= hi <= 128
    ensures b[o..o + 128][lo..hi] == b[o + lo..o + hi]
  {
    var r := b[o..o + 128];
    forall k | 0 <= k < hi - lo ensures r[lo..hi][k] == b[o + lo..o + hi][k] { assert r[lo + k] == b[o + (lo + k)]; }
  }

  // --------------------------------------------------------------------- files

  /** Pointer `k` of an inode's slot: twelve direct ones, then those in the indirect block; 0 beyond. */
  ghost function Pointer(disk: seq<seq<byte>>, ino: nat, k: nat): nat
    requires Shape(disk) && 1 <= ino <= 8192
  {
    var b, o := disk[4 + (ino - 1) / 32], (ino - 1) % 32 * 128;
    if k < 12 then U32(b, o + 40 + 4 * k)
    else
      var x := U32(b, o + 88);
      if k < 1036 && x < 32768 then U32(disk[x], 4 * (k - 12)) else 0
  }

  /** Byte `p` of the file is byte `p % 4096` of the block that pointer `p / 4096` names. */
  ghost predicate BytesOnDisk(disk: seq<seq<byte>>, ino: nat, bytes: seq<byte>) {
    && Shape(disk) && 1 <= ino <= 8192
    && forall p :: 0 <= p < |bytes| ==> ByteOnDisk(disk, ino, p, bytes[p])
  }

  ghost predicate ByteOnDisk(disk: seq<seq<byte>>, ino: nat, p: nat, c: byte)
    requires Shape(disk) && 1 <= ino <= 8192
  {
    var x := Pointer(disk, ino, p / 4096);
    260 <= x < 32768 && disk[x][p % 4096] == c
  }

  lemma PointerIs(disk: seq<seq<byte>>, v: Vol, ino: nat, k: nat)
    requires Represents(disk, v) && Inv(v) && ValidIno(ino) && FileBlock(v, At(v, ino), k) != 0
    ensures Pointer(disk, ino, k) == FileBlock(v, At(v, ino), k)
  {
    hide Inv, BitsAre, CountsAre, TableIs, U32, U16;
    InodeOnDisk(disk, v, ino);
    InvCounted(v);
    if k >= 12 {
      IndirectInside(v, ino);
      assert disk[At(v, ino).block[12]] == v.data[At(v, ino).block[12]];
    }
  }

  lemma IndirectInside(v: Vol, ino: nat)
    requires Inv(v) && ValidIno(ino) && At(v, ino).block[12] != 0
    ensures FIRST_DATA <= At(v, ino).block[12] < v.total <= 32768
  {
    hide DirOk, Find, RefsOk, RefsUnique, DirsOk, Counted, Owned, Apart, FreeZero;
    assert OwnsWell(v, v.inodes[ino - 1]);
    IndirectOwned(v.data, At(v, ino));
  }

  /** The contents of a file, byte by byte, on the disk. */
  lemma ContentOnDisk(disk: seq<seq<byte>>, v: Vol, ino: nat)
    requires Represents(disk, v) && Inv(v) && ValidIno(ino) && Readable(v, At(v, ino))
    ensures BytesOnDisk(disk, ino, Content(v, At(v, ino)))
  {
    hide Inv, BitsAre, CountsAre, TableIs, U32, U16, FileBlock, Pointer;
    InvCounted(v);
    var n := At(v, ino);
    forall p | 0 <= p < n.size ensures ByteOnDisk(disk, ino, p, Content(v, n)[p]) {
      var x := FileBlock(v, n, p / BS);
      assert p / BS < BlockCount(n.size);
      PointerIs(disk, v, ino, p / BS);
      BlockInside(v, ino, p / BS);
      assert disk[x] == v.data[x];
    }
  }

  lemma BlockInside(v: Vol, ino: nat, k: nat)
    requires Inv(v) && ValidIno(ino) && FileBlock(v, At(v, ino), k) != 0
    ensures FIRST_DATA <= FileBlock(v, At(v, ino), k) < v.total <= 32768
  {
    hide DirOk, Find, RefsOk, RefsUnique, DirsOk, Counted, Owned, Apart, FreeZero, FileBlock, NoRepeat, Raw;
    assert OwnsWell(v, v.inodes[ino - 1]);
    FileBlockOwned(v, At(v, ino), k);
  }

  // --------------------------------------------------------------------- names

  /** Directory `d` has an entry of that name, inode and type. */
  ghost predicate HasEntry(v: Vol, d: nat, name: seq<byte>, t: nat, kind: byte) {
    && Shaped(v) && DirOk(v, d)
    && exists i :: 0 <= i < |List(v, d)| && Bears(List(v, d)[i], name, t, kind)
  }

  predicate Bears(e: Entry, name: seq<byte>, t: nat, kind: byte) { e.name == name && e.ino == t && e.kind == kind }

  /** The directory's first block holds a record of that name, inode and type. */
  ghost predicate NamedOnDisk(disk: seq<seq<byte>>, d: nat, name: seq<byte>, t: nat, kind: byte) {
    && Shape(disk) && 1 <= d <= 8192
    && var x := Pointer(disk, d, 0); 260 <= x < 32768 && exists p :: RecordSays(disk[x], p, t, kind, name)
  }

  lemma EntryOnDisk(disk: seq<seq<byte>>, v: Vol, d: nat, name: seq<byte>, t: nat, kind: byte)
    requires Represents(disk, v) && Inv(v) && HasEntry(v, d, name, t, kind)
    ensures NamedOnDisk(disk, d, name, t, kind)
  {
    hide Inv, BitsAre, CountsAre, TableIs, U32, U16, Tiled, Good, Entries, RecordSays, Pointer, Inode.IsDir;
    InvCounted(v);
    FirstBlockOwned(v, d);
    PointerIs(disk, v, d, 0);
    var x := At(v, d).block[0];
    assert disk[x] == v.data[x];
    var i :| 0 <= i < |List(v, d)| && Bears(List(v, d)[i], name, t, kind);
    var p := EntryRecord(disk[x], 0, i);
  }

  /** dir_add leaves the entry. */
  lemma AddedHas(v: Vol, d: nat, t: nat, kind: byte, name: seq<byte>)
    requires Inv(v) && DirOk(v, d) && |name| < 256 && RoomFor(List(v, d), |name|) && t < 0x1_0000_0000
    requires Inv(WithDir(v, d, Added(Block(v, d), t, kind, name)))
    ensures HasEntry(WithDir(v, d, Added(Block(v, d), t, kind, name)), d, name, t, kind)
  {
    hide Inv, Tiled, Good, Inserted, Inode.IsDir, RoomFor;
    InvCounted(v);
    var v' := WithDir(v, d, Added(Block(v, d), t, kind, name));
    InvCounted(v');
    DirOfInv(v', d);
    var i := InsertedHas(List(v, d), t, kind, name);
    assert List(v', d) == Inserted(List(v, d), t, kind, name);
    assert Bears(List(v', d)[i], name, t, kind);
  }

  lemma DirOfInv(v: Vol, d: nat)
    requires Inv(v) && ValidIno(d) && At(v, d).IsDir()
    ensures DirOk(v, d)
  {
    hide DirOk, Inode.IsDir, Counted, AllOwnWell, Apart, RefsOk, RefsUnique, FreeZero;
  }

  /** An entry depends on the directory's first pointer and block. */
  lemma SameEntry(v: Vol, v': Vol, d: nat, name: seq<byte>, t: nat, kind: byte)
    requires HasEntry(v, d, name, t, kind) && Shaped(v') && v'.total == v.total
    requires At(v', d).block == At(v, d).block && At(v', d).IsDir()
    requires v'.data[At(v, d).block[0]] == v.data[At(v, d).block[0]]
    ensures HasEntry(v', d, name, t, kind)
  {
    hide Tiled, Good, Entries, Inode.IsDir, Bears;
    assert List(v', d) == List(v, d);
  }

  /** Two directories never share their block. */
  lemma BlocksDiffer(v: Vol, d: nat, e: nat)
    requires Inv(v) && ValidIno(d) && ValidIno(e) && d != e && At(v, d).block[0] != 0
    ensures At(v, d).block[0] != At(v, e).block[0]
  {
    hide Inv, Owned;
    InvCounted(v);
    FirstBlockOwned(v, d);
    IndirectOwned(v.data, At(v, e));
  }

  // ---------------------------------------------------------------- formatting

  /**
   What ext2_format leaves on the disk: the superblock, where the group descriptor says the bitmaps and the inode table
   are, the bits of both bitmaps, and the root directory.
   */
  ghost predicate FormatOnDisk(disk: seq<seq<byte>>, total: nat) {
    && Shape(disk) && SuperFields(disk[0], total)
    && U32(disk[1], 0) == 2 && U32(disk[1], 4) == 3 && U32(disk[1], 8) == 4
    && U16(disk[1], 12) == total - 261 && U16(disk[1], 14) == 8182 && U16(disk[1], 16) == 1
    && (forall i :: 0 <= i < 32768 ==> Bit(disk[2], i) == (i < 261 || total <= i))
    && (forall i :: 0 <= i < 32768 ==> Bit(disk[3], i) == (i < 10 || 8192 <= i))
    && OnDisk(disk, 2, 0x4000 + 0x1ed, 0, 0, 2, 4096, 8)
    && NamedOnDisk(disk, 2, [46], 2, 2) && NamedOnDisk(disk, 2, [46, 46], 2, 2)
  }

  lemma FormattedOnDisk(disk: seq<seq<byte>>, v: Vol)
    requires Represents(disk, v) && Inv(v) && FIRST_DATA + 1 < v.total <= MAX_BLOCKS && |v.data| == MAX_BLOCKS
    requires disk[0] == SuperBlock(v.total) && disk[1] == GroupBlock(v.total) && v == Formatted(v.total, v.data)
    ensures FormatOnDisk(disk, v.total)
  {
    hide Inv, SuperBlock, GroupBlock, U16, U32, SuperFields, NamedOnDisk, NewDir, TableIs, Bit;
    SuperReads(v.total);
    GroupReads(v.total);
    InodeOnDisk(disk, v, 2);
    BitmapsSay(disk, v);
    RootEntries(v);
    EntryOnDisk(disk, v, 2, [46], 2, 2);
    EntryOnDisk(disk, v, 2, [46, 46], 2, 2);
  }

  lemma BitmapsSay(disk: seq<seq<byte>>, v: Vol)
    requires Represents(disk, v) && v.used == BlockBits(v.total) && v.inodeUsed == InodeBits()
    ensures forall i :: 0 <= i < 32768 ==> Bit(disk[2], i) == (i < 261 || v.total <= i)
    ensures forall i :: 0 <= i < 32768 ==> Bit(disk[3], i) == (i < 10 || 8192 <= i)
  {
    hide Bit, CountsAre, TableIs, DataIs;
  }

  lemma RootEntries(v: Vol)
    requires Inv(v) && FIRST_DATA + 1 < v.total <= MAX_BLOCKS && |v.data| == MAX_BLOCKS
    requires v == Formatted(v.total, v.data)
    ensures HasEntry(v, 2, DOT, 2, 2) && HasEntry(v, 2, DOTDOT, 2, 2)
  {
    hide Inv, Tiled, Good, Entries, NewDir, Inode.Fits, BlockBits, InodeBits;
    InvCounted(v);
    DirInodeFits(FIRST_DATA);
    NewDirEntries(2, 2);
    DirOfInv(v, 2);
    var es := List(v, 2);
    assert Bears(es[0], DOT, 2, 2) && Bears(es[1], DOTDOT, 2, 2);
  }
}
