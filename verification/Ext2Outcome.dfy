/**
 What the operations of the ext2 driver leave behind: the outcome of storing, removing, walking and making
 directories as predicates on volumes, and the lemmas that put the steps of each operation together.
 */
module Ext2Outcome {
  import opened Bytes
  import opened Bits
  import opened Ext2Layout
  import opened Ext2Dir
  import opened Ext2Volume
  import opened Ext2Files
  import opened Ext2Paths
  import opened Ext2Store
  import opened Ext2Format
  import opened Ext2Disk

  // ------------------------------------------------------- metadata blocks

  lemma ShapeKept(disk: seq<seq<byte>>, v: Vol)
    requires Represents(disk, v) && Shaped(v)
    ensures Shape(disk) && |v.data| == MAX_BLOCKS
  {
  }

  lemma Bitmaps(disk: seq<seq<byte>>, v: Vol)
    requires Represents(disk, v)
    ensures Shape(disk) && BitsAre(disk[BLOCK_BITMAP], v.used) && BitsAre(disk[INODE_BITMAP], v.inodeUsed)
  {
  }

  lemma DataOnDisk(disk: seq<seq<byte>>, v: Vol, n: nat)
    requires Represents(disk, v) && FIRST_DATA <= n < MAX_BLOCKS
    ensures n < |disk| && n < |v.data| && disk[n] == v.data[n] && |disk[n]| == BS
  {
    hide BitsAre, CountsAre, TableIs;
  }

  /** Counts read from 32-bit and 16-bit fields fit them. */
  lemma SmallCounts(disk: seq<seq<byte>>, v: Vol)
    requires Represents(disk, v)
    ensures v.freeBlocks == Wrap32(v.freeBlocks) && v.freeInodes == Wrap32(v.freeInodes)
    ensures v.groupBlocks == Wrap16(v.groupBlocks) && v.groupInodes == Wrap16(v.groupInodes)
            && v.groupDirs == Wrap16(v.groupDirs)
  {
    hide U16, U32, BitsAre, TableIs, DataIs;
    U32Fits(disk[0], 1036);
    U32Fits(disk[0], 1040);
    U16Fits(disk[1], 12);
    U16Fits(disk[1], 14);
    U16Fits(disk[1], 16);
  }

  lemma TwoCounts(b: seq<byte>, x: nat, y: nat)
    requires |b| == BS && x < 0x1_0000_0000 && y < 0x1_0000_0000
    ensures U32(W32(W32(b, 1036, x), 1040, y), 1036) == x && U32(W32(W32(b, 1036, x), 1040, y), 1040) == y
  {
    hide U32, W32;
    W32Reads(b, 1036, x);
    W32Reads(W32(b, 1036, x), 1040, y);
    U32Kept(W32(b, 1036, x), 1040, y, 1036);
  }

  lemma ThreeCounts(b: seq<byte>, x: nat, y: nat, z: nat)
    requires |b| == BS && x < 0x1_0000 && y < 0x1_0000 && z < 0x1_0000
    ensures var r := W16(W16(W16(b, 12, x), 14, y), 16, z); U16(r, 12) == x && U16(r, 14) == y && U16(r, 16) == z
  {
    hide U16, W16;
    var b1 := W16(b, 12, x);
    var b2 := W16(b1, 14, y);
    W16Reads(b, 12, x);
    W16Reads(b1, 14, y);
    W16Reads(b2, 16, z);
    U16Kept(b1, 14, y, 12);
    U16Kept(b2, 16, z, 12);
    U16Kept(b2, 16, z, 14);
  }

  // ------------------------------------------------------ directory blocks

  lemma EntryHere(b: seq<byte>, p: nat)
    requires |b| == BS && p + 8 <= BS && Tiled(b, p)
    ensures RecordOk(b, p) && p + 8 + Len(b, p) <= BS && EntryAt(b, p).rec == Rec(b, p) >= 8
  {
  }

  /** Records are at least eight bytes long, so a tiled rest of less is no rest. */
  lemma NoneLeft(b: seq<byte>, p: nat)
    requires |b| == BS && p <= BS && Tiled(b, p) && p + 8 > BS
    ensures p == BS && Entries(b, p) == []
  {
  }

  lemma AddedIs(b: seq<byte>, ino: nat, kind: byte, name: seq<byte>)
    requires |b| == BS && Tiled(b, 0) && |name| < 256 && ino < 0x1_0000_0000 && RoomFor(Entries(b, 0), |name|)
    requires var q := RoomAt(b, 0, |name|);
             q + 8 <= BS && Rec(b, q) >= Ideal(Len(b, q)) + Ideal(|name|) && q + Rec(b, q) <= BS
    ensures Added(b, ino, kind, name) == AddRecord(b, RoomAt(b, 0, |name|), ino, kind, name)
  {
    hide Rec, Len, Ideal, HasRoom, RecordOk, EntryAt, Tiled, Entries, Inserted, RoomFor, RoomAt, AddRecord;
  }

  /** One step of dir_add's search through a well-formed directory block. */
  lemma RoomStep(b: seq<byte>, q: nat, n: nat)
    requires |b| == BS && q + 8 <= BS && Tiled(b, q)
    ensures 8 <= Rec(b, q) && q + Rec(b, q) <= BS && Tiled(b, q + Rec(b, q))
    ensures RoomAt(b, q, n) == if U32(b, q) != 0 && Rec(b, q) >= Ideal(Len(b, q)) + Ideal(n) then q
                               else RoomAt(b, q + Rec(b, q), n)
  {
    hide Rec, Len, Ideal, U32, Entries;
    TiledStep(b, q);
    EntryFields(b, q);
    EntryIno(b, q);
  }

  lemma NoRoomLeft(b: seq<byte>, q: nat, n: nat)
    requires |b| == BS && q <= BS < q + 8 && Tiled(b, q)
    ensures RoomAt(b, q, n) == BS
  {
    hide Rec, Len, Ideal, Entries;
  }

  lemma SameFindsSelf(v: Vol)
    requires Shaped(v)
    ensures SameFinds(v, v)
  {
    hide Find, DirOk;
  }

  /** An inode is a well-formed directory or no directory at all. */
  lemma DirOrFile(v: Vol, d: nat)
    requires Inv(v) && ValidIno(d)
    ensures DirOk(v, d) == At(v, d).IsDir()
    ensures At(v, d).IsDir() ==> At(v, d).block[0] != 0 && FIRST_DATA <= At(v, d).block[0] < v.total
    ensures At(v, d).IsDir() ==> Tiled(Block(v, d), 0) && List(v, d) == Entries(Block(v, d), 0)
  {
    hide Tiled, Good, Entries, Counted, Apart, AllOwnWell, RefsOk, RefsUnique, FreeZero, Inode.IsDir;
    if At(v, d).IsDir() { DirBlockAt(v, d); }
  }

  /** A directory's block lies in the data area and holds its list. */
  lemma DirBlockAt(v: Vol, d: nat)
    requires Inv(v) && ValidIno(d) && At(v, d).IsDir()
    ensures DirOk(v, d) && FIRST_DATA <= At(v, d).block[0] < v.total && |Block(v, d)| == BS && Tiled(Block(v, d), 0)
    ensures List(v, d) == Entries(Block(v, d), 0)
  {
    hide Tiled, Good, Entries, Counted, Apart, RefsOk, RefsUnique, FreeZero, Owned, NoRepeat, Raw;
    IndirectOwned(v.data, At(v, d));
    assert OwnsWell(v, v.inodes[d - 1]);
  }

  lemma DirBlockUsed(v: Vol, d: nat)
    requires Inv(v) && DirOk(v, d)
    ensures v.used[At(v, d).block[0]]
  {
    hide Inv, Owned, DirOk;
    InvCounted(v);
    UsedDir(v, d);
    DirBlockOwned(v, d);
    OwnsOf(v, d - 1);
  }

  lemma StillDirs(v: Vol, v': Vol, d: nat)
    requires Inv(v) && Inv(v') && DirOk(v, d) && v'.inodes == v.inodes
    ensures DirOk(v', d)
  {
    hide Find, Tiled, Good, AllOwnWell, Apart, Counted, RefsOk, RefsUnique, FreeZero;
  }

  // ---------------------------------------------------- making a directory

  function OneMoreLink(n: Inode): Inode { n.(links := (n.links + 1) % 0x1_0000) }

  lemma LinksFit(n: Inode)
    requires n.Fits()
    ensures OneMoreLink(n).Fits() && OneMoreLink(n).IsDir() == n.IsDir() && OneMoreLink(n).block == n.block
  {
  }

  lemma DirInodeIs(x: nat)
    ensures |DirInode(x).block| == 15 && DirInode(x).block[0] == x
  {
  }

  lemma FindsNothing(v: Vol, t: nat)
    requires Shaped(v) && ValidIno(t) && !At(v, t).IsDir()
    ensures forall name :: Find(v, t, name) == 0
  {
  }

  /**
   The volume make_dir leaves before dir_add: an inode and a block taken, and a directory with `.` and `..` in
   them.
   */
  ghost function PrepareVol(v: Vol, parent: nat): (r: Vol)
    requires Shaped(v) && AllocInode(v).1 != 0 && AllocBlock(AllocInode(v).0).1 != 0
    ensures Shaped(r) && r.total == v.total
  {
    hide NewDir, Zeros;
    var (v1, ino) := AllocInode(v);
    var (v2, x) := AllocBlock(v1);
    DirInodeFits(x);
    v2.(data := v2.data[x := NewDir(ino, parent)], inodes := v2.inodes[ino - 1 := DirInode(x)])
  }

  ghost predicate PreparedBy(v: Vol, v': Vol, parent: nat, t: nat)
    requires Shaped(v)
  {
    t == AllocInode(v).1 != 0 && AllocBlock(AllocInode(v).0).1 != 0 && v' == PrepareVol(v, parent)
  }

  /** Inode `t`, free in `v`, is a directory with only `.` and `..` in `v'`; nothing allocated in `v` changed. */
  ghost predicate Prepared(v: Vol, v': Vol, t: nat, parent: nat)
  {
    && Shaped(v) && Shaped(v') && v'.total == v.total && ValidIno(t) && Unreserved(t) && !v.inodeUsed[t - 1]
       && t != parent
    && DirOk(v', t) && Unref(v', t) && ValidIno(parent)
    && v'.inodeUsed == v.inodeUsed[t - 1 := true] && v'.inodes == v.inodes[t - 1 := At(v', t)]
    && (forall x :: 0 <= x < MAX_BLOCKS && v.used[x] ==> v'.data[x] == v.data[x])
    && (forall d, name :: d != t ==> Find(v', d, name) == Find(v, d, name))
    && (forall name :: Find(v, t, name) == 0)
    && (forall name :: Find(v', t, name) == if name == DOT then t else if name == DOTDOT then parent else 0)
    && v'.groupDirs == v.groupDirs && At(v', t) == DirInode(At(v', t).block[0])
  }

  lemma PreparedNow(v: Vol, v3: Vol, v': Vol, t: nat, n: Inode, parent: nat)
    requires Inv(v) && Inv(v3) && Inv(v') && SameFinds(v, v3) && v3.total == v.total && Settled(v, parent)
    requires ValidIno(t) && Unreserved(t) && !v.inodeUsed[t - 1] && v3.inodeUsed == v.inodeUsed[t - 1 := true]
             && v3.inodes == v.inodes
    requires v' == v3.(inodes := v3.inodes[t - 1 := n]) && DirOk(v', t) && n == DirInode(n.block[0])
             && v3.groupDirs == v.groupDirs
    requires forall x :: 0 <= x < MAX_BLOCKS && v.used[x] ==> v3.data[x] == v.data[x]
    requires forall d, nm :: Find(v', d, nm) ==
               if d == t then (if nm == DOT then t else if nm == DOTDOT then parent else 0) else Find(v3, d, nm)
    ensures Prepared(v, v', t, parent)
  {
    hide AllOwnWell, Apart, Counted, DirsOk, RefsOk, RefsUnique, FreeZero, Find, DirOk, Inode.IsDir, Inode.Fits,
         DirSame, DirInode;
    FreeInodeUnref(v, t);
    FindsNothing(v, t);
    forall d, name ensures !Ref(v', d, name, t) { assert !Ref(v, d, name, t); }
  }

  /** What the first half of make_dir does, once there are an inode and a block. */
  lemma PrepareFacts(v: Vol, parent: nat)
    requires Inv(v) && Settled(v, parent) && v.freeInodes > 0 && v.freeBlocks > 0
    ensures AllocInode(v).1 != 0 && AllocBlock(AllocInode(v).0).1 != 0
    ensures var v' := PrepareVol(v, parent);
            && Inv(v') && Prepared(v, v', AllocInode(v).1, parent)
            && v'.freeInodes == v.freeInodes - 1 && v'.freeBlocks == v.freeBlocks - 1
            && List(v', AllocInode(v).1) == NewList(AllocInode(v).1, parent)
  {
    hide Inv, AllocInode, AllocBlock, NewDir, Inode.IsDir, Inode.Fits, ZeroInode, SameFinds, Unref, Unowned, Find,
         DirOk,
         DirInode, Prepared, Wrap16, Wrap32;
    InvCounted(v);
    AllocInodeKeeps(v);
    AllocFull(v);
    var (v1, ino) := AllocInode(v);
    InvCounted(v1);
    AllocBlockKeeps(v1);
    AllocFull(v1);
    TakenCounts(v);
    TakenCounts(v1);
    var (v2, blk) := AllocBlock(v1);
    InvCounted(v2);
    FindsChain(v, v1, v2);
    var b, n := NewDir(ino, parent), DirInode(blk);
    var v3 := v2.(data := v2.data[blk := b]);
    DataKeeps(v2, blk, b);
    FindsChain(v, v2, v3);
    FindsChain(v1, v2, v3);
    DirInodeFits(blk);
    UnrefSame(v1, v3, ino);
    NewDirKeeps(v3, ino, n, blk, parent);
    DirInodeIs(blk);
    var v' := v3.(inodes := v3.inodes[ino - 1 := n]);
    PreparedNow(v, v3, v', ino, n, parent);
    NewListIs(v', ino, parent);
  }

  /** The entries of a new directory. */
  function NewList(t: nat, parent: nat): seq<Entry> { [Entry(t, 12, 2, DOT), Entry(parent, BS - 12, 2, DOTDOT)] }

  lemma NewListIs(v: Vol, t: nat, parent: nat)
    requires Shaped(v) && DirOk(v, t) && ValidIno(parent) && v.data[At(v, t).block[0]] == NewDir(t, parent)
    ensures List(v, t) == NewList(t, parent)
  {
    hide NewDir, Tiled, Good, Entries;
    NewDirEntries(t, parent);
  }

  /** Taking a free inode or block lowers its count by one. */
  lemma TakenCounts(v: Vol)
    requires Inv(v)
    ensures AllocInode(v).1 != 0 ==> AllocInode(v).0.freeInodes == v.freeInodes - 1
    ensures AllocBlock(v).1 != 0 ==> AllocBlock(v).0.freeBlocks == v.freeBlocks - 1
  {
    hide AllOwnWell, Apart, DirsOk, RefsOk, RefsUnique, FreeZero, FirstClear, Clear;
    AllocFull(v);
    ClearBound(v.used);
    ClearBound(v.inodeUsed);
  }

  /** Preparing a directory leaves its parent alone. */
  lemma ParentList(v: Vol, v1: Vol, t: nat, parent: nat)
    requires Inv(v) && DirOk(v, parent) && Prepared(v, v1, t, parent)
    ensures DirOk(v1, parent) && List(v1, parent) == List(v, parent)
  {
    hide Inv, Find, Entries, Unref, Inode.IsDir, Tiled, Good;
    UsedDir(v, parent);
    DirBlockUsed(v, parent);
  }

  lemma FramePrepared(v: Vol, v': Vol, t: nat, parent: nat)
    requires Inv(v) && DirOk(v, parent) && Prepared(v, v', t, parent)
    ensures Frame(v, v', 0)
  {
    hide Find, Tiled, Good, AllOwnWell, Apart, Counted, DirsOk, RefsOk, RefsUnique, FreeZero, Inode.IsDir;
    ParentList(v, v', t, parent);
    FrameMakeDir(v, v', t, parent);
  }

  /** There is an inode and a block for a directory and room for its name. */
  ghost predicate CanMake(v: Vol, d: nat, name: seq<byte>)
    requires Shaped(v)
  {
    v.freeInodes > 0 && v.freeBlocks > 0 && DirOk(v, d) && 0 < |name| < 256 && RoomFor(List(v, d), |name|)
  }

  /** What the volume binds once the prepared directory is entered in its parent. */
  ghost predicate Entered(v: Vol, v1: Vol, v2: Vol, t: nat, parent: nat, name: seq<byte>) {
    && Prepared(v, v1, t, parent) && Shaped(v2) && v2 == v1.(data := v2.data)
    && (forall x :: 0 <= x < MAX_BLOCKS && x != At(v, parent).block[0] ==> v2.data[x] == v1.data[x])
    && (forall d, nm :: Find(v2, d, nm) == if d == parent && nm == name then t else Find(v1, d, nm))
    && DirOk(v2, t) && DirOk(v2, parent)
  }

  lemma AddedToPrepared(v: Vol, v1: Vol, v2: Vol, t: nat, parent: nat, name: seq<byte>)
    requires Inv(v) && Inv(v1) && DirOk(v, parent) && Prepared(v, v1, t, parent) && Find(v, parent, name) == 0
    requires 0 < |name| < 256 && DirOk(v1, parent) && RoomFor(List(v1, parent), |name|)
    requires v2 == WithDir(v1, parent, Added(Block(v1, parent), t, 2, name))
    ensures Entered(v, v1, v2, t, parent, name)
  {
    hide Find, DirOk, DirsOk, AllOwnWell, Apart, Counted, RefsOk, RefsUnique, FreeZero, Inode.IsDir, RoomFor, Added,
         Raw, Unref;
    UsedDir(v, parent);
    ParentList(v, v1, t, parent);
    UsedDir(v1, parent);
    assert FileOrNew(v1, t, parent);
    DirAddKeeps(v1, parent, name, t, 2);
    StillDirs(v1, v2, parent);
    StillDirs(v1, v2, t);
  }

  /** What make_dir adds: one binding, an empty directory, one more link and one more directory. */
  ghost predicate Made(v: Vol, v': Vol, parent: nat, name: seq<byte>, t: nat) {
    && Shaped(v) && Shaped(v') && ValidIno(t) && ValidIno(parent) && t != parent && !v.inodeUsed[t - 1] && DirOk(v', t)
    && v'.inodes == v.inodes[t - 1 := DirInode(At(v', t).block[0])][parent - 1 := OneMoreLink(At(v, parent))]
    && v'.inodeUsed == v.inodeUsed[t - 1 := true] && v'.groupDirs == Wrap16(v.groupDirs + 1)
    && (forall d, nm :: Find(v', d, nm) ==
          if d == t then (if nm == DOT then t else if nm == DOTDOT then parent else 0)
          else if d == parent && nm == name then t else Find(v, d, nm))
  }

  /** One more directory counted, and one more link of its parent. */
  ghost function LinkVol(v: Vol, parent: nat): (r: Vol)
    requires Shaped(v) && ValidIno(parent)
    ensures Shaped(r)
  {
    hide Inode.Fits, OneMoreLink, Wrap16;
    LinksFit(At(v, parent));
    v.(groupDirs := Wrap16(v.groupDirs + 1), inodes := v.inodes[parent - 1 := OneMoreLink(At(v, parent))])
  }

  /** The volume after dir_add, if the directory has room. */
  ghost function AddVol(v: Vol, d: nat, name: seq<byte>, t: nat, kind: byte): (r: Vol)
    requires Shaped(v) && ValidIno(t)
    ensures Shaped(r)
  {
    hide RoomFor, Added, Inode.Fits, Tiled, Entries, Good;
    if !DirOk(v, d) || !RoomFor(List(v, d), |name|) || |name| >= 256 then v
    else
      DirBlock(v, d);
      WithDir(v, d, Added(Block(v, d), t, kind, name))
  }

  /** The volume a successful make_dir leaves. */
  ghost function MadeVol(v: Vol, parent: nat, name: seq<byte>): (r: Vol)
    requires Shaped(v) && AllocInode(v).1 != 0 && AllocBlock(AllocInode(v).0).1 != 0 && ValidIno(parent)
    ensures Shaped(r)
  {
    hide PrepareVol, AddVol, LinkVol;
    LinkVol(AddVol(PrepareVol(v, parent), parent, name, AllocInode(v).1, 2), parent)
  }

  ghost predicate MadeBy(v: Vol, v': Vol, parent: nat, name: seq<byte>, t: nat)
    requires Shaped(v)
  {
    && t == AllocInode(v).1 != 0 && AllocBlock(AllocInode(v).0).1 != 0 && ValidIno(parent)
    && v' == MadeVol(v, parent, name)
  }

  lemma PreparedEntries(v: Vol, v': Vol, parent: nat, t: nat)
    requires Inv(v) && PreparedBy(v, v', parent, t) && Inv(v') && 0 < parent <= INODES && ValidIno(t)
    ensures HasEntry(v', t, DOT, t, 2) && HasEntry(v', t, DOTDOT, parent, 2)
  {
    hide Inv, Tiled, Good, Entries, NewDir, AllocInode, AllocBlock, Inode.Fits;
    InvCounted(v);
    InvCounted(v');
    AllocInodeKeeps(v);
    InvCounted(AllocInode(v).0);
    AllocBlockKeeps(AllocInode(v).0);
    var x := AllocBlock(AllocInode(v).0).1;
    DirInodeFits(x);
    NewDirEntries(t, parent);
    DirOfInv(v', t);
    var es := List(v', t);
    assert Bears(es[0], DOT, t, 2) && Bears(es[1], DOTDOT, parent, 2);
  }

  /** The three entries of a new directory: its name, and its own `.` and `..`. */
  lemma MadeEntries(v1: Vol, v2: Vol, v3: Vol, parent: nat, name: seq<byte>, t: nat)
    requires Inv(v1) && Inv(v2) && Inv(v3) && ValidIno(t) && t != parent && DirOk(v1, parent) && |name| < 256
    requires RoomFor(List(v1, parent), |name|) && v2 == WithDir(v1, parent, Added(Block(v1, parent), t, 2, name))
    requires Shaped(v2) && ValidIno(parent) && v3 == LinkVol(v2, parent)
    requires HasEntry(v1, t, DOT, t, 2) && HasEntry(v1, t, DOTDOT, parent, 2)
    ensures HasEntry(v3, parent, name, t, 2) && HasEntry(v3, t, DOT, t, 2) && HasEntry(v3, t, DOTDOT, parent, 2)
  {
    hide Inv, Tiled, Good, Entries, Added, RoomFor, Inode.IsDir, Inode.Fits, Bears, OneMoreLink, Wrap16;
    InvCounted(v1);
    InvCounted(v3);
    AddedHas(v1, parent, t, 2, name);
    BlocksDiffer(v1, t, parent);
    LinksFit(At(v2, parent));
    SameEntry(v1, v2, t, DOT, t, 2);
    SameEntry(v1, v2, t, DOTDOT, parent, 2);
    SameEntry(v2, v3, t, DOT, t, 2);
    SameEntry(v2, v3, t, DOTDOT, parent, 2);
    SameEntry(v2, v3, parent, name, t, 2);
  }

  /**
   A new directory as the disk has it: mode drwxr-xr-x, two links, one block of 4096 bytes that names itself `.` and
   its parent `..`, and the parent, with one more link, names it; all three records have type 2.
   */
  ghost predicate DirOnDisk(disk0: seq<seq<byte>>, disk: seq<seq<byte>>, parent: nat, name: seq<byte>, t: nat) {
    && OnDisk(disk, t, 0x4000 + 0x1ed, 0, 0, 2, 4096, 8)
    && NamedOnDisk(disk, parent, name, t, 2)
    && NamedOnDisk(disk, t, [46], t, 2) && NamedOnDisk(disk, t, [46, 46], parent, 2)
    && forall m, u, g, links: nat, s, k :: OnDisk(disk0, parent, m, u, g, links, s, k) ==>
                                             OnDisk(disk, parent, m, u, g, (links + 1) % 0x1_0000, s, k)
  }

  lemma MadeOnDisk(v0: Vol, disk0: seq<seq<byte>>, v: Vol, disk: seq<seq<byte>>, parent: nat, name: seq<byte>, t: nat)
    requires Represents(disk0, v0) && Represents(disk, v) && Inv(v) && Made(v0, v, parent, name, t)
    requires HasEntry(v, parent, name, t, 2) && HasEntry(v, t, DOT, t, 2) && HasEntry(v, t, DOTDOT, parent, 2)
    ensures DirOnDisk(disk0, disk, parent, name, t)
  {
    hide Inv, Represents, Find, DirOk, HasEntry, NamedOnDisk, U16, U32, Inode.Fits;
    InodeOnDisk(disk, v, t);
    InodeOnDisk(disk0, v0, parent);
    InodeOnDisk(disk, v, parent);
    EntryOnDisk(disk, v, parent, name, t, 2);
    EntryOnDisk(disk, v, t, DOT, t, 2);
    EntryOnDisk(disk, v, t, DOTDOT, parent, 2);
  }

  /** Inode `t`, free in `v`, is a new directory beneath `parent`, which binds it at most by one more name. */
  ghost predicate NewBelow(v: Vol, v': Vol, parent: nat, t: nat) {
    && Shaped(v) && Shaped(v') && ValidIno(t) && Unreserved(t) && !v.inodeUsed[t - 1] && DirOk(v', t)
    && v'.inodeUsed == v.inodeUsed[t - 1 := true]
    && (forall nm :: Find(v', t, nm) == if nm == DOT then t else if nm == DOTDOT then parent else 0)
    && (forall d, nm :: d != t ==> Find(v', d, nm) == Find(v, d, nm) || (d == parent && Find(v', d, nm) == t))
  }

  lemma ClosedAfterMake(v: Vol, v': Vol, s: set<nat>, parent: nat, t: nat)
    requires Shaped(v) && Closed(v, s) && parent in s && NewBelow(v, v', parent, t)
    ensures Closed(v', s + {t})
  {
    hide Find, DirOk;
    forall d, nm | d in s + {t} && Find(v', d, nm) != 0 ensures Find(v', d, nm) in s + {t} { }
  }

  lemma FrameLinked(v: Vol, v1: Vol, v2: Vol, v3: Vol, t: nat, parent: nat, name: seq<byte>)
    requires Inv(v) && DirOk(v, parent) && Entered(v, v1, v2, t, parent, name) && Find(v, parent, name) == 0
    requires Shaped(v3) && SameFinds(v2, v3) && ValidIno(parent) && At(v3, parent).IsDir()
    requires v3 == v2.(groupDirs := Wrap16(v2.groupDirs + 1),
             inodes := v2.inodes[parent - 1 := OneMoreLink(At(v2, parent))])
    ensures Frame(v, v3, 0) && Made(v, v3, parent, name, t)
  {
    hide Find, AllOwnWell, Apart, Counted, DirsOk, RefsOk, RefsUnique, FreeZero, Inode.IsDir, DirOk, Unref, Frame,
         Dotted, DirInode, OneMoreLink, Wrap16;
    UsedDir(v, parent);
    FrameMakeDir(v, v3, t, parent);
  }

  /** A make_dir that can succeed keeps the invariant, takes one inode and one block, and adds an empty directory. */
  lemma MadeFacts(v: Vol, parent: nat, name: seq<byte>)
    requires Inv(v) && CanMake(v, parent, name) && Find(v, parent, name) == 0
    ensures AllocInode(v).1 != 0 && AllocBlock(AllocInode(v).0).1 != 0 && ValidIno(parent)
    ensures var v', t := MadeVol(v, parent, name), AllocInode(v).1;
            && Inv(v') && Frame(v, v', 0) && Made(v, v', parent, name, t)
            && v'.freeInodes == v.freeInodes - 1 && v'.freeBlocks == v.freeBlocks - 1
            && List(v', t) == NewList(t, parent)
  {
    hide Inv, AllocInode, AllocBlock, Inode.IsDir, Find, RoomFor, Frame, Made, PrepareVol, AddVol, LinkVol, DirOk,
         NewList,
         Prepared, Entered;
    InvCounted(v);
    UsedIsSettled(v, parent);
    PrepareFacts(v, parent);
    var t, v1 := AllocInode(v).1, PrepareVol(v, parent);
    AddFacts(v, v1, t, parent, name);
    var v2 := AddVol(v1, parent, name, t, 2);
    var v3 := LinkVol(v2, parent);
    LinkFacts(v2, parent);
    LinkVolIs(v2, parent);
    FrameLinked(v, v1, v2, v3, t, parent, name);
    MadeNewDir(v, v3, t, parent, name);
    NewListKept(v, v1, v2, v3, t, parent, name);
  }

  lemma LinkVolIs(v: Vol, parent: nat)
    requires Shaped(v) && ValidIno(parent)
    ensures LinkVol(v, parent) == v.(groupDirs := Wrap16(v.groupDirs + 1),
                                     inodes := v.inodes[parent - 1 := OneMoreLink(At(v, parent))])
  {
  }

  lemma MadeNewDir(v: Vol, v': Vol, t: nat, parent: nat, name: seq<byte>)
    requires Made(v, v', parent, name, t)
    ensures DirOk(v', t)
  {
    hide DirOk, Find;
  }

  /** dir_add of a prepared directory. */
  lemma AddFacts(v: Vol, v1: Vol, t: nat, parent: nat, name: seq<byte>)
    requires Inv(v) && Inv(v1) && DirOk(v, parent) && Find(v, parent, name) == 0 && Prepared(v, v1, t, parent)
    requires 0 < |name| < 256 && RoomFor(List(v, parent), |name|)
    ensures ValidIno(t) && Shaped(v1)
    ensures var v2 := AddVol(v1, parent, name, t, 2);
            && Inv(v2) && Entered(v, v1, v2, t, parent, name) && Settled(v2, parent) && At(v2, parent).IsDir()
            && v2 == v1.(data := v2.data)
  {
    hide Inv, Find, Unref, RoomFor, Added, Tiled, Good, Entries, Inode.IsDir, Frame, FileOrNew;
    InvCounted(v1);
    ParentList(v, v1, t, parent);
    PreparedIsNew(v, v1, t, parent);
    var v2 := WithDir(v1, parent, Added(Block(v1, parent), t, 2, name));
    AddedToPrepared(v, v1, v2, t, parent, name);
    DirAddKeeps(v1, parent, name, t, 2);
    UsedIsSettled(v2, parent);
    UsedDir(v2, parent);
  }

  lemma AddVolIs(v: Vol, d: nat, name: seq<byte>, t: nat, kind: byte)
    requires Shaped(v) && ValidIno(t) && DirOk(v, d) && RoomFor(List(v, d), |name|) && |name| < 256
    ensures AddVol(v, d, name, t, kind) == WithDir(v, d, Added(Block(v, d), t, kind, name))
  {
    hide RoomFor, Added, Tiled, Good, Entries;
  }

  lemma PreparedKeeps(v: Vol, v1: Vol, t: nat, parent: nat, name: seq<byte>)
    requires Prepared(v, v1, t, parent) && Settled(v, parent) && Find(v, parent, name) == 0
    ensures Settled(v1, parent) && Find(v1, parent, name) == 0
  {
    hide Find, DirOk, Unref;
  }

  lemma StillNoDir(v: Vol, v1: Vol, t: nat, parent: nat)
    requires Inv(v) && Prepared(v, v1, t, parent) && !DirOk(v, parent)
    ensures !DirOk(v1, parent)
  {
    hide Inv, Find, Unref, Tiled, Good, Entries;
    DirOrFile(v, parent);
  }

  lemma MadeIsBelow(v: Vol, v': Vol, parent: nat, name: seq<byte>, t: nat)
    requires Inv(v') && Made(v, v', parent, name, t)
    ensures NewBelow(v, v', parent, t)
  {
    hide Inv, Find, DirOk, DirInode, OneMoreLink, Wrap16;
    UsedDir(v', t);
  }

  /** A directory made beneath a file is bound nowhere. */
  lemma LooseBelow(v: Vol, v1: Vol, v2: Vol, v': Vol, parent: nat, t: nat)
    requires Prepared(v, v1, t, parent) && Shaped(v2) && Shaped(v') && SameFinds(v1, v2) && SameFinds(v2, v')
    requires v'.inodeUsed == v2.inodeUsed == v1.inodeUsed
    ensures NewBelow(v, v', parent, t)
  {
    hide Find, DirOk, Unref, DirInode;
  }

  lemma UsedIsSettled(v: Vol, d: nat)
    requires Inv(v) && DirOk(v, d)
    ensures Settled(v, d)
  {
    hide Inv, DirOk;
    UsedDir(v, d);
  }

  lemma PreparedIsNew(v: Vol, v1: Vol, t: nat, parent: nat)
    requires Prepared(v, v1, t, parent)
    ensures Settled(v1, t) && Unref(v1, t) && t != parent && FileOrNew(v1, t, parent)
  {
    hide Find, DirOk, Unref;
  }

  /** Counting one more directory and one more link of its parent. */
  lemma LinkFacts(v: Vol, parent: nat)
    requires Inv(v) && Settled(v, parent)
    ensures var v' := v.(groupDirs := Wrap16(v.groupDirs + 1),
                         inodes := v.inodes[parent - 1 := OneMoreLink(At(v, parent))]);
            Inv(v') && SameFinds(v, v') && At(v', parent).IsDir() == At(v, parent).IsDir()
  {
    hide Inv, SameFinds, Find, DirOk, Wrap16, OneMoreLink, Inode.IsDir, Inode.Fits;
    InvCounted(v);
    var v1 := v.(groupDirs := Wrap16(v.groupDirs + 1));
    DirCountKeep(v, v1.groupDirs);
    LinksFit(At(v, parent));
    LinksKeep(v1, parent, OneMoreLink(At(v, parent)));
    FindsChain(v, v1, v1.(inodes := v1.inodes[parent - 1 := OneMoreLink(At(v, parent))]));
  }

  lemma NewListKept(v: Vol, v1: Vol, v2: Vol, v3: Vol, t: nat, parent: nat, name: seq<byte>)
    requires Inv(v1) && Entered(v, v1, v2, t, parent, name) && DirOk(v, parent) && Shaped(v3) && DirOk(v3, t)
    requires v3.data == v2.data && v3.inodes == v2.inodes[parent - 1 := v3.inodes[parent - 1]]
    ensures DirOk(v1, t) && List(v3, t) == List(v1, t)
  {
    hide Inv, Tiled, Good, Entries, Inode.IsDir, Owned, Find, Unref;
    InvCounted(v1);
    DirBlock(v1, t);
    EnteredParent(v, v1, v2, t, parent, name);
    DirBlockOwned(v1, parent);
    DirBlockOwned(v1, t);
    assert At(v3, t) == At(v1, t);
  }

  lemma EnteredParent(v: Vol, v1: Vol, v2: Vol, t: nat, parent: nat, name: seq<byte>)
    requires Inv(v1) && Entered(v, v1, v2, t, parent, name)
    ensures DirOk(v1, parent) && At(v1, parent) == At(v, parent)
  {
    hide Tiled, Good, Entries, Find, Unref, Counted, AllOwnWell, Apart, RefsOk, RefsUnique, FreeZero;
  }

  // -------------------------------------------------------- walking a path

  /** What walk without `create` reports. */
  ghost predicate Looked(v: Vol, names: seq<seq<byte>>, ok: bool, parent: nat, found: nat)
    requires Shaped(v) && names != []
  {
    && ok == (Parent(v, ROOT_INO, names) != 0)
    && (ok ==> parent == Parent(v, ROOT_INO, names) && found == Resolve(v, ROOT_INO, names))
  }

  /**
   What walk with `create` leaves and reports for a path through no file: success and result are those of `Created`;
   everything that was there is framed; nothing is made when the parent is there.
   */
  ghost predicate Walked(v0: Vol, v: Vol, names: seq<seq<byte>>, ok: bool, parent: nat) {
    && Inv(v0) && Inv(v) && names != [] && Frame(v0, v, 0)
    && Created(v0, ROOT_INO, names) == (if ok then Arrived(v, parent) else Blocked)
    && (Parent(v0, ROOT_INO, names) != 0 ==> ok && v == v0)
    && (ok ==>
          && parent != 0 && parent == Parent(v, ROOT_INO, names) && DirOk(v, parent) && OnlyDirsAdded(v0, v, 0)
          && Resolve(v, ROOT_INO, names) == Find(v, parent, names[|names| - 1])
          && Tracks(v0, Goal(v0, RootSpot(), names), Spot(parent, 0)))
  }

  /** The state of such a walk: `done` led to `cur`, and `rest` is to go. */
  ghost predicate OnTheWay(v0: Vol, v: Vol, names: seq<seq<byte>>, done: seq<seq<byte>>, cur: nat, rest: seq<seq<byte>>)
  {
    && Inv(v0) && Inv(v) && Frame(v0, v, 0) && OnlyDirsAdded(v0, v, 0) && names == done + rest && rest != []
    && Reach(v, ROOT_INO, done, cur) && cur != 0 && DirOk(v, cur) && Walkable(v, Spot(cur, 0), rest)
    && Tracks(v0, Goal(v0, RootSpot(), names), Goal(v, Spot(cur, 0), rest))
    && (v == v0 || Parent(v0, ROOT_INO, names) == 0)
    && Created(v0, ROOT_INO, names) == Created(v, cur, rest)
  }

  /** One step of it. */
  ghost predicate Entering(v: Vol, v': Vol, cur: nat, name: seq<byte>, rest: seq<seq<byte>>, ok: bool, next: nat) {
    && Inv(v) && Inv(v') && Frame(v, v', 0) && (Find(v, cur, name) != 0 ==> ok && v' == v)
    && Created(v, cur, [name] + rest) == (if ok then Created(v', next, rest) else Blocked)
    && (ok ==>
          && OnlyDirsAdded(v, v', 0) && next != 0 && next == Find(v', cur, name) && DirOk(v', next)
          && Walkable(v', Spot(next, 0), rest)
          && Follows(v, Goal(v, Spot(cur, 0), [name] + rest), Goal(v', Spot(next, 0), rest)))
  }

  /** `s` on the volume before a step of walk is where `s'` is on the volume after it. */
  ghost predicate Follows(v: Vol, s: Spot, s': Spot)
    requires Shaped(v)
  {
    s' == s || (s.below == s'.below + 1 && ValidIno(s'.dir) && !v.inodeUsed[s'.dir - 1])
  }

  /** `s` on the starting volume is where `s'` is now. */
  ghost predicate Tracks(v0: Vol, s: Spot, s': Spot)
    requires Shaped(v0)
  {
    if s.below == 0 then s' == s else s'.below == 0 ==> ValidIno(s'.dir) && !v0.inodeUsed[s'.dir - 1]
  }

  lemma TracksSelf(v: Vol, s: Spot)
    requires Shaped(v)
    ensures Tracks(v, s, s)
  {
  }

  lemma TracksOn(v0: Vol, v: Vol, s0: Spot, s: Spot, s': Spot)
    requires Frame(v0, v, 0) && Tracks(v0, s0, s) && Follows(v, s, s')
    ensures Tracks(v0, s0, s')
  {
    hide Find, Kept, Inode.IsDir;
    if s' != s { assert v0.inodeUsed[s'.dir - 1] ==> FrameInode(v0, v, s'.dir); }
  }

  /** Every binding that is not to a directory or to `except` was there before. */
  ghost predicate OnlyDirsAdded(v: Vol, v': Vol, except: nat)
    requires Shaped(v) && Shaped(v')
  {
    forall d, nm :: FileRef(v', d, nm) && Find(v', d, nm) != except ==> Find(v, d, nm) == Find(v', d, nm)
  }

  /** `nm`, other than `.` and `..`, is bound in directory `d`, and to a file. */
  ghost predicate FileRef(v: Vol, d: nat, nm: seq<byte>)
    requires Shaped(v)
  {
    !Dotted(nm) && ValidIno(Find(v, d, nm)) && !At(v, Find(v, d, nm)).IsDir()
  }

  lemma NothingAdded(v: Vol)
    requires Shaped(v)
    ensures OnlyDirsAdded(v, v, 0)
  {
  }

  lemma AddedTransitive(v0: Vol, v1: Vol, v2: Vol)
    requires Inv(v1) && Frame(v0, v1, 0) && Frame(v1, v2, 0) && OnlyDirsAdded(v0, v1, 0) && OnlyDirsAdded(v1, v2, 0)
    ensures OnlyDirsAdded(v0, v2, 0)
  {
    hide Find, Inode.IsDir, Counted, AllOwnWell, Apart, DirsOk, RefsUnique, FreeZero, Kept;
    forall d, nm | FileRef(v2, d, nm) ensures Find(v0, d, nm) == Find(v2, d, nm) {
      assert RefOk(v1, d, nm);
      assert FrameInode(v1, v2, Find(v1, d, nm));
      assert FileRef(v1, d, nm);
    }
  }

  lemma MadeOnlyDir(v: Vol, v': Vol, parent: nat, name: seq<byte>, t: nat)
    requires Inv(v) && DirOk(v, parent) && Frame(v, v', 0) && Made(v, v', parent, name, t)
    ensures OnlyDirsAdded(v, v', 0)
  {
    hide Find, Inv, Inode.IsDir, Kept, Tiled, Good;
    UsedDir(v, parent);
    assert FrameInode(v, v', parent);
  }

  /** `s` before inode `t` was made a directory below `d` is `s'` after it. */
  predicate Alike(d: nat, t: nat, s: Spot, s': Spot) {
    s' == s || (s.below > 0 && s.dir == d && s' == Spot(t, s.below - 1))
  }

  /** One name on the volume before make_dir and the same name on the volume after it. */
  lemma NextAlike(v: Vol, v': Vol, d: nat, name: seq<byte>, t: nat, s: Spot, s': Spot, nm: seq<byte>)
    requires Inv(v) && DirOk(v, s.dir) && Made(v, v', d, name, t) && Find(v, d, name) == 0 && t != 0
    requires Alike(d, t, s, s')
    ensures Alike(d, t, Next(v, s, nm), Next(v', s', nm))
  {
    hide Find, Inv, Inode.IsDir, DirOk, DirInode, OneMoreLink;
    UsedDir(v, s.dir);
  }

  lemma MadeBinds(v: Vol, v': Vol, d: nat, name: seq<byte>, t: nat)
    requires Made(v, v', d, name, t)
    ensures t != 0 && Find(v', d, name) == t && DirOk(v', t)
  {
    hide Find, DirOk;
  }

  lemma NextDir(v: Vol, s: Spot, nm: seq<byte>)
    requires Inv(v) && DirOk(v, s.dir)
    requires var n := Next(v, s, nm); n.below == 0 ==> ValidIno(n.dir) && At(v, n.dir).IsDir()
    ensures DirOk(v, Next(v, s, nm).dir)
  {
    hide Find, Inv, Inode.IsDir, Tiled, Good;
    InvCounted(v);
    var n := Next(v, s, nm);
    if n.below == 0 { DirBlockAt(v, n.dir); }
  }

  lemma NewIsDir(v: Vol, v': Vol, d: nat, name: seq<byte>, t: nat)
    requires Made(v, v', d, name, t)
    ensures At(v', t).IsDir() && !v.inodeUsed[t - 1]
  {
    hide Find, Tiled, Good, DirInode, OneMoreLink;
  }

  /** Making a missing directory changes neither where a path goes on nor whether it can. */
  lemma {:induction false} WalkAlike(v: Vol, v': Vol, d: nat, name: seq<byte>, t: nat, s: Spot, s': Spot,
                                     names: seq<seq<byte>>)
    requires Inv(v) && DirOk(v, s.dir) && Made(v, v', d, name, t) && Find(v, d, name) == 0 && Frame(v, v', 0)
    requires Alike(d, t, s, s')
    requires Walkable(v, s, names)
    ensures Walkable(v', s', names) && Follows(v, Goal(v, s, names), Goal(v', s', names))
    decreases names
  {
    hide Find, Inv, Inode.IsDir, DirOk, DirInode, OneMoreLink, Next, Kept;
    if |names| > 1 {
      var n, n' := Next(v, s, names[0]), Next(v', s', names[0]);
      NextAlike(v, v', d, name, t, s, s', names[0]);
      NextDir(v, s, names[0]);
      UsedDir(v, n.dir);
      assert FrameInode(v, v', n.dir);
      NewIsDir(v, v', d, name, t);
      WalkAlike(v, v', d, name, t, n, n', names[1..]);
    }
  }

  lemma RootIs(v: Vol)
    requires Inv(v)
    ensures DirOk(v, ROOT_INO) && Reach(v, ROOT_INO, [], ROOT_INO)
  {
    hide DirOk, Counted, AllOwnWell, Apart, RefsOk, RefsUnique, FreeZero;
  }

  lemma LastName(v: Vol, d: nat, name: seq<byte>, rest: seq<seq<byte>>)
    requires Shaped(v) && rest == [name]
    ensures Parent(v, d, rest) == d && Resolve(v, d, rest) == Find(v, d, name)
            && Goal(v, Spot(d, 0), rest) == Spot(d, 0)
  {
  }

  lemma MissingParent(v: Vol, d: nat, rest: seq<seq<byte>>)
    requires Shaped(v) && |rest| > 1
    ensures Find(v, d, rest[0]) == 0 ==> Parent(v, d, rest) == 0
  {
  }

  lemma ClosedStep(v: Vol, s: set<nat>, d: nat, nm: seq<byte>)
    requires Shaped(v) && Closed(v, s) && d in s
    ensures Settled(v, d) && (Find(v, d, nm) != 0 ==> Settled(v, Find(v, d, nm)) && Find(v, d, nm) in s)
  {
    hide Find;
  }

  datatype Arrival = Blocked | Arrived(vol: Vol, dir: nat)

  /**
   walk with `create` set, on values: the volume with the missing directories made and the directory of the last name,
   or nothing when one of them cannot be made.
   */
  ghost function Created(v: Vol, d: nat, names: seq<seq<byte>>): Arrival
    requires Inv(v)
    decreases names
  {
    if |names| <= 1 then Arrived(v, d)
    else
      var t := Find(v, d, names[0]);
      if t != 0 then Created(v, t, names[1..])
      else if !CanMake(v, d, names[0]) then Blocked
      else
        MadeFacts(v, d, names[0]);
        Created(MadeVol(v, d, names[0]), AllocInode(v).1, names[1..])
  }

  /** One step of it. */
  lemma CreatedStep(v: Vol, d: nat, name: seq<byte>, rest: seq<seq<byte>>)
    requires Inv(v) && rest != []
    ensures Find(v, d, name) != 0 ==> Created(v, d, [name] + rest) == Created(v, Find(v, d, name), rest)
    ensures Find(v, d, name) == 0 && !CanMake(v, d, name) ==> Created(v, d, [name] + rest) == Blocked
    ensures Find(v, d, name) == 0 && CanMake(v, d, name) ==>
              && AllocInode(v).1 != 0 && AllocBlock(AllocInode(v).0).1 != 0 && Inv(MadeVol(v, d, name))
              && Created(v, d, [name] + rest) == Created(MadeVol(v, d, name), AllocInode(v).1, rest)
  {
    hide Inv, Find, CanMake, MadeVol, AllocInode, AllocBlock;
    InvCounted(v);
    assert ([name] + rest)[1..] == rest;
    if Find(v, d, name) == 0 && CanMake(v, d, name) { MadeFacts(v, d, name); }
  }

  /** With every directory present, nothing is made. */
  lemma {:induction false} CreatedPresent(v: Vol, d: nat, names: seq<seq<byte>>)
    requires Inv(v) && names != [] && Parent(v, d, names) != 0
    ensures Created(v, d, names) == Arrived(v, Parent(v, d, names))
    decreases names
  {
    hide Inv, Find, CanMake, MadeVol, AllocInode, AllocBlock;
    InvCounted(v);
    if |names| > 1 { CreatedPresent(v, Find(v, d, names[0]), names[1..]); }
  }

  lemma EnteringOld(v: Vol, cur: nat, name: seq<byte>, rest: seq<seq<byte>>)
    requires Inv(v) && rest != [] && Find(v, cur, name) != 0
    ensures DirOk(v, cur) && Walkable(v, Spot(cur, 0), [name] + rest) ==>
              Entering(v, v, cur, name, rest, true, Find(v, cur, name))
  {
    hide Inv, Find, DirOk, Frame, CanMake, OnlyDirsAdded, MadeVol, AllocInode, AllocBlock, Inode.IsDir, Created;
    InvCounted(v);
    FrameSelf(v, 0);
    NothingAdded(v);
    assert ([name] + rest)[1..] == rest;
    CreatedStep(v, cur, name, rest);
    if Walkable(v, Spot(cur, 0), [name] + rest) { DirBlockAt(v, Find(v, cur, name)); }
  }

  lemma EnteringNew(v: Vol, v': Vol, cur: nat, name: seq<byte>, rest: seq<seq<byte>>, ok: bool, next: nat)
    requires Inv(v) && Inv(v') && rest != [] && DirOk(v, cur) && Find(v, cur, name) == 0 && Frame(v, v', 0)
    requires ok == CanMake(v, cur, name)
    requires ok ==> Made(v, v', cur, name, next) && MadeBy(v, v', cur, name, next)
    ensures Walkable(v, Spot(cur, 0), [name] + rest) ==> Entering(v, v', cur, name, rest, ok, next)
  {
    hide Inv, Find, DirOk, Frame, CanMake, OnlyDirsAdded, MadeVol, AllocInode, AllocBlock, Inode.IsDir, Created, Made,
         Follows;
    InvCounted(v);
    InvCounted(v');
    assert ([name] + rest)[1..] == rest;
    CreatedStep(v, cur, name, rest);
    if ok && Walkable(v, Spot(cur, 0), [name] + rest) {
      MadeBinds(v, v', cur, name, next);
      MadeOnlyDir(v, v', cur, name, next);
      WalkAlike(v, v', cur, name, next, Spot(cur, 1), Spot(next, 0), rest);
    }
  }

  lemma SetOut(v: Vol, names: seq<seq<byte>>)
    requires Inv(v) && names != [] && Walkable(v, RootSpot(), names)
    ensures OnTheWay(v, v, names, [], ROOT_INO, names)
  {
    hide Inv, Find, DirOk, Frame, OnlyDirsAdded, Walkable, Goal, Tracks, Parent, Created, Reach;
    InvCounted(v);
    FrameSelf(v, 0);
    NothingAdded(v);
    RootIs(v);
    TracksSelf(v, Goal(v, RootSpot(), names));
    assert [] + names == names;
  }

  lemma Arrive(v0: Vol, v: Vol, names: seq<seq<byte>>, done: seq<seq<byte>>, cur: nat, name: seq<byte>)
    requires OnTheWay(v0, v, names, done, cur, [name])
    ensures Walked(v0, v, names, true, cur)
  {
    hide Inv, Find, DirOk, Frame, OnlyDirsAdded, Walkable, Goal, Tracks, Parent, Resolve, Reach, Created;
    InvCounted(v0);
    InvCounted(v);
    ReachSplits(v, ROOT_INO, done, cur, [name]);
    LastName(v, cur, name, [name]);
    CreatedLast(v, cur, name);
  }

  lemma CreatedLast(v: Vol, d: nat, name: seq<byte>)
    requires Inv(v)
    ensures Created(v, d, [name]) == Arrived(v, d)
  {
    hide Inv, Find, CanMake;
  }

  lemma LookedUp(v: Vol, names: seq<seq<byte>>, done: seq<seq<byte>>, cur: nat, name: seq<byte>)
    requires Shaped(v) && names == done + [name] && Reach(v, ROOT_INO, done, cur) && cur != 0
    ensures Looked(v, names, true, cur, Find(v, cur, name))
  {
    hide Find, Parent, Resolve, Reach;
    ReachSplits(v, ROOT_INO, done, cur, [name]);
    LastName(v, cur, name, [name]);
  }

  lemma LookOn(v: Vol, names: seq<seq<byte>>, done: seq<seq<byte>>, cur: nat, name: seq<byte>, tail: seq<seq<byte>>)
    requires Shaped(v) && names == done + ([name] + tail) && tail != [] && Reach(v, ROOT_INO, done, cur)
    ensures Find(v, cur, name) == 0 ==> Looked(v, names, false, 0, 0)
    ensures Find(v, cur, name) != 0 ==> Reach(v, ROOT_INO, done + [name], Find(v, cur, name))
  {
    hide Find, Parent, Resolve, Reach;
    var rest := [name] + tail;
    ReachSplits(v, ROOT_INO, done, cur, rest);
    MissingParent(v, cur, rest);
    if Find(v, cur, name) != 0 { ReachMore(v, ROOT_INO, done, cur, name); }
  }

  lemma GoOn(v0: Vol, v: Vol, v': Vol, names: seq<seq<byte>>, done: seq<seq<byte>>, cur: nat, name: seq<byte>,
             tail: seq<seq<byte>>, ok: bool, next: nat)
    requires OnTheWay(v0, v, names, done, cur, [name] + tail) && tail != [] && Shaped(v)
    requires DirOk(v, cur) && Walkable(v, Spot(cur, 0), [name] + tail) ==> Entering(v, v', cur, name, tail, ok, next)
    ensures if ok then OnTheWay(v0, v', names, done + [name], next, tail) else Walked(v0, v', names, false, 0)
  {
    hide Inv, Find, DirOk, Frame, OnlyDirsAdded, Walkable, Goal, Tracks, Follows, Parent, Resolve, Reach, Created;
    InvCounted(v0);
    InvCounted(v');
    var rest := [name] + tail;
    FrameTransitive(v0, v, v', 0);
    ReachSplits(v, ROOT_INO, done, cur, rest);
    MissingParent(v, cur, rest);
    if ok {
      AddedTransitive(v0, v, v');
      TracksOn(v0, v, Goal(v0, RootSpot(), names), Goal(v, Spot(cur, 0), rest), Goal(v', Spot(next, 0), tail));
      ReachKept(v, v', 0, ROOT_INO, done, cur);
      ReachMore(v', ROOT_INO, done, cur, name);
      assert done + [name] + tail == names;
    }
  }

  lemma NotFound(v: Vol, names: seq<seq<byte>>)
    requires Inv(v) && names != [] && (Parent(v, ROOT_INO, names) == 0 || Resolve(v, ROOT_INO, names) == 0)
    ensures Resolve(v, ROOT_INO, names) == 0
  {
    hide Find, Inv, Resolve, Parent;
    InvCounted(v);
    ResolveInParent(v, ROOT_INO, names);
    OneNameParent(v, names);
  }

  lemma OneNameParent(v: Vol, names: seq<seq<byte>>)
    requires Shaped(v)
    ensures |names| == 1 ==> Parent(v, ROOT_INO, names) == ROOT_INO
  {
    hide Find;
  }

  lemma NoNamesRoot(v: Vol, names: seq<seq<byte>>)
    requires Shaped(v)
    ensures names == [] ==> Resolve(v, ROOT_INO, names) == ROOT_INO
  {
    hide Find;
  }

  // ------------------------------------------ writing and releasing blocks

  lemma {:induction false} FreeAllKeepsData(v: Vol, ps: seq<nat>)
    requires |v.used| == MAX_BLOCKS && forall i :: 0 <= i < |ps| ==> ps[i] < MAX_BLOCKS
    ensures FreeAll(v, ps) == v.(used := FreeAll(v, ps).used, freeBlocks := FreeAll(v, ps).freeBlocks,
            groupBlocks := FreeAll(v, ps).groupBlocks)
    decreases ps
  {
    if ps != [] { FreeAllKeepsData(if ps[0] == 0 then v else FreeBlock(v, ps[0]), ps[1..]); }
  }

  lemma FreeAllThree(v: Vol, a: seq<nat>, w: seq<nat>, x: nat)
    requires |v.used| == MAX_BLOCKS && 0 < x < MAX_BLOCKS
    requires (forall i :: 0 <= i < |a| ==> a[i] < MAX_BLOCKS) && (forall i :: 0 <= i < |w| ==> w[i] < MAX_BLOCKS)
    ensures FreeAll(v, a + (w + [x])) == FreeBlock(FreeAll(FreeAll(v, a), w), x)
  {
    hide FreeBlock;
    FreeAllAppend(v, a, w + [x]);
    FreeAllAppend(FreeAll(v, a), w, [x]);
    var u := FreeAll(FreeAll(v, a), w);
    assert [x][1..] == [];
    assert FreeAll(u, [x]) == FreeBlock(u, x);
  }

  lemma EmptyMapped(data: seq<seq<byte>>, n: Inode)
    requires |n.block| == 15 && forall k :: 0 <= k < 15 ==> n.block[k] == 0
    ensures Mapped(data, n, [], n.block[12]) && Blocks([], n.block[12]) == {}
  {
  }

  lemma NotIn(data: seq<seq<byte>>, n: Inode, fb: seq<nat>, ib: nat, x: nat)
    requires Mapped(data, n, fb, ib) && x !in Blocks(fb, ib) && x != 0
    ensures x !in fb && ib !in fb
  {
  }

  lemma FreshIndirect(fb: seq<nat>, x: nat, ib: nat)
    requires ib !in Blocks(fb, 0) + {x} && ib != 0 && x !in Blocks(fb, 0)
    ensures Blocks(fb, 0) + {x} + {ib} == Blocks(fb, ib) + {x} && x !in Blocks(fb, ib) && ib !in fb
  {
  }

  lemma FreshBlock(fb: seq<nat>, ib: nat, x: nat)
    requires x !in Blocks(fb, ib) && x != 0
    ensures x !in fb && x != ib && Blocks(fb + [x], ib) == Blocks(fb, ib) + {x}
  {
    var more := fb + [x];
    assert more[|fb|] == x;
    forall y | y in fb ensures y in more { var k :| 0 <= k < |fb| && fb[k] == y; assert more[k] == y; }
  }

  lemma MappedLength(data: seq<seq<byte>>, n: Inode, fb: seq<nat>, ib: nat)
    requires Mapped(data, n, fb, ib)
    ensures |n.block| == 15 && |fb| <= MAX_FILE_BLOCKS && n.block[12] == ib
  {
  }

  /** The block counter of the inode plays no part in the mapping. */
  lemma MappedBlocks(data: seq<seq<byte>>, n: Inode, n': Inode, fb: seq<nat>, ib: nat)
    requires Mapped(data, n, fb, ib) && n'.block == n.block
    ensures Mapped(data, n', fb, ib)
  {
  }

  /**
   One step of write_new_blocks: on success the file has one more block, holding `chunk`, and the
   blocks written before are unchanged; on failure the mapping and the marked blocks are as before.
   */
  ghost predicate Added1(v0: Vol, v: Vol, v': Vol, n: Inode, n': Inode, fb: seq<nat>, fb': seq<nat>, ib: nat, ib': nat,
                         chunk: seq<byte>, ok: bool)
  {
    && Grown(v0, v', Blocks(fb', ib')) && Mapped(v'.data, n', fb', ib')
    && |v.data| == |v'.data| == MAX_BLOCKS
    && (!ok ==> fb' == fb && ib' == ib) && (ib != 0 ==> ib' == ib)
    && (ok ==> |fb'| == |fb| + 1 && fb' == fb + [fb'[|fb|]] && fb'[|fb|] < MAX_BLOCKS && v'.data[fb'[|fb|]] == chunk)
    && (forall x :: x in fb && x < MAX_BLOCKS ==> v'.data[x] == v.data[x])
    && n' == n.(block := n'.block, blocks := n'.blocks)
    && n'.blocks == n.blocks + 8 * (|fb'| - |fb| + (if ib' != ib then 1 else 0))
  }

  /** alloc_block found nothing: exactly the blocks of `s` were free at first. */
  lemma AllTaken(v0: Vol, v: Vol, n: Inode, fb: seq<nat>, ib: nat, s: set<nat>, more: nat)
    requires Grown(v0, v, s) && Mapped(v.data, n, fb, ib) && more <= 1
    requires if more == 0 then s == Blocks(fb, ib) else exists x :: x !in Blocks(fb, ib) && s == Blocks(fb, ib) + {x}
    ensures |v.used| == MAX_BLOCKS && FIRST_DATA + 1 <= v.total <= MAX_BLOCKS
    ensures AllocBlock(v).1 == 0 ==> v0.freeBlocks == |fb| + more + if ib == 0 then 0 else 1
  {
    hide Grown, Mapped, Inv, AllocBlock, Blocks;
    GrownShape(v0, v, s);
    AllocFull(v);
    GrownCount(v0, v, s);
    BlocksCount(v.data, n, fb, ib);
    if more == 1 {
      var x :| x !in Blocks(fb, ib) && s == Blocks(fb, ib) + {x};
      assert |s| == |Blocks(fb, ib)| + 1;
    }
  }

  lemma NotEnough(v0: Vol, taken: nat, size: nat)
    requires taken * BS < size && (if taken < 12 then v0.freeBlocks == taken else v0.freeBlocks <= taken + 1)
    ensures v0.freeBlocks < Need(size)
  {
    assert taken < BlockCount(size);
  }

  lemma Enough(v0: Vol, v: Vol, n: Inode, fb: seq<nat>, size: nat)
    requires |n.block| == 15 && Grown(v0, v, Blocks(fb, n.block[12])) && Mapped(v.data, n, fb, n.block[12])
    requires |fb| * BS >= size && (|fb| == 0 || (|fb| - 1) * BS < size) && (n.block[12] == 0 <==> |fb| <= 12)
    ensures Need(size) <= v0.freeBlocks && |fb| == BlockCount(size) && Need(size) == |fb| + if n.block[12] == 0 then 0
            else 1
  {
    hide Grown, Mapped, Blocks;
    GrownCount(v0, v, Blocks(fb, n.block[12]));
    BlocksCount(v.data, n, fb, n.block[12]);
    assert |fb| == BlockCount(size);
  }

  lemma OldPointers(v0: Vol, v1: Vol, ino: nat, n': Inode, s: set<nat>)
    requires Grown(v0, v1, s) && ValidIno(ino)
    ensures |At(v0, ino).block| == 15 && (At(v0, ino).block[12] == 0 || FIRST_DATA <= At(v0, ino).block[12] < v1.total)
  {
    hide SameFinds, Raw, Counted, Apart, DirsOk, RefsOk, RefsUnique, FreeZero, Owned;
    GrownShape(v0, v1, s);
    OwnsOf(v0, ino - 1);
    IndirectOwned(v0.data, At(v0, ino));
  }

  // ------------------------------------------------------- undoing a store

  /** Everything but the contents of free blocks is as it was. */
  ghost predicate Undone(v0: Vol, v: Vol) {
    && Shaped(v0) && Shaped(v) && v == v0.(data := v.data)
    && forall x :: 0 <= x < MAX_BLOCKS && v0.used[x] ==> v.data[x] == v0.data[x]
  }

  lemma NothingDone(v: Vol)
    requires Shaped(v)
    ensures Undone(v, v)
  {
  }

  lemma ZeroFits()
    ensures ZeroInode().Fits()
  {
  }

  lemma FitsZeroed(n: Inode, size: nat)
    requires n.Fits() && size <= MAX_FILE_SIZE
    ensures var m := n.(block := seq(15, _ => 0), size := size, blocks := 0); m.Fits() && m.IsDir() == n.IsDir()
  {
  }

  lemma GrownUndone(v0: Vol, v: Vol)
    requires Grown(v0, v, {})
    ensures Inv(v) && SameFinds(v0, v) && Frame(v0, v, 0) && Undone(v0, v)
  {
    hide SameFinds, Raw, Frame, Counted, AllOwnWell, Apart, DirsOk, RefsOk, RefsUnique, FreeZero;
    GrownNothing(v0, v);
    FrameSame(v0, v);
  }

  /** The inode ext2_store starts a new file with. */
  function FileInode(bytes: seq<byte>, mode: nat, uid: nat, gid: nat): Inode {
    ZeroInode().(mode := FILE_MODE + mode % 512, uid := uid, gid := gid, links := 1, size := |bytes|)
  }

  lemma FileInodeFits(bytes: seq<byte>, mode: nat, uid: nat, gid: nat)
    requires uid < 0x1_0000 && gid < 0x1_0000 && |bytes| <= MAX_FILE_SIZE
    ensures var n := FileInode(bytes, mode, uid, gid);
            && n.Fits() && !n.IsDir() && n.blocks == 0 && n.size == |bytes| && |n.block| == 15
            && (forall k :: 0 <= k < 15 ==> n.block[k] == 0) && ZeroInode().Fits()
  {
  }

  /** A new file's inode on the disk. */
  lemma NewOnDisk(disk: seq<seq<byte>>, v: Vol, ino: nat, bytes: seq<byte>, mode: nat, uid: nat, gid: nat)
    requires Represents(disk, v) && Shaped(v) && ValidIno(ino)
    requires SameButPointers(At(v, ino), FileInode(bytes, mode, uid, gid), |bytes|)
    ensures OnDisk(disk, ino, 0x8000 + mode % 512, uid, gid, 1, |bytes|, 8 * Need(|bytes|))
  {
    hide Represents, U16, U32, Shaped;
    InodeOnDisk(disk, v, ino);
  }

  lemma WrittenShape(v1: Vol, v2: Vol, n: Inode, n': Inode, fb: seq<nat>, bytes: seq<byte>)
    requires |n'.block| == 15 && Written(v1, v2, n, n', fb, bytes)
    ensures Shaped(v1) && Shaped(v2) && v2.inodeUsed == v1.inodeUsed && v2.inodes == v1.inodes
    ensures n' == n.(block := n'.block, blocks := n.blocks + 8 * Need(|bytes|))
  {
    hide Inv, Grown, Mapped, Chunk, Blocks, Need;
    GrownShape(v1, v2, Blocks(fb, n'.block[12]));
    InvCounted(v1);
  }

  /** No blocks for the new file: giving back its inode undoes everything. */
  lemma UndoUnwritten(v0: Vol, v1: Vol, v2: Vol, ino: nat)
    requires Inv(v0) && (v1, ino) == AllocInode(v0) && ino != 0 && Grown(v1, v2, {})
    ensures ValidIno(ino) && 1 <= ino <= |v2.inodeUsed|
    ensures var v' := FreeInode(v2, ino); Inv(v') && Frame(v0, v', 0) && Undone(v0, v')
  {
    hide Inv, Grown, AllocInode, FreeInode, Frame, SameFinds, Unref, ZeroInode;
    AllocInodeKeeps(v0);
    InvCounted(v0);
    GrownShape(v1, v2, {});
    GrownNothing(v1, v2);
    GrownFrame(v1, v2, {});
    InvCounted(v2);
    UndoNew(v0, v2);
    FreeInodeData(v2, ino);
    InvCounted(FreeInode(v2, ino));
  }

  /** No room for the new name: releasing the blocks, zeroing the inode and giving it back undoes everything. */
  lemma GiveBack(v0: Vol, v1: Vol, v2: Vol, ino: nat, n: Inode, n': Inode, fb: seq<nat>, bytes: seq<byte>)
    requires Inv(v0) && (v1, ino) == AllocInode(v0) && ino != 0 && |n'.block| == 15 && Written(v1, v2, n, n', fb, bytes)
    ensures ValidIno(ino) && |v2.inodes| == INODES
    ensures var v3 := v2.(inodes := v2.inodes[ino - 1 := n']);
            var raw := Raw(v3.data, n');
            && (n'.block[12] == 0 || FIRST_DATA <= n'.block[12] < v3.total)
            && |v3.used| == MAX_BLOCKS && (forall i :: 0 <= i < |raw| ==> raw[i] < MAX_BLOCKS)
            && var v5 := FreeAll(v3, raw);
            && |v5.inodes| == INODES && ino <= |v5.inodeUsed|
            && var v7 := FreeInode(v5.(inodes := v5.inodes[ino - 1 := ZeroInode()]), ino);
            Inv(v7) && Frame(v0, v7, 0) && Undone(v0, v7)
  {
    hide Inv, Grown, Mapped, Chunk, Raw, Frame, SameFinds, FreeAll, FreeInode, AllocInode, Blocks, ZeroInode, Unref;
    AllocInodeKeeps(v0);
    InvCounted(v0);
    var s := Blocks(fb, n'.block[12]);
    GrownShape(v1, v2, s);
    var v3 := v2.(inodes := v2.inodes[ino - 1 := n']);
    WrittenPointers(v1, v2, v3, n, n', fb, bytes);
    var v5 := FreeAll(v3, Raw(v3.data, n'));
    UndoFilled(v0, v1, v2, v5, ino, s);
    InvCounted(FreeInode(v5.(inodes := v5.inodes[ino - 1 := ZeroInode()]), ino));
  }

  /** With its blocks and inode written, a new file can be handed to dir_add. */
  lemma ReadyToEnter(v0: Vol, v3: Vol, parent: nat, leaf: seq<byte>, ino: nat)
    requires Inv(v0) && Inv(v3) && SameFinds(v0, v3) && Settled(v0, parent) && Find(v0, parent, leaf) == 0
    requires Settled(v3, ino) && !v0.inodeUsed[ino - 1] && v3.inodeUsed == v0.inodeUsed[ino - 1 := true]
    requires !At(v3, ino).IsDir()
    ensures Settled(v3, parent) && Find(v3, parent, leaf) == 0 && ino != parent && FileOrNew(v3, ino, parent)
    ensures DirOk(v3, parent) == DirOk(v0, parent)
  {
    hide Find, DirOk, Counted, AllOwnWell, Apart, DirsOk, RefsOk, RefsUnique, FreeZero, Inode.IsDir;
  }

  /** Writing a new file's blocks and inode leaves the parent's list alone. */
  lemma SameList(v0: Vol, v1: Vol, v2: Vol, v3: Vol, parent: nat, ino: nat, n: Inode, n': Inode, fb: seq<nat>,
                 bytes: seq<byte>)
    requires Inv(v0) && DirOk(v0, parent) && (v1, ino) == AllocInode(v0) && ino != 0 && |n'.block| == 15
             && Written(v1, v2, n, n', fb, bytes)
    requires ValidIno(ino) && v3 == v2.(inodes := v2.inodes[ino - 1 := n']) && Shaped(v3) && DirOk(v3, parent)
    ensures List(v3, parent) == List(v0, parent)
  {
    hide Inv, Grown, Mapped, Chunk, Blocks, AllocInode, Entries, Unref, ZeroInode, Inode.IsDir, Tiled, Good,
         SameFinds;
    AllocInodeKeeps(v0);
    UsedDir(v0, parent);
    var s := Blocks(fb, n'.block[12]);
    GrownShape(v1, v2, s);
    GrownFrame(v1, v2, s);
    DirBlockUsed(v0, parent);
  }

  // ------------------------------------------------ the outcome of a store

  /** The leaf fits the 256-byte name buffer. */
  ghost predicate ShortLeaf(names: seq<seq<byte>>) { names != [] ==> |names[|names| - 1]| < 256 }

  /** `n` is `m` with the pointers and the sector count of a file of `size` bytes. */
  predicate SameButPointers(n: Inode, m: Inode, size: nat) { n == m.(block := n.block, blocks := 8 * Need(size)) }

  /** There are blocks enough and, for a new file, an inode and room for its name in directory `d`. */
  ghost predicate CanEnter(v: Vol, d: nat, leaf: seq<byte>, size: nat)
    requires Shaped(v)
  {
    var q := Find(v, d, leaf);
    && Need(size) <= v.freeBlocks
    && if q != 0 then ValidIno(q) && !At(v, q).IsDir()
       else v.freeInodes > 0 && |leaf| > 0 && DirOk(v, d) && RoomFor(List(v, d), |leaf|)
  }

  /** The missing directories can be made, and then the file entered. */
  ghost predicate StoreFits(v: Vol, names: seq<seq<byte>>, size: nat)
    requires Inv(v) && names != []
  {
    var a := Created(v, ROOT_INO, names);
    a.Arrived? && Shaped(a.vol) && CanEnter(a.vol, a.dir, names[|names| - 1], size)
  }

  // ------------------------------------- when a store fits, in closed form

  /** With the parent there, a store fits exactly when the file can be entered in it. */
  lemma PresentFitsIff(v: Vol, names: seq<seq<byte>>, size: nat)
    requires Inv(v) && names != [] && Parent(v, ROOT_INO, names) != 0
    ensures StoreFits(v, names, size) <==> CanEnter(v, Parent(v, ROOT_INO, names), names[|names| - 1], size)
  {
    hide Inv, Find, Created, Parent, CanEnter;
    InvCounted(v);
    CreatedPresent(v, ROOT_INO, names);
  }

  /** Where a path's first missing directory is to be made, and the names from there on. */
  ghost function Gap(v: Vol, d: nat, names: seq<seq<byte>>): (nat, seq<seq<byte>>)
    requires Shaped(v)
    decreases names
  {
    if |names| <= 1 || Find(v, d, names[0]) == 0 then (d, names) else Gap(v, Find(v, d, names[0]), names[1..])
  }

  predicate Undotted(names: seq<seq<byte>>) { forall i :: 0 <= i < |names| ==> !Dotted(names[i]) }

  /** Behind the gap the walk goes on as from the start, and the gap is a gap. */
  lemma {:induction false} FromTheGap(v: Vol, d: nat, names: seq<seq<byte>>)
    requires Inv(v) && names != [] && d != 0 && Parent(v, d, names) == 0
    ensures var (e, rest) := Gap(v, d, names);
            && |rest| > 1 && Find(v, e, rest[0]) == 0 && Created(v, d, names) == Created(v, e, rest)
            && rest[|rest| - 1] == names[|names| - 1]
    decreases names
  {
    hide Inv, Find, CanMake, MadeVol, AllocInode, AllocBlock, Dotted;
    InvCounted(v);
    if Find(v, d, names[0]) != 0 {
      FromTheGap(v, Find(v, d, names[0]), names[1..]);
      assert names[1..][|names| - 2] == names[|names| - 1];
    }
  }

  /** Nothing but `.` and `..`, and all the room behind them. */
  ghost predicate FreshDir(v: Vol, d: nat)
    requires Shaped(v)
  {
    && DirOk(v, d) && |List(v, d)| == 2 && List(v, d)[0].name == DOT
    && List(v, d)[1].name == DOTDOT && List(v, d)[1].ino != 0 && List(v, d)[1].rec == BS - 12
  }

  lemma FreshFacts(v: Vol, d: nat, name: seq<byte>)
    requires Shaped(v) && FreshDir(v, d) && !Dotted(name)
    ensures Find(v, d, name) == 0 && (|name| < 256 ==> RoomFor(List(v, d), |name|))
    ensures CanMake(v, d, name) <==> v.freeInodes > 0 && v.freeBlocks > 0 && 0 < |name| < 256
  {
    hide DirOk, Entries;
    var es := List(v, d);
    assert es[1..][0] == es[1] && es[1..][1..] == [];
    assert Lookup(es[1..], name) == Lookup(es[1..][1..], name) == 0;
    assert |name| < 256 ==> HasRoom(es[1], Ideal(|name|));
  }

  lemma MadeFresh(v: Vol, parent: nat, name: seq<byte>)
    requires Inv(v) && CanMake(v, parent, name) && Find(v, parent, name) == 0
    ensures AllocInode(v).1 != 0 && AllocBlock(AllocInode(v).0).1 != 0 && ValidIno(parent)
    ensures var v', t := MadeVol(v, parent, name), AllocInode(v).1;
            && Inv(v') && FreshDir(v', t)
            && v'.freeInodes == v.freeInodes - 1 && v'.freeBlocks == v.freeBlocks - 1
  {
    hide Inv, Find, MadeVol, AllocInode, AllocBlock, Made, DirOk, RoomFor, Frame;
    InvCounted(v);
    MadeFacts(v, parent, name);
    MadeNewDir(v, MadeVol(v, parent, name), AllocInode(v).1, parent, name);
  }

  /** In new directories, every further one takes an inode, a block and a name of 1 to 255 bytes, and nothing else. */
  lemma {:induction false} FreshChain(v: Vol, d: nat, names: seq<seq<byte>>)
    requires Inv(v) && FreshDir(v, d) && names != [] && Undotted(names)
    ensures var a, k := Created(v, d, names), |names| - 1;
            && (a.Arrived? <==>
                  k <= v.freeInodes && k <= v.freeBlocks && forall i :: 0 <= i < k ==> 0 < |names[i]| < 256)
            && (a.Arrived? ==>
                  && Inv(a.vol) && FreshDir(a.vol, a.dir)
                  && a.vol.freeInodes == v.freeInodes - k && a.vol.freeBlocks == v.freeBlocks - k)
    decreases names
  {
    hide Inv, Find, CanMake, MadeVol, AllocInode, AllocBlock, Dotted, FreshDir, Created;
    InvCounted(v);
    if |names| == 1 {
      CreatedLast(v, d, names[0]);
      assert names == [names[0]];
    } else {
      var rest := names[1..];
      assert names == [names[0]] + rest;
      FreshFacts(v, d, names[0]);
      CreatedStep(v, d, names[0], rest);
      if CanMake(v, d, names[0]) {
        MadeFresh(v, d, names[0]);
        FreshChain(MadeVol(v, d, names[0]), AllocInode(v).1, rest);
        assert forall i :: 0 <= i < |rest| ==> rest[i] == names[i + 1];
      }
    }
  }

  /** Enough inodes and blocks, names that fit, and room in the one directory that is there. */
  ghost predicate RoomFrom(v: Vol, d: nat, rest: seq<seq<byte>>, size: nat)
    requires Shaped(v)
  {
    && |rest| > 0 && (forall i :: 0 <= i < |rest| ==> 0 < |rest[i]| < 256)
    && DirOk(v, d) && RoomFor(List(v, d), |rest[0]|)
    && |rest| <= v.freeInodes && |rest| - 1 + Need(size) <= v.freeBlocks
  }

  /**
   A new file behind missing directories, with no `.` or `..` among the missing names: the store succeeds exactly when
   every missing name has 1 to 255 bytes, the directory at the gap has room for the first of them, and there is an inode
   for each, the file's included, and a block for each directory beside those of the file.
   */
  lemma MissingFitsIff(v: Vol, names: seq<seq<byte>>, size: nat)
    requires Inv(v) && names != [] && ShortLeaf(names) && Parent(v, ROOT_INO, names) == 0
    requires Undotted(Gap(v, ROOT_INO, names).1)
    ensures var (d, rest) := Gap(v, ROOT_INO, names); StoreFits(v, names, size) <==> RoomFrom(v, d, rest, size)
  {
    hide Inv, Find, CanMake, MadeVol, AllocInode, AllocBlock, Dotted, FreshDir, Created, Gap, Need, Parent, DirOk,
         RoomFor;
    InvCounted(v);
    FromTheGap(v, ROOT_INO, names);
    var (d, rest) := Gap(v, ROOT_INO, names);
    var tail := rest[1..];
    assert rest == [rest[0]] + tail;
    CreatedStep(v, d, rest[0], tail);
    CanMakeIs(v, d, rest[0]);
    if CanMake(v, d, rest[0]) {
      MadeFresh(v, d, rest[0]);
      var v1 := MadeVol(v, d, rest[0]);
      FreshChain(v1, AllocInode(v).1, tail);
      assert forall i :: 0 <= i < |tail| ==> tail[i] == rest[i + 1];
      var a := Created(v1, AllocInode(v).1, tail);
      if a.Arrived? {
        InvCounted(a.vol);
        FreshFacts(a.vol, a.dir, rest[|rest| - 1]);
        FreshIsDir(a.vol, a.dir);
      }
      assert forall i :: 1 <= i < |rest| ==> rest[i] == tail[i - 1];
    }
  }

  lemma CanMakeIs(v: Vol, d: nat, name: seq<byte>)
    requires Shaped(v)
    ensures CanMake(v, d, name) <==>
              v.freeInodes > 0 && v.freeBlocks > 0 && DirOk(v, d) && 0 < |name| < 256 && RoomFor(List(v, d), |name|)
  {
  }

  lemma FreshIsDir(v: Vol, d: nat)
    requires Shaped(v) && FreshDir(v, d)
    ensures DirOk(v, d)
  {
  }

  // ------------------------------------------------ the outcome of a store

  /** The bindings of `v` are those of `v0` and `name`, bound to `t` in directory `d`. */
  ghost predicate Bound(v0: Vol, v: Vol, d: nat, name: seq<byte>, t: nat)
    requires Shaped(v0) && Shaped(v)
  {
    forall e, nm :: Find(v, e, nm) == if e == d && nm == name then t else Find(v0, e, nm)
  }

  /** The path ends at a name that was bound before the store. */
  ghost predicate Present(v0: Vol, names: seq<seq<byte>>)
    requires Shaped(v0) && names != []
  {
    var goal := Goal(v0, RootSpot(), names);
    goal.below == 0 && Find(v0, goal.dir, names[|names| - 1]) != 0
  }

  /** An existing file keeps its owner, mode and link count; a new one takes an inode that was free. */
  ghost predicate StoredAt(v0: Vol, v: Vol, names: seq<seq<byte>>, ino: nat, bytes: seq<byte>, made: Inode)
    requires Shaped(v0) && Shaped(v) && names != []
  {
    && ValidIno(ino) && !At(v, ino).IsDir() && Readable(v, At(v, ino)) && Content(v, At(v, ino)) == bytes
    && Frame(v0, v, ino) && OnlyDirsAdded(v0, v, ino)
    && (if Present(v0, names)
        then && ino == Find(v0, Goal(v0, RootSpot(), names).dir, names[|names| - 1])
             && SameButPointers(At(v, ino), At(v0, ino).(size := |bytes|), |bytes|)
        else !v0.inodeUsed[ino - 1] && SameButPointers(At(v, ino), made, |bytes|))
    && (Parent(v0, ROOT_INO, names) != 0 ==>
          Stored(v0, v, ino, bytes) && Bound(v0, v, Parent(v0, ROOT_INO, names), names[|names| - 1], ino))
  }

  /**
   What ext2_store leaves. It succeeds exactly when the missing directories and the file fit. On success the path
   resolves to a file holding exactly the bytes, and everything but that file is framed; with the parent present, the
   bitmaps and the inode table changed by just that file. On failure with the parent present, everything is as it was.
   */
  ghost predicate StoreOutcome(v0: Vol, v: Vol, names: seq<seq<byte>>, bytes: seq<byte>, made: Inode, ok: bool) {
    && Inv(v0) && Shaped(v)
    && (ok ==> names != [] && StoredAt(v0, v, names, Resolve(v, ROOT_INO, names), bytes, made))
    && (!ok ==> Frame(v0, v, 0) && (names == [] || Parent(v0, ROOT_INO, names) != 0 ==> Undone(v0, v)))
    && ok == (names != [] && StoreFits(v0, names, |bytes|))
  }

  /**
   A stored file as the disk has it. The bytes stand in the blocks its pointers name. A new file is a regular file with
   the caller's permission bits, user and group and one link, and some directory has its name with type 1; one that was
   there keeps mode, owner and links; both have the new size.
   */
  ghost predicate FileOnDisk(v0: Vol, disk0: seq<seq<byte>>, v: Vol, disk: seq<seq<byte>>, names: seq<seq<byte>>,
                             bytes: seq<byte>, mode: nat, uid: nat, gid: nat) {
    && Shaped(v0) && Shaped(v) && names != []
    && var ino, size, leaf := Resolve(v, ROOT_INO, names), |bytes|, names[|names| - 1];
    && BytesOnDisk(disk, ino, bytes)
    && if Present(v0, names)
       then forall m, u, g, links, s, k :: OnDisk(disk0, ino, m, u, g, links, s, k) ==>
                                             OnDisk(disk, ino, m, u, g, links, size, 8 * Need(size))
       else && OnDisk(disk, ino, 0x8000 + mode % 512, uid, gid, 1, size, 8 * Need(size))
            && exists d :: NamedOnDisk(disk, d, leaf, ino, 1)
  }

  lemma StoreOnDisk(v0: Vol, disk0: seq<seq<byte>>, v: Vol, disk: seq<seq<byte>>, names: seq<seq<byte>>,
                    bytes: seq<byte>, mode: nat, uid: nat, gid: nat, d: nat)
    requires Represents(disk0, v0) && Represents(disk, v) && Inv(v) && Shaped(v)
    requires StoreOutcome(v0, v, names, bytes, FileInode(bytes, mode, uid, gid), true)
    requires Shaped(v0) && names != []
    requires Present(v0, names) || NamedOnDisk(disk, d, names[|names| - 1], Resolve(v, ROOT_INO, names), 1)
    ensures FileOnDisk(v0, disk0, v, disk, names, bytes, mode, uid, gid)
  {
    hide Inv, Represents, Frame, Find, Resolve, Goal, Stored, Bound, Inode.IsDir, Readable, Content, OnlyDirsAdded,
         Parent, StoreFits, U16, U32, Undone, NamedOnDisk, BytesOnDisk;
    var ino := Resolve(v, ROOT_INO, names);
    ContentOnDisk(disk, v, ino);
    if Present(v0, names) {
      InodeOnDisk(disk, v, ino);
      InodeOnDisk(disk0, v0, ino);
    } else {
      NewOnDisk(disk, v, ino, bytes, mode, uid, gid);
    }
  }

  lemma StoreFailed(v0: Vol, v: Vol, names: seq<seq<byte>>, bytes: seq<byte>, made: Inode)
    requires Inv(v0) && Frame(v0, v, 0) && (names == [] || Parent(v0, ROOT_INO, names) != 0 ==> v == v0)
    requires names != [] ==> !StoreFits(v0, names, |bytes|)
    ensures StoreOutcome(v0, v, names, bytes, made, false)
  {
    hide Parent, Resolve, Find, FrameInode, StoreFits, Inv;
    InvCounted(v0);
  }

  lemma RootIsNoFile(v: Vol, bytes: seq<byte>, made: Inode)
    requires Inv(v)
    ensures Settled(v, ROOT_INO) && At(v, ROOT_INO).IsDir() && StoreOutcome(v, v, [], bytes, made, false)
  {
    hide Inv, Find, DirOk, Frame, Inode.IsDir;
    InvCounted(v);
    RootIs(v);
    UsedDir(v, ROOT_INO);
    FrameSelf(v, 0);
  }

  lemma StoreBlocked(v0: Vol, v: Vol, names: seq<seq<byte>>, parent: nat, bytes: seq<byte>, made: Inode)
    requires Walked(v0, v, names, false, parent)
    ensures StoreOutcome(v0, v, names, bytes, made, false)
  {
    hide Inv, Find, DirOk, Frame, Created, Parent, StoreOutcome, Resolve, Goal, Tracks, OnlyDirsAdded;
    StoreFailed(v0, v, names, bytes, made);
  }

  lemma StoreOnDir(v0: Vol, v: Vol, names: seq<seq<byte>>, parent: nat, found: nat, bytes: seq<byte>, made: Inode)
    requires Walked(v0, v, names, true, parent) && Shaped(v)
    requires found == Find(v, parent, names[|names| - 1]) && found != 0 && ValidIno(found) && At(v, found).IsDir()
    ensures StoreOutcome(v0, v, names, bytes, made, false)
  {
    hide Inv, Find, DirOk, Frame, Created, Parent, StoreOutcome, Resolve, Goal, Tracks, OnlyDirsAdded, StoreFits,
         Inode.IsDir;
    NoEntryForDir(v0, v, names, parent, found, |bytes|);
    StoreFailed(v0, v, names, bytes, made);
  }

  lemma NoEntryForDir(v0: Vol, v: Vol, names: seq<seq<byte>>, parent: nat, found: nat, size: nat)
    requires Inv(v0) && Shaped(v) && names != [] && Created(v0, ROOT_INO, names) == Arrived(v, parent)
    requires found == Find(v, parent, names[|names| - 1]) && found != 0 && ValidIno(found) && At(v, found).IsDir()
    ensures !StoreFits(v0, names, size)
  {
    hide Inv, Created, Find, Inode.IsDir, Need, DirOk, RoomFor;
  }

  lemma StoreReplaced(v0: Vol, v1: Vol, v: Vol, names: seq<seq<byte>>, parent: nat, ino: nat, bytes: seq<byte>,
                      made: Inode, ok: bool)
    requires Walked(v0, v1, names, true, parent) && Shaped(v1)
    requires ino == Find(v1, parent, names[|names| - 1]) && ValidIno(ino) && !At(v1, ino).IsDir()
    requires Frame(v1, v, if ok then ino else 0) && ok == (Need(|bytes|) <= v1.freeBlocks)
    requires if ok
             then Stored(v1, v, ino, bytes) && SameFinds(v1, v)
                 && SameButPointers(At(v, ino), At(v1, ino).(size := |bytes|), |bytes|)
             else Undone(v1, v)
    ensures StoreOutcome(v0, v, names, bytes, made, ok) && Shaped(v0) && (ok ==> Present(v0, names))
  {
    hide Inv, Parent, Resolve, Find, FrameInode, Readable, Content, Owned, Inode.IsDir, Frame, Undone, Goal, Need,
         SameFinds, OnlyDirsAdded, Created, DirOk, RoomFor;
    FrameShapes(v0, v1, 0);
    FrameShapes(v1, v, if ok then ino else 0);
    FrameWeaken(v0, v1, ino);
    FrameTransitive(v0, v1, v, if ok then ino else 0);
    if ok {
      ResolveKept(v1, v, ino, ROOT_INO, names);
      FileBound(v1, names);
      OldFile(v0, v1, parent, ino, names);
      AddedSame(v0, v1, v, ino);
      if Parent(v0, ROOT_INO, names) != 0 { OneBinding(v0, v, parent, names[|names| - 1], ino); }
    }
  }

  lemma OneBinding(v0: Vol, v: Vol, d: nat, name: seq<byte>, t: nat)
    requires Shaped(v0) && Shaped(v) && SameFinds(v0, v) && Find(v0, d, name) == t
    ensures Bound(v0, v, d, name, t)
  {
    hide Find, DirOk;
  }

  lemma AddedSame(v0: Vol, v1: Vol, v: Vol, ino: nat)
    requires Shaped(v0) && Inv(v1) && Frame(v1, v, ino) && OnlyDirsAdded(v0, v1, 0) && SameFinds(v1, v)
    ensures OnlyDirsAdded(v0, v, ino)
  {
    hide Counted, AllOwnWell, Apart, DirsOk, RefsUnique, FreeZero, Find, Inode.IsDir, Kept, DirOk;
    forall d, nm | FileRef(v, d, nm) && Find(v, d, nm) != ino ensures Find(v0, d, nm) == Find(v, d, nm) {
      assert RefOk(v1, d, nm);
      assert FrameInode(v1, v, Find(v, d, nm));
      assert FileRef(v1, d, nm);
    }
  }

  lemma AddedBound(v0: Vol, v1: Vol, v: Vol, d: nat, name: seq<byte>, ino: nat)
    requires Shaped(v0) && Inv(v1) && Frame(v1, v, 0) && OnlyDirsAdded(v0, v1, 0) && Bound(v1, v, d, name, ino)
    ensures OnlyDirsAdded(v0, v, ino)
  {
    hide Counted, AllOwnWell, Apart, DirsOk, RefsUnique, FreeZero, Find, Inode.IsDir, Kept, DirOk;
    forall e, nm | FileRef(v, e, nm) && Find(v, e, nm) != ino ensures Find(v0, e, nm) == Find(v, e, nm) {
      assert RefOk(v1, e, nm);
      assert FrameInode(v1, v, Find(v, e, nm));
      assert FileRef(v1, e, nm);
    }
  }

  /** A file that walk finds was there before the walk, under the same name. */
  lemma OldFile(v0: Vol, v1: Vol, parent: nat, ino: nat, names: seq<seq<byte>>)
    requires Inv(v0) && names != [] && Frame(v0, v1, 0) && OnlyDirsAdded(v0, v1, 0)
    requires ino == Find(v1, parent, names[|names| - 1]) && ValidIno(ino) && !At(v1, ino).IsDir()
    requires !Dotted(names[|names| - 1])
    requires Tracks(v0, Goal(v0, RootSpot(), names), Spot(parent, 0))
    ensures Goal(v0, RootSpot(), names) == Spot(parent, 0) && Find(v0, parent, names[|names| - 1]) == ino
            && At(v1, ino) == At(v0, ino)
  {
    hide Counted, AllOwnWell, Apart, DirsOk, RefsUnique, FreeZero, Find, Goal, Inode.IsDir, Owned, Tree, Dotted, DirOk;
    assert FileRef(v1, parent, names[|names| - 1]);
    assert RefOk(v0, parent, names[|names| - 1]);
    assert FrameInode(v0, v1, ino);
    BoundIn(v0, parent, names[|names| - 1], ino);
    UsedDir(v0, parent);
  }

  lemma FrameShapes(v: Vol, v': Vol, except: nat)
    requires Frame(v, v', except)
    ensures Shaped(v) && Shaped(v')
  {
  }

  lemma StillFree(v: Vol, v': Vol, ino: nat)
    requires Frame(v, v', 0) && ValidIno(ino) && !v'.inodeUsed[ino - 1]
    ensures !v.inodeUsed[ino - 1]
  {
    hide Find, Kept, Inode.IsDir;
    assert v.inodeUsed[ino - 1] ==> FrameInode(v, v', ino);
  }

  /** What ext2_store does with a name that directory `parent` does not bind. */
  ghost predicate StoredNew(v: Vol, v': Vol, parent: nat, leaf: seq<byte>, ino: nat, bytes: seq<byte>, made: Inode,
                            ok: bool)
    requires Shaped(v)
  {
    && Shaped(v') && DirOk(v, parent) && Frame(v, v', 0)
    && ok == (v.freeInodes > 0 && Need(|bytes|) <= v.freeBlocks && |leaf| > 0 && RoomFor(List(v, parent), |leaf|))
    && (ok ==>
          && ValidIno(ino) && !v.inodeUsed[ino - 1] && Stored(v, v', ino, bytes) && Bound(v, v', parent, leaf, ino)
          && SameButPointers(At(v', ino), made, |bytes|))
  }

  lemma StoreEntered(v0: Vol, v1: Vol, v: Vol, names: seq<seq<byte>>, parent: nat, ino: nat, bytes: seq<byte>,
                     made: Inode, ok: bool)
    requires Walked(v0, v1, names, true, parent) && Shaped(v1) && Find(v1, parent, names[|names| - 1]) == 0
    requires DirOk(v1, parent) ==> StoredNew(v1, v, parent, names[|names| - 1], ino, bytes, made, ok)
    requires !ok ==> Undone(v1, v)
    ensures StoreOutcome(v0, v, names, bytes, made, ok) && Shaped(v0) && Shaped(v)
    ensures DirOk(v1, parent) && (ok ==> Resolve(v, ROOT_INO, names) == ino)
  {
    hide Inv, Parent, Resolve, Find, FrameInode, Readable, Content, Owned, Inode.IsDir, Frame, Undone, FreeZero, DirOk,
         RoomFor, Need, Goal, OnlyDirsAdded, Created;
    FrameTransitive(v0, v1, v, 0);
    FrameShapes(v0, v1, 0);
    FrameShapes(v1, v, 0);
    if ok {
      FrameWeaken(v0, v, ino);
      ParentStays(v1, v, 0, ROOT_INO, names);
      ResolveInParent(v, ROOT_INO, names);
      StillUnbound(v0, v1, parent, names[|names| - 1]);
      StillFree(v0, v1, ino);
      AddedBound(v0, v1, v, parent, names[|names| - 1], ino);
    }
  }

  lemma StillUnbound(v: Vol, v': Vol, d: nat, name: seq<byte>)
    requires Frame(v, v', 0) && Find(v', d, name) == 0
    ensures Find(v, d, name) == 0
  {
    hide Find, FrameInode;
  }

  // --------------------------------------------------------------- loading

  function Least(a: nat, b: nat): nat { if a < b then a else b }

  /** Inode `q` is a file that ext2_load accepts. */
  ghost predicate LoadsFrom(v: Vol, q: nat, cap: nat)
    requires Shaped(v)
  {
    ValidIno(q) && !At(v, q).IsDir() && At(v, q).size <= cap && At(v, q).size <= MAX_FILE_SIZE && Readable(v, At(v, q))
  }

  /** The first `i` blocks of the file are mapped, and `data` is what they hold of the file. */
  ghost predicate ReadSoFar(v: Vol, n: Inode, i: nat, data: seq<byte>)
    requires Shaped(v) && |n.block| == 15
  {
    && (forall k :: 0 <= k < i ==> 0 < FileBlock(v, n, k) < v.total)
    && |data| == Least(i * BS, n.size) && (i == 0 || (i - 1) * BS < n.size)
    && forall p :: 0 <= p < |data| ==> data[p] == v.data[FileBlock(v, n, p / BS)][p % BS]
  }

  lemma BlockInRange(v: Vol, n: Inode, i: nat)
    requires Shaped(v) && |n.block| == 15 && OwnsWell(v, n) && FileBlock(v, n, i) != 0
    ensures FIRST_DATA <= FileBlock(v, n, i) < v.total
  {
    hide FileBlock, Owned, NoRepeat;
    FileBlockOwned(v, n, i);
  }

  lemma Unreadable(v: Vol, n: Inode, i: nat, data: seq<byte>)
    requires Shaped(v) && |n.block| == 15 && ReadSoFar(v, n, i, data) && |data| < n.size && FileBlock(v, n, i) == 0
    ensures !Readable(v, n)
  {
    hide FileBlock;
    assert i < BlockCount(n.size);
  }

  lemma ReadMore(v: Vol, n: Inode, i: nat, have: seq<byte>, data: seq<byte>)
    requires Shaped(v) && |n.block| == 15 && ReadSoFar(v, n, i, have) && |have| < n.size
             && 0 < FileBlock(v, n, i) < v.total
    requires data == have + v.data[FileBlock(v, n, i)][..Least(BS, n.size - |have|)]
    ensures ReadSoFar(v, n, i + 1, data)
  {
    hide FileBlock;
    forall p | 0 <= p < |data| ensures data[p] == v.data[FileBlock(v, n, p / BS)][p % BS] {
      if p >= |have| {
        assert p / BS == i && p % BS == p - i * BS;
      }
    }
  }

  lemma ReadAll(v: Vol, n: Inode, i: nat, data: seq<byte>)
    requires Shaped(v) && |n.block| == 15 && ReadSoFar(v, n, i, data) && |data| >= n.size
    ensures Readable(v, n) && Content(v, n) == data
  {
    hide FileBlock;
    assert BlockCount(n.size) <= i;
    forall p: nat | p < n.size ensures ByteAt(v, n, p) == data[p] { }
  }

  lemma SizeOfContent(v: Vol, n: Inode, bytes: seq<byte>)
    requires Shaped(v) && |n.block| == 15 && Readable(v, n) && Content(v, n) == bytes
    ensures n.size == |bytes|
  {
  }

  /**
   After a successful store, loading the path gives back exactly the bytes, and every path that led to another
   file still leads to it and loads the old bytes.
   */
  lemma StoreThenLoad(v0: Vol, v: Vol, names: seq<seq<byte>>, bytes: seq<byte>, made: Inode, cap: nat,
                      other: seq<seq<byte>>)
    requires Inv(v0) && StoreOutcome(v0, v, names, bytes, made, true) && |bytes| <= MAX_FILE_SIZE && |bytes| <= cap
    ensures var q := Resolve(v, ROOT_INO, names); LoadsFrom(v, q, cap) && Content(v, At(v, q)) == bytes
    ensures var p := Resolve(v0, ROOT_INO, other);
            other != [] && p != Resolve(v, ROOT_INO, names) && LoadsFrom(v0, p, cap) ==>
              Resolve(v, ROOT_INO, other) == p && LoadsFrom(v, p, cap) && Content(v, At(v, p)) == Content(v0, At(v0, p))
  {
    hide Inv, Frame, Resolve, Parent, Readable, Content, Inode.IsDir, Stored, StoreFits, OnlyDirsAdded, Goal, Bound;
    InvCounted(v0);
    var q, p := Resolve(v, ROOT_INO, names), Resolve(v0, ROOT_INO, other);
    SizeOfContent(v, At(v, q), bytes);
    if other != [] && p != q && LoadsFrom(v0, p, cap) { OtherFilesKept(v0, v, q, other); }
  }

  // -------------------------------------------------------------- removing

  /** What ext2_remove leaves: one binding, one inode and its blocks are gone, all else is as it was. */
  ghost predicate Unlinked(v: Vol, v': Vol, parent: nat, name: seq<byte>, t: nat) {
    && Shaped(v) && Shaped(v') && v'.total == v.total && ValidIno(t) && ValidIno(parent) && !At(v, t).IsDir()
    && (forall d, nm :: Find(v', d, nm) == if d == parent && nm == name then 0 else Find(v, d, nm))
    && Find(v, parent, name) == t
    && v'.inodes == v.inodes[t - 1 := ZeroInode()] && v'.inodeUsed == v.inodeUsed[t - 1 := false]
    && (forall x :: 0 <= x < MAX_BLOCKS ==> v'.used[x] == (v.used[x] && x !in Owned(v.data, At(v, t))))
    && (forall x :: 0 <= x < MAX_BLOCKS && x != At(v, parent).block[0] ==> v'.data[x] == v.data[x])
  }

  lemma BoundIn(v: Vol, d: nat, name: seq<byte>, t: nat)
    requires Inv(v) && Find(v, d, name) == t != 0
    ensures ValidIno(d) && DirOk(v, d) && At(v, d).IsDir()
  {
    hide Inv, Tiled, Good, Lookup;
  }

  lemma NotRoot(v: Vol, t: nat)
    requires Inv(v) && ValidIno(t) && !At(v, t).IsDir()
    ensures t != ROOT_INO
  {
    hide Counted, AllOwnWell, Apart, RefsOk, RefsUnique, FreeZero, Tiled, Good, Entries;
  }

  lemma SameOwned(v: Vol, v1: Vol, t: nat)
    requires ValidIno(t) && |v.inodes| == INODES && Raw(v1.data, v.inodes[t - 1]) == Raw(v.data, v.inodes[t - 1])
    ensures Owned(v1.data, At(v, t)) == Owned(v.data, At(v, t))
  {
    hide Raw;
  }

  lemma DroppedSize(b: seq<byte>, t: nat)
    requires |b| == BS && Tiled(b, 0)
    ensures |Dropped(b, t)| == BS
  {
    hide Tiled, Before, Absorb;
  }

  lemma FirstEntry(b: seq<byte>)
    requires |b| == BS && Tiled(b, 0)
    ensures |Entries(b, 0)| > 0 && Entries(b, 0)[0].ino == U32(b, 0)
  {
    hide U32;
  }

  lemma FirstIsNot(v: Vol, d: nat, name: seq<byte>, t: nat)
    requires Inv(v) && DirOk(v, d) && Find(v, d, name) == t != 0 && DotsElsewhere(v, d, t)
    ensures U32(Block(v, d), 0) != t
  {
    hide Inv, Find, Tiled, Good, Inode.IsDir, U32;
    InvCounted(v);
    OneEntryOnly(v, d, name, t);
    DirBlockAt(v, d);
    FirstEntry(Block(v, d));
  }

  lemma FinalState(v: Vol, v1: Vol, v': Vol, parent: nat, name: seq<byte>, t: nat)
    requires Shaped(v) && Shaped(v1) && Shaped(v') && DirOk(v, parent) && ValidIno(t) && !At(v, t).IsDir()
             && Find(v, parent, name) == t
    requires v1 == v.(data := v1.data) && v'.data == v1.data && v'.total == v.total && SameFinds(v1, v')
    requires forall x :: 0 <= x < MAX_BLOCKS && x != At(v, parent).block[0] ==> v1.data[x] == v.data[x]
    requires forall d, nm :: Find(v1, d, nm) == if d == parent && nm == name then 0 else Find(v, d, nm)
    requires v'.inodes == v.inodes[t - 1 := ZeroInode()] && v'.inodeUsed == v.inodeUsed[t - 1 := false]
    requires forall x :: 0 <= x < MAX_BLOCKS ==> v'.used[x] == (v.used[x] && x !in Owned(v.data, At(v, t)))
    ensures Unlinked(v, v', parent, name, t)
  {
    hide Find, Owned, ZeroInode, Inode.IsDir, Tiled, Good;
  }

  /** The steps of ext2_remove, taken together, unlink the file and keep the invariant. */
  lemma UnlinkSteps(v: Vol, parent: nat, name: seq<byte>, t: nat)
    requires Inv(v) && DirOk(v, parent) && Find(v, parent, name) == t != 0 && ValidIno(t) && Unreserved(t)
             && v.inodeUsed[t - 1] && !At(v, t).IsDir() && DotsElsewhere(v, parent, t)
    ensures |Block(v, parent)| == BS && Tiled(Block(v, parent), 0)
    ensures U32(Block(v, parent), 0) != t && Before(Block(v, parent), 0, t) < BS && |Dropped(Block(v, parent), t)| == BS
    ensures var v1 := WithDir(v, parent, Dropped(Block(v, parent), t));
            var n, raw := At(v, t), Raw(v1.data, At(v, t));
            && (n.block[12] == 0 || FIRST_DATA <= n.block[12] < v.total) && |v1.used| == MAX_BLOCKS
            && (forall i :: 0 <= i < |raw| ==> raw[i] < MAX_BLOCKS)
            && var u := FreeAll(v1, raw).(inodes := v.inodes[t - 1 := ZeroInode()]);
            && t <= |u.inodeUsed|
            && var v' := FreeInode(u, t);
            && Inv(v') && Unlinked(v, v', parent, name, t)
  {
    hide Inv, Raw, FreeAll, FreeInode, Dropped, Before, Tiled, Good, Entries, Find, Owned, ZeroInode, Unref, Lookup,
         Inode.IsDir, U32, OnlyEntry, DirOk;
    InvCounted(v);
    UsedDir(v, parent);
    DirBlockAt(v, parent);
    DirRemoveKeeps(v, parent, name, t);
    FirstIsNot(v, parent, name, t);
    DroppedSize(Block(v, parent), t);
    var v1 := WithDir(v, parent, Dropped(Block(v, parent), t));
    InvCounted(v1);
    NotRoot(v, t);
    Discard(v1, t);
    SameOwned(v, v1, t);
    var v' := FreeInode(FreeAll(v1, Raw(v1.data, At(v, t))).(inodes := v.inodes[t - 1 := ZeroInode()]), t);
    InvCounted(v');
    FinalState(v, v1, v', parent, name, t);
  }

  lemma {:induction false} ResolveSurvives(v: Vol, v': Vol, parent: nat, name: seq<byte>, t: nat, d: nat,
                                           names: seq<seq<byte>>)
    requires Unlinked(v, v', parent, name, t) && Resolve(v, d, names) != 0 && Resolve(v, d, names) != t
    ensures Resolve(v', d, names) == Resolve(v, d, names)
    decreases names
  {
    hide Find, Owned, ZeroInode, Inode.IsDir;
    FindsNothing(v, t);
    if names != [] && |names| > 1 { ResolveSurvives(v, v', parent, name, t, Find(v, d, names[0]), names[1..]); }
  }

  /** After a removal every other file is still there: its paths resolve to it and it reads as before. */
  lemma OthersSurvive(v: Vol, v': Vol, parent: nat, name: seq<byte>, t: nat, names: seq<seq<byte>>)
    requires Inv(v) && Unlinked(v, v', parent, name, t) && DirOk(v, parent) && names != []
    requires var q := Resolve(v, ROOT_INO, names); q != 0 && q != t && ValidIno(q) && !At(v, q).IsDir()
    ensures var q := Resolve(v, ROOT_INO, names);
            && Resolve(v', ROOT_INO, names) == q && At(v', q) == At(v, q)
            && Readable(v', At(v', q)) == Readable(v, At(v, q))
            && (Readable(v, At(v, q)) ==> Content(v', At(v', q)) == Content(v, At(v, q)))
  {
    hide Inv, Find, Resolve, Readable, Content, Owned, ZeroInode, Inode.IsDir, DirOk;
    var q := Resolve(v, ROOT_INO, names);
    ResolveSurvives(v, v', parent, name, t, ROOT_INO, names);
    UsedDir(v, parent);
    DirBlockOwned(v, parent);
    assert At(v, q) == v.inodes[q - 1];
    KeptReads(v, v', q);
  }

  // ----------------------------------------------- counting and formatting

  lemma {:induction false} AllSet(bits: seq<bool>)
    requires forall i :: 0 <= i < |bits| ==> bits[i]
    ensures Clear(bits) == 0
  {
    if bits != [] { AllSet(bits[1..]); }
  }

  lemma {:induction false} ClearSplit(bits: seq<bool>, k: nat)
    requires k <= |bits|
    ensures Clear(bits) == Clear(bits[..k]) + Clear(bits[k..])
  {
    if k > 0 {
      ClearSplit(bits[1..], k - 1);
      assert bits[..k][1..] == bits[1..][..k - 1] && bits[1..][k - 1..] == bits[k..];
    } else {
      assert bits[k..] == bits && Clear(bits[..k]) == 0;
    }
  }

  lemma ClearStep(bits: seq<bool>, i: nat)
    requires i < |bits|
    ensures Clear(bits[..i + 1]) == Clear(bits[..i]) + if bits[i] then 0 else 1
  {
    var s := bits[..i + 1];
    ClearSplit(s, i);
    assert s[..i] == bits[..i] && s[i..] == [bits[i]];
    assert [bits[i]][1..] == [];
  }

  lemma EmptyRange(bits: seq<bool>, lo: nat)
    ensures SetRange(bits, lo, lo) == bits
  {
  }

  lemma NoBitsHeld()
    ensures BitsAre(Zeros(BS), NoBits())
  {
    hide BitsAre;
    ZeroBits(BS);
    assert Zeros(BS) == seq(BS, _ => 0) && NoBits() == seq(8 * BS, _ => false);
  }

  lemma BitmapsAre(total: nat)
    ensures BlockBits(total) == SetRange(SetRange(NoBits(), 0, FIRST_DATA + 1), total, MAX_BLOCKS)
    ensures InodeBits() == SetRange(SetRange(NoBits(), 0, 10), INODES, MAX_BLOCKS)
  {
  }

  lemma BlankParts(total: nat, data: seq<seq<byte>>)
    requires FIRST_DATA < total
    ensures Blank(total, data).total == total && Blank(total, data).data == data
            && Blank(total, data).inodes == EmptyTable()
  {
  }

  lemma FormattedBy(total: nat, v: Vol, data: seq<seq<byte>>)
    requires FIRST_DATA + 1 < total <= MAX_BLOCKS && Shape(data)
    requires v == Blank(total, data).(inodes := EmptyTable()[ROOT_INO - 1 := DirInode(FIRST_DATA)],
             data := data[FIRST_DATA := NewDir(ROOT_INO, ROOT_INO)])
    ensures v == Formatted(total, v.data) && Inv(v)
  {
    hide BlockBits, InodeBits, DirInode, NewDir, EmptyTable, Inv;
    FormattedInv(total, data);
    assert v == Formatted(total, data);
    assert v.data[FIRST_DATA := NewDir(ROOT_INO, ROOT_INO)] == v.data;
  }
}
