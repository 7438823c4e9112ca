/**
 The ext2 driver (kernel/fs/ext2.c): a disk of 4 KiB blocks edited block by block. The ghost
 volume `vol` is the value the metadata blocks hold; every method says how it changes.
 */
module Ext2 {
  import opened Bytes
  import opened Bits
  import opened Ext2Layout
  import opened Ext2Dir
  import opened Ext2Volume
  import opened Ext2Files
  import opened Ext2Paths
  import opened Ext2Store
  import opened Ext2Format
  import opened Ext2Disk
  import opened Ext2Outcome

  class Driver {
    var disk: seq<seq<byte>>
    var blocks: nat
    var mounted: bool
    ghost var vol: Vol

    /** The disk holds `vol`. */
    ghost predicate Rep()
      reads this
    {
      Represents(disk, vol) && Shaped(vol) && blocks == vol.total
    }

    ghost predicate Valid()
      reads this
    {
      Rep() && Inv(vol)
    }

    method BlockRead(n: nat) returns (ok: bool, b: seq<byte>)
      requires Rep()
      ensures ok == (n < blocks) && (ok ==> b == disk[n])
    {
      if n >= blocks { return false, []; }
      return true, disk[n];
    }

    /** bwrite of a data block. */
    method WriteBlock(n: nat, b: seq<byte>) returns (ok: bool)
      requires Rep() && FIRST_DATA <= n && |b| == BS
      modifies this`disk, this`vol
      ensures Rep() && ok == (n < blocks)
      ensures vol == if ok then old(vol).(data := old(vol).data[n := b]) else old(vol)
      ensures Shape(disk) && disk[0] == old(disk)[0] && disk[1] == old(disk)[1]
    {
      hide Represents;
      ShapeKept(disk, vol);
      if n >= blocks { return false; }
      WriteData(disk, vol, n, b);
      disk := disk[n := b];
      vol := vol.(data := vol.data[n := b]);
      return true;
    }

    /** counters: superblock and group descriptor counts move together. */
    method Counters(db: int, di: int, dd: int)
      requires Rep()
      modifies this`disk, this`vol
      ensures Rep()
      ensures vol == old(vol).(freeBlocks := Wrap32(old(vol).freeBlocks + db),
              freeInodes := Wrap32(old(vol).freeInodes + di),
                               groupBlocks := Wrap16(old(vol).groupBlocks + db),
                                   groupInodes := Wrap16(old(vol).groupInodes + di),
                               groupDirs := Wrap16(old(vol).groupDirs + dd))
    {
      hide U16, U32, W16, W32, BitsAre, TableIs, DataIs, Wrap32, Wrap16;
      var b := disk[0];
      var freeB, freeI := Wrap32(U32(b, 1036) + db), Wrap32(U32(b, 1040) + di);
      var b0 := W32(W32(b, 1036, freeB), 1040, freeI);
      b := disk[1];
      var groupB, groupI, dirs := Wrap16(U16(b, 12) + db), Wrap16(U16(b, 14) + di), Wrap16(U16(b, 16) + dd);
      var b1 := W16(W16(W16(b, 12, groupB), 14, groupI), 16, dirs);
      TwoCounts(disk[0], freeB, freeI);
      ThreeCounts(disk[1], groupB, groupI, dirs);
      ghost var v := vol.(freeBlocks := freeB, freeInodes := freeI, groupBlocks := groupB, groupInodes := groupI,
          groupDirs := dirs);
      WriteCounts(disk, vol, b0, b1, v);
      disk := disk[0 := b0][1 := b1];
      vol := v;
    }

    /** First clear bit of a bitmap block in `[first, limit)`, or `limit`. */
    method FindClear(b: seq<byte>, first: nat, limit: nat, ghost bits: seq<bool>) returns (i: nat)
      requires |b| == BS && BitsAre(b, bits) && first <= limit <= MAX_BLOCKS
      ensures i == FirstClear(bits, first, limit)
    {
      hide Bit;
      i := first;
      while i < limit
        invariant first <= i <= limit && FirstClear(bits, i, limit) == FirstClear(bits, first, limit)
      {
        assert Bit(b, i) == bits[i];
        if !Bit(b, i) { return; }
        i := i + 1;
      }
    }

    /** alloc_block. */
    method AllocateBlock() returns (n: nat)
      requires Rep()
      modifies this`disk, this`vol
      ensures Rep() && (vol, n) == AllocBlock(old(vol))
    {
      hide BitsAre, Represents, FirstClear, Mark, Wrap16, Wrap32;
      Bitmaps(disk, vol);
      var b := disk[BLOCK_BITMAP];
      var i := FindClear(b, FIRST_DATA + 1, blocks, vol.used);
      if i == blocks { return 0; }
      MarkBits(b, vol.used, i);
      WriteBlockBits(disk, vol, Mark(b, i), vol.used[i := true]);
      disk := disk[BLOCK_BITMAP := Mark(b, i)];
      vol := vol.(used := vol.used[i := true]);
      SmallCounts(disk, vol);
      Counters(-1, 0, 0);
      return i;
    }

    /** alloc_inode. */
    method AllocateInode() returns (ino: nat)
      requires Rep()
      modifies this`disk, this`vol
      ensures Rep() && (vol, ino) == AllocInode(old(vol))
    {
      hide BitsAre, Represents, FirstClear, Mark, Wrap16, Wrap32;
      Bitmaps(disk, vol);
      var b := disk[INODE_BITMAP];
      var i := FindClear(b, 10, INODES, vol.inodeUsed);
      if i == INODES { return 0; }
      MarkBits(b, vol.inodeUsed, i);
      WriteInodeBits(disk, vol, Mark(b, i), vol.inodeUsed[i := true]);
      disk := disk[INODE_BITMAP := Mark(b, i)];
      vol := vol.(inodeUsed := vol.inodeUsed[i := true]);
      SmallCounts(disk, vol);
      Counters(0, -1, 0);
      return i + 1;
    }

    /** free_bit on the block bitmap, for block `n`. */
    method ReleaseBlock(n: nat)
      requires Rep() && n < MAX_BLOCKS
      modifies this`disk, this`vol
      ensures Rep() && vol == FreeBlock(old(vol), n)
    {
      hide BitsAre, Represents, Unmark, Wrap16, Wrap32;
      Bitmaps(disk, vol);
      var b := disk[BLOCK_BITMAP];
      UnmarkBits(b, vol.used, n);
      WriteBlockBits(disk, vol, Unmark(b, n), vol.used[n := false]);
      disk := disk[BLOCK_BITMAP := Unmark(b, n)];
      vol := vol.(used := vol.used[n := false]);
      SmallCounts(disk, vol);
      Counters(1, 0, 0);
    }

    /** free_bit on the inode bitmap. */
    method ReleaseInode(ino: nat)
      requires Rep() && ValidIno(ino)
      modifies this`disk, this`vol
      ensures Rep() && vol == FreeInode(old(vol), ino)
    {
      hide BitsAre, Represents, Unmark, Wrap16, Wrap32;
      Bitmaps(disk, vol);
      var b, i := disk[INODE_BITMAP], ino - 1;
      UnmarkBits(b, vol.inodeUsed, i);
      WriteInodeBits(disk, vol, Unmark(b, i), vol.inodeUsed[i := false]);
      disk := disk[INODE_BITMAP := Unmark(b, i)];
      vol := vol.(inodeUsed := vol.inodeUsed[i := false]);
      SmallCounts(disk, vol);
      Counters(0, 1, 0);
    }

    /** inode_get. */
    method InodeGet(ino: nat) returns (ok: bool, n: Inode)
      requires Rep()
      ensures ok == ValidIno(ino) && (ok ==> n == At(vol, ino))
    {
      hide Decode, BitsAre, CountsAre, DataIs;
      if ino == 0 || ino > INODES { return false, ZeroInode(); }
      var i := ino - 1;
      return true, Decode(Slot(disk, i));
    }

    /** inode_put. */
    method InodePut(ino: nat, n: Inode)
      requires Rep() && ValidIno(ino) && n.Fits()
      modifies this`disk, this`vol
      ensures Rep() && vol == old(vol).(inodes := old(vol).inodes[ino - 1 := n])
      ensures Shape(disk) && disk[0] == old(disk)[0] && disk[1] == old(disk)[1]
    {
      hide Represents, Overwrite, Encode;
      Bitmaps(disk, vol);
      var i := ino - 1;
      var k := INODE_TABLE + i / 32;
      WriteInode(disk, vol, i, n);
      disk := disk[k := Overwrite(disk[k], i % 32 * INODE_SIZE, Encode(n))];
      vol := vol.(inodes := vol.inodes[i := n]);
    }

    /** dir_find's scan of a directory block. */
    method ScanName(b: seq<byte>, name: seq<byte>) returns (ino: nat)
      requires |b| == BS && Tiled(b, 0)
      ensures ino == Lookup(Entries(b, 0), name)
    {
      hide Rec, Len, Ideal, Tiled, Entries, EntryAt, RecordOk;
      var p := 0;
      while p + 8 <= BS
        invariant p <= BS && Tiled(b, p) && Lookup(Entries(b, p), name) == Lookup(Entries(b, 0), name)
        decreases BS - p
      {
        EntryHere(b, p);
        TiledStep(b, p);
        var e := EntryAt(b, p);
        if e.ino != 0 && e.name == name { return e.ino; }
        p := p + e.rec;
      }
      NoneLeft(b, p);
      return 0;
    }

    /** dir_find: the inode bound to `name` in directory `dir`, or 0. */
    method DirFind(dir: nat, name: seq<byte>) returns (ino: nat)
      requires Valid()
      ensures ino == Find(vol, dir, name)
    {
      hide Tiled, Good, Lookup, Entries, Inode.IsDir, Counted, AllOwnWell, Apart, RefsOk, RefsUnique, FreeZero, BitsAre,
           CountsAre, TableIs;
      var ok, n := InodeGet(dir);
      if !ok || !n.IsDir() || n.block[0] == 0 { return 0; }
      DirBlockAt(vol, dir);
      var okr, b := BlockRead(n.block[0]);
      ino := ScanName(b, name);
    }

    /** dir_add's search for a record with room, which in a file's block may meet anything. */
    method ScanRoom(b: seq<byte>, n: nat) returns (found: bool, q: nat)
      requires |b| == BS
      ensures found ==> q + 8 <= BS && Rec(b, q) >= Ideal(Len(b, q)) + Ideal(n) && q + Rec(b, q) <= BS
      ensures Tiled(b, 0) ==> found == (RoomAt(b, 0, n) < BS) && (found ==> q == RoomAt(b, 0, n))
    {
      hide Rec, Len, Ideal, Tiled, Entries, EntryAt, RecordOk, HasRoom, U32, RoomAt;
      q := 0;
      ghost var tiled := Tiled(b, 0);
      while q + 8 <= BS
        invariant q <= BS && (tiled ==> Tiled(b, q) && RoomAt(b, q, n) == RoomAt(b, 0, n))
        decreases BS - q
      {
        var rec := Rec(b, q);
        if tiled { RoomStep(b, q, n); }
        if rec < 8 || q + rec > BS { return false, q; }
        if U32(b, q) != 0 && rec >= Ideal(Len(b, q)) + Ideal(n) { return true, q; }
        q := q + rec;
      }
      if tiled { NoRoomLeft(b, q, n); }
      found := false;
    }

    /**
     dir_add: in a directory, an exact insertion; in a file, which it does not tell apart, at most its first block.
     */
    method DirAdd(dir: nat, name: seq<byte>, ino: nat, kind: byte) returns (ok: bool)
      requires Valid() && Settled(vol, dir) && Find(vol, dir, name) == 0
      requires Settled(vol, ino) && Unref(vol, ino) && ino != dir && FileOrNew(vol, ino, dir)
      modifies this`disk, this`vol
      ensures Valid() && (ok ==> 0 < |name| < 256) && (!ok ==> vol == old(vol)) && vol == old(vol).(data := vol.data)
      ensures DirOk(old(vol), dir) ==> ok == (0 < |name| < 256 && RoomFor(List(old(vol), dir), |name|))
      ensures DirOk(old(vol), dir) && ok ==> vol == WithDir(old(vol), dir, Added(Block(old(vol), dir), ino, kind, name))
      ensures !DirOk(old(vol), dir) ==>
                && SameFinds(old(vol), vol)
                && forall x :: 0 <= x < MAX_BLOCKS && x != At(old(vol), dir).block[0] ==>
                     vol.data[x] == old(vol).data[x]
    {
      hide Tiled, Good, Lookup, Entries, Inode.IsDir, Inv, BitsAre, CountsAre, TableIs, Unref, RoomFor, RoomAt,
           AddRecord,
           RecordOk, HasRoom, Ideal, EntryAt, Rec, Len, Added, SameFinds, Find, FileOrNew, DirOk;
      ghost var v0 := vol;
      SameFindsSelf(vol);
      DirOrFile(vol, dir);
      if |name| == 0 || |name| > 255 { return false; }
      var okg, n := InodeGet(dir);
      if n.block[0] == 0 { return false; }
      FirstBlockOwned(vol, dir);
      var okr, b := BlockRead(n.block[0]);
      var found, q := ScanRoom(b, |name|);
      if n.IsDir() { RoomAtIff(b, 0, |name|); }
      if !found { return false; }
      if n.IsDir() {
        AddEntries(b, 0, ino, kind, name);
        DirAddKeeps(vol, dir, name, ino, kind);
        AddedIs(b, ino, kind, name);
      } else {
        FileWriteKeeps(vol, dir, AddRecord(b, q, ino, kind, name));
      }
      ok := WriteBlock(n.block[0], AddRecord(b, q, ino, kind, name));
    }

    /** The part of make_dir before dir_add: an inode, a block with `.` and `..`, and the inode written. */
    method PrepareDir(parent: nat) returns (ok: bool, ino: nat)
      requires Valid() && Settled(vol, parent)
      modifies this`disk, this`vol
      ensures Valid() && vol.total == old(vol).total
      ensures ok == (old(vol).freeInodes > 0 && old(vol).freeBlocks > 0)
      ensures !ok ==> Frame(old(vol), vol, 0)
      ensures ok ==> PreparedBy(old(vol), vol, parent, ino) && Prepared(old(vol), vol, ino, parent)
    {
      hide Inv, Represents, AllocInode, AllocBlock, NewDir, Inode.IsDir, Inode.Fits, ZeroInode, SameFinds, Unref, Frame,
           Find, DirOk, DirInode, Prepared;
      ghost var v0 := vol;
      AllocInodeKeeps(v0);
      AllocFull(v0);
      ino := AllocateInode();
      ghost var v1 := vol;
      AllocBlockKeeps(v1);
      AllocFull(v1);
      var blk := AllocateBlock();
      FindsChain(v0, v1, vol);
      if ino == 0 || blk == 0 {
        FrameSame(v0, vol);
        return false, 0;
      }
      PrepareFacts(v0, parent);
      var okw := WriteBlock(blk, NewDir(ino, parent));
      DirInodeFits(blk);
      InodePut(ino, DirInode(blk));
      ok := true;
    }

    /** Counts one more directory and gives the parent one more link. */
    method LinkDir(parent: nat)
      requires Valid() && Settled(vol, parent)
      modifies this`disk, this`vol
      ensures Valid() && SameFinds(old(vol), vol) && vol == LinkVol(old(vol), parent)
      ensures vol.inodeUsed == old(vol).inodeUsed
    {
      hide Inv, Represents, Inode.IsDir, SameFinds, Find, DirOk, Wrap32, Wrap16, OneMoreLink;
      LinkFacts(vol, parent);
      LinksFit(At(vol, parent));
      SmallCounts(disk, vol);
      Counters(0, 0, 1);
      var ok, n := InodeGet(parent);
      InodePut(parent, OneMoreLink(n));
    }

    /** make_dir; nothing in it tells a file from a directory. */
    method MakeDir(parent: nat, name: seq<byte>) returns (ok: bool, ino: nat)
      requires Valid() && Settled(vol, parent) && Find(vol, parent, name) == 0
      modifies this`disk, this`vol
      ensures Valid() && (ok ==> NewBelow(old(vol), vol, parent, ino))
      ensures DirOk(old(vol), parent) ==> Frame(old(vol), vol, 0) && ok == CanMake(old(vol), parent, name)
      ensures DirOk(old(vol), parent) && ok ==>
                && Made(old(vol), vol, parent, name, ino) && MadeBy(old(vol), vol, parent, name, ino)
                && DirOnDisk(old(disk), disk, parent, name, ino)
    {
      hide Inv, Represents, Inode.IsDir, SameFinds, Find, DirOk, Unref, RoomFor, Added, Frame, WithDir, Made,
           AllocInode,
           AllocBlock, PrepareVol, AddVol, LinkVol, Prepared, NewBelow, FileOrNew, DirOnDisk, HasEntry;
      ghost var v0 := vol;
      ok, ino := PrepareDir(parent);
      if !ok { return; }
      ghost var v1 := vol;
      PreparedIsNew(v0, v1, ino, parent);
      PreparedKeeps(v0, v1, ino, parent, name);
      ghost var dir := DirOk(v0, parent);
      if dir { ParentList(v0, v1, ino, parent); } else { StillNoDir(v0, v1, ino, parent); }
      ok := DirAdd(parent, name, ino, 2);
      if !ok {
        if dir { FramePrepared(v0, v1, ino, parent); }
        return;
      }
      ghost var v2 := vol;
      LinkDir(parent);
      if dir {
        AddVolIs(v1, parent, name, ino, 2);
        MadeFacts(v0, parent, name);
        MadeIsBelow(v0, vol, parent, name, ino);
        PreparedEntries(v0, v1, parent, ino);
        MadeEntries(v1, v2, vol, parent, name, ino);
        MadeOnDisk(v0, old(disk), vol, disk, parent, name, ino);
      } else {
        LooseBelow(v0, v1, v2, vol, parent, ino);
      }
    }

    /** One step of walk: the directory `name` leads to, made when it is missing and `create` is set. */
    method Enter(cur: nat, name: seq<byte>, create: bool, ghost rest: seq<seq<byte>>, ghost s: set<nat>)
      returns (ok: bool, next: nat, ghost s': set<nat>)
      requires Valid() && rest != [] && Closed(vol, s) && cur in s
      modifies this`disk, this`vol
      ensures Valid() && (ok ==> Closed(vol, s') && next in s')
      ensures Find(old(vol), cur, name) != 0 || !create ==>
                vol == old(vol) && disk == old(disk) && ok == (Find(vol, cur, name) != 0)
      ensures ok && !create ==> next != 0 && next == Find(vol, cur, name)
      ensures create && DirOk(old(vol), cur) && Walkable(old(vol), Spot(cur, 0), [name] + rest) ==>
                Entering(old(vol), vol, cur, name, rest, ok, next)
    {
      hide Inv, Represents, Inode.IsDir, Find, DirOk, Frame, CanMake, DirInode, OnlyDirsAdded, Made, MadeVol,
           AllocInode,
           AllocBlock, NewBelow, Walkable, Goal, Entering, Created;
      ghost var v0 := vol;
      next := DirFind(cur, name);
      ok, s' := next != 0, s;
      if ok {
        EnteringOld(v0, cur, name, rest);
      } else if create {
        ok, next := MakeDir(cur, name);
        if ok {
          ClosedAfterMake(v0, vol, s, cur, next);
          s' := s + {next};
        }
        if DirOk(v0, cur) { EnteringNew(v0, vol, cur, name, rest, ok, next); }
      }
    }

    /**
     walk: resolves a path, making missing directories on the way when `create` is set. Whatever the path leads
     through, the volume stays valid; what it finds is told exactly when it leads through no file.
     */
    method Walk(path: seq<byte>, create: bool) returns (ok: bool, parent: nat, leaf: seq<byte>, found: nat)
      requires Valid()
      modifies this`disk, this`vol
      ensures Valid() && (create || (vol == old(vol) && disk == old(disk)))
      ensures Names(path) == [] ==> ok && found == ROOT_INO && vol == old(vol)
      ensures Names(path) != [] && ok ==>
                && Settled(vol, parent) && leaf == Names(path)[|Names(path)| - 1] && found == Find(vol, parent, leaf)
                && (found != 0 ==> Settled(vol, found))
      ensures Names(path) != [] && !create ==> Looked(vol, Names(path), ok, parent, found)
      ensures Names(path) != [] && create && Walkable(old(vol), RootSpot(), Names(path)) ==>
                Walked(old(vol), vol, Names(path), ok, parent)
    {
      hide Inv, Represents, Inode.IsDir, Find, DirOk, Frame, Walkable, Goal, Resolve, Parent, Reach, Names, NameLength,
           CanMake, OnlyDirsAdded, Tracks, Follows, Created, Entering, Closed, OnTheWay, Settled;
      ghost var v0, names, done := vol, Names(path), [];
      assert path[0..] == path;
      var p := SkipSlashes(path, 0);
      NoNames(path, p);
      parent, leaf, found := 0, [], ROOT_INO;
      if p == |path| { return true, 0, [], ROOT_INO; }
      var cur := ROOT_INO;
      ghost var s := RootClosed(vol);
      ghost var plain := Walkable(vol, RootSpot(), names);
      RootIs(vol);
      if plain { SetOut(vol, names); }
      while true
        invariant Valid() && (create || (vol == v0 && disk == old(disk))) && p < |path| && path[p] != SLASH
        invariant done + Names(path[p..]) == names && Closed(vol, s) && cur in s
        invariant !create ==> Reach(vol, ROOT_INO, done, cur) && cur != 0
        invariant create && plain ==> OnTheWay(v0, vol, names, done, cur, Names(path[p..]))
        decreases |path| - p
      {
        ghost var rest := Names(path[p..]);
        var q := NameEnd(path, p);
        NamesSplit(path, p, q);
        var name := path[p..q];
        q := SkipSlashes(path, q);
        NoNames(path, q);
        ghost var tail := Names(path[q..]);
        assert rest == [name] + tail;
        if q == |path| {
          found := DirFind(cur, name);
          ClosedStep(vol, s, cur, name);
          assert tail == [] && rest == [name] && done + [name] == names;
          if create {
            if plain { Arrive(v0, vol, names, done, cur, name); }
          } else {
            LookedUp(vol, names, done, cur, name);
          }
          return true, cur, name, found;
        }
        ghost var v := vol;
        if !create { LookOn(v, names, done, cur, name, tail); }
        var okn, next, s' := Enter(cur, name, create, tail, s);
        if create && plain { GoOn(v0, v, vol, names, done, cur, name, tail, okn, next); }
        if !okn { return false, 0, [], 0; }
        done := done + [name];
        assert done + tail == names;
        cur, p, s := next, q, s';
      }
    }

    /** Frees every nonzero pointer of a list. */
    method FreePointers(ps: seq<nat>)
      requires Rep() && forall i :: 0 <= i < |ps| ==> ps[i] < MAX_BLOCKS
      modifies this`disk, this`vol
      ensures Rep() && vol == FreeAll(old(vol), ps)
    {
      hide Represents, FreeBlock;
      for k := 0 to |ps|
        invariant Rep() && FreeAll(vol, ps[k..]) == FreeAll(old(vol), ps)
      {
        assert ps[k..][1..] == ps[k + 1..];
        if ps[k] != 0 { ReleaseBlock(ps[k]); }
      }
    }

    /** release_blocks. */
    method ReleaseBlocks(n: Inode)
      requires Rep() && |n.block| == 15 && (n.block[12] == 0 || FIRST_DATA <= n.block[12] < blocks)
      requires forall i :: 0 <= i < |Raw(vol.data, n)| ==> Raw(vol.data, n)[i] < MAX_BLOCKS
      modifies this`disk, this`vol
      ensures Rep() && vol == FreeAll(old(vol), Raw(old(vol).data, n))
    {
      hide Represents, FreeAll, FreeBlock;
      ghost var v0, raw := vol, Raw(vol.data, n);
      assert n.block[12] == 0 ==> raw == n.block[..12];
      assert raw[..12] == n.block[..12];
      FreePointers(n.block[..12]);
      if n.block[12] != 0 {
        FreeAllKeepsData(v0, n.block[..12]);
        var ok, b := BlockRead(n.block[12]);
        DataOnDisk(disk, vol, n.block[12]);
        var w := Words(b);
        assert raw == n.block[..12] + (w + [n.block[12]]);
        assert forall i :: 0 <= i < |w| ==> w[i] == raw[12 + i];
        FreePointers(w);
        ReleaseBlock(n.block[12]);
        FreeAllThree(v0, n.block[..12], w, n.block[12]);
      }
    }

    /** file_block. */
    method FileBlockOf(n: Inode, i: nat) returns (x: nat)
      requires Rep() && |n.block| == 15 && (n.block[12] == 0 || FIRST_DATA <= n.block[12])
      ensures x == FileBlock(vol, n, i)
    {
      hide Represents, U32;
      if i < 12 { return n.block[i]; }
      if i >= MAX_FILE_BLOCKS || n.block[12] == 0 { return 0; }
      var ok, b := BlockRead(n.block[12]);
      if !ok { return 0; }
      DataOnDisk(disk, vol, n.block[12]);
      return U32(b, (i - 12) * 4);
    }

    /** Maps one more block, the first twelve directly, and fills it. On failure nothing stays allocated. */
    method AddDirect(n: Inode, index: nat, chunk: seq<byte>, ghost v0: Vol, ghost fb: seq<nat>)
                     returns (ok: bool, n': Inode, ghost fb': seq<nat>)
      requires Rep() && Grown(v0, vol, Blocks(fb, 0)) && Mapped(vol.data, n, fb, 0) && index == |fb| < 12
               && |chunk| == BS
      modifies this`disk, this`vol
      ensures Rep() && Added1(v0, old(vol), vol, n, n', fb, fb', 0, 0, chunk, ok)
      ensures !ok ==> v0.freeBlocks == |fb|
    {
      hide Represents, Grown, Mapped, AllocBlock, Inv, Shaped, Unowned, SameFinds, Blocks;
      n', fb' := n, fb;
      ghost var v1, s := vol, Blocks(fb, 0);
      GrownShape(v0, v1, s);
      AllocBlockKeeps(v1);
      GrowAlloc(v0, v1, s);
      var x := AllocateBlock();
      AllTaken(v0, v1, n, fb, 0, s, 0);
      if x == 0 { return false, n, fb; }
      ghost var v2 := vol;
      GrowWrite(v0, v2, s + {x}, x, chunk);
      var okw := WriteBlock(x, chunk);
      FreshBlock(fb, 0, x);
      MapDirect(v1.data, vol.data, n, fb, x);
      MappedLength(v1.data, n, fb, 0);
      n' := n.(block := n.block[index := x], blocks := n.blocks + 8);
      fb' := fb + [x];
      MappedBlocks(vol.data, n.(block := n.block[|fb| := x]), n', fb', 0);
      ok := true;
    }

    /** Allocates the indirect block of a file with twelve blocks and writes it empty. */
    method StartIndirect(n: Inode, ghost v0: Vol, ghost fb: seq<nat>, ghost x: nat) returns (ib: nat, n': Inode)
      requires Rep() && Grown(v0, vol, Blocks(fb, 0) + {x}) && Mapped(vol.data, n, fb, 0) && |fb| == 12
               && x !in Blocks(fb, 0) && x != 0
      modifies this`disk, this`vol
      ensures Rep() && |old(vol).data| == |vol.data| == MAX_BLOCKS
      ensures ib == 0 ==> n' == n && vol == old(vol) && v0.freeBlocks == |fb| + 1
      ensures ib != 0 ==>
                && Grown(v0, vol, Blocks(fb, ib) + {x}) && Mapped(vol.data, n', fb, ib) && ib != x
                   && vol.data[ib] == Zeros(BS)
                && n' == n.(block := n'.block, blocks := n.blocks + 8) && x !in Blocks(fb, ib) && ib < MAX_BLOCKS
                   && ib !in fb
                && (forall y :: 0 <= y < MAX_BLOCKS && y != ib ==> vol.data[y] == old(vol).data[y])
    {
      hide Represents, Grown, Mapped, AllocBlock, Inv, Shaped, Unowned, SameFinds;
      n' := n;
      ghost var v1, s := vol, Blocks(fb, 0) + {x};
      GrownShape(v0, v1, s);
      AllocBlockKeeps(v1);
      GrowAlloc(v0, v1, s);
      ib := AllocateBlock();
      AllTaken(v0, v1, n, fb, 0, s, 1);
      if ib == 0 { return; }
      ghost var v2 := vol;
      GrowWrite(v0, v2, s + {ib}, ib, Zeros(BS));
      var okw := WriteBlock(ib, Zeros(BS));
      FreshIndirect(fb, x, ib);
      MapStart(v1.data, vol.data, n, fb, ib);
      MappedLength(v1.data, n, fb, 0);
      n' := n.(block := n.block[12 := ib], blocks := n.blocks + 8);
      MappedBlocks(vol.data, n.(block := n.block[12 := ib]), n', fb, ib);
    }

    /** Maps and fills one more block through the indirect block, whose contents are `ind`. */
    method LinkIndirect(n: Inode, index: nat, ind: seq<byte>, x: nat, chunk: seq<byte>, ghost v0: Vol,
                        ghost fb: seq<nat>)
      returns (n': Inode, ind': seq<byte>)
      requires Rep() && |n.block| == 15 && n.block[12] != 0 && |chunk| == BS && index == |fb|
               && 12 <= index < MAX_FILE_BLOCKS
      requires Grown(v0, vol, Blocks(fb, n.block[12]) + {x}) && Mapped(vol.data, n, fb, n.block[12])
               && x !in Blocks(fb, n.block[12]) && x != 0
      requires n.block[12] < |vol.data| && vol.data[n.block[12]] == ind
      modifies this`disk, this`vol
      ensures Rep() && n' == n.(blocks := n.blocks + 8) && |old(vol).data| == |vol.data| == MAX_BLOCKS
      ensures Grown(v0, vol, Blocks(fb + [x], n.block[12])) && Mapped(vol.data, n', fb + [x], n.block[12])
      ensures vol.data[n.block[12]] == ind' && x < MAX_BLOCKS && vol.data[x] == chunk
      ensures forall y :: 0 <= y < MAX_BLOCKS && y != n.block[12] && y != x ==> vol.data[y] == old(vol).data[y]
    {
      hide Represents, Grown, Mapped, W32, Inv, Shaped;
      var ib := n.block[12];
      ghost var v1, s := vol, Blocks(fb, ib) + {x};
      GrownShape(v0, v1, s);
      FreshBlock(fb, ib, x);
      ind' := W32(ind, (index - 12) * 4, x);
      GrowWrite(v0, v1, s, ib, ind');
      var okw := WriteBlock(ib, ind');
      ghost var v2 := vol;
      GrowWrite(v0, v2, s, x, chunk);
      okw := WriteBlock(x, chunk);
      MapIndirect(v1.data, vol.data, n, fb, ib, x);
      n' := n.(blocks := n.blocks + 8);
      MappedBlocks(vol.data, n, n', fb + [x], ib);
    }

    /** One more block behind the first twelve; the indirect block is allocated when it is first needed. */
    method AddIndirect(n: Inode, index: nat, ind: seq<byte>, chunk: seq<byte>, ghost v0: Vol, ghost fb: seq<nat>)
      returns (ok: bool, n': Inode, ind': seq<byte>, ghost fb': seq<nat>)
      requires Rep() && |n.block| == 15 && |chunk| == BS && index == |fb| && 12 <= index < MAX_FILE_BLOCKS
      requires Grown(v0, vol, Blocks(fb, n.block[12])) && Mapped(vol.data, n, fb, n.block[12])
      requires if n.block[12] == 0 then index == 12 && ind == Zeros(BS)
               else n.block[12] < |vol.data| && vol.data[n.block[12]] == ind
      modifies this`disk, this`vol
      ensures Rep() && |n'.block| == 15 && Added1(v0, old(vol), vol, n, n', fb, fb', n.block[12], n'.block[12], chunk,
              ok)
      ensures ok ==> n'.block[12] != 0 && n'.block[12] < |vol.data| && vol.data[n'.block[12]] == ind'
      ensures !ok ==> v0.freeBlocks <= |fb| + 1
    {
      hide Represents, Grown, Mapped, AllocBlock, Zeros, Blocks, Inv, Shaped, Unowned, SameFinds;
      n', ind', fb' := n, ind, fb;
      ghost var v1, s := vol, Blocks(fb, n.block[12]);
      GrownShape(v0, v1, s);
      AllocBlockKeeps(v1);
      GrowAlloc(v0, v1, s);
      var x := AllocateBlock();
      AllTaken(v0, v1, n, fb, n.block[12], s, 0);
      if x == 0 { return false, n, ind, fb; }
      ghost var v2 := vol;
      NotIn(v1.data, n, fb, n.block[12], x);
      if n.block[12] == 0 {
        var ib, n1 := StartIndirect(n, v0, fb, x);
        if ib == 0 {
          GrowFree(v0, vol, s + {x}, x);
          ReleaseBlock(x);
          assert s + {x} - {x} == s;
          return false, n, ind, fb;
        }
        MappedLength(vol.data, n1, fb, ib);
        n' := n1;
      }
      n', ind' := LinkIndirect(n', index, ind, x, chunk, v0, fb);
      fb' := fb + [x];
      ok := true;
    }

    /** The block-filling loop of write_new_blocks: the next block of the data, zero padded. */
    method FillChunk(bytes: seq<byte>, index: nat) returns (chunk: seq<byte>)
      ensures chunk == Chunk(bytes, index)
    {
      chunk := [];
      var at := index * BS;
      for j := 0 to BS
        invariant |chunk| == j && at == index * BS + j
        invariant forall k :: 0 <= k < j ==> chunk[k] == if index * BS + k < |bytes| then bytes[index * BS + k] else 0
      {
        chunk := chunk + [if at < |bytes| then bytes[at] else 0];
        at := at + 1;
      }
    }

    /** The rollback of write_new_blocks: every block taken so far is given back. */
    method Rollback(n: Inode, ghost v0: Vol, ghost fb: seq<nat>)
      requires Rep() && |n.block| == 15 && Grown(v0, vol, Blocks(fb, n.block[12]))
               && Mapped(vol.data, n, fb, n.block[12])
      modifies this`disk, this`vol
      ensures Rep() && Grown(v0, vol, {})
    {
      hide Represents, Grown, Mapped, FreeAll, Raw, NoRepeat;
      ghost var s, raw := Blocks(fb, n.block[12]), Raw(vol.data, n);
      GrownShape(v0, vol, s);
      MappedOwned(vol.data, n, fb, n.block[12]);
      assert Nonzero(raw) == s;
      GrowFreeAll(v0, vol, s, raw);
      assert s - Nonzero(raw) == {};
      ReleaseBlocks(n);
    }

    /** write_new_blocks. */
    method WriteNewBlocks(n: Inode, bytes: seq<byte>) returns (ok: bool, n': Inode, ghost fb: seq<nat>)
      requires Valid() && |n.block| == 15 && (forall k :: 0 <= k < 15 ==> n.block[k] == 0) && |bytes| <= MAX_FILE_SIZE
      modifies this`disk, this`vol
      ensures Rep() && (ok ==> |n'.block| == 15 && Written(old(vol), vol, n, n', fb, bytes))
      ensures !ok ==> Grown(old(vol), vol, {})
      ensures ok == (Need(|bytes|) <= old(vol).freeBlocks)
    {
      hide Represents, Grown, Mapped, Chunk, Zeros, Inv, Blocks, Need;
      ghost var v0 := vol;
      var ind, index := Zeros(BS), 0;
      n', fb := n, [];
      GrownStart(vol);
      EmptyMapped(vol.data, n);
      while index * BS < |bytes|
        invariant Rep() && index == |fb| && (index == 0 || (index - 1) * BS < |bytes|) && |n'.block| == 15
        invariant Grown(v0, vol, Blocks(fb, n'.block[12])) && Mapped(vol.data, n', fb, n'.block[12])
        invariant if n'.block[12] == 0 then index <= 12 && ind == Zeros(BS)
                  else index > 12 && n'.block[12] < |vol.data| && vol.data[n'.block[12]] == ind
        invariant |vol.data| == MAX_BLOCKS && forall j :: 0 <= j < index ==>
                    fb[j] < MAX_BLOCKS && vol.data[fb[j]] == Chunk(bytes, j)
        invariant n' == n.(block := n'.block, blocks := n.blocks + 8 * (index + if n'.block[12] == 0 then 0 else 1))
        decreases |bytes| - index * BS
      {
        var chunk := FillChunk(bytes, index);
        var okb;
        ghost var fb0, n0 := fb, n';
        if index < 12 {
          okb, n', fb := AddDirect(n', index, chunk, v0, fb);
          MappedLength(vol.data, n', fb, 0);
        } else {
          okb, n', ind, fb := AddIndirect(n', index, ind, chunk, v0, fb);
        }
        if !okb {
          NotEnough(v0, |fb0|, |bytes|);
          Rollback(n', v0, fb);
          return false, n', fb;
        }
        index := index + 1;
      }
      Enough(v0, vol, n', fb, |bytes|);
      ok := true;
    }

    /** The part of ext2_store that replaces an existing file. */
    method StoreExisting(ino: nat, was: Inode, bytes: seq<byte>) returns (ok: bool)
      requires Valid() && ValidIno(ino) && vol.inodeUsed[ino - 1] && was == At(vol, ino) && !was.IsDir()
               && |bytes| <= MAX_FILE_SIZE
      modifies this`disk, this`vol
      ensures Valid() && SameFinds(old(vol), vol) && Frame(old(vol), vol, if ok then ino else 0)
      ensures ok == (Need(|bytes|) <= old(vol).freeBlocks)
      ensures ok ==> Stored(old(vol), vol, ino, bytes) && SameButPointers(At(vol, ino), was.(size := |bytes|), |bytes|)
      ensures !ok ==> Undone(old(vol), vol)
    {
      hide Inv, Represents, Grown, Mapped, Chunk, Raw, Frame, SameFinds, Stored, FreeAll, Inode.Fits, Inode.IsDir,
           Blocks, Undone;
      ghost var v0 := vol;
      FitsZeroed(was, |bytes|);
      var next := was.(block := seq(15, _ => 0), size := |bytes|, blocks := 0);
      var okw, n', fb := WriteNewBlocks(next, bytes);
      if !okw {
        GrownUndone(v0, vol);
        return false;
      }
      ghost var v1 := vol;
      WrittenFits(v0, v1, next, n', fb, bytes);
      ReplaceFile(v0, v1, ino, next, n', fb, bytes);
      InodePut(ino, n');
      OldPointers(v0, v1, ino, n', Blocks(fb, n'.block[12]));
      ghost var v2 := vol;
      ReleaseBlocks(was);
      FreeAllKeepsData(v2, Raw(v2.data, was));
      ok := true;
    }

    /** The error path of ext2_store after dir_add: release the blocks, zero the inode, give it back. */
    method Withdraw(ino: nat, n': Inode, ghost v0: Vol, ghost v2: Vol, ghost n: Inode, ghost fb: seq<nat>,
                    ghost bytes: seq<byte>)
      requires Rep() && Inv(v0) && ValidIno(ino) && ino == AllocInode(v0).1
      requires |n'.block| == 15 && Written(AllocInode(v0).0, v2, n, n', fb, bytes) && |v2.inodes| == INODES
               && vol == v2.(inodes := v2.inodes[ino - 1 := n'])
      modifies this`disk, this`vol
      ensures Valid() && Frame(v0, vol, 0) && Undone(v0, vol)
    {
      hide Inv, Represents, Raw, Frame, FreeAll, FreeInode, AllocInode, Undone, ZeroInode, Written;
      InvCounted(v0);
      GiveBack(v0, AllocInode(v0).0, v2, ino, n, n', fb, bytes);
      ReleaseBlocks(n');
      ZeroFits();
      InodePut(ino, ZeroInode());
      ReleaseInode(ino);
    }

    /** The end of ext2_store for a new file: fill the inode and bind the name, or give everything back. */
    method EnterFile(parent: nat, leaf: seq<byte>, ino: nat, n': Inode, ghost v0: Vol, ghost n: Inode,
                     ghost fb: seq<nat>, ghost bytes: seq<byte>)
      returns (ok: bool)
      requires Rep() && Inv(v0) && Settled(v0, parent) && Find(v0, parent, leaf) == 0 && |leaf| < 256
      requires ino == AllocInode(v0).1 != 0 && |n'.block| == 15 && Written(AllocInode(v0).0, vol, n, n', fb, bytes)
      requires n.Fits() && !n.IsDir() && n.blocks == 0 && n.size == |bytes| <= MAX_FILE_SIZE
      modifies this`disk, this`vol
      ensures Valid() && ValidIno(ino) && (!ok ==> Frame(v0, vol, 0) && Undone(v0, vol))
      ensures DirOk(v0, parent) ==> ok == (|leaf| > 0 && RoomFor(List(v0, parent), |leaf|)) && Frame(v0, vol, 0)
      ensures DirOk(v0, parent) && ok ==>
                && Stored(v0, vol, ino, bytes) && Bound(v0, vol, parent, leaf, ino) && At(vol, ino) == n'
                && NamedOnDisk(disk, parent, leaf, ino, 1)
    {
      hide Inv, Represents, Grown, Mapped, Chunk, Raw, Frame, SameFinds, Stored, FreeAll, Inode.Fits, Inode.IsDir,
           Blocks, AllocInode, Undone, Find, DirOk, Unref, ZeroInode, WithDir, Written, RoomFor, FileOrNew;
      InvCounted(v0);
      ghost var v1, v2 := AllocInode(v0).0, vol;
      AllocInodeKeeps(v0);
      WrittenFits(v1, v2, n, n', fb, bytes);
      WrittenShape(v1, v2, n, n', fb, bytes);
      FilledInode(v0, v2, n, n', fb, bytes);
      ghost var v3 := v2.(inodes := v2.inodes[ino - 1 := n']);
      ReadyToEnter(v0, v3, parent, leaf, ino);
      if DirOk(v0, parent) { SameList(v0, v1, v2, v3, parent, ino, n, n', fb, bytes); }
      InodePut(ino, n');
      ok := DirAdd(parent, leaf, ino, 1);
      if ok {
        if DirOk(v0, parent) {
          EnteredFile(v0, v2, parent, leaf, n, n', fb, bytes);
          AddedHas(v3, parent, ino, 1, leaf);
          EntryOnDisk(disk, vol, parent, leaf, ino, 1);
        }
      } else {
        Withdraw(ino, n', v0, v2, n, fb, bytes);
      }
    }

    /** The part of ext2_store that enters a new file. */
    method StoreNew(parent: nat, leaf: seq<byte>, bytes: seq<byte>, mode: nat, uid: nat, gid: nat)
      returns (ok: bool, ino: nat)
      requires Valid() && Settled(vol, parent) && Find(vol, parent, leaf) == 0 && |leaf| < 256
               && |bytes| <= MAX_FILE_SIZE
      requires uid < 0x1_0000 && gid < 0x1_0000
      modifies this`disk, this`vol
      ensures Valid() && (!ok ==> Undone(old(vol), vol))
      ensures DirOk(old(vol), parent) ==>
                && Frame(old(vol), vol, 0)
                && ok == (old(vol).freeInodes > 0 && Need(|bytes|) <= old(vol).freeBlocks && |leaf| > 0
                          && RoomFor(List(old(vol), parent), |leaf|))
      ensures DirOk(old(vol), parent) && ok ==>
                && ValidIno(ino) && !old(vol).inodeUsed[ino - 1] && Stored(old(vol), vol, ino, bytes)
                && Bound(old(vol), vol, parent, leaf, ino)
                && SameButPointers(At(vol, ino), FileInode(bytes, mode, uid, gid), |bytes|)
                && OnDisk(disk, ino, 0x8000 + mode % 512, uid, gid, 1, |bytes|, 8 * Need(|bytes|))
                && NamedOnDisk(disk, parent, leaf, ino, 1)
    {
      hide Inv, Represents, Grown, Mapped, Chunk, Raw, Frame, SameFinds, Stored, FreeAll, Inode.Fits, Inode.IsDir,
           Blocks, AllocInode, Undone, Find, DirOk, Unref, ZeroInode, WithDir, FileInode, Written;
      ghost var v0 := vol;
      AllocInodeKeeps(v0);
      AllocFull(v0);
      ino := AllocateInode();
      if ino == 0 {
        FrameSelf(v0, 0);
        NothingDone(v0);
        return false, 0;
      }
      ghost var v1 := vol;
      var n := FileInode(bytes, mode, uid, gid);
      FileInodeFits(bytes, mode, uid, gid);
      var okw, n', fb := WriteNewBlocks(n, bytes);
      ghost var v2 := vol;
      if !okw {
        UndoUnwritten(v0, v1, v2, ino);
        ReleaseInode(ino);
        return false, 0;
      }
      WrittenShape(v1, v2, n, n', fb, bytes);
      ok := EnterFile(parent, leaf, ino, n', v0, n, fb, bytes);
      if ok && DirOk(v0, parent) { NewOnDisk(disk, vol, ino, bytes, mode, uid, gid); }
    }

    /**
     ext2_store. Every call keeps the invariant, whatever the path; a path that leads through no file has the outcome
     that StoreOutcome tells.
     */
    method Store(path: seq<byte>, bytes: seq<byte>, mode: nat, uid: nat, gid: nat) returns (ok: bool)
      requires mounted ==> Valid() && ShortLeaf(Names(path))
      requires uid < 0x1_0000 && gid < 0x1_0000
      modifies this`disk, this`vol
      ensures mounted && |bytes| <= MAX_FILE_SIZE ==> Valid()
      ensures mounted && |bytes| <= MAX_FILE_SIZE && Walkable(old(vol), RootSpot(), Names(path)) ==>
                StoreOutcome(old(vol), vol, Names(path), bytes, FileInode(bytes, mode, uid, gid), ok)
      ensures mounted && ok && Walkable(old(vol), RootSpot(), Names(path)) ==>
                FileOnDisk(old(vol), old(disk), vol, disk, Names(path), bytes, mode, uid, gid)
      ensures !mounted || |bytes| > MAX_FILE_SIZE ==> !ok && disk == old(disk) && vol == old(vol)
    {
      hide Inv, Represents, Frame, Stored, Undone, Find, DirOk, Resolve, Parent, Walkable, Goal, Names, SameFinds,
           Inode.IsDir, FileInode, OnlyDirsAdded, Tracks, Bound, Created, Walked, StoreOutcome, SameButPointers,
           RoomFor, FileOnDisk, Present, NamedOnDisk;
      if !mounted || |bytes| > MAX_FILE_SIZE { return false; }
      ghost var v0, names, made := vol, Names(path), FileInode(bytes, mode, uid, gid);
      ghost var plain := names != [] && Walkable(vol, RootSpot(), names);
      var okw, parent, leaf, found := Walk(path, true);
      ghost var v1 := vol;
      if names == [] { RootIsNoFile(v0, bytes, made); }
      if !okw {
        if plain { StoreBlocked(v0, v1, names, parent, bytes, made); }
        return false;
      }
      if found != 0 {
        var okg, was := InodeGet(found);
        if was.IsDir() {
          if plain { StoreOnDir(v0, v1, names, parent, found, bytes, made); }
          return false;
        }
        ok := StoreExisting(found, was, bytes);
        if plain {
          StoreReplaced(v0, v1, vol, names, parent, found, bytes, made, ok);
          if ok { StoreOnDisk(v0, old(disk), vol, disk, names, bytes, mode, uid, gid, 0); }
        }
      } else {
        ghost var ino;
        ok, ino := StoreNew(parent, leaf, bytes, mode, uid, gid);
        if plain {
          StoreEntered(v0, v1, vol, names, parent, ino, bytes, made, ok);
          if ok { StoreOnDisk(v0, old(disk), vol, disk, names, bytes, mode, uid, gid, parent); }
        }
      }
    }

    /** The copying loop of ext2_load: as much of the block as the file still has. */
    method CopyBlock(b: seq<byte>, have: seq<byte>, size: nat) returns (data: seq<byte>)
      requires |b| == BS && |have| <= size
      ensures data == have + b[..Least(BS, size - |have|)]
    {
      data := have;
      var j := 0;
      while j < BS && |data| < size
        invariant j <= BS && |data| <= size && data == have + b[..j]
      {
        assert b[..j + 1] == b[..j] + [b[j]];
        data := data + [b[j]];
        j := j + 1;
      }
    }

    /** The block loop of ext2_load. */
    method ReadFile(n: Inode) returns (ok: bool, data: seq<byte>)
      requires Rep() && |n.block| == 15 && OwnsWell(vol, n)
      ensures ok == Readable(vol, n) && (ok ==> data == Content(vol, n))
    {
      hide Represents, FileBlock, OwnsWell, Inode.Fits;
      data := [];
      var i := 0;
      while |data| < n.size
        invariant ReadSoFar(vol, n, i, data)
        decreases n.size - |data|
      {
        OwnsWellParts(vol, n);
        var blk := FileBlockOf(n, i);
        if blk == 0 {
          Unreadable(vol, n, i, data);
          return false, [];
        }
        BlockInRange(vol, n, i);
        var okr, b := BlockRead(blk);
        DataOnDisk(disk, vol, blk);
        var have := data;
        data := CopyBlock(b, have, n.size);
        ReadMore(vol, n, i, have, data);
        i := i + 1;
      }
      ReadAll(vol, n, i, data);
      ok := true;
    }

    /** ext2_load. */
    method Load(path: seq<byte>, cap: nat) returns (ok: bool, data: seq<byte>)
      requires mounted ==> Valid()
      modifies this`disk, this`vol
      ensures disk == old(disk) && vol == old(vol)
      ensures ok <==> mounted && LoadsFrom(vol, Resolve(vol, ROOT_INO, Names(path)), cap)
      ensures ok ==> data == Content(vol, At(vol, Resolve(vol, ROOT_INO, Names(path))))
    {
      hide Inv, Represents, Frame, Find, DirOk, Resolve, Parent, Names, Inode.IsDir, Readable, Content, OwnsWell;
      if !mounted { return false, []; }
      ghost var names := Names(path);
      var okw, parent, leaf, found := Walk(path, false);
      if !okw || found == 0 {
        NotFound(vol, names);
        return false, [];
      }
      if names == [] { RootIs(vol); UsedDir(vol, ROOT_INO); }
      var okg, n := InodeGet(found);
      NoNamesRoot(vol, names);
      if n.IsDir() || n.size > cap || n.size > MAX_FILE_SIZE { return false, []; }
      OwnsOf(vol, found - 1);
      ok, data := ReadFile(n);
    }

    /** ext2_stat: what the inode of the path's file or directory says on the disk. */
    method Stat(path: seq<byte>) returns (ok: bool, size: nat, mode: nat, uid: nat, gid: nat)
      requires mounted ==> Valid()
      modifies this`disk, this`vol
      ensures disk == old(disk) && vol == old(vol)
      ensures ok <==> mounted && ValidIno(Resolve(vol, ROOT_INO, Names(path)))
      ensures ok ==> StatOf(disk, Resolve(vol, ROOT_INO, Names(path)), size, mode, uid, gid)
    {
      hide Inv, Represents, Find, DirOk, Resolve, Parent, Names, U16, U32;
      size, mode, uid, gid := 0, 0, 0, 0;
      if !mounted { return false, 0, 0, 0, 0; }
      ghost var names := Names(path);
      var okw, parent, leaf, found := Walk(path, false);
      if !okw || found == 0 {
        NotFound(vol, names);
        return false, 0, 0, 0, 0;
      }
      NoNamesRoot(vol, names);
      var okg, n := InodeGet(found);
      if !okg { return false, 0, 0, 0, 0; }
      InodeOnDisk(disk, vol, found);
      return true, n.size, n.mode % 512, n.uid, n.gid;
    }

    /** The scan of ext2_remove: the first record of inode `t` is absorbed by the one before it. */
    method DropRecord(b: seq<byte>, t: nat) returns (found: bool, r: seq<byte>)
      requires |b| == BS && Tiled(b, 0)
      ensures r == if U32(b, 0) == t then W32(b, 0, 0) else Dropped(b, t)
      ensures found == (U32(b, 0) == t || Before(b, 0, t) < BS)
    {
      hide Rec, Len, Ideal, U32, W32, W16, Entries;
      var pos: nat, prev: nat := 0, 0;
      while pos < BS
        invariant pos <= BS && Tiled(b, pos)
        invariant pos == 0 || (U32(b, 0) != t && Tiled(b, prev) && prev + 8 <= BS && pos == prev + Rec(b, prev)
                  && Before(b, 0, t) == Before(b, prev, t))
        decreases BS - pos
      {
        EntryHere(b, pos);
        var rec := Rec(b, pos);
        if U32(b, pos) == t {
          if pos == 0 { return true, W32(b, 0, 0); }
          EntryHere(b, prev);
          return true, W16(b, prev + 4, Rec(b, prev) + rec);
        }
        prev, pos := pos, pos + rec;
      }
      return false, b;
    }

    /** The second half of ext2_remove: drop the record, release the blocks, zero the inode and give it back. */
    method Unlink(parent: nat, ghost name: seq<byte>, ino: nat, n: Inode)
      requires Valid() && DirOk(vol, parent) && Find(vol, parent, name) == ino && ino != 0 && ValidIno(ino)
               && Unreserved(ino)
      requires vol.inodeUsed[ino - 1] && n == At(vol, ino) && !n.IsDir() && DotsElsewhere(vol, parent, ino)
      modifies this`disk, this`vol
      ensures Valid() && Unlinked(old(vol), vol, parent, name, ino)
    {
      hide Inv, Represents, Find, DirOk, Inode.IsDir, Tiled, Dropped, W32, U32, Before, Raw, FreeAll, FreeInode,
           ZeroInode, Unlinked, DotsElsewhere;
      ghost var v0 := vol;
      UsedDir(v0, parent);
      var okp, di := InodeGet(parent);
      DirBlockAt(vol, parent);
      var okr, b := BlockRead(di.block[0]);
      DataOnDisk(disk, vol, di.block[0]);
      var found, r := DropRecord(b, ino);
      UnlinkSteps(v0, parent, name, ino);
      if found { var okw := WriteBlock(di.block[0], r); }
      ghost var v1 := vol;
      ReleaseBlocks(n);
      FreeAllKeepsData(v1, Raw(v1.data, n));
      ZeroFits();
      InodePut(ino, ZeroInode());
      ReleaseInode(ino);
    }

    /** ext2_remove. */
    method Remove(path: seq<byte>) returns (ok: bool)
      requires Valid() && ShortLeaf(Names(path))
      modifies this`disk, this`vol
      ensures Valid()
      ensures ok <==> var q := Resolve(old(vol), ROOT_INO, Names(path));
              q != 0 && ValidIno(q) && !At(old(vol), q).IsDir()
      ensures !ok ==> vol == old(vol)
      ensures ok ==> var names := Names(path);
                     && names != []
                     && Unlinked(old(vol), vol, Parent(old(vol), ROOT_INO, names), names[|names| - 1],
                        Resolve(old(vol), ROOT_INO, names))
    {
      hide Inv, Represents, Frame, Find, DirOk, Resolve, Parent, Names, Inode.IsDir, Unlinked, ShortLeaf;
      ghost var v0, names := vol, Names(path);
      var okw, parent, leaf, ino := Walk(path, false);
      if !okw || ino == 0 {
        NotFound(vol, names);
        return false;
      }
      if names == [] { RootIs(vol); UsedDir(vol, ROOT_INO); }
      var okg, n := InodeGet(ino);
      NoNamesRoot(vol, names);
      if n.IsDir() { return false; }
      FileBound(v0, names);
      BoundIn(v0, parent, leaf, ino);
      Unlink(parent, leaf, ino, n);
      ok := true;
    }

    /** The superblock test of ext2_probe. */
    method Probe() returns (ok: bool)
      requires Rep()
      ensures Shape(disk) && ok == ProbeOk(disk[0])
    {
      hide Represents, U16, U32;
      ShapeKept(disk, vol);
      var okr, b := BlockRead(0);
      ok := U16(b, 1080) == MAGIC && U32(b, 1048) == 2 && U16(b, 1112) == INODE_SIZE;
    }

    /** ext2_check: refuses a volume without its superblock; else block and inode use counted from the bitmaps. */
    method Check() returns (ok: bool, files: nat, inUse: nat)
      requires Valid()
      ensures Shape(disk) && ok == ProbeOk(disk[0])
      ensures ok ==> inUse + vol.freeBlocks == blocks && inUse + vol.groupBlocks == blocks
      ensures ok ==> files + vol.freeInodes == INODES - 10 && files + vol.groupInodes == INODES - 10
    {
      hide AllOwnWell, Apart, DirsOk, RefsOk, RefsUnique, FreeZero, Represents, Clear, Bit, Shaped, ProbeOk;
      Bitmaps(disk, vol);
      files, inUse := 0, 0;
      ok := Probe();
      if !ok { return; }
      inUse := CountSet(disk[BLOCK_BITMAP], 0, blocks, vol.used);
      files := CountSet(disk[INODE_BITMAP], 10, INODES, vol.inodeUsed);
    }

    /** The counting loop: all bits outside `[first, limit)` being set, the rest are the clear ones. */
    method CountSet(b: seq<byte>, first: nat, limit: nat, ghost bits: seq<bool>) returns (count: nat)
      requires |b| == BS && BitsAre(b, bits) && |bits| == MAX_BLOCKS && first <= limit <= MAX_BLOCKS
      requires forall i :: 0 <= i < first || limit <= i < MAX_BLOCKS ==> bits[i]
      ensures count + Clear(bits) == limit - first
    {
      hide Bit, Clear;
      count := 0;
      AllSet(bits[..first]);
      var i := first;
      while i < limit
        invariant first <= i <= limit && count + Clear(bits[..i]) == i - first
      {
        assert Bit(b, i) == bits[i];
        ClearStep(bits, i);
        if Bit(b, i) { count := count + 1; }
        i := i + 1;
      }
      AllSet(bits[limit..]);
      ClearSplit(bits, limit);
    }

    /** Sets the bits `[lo, hi)` of a bitmap block. */
    method MarkRange(b: seq<byte>, lo: nat, hi: nat, ghost bits: seq<bool>) returns (r: seq<byte>)
      requires |b| == BS && BitsAre(b, bits) && |bits| == MAX_BLOCKS && lo <= hi <= MAX_BLOCKS
      ensures |r| == BS && BitsAre(r, SetRange(bits, lo, hi))
    {
      hide BitsAre, Mark;
      r := b;
      EmptyRange(bits, lo);
      for i := lo to hi
        invariant |r| == BS && BitsAre(r, SetRange(bits, lo, i))
      {
        MarkBits(r, SetRange(bits, lo, i), i);
        SetRangeStep(bits, lo, i);
        r := Mark(r, i);
      }
    }

    /** ext2_format on a partition of `sectors` sectors: at once a valid volume, whatever the disk held. */
    method Format(sectors: nat) returns (ok: bool)
      requires Shape(disk)
      modifies this
      ensures ok == (FIRST_DATA + 1 < sectors / 8 <= MAX_BLOCKS)
      ensures ok ==> Valid() && mounted && blocks == sectors / 8 && disk[0] == SuperBlock(blocks) && ProbeOk(disk[0])
      ensures ok ==> vol == Formatted(blocks, vol.data) && forall n ::
                FIRST_DATA < n < MAX_BLOCKS ==> vol.data[n] == old(disk)[n]
      ensures ok ==> FormatOnDisk(disk, blocks)
      ensures !ok ==> disk == old(disk) && mounted == old(mounted)
    {
      hide BitsAre, FormatOnDisk, SuperFields, ProbeOk, U16, U32, SuperBlock, GroupBlock, BlockBits, InodeBits, Blank,
           Inv, Represents, DirInode, NewDir, SetRange, ZeroInode;
      blocks := sectors / 8;
      if blocks <= FIRST_DATA + 1 || blocks > MAX_BLOCKS { return false; }
      disk := disk[0 := SuperBlock(blocks)][1 := GroupBlock(blocks)];
      NoBitsHeld();
      var b := MarkRange(Zeros(BS), 0, FIRST_DATA + 1, NoBits());
      b := MarkRange(b, blocks, MAX_BLOCKS, SetRange(NoBits(), 0, FIRST_DATA + 1));
      BitmapsAre(blocks);
      disk := disk[BLOCK_BITMAP := b];
      b := MarkRange(Zeros(BS), 0, 10, NoBits());
      b := MarkRange(b, INODES, MAX_BLOCKS, SetRange(NoBits(), 0, 10));
      disk := disk[INODE_BITMAP := b];
      ZeroInodeTable();
      ghost var data := disk;
      vol := Blank(blocks, disk);
      BlankHeld(disk, blocks);
      BlankParts(blocks, disk);
      DirInodeFits(FIRST_DATA);
      InodePut(ROOT_INO, DirInode(FIRST_DATA));
      mounted := WriteBlock(FIRST_DATA, NewDir(ROOT_INO, ROOT_INO));
      FormattedBy(blocks, vol, data);
      SuperReads(blocks);
      FormattedOnDisk(disk, vol);
      ok := mounted;
    }

    method ZeroInodeTable()
      requires Shape(disk)
      modifies this`disk
      ensures Shape(disk) && forall k :: INODE_TABLE <= k < FIRST_DATA ==> disk[k] == Zeros(BS)
      ensures forall k :: 0 <= k < INODE_TABLE || FIRST_DATA <= k < MAX_BLOCKS ==> disk[k] == old(disk)[k]
    {
      for i := 0 to INODE_TABLE_BLOCKS
        invariant Shape(disk) && forall k :: INODE_TABLE <= k < INODE_TABLE + i ==> disk[k] == Zeros(BS)
        invariant forall k :: 0 <= k < INODE_TABLE || FIRST_DATA <= k < MAX_BLOCKS ==> disk[k] == old(disk)[k]
      {
        disk := disk[INODE_TABLE + i := Zeros(BS)];
      }
    }
  }
}
