/**
 The volume-level argument for ext2_store and ext2_remove: replacing a file, entering a new one,
 undoing a failed attempt, and what each leaves untouched.
 */
module Ext2Store {
  import opened Bytes
  import opened Bits
  import opened Ext2Layout
  import opened Ext2Dir
  import opened Ext2Volume
  import opened Ext2Files
  import opened Ext2Paths

  /** A freshly written file owns exactly its new blocks and shares none. */
  lemma WrittenOwns(v0: Vol, v: Vol, n: Inode, n': Inode, fb: seq<nat>, bytes: seq<byte>)
    requires |n'.block| == 15 && Written(v0, v, n, n', fb, bytes)
    ensures Shaped(v) && OwnsWell(v, n') && Owned(v.data, n') == Blocks(fb, n'.block[12])
    ensures forall i :: 0 <= i < INODES ==> Owned(v.data, n') !! Owned(v.data, v.inodes[i])
  {
    hide Raw, NoRepeat, Mapped, Chunk, Counted, Apart, DirsOk, RefsOk, RefsUnique, FreeZero, SameFinds, Blocks,
         Inode.Fits;
    var s := Blocks(fb, n'.block[12]);
    MappedOwned(v.data, n', fb, n'.block[12]);
    forall i | 0 <= i < INODES ensures Owned(v.data, n') !! Owned(v.data, v.inodes[i]) {
      OwnedWasUsed(v0, v, s, i);
    }
  }

  lemma OwnedWasUsed(v0: Vol, v: Vol, s: set<nat>, i: nat)
    requires Grown(v0, v, s) && i < INODES
    ensures forall x :: x in Owned(v.data, v.inodes[i]) ==> x < MAX_BLOCKS && v0.used[x] && x !in s
    ensures Owned(v.data, v.inodes[i]) == Owned(v0.data, v0.inodes[i])
  {
    hide Raw, NoRepeat, Counted, Apart, DirsOk, RefsOk, RefsUnique, FreeZero, SameFinds, Inode.Fits;
    assert OwnsWell(v0, v0.inodes[i]);
  }

  lemma WrittenFits(v0: Vol, v: Vol, n: Inode, n': Inode, fb: seq<nat>, bytes: seq<byte>)
    requires n.Fits() && n.blocks == 0 && |bytes| <= MAX_FILE_SIZE && |n'.block| == 15
             && Written(v0, v, n, n', fb, bytes)
    ensures n'.Fits() && n'.IsDir() == n.IsDir() && n'.size == n.size
  {
    hide Raw, NoRepeat, Chunk, Inv, SameFinds;
    var ib := n'.block[12];
    forall k | 0 <= k < 15 ensures n'.block[k] < 0x1_0000_0000 {
      if k < 12 && k < |fb| {
        assert fb[k] in fb && fb[k] in Blocks(fb, ib);
      } else if k == 12 && ib != 0 {
        assert ib in Blocks(fb, ib);
      }
    }
  }

  /** The volume after inode `ino` is given the freshly written file. */
  lemma PutWritten(v0: Vol, v: Vol, ino: nat, n: Inode, n': Inode, fb: seq<nat>, bytes: seq<byte>)
    requires ValidIno(ino) && |n'.block| == 15 && Written(v0, v, n, n', fb, bytes) && n'.Fits() && !n'.IsDir()
    requires v0.inodeUsed[ino - 1] && !At(v0, ino).IsDir() && n'.size == |bytes|
    ensures var v' := v.(inodes := v.inodes[ino - 1 := n']);
            && Inv(v') && SameFinds(v0, v') && Readable(v', n') && Content(v', n') == bytes
            && Owned(v'.data, n') == Blocks(fb, n'.block[12])
  {
    hide Raw, NoRepeat, Mapped, Chunk, Inv, Blocks, Inode.Fits, Inode.IsDir, Owned, Readable, Content, Apart, OwnsWell,
         Find, DirOk;
    var s := Blocks(fb, n'.block[12]);
    GrownShape(v0, v, s);
    WrittenOwns(v0, v, n, n', fb, bytes);
    InodeKeeps(v, ino, n');
    var v' := v.(inodes := v.inodes[ino - 1 := n']);
    WrittenInRange(v0, v, n, n', fb, bytes);
    MappedContent(v', n', fb, n'.block[12], bytes);
  }

  lemma WrittenInRange(v0: Vol, v: Vol, n: Inode, n': Inode, fb: seq<nat>, bytes: seq<byte>)
    requires |n'.block| == 15 && Written(v0, v, n, n', fb, bytes)
    ensures n'.block[12] < v.total && forall j :: 0 <= j < |fb| ==> fb[j] < v.total
  {
    hide Raw, NoRepeat, Chunk, Inv, SameFinds;
    var ib := n'.block[12];
    GrownShape(v0, v, Blocks(fb, ib));
    if ib != 0 { assert ib in Blocks(fb, ib); }
    forall j | 0 <= j < |fb| ensures fb[j] < v.total { assert fb[j] in fb && fb[j] in Blocks(fb, ib); }
  }

  /** The file's new contents, and which blocks and inodes are marked after it is stored. */
  ghost predicate Stored(v: Vol, v': Vol, ino: nat, bytes: seq<byte>) {
    && Shaped(v) && Shaped(v') && v'.total == v.total && ValidIno(ino)
    && !At(v', ino).IsDir() && At(v', ino).size == |bytes| && Readable(v', At(v', ino))
       && Content(v', At(v', ino)) == bytes
    && v'.inodeUsed == v.inodeUsed[ino - 1 := true]
    && (forall q :: 1 <= q <= INODES && q != ino ==> At(v', q) == At(v, q))
    && (forall x :: 0 <= x < MAX_BLOCKS ==>
          v'.used[x] == ((v.used[x] && x !in Owned(v.data, At(v, ino))) || x in Owned(v'.data, At(v', ino))))
  }

  /** Once the inode points to the new blocks, the old file's blocks belong to nobody. */
  lemma OldBlocksFree(v0: Vol, v: Vol, ino: nat, n: Inode, n': Inode, fb: seq<nat>, bytes: seq<byte>)
    requires ValidIno(ino) && |n'.block| == 15 && Written(v0, v, n, n', fb, bytes) && n'.Fits()
    requires !At(v0, ino).IsDir() && Inv(v.(inodes := v.inodes[ino - 1 := n']))
    ensures var v2 := v.(inodes := v.inodes[ino - 1 := n']);
            var was := At(v0, ino);
            var raw := Raw(v2.data, was);
            && raw == Raw(v0.data, was) && NoRepeat(raw)
            && (forall i :: 0 <= i < |raw| ==> raw[i] == 0 || (FIRST_DATA < raw[i] < v2.total && v2.used[raw[i]]))
            && (forall x :: x in Owned(v0.data, was) ==> Unowned(v2, x))
  {
    hide Raw, Mapped, Chunk, Counted, DirOk, RefsOk, RefsUnique, FreeZero, SameFinds, Blocks, Inode.Fits, Inode.IsDir,
         AllOwnWell, NoRepeat;
    var s, v2, was := Blocks(fb, n'.block[12]), v.(inodes := v.inodes[ino - 1 := n']), At(v0, ino);
    WrittenOwns(v0, v, n, n', fb, bytes);
    OwnedWasUsed(v0, v, s, ino - 1);
    OwnsOf(v0, ino - 1);
    RootBlock(v0, ino);
    forall i | 0 <= i < |Raw(v.data, was)| && Raw(v.data, was)[i] != 0
      ensures FIRST_DATA < Raw(v.data, was)[i] < v2.total && v2.used[Raw(v.data, was)[i]]
    {
      assert Raw(v.data, was)[i] in Owned(v0.data, was);
    }
    forall x | x in Owned(v0.data, was) ensures Unowned(v2, x) {
      forall i | 0 <= i < INODES ensures x !in Owned(v2.data, v2.inodes[i]) {
        if i != ino - 1 {
          OwnedWasUsed(v0, v, s, i);
          ApartPair(v0, i, ino - 1);
        }
      }
    }
  }

  lemma ApartPair(v: Vol, i: nat, j: nat)
    requires Shaped(v) && Apart(v) && i < INODES && j < INODES && i != j
    ensures Owned(v.data, v.inodes[i]) !! Owned(v.data, v.inodes[j])
  {
    hide Owned;
    if i < j { assert Owned(v.data, v.inodes[i]) !! Owned(v.data, v.inodes[j]); } else
      { assert Owned(v.data, v.inodes[j]) !! Owned(v.data, v.inodes[i]); }
  }

  lemma OwnsOf(v: Vol, i: nat)
    requires Inv(v) && i < INODES
    ensures OwnsWell(v, v.inodes[i]) && NoRepeat(Raw(v.data, v.inodes[i]))
    ensures forall x :: x in Owned(v.data, v.inodes[i]) ==> FIRST_DATA <= x < v.total && v.used[x]
  {
    hide Raw, NoRepeat, Counted, Apart, DirsOk, RefsOk, RefsUnique, FreeZero, Owned;
    assert OwnsWell(v, v.inodes[i]);
  }

  /** The root directory's block belongs to no file. */
  lemma RootBlock(v: Vol, ino: nat)
    requires Inv(v) && ValidIno(ino) && !At(v, ino).IsDir()
    ensures FIRST_DATA !in Owned(v.data, At(v, ino))
  {
    hide Raw, NoRepeat, Counted, AllOwnWell, RefsOk, RefsUnique, FreeZero, Owned, DirOk, Inode.IsDir;
    ApartPair(v, ROOT_INO - 1, ino - 1);
    IndirectOwned(v.data, At(v, ROOT_INO));
  }

  lemma ContentSame(v: Vol, v': Vol, n: Inode)
    requires Shaped(v) && Shaped(v') && |n.block| == 15 && v'.data == v.data && v'.total == v.total
    ensures Readable(v', n) == Readable(v, n) && (Readable(v, n) ==> Content(v', n) == Content(v, n))
  {
    forall i: nat ensures FileBlock(v', n, i) == FileBlock(v, n, i) { }
    if Readable(v, n) {
      forall p: nat | p < n.size ensures ByteAt(v', n, p) == ByteAt(v, n, p) { }
    }
  }

  /** Replacing the file in inode `ino`: write the new blocks, switch the inode, release the old blocks. */
  lemma ReplaceFile(v0: Vol, v: Vol, ino: nat, n: Inode, n': Inode, fb: seq<nat>, bytes: seq<byte>)
    requires ValidIno(ino) && |n'.block| == 15 && Written(v0, v, n, n', fb, bytes) && n'.Fits() && !n'.IsDir()
    requires v0.inodeUsed[ino - 1] && !At(v0, ino).IsDir() && n'.size == |bytes|
    ensures var v2 := v.(inodes := v.inodes[ino - 1 := n']);
            var raw := Raw(v2.data, At(v0, ino));
            && Inv(v2) && (forall i :: 0 <= i < |raw| ==> raw[i] < MAX_BLOCKS)
            && var v3 := FreeAll(v2, raw);
            Inv(v3) && SameFinds(v0, v3) && Stored(v0, v3, ino, bytes) && Frame(v0, v3, ino)
  {
    hide Raw, NoRepeat, Mapped, Chunk, Inv, Blocks, Inode.Fits, Inode.IsDir, Owned, Readable, Content, FreeAll, Unowned,
         SameFinds, Frame, Grown, Nonzero;
    GrownShape(v0, v, Blocks(fb, n'.block[12]));
    InvCounted(v0);
    var v2, was := v.(inodes := v.inodes[ino - 1 := n']), At(v0, ino);
    var raw := Raw(v2.data, was);
    PutWritten(v0, v, ino, n, n', fb, bytes);
    OldBlocksFree(v0, v, ino, n, n', fb, bytes);
    InvCounted(v2);
    FreeAllCounted(v2, raw);
    var v3 := FreeAll(v2, raw);
    NonzeroOwned(v2.data, was);
    NonzeroOwned(v0.data, was);
    BitsKeep(v2, v3);
    FindsChain(v0, v2, v3);
    ContentSame(v2, v3, n');
    GrownFrame(v0, v, Blocks(fb, n'.block[12]));
    assert Stored(v0, v3, ino, bytes) by { StoredNow(v0, v, v3, ino, n, n', fb, bytes); }
    FrameReplaced(v0, v3, ino);
  }

  lemma InvCounted(v: Vol)
    requires Inv(v)
    ensures Counted(v) && Shaped(v)
  {
  }

  lemma NonzeroOwned(data: seq<seq<byte>>, n: Inode)
    ensures Nonzero(Raw(data, n)) == Owned(data, n)
  {
    hide Raw;
  }

  lemma FindsChain(v: Vol, v1: Vol, v2: Vol)
    requires Shaped(v) && Shaped(v1) && Shaped(v2) && SameFinds(v, v1) && SameFinds(v1, v2)
    ensures SameFinds(v, v2)
  {
    hide Find, DirOk;
  }

  /** What growing a volume says about single blocks. */
  lemma GrownFrame(v0: Vol, v: Vol, s: set<nat>)
    requires Grown(v0, v, s)
    ensures forall x :: 0 <= x < MAX_BLOCKS ==> v.used[x] == (v0.used[x] || x in s)
    ensures forall x :: 0 <= x < MAX_BLOCKS && v0.used[x] ==> v.data[x] == v0.data[x] && x !in s
  {
    hide Counted, AllOwnWell, Apart, DirsOk, RefsOk, RefsUnique, FreeZero, SameFinds, Raw;
  }

  lemma StoredNow(v0: Vol, v: Vol, v3: Vol, ino: nat, n: Inode, n': Inode, fb: seq<nat>, bytes: seq<byte>)
    requires Shaped(v0) && Shaped(v3) && ValidIno(ino) && |n'.block| == 15 && Written(v0, v, n, n', fb, bytes)
    requires v0.inodeUsed[ino - 1] && !n'.IsDir() && n'.size == |bytes|
    requires v3.total == v.total && v3.inodeUsed == v.inodeUsed && v3.data == v.data
             && v3.inodes == v.inodes[ino - 1 := n']
    requires Readable(v3, n') && Content(v3, n') == bytes && Owned(v.data, n') == Blocks(fb, n'.block[12])
    requires forall x :: 0 <= x < MAX_BLOCKS ==> v3.used[x] == (v.used[x] && x !in Owned(v0.data, At(v0, ino)))
    ensures Inv(v0) ==> Stored(v0, v3, ino, bytes)
  {
    hide Raw, NoRepeat, Mapped, Chunk, Inv, Blocks, Inode.Fits, Inode.IsDir, Owned, Readable, Content, SameFinds;
    var s := Blocks(fb, n'.block[12]);
    GrownShape(v0, v, s);
    GrownFrame(v0, v, s);
    OwnsOf(v0, ino - 1);
  }

  lemma FrameReplaced(v: Vol, v': Vol, ino: nat)
    requires Inv(v) && Shaped(v') && v'.total == v.total && SameFinds(v, v') && v'.inodeUsed == v.inodeUsed
    requires forall q :: 1 <= q <= INODES && q != ino ==> At(v', q) == At(v, q)
    requires forall x :: 0 <= x < MAX_BLOCKS && v.used[x] ==> v'.data[x] == v.data[x]
    ensures Frame(v, v', ino)
  {
    hide Find, DirOk, Counted, Apart, DirsOk, RefsOk, RefsUnique, FreeZero, Raw, NoRepeat, Owned, Inode.IsDir;
    forall q | 1 <= q <= INODES && q != ino && v.inodeUsed[q - 1] ensures FrameInode(v, v', q) { OwnsOf(v, q - 1); }
  }

  // ------------------------------------------------------------- a new file

  /** Before dir_add: the new file is written and its inode filled, but no name is bound to it. */
  lemma FilledInode(v0: Vol, v2: Vol, n: Inode, n': Inode, fb: seq<nat>, bytes: seq<byte>)
    requires Inv(v0)
    requires var (v1, ino) := AllocInode(v0); ino != 0 && |n'.block| == 15 && Written(v1, v2, n, n', fb, bytes)
    requires n'.Fits() && !n'.IsDir() && n'.size == |bytes|
    ensures var (v1, ino) := AllocInode(v0);
            && ValidIno(ino) && |v2.inodes| == INODES
            && var v3 := v2.(inodes := v2.inodes[ino - 1 := n']);
            && Inv(v3) && SameFinds(v0, v3) && Settled(v3, ino) && Unref(v3, ino) && !v0.inodeUsed[ino - 1]
            && Readable(v3, n') && Content(v3, n') == bytes && Owned(v3.data, n') == Blocks(fb, n'.block[12])
  {
    hide Raw, NoRepeat, Mapped, Chunk, Inv, Blocks, Inode.Fits, Inode.IsDir, Owned, Readable, Content, AllocInode,
         Grown, Find, DirOk, Unref, ZeroInode;
    InvCounted(v0);
    AllocInodeKeeps(v0);
    var (v1, ino) := AllocInode(v0);
    InvCounted(v1);
    GrownShape(v1, v2, Blocks(fb, n'.block[12]));
    PutWritten(v1, v2, ino, n, n', fb, bytes);
    var v3 := v2.(inodes := v2.inodes[ino - 1 := n']);
    FindsChain(v0, v1, v3);
    UnrefSame(v1, v3, ino);
  }

  /** After dir_add: the new file is stored under its name and nothing else changed. */
  lemma EnteredFile(v0: Vol, v2: Vol, parent: nat, name: seq<byte>, n: Inode, n': Inode, fb: seq<nat>, bytes: seq<byte>)
    requires Inv(v0) && DirOk(v0, parent) && Find(v0, parent, name) == 0 && |name| < 256
    requires var (v1, ino) := AllocInode(v0); ino != 0 && |n'.block| == 15 && Written(v1, v2, n, n', fb, bytes)
    requires n'.Fits() && !n'.IsDir() && n'.size == |bytes|
    requires var (v1, ino) := AllocInode(v0);
             && ValidIno(ino) && |v2.inodes| == INODES
             && var v3 := v2.(inodes := v2.inodes[ino - 1 := n']);
             Inv(v3) && DirOk(v3, parent) && RoomFor(List(v3, parent), |name|)
    ensures var (v1, ino) := AllocInode(v0);
            var v3 := v2.(inodes := v2.inodes[ino - 1 := n']);
            var v4 := WithDir(v3, parent, Added(Block(v3, parent), ino, 1, name));
            && Inv(v4) && Stored(v0, v4, ino, bytes) && Frame(v0, v4, 0)
            && forall d, nm :: Find(v4, d, nm) == if d == parent && nm == name then ino else Find(v0, d, nm)
  {
    hide Raw, NoRepeat, Mapped, Chunk, Inv, Blocks, Inode.Fits, Inode.IsDir, Owned, Readable, Content, AllocInode,
         Grown, Find, Good, Unref, Added, RoomFor, Kept, Tiled, Entries, Frame;
    InvCounted(v0);
    UsedDir(v0, parent);
    AllocInodeKeeps(v0);
    var (v1, ino) := AllocInode(v0);
    GrownShape(v1, v2, Blocks(fb, n'.block[12]));
    var v3 := v2.(inodes := v2.inodes[ino - 1 := n']);
    FilledInode(v0, v2, n, n', fb, bytes);
    InvCounted(v3);
    DirAddKeeps(v3, parent, name, ino, 1);
    var v4 := WithDir(v3, parent, Added(Block(v3, parent), ino, 1, name));
    InvCounted(v4);
    KeptElsewhere(v3, parent, Added(Block(v3, parent), ino, 1, name), ino);
    KeptReads(v3, v4, ino);
    KeptOwned(v3, v4, ino);
    ParentKept(v0, v3, parent);
    GrownFrame(v1, v2, Blocks(fb, n'.block[12]));
    NewStored(v0, v2, v4, ino, n', fb, bytes);
    FrameMakeDir(v0, v4, ino, parent);
  }

  /** Writing a directory's block leaves every other inode's file alone. */
  lemma KeptElsewhere(v: Vol, d: nat, b: seq<byte>, q: nat)
    requires Inv(v) && DirOk(v, d) && ValidIno(q) && q != d && |b| == BS && Shaped(WithDir(v, d, b))
    ensures Kept(v, WithDir(v, d, b), q)
  {
    hide Owned, Tiled, Good, Counted, AllOwnWell, Apart, DirsOk, RefsOk, RefsUnique, FreeZero;
    DirBlockOwned(v, d);
    assert At(v, d).block[0] !in Owned(v.data, v.inodes[q - 1]);
  }

  lemma ParentKept(v: Vol, v3: Vol, parent: nat)
    requires Shaped(v) && Shaped(v3) && DirOk(v, parent) && At(v3, parent) == At(v, parent)
    ensures ValidIno(parent) && At(v3, parent).block[0] == At(v, parent).block[0] && At(v3, parent).IsDir()
  {
  }

  lemma ZeroOwnsNothing(data: seq<seq<byte>>)
    ensures Owned(data, ZeroInode()) == {}
  {
  }

  lemma NewStored(v0: Vol, v2: Vol, v4: Vol, ino: nat, n': Inode, fb: seq<nat>, bytes: seq<byte>)
    requires Shaped(v0) && Shaped(v4) && ValidIno(ino) && v4.total == v0.total && At(v0, ino) == ZeroInode()
             && |n'.block| == 15
    requires v4.inodes == v0.inodes[ino - 1 := n'] && v4.inodeUsed == v0.inodeUsed[ino - 1 := true]
             && v4.used == v2.used
    requires !n'.IsDir() && n'.size == |bytes| && Readable(v4, n') && Content(v4, n') == bytes
    requires Owned(v4.data, n') == Blocks(fb, n'.block[12])
    requires |v2.used| == MAX_BLOCKS && forall x ::
               0 <= x < MAX_BLOCKS ==> v2.used[x] == (v0.used[x] || x in Blocks(fb, n'.block[12]))
    ensures Stored(v0, v4, ino, bytes)
  {
    hide Raw, Blocks, Inode.Fits, Inode.IsDir, Owned, Readable, Content, ZeroInode;
    ZeroOwnsNothing(v0.data);
  }

  // --------------------------------------------------------------- undoing

  /** Giving back the inode of a failed attempt restores bitmaps, counts and inode table. */
  lemma UndoNew(v0: Vol, v: Vol)
    requires Inv(v0) && AllocInode(v0).1 != 0 && Counted(v) && Shaped(v)
    requires v == v0.(inodeUsed := AllocInode(v0).0.inodeUsed, freeBlocks := v.freeBlocks, groupBlocks := v.groupBlocks,
                      freeInodes := v.freeInodes, groupInodes := v.groupInodes, data := v.data)
    requires forall x :: 0 <= x < MAX_BLOCKS && v0.used[x] ==> v.data[x] == v0.data[x]
    ensures var ino := AllocInode(v0).1;
            && 1 <= ino <= |v.inodeUsed|
            && var v' := FreeInode(v, ino);
            v' == v0.(data := v.data) && Inv(v') && Frame(v0, v', 0)
  {
    hide Inv, AllocInode, Counted, Clear, Unref, ZeroInode, SameFinds, Frame, Wrap16, Wrap32;
    AllocInodeKeeps(v0);
    InvCounted(v0);
    var ino := AllocInode(v0).1;
    FreeInodeCounted(v, ino);
    var v' := FreeInode(v, ino);
    assert v'.inodeUsed == v0.inodeUsed;
    CountsFollow(v0, v');
    FreeDataKeeps(v0, v');
    FrameSame(v0, v');
  }

  /** A written file's pointers, ready to be released again. */
  lemma WrittenPointers(v1: Vol, v2: Vol, v3: Vol, n: Inode, n': Inode, fb: seq<nat>, bytes: seq<byte>)
    requires |n'.block| == 15 && Written(v1, v2, n, n', fb, bytes) && v3 == v2.(inodes := v3.inodes)
    ensures Counted(v3) && (n'.block[12] == 0 || FIRST_DATA <= n'.block[12] < v3.total)
    ensures var raw := Raw(v3.data, n');
            && |v3.used| == MAX_BLOCKS && (forall i :: 0 <= i < |raw| ==> raw[i] < MAX_BLOCKS)
            && var v5 := FreeAll(v3, raw);
            && Counted(v5) && v5 == v3.(used := v5.used, freeBlocks := v5.freeBlocks, groupBlocks := v5.groupBlocks)
            && v5.used == v1.used
  {
    hide Raw, NoRepeat, Mapped, Chunk, Inv, Blocks, Owned, Grown, FreeAll, Nonzero, Clear;
    var s, raw := Blocks(fb, n'.block[12]), Raw(v3.data, n');
    GrownShape(v1, v2, s);
    GrownFrame(v1, v2, s);
    InvCounted(v2);
    InvCounted(v1);
    WrittenInRange(v1, v2, n, n', fb, bytes);
    WrittenOwns(v1, v2, n, n', fb, bytes);
    NonzeroOwned(v3.data, n');
    OwnsWellParts(v2, n');
    PointersIn(raw, s, v2.total);
    CountedSame(v2, v3);
    FreeAllCounted(v3, raw);
    NotInS(v1, v2, s);
    assert FreeAll(v3, raw).used == v1.used;
  }

  lemma NotInS(v1: Vol, v2: Vol, s: set<nat>)
    requires Grown(v1, v2, s)
    ensures forall x :: x in s ==> x < MAX_BLOCKS && !v1.used[x]
  {
    hide Counted, AllOwnWell, Apart, DirsOk, RefsOk, RefsUnique, FreeZero, SameFinds, Raw;
  }

  /** Undoing a new file whose name found no room: its blocks released, its inode zeroed and given back. */
  lemma UndoFilled(v0: Vol, v1: Vol, v2: Vol, v5: Vol, ino: nat, s: set<nat>)
    requires Inv(v0) && (v1, ino) == AllocInode(v0) && ino != 0 && Grown(v1, v2, s) && Counted(v5)
    requires v5 == v2.(used := v1.used, freeBlocks := v5.freeBlocks, groupBlocks := v5.groupBlocks, inodes := v5.inodes)
    requires ValidIno(ino) && |v5.inodes| == INODES && |v5.inodeUsed| == MAX_BLOCKS
             && v5.inodes == v2.inodes[ino - 1 := v5.inodes[ino - 1]]
    ensures var v6 := v5.(inodes := v5.inodes[ino - 1 := ZeroInode()]);
            var v7 := FreeInode(v6, ino);
            && v7 == v0.(data := v7.data) && Inv(v7) && Frame(v0, v7, 0)
            && |v0.used| == |v0.data| == |v7.data| == MAX_BLOCKS
            && forall x :: 0 <= x < MAX_BLOCKS && v0.used[x] ==> v7.data[x] == v0.data[x]
  {
    hide Inv, AllocInode, Grown, Unref, ZeroInode, Frame, SameFinds, Wrap16, Wrap32, Counted, FreeInode;
    InvCounted(v0);
    AllocInodeKeeps(v0);
    GrownShape(v1, v2, s);
    GrownFrame(v1, v2, s);
    var v6 := v5.(inodes := v5.inodes[ino - 1 := ZeroInode()]);
    assert v6.inodes == v0.inodes;
    CountedSame(v5, v6);
    UndoNew(v0, v6);
    FreeInodeData(v6, ino);
  }

  lemma FreeInodeData(v: Vol, ino: nat)
    requires 1 <= ino <= |v.inodeUsed|
    ensures FreeInode(v, ino).data == v.data
  {
  }

  lemma OwnsWellParts(v: Vol, n: Inode)
    requires Shaped(v) && OwnsWell(v, n) && |n.block| == 15
    ensures NoRepeat(Raw(v.data, n))
    ensures n.block[12] == 0 || FIRST_DATA <= n.block[12]
  {
    hide Raw, NoRepeat, Owned;
    IndirectOwned(v.data, n);
  }

  lemma PointersIn(raw: seq<nat>, s: set<nat>, total: nat)
    requires Nonzero(raw) == s && forall x :: x in s ==> FIRST_DATA < x < total <= MAX_BLOCKS
    ensures forall i :: 0 <= i < |raw| ==> raw[i] == 0 || (raw[i] in s && FIRST_DATA < raw[i] < total)
  {
    forall i | 0 <= i < |raw| ensures raw[i] == 0 || raw[i] in s { assert raw[i] in raw; }
  }

  // --------------------------------------------------------------- removal

  lemma {:induction false} FreeAllInodes(v: Vol, ps: seq<nat>, inodes: seq<Inode>)
    requires |v.used| == MAX_BLOCKS && forall i :: 0 <= i < |ps| ==> ps[i] < MAX_BLOCKS
    ensures FreeAll(v.(inodes := inodes), ps) == FreeAll(v, ps).(inodes := inodes)
    decreases ps
  {
    if ps != [] { FreeAllInodes(if ps[0] == 0 then v else FreeBlock(v, ps[0]), ps[1..], inodes); }
  }

  /** An unbound file's inode zeroed and its blocks and inode given back. */
  lemma Discard(v: Vol, t: nat)
    requires Inv(v) && 10 < t <= INODES && v.inodeUsed[t - 1] && !At(v, t).IsDir() && Unref(v, t)
    ensures var n := At(v, t);
            var raw := Raw(v.data, n);
            && (n.block[12] == 0 || FIRST_DATA <= n.block[12] < v.total) && |v.used| == MAX_BLOCKS
            && (forall i :: 0 <= i < |raw| ==> raw[i] < MAX_BLOCKS)
            && var u := FreeAll(v, raw).(inodes := v.inodes[t - 1 := ZeroInode()]);
            && t <= |u.inodeUsed|
            && var v' := FreeInode(u, t);
            && Inv(v') && SameFinds(v, v') && v'.data == v.data && v'.total == v.total
               && v'.inodes == v.inodes[t - 1 := ZeroInode()]
            && v'.inodeUsed == v.inodeUsed[t - 1 := false]
            && (forall x :: 0 <= x < MAX_BLOCKS ==> v'.used[x] == (v.used[x] && x !in Owned(v.data, n)))
  {
    hide Inv, Raw, FreeAll, Nonzero, Owned, NoRepeat, Unowned, ZeroInode, Unref, Clear, SameFinds, Wrap16, Wrap32,
         Inode.IsDir, Inode.Fits, Find, OwnsWell;
    InvCounted(v);
    var n, raw := At(v, t), Raw(v.data, At(v, t));
    OwnsOf(v, t - 1);
    OwnsWellParts(v, n);
    IndirectOwned(v.data, n);
    RootBlock(v, t);
    NonzeroOwned(v.data, n);
    OwnedPointers(v, n);
    ZeroDecodes();
    ZeroOwnsNothing(v.data);
    ZeroOwnsWell(v);
    InodeKeeps(v, t, ZeroInode());
    var u1 := v.(inodes := v.inodes[t - 1 := ZeroInode()]);
    InvCounted(u1);
    FreeAllCounted(u1, raw);
    var u2 := FreeAll(u1, raw);
    NobodyOwns(v, u1, t);
    BitsKeep(u1, u2);
    FreeAllInodes(v, raw, u1.inodes);
    InvCounted(u2);
    FindsChain(v, u1, u2);
    UnrefSame(v, u2, t);
    FreeInodeCounted(u2, t);
    InodeBitsKeep(u2, FreeInode(u2, t));
    FindsChain(v, u2, FreeInode(u2, t));
  }

  lemma OwnedPointers(v: Vol, n: Inode)
    requires Shaped(v) && FIRST_DATA !in Owned(v.data, n) && Nonzero(Raw(v.data, n)) == Owned(v.data, n)
    requires forall x :: x in Owned(v.data, n) ==> FIRST_DATA <= x < v.total && v.used[x]
    ensures forall i :: 0 <= i < |Raw(v.data, n)| ==>
              Raw(v.data, n)[i] == 0 || (FIRST_DATA < Raw(v.data, n)[i] < v.total && v.used[Raw(v.data, n)[i]])
  {
    hide Raw, Owned;
    var raw := Raw(v.data, n);
    forall i | 0 <= i < |raw| ensures raw[i] == 0 || raw[i] in Owned(v.data, n) { assert raw[i] in raw; }
  }

  lemma ZeroOwnsWell(v: Vol)
    requires Shaped(v)
    ensures OwnsWell(v, ZeroInode())
  {
    ZeroOwnsNothing(v.data);
  }

  lemma NobodyOwns(v: Vol, u: Vol, t: nat)
    requires Inv(v) && Shaped(u) && ValidIno(t) && u == v.(inodes := v.inodes[t - 1 := ZeroInode()])
    ensures forall x :: x in Owned(v.data, At(v, t)) ==> Unowned(u, x)
  {
    hide Raw, Owned, Counted, AllOwnWell, DirsOk, RefsOk, RefsUnique, FreeZero, ZeroInode;
    ZeroOwnsNothing(v.data);
    forall x | x in Owned(v.data, At(v, t)) ensures Unowned(u, x) {
      forall i | 0 <= i < INODES ensures x !in Owned(u.data, u.inodes[i]) {
        if i != t - 1 { ApartPair(v, i, t - 1); }
      }
    }
  }
}
