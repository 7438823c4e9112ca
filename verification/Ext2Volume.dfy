/**
 The volume invariant: who owns which block, what the counters count, what directories bind.
 Each elementary change of a volume is shown to keep it.
 */
module Ext2Volume {
  import opened Bytes
  import opened Bits
  import opened Ext2Layout
  import opened Ext2Dir

  // ---------------------------------------------------------------- ownership

  predicate ValidIno(ino: nat) { 1 <= ino <= INODES }

  ghost predicate Shaped(v: Vol) {
    && FIRST_DATA + 1 < v.total <= MAX_BLOCKS
    && |v.used| == MAX_BLOCKS && |v.inodeUsed| == MAX_BLOCKS && |v.inodes| == INODES && |v.data| == MAX_BLOCKS
    && (forall n :: 0 <= n < MAX_BLOCKS ==> |v.data[n]| == BS)
    && (forall i :: 0 <= i < INODES ==> v.inodes[i].Fits() && |v.inodes[i].block| == 15)
  }

  function At(v: Vol, ino: nat): Inode
    requires ValidIno(ino) && |v.inodes| == INODES
  {
    v.inodes[ino - 1]
  }

  /** An inode's block pointers in the order release_blocks visits them; unused ones are 0. */
  function Raw(data: seq<seq<byte>>, n: Inode): seq<nat> {
    if |n.block| != 15 then []
    else
      n.block[..12] +
      if n.block[12] == 0 then []
      else (if n.block[12] < |data| then Words(data[n.block[12]]) else []) + [n.block[12]]
  }

  /** The blocks an inode owns: data blocks and the indirect block. */
  ghost function Owned(data: seq<seq<byte>>, n: Inode): set<nat> {
    set x | x in Raw(data, n) && x != 0
  }

  /** No block is pointed to twice. */
  ghost predicate NoRepeat(raw: seq<nat>) {
    forall i, j :: 0 <= i < j < |raw| && raw[i] == raw[j] ==> raw[i] == 0
  }

  /** The inode points to each of its blocks once; they are in the data area and marked used. */
  ghost predicate OwnsWell(v: Vol, n: Inode)
    requires Shaped(v)
  {
    && NoRepeat(Raw(v.data, n))
    && forall x :: x in Owned(v.data, n) ==> FIRST_DATA <= x < v.total && v.used[x]
  }

  ghost predicate AllOwnWell(v: Vol)
    requires Shaped(v)
  {
    forall i :: 0 <= i < INODES ==> OwnsWell(v, v.inodes[i])
  }

  /** No block has two owners. */
  ghost predicate Apart(v: Vol)
    requires Shaped(v)
  {
    forall i, j :: 0 <= i < j < INODES ==> Owned(v.data, v.inodes[i]) !! Owned(v.data, v.inodes[j])
  }

  /** Nobody owns block `x`. */
  ghost predicate Unowned(v: Vol, x: nat)
    requires Shaped(v)
  {
    forall i :: 0 <= i < INODES ==> x !in Owned(v.data, v.inodes[i])
  }

  /** Superblock and group counts both equal the number of clear bits; reserved bits are set. */
  ghost predicate Counted(v: Vol) {
    && |v.used| == MAX_BLOCKS && |v.inodeUsed| == MAX_BLOCKS && v.total <= MAX_BLOCKS
    && v.freeBlocks == v.groupBlocks == Clear(v.used) && v.freeInodes == v.groupInodes == Clear(v.inodeUsed)
    && (forall i :: 0 <= i <= FIRST_DATA || v.total <= i < MAX_BLOCKS ==> v.used[i])
    && (forall i :: 0 <= i < 10 || INODES <= i < MAX_BLOCKS ==> v.inodeUsed[i])
  }

  // -------------------------------------------------------------- directories

  /** Inode `d` is a directory whose one block holds a well-formed entry list. */
  ghost predicate DirOk(v: Vol, d: nat)
    requires Shaped(v)
  {
    && ValidIno(d) && At(v, d).IsDir()
    && 0 < At(v, d).block[0] < v.total
    && Tiled(v.data[At(v, d).block[0]], 0) && Good(Entries(v.data[At(v, d).block[0]], 0))
  }

  ghost function List(v: Vol, d: nat): seq<Entry>
    requires Shaped(v) && DirOk(v, d)
  {
    Entries(v.data[At(v, d).block[0]], 0)
  }

  /** What dir_find reports: the inode bound to `name` in directory `d`, or 0. */
  ghost function Find(v: Vol, d: nat, name: seq<byte>): nat
    requires Shaped(v)
  {
    if DirOk(v, d) then Lookup(List(v, d), name) else 0
  }

  ghost predicate DirsOk(v: Vol)
    requires Shaped(v)
  {
    && DirOk(v, ROOT_INO) && At(v, ROOT_INO).IsDir() && At(v, ROOT_INO).block[0] == FIRST_DATA
    && forall d :: 1 <= d <= INODES && At(v, d).IsDir() ==> DirOk(v, d) && Unreserved(d)
  }

  /** Inodes 1 to 10 are reserved; of these only the root directory is ever named. */
  predicate Unreserved(t: nat) { t == ROOT_INO || t > 10 }

  predicate Dotted(name: seq<byte>) { name == DOT || name == DOTDOT }

  /** Inode `t` is allocated, and the root or an unreserved one. */
  ghost predicate Settled(v: Vol, t: nat)
    requires Shaped(v)
  {
    ValidIno(t) && v.inodeUsed[t - 1] && Unreserved(t)
  }

  ghost predicate RefOk(v: Vol, d: nat, name: seq<byte>)
    requires Shaped(v)
  {
    Find(v, d, name) != 0 && !Dotted(name) ==> Settled(v, Find(v, d, name))
  }

  /**
   A set of directories that contains the root and every directory a member binds; members bind allocated inodes, and
   `.` and `..` to directories. A directory made beneath a file, which no directory binds, stays outside.
   */
  ghost predicate Tree(v: Vol, tree: set<nat>)
    requires Shaped(v)
  {
    && ROOT_INO in tree && (forall d :: d in tree ==> Settled(v, d) && At(v, d).IsDir())
    && forall d, name :: d in tree ==> TreeRef(v, tree, d, name)
  }

  ghost predicate TreeRef(v: Vol, tree: set<nat>, d: nat, name: seq<byte>)
    requires Shaped(v)
  {
    var t := Find(v, d, name);
    t != 0 ==> Settled(v, t) && (Dotted(name) ==> At(v, t).IsDir()) && (At(v, t).IsDir() ==> t in tree)
  }

  /** Every name but `.` and `..` is bound to an allocated inode, and the directories below the root form a tree. */
  ghost predicate RefsOk(v: Vol)
    requires Shaped(v)
  {
    (forall d, name :: RefOk(v, d, name)) && exists tree :: Tree(v, tree)
  }

  ghost predicate Ref(v: Vol, d: nat, name: seq<byte>, t: nat)
    requires Shaped(v)
  {
    t != 0 && !Dotted(name) && Find(v, d, name) == t
  }

  /** Apart from `.` and `..`, an inode is bound at most once on the whole volume. */
  ghost predicate RefsUnique(v: Vol)
    requires Shaped(v)
  {
    forall d, name, d', name', t :: Ref(v, d, name, t) && Ref(v, d', name', t) ==> d == d' && name == name'
  }

  /** Free inode slots are zero. */
  ghost predicate FreeZero(v: Vol)
    requires Shaped(v)
  {
    forall i :: 0 <= i < INODES && !v.inodeUsed[i] ==> v.inodes[i] == ZeroInode()
  }

  ghost predicate Inv(v: Vol) {
    && Shaped(v) && Counted(v) && AllOwnWell(v) && Apart(v) && DirsOk(v) && RefsOk(v) && RefsUnique(v) && FreeZero(v)
  }

  // ------------------------------------------------------ elementary operations

  /** alloc_block: the first clear bit from FIRST_DATA + 1 on, or 0 when there is none. */
  function AllocBlock(v: Vol): (r: (Vol, nat))
    requires |v.used| == MAX_BLOCKS && FIRST_DATA + 1 <= v.total <= MAX_BLOCKS
  {
    var i := FirstClear(v.used, FIRST_DATA + 1, v.total);
    if i == v.total then (v, 0)
    else (v.(used := v.used[i := true], freeBlocks := Wrap32(v.freeBlocks - 1),
        groupBlocks := Wrap16(v.groupBlocks - 1)), i)
  }

  function FreeBlock(v: Vol, n: nat): Vol
    requires n < |v.used|
  {
    v.(used := v.used[n := false], freeBlocks := Wrap32(v.freeBlocks + 1), groupBlocks := Wrap16(v.groupBlocks + 1))
  }

  /** alloc_inode: the first clear bit from 10 on names the inode one above it. */
  function AllocInode(v: Vol): (r: (Vol, nat))
    requires |v.inodeUsed| == MAX_BLOCKS
  {
    var i := FirstClear(v.inodeUsed, 10, INODES);
    if i == INODES then (v, 0)
    else (v.(inodeUsed := v.inodeUsed[i := true], freeInodes := Wrap32(v.freeInodes - 1),
        groupInodes := Wrap16(v.groupInodes - 1)), i + 1)
  }

  function FreeInode(v: Vol, ino: nat): Vol
    requires 1 <= ino <= |v.inodeUsed|
  {
    v.(inodeUsed := v.inodeUsed[ino - 1 := false], freeInodes := Wrap32(v.freeInodes + 1),
        groupInodes := Wrap16(v.groupInodes + 1))
  }

  function Wrap32(x: int): (r: nat)
    ensures r < 0x1_0000_0000
  {
    x % 0x1_0000_0000
  }

  function Wrap16(x: int): (r: nat)
    ensures r < 0x1_0000
  {
    x % 0x1_0000
  }

  lemma {:induction false} ClearBound(bits: seq<bool>)
    ensures Clear(bits) <= |bits|
  {
    if bits != [] { ClearBound(bits[1..]); }
  }

  lemma AllocBlockCounted(v: Vol)
    requires Counted(v) && FIRST_DATA + 1 <= v.total
    ensures Counted(AllocBlock(v).0)
  {
    hide FirstClear;
    var i := FirstClear(v.used, FIRST_DATA + 1, v.total);
    if i < v.total {
      ClearFlip(v.used, i, true);
      ClearBound(v.used);
      ClearBound(v.used[i := true]);
    }
  }

  lemma FreeBlockCounted(v: Vol, n: nat)
    requires Counted(v) && FIRST_DATA < n < v.total && v.used[n]
    ensures Counted(FreeBlock(v, n))
  {
    ClearFlip(v.used, n, false);
    ClearBound(v.used[n := false]);
  }

  lemma AllocInodeCounted(v: Vol)
    requires Counted(v)
    ensures Counted(AllocInode(v).0)
  {
    hide FirstClear;
    var i := FirstClear(v.inodeUsed, 10, INODES);
    if i < INODES {
      ClearFlip(v.inodeUsed, i, true);
      ClearBound(v.inodeUsed);
      ClearBound(v.inodeUsed[i := true]);
    }
  }

  lemma FreeInodeCounted(v: Vol, ino: nat)
    requires Counted(v) && 10 < ino <= INODES && v.inodeUsed[ino - 1]
    ensures Counted(FreeInode(v, ino))
  {
    ClearFlip(v.inodeUsed, ino - 1, false);
    ClearBound(v.inodeUsed[ino - 1 := false]);
  }

  // ------------------------------------------------------------ dependencies

  /** Pointers depend on the inode and the contents of its indirect block. */
  lemma RawSame(data: seq<seq<byte>>, data': seq<seq<byte>>, n: Inode)
    requires |n.block| == 15 && |data'| == |data|
    requires 0 < n.block[12] < |data| ==> data'[n.block[12]] == data[n.block[12]]
    ensures Raw(data', n) == Raw(data, n) && Owned(data', n) == Owned(data, n)
  {
  }

  /** The indirect block is among the owned blocks. */
  lemma IndirectOwned(data: seq<seq<byte>>, n: Inode)
    requires |n.block| == 15
    ensures n.block[12] != 0 ==> n.block[12] in Owned(data, n)
    ensures forall k :: 0 <= k < 12 && n.block[k] != 0 ==> n.block[k] in Owned(data, n)
  {
    var raw := Raw(data, n);
    if n.block[12] != 0 { assert raw[|raw| - 1] == n.block[12]; }
    forall k | 0 <= k < 12 && n.block[k] != 0 ensures n.block[k] in Owned(data, n) { assert raw[k] == n.block[k]; }
  }

  /** A write to a block the inode does not own leaves its pointers alone. */
  lemma RawKept(data: seq<seq<byte>>, n: Inode, x: nat, b: seq<byte>)
    requires |n.block| == 15 && x < |data| && x !in Owned(data, n)
    ensures Raw(data[x := b], n) == Raw(data, n) && Owned(data[x := b], n) == Owned(data, n)
  {
    hide Raw, Owned;
    IndirectOwned(data, n);
    RawSame(data, data[x := b], n);
  }

  /** Directory `d`, if it is one, has the same block with the same contents in both volumes. */
  ghost predicate DirSame(v: Vol, v': Vol, d: nat)
    requires Shaped(v) && Shaped(v') && ValidIno(d)
  {
    && At(v', d).IsDir() == At(v, d).IsDir() && At(v', d).block[0] == At(v, d).block[0]
    && (At(v, d).IsDir() && 0 < At(v, d).block[0] < v.total ==> v'.data[At(v, d).block[0]] == v.data[At(v, d).block[0]])
  }

  /** What a directory binds depends on its inode's type and block, and on that block. */
  lemma FindSame(v: Vol, v': Vol, d: nat, name: seq<byte>)
    requires Shaped(v) && Shaped(v') && v'.total == v.total && (ValidIno(d) ==> DirSame(v, v', d))
    ensures DirOk(v', d) == DirOk(v, d) && Find(v', d, name) == Find(v, d, name)
  {
    hide Tiled, Good, Entries, Lookup, Inode.IsDir;
  }

  ghost predicate SameFinds(v: Vol, v': Vol)
    requires Shaped(v) && Shaped(v')
  {
    && (forall d :: DirOk(v', d) == DirOk(v, d))
    && (forall d, name :: Find(v', d, name) == Find(v, d, name))
  }

  lemma FindsSame(v: Vol, v': Vol)
    requires Shaped(v) && Shaped(v') && v'.total == v.total
    requires forall d :: 1 <= d <= INODES ==> DirSame(v, v', d)
    ensures SameFinds(v, v')
  {
    hide DirOk, Find, DirSame;
    forall d ensures DirOk(v', d) == DirOk(v, d) { FindSame(v, v', d, []); }
    forall d, name ensures Find(v', d, name) == Find(v, d, name) { FindSame(v, v', d, name); }
  }

  /** A tree stays one when its inodes stay allocated and keep their types. */
  lemma TreeSame(v: Vol, v': Vol, tree: set<nat>)
    requires Shaped(v) && Shaped(v') && SameFinds(v, v') && Tree(v, tree)
    requires forall t :: 1 <= t <= INODES ==> StillThere(v, v', t)
    ensures Tree(v', tree)
  {
    hide Find, DirOk, Dotted, Inode.IsDir;
    forall d | d in tree ensures Settled(v', d) && At(v', d).IsDir() { assert StillThere(v, v', d); }
    forall d, name | d in tree ensures TreeRef(v', tree, d, name) {
      assert TreeRef(v, tree, d, name);
      var t := Find(v, d, name);
      if t != 0 {
        assert StillThere(v, v', t);
        assert Dotted(name) || Ref(v, d, name, t);
      }
    }
  }

  /** Inode `t` keeps its type and, unless it is a file without a name, its mark. */
  ghost predicate StillThere(v: Vol, v': Vol, t: nat)
    requires Shaped(v) && Shaped(v') && ValidIno(t)
  {
    && At(v', t).IsDir() == At(v, t).IsDir()
    && (v.inodeUsed[t - 1] && !v'.inodeUsed[t - 1] ==> Unref(v, t) && !At(v, t).IsDir())
  }

  lemma RefsSame(v: Vol, v': Vol)
    requires Shaped(v) && Shaped(v') && SameFinds(v, v') && RefsOk(v) && RefsUnique(v)
    requires forall t :: 1 <= t <= INODES ==> StillThere(v, v', t)
    ensures RefsOk(v') && RefsUnique(v')
  {
    hide Find, DirOk, Dotted, Inode.IsDir, Tree;
    forall d, name ensures RefOk(v', d, name) {
      assert RefOk(v, d, name);
      var t := Find(v, d, name);
      if t != 0 && !Dotted(name) {
        assert StillThere(v, v', t);
        assert Ref(v, d, name, t);
      }
    }
    var tree :| Tree(v, tree);
    TreeSame(v, v', tree);
    forall d, name, d', name', t | Ref(v', d, name, t) && Ref(v', d', name', t) ensures d == d' && name == name' {
      assert Ref(v, d, name, t) && Ref(v, d', name', t);
    }
  }

  // ------------------------------------------ elementary changes keep the invariant

  lemma DirsSame(v: Vol, v': Vol)
    requires Shaped(v) && Shaped(v') && SameFinds(v, v') && DirsOk(v)
    requires forall d :: 1 <= d <= INODES ==> DirSame(v, v', d)
    ensures DirsOk(v')
  {
    hide DirOk, Find, Inode.IsDir;
    assert DirSame(v, v', ROOT_INO);
    forall d | 1 <= d <= INODES && At(v', d).IsDir() ensures DirOk(v', d) && Unreserved(d) { assert DirSame(v, v', d); }
  }

  /** Block-bitmap changes: fine as long as owned blocks stay marked and the counts follow. */
  lemma BitsKeep(v: Vol, v': Vol)
    requires Inv(v) && Counted(v')
    requires v' == v.(used := v'.used, freeBlocks := v'.freeBlocks, groupBlocks := v'.groupBlocks)
    requires forall x :: 0 <= x < MAX_BLOCKS && v.used[x] && !v'.used[x] ==> Unowned(v, x)
    ensures Inv(v') && SameFinds(v, v')
  {
    hide Raw, Owned, NoRepeat, DirOk, Find, Inode.IsDir, Inode.Fits, Clear, RefsOk, RefsUnique, DirsOk, SameFinds,
         Unowned;
    assert Shaped(v');
    FindsSame(v, v');
    RefsSame(v, v');
    DirsSame(v, v');
    forall i | 0 <= i < INODES ensures OwnsWell(v', v'.inodes[i]) { OwnsStill(v, v', i); }
  }

  lemma OwnsStill(v: Vol, v': Vol, i: nat)
    requires Shaped(v) && Shaped(v') && v'.total == v.total && i < INODES && OwnsWell(v, v.inodes[i])
    requires Raw(v'.data, v'.inodes[i]) == Raw(v.data, v.inodes[i])
    requires forall x :: 0 <= x < MAX_BLOCKS && v.used[x] && !v'.used[x] ==> Unowned(v, x)
    ensures OwnsWell(v', v'.inodes[i]) && Owned(v'.data, v'.inodes[i]) == Owned(v.data, v.inodes[i])
  {
    hide Raw, NoRepeat;
    var own := Owned(v.data, v.inodes[i]);
    assert own == Owned(v'.data, v'.inodes[i]);
    forall x | x in own ensures v'.used[x] {
      assert !Unowned(v, x);
    }
  }

  /** Writing a block nobody owns. */
  lemma DataKeeps(v: Vol, x: nat, b: seq<byte>)
    requires Inv(v) && x < MAX_BLOCKS && |b| == BS && Unowned(v, x)
    ensures Inv(v.(data := v.data[x := b])) && SameFinds(v, v.(data := v.data[x := b]))
            && Unowned(v.(data := v.data[x := b]), x)
    ensures forall i :: 0 <= i < INODES ==> Raw(v.data[x := b], v.inodes[i]) == Raw(v.data, v.inodes[i])
  {
    hide Raw, Owned, NoRepeat, DirOk, Find, Inode.IsDir, Inode.Fits, Counted, RefsOk, RefsUnique, DirsOk, SameFinds,
         OwnsWell;
    var v' := v.(data := v.data[x := b]);
    assert Shaped(v');
    forall i | 0 <= i < INODES
      ensures Raw(v'.data, v.inodes[i]) == Raw(v.data, v.inodes[i])
              && Owned(v'.data, v.inodes[i]) == Owned(v.data, v.inodes[i])
    {
      RawKept(v.data, v.inodes[i], x, b);
    }
    forall d | 1 <= d <= INODES ensures DirSame(v, v', d) { IndirectOwned(v.data, v.inodes[d - 1]); }
    FindsSame(v, v');
    RefsSame(v, v');
    DirsSame(v, v');
    CountedSame(v, v');
    forall i | 0 <= i < INODES ensures OwnsWell(v', v'.inodes[i]) { OwnsStill(v, v', i); }
  }

  lemma CountedSame(v: Vol, v': Vol)
    requires Counted(v) && v' == v.(data := v'.data, inodes := v'.inodes)
    ensures Counted(v')
  {
  }

  /** Replacing one non-directory inode by another that owns blocks of its own. */
  lemma InodeKeeps(v: Vol, ino: nat, n: Inode)
    requires Inv(v) && ValidIno(ino) && v.inodeUsed[ino - 1] && !At(v, ino).IsDir()
    requires n.Fits() && |n.block| == 15 && !n.IsDir() && OwnsWell(v, n)
    requires forall i :: 0 <= i < INODES && i != ino - 1 ==> Owned(v.data, n) !! Owned(v.data, v.inodes[i])
    ensures Inv(v.(inodes := v.inodes[ino - 1 := n])) && SameFinds(v, v.(inodes := v.inodes[ino - 1 := n]))
  {
    hide Raw, Owned, NoRepeat, DirOk, Inode.IsDir, Inode.Fits, Counted, RefsOk, RefsUnique, DirsOk, SameFinds, OwnsWell;
    var v' := v.(inodes := v.inodes[ino - 1 := n]);
    assert Shaped(v');
    FindsIgnore(v, v', ino);
    RefsSame(v, v');
    DirsIgnore(v, v', ino);
    CountedSame(v, v');
    forall i | 0 <= i < INODES ensures OwnsWell(v', v'.inodes[i]) { OwnsSame(v, v', v'.inodes[i]); }
  }

  lemma OwnsSame(v: Vol, v': Vol, n: Inode)
    requires Shaped(v) && Shaped(v') && v'.total == v.total && v'.used == v.used && v'.data == v.data
    ensures OwnsWell(v', n) == OwnsWell(v, n)
  {
  }

  /** A change confined to an inode that is a directory neither before nor after binds nothing new. */
  lemma FindsIgnore(v: Vol, v': Vol, ino: nat)
    requires Shaped(v) && Shaped(v') && v'.total == v.total && ValidIno(ino) && v'.data == v.data
    requires !At(v, ino).IsDir() && !At(v', ino).IsDir() && v'.inodes == v.inodes[ino - 1 := At(v', ino)]
    ensures SameFinds(v, v')
  {
    hide Find, Inode.IsDir;
    forall d ensures DirOk(v', d) == DirOk(v, d) { FindIgnores(v, v', ino, d, []); }
    forall d, name ensures Find(v', d, name) == Find(v, d, name) { FindIgnores(v, v', ino, d, name); }
  }

  lemma FindIgnores(v: Vol, v': Vol, ino: nat, d: nat, name: seq<byte>)
    requires Shaped(v) && Shaped(v') && v'.total == v.total && ValidIno(ino) && v'.data == v.data
    requires !At(v, ino).IsDir() && !At(v', ino).IsDir() && v'.inodes == v.inodes[ino - 1 := At(v', ino)]
    ensures DirOk(v', d) == DirOk(v, d) && Find(v', d, name) == Find(v, d, name)
  {
    hide Tiled, Good, Entries, Lookup, Inode.IsDir;
    if d != ino { FindSame(v, v', d, name); }
  }

  lemma DirsIgnore(v: Vol, v': Vol, ino: nat)
    requires Shaped(v) && Shaped(v') && SameFinds(v, v') && DirsOk(v) && ValidIno(ino)
    requires !At(v, ino).IsDir() && !At(v', ino).IsDir() && v'.inodes == v.inodes[ino - 1 := At(v', ino)]
    ensures DirsOk(v')
  {
    hide DirOk, Find, Inode.IsDir;
    forall d | 1 <= d <= INODES && At(v', d).IsDir() ensures DirOk(v', d) && Unreserved(d)
      { assert At(v, d).IsDir() && DirOk(v, d); }
  }

  /** No name but `.` or `..` is bound to inode `t`. */
  ghost predicate Unref(v: Vol, t: nat)
    requires Shaped(v)
  {
    forall d, name :: !Ref(v, d, name, t)
  }

  lemma UnrefSame(v: Vol, v': Vol, t: nat)
    requires Shaped(v) && Shaped(v') && SameFinds(v, v') && Unref(v, t)
    ensures Unref(v', t)
  {
    hide Find, DirOk;
    forall d, name ensures !Ref(v', d, name, t) { assert !Ref(v, d, name, t); }
  }

  /** Inode-bitmap changes: a cleared bit must belong to a zero inode without a name. */
  lemma InodeBitsKeep(v: Vol, v': Vol)
    requires Inv(v) && Counted(v')
    requires v' == v.(inodeUsed := v'.inodeUsed, freeInodes := v'.freeInodes, groupInodes := v'.groupInodes)
    requires forall i :: 0 <= i < INODES && v.inodeUsed[i] && !v'.inodeUsed[i] ==>
               v.inodes[i] == ZeroInode() && Unref(v, i + 1)
    ensures Inv(v') && SameFinds(v, v')
  {
    hide Raw, Owned, NoRepeat, DirOk, Find, Inode.IsDir, Inode.Fits, Clear, RefsOk, RefsUnique, DirsOk, OwnsWell,
         ZeroInode;
    assert Shaped(v');
    FindsSame(v, v');
    ZeroDecodes();
    RefsSame(v, v');
    DirsSame(v, v');
    forall i | 0 <= i < INODES ensures OwnsWell(v', v'.inodes[i]) { OwnsSame(v, v', v'.inodes[i]); }
  }

  lemma RawOfPointers(data: seq<seq<byte>>, n: Inode, n': Inode)
    requires n'.block == n.block
    ensures Raw(data, n') == Raw(data, n)
  {
  }

  /** Rewriting an inode without touching its type and pointers. */
  lemma LinksKeep(v: Vol, ino: nat, n: Inode)
    requires Inv(v) && ValidIno(ino) && v.inodeUsed[ino - 1] && n.Fits() && n.block == At(v, ino).block
             && n.IsDir() == At(v, ino).IsDir()
    ensures Inv(v.(inodes := v.inodes[ino - 1 := n])) && SameFinds(v, v.(inodes := v.inodes[ino - 1 := n]))
    ensures forall i :: 0 <= i < INODES ==> Raw(v.data, v.inodes[ino - 1 := n][i]) == Raw(v.data, v.inodes[i])
  {
    hide Raw, Owned, NoRepeat, DirOk, Find, Inode.IsDir, Inode.Fits, Counted, RefsOk, RefsUnique, DirsOk, SameFinds,
         OwnsWell;
    var v' := v.(inodes := v.inodes[ino - 1 := n]);
    assert Shaped(v');
    RawOfPointers(v.data, At(v, ino), n);
    forall d | 1 <= d <= INODES ensures DirSame(v, v', d) { }
    FindsSame(v, v');
    RefsSame(v, v');
    DirsSame(v, v');
    CountedSame(v, v');
    forall i | 0 <= i < INODES ensures Raw(v.data, v'.inodes[i]) == Raw(v.data, v.inodes[i])
        && OwnsWell(v', v'.inodes[i]) && Owned(v.data, v'.inodes[i]) == Owned(v.data, v.inodes[i])
      { OwnsStill(v, v', i); }
  }

  // ------------------------------------------------------- directory updates

  /** The volume after directory `d`'s block is rewritten. */
  ghost function WithDir(v: Vol, d: nat, b: seq<byte>): Vol
    requires Shaped(v) && DirOk(v, d)
  {
    v.(data := v.data[At(v, d).block[0] := b])
  }

  /** An inode's first block is its own, is not its indirect block, and belongs to nobody else. */
  lemma FirstBlockOwned(v: Vol, d: nat)
    requires Inv(v) && ValidIno(d) && At(v, d).block[0] != 0
    ensures FIRST_DATA <= At(v, d).block[0] < v.total
    ensures At(v, d).block[0] in Owned(v.data, At(v, d)) && At(v, d).block[0] != At(v, d).block[12]
    ensures forall i :: 0 <= i < INODES && i != d - 1 ==> At(v, d).block[0] !in Owned(v.data, v.inodes[i])
  {
    hide DirOk, Find, RefsOk, RefsUnique, DirsOk, Counted, Owned;
    var n := At(v, d);
    IndirectOwned(v.data, n);
    assert OwnsWell(v, v.inodes[d - 1]);
    FirstIsNotIndirect(v, n);
    forall i | 0 <= i < INODES && i != d - 1 ensures n.block[0] !in Owned(v.data, v.inodes[i]) {
      if i < d - 1 {
        assert Owned(v.data, v.inodes[i]) !! Owned(v.data, v.inodes[d - 1]);
      } else {
        assert Owned(v.data, v.inodes[d - 1]) !! Owned(v.data, v.inodes[i]);
      }
    }
  }

  lemma DirBlockOwned(v: Vol, d: nat)
    requires Inv(v) && DirOk(v, d)
    ensures At(v, d).block[0] in Owned(v.data, At(v, d)) && At(v, d).block[0] != At(v, d).block[12]
    ensures forall i :: 0 <= i < INODES && i != d - 1 ==> At(v, d).block[0] !in Owned(v.data, v.inodes[i])
  {
    hide DirOk, Find, RefsOk, RefsUnique, DirsOk, Counted, Owned, AllOwnWell, Apart, FreeZero;
    DirBlock(v, d);
    FirstBlockOwned(v, d);
  }

  lemma DirBlock(v: Vol, d: nat)
    requires Shaped(v) && DirOk(v, d)
    ensures ValidIno(d) && 0 < At(v, d).block[0] < v.total
  {
  }

  lemma FirstIsNotIndirect(v: Vol, n: Inode)
    requires Shaped(v) && |n.block| == 15 && n.block[0] != 0 && n.block[0] < MAX_BLOCKS && NoRepeat(Raw(v.data, n))
    ensures n.block[0] != n.block[12]
  {
    var raw := Raw(v.data, n);
    assert raw[0] == n.block[0];
    assert n.block[12] != 0 ==> |raw| > 12 && raw[|raw| - 1] == n.block[12];
  }

  /** Rewriting a directory's block changes no pointer and no other directory. */
  lemma DirWriteKeeps(v: Vol, d: nat, b: seq<byte>)
    requires Inv(v) && DirOk(v, d) && |b| == BS && Tiled(b, 0) && Good(Entries(b, 0))
    ensures var v' := WithDir(v, d, b);
            && Shaped(v') && Counted(v') && AllOwnWell(v') && Apart(v') && DirsOk(v') && FreeZero(v')
            && DirOk(v', d) && List(v', d) == Entries(b, 0)
            && (forall i :: 0 <= i < INODES ==> Raw(v'.data, v.inodes[i]) == Raw(v.data, v.inodes[i]))
            && (forall d', name :: d' != d ==> Find(v', d', name) == Find(v, d', name))
  {
    hide Raw, Owned, NoRepeat, Find, Inode.IsDir, Inode.Fits, Counted, RefsOk, RefsUnique, OwnsWell, Tiled, Good,
         Entries;
    var v', x := WithDir(v, d, b), At(v, d).block[0];
    DirBlockOwned(v, d);
    assert Shaped(v');
    CountedSame(v, v');
    forall i | 0 <= i < INODES
      ensures Raw(v'.data, v.inodes[i]) == Raw(v.data, v.inodes[i])
              && Owned(v'.data, v.inodes[i]) == Owned(v.data, v.inodes[i])
    {
      IndirectOwned(v.data, v.inodes[i]);
      RawSame(v.data, v'.data, v.inodes[i]);
    }
    forall i | 0 <= i < INODES ensures OwnsWell(v', v'.inodes[i]) { OwnsStill(v, v', i); }
    forall d' | 1 <= d' <= INODES && d' != d ensures DirSame(v, v', d') { IndirectOwned(v.data, v.inodes[d' - 1]); }
    forall d', name | d' != d ensures DirOk(v', d') == DirOk(v, d') && Find(v', d', name) == Find(v, d', name)
      { FindSame(v, v', d', name); }
    DirsAfterWrite(v, v', d);
  }

  /** Rewriting a file's first block changes no pointer and no directory. */
  lemma FileWriteKeeps(v: Vol, f: nat, b: seq<byte>)
    requires Inv(v) && ValidIno(f) && !At(v, f).IsDir() && At(v, f).block[0] != 0 && |b| == BS
    ensures At(v, f).block[0] < MAX_BLOCKS
    ensures var v' := v.(data := v.data[At(v, f).block[0] := b]);
            && Inv(v') && SameFinds(v, v')
            && forall i :: 0 <= i < INODES ==> Raw(v'.data, v.inodes[i]) == Raw(v.data, v.inodes[i])
  {
    hide Raw, Owned, NoRepeat, DirOk, Find, Inode.IsDir, Inode.Fits, Counted, RefsOk, RefsUnique, DirsOk, SameFinds,
         OwnsWell;
    var x := At(v, f).block[0];
    FirstBlockOwned(v, f);
    var v' := v.(data := v.data[x := b]);
    assert Shaped(v');
    forall i | 0 <= i < INODES
      ensures Raw(v'.data, v.inodes[i]) == Raw(v.data, v.inodes[i])
              && Owned(v'.data, v.inodes[i]) == Owned(v.data, v.inodes[i])
    {
      IndirectOwned(v.data, v.inodes[i]);
      RawSame(v.data, v'.data, v.inodes[i]);
    }
    forall d | 1 <= d <= INODES ensures DirSame(v, v', d) { IndirectOwned(v.data, v.inodes[d - 1]); }
    FindsSame(v, v');
    RefsSame(v, v');
    DirsSame(v, v');
    CountedSame(v, v');
    forall i | 0 <= i < INODES ensures OwnsWell(v', v'.inodes[i]) { OwnsStill(v, v', i); }
  }

  lemma DirsAfterWrite(v: Vol, v': Vol, d: nat)
    requires Shaped(v) && Shaped(v') && DirsOk(v) && DirOk(v', d) && v'.inodes == v.inodes && v'.total == v.total
    requires forall d' :: 1 <= d' <= INODES && d' != d ==> DirSame(v, v', d')
    ensures DirsOk(v')
  {
    hide DirOk, DirSame, Inode.IsDir;
    forall d' | 1 <= d' <= INODES && At(v, d').IsDir() ensures DirOk(v', d') && Unreserved(d') {
      if d' != d { FindSame(v, v', d', []); }
    }
    if d != ROOT_INO { FindSame(v, v', ROOT_INO, []); }
  }

  /** Directory `d`'s block. */
  function Block(v: Vol, d: nat): seq<byte>
    requires Shaped(v) && ValidIno(d) && At(v, d).block[0] < MAX_BLOCKS
  {
    v.data[At(v, d).block[0]]
  }

  lemma FindsAfterAdd(v: Vol, d: nat, name: seq<byte>, t: nat, kind: byte)
    requires Inv(v) && DirOk(v, d) && |name| < 256 && Find(v, d, name) == 0 && RoomFor(List(v, d), |name|)
             && ValidIno(t)
    ensures var r := Added(Block(v, d), t, kind, name);
            && Good(Entries(r, 0))
            && forall nm :: Lookup(Entries(r, 0), nm) == if nm == name then t else Find(v, d, nm)
  {
    hide Added, Inserted, Good, RoomFor, Counted, AllOwnWell, Apart, DirsOk, FreeZero, RefsOk, RefsUnique;
    var es := List(v, d);
    var r := Added(Block(v, d), t, kind, name);
    InsertedGood(es, t, kind, name);
    forall nm ensures Lookup(Entries(r, 0), nm) == if nm == name then t else Find(v, d, nm) {
      InsertedLookup(es, t, kind, name, nm);
    }
  }

  /** Inode `t` is a file, or a directory with nothing but `.` for itself and `..` for `d`. */
  ghost predicate FileOrNew(v: Vol, t: nat, d: nat)
    requires Shaped(v) && ValidIno(t)
  {
    At(v, t).IsDir() ==> forall nm :: Find(v, t, nm) == if nm == DOT then t else if nm == DOTDOT then d else 0
  }

  /** Binding a fresh name to an allocated inode that has no name yet. */
  lemma DirAddKeeps(v: Vol, d: nat, name: seq<byte>, t: nat, kind: byte)
    requires Inv(v) && DirOk(v, d) && |name| < 256 && Find(v, d, name) == 0 && RoomFor(List(v, d), |name|)
    requires Settled(v, t) && Unref(v, t) && t != d && FileOrNew(v, t, d)
    ensures var v' := WithDir(v, d, Added(Block(v, d), t, kind, name));
            && Inv(v')
            && (forall i :: 0 <= i < INODES ==> Raw(v'.data, v.inodes[i]) == Raw(v.data, v.inodes[i]))
            && forall d', nm :: Find(v', d', nm) == if d' == d && nm == name then t else Find(v, d', nm)
  {
    hide Added, Raw, Counted, AllOwnWell, Apart, DirsOk, FreeZero, RefsOk, RefsUnique, Unref, Good, Tiled, Entries,
         Lookup, RoomFor, FileOrNew;
    var r := Added(Block(v, d), t, kind, name);
    FindsAfterAdd(v, d, name, t, kind);
    DirWriteKeeps(v, d, r);
    var v' := WithDir(v, d, r);
    forall d', nm ensures Find(v', d', nm) == if d' == d && nm == name then t else Find(v, d', nm) { }
    RefsAfterAdd(v, v', d, name, t);
  }

  lemma RefsAfterAdd(v: Vol, v': Vol, d: nat, name: seq<byte>, t: nat)
    requires Inv(v) && Shaped(v') && v'.inodeUsed == v.inodeUsed && v'.inodes == v.inodes && DirOk(v, d)
             && Find(v, d, name) == 0
    requires Settled(v, t) && Unref(v, t) && t != d && FileOrNew(v, t, d)
    requires forall d', nm :: Find(v', d', nm) == if d' == d && nm == name then t else Find(v, d', nm)
    ensures RefsOk(v') && RefsUnique(v')
  {
    hide Counted, AllOwnWell, Apart, DirsOk, FreeZero, Find, DirOk, Inode.IsDir, Tree, FileOrNew;
    DotsBound(v, d);
    forall d', nm ensures RefOk(v', d', nm) { assert RefOk(v, d', nm); }
    var tree :| Tree(v, tree);
    TreeAfterAdd(v, v', d, name, t, tree);
    forall d1, n1, d2, n2, u | Ref(v', d1, n1, u) && Ref(v', d2, n2, u) ensures d1 == d2 && n1 == n2 {
      if u != t { assert Ref(v, d1, n1, u) && Ref(v, d2, n2, u); } else
        { assert !Ref(v, d1, n1, t) && !Ref(v, d2, n2, t); }
    }
  }

  /** The directories reached with the new name bound. */
  ghost function Reached(v: Vol, tree: set<nat>, d: nat, t: nat): set<nat>
    requires Shaped(v) && ValidIno(t)
  {
    if d in tree && At(v, t).IsDir() then tree + {t} else tree
  }

  lemma TreeAfterAdd(v: Vol, v': Vol, d: nat, name: seq<byte>, t: nat, tree: set<nat>)
    requires Shaped(v) && Shaped(v') && v'.inodeUsed == v.inodeUsed && v'.inodes == v.inodes && !Dotted(name)
    requires Settled(v, t) && t != d && FileOrNew(v, t, d) && Tree(v, tree)
    requires forall d', nm :: Find(v', d', nm) == if d' == d && nm == name then t else Find(v, d', nm)
    ensures Tree(v', Reached(v, tree, d, t))
  {
    hide Find, DirOk, Inode.IsDir, Dotted;
    var tree' := Reached(v, tree, d, t);
    forall d', nm | d' in tree' ensures TreeRef(v', tree', d', nm) {
      if d' in tree { assert TreeRef(v, tree, d', nm); } else { DotsOnly(v, v', d, t, nm); }
    }
  }

  lemma DotsOnly(v: Vol, v': Vol, d: nat, t: nat, nm: seq<byte>)
    requires Shaped(v) && Shaped(v') && ValidIno(t) && FileOrNew(v, t, d) && At(v, t).IsDir()
    requires Find(v', t, nm) == Find(v, t, nm)
    ensures Find(v', t, nm) == if nm == DOT then t else if nm == DOTDOT then d else 0
  {
    hide Find;
  }

  lemma DotsBound(v: Vol, d: nat)
    requires Shaped(v) && DirOk(v, d)
    ensures Find(v, d, DOT) != 0 && Find(v, d, DOTDOT) != 0
  {
    DotBound(List(v, d));
  }

  /** Neither `.` nor `..` of directory `d` is bound to inode `t`. */
  ghost predicate DotsElsewhere(v: Vol, d: nat, t: nat)
    requires Shaped(v)
  {
    forall nm :: Dotted(nm) ==> Find(v, d, nm) != t
  }

  /** The record ext2_remove finds by inode number is the one that bears the name. */
  lemma OneEntryOnly(v: Vol, d: nat, name: seq<byte>, t: nat)
    requires Inv(v) && DirOk(v, d) && Find(v, d, name) == t && t != 0 && DotsElsewhere(v, d, t)
    ensures OnlyEntry(List(v, d), t, name) && !Dotted(name)
  {
    hide Counted, AllOwnWell, Apart, DirsOk, FreeZero, Tiled, Entries, Inode.IsDir, RefsOk;
    var es := List(v, d);
    forall i | 0 <= i < |es| && es[i].ino == t ensures es[i].name == name && i > 0 {
      EntryLookedUp(es, i);
      assert Ref(v, d, es[i].name, t) && Ref(v, d, name, t);
    }
    var i := LookedUpEntry(es, name);
  }

  lemma FindsAfterRemove(v: Vol, d: nat, name: seq<byte>, t: nat)
    requires Inv(v) && DirOk(v, d) && OnlyEntry(List(v, d), t, name) && !Dotted(name)
    ensures var r := Dropped(Block(v, d), t);
            && |r| == BS && Tiled(r, 0) && Good(Entries(r, 0)) && Before(Block(v, d), 0, t) < BS
            && forall nm :: Lookup(Entries(r, 0), nm) == if nm == name then 0 else Find(v, d, nm)
  {
    hide Dropped, Removed, Lookup, Before, Tiled, Counted, AllOwnWell, Apart, DirsOk, FreeZero, RefsOk, RefsUnique;
    var b, es := Block(v, d), List(v, d);
    BeforeIff(b, 0, t);
    var i :| 0 <= i < |es| && es[i].ino == t;
    assert 0 < i < |Entries(b, 0)| && Entries(b, 0)[i].ino == t;
    DroppedEntries(b, t);
    RemovedGood(es, t, name);
    forall nm ensures Lookup(Entries(Dropped(b, t), 0), nm) == if nm == name then 0 else Find(v, d, nm) {
      RemovedLookup(es, t, name, nm);
    }
  }

  /** Unbinding a file. */
  lemma DirRemoveKeeps(v: Vol, d: nat, name: seq<byte>, t: nat)
    requires Inv(v) && DirOk(v, d) && Find(v, d, name) == t && t != 0 && DotsElsewhere(v, d, t)
    ensures Before(Block(v, d), 0, t) < BS
    ensures var v' := WithDir(v, d, Dropped(Block(v, d), t));
            && Inv(v') && Unref(v', t)
            && (forall i :: 0 <= i < INODES ==> Raw(v'.data, v.inodes[i]) == Raw(v.data, v.inodes[i]))
            && forall d', nm :: Find(v', d', nm) == if d' == d && nm == name then 0 else Find(v, d', nm)
  {
    hide Dropped, Raw, Counted, AllOwnWell, Apart, DirsOk, FreeZero, RefsOk, RefsUnique, Good, Tiled, Entries, Lookup,
         Before, OnlyEntry, Inode.IsDir, Unref;
    OneEntryOnly(v, d, name, t);
    FindsAfterRemove(v, d, name, t);
    var r := Dropped(Block(v, d), t);
    DirWriteKeeps(v, d, r);
    var v' := WithDir(v, d, r);
    forall d', nm ensures Find(v', d', nm) == if d' == d && nm == name then 0 else Find(v, d', nm) { }
    RefsAfterRemove(v, v', d, name, t);
  }

  lemma RefsAfterRemove(v: Vol, v': Vol, d: nat, name: seq<byte>, t: nat)
    requires Inv(v) && Shaped(v') && v'.inodeUsed == v.inodeUsed && v'.inodes == v.inodes
    requires Find(v, d, name) == t && t != 0 && !Dotted(name)
    requires forall d', nm :: Find(v', d', nm) == if d' == d && nm == name then 0 else Find(v, d', nm)
    ensures RefsOk(v') && RefsUnique(v') && Unref(v', t)
  {
    hide Counted, AllOwnWell, Apart, DirsOk, FreeZero, Find, DirOk, Inode.IsDir, Dotted;
    forall d', nm ensures RefOk(v', d', nm) { assert RefOk(v, d', nm); }
    var tree :| Tree(v, tree);
    assert Tree(v', tree) by {
      forall d', nm | d' in tree ensures TreeRef(v', tree, d', nm) { assert TreeRef(v, tree, d', nm); }
    }
    forall d1, n1, d2, n2, u | Ref(v', d1, n1, u) && Ref(v', d2, n2, u) ensures d1 == d2 && n1 == n2 {
      assert Ref(v, d1, n1, u) && Ref(v, d2, n2, u);
    }
    forall d', nm ensures !Ref(v', d', nm, t) {
      assert Find(v, d', nm) == t && !Dotted(nm) ==> Ref(v, d', nm, t) && Ref(v, d, name, t);
    }
  }

  // ------------------------------------------------------------ a new directory

  /** The pointers of a one-block directory. */
  predicate OneBlock(n: Inode, x: nat) {
    |n.block| == 15 && n.block[0] == x && forall k :: 1 <= k < 15 ==> n.block[k] == 0
  }

  lemma OneBlockOwned(data: seq<seq<byte>>, n: Inode, x: nat)
    requires OneBlock(n, x) && x != 0
    ensures NoRepeat(Raw(data, n)) && Owned(data, n) == {x}
  {
    var raw := Raw(data, n);
    assert raw == n.block[..12];
    assert raw[0] == x;
  }

  /** Turning a file inode without a name into a directory whose block is ready. */
  lemma NewDirKeeps(v: Vol, t: nat, n: Inode, x: nat, parent: nat)
    requires Inv(v) && Settled(v, t) && !At(v, t).IsDir() && Unref(v, t)
    requires n.Fits() && n.IsDir() && OneBlock(n, x) && FIRST_DATA <= x < v.total && v.used[x] && Unowned(v, x)
    requires v.data[x] == NewDir(t, parent) && ValidIno(parent)
    ensures var v' := v.(inodes := v.inodes[t - 1 := n]);
            && Inv(v') && DirOk(v', t)
            && (forall d, nm :: Find(v', d, nm) ==
                  if d == t then (if nm == DOT then t else if nm == DOTDOT then parent else 0) else Find(v, d, nm))
  {
    hide Raw, Owned, NoRepeat, Inode.IsDir, Inode.Fits, Counted, RefsOk, RefsUnique, DirsOk, OwnsWell, Tiled, Good,
         Entries, Lookup, NewDir, Unref;
    var v' := v.(inodes := v.inodes[t - 1 := n]);
    assert Shaped(v');
    CountedSame(v, v');
    NewDirEntries(t, parent);
    OneBlockOwned(v.data, n, x);
    forall d, nm ensures Find(v', d, nm) ==
                  if d == t then (if nm == DOT then t else if nm == DOTDOT then parent else 0) else Find(v, d, nm)
    {
      if d == t { NewDirLookup(t, parent, nm); } else { FindSame(v, v', d, nm); }
    }
    assert AllOwnWell(v') by {
      assert OwnsWell(v', n) by { NewOwnsWell(v', n, x); }
      forall i | 0 <= i < INODES ensures OwnsWell(v', v'.inodes[i]) { OwnsSame(v, v', v'.inodes[i]); }
    }
    DirsAfterNew(v, v', t);
    RefsAfterNew(v, v', t, parent);
  }

  lemma NewOwnsWell(v: Vol, n: Inode, x: nat)
    requires Shaped(v) && OneBlock(n, x) && FIRST_DATA <= x < v.total && v.used[x]
    ensures OwnsWell(v, n)
  {
    hide Raw, Owned, NoRepeat;
    OneBlockOwned(v.data, n, x);
  }

  lemma NewDirLookup(t: nat, parent: nat, nm: seq<byte>)
    requires ValidIno(t) && ValidIno(parent) && |NewDir(t, parent)| == BS && Tiled(NewDir(t, parent), 0)
    ensures Lookup(Entries(NewDir(t, parent), 0), nm) == if nm == DOT then t else if nm == DOTDOT then parent else 0
  {
    hide Tiled, Entries, NewDir;
    NewDirEntries(t, parent);
    var e0, e1 := Entry(t, 12, 2, DOT), Entry(parent, BS - 12, 2, DOTDOT);
    assert Lookup([e1], nm) == if nm == DOTDOT then parent else 0 by { assert [e1][1..] == []; }
    assert [e0, e1][1..] == [e1];
  }

  lemma DirsAfterNew(v: Vol, v': Vol, t: nat)
    requires Shaped(v) && Shaped(v') && DirsOk(v) && DirOk(v', t) && v'.data == v.data && v'.total == v.total
    requires ValidIno(t) && Unreserved(t) && !At(v, t).IsDir() && v'.inodes == v.inodes[t - 1 := At(v', t)]
    ensures DirsOk(v')
  {
    hide DirOk, Inode.IsDir;
    assert t != ROOT_INO;
    forall d | 1 <= d <= INODES && At(v', d).IsDir() ensures DirOk(v', d) && Unreserved(d) {
      if d != t { FindSame(v, v', d, []); }
    }
    FindSame(v, v', ROOT_INO, []);
  }

  lemma RefsAfterNew(v: Vol, v': Vol, t: nat, parent: nat)
    requires Shaped(v) && RefsOk(v) && RefsUnique(v) && Shaped(v') && v'.inodeUsed == v.inodeUsed && ValidIno(t)
    requires v'.inodes == v.inodes[t - 1 := At(v', t)] && !At(v, t).IsDir() && Unref(v, t)
    requires forall d, nm :: Find(v', d, nm) ==
               if d == t then (if nm == DOT then t else if nm == DOTDOT then parent else 0) else Find(v, d, nm)
    ensures RefsOk(v') && RefsUnique(v')
  {
    hide DirOk, Find, Inode.IsDir;
    forall d, nm ensures RefOk(v', d, nm) { assert RefOk(v, d, nm); }
    var tree :| Tree(v, tree);
    assert Tree(v', tree) by {
      forall d, nm | d in tree ensures TreeRef(v', tree, d, nm) {
        assert TreeRef(v, tree, d, nm);
        assert !Ref(v, d, nm, t);
      }
    }
    forall d1, n1, d2, n2, u | Ref(v', d1, n1, u) && Ref(v', d2, n2, u) ensures d1 == d2 && n1 == n2 {
      assert Ref(v, d1, n1, u) && Ref(v, d2, n2, u);
    }
  }

  /** The group's directory count is not tied to anything else. */
  lemma DirCountKeep(v: Vol, k: nat)
    requires Inv(v)
    ensures Inv(v.(groupDirs := k)) && SameFinds(v, v.(groupDirs := k))
  {
    hide Raw, Owned, NoRepeat, DirOk, Find, Inode.IsDir, Inode.Fits, Clear, RefsOk, RefsUnique, DirsOk, OwnsWell,
         ZeroInode;
    var v' := v.(groupDirs := k);
    assert Shaped(v');
    FindsSame(v, v');
    RefsSame(v, v');
    DirsSame(v, v');
    forall i | 0 <= i < INODES ensures OwnsWell(v', v'.inodes[i]) { OwnsSame(v, v', v'.inodes[i]); }
  }

  /** A free inode bears no name, and is zero. */
  lemma FreeInodeUnref(v: Vol, t: nat)
    requires Inv(v) && ValidIno(t) && !v.inodeUsed[t - 1]
    ensures Unref(v, t) && At(v, t) == ZeroInode() && !At(v, t).IsDir()
  {
    hide Find, Counted, AllOwnWell, Apart, DirsOk, RefsUnique, ZeroInode, Tree;
    ZeroDecodes();
    forall d, name ensures !Ref(v, d, name, t) { assert RefOk(v, d, name); }
  }
}
