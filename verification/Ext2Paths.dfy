/**
 Paths: how they split into names, what walk resolves them to, and which changes of a volume
 leave every resolved path and every other file's contents as they were.
 */
module Ext2Paths {
  import opened Bytes
  import opened Bits
  import opened Ext2Layout
  import opened Ext2Dir
  import opened Ext2Volume
  import opened Ext2Files

  const SLASH: byte := 47

  /** Length of the name at the front of a path: up to the next slash. */
  function NameLength(path: seq<byte>): (n: nat)
    ensures n <= |path| && (n < |path| ==> path[n] == SLASH) && forall i :: 0 <= i < n ==> path[i] != SLASH
  {
    if path == [] || path[0] == SLASH then 0 else 1 + NameLength(path[1..])
  }

  /** The names of a path; runs of slashes separate them. */
  function Names(path: seq<byte>): seq<seq<byte>>
    decreases |path|
  {
    if path == [] then []
    else if path[0] == SLASH then Names(path[1..])
    else [path[..NameLength(path)]] + Names(path[NameLength(path)..])
  }

  lemma NamesSplit(path: seq<byte>, p: nat, q: nat)
    requires p < |path| && path[p] != SLASH && q == p + NameLength(path[p..])
    ensures p < q <= |path| && Names(path[p..]) == [path[p..q]] + Names(path[q..])
  {
    assert path[p..][..q - p] == path[p..q] && path[p..][q - p..] == path[q..];
  }

  lemma NamesSkip(path: seq<byte>, p: nat)
    requires p < |path| && path[p] == SLASH
    ensures Names(path[p..]) == Names(path[p + 1..])
  {
    assert path[p..][1..] == path[p + 1..];
  }

  lemma NoNames(path: seq<byte>, p: nat)
    requires p <= |path| && (p == |path| || path[p] != SLASH)
    ensures Names(path[p..]) == [] <==> p == |path|
  {
  }

  /** The loop past a run of slashes. */
  method SkipSlashes(path: seq<byte>, from: nat) returns (p: nat)
    requires from <= |path|
    ensures from <= p <= |path| && (p == |path| || path[p] != SLASH) && Names(path[p..]) == Names(path[from..])
  {
    p := from;
    while p < |path| && path[p] == SLASH
      invariant from <= p <= |path| && Names(path[p..]) == Names(path[from..])
    {
      NamesSkip(path, p);
      p := p + 1;
    }
  }

  /** The loop to the end of a name. */
  method NameEnd(path: seq<byte>, from: nat) returns (p: nat)
    requires from <= |path|
    ensures p == from + NameLength(path[from..])
  {
    p := from;
    while p < |path| && path[p] != SLASH
      invariant from <= p <= |path| && p + NameLength(path[p..]) == from + NameLength(path[from..])
    {
      assert path[p..][1..] == path[p + 1..];
      p := p + 1;
    }
  }

  /** The inode a path names below directory `d`, or 0. */
  ghost function Resolve(v: Vol, d: nat, names: seq<seq<byte>>): nat
    requires Shaped(v)
    decreases names
  {
    if names == [] then d
    else
      var t := Find(v, d, names[0]);
      if |names| == 1 || t == 0 then t else Resolve(v, t, names[1..])
  }

  /** A path leads where its front part leads and its rest from there; one name leads where the directory says. */
  lemma {:induction false} ResolveConcat(v: Vol, d: nat, a: seq<seq<byte>>, b: seq<seq<byte>>)
    requires Shaped(v)
    ensures var t := Resolve(v, d, a);
            Resolve(v, d, a + b) == if t == 0 && a != [] then 0 else Resolve(v, t, b)
    ensures forall name :: Resolve(v, d, [name]) == Find(v, d, name)
    decreases a
  {
    hide Find;
    if a == [] {
      assert a + b == b;
    } else {
      var t, rest := Find(v, d, a[0]), a[1..];
      assert (a + b)[1..] == rest + b && (a + b)[0] == a[0];
      if |a| > 1 && t != 0 {
        ResolveConcat(v, t, rest, b);
      } else if |a| == 1 {
        assert rest + b == b;
      }
    }
  }

  /** The directory that holds a path's last name, or 0 when an earlier name is not bound. */
  ghost function Parent(v: Vol, d: nat, names: seq<seq<byte>>): nat
    requires Shaped(v) && names != []
    decreases names
  {
    if |names| == 1 then d
    else
      var t := Find(v, d, names[0]);
      if t == 0 then 0 else Parent(v, t, names[1..])
  }

  /**
   Where walk with `create` set stands, told in terms of the volume it started on: `below` new directories beneath
   directory `dir`.
   */
  datatype Spot = Spot(dir: nat, below: nat)

  /** One name further: behind a name that is not bound all directories are new, with `.` and `..` bound as usual. */
  ghost function Next(v: Vol, s: Spot, name: seq<byte>): Spot
    requires Shaped(v)
  {
    if s.below == 0 then
      var t := Find(v, s.dir, name);
      if t == 0 then Spot(s.dir, 1) else Spot(t, 0)
    else if name == DOT then s
    else if name == DOTDOT then Spot(s.dir, s.below - 1)
    else Spot(s.dir, s.below + 1)
  }

  /** Where the last name of a path is looked up. */
  ghost function Goal(v: Vol, s: Spot, names: seq<seq<byte>>): Spot
    requires Shaped(v)
    decreases names
  {
    if |names| <= 1 then s else Goal(v, Next(v, s, names[0]), names[1..])
  }

  /** Every existing inode that the names before the last lead through is a directory. */
  ghost predicate Walkable(v: Vol, s: Spot, names: seq<seq<byte>>)
    requires Shaped(v)
    decreases names
  {
    |names| > 1 ==>
      var n := Next(v, s, names[0]);
      (n.below == 0 ==> ValidIno(n.dir) && At(v, n.dir).IsDir()) && Walkable(v, n, names[1..])
  }

  ghost function RootSpot(): Spot { Spot(ROOT_INO, 0) }

  /** No name before the last leads to a file. */
  ghost predicate NoFileBefore(v: Vol, d: nat, names: seq<seq<byte>>)
    requires Shaped(v)
    decreases names
  {
    |names| > 1 ==>
      var t := Find(v, d, names[0]);
      t != 0 ==> ValidIno(t) && At(v, t).IsDir() && NoFileBefore(v, t, names[1..])
  }

  /** For paths without `.` and `..`, such as resolve_path produces, that is all ext2_store needs. */
  lemma {:induction false} PlainPaths(v: Vol, s: Spot, names: seq<seq<byte>>)
    requires Shaped(v) && forall i :: 0 <= i < |names| ==> !Dotted(names[i])
    ensures Walkable(v, s, names) <==> s.below > 0 || NoFileBefore(v, s.dir, names)
    decreases names
  {
    hide Find, Inode.IsDir;
    if |names| > 1 { PlainPaths(v, Next(v, s, names[0]), names[1..]); }
  }

  /** Making a directory and going back up leaves the rest of the path as it was. */
  lemma MadeAndBack(v: Vol, d: nat, name: seq<byte>, rest: seq<seq<byte>>)
    requires Shaped(v) && ValidIno(d) && At(v, d).IsDir() && Find(v, d, name) == 0 && rest != []
    ensures var names := [name, DOTDOT] + rest;
            && Goal(v, Spot(d, 0), names) == Goal(v, Spot(d, 0), rest)
            && (Walkable(v, Spot(d, 0), names) <==> Walkable(v, Spot(d, 0), rest))
  {
    hide Find, Inode.IsDir;
    var names := [name, DOTDOT] + rest;
    assert names[1..] == [DOTDOT] + rest && names[1..][1..] == rest;
    assert Next(v, Next(v, Spot(d, 0), name), DOTDOT) == Spot(d, 0);
    assert Goal(v, Spot(d, 0), names) == Goal(v, Spot(d, 1), names[1..]);
    assert Walkable(v, Spot(d, 0), names) <==> Walkable(v, Spot(d, 1), names[1..]);
  }

  /** A path whose directories all exist ends in its parent. */
  lemma {:induction false} GoalIsParent(v: Vol, d: nat, names: seq<seq<byte>>)
    requires Shaped(v) && names != [] && Parent(v, d, names) != 0
    ensures Goal(v, Spot(d, 0), names) == Spot(Parent(v, d, names), 0)
    decreases names
  {
    hide Find;
    if |names| > 1 { GoalIsParent(v, Find(v, d, names[0]), names[1..]); }
  }

  /** Following `names` from `d` leads to `e`. */
  ghost predicate Reach(v: Vol, d: nat, names: seq<seq<byte>>, e: nat)
    requires Shaped(v)
    decreases names
  {
    if names == [] then d == e else Find(v, d, names[0]) != 0 && Reach(v, Find(v, d, names[0]), names[1..], e)
  }

  lemma {:induction false} ReachMore(v: Vol, d: nat, names: seq<seq<byte>>, e: nat, name: seq<byte>)
    requires Shaped(v) && Reach(v, d, names, e) && Find(v, e, name) != 0
    ensures Reach(v, d, names + [name], Find(v, e, name))
    decreases names
  {
    hide Find;
    if names != [] {
      ReachMore(v, Find(v, d, names[0]), names[1..], e, name);
      assert (names + [name])[1..] == names[1..] + [name];
    } else {
      assert (names + [name])[1..] == [];
    }
  }

  lemma {:induction false} ReachSplits(v: Vol, d: nat, names: seq<seq<byte>>, e: nat, rest: seq<seq<byte>>)
    requires Shaped(v) && Reach(v, d, names, e) && rest != []
    ensures Resolve(v, d, names + rest) == Resolve(v, e, rest) && Parent(v, d, names + rest) == Parent(v, e, rest)
    decreases names
  {
    hide Find;
    if names == [] {
      assert names + rest == rest;
    } else {
      ReachSplits(v, Find(v, d, names[0]), names[1..], e, rest);
      assert (names + rest)[1..] == names[1..] + rest;
    }
  }

  /**
   Bindings of `v` hold in `v'`, and every allocated inode but `except` keeps its type and, if a file, its
   contents.
   */
  ghost predicate Frame(v: Vol, v': Vol, except: nat) {
    && Shaped(v) && Shaped(v') && v'.total == v.total
    && (forall d, name :: Find(v, d, name) != 0 ==> Find(v', d, name) == Find(v, d, name))
    && (forall q :: 1 <= q <= INODES && q != except && v.inodeUsed[q - 1] ==> FrameInode(v, v', q))
  }

  ghost predicate FrameInode(v: Vol, v': Vol, q: nat)
    requires Shaped(v) && Shaped(v') && ValidIno(q)
  {
    && v'.inodeUsed[q - 1] && At(v', q).IsDir() == At(v, q).IsDir()
    && (!At(v, q).IsDir() ==> Kept(v, v', q))
  }

  lemma FrameSelf(v: Vol, except: nat)
    requires Shaped(v)
    ensures Frame(v, v, except)
  {
    hide Find, Owned;
  }

  lemma FrameTransitive(v: Vol, v1: Vol, v2: Vol, except: nat)
    requires Frame(v, v1, except) && Frame(v1, v2, except)
    ensures Frame(v, v2, except)
  {
    hide Find, Owned, Inode.IsDir, Kept;
    forall q | 1 <= q <= INODES && q != except && v.inodeUsed[q - 1] ensures FrameInode(v, v2, q) {
      assert FrameInode(v, v1, q) && FrameInode(v1, v2, q);
      if !At(v, q).IsDir() { KeptTransitive(v, v1, v2, q); }
    }
  }

  /** A framed change keeps what every path resolves to. */
  lemma {:induction false} ResolveKept(v: Vol, v': Vol, except: nat, d: nat, names: seq<seq<byte>>)
    requires Frame(v, v', except) && Resolve(v, d, names) != 0
    ensures Resolve(v', d, names) == Resolve(v, d, names)
    decreases names
  {
    hide Find, FrameInode;
    if names != [] && |names| > 1 { ResolveKept(v, v', except, Find(v, d, names[0]), names[1..]); }
  }

  lemma {:induction false} ReachKept(v: Vol, v': Vol, except: nat, d: nat, names: seq<seq<byte>>, e: nat)
    requires Frame(v, v', except) && Reach(v, d, names, e)
    ensures Reach(v', d, names, e)
    decreases names
  {
    hide Find, FrameInode;
    if names != [] { ReachKept(v, v', except, Find(v, d, names[0]), names[1..], e); }
  }

  lemma {:induction false} ParentStays(v: Vol, v': Vol, except: nat, d: nat, names: seq<seq<byte>>)
    requires Frame(v, v', except) && names != [] && Parent(v, d, names) != 0
    ensures Parent(v', d, names) == Parent(v, d, names)
    decreases names
  {
    hide Find, FrameInode;
    if |names| > 1 { ParentStays(v, v', except, Find(v, d, names[0]), names[1..]); }
  }

  lemma FrameWeaken(v: Vol, v': Vol, except: nat)
    requires Frame(v, v', 0)
    ensures Frame(v, v', except)
  {
    hide Find, FrameInode;
  }

  /**
   A framed change keeps every other file: a path that resolved to a file still resolves to it, and the
   file reads as before.
   */
  lemma OtherFilesKept(v: Vol, v': Vol, except: nat, names: seq<seq<byte>>)
    requires Inv(v) && Frame(v, v', except) && names != []
    requires var q := Resolve(v, ROOT_INO, names); q != 0 && q != except && ValidIno(q) && !At(v, q).IsDir()
    ensures var q := Resolve(v, ROOT_INO, names);
            && Resolve(v', ROOT_INO, names) == q && !At(v', q).IsDir() && At(v', q) == At(v, q)
            && Readable(v', At(v', q)) == Readable(v, At(v, q))
            && (Readable(v, At(v, q)) ==> Content(v', At(v', q)) == Content(v, At(v, q)))
  {
    hide Find, Inode.IsDir, Readable, Content, Counted, AllOwnWell, Apart, DirsOk, RefsUnique, FreeZero, Owned, Resolve;
    ResolveKept(v, v', except, ROOT_INO, names);
    ResolvedSettled(v, names);
    var q := Resolve(v, ROOT_INO, names);
    assert FrameInode(v, v', q);
    KeptReads(v, v', q);
  }

  /** A set of allocated inodes that contains whatever a member binds. */
  ghost predicate Closed(v: Vol, s: set<nat>)
    requires Shaped(v)
  {
    && (forall d :: d in s ==> Settled(v, d))
    && forall d, nm :: d in s && Find(v, d, nm) != 0 ==> Find(v, d, nm) in s
  }

  /** The directories below the root and all named files form such a set. */
  lemma RootClosed(v: Vol) returns (s: set<nat>)
    requires Inv(v)
    ensures Closed(v, s) && ROOT_INO in s
  {
    hide Find, Counted, AllOwnWell, Apart, DirsOk, RefsUnique, FreeZero, Inode.IsDir;
    var tree: set<nat> :| Tree(v, tree);
    s := tree + set q: nat | 1 <= q <= INODES && Settled(v, q) && !At(v, q).IsDir();
    forall d, nm | d in s && Find(v, d, nm) != 0 ensures Find(v, d, nm) in s {
      if d in tree { assert TreeRef(v, tree, d, nm); } else { FilesBindNothing(v, d, nm); }
    }
  }

  lemma FilesBindNothing(v: Vol, d: nat, nm: seq<byte>)
    requires Shaped(v) && ValidIno(d) && !At(v, d).IsDir()
    ensures Find(v, d, nm) == 0
  {
  }

  lemma {:induction false} ResolvedIn(v: Vol, s: set<nat>, d: nat, names: seq<seq<byte>>)
    requires Shaped(v) && Closed(v, s) && d in s
    ensures Resolve(v, d, names) != 0 ==> Resolve(v, d, names) in s
    decreases names
  {
    hide Find;
    if |names| > 1 && Find(v, d, names[0]) != 0 { ResolvedIn(v, s, Find(v, d, names[0]), names[1..]); }
  }

  /** What a path resolves to is an allocated inode. */
  lemma ResolvedSettled(v: Vol, names: seq<seq<byte>>)
    requires Inv(v) && Resolve(v, ROOT_INO, names) != 0
    ensures Settled(v, Resolve(v, ROOT_INO, names))
  {
    hide Find, Counted, AllOwnWell, Apart, DirsOk, RefsOk, RefsUnique, FreeZero, Resolve;
    var s := RootClosed(v);
    ResolvedIn(v, s, ROOT_INO, names);
  }

  lemma {:induction false} ParentInTree(v: Vol, tree: set<nat>, d: nat, names: seq<seq<byte>>)
    requires Shaped(v) && Tree(v, tree) && d in tree && names != [] && Resolve(v, d, names) != 0
    ensures Parent(v, d, names) in tree && Find(v, Parent(v, d, names), names[|names| - 1]) == Resolve(v, d, names)
    decreases names
  {
    hide Find, Inode.IsDir, Dotted;
    if |names| > 1 {
      var t := Find(v, d, names[0]);
      assert TreeRef(v, tree, d, names[0]);
      if !At(v, t).IsDir() { FileEnds(v, t, names[1..]); }
      ParentInTree(v, tree, t, names[1..]);
    }
  }

  lemma FileEnds(v: Vol, t: nat, names: seq<seq<byte>>)
    requires Shaped(v) && ValidIno(t) && !At(v, t).IsDir() && names != []
    ensures Resolve(v, t, names) == 0
  {
    hide Find;
    FilesBindNothing(v, t, names[0]);
  }

  /** A path to a file ends in a name other than `.` and `..`, and those lead elsewhere. */
  lemma FileBound(v: Vol, names: seq<seq<byte>>)
    requires Inv(v) && names != []
    requires var t := Resolve(v, ROOT_INO, names); t != 0 && ValidIno(t) && !At(v, t).IsDir()
    ensures var t, parent := Resolve(v, ROOT_INO, names), Parent(v, ROOT_INO, names);
            && Settled(v, t) && DotsElsewhere(v, parent, t) && Find(v, parent, names[|names| - 1]) == t
            && !Dotted(names[|names| - 1])
  {
    hide Find, Counted, AllOwnWell, Apart, DirsOk, RefsUnique, FreeZero, Resolve, Parent, Inode.IsDir, Dotted;
    ResolvedSettled(v, names);
    var tree :| Tree(v, tree);
    ParentInTree(v, tree, ROOT_INO, names);
    var parent := Parent(v, ROOT_INO, names);
    forall nm | Dotted(nm) ensures Find(v, parent, nm) != Resolve(v, ROOT_INO, names) {
      assert TreeRef(v, tree, parent, nm);
    }
  }

  /** The last name is looked up in the parent. */
  lemma {:induction false} ResolveInParent(v: Vol, d: nat, names: seq<seq<byte>>)
    requires Shaped(v) && names != []
    ensures Resolve(v, d, names) == if Parent(v, d, names) == 0 && |names| > 1 then 0
            else Find(v, Parent(v, d, names), names[|names| - 1])
    decreases names
  {
    hide Find;
    if |names| > 1 {
      var t := Find(v, d, names[0]);
      if t != 0 {
        ResolveInParent(v, t, names[1..]);
        if |names| == 2 { assert names[1..][0] == names[1]; }
      }
    }
  }

  // ----------------------------------------------------- what allocation keeps

  lemma AllocInodeKeeps(v: Vol)
    requires Inv(v)
    ensures var (v', t) := AllocInode(v);
            && Inv(v') && SameFinds(v, v') && v' == v.(inodeUsed := v'.inodeUsed, freeInodes := v'.freeInodes,
               groupInodes := v'.groupInodes)
            && (t == 0 ==> v' == v)
            && (t != 0 ==>
                  && 10 < t <= INODES && !v.inodeUsed[t - 1] && v'.inodeUsed == v.inodeUsed[t - 1 := true]
                  && Unref(v', t) && At(v', t) == ZeroInode() && !At(v', t).IsDir())
  {
    hide FirstClear, AllOwnWell, Apart, DirsOk, RefsOk, RefsUnique, FreeZero, Find, Inode.IsDir, ZeroInode, DirOk,
         Clear;
    var (v', t) := AllocInode(v);
    AllocInodeCounted(v);
    InodeBitsKeep(v, v');
    if t != 0 {
      FreeInodeUnref(v, t);
      UnrefSame(v, v', t);
    }
  }

  lemma AllocBlockKeeps(v: Vol)
    requires Inv(v)
    ensures var (v', x) := AllocBlock(v);
            && Inv(v') && SameFinds(v, v') && v' == v.(used := v'.used, freeBlocks := v'.freeBlocks,
               groupBlocks := v'.groupBlocks)
            && (x == 0 ==> v' == v)
            && (x != 0 ==> FIRST_DATA < x < v.total && !v.used[x] && v'.used == v.used[x := true] && Unowned(v', x))
  {
    hide FirstClear, AllOwnWell, Apart, DirsOk, RefsOk, RefsUnique, FreeZero, Find, DirOk, Clear, Unowned, Raw;
    var (v', x) := AllocBlock(v);
    AllocBlockCounted(v);
    BitsKeep(v, v');
    if x != 0 {
      GrownStart(v);
      GrowAlloc(v, v, {});
      GrownUnowned(v, v', {} + {x}, x);
    }
  }

  /** Changes confined to free blocks and free inodes are framed. */
  lemma FrameSame(v: Vol, v': Vol)
    requires Inv(v) && Shaped(v') && v'.total == v.total && SameFinds(v, v') && v'.inodes == v.inodes
    requires forall i :: 0 <= i < INODES && v.inodeUsed[i] ==> v'.inodeUsed[i]
    requires forall x :: 0 <= x < MAX_BLOCKS && v.used[x] ==> v'.data[x] == v.data[x]
    ensures Frame(v, v', 0)
  {
    hide Find, DirOk, Counted, Apart, DirsOk, RefsOk, RefsUnique, FreeZero, Raw, NoRepeat, Owned, Inode.IsDir;
    forall q | 1 <= q <= INODES && v.inodeUsed[q - 1] ensures FrameInode(v, v', q)
      { assert OwnsWell(v, v.inodes[q - 1]); }
  }

  /** Making a directory below `parent` touches only the new inode, the parent and free blocks. */
  lemma FrameMakeDir(v: Vol, v': Vol, t: nat, parent: nat)
    requires Inv(v) && Shaped(v') && v'.total == v.total && ValidIno(t) && !v.inodeUsed[t - 1] && DirOk(v, parent)
    requires forall d, name :: Find(v, d, name) != 0 ==> Find(v', d, name) == Find(v, d, name)
    requires v'.inodeUsed == v.inodeUsed[t - 1 := true] && At(v', parent).IsDir()
    requires forall q :: 1 <= q <= INODES && q != t && q != parent ==> At(v', q) == At(v, q)
    requires forall x :: 0 <= x < MAX_BLOCKS && v.used[x] && x != At(v, parent).block[0] ==> v'.data[x] == v.data[x]
    ensures Frame(v, v', 0)
  {
    hide Find, Counted, Apart, DirsOk, RefsOk, RefsUnique, FreeZero, Raw, NoRepeat, Owned, Inode.IsDir, Tiled, Good;
    DirBlockOwned(v, parent);
    forall q | 1 <= q <= INODES && v.inodeUsed[q - 1] ensures FrameInode(v, v', q)
      { assert OwnsWell(v, v.inodes[q - 1]); }
  }

  /** A directory is allocated and its block lies inside the volume. */
  lemma UsedDir(v: Vol, d: nat)
    requires Inv(v) && DirOk(v, d)
    ensures ValidIno(d) && v.inodeUsed[d - 1] && At(v, d).IsDir() && 0 < At(v, d).block[0] < v.total && Unreserved(d)
  {
    hide AllOwnWell, Apart, Counted, RefsOk, RefsUnique, Tiled, Good, ZeroInode;
    ZeroDecodes();
  }
}
