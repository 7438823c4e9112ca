/**
 File contents and the allocation of their blocks: what file_block and ext2_load read, what
 write_new_blocks adds to a volume and what release_blocks takes away.
 */
module Ext2Files {
  import opened Bytes
  import opened Bits
  import opened Ext2Layout
  import opened Ext2Volume

  // ----------------------------------------------------------------- contents

  /** file_block: the block that holds block `i` of the file, or 0. */
  function FileBlock(v: Vol, n: Inode, i: nat): nat
    requires Shaped(v) && |n.block| == 15
  {
    if i < 12 then n.block[i]
    else if i >= MAX_FILE_BLOCKS || n.block[12] == 0 || n.block[12] >= v.total then 0
    else U32(v.data[n.block[12]], (i - 12) * 4)
  }

  /** Number of blocks a file of `size` bytes occupies. */
  function BlockCount(size: nat): nat { (size + BS - 1) / BS }

  /** Every block of the file is mapped inside the volume. */
  ghost predicate Readable(v: Vol, n: Inode)
    requires Shaped(v) && |n.block| == 15
  {
    forall i :: 0 <= i < BlockCount(n.size) ==> 0 < FileBlock(v, n, i) < v.total
  }

  /** The bytes of a readable file. */
  ghost function Content(v: Vol, n: Inode): (s: seq<byte>)
    requires Shaped(v) && |n.block| == 15 && Readable(v, n)
    ensures |s| == n.size
  {
    seq(n.size, p requires 0 <= p < n.size => ByteAt(v, n, p))
  }

  ghost function ByteAt(v: Vol, n: Inode, p: nat): byte
    requires Shaped(v) && |n.block| == 15 && Readable(v, n) && p < n.size
  {
    assert p / BS < BlockCount(n.size);
    v.data[FileBlock(v, n, p / BS)][p % BS]
  }

  /** Inode `q` and the contents of every block it owns are the same in both volumes. */
  ghost predicate Kept(v: Vol, v': Vol, q: nat)
    requires Shaped(v) && Shaped(v') && ValidIno(q)
  {
    At(v', q) == At(v, q) && forall x :: x in Owned(v.data, At(v, q)) && x < MAX_BLOCKS ==> v'.data[x] == v.data[x]
  }

  lemma KeptOwned(v: Vol, v': Vol, q: nat)
    requires Shaped(v) && Shaped(v') && ValidIno(q) && Kept(v, v', q)
    ensures Raw(v'.data, At(v', q)) == Raw(v.data, At(v, q)) && Owned(v'.data, At(v', q)) == Owned(v.data, At(v, q))
  {
    hide Raw, Owned;
    IndirectOwned(v.data, At(v, q));
    RawSame(v.data, v'.data, At(v, q));
  }

  lemma KeptTransitive(v: Vol, v1: Vol, v2: Vol, q: nat)
    requires Shaped(v) && Shaped(v1) && Shaped(v2) && ValidIno(q) && Kept(v, v1, q) && Kept(v1, v2, q)
    ensures Kept(v, v2, q)
  {
    hide Raw, Owned;
    KeptOwned(v, v1, q);
  }

  /** Mapped blocks are owned. */
  lemma FileBlockOwned(v: Vol, n: Inode, i: nat)
    requires Shaped(v) && |n.block| == 15 && FileBlock(v, n, i) != 0
    ensures FileBlock(v, n, i) in Owned(v.data, n)
  {
    hide U32;
    var raw := Raw(v.data, n);
    if i < 12 { assert raw[i] == n.block[i]; } else { assert raw[i] == Words(v.data[n.block[12]])[i - 12]; }
  }

  /** A kept file reads the same. */
  lemma KeptReads(v: Vol, v': Vol, q: nat)
    requires Shaped(v) && Shaped(v') && v'.total == v.total && ValidIno(q) && Kept(v, v', q)
    ensures Readable(v', At(v', q)) == Readable(v, At(v, q))
    ensures Readable(v, At(v, q)) ==> Content(v', At(v', q)) == Content(v, At(v, q))
  {
    hide Raw, Owned;
    var n := At(v, q);
    IndirectOwned(v.data, n);
    forall i: nat ensures FileBlock(v', n, i) == FileBlock(v, n, i) { }
    if Readable(v, n) {
      forall p: nat | p < n.size ensures ByteAt(v', n, p) == ByteAt(v, n, p) { FileBlockOwned(v, n, p / BS); }
    }
  }

  // -------------------------------------------------------- growing a volume

  /**
   `v` is `v0` with the blocks of `s`, all free in `v0`, newly marked; only blocks free in `v0`
   may have other contents.
   */
  ghost predicate Grown(v0: Vol, v: Vol, s: set<nat>) {
    && Inv(v0) && Inv(v)
    && v == v0.(used := v.used, freeBlocks := v.freeBlocks, groupBlocks := v.groupBlocks, data := v.data)
    && (forall x :: x in s ==> FIRST_DATA < x < v0.total && !v0.used[x])
    && (forall x :: 0 <= x < MAX_BLOCKS ==> v.used[x] == (v0.used[x] || x in s))
    && (forall x :: 0 <= x < MAX_BLOCKS && v0.used[x] ==> v.data[x] == v0.data[x])
    && SameFinds(v0, v)
    && (forall i :: 0 <= i < INODES ==> Raw(v.data, v.inodes[i]) == Raw(v0.data, v0.inodes[i]))
  }

  lemma GrownStart(v: Vol)
    requires Inv(v)
    ensures Grown(v, v, {})
  {
  }

  /** A new block is one that was free, so nobody owns it. */
  lemma GrownUnowned(v0: Vol, v: Vol, s: set<nat>, x: nat)
    requires Grown(v0, v, s) && (x in s || (x < MAX_BLOCKS && !v.used[x]))
    ensures x < MAX_BLOCKS && Unowned(v, x)
  {
    hide Raw, NoRepeat, SameFinds, Counted, DirsOk, RefsOk, RefsUnique, FreeZero, Apart;
    forall i | 0 <= i < INODES ensures x !in Owned(v.data, v.inodes[i]) {
      assert OwnsWell(v0, v0.inodes[i]);
      assert Owned(v.data, v.inodes[i]) == Owned(v0.data, v0.inodes[i]);
    }
  }

  lemma GrowAlloc(v0: Vol, v: Vol, s: set<nat>)
    requires Grown(v0, v, s)
    ensures var (v', x) := AllocBlock(v);
            x != 0 ==> x !in s && Grown(v0, v', s + {x})
  {
    hide Raw, NoRepeat, Counted, DirsOk, RefsOk, RefsUnique, FreeZero, Apart, AllOwnWell, FirstClear, Find, DirOk;
    var (v', x) := AllocBlock(v);
    AllocBlockCounted(v);
    if x != 0 { BitsKeep(v, v'); }
  }

  lemma GrowWrite(v0: Vol, v: Vol, s: set<nat>, x: nat, b: seq<byte>)
    requires Grown(v0, v, s) && x in s && |b| == BS
    ensures x < |v.data| && Grown(v0, v.(data := v.data[x := b]), s)
  {
    hide Raw, NoRepeat, Counted, DirsOk, RefsOk, RefsUnique, FreeZero, Apart, AllOwnWell, Find, DirOk, Unowned;
    GrownUnowned(v0, v, s, x);
    DataKeeps(v, x, b);
  }

  lemma GrowFree(v0: Vol, v: Vol, s: set<nat>, x: nat)
    requires Grown(v0, v, s) && x in s
    ensures x < |v.used| && Grown(v0, FreeBlock(v, x), s - {x})
  {
    hide Raw, NoRepeat, Counted, DirsOk, RefsOk, RefsUnique, FreeZero, Apart, AllOwnWell, Find, DirOk, Unowned;
    GrownUnowned(v0, v, s, x);
    FreeBlockCounted(v, x);
    BitsKeep(v, FreeBlock(v, x));
  }

  /** A volume grown by nothing has its bitmaps and counts back. */
  lemma GrownNothing(v0: Vol, v: Vol)
    requires Grown(v0, v, {})
    ensures v == v0.(data := v.data)
  {
    assert v.used == v0.used;
  }

  // ------------------------------------------------------ releasing pointers

  /** release_blocks on a list of pointers: every nonzero one is freed. */
  function FreeAll(v: Vol, ps: seq<nat>): (r: Vol)
    requires |v.used| == MAX_BLOCKS && forall i :: 0 <= i < |ps| ==> ps[i] < MAX_BLOCKS
    ensures |r.used| == MAX_BLOCKS
    decreases ps
  {
    if ps == [] then v else FreeAll(if ps[0] == 0 then v else FreeBlock(v, ps[0]), ps[1..])
  }

  lemma {:induction false} FreeAllAppend(v: Vol, a: seq<nat>, b: seq<nat>)
    requires |v.used| == MAX_BLOCKS
    requires (forall i :: 0 <= i < |a| ==> a[i] < MAX_BLOCKS) && (forall i :: 0 <= i < |b| ==> b[i] < MAX_BLOCKS)
    ensures FreeAll(v, a + b) == FreeAll(FreeAll(v, a), b)
    decreases a
  {
    if a == [] {
      assert a + b == b;
    } else {
      assert (a + b)[1..] == a[1..] + b;
      FreeAllAppend(if a[0] == 0 then v else FreeBlock(v, a[0]), a[1..], b);
    }
  }

  ghost function Nonzero(ps: seq<nat>): set<nat> { set x | x in ps && x != 0 }

  /** Releasing pointers that are all different and all newly marked. */
  lemma {:induction false} GrowFreeAll(v0: Vol, v: Vol, s: set<nat>, ps: seq<nat>)
    requires Grown(v0, v, s) && NoRepeat(ps) && Nonzero(ps) <= s
    ensures forall i :: 0 <= i < |ps| ==> ps[i] < MAX_BLOCKS
    ensures |v.used| == MAX_BLOCKS && Grown(v0, FreeAll(v, ps), s - Nonzero(ps))
    decreases ps
  {
    hide Grown, FreeBlock;
    InNonzero(v0, v, s, ps);
    if ps == [] {
      assert s - Nonzero(ps) == s;
    } else {
      var rest := ps[1..];
      assert forall x :: x in rest ==> x in ps;
      assert NoRepeat(rest);
      if ps[0] == 0 {
        assert Nonzero(ps) == Nonzero(rest);
        GrowFreeAll(v0, v, s, rest);
      } else {
        assert ps[0] in ps;
        GrowFree(v0, v, s, ps[0]);
        assert ps[0] !in Nonzero(rest);
        assert Nonzero(ps) == {ps[0]} + Nonzero(rest);
        GrowFreeAll(v0, FreeBlock(v, ps[0]), s - {ps[0]}, rest);
        assert s - {ps[0]} - Nonzero(rest) == s - Nonzero(ps);
      }
    }
  }

  lemma InNonzero(v0: Vol, v: Vol, s: set<nat>, ps: seq<nat>)
    requires Grown(v0, v, s) && Nonzero(ps) <= s
    ensures |v.used| == MAX_BLOCKS && forall i :: 0 <= i < |ps| ==> ps[i] < MAX_BLOCKS
  {
    forall i | 0 <= i < |ps| ensures ps[i] < MAX_BLOCKS { assert ps[i] == 0 || ps[i] in Nonzero(ps); }
  }

  // ------------------------------------------------------- a file being written

  /** The inode maps the data blocks `fb` through direct pointers and, past twelve, indirect block `ib`. */
  ghost predicate Filled(n: Inode, fb: seq<nat>, ib: nat) {
    && |n.block| == 15 && |fb| <= MAX_FILE_BLOCKS
    && (forall k :: 0 <= k < 12 ==> n.block[k] == if k < |fb| then fb[k] else 0)
    && n.block[12] == ib && n.block[13] == 0 && n.block[14] == 0
  }

  /** The indirect block lists the data blocks from the thirteenth on. */
  ghost predicate Lists(b: seq<byte>, fb: seq<nat>) {
    |b| == BS && forall j :: 0 <= j < INDIRECT_ENTRIES ==> Words(b)[j] == if 12 + j < |fb| then fb[12 + j] else 0
  }

  /** The blocks of a file being written: its data blocks and, once there is one, the indirect block. */
  ghost function Blocks(fb: seq<nat>, ib: nat): set<nat> { Nonzero(fb) + if ib == 0 then {} else {ib} }

  ghost predicate AllDistinct(fb: seq<nat>) {
    (forall i :: 0 <= i < |fb| ==> fb[i] != 0) && forall i, j :: 0 <= i < j < |fb| ==> fb[i] != fb[j]
  }

  /** The inode, its data blocks and its indirect block agree. */
  ghost predicate Mapped(data: seq<seq<byte>>, n: Inode, fb: seq<nat>, ib: nat) {
    && Filled(n, fb, ib) && AllDistinct(fb) && ib !in fb && (|fb| > 12 ==> ib != 0)
    && (ib != 0 ==> ib < |data| && Lists(data[ib], fb))
  }

  lemma MappedRaw(data: seq<seq<byte>>, n: Inode, fb: seq<nat>, ib: nat)
    requires Mapped(data, n, fb, ib)
    ensures var raw := Raw(data, n);
            && (forall k :: 0 <= k < |fb| ==> k < |raw| && raw[k] == fb[k])
            && (forall k :: |fb| <= k < |raw| ==> raw[k] == if k == |raw| - 1 && ib != 0 then ib else 0)
            && (ib != 0 ==> |raw| == MAX_FILE_BLOCKS + 1)
            && (ib == 0 ==> |raw| == 12)
  {
    hide AllDistinct;
  }

  /** A mapped file points to each of its blocks exactly once. */
  lemma MappedOwned(data: seq<seq<byte>>, n: Inode, fb: seq<nat>, ib: nat)
    requires Mapped(data, n, fb, ib)
    ensures NoRepeat(Raw(data, n)) && Owned(data, n) == Blocks(fb, ib)
  {
    MappedRaw(data, n, fb, ib);
    hide Raw, Filled, Lists;
    var raw := Raw(data, n);
    forall i, j | 0 <= i < j < |raw| && raw[i] == raw[j] ensures raw[i] == 0 { }
    forall x | x in Owned(data, n) ensures x in Blocks(fb, ib) { var k :| 0 <= k < |raw| && raw[k] == x; }
    forall x | x in Blocks(fb, ib) ensures x in Owned(data, n) {
      if x == ib {
        assert raw[|raw| - 1] == ib;
      } else {
        var k :| 0 <= k < |fb| && fb[k] == x;
        assert raw[k] == x;
      }
    }
  }

  /** Block `j` of the data, padded with zeros. */
  function Chunk(bytes: seq<byte>, j: nat): (b: seq<byte>)
    ensures |b| == BS
  {
    seq(BS, k requires 0 <= k < BS => if j * BS + k < |bytes| then bytes[j * BS + k] else 0)
  }

  /** What was written is what file_block and ext2_load read. */
  lemma MappedContent(v: Vol, n: Inode, fb: seq<nat>, ib: nat, bytes: seq<byte>)
    requires Shaped(v) && Mapped(v.data, n, fb, ib) && n.size == |bytes| && |fb| == BlockCount(|bytes|)
    requires forall j :: 0 <= j < |fb| ==> fb[j] < v.total && v.data[fb[j]] == Chunk(bytes, j)
    requires ib < v.total
    ensures Readable(v, n) && Content(v, n) == bytes
  {
    hide U32, AllDistinct, Chunk;
    forall i | 0 <= i < |fb| ensures FileBlock(v, n, i) == fb[i] && fb[i] != 0 {
      assert i >= 12 ==> Words(v.data[ib])[i - 12] == fb[i];
      Distinctness(fb, i);
    }
    forall p: nat | p < n.size ensures ByteAt(v, n, p) == bytes[p] { ChunkAt(bytes, p); }
  }

  lemma Distinctness(fb: seq<nat>, i: nat)
    requires AllDistinct(fb) && i < |fb|
    ensures fb[i] != 0
  {
  }

  lemma ChunkAt(bytes: seq<byte>, p: nat)
    requires p < |bytes|
    ensures Chunk(bytes, p / BS)[p % BS] == bytes[p] && p / BS < BlockCount(|bytes|)
  {
  }

  /** One more direct block. */
  lemma MapDirect(data: seq<seq<byte>>, data': seq<seq<byte>>, n: Inode, fb: seq<nat>, x: nat)
    requires Mapped(data, n, fb, 0) && |fb| < 12 && x != 0 && x !in fb
    ensures Mapped(data', n.(block := n.block[|fb| := x]), fb + [x], 0)
  {
  }

  /** A fresh, empty indirect block. */
  lemma MapStart(data: seq<seq<byte>>, data': seq<seq<byte>>, n: Inode, fb: seq<nat>, ib: nat)
    requires Mapped(data, n, fb, 0) && |fb| == 12 && ib != 0 && ib !in fb && ib < |data'| && data'[ib] == Zeros(BS)
    ensures Mapped(data', n.(block := n.block[12 := ib]), fb, ib)
  {
    ZeroLists(fb);
  }

  lemma ZeroLists(fb: seq<nat>)
    requires |fb| <= 12
    ensures Lists(Zeros(BS), fb)
  {
    hide Le;
    LeZero(4);
    var z := Zeros(BS);
    forall j | 0 <= j < INDIRECT_ENTRIES ensures Words(z)[j] == 0 { assert z[4 * j..4 * j + 4] == Zeros(4); }
  }

  /** One more block through the indirect block. */
  lemma MapIndirect(data: seq<seq<byte>>, data': seq<seq<byte>>, n: Inode, fb: seq<nat>, ib: nat, x: nat)
    requires Mapped(data, n, fb, ib) && ib != 0 && 12 <= |fb| < MAX_FILE_BLOCKS && x != 0 && x !in fb && x != ib
             && x < 0x1_0000_0000
    requires ib < |data'| && data'[ib] == W32(data[ib], (|fb| - 12) * 4, x)
    ensures Mapped(data', n, fb + [x], ib)
  {
    hide W32, U32;
    WordUpdate(data[ib], |fb| - 12, x);
  }

  // ------------------------------------------------- releasing and rolling back

  /** `r` is `v` with the blocks of `ps` released. */
  ghost predicate Freed(v: Vol, r: Vol, ps: seq<nat>) {
    && |v.used| == |r.used| == MAX_BLOCKS
    && Counted(r) && r == v.(used := r.used, freeBlocks := r.freeBlocks, groupBlocks := r.groupBlocks)
    && forall x :: 0 <= x < MAX_BLOCKS ==> r.used[x] == (v.used[x] && x !in Nonzero(ps))
  }

  /** Releasing distinct marked blocks clears exactly their bits, and the counts follow. */
  lemma {:induction false} FreeAllCounted(v: Vol, ps: seq<nat>)
    requires Counted(v) && NoRepeat(ps)
    requires forall i :: 0 <= i < |ps| ==> ps[i] == 0 || (FIRST_DATA < ps[i] < v.total && v.used[ps[i]])
    ensures forall i :: 0 <= i < |ps| ==> ps[i] < MAX_BLOCKS
    ensures Freed(v, FreeAll(v, ps), ps)
    decreases ps
  {
    hide Clear, Counted, FreeBlock, Freed, NoRepeat;
    CountedShape(v);
    if ps == [] {
      FreedNothing(v);
    } else if ps[0] == 0 {
      RestIs(ps);
      FreeAllCounted(v, ps[1..]);
      FreedFirst(v, v, FreeAll(v, ps[1..]), ps);
    } else {
      RestIs(ps);
      FreeBlockCounted(v, ps[0]);
      BlockFreed(v, ps[0]);
      FreeAllCounted(FreeBlock(v, ps[0]), ps[1..]);
      FreedFirst(v, FreeBlock(v, ps[0]), FreeAll(v, ps), ps);
    }
  }

  lemma FreedNothing(v: Vol)
    requires Counted(v)
    ensures Freed(v, v, [])
  {
    hide Clear;
  }

  lemma RestIs(ps: seq<nat>)
    requires NoRepeat(ps) && ps != []
    ensures NoRepeat(ps[1..]) && forall i :: 0 <= i < |ps[1..]| ==>
              ps[1..][i] == ps[i + 1] && (ps[0] != 0 ==> ps[1..][i] != ps[0])
  {
  }

  lemma BlockFreed(v: Vol, x: nat)
    requires x < |v.used| == MAX_BLOCKS
    ensures var r := FreeBlock(v, x);
            r == v.(used := v.used[x := false], freeBlocks := r.freeBlocks, groupBlocks := r.groupBlocks)
  {
  }

  lemma FreedFirst(v: Vol, v1: Vol, r: Vol, ps: seq<nat>)
    requires ps != [] && Freed(v1, r, ps[1..]) && |v.used| == MAX_BLOCKS
    requires v1 == v.(used := v1.used, freeBlocks := v1.freeBlocks, groupBlocks := v1.groupBlocks)
    requires if ps[0] == 0 then v1 == v else ps[0] < MAX_BLOCKS && v1.used == v.used[ps[0] := false]
    ensures Freed(v, r, ps)
  {
    hide Counted;
    var rest := ps[1..];
    assert forall x :: x in rest ==> x in ps;
    assert Nonzero(ps) == Nonzero(rest) + if ps[0] == 0 then {} else {ps[0]};
  }

  lemma CountedShape(v: Vol)
    requires Counted(v)
    ensures |v.used| == MAX_BLOCKS && v.total <= MAX_BLOCKS
  {
  }

  /** Counted volumes with the same bitmaps have the same counts. */
  lemma CountsFollow(v: Vol, v': Vol)
    requires Counted(v) && Counted(v') && v'.used == v.used && v'.inodeUsed == v.inodeUsed
    ensures v'.freeBlocks == v.freeBlocks && v'.groupBlocks == v.groupBlocks
    ensures v'.freeInodes == v.freeInodes && v'.groupInodes == v.groupInodes
  {
  }

  /** Contents of free blocks are nobody's business. */
  lemma FreeDataKeeps(v: Vol, v': Vol)
    requires Inv(v) && Shaped(v') && v' == v.(data := v'.data)
    requires forall x :: 0 <= x < MAX_BLOCKS && v.used[x] ==> v'.data[x] == v.data[x]
    ensures Inv(v') && SameFinds(v, v')
    ensures forall i :: 0 <= i < INODES ==> Raw(v'.data, v.inodes[i]) == Raw(v.data, v.inodes[i])
  {
    hide Raw, Owned, NoRepeat, DirOk, Find, Inode.IsDir, Inode.Fits, Counted, RefsOk, RefsUnique, DirsOk, SameFinds;
    forall i | 0 <= i < INODES
      ensures Raw(v'.data, v.inodes[i]) == Raw(v.data, v.inodes[i])
              && Owned(v'.data, v.inodes[i]) == Owned(v.data, v.inodes[i])
    {
      assert OwnsWell(v, v.inodes[i]);
      IndirectOwned(v.data, v.inodes[i]);
      RawSame(v.data, v'.data, v.inodes[i]);
    }
    forall d | 1 <= d <= INODES ensures DirSame(v, v', d) {
      assert OwnsWell(v, v.inodes[d - 1]);
      IndirectOwned(v.data, v.inodes[d - 1]);
    }
    FindsSame(v, v');
    RefsSame(v, v');
    DirsSame(v, v');
    CountedSame(v, v');
    forall i | 0 <= i < INODES ensures OwnsWell(v', v'.inodes[i]) { OwnsStill(v, v', i); }
  }

  lemma GrownShape(v0: Vol, v: Vol, s: set<nat>)
    requires Grown(v0, v, s)
    ensures Inv(v0) && Inv(v) && Shaped(v) && v.total == v0.total && v.inodes == v0.inodes
            && v.inodeUsed == v0.inodeUsed
    ensures v == v0.(used := v.used, freeBlocks := v.freeBlocks, groupBlocks := v.groupBlocks, data := v.data)
    ensures forall x :: x in s ==> FIRST_DATA < x < v.total <= MAX_BLOCKS
    ensures |v.data| == MAX_BLOCKS && v.total <= MAX_BLOCKS && forall x :: 0 <= x < MAX_BLOCKS ==> |v.data[x]| == BS
  {
    hide Counted, AllOwnWell, Apart, DirsOk, RefsOk, RefsUnique, FreeZero, SameFinds, Raw;
  }

  /** write_new_blocks succeeded: fresh blocks, all of them mapped by `n'`, hold the data. */
  ghost predicate Written(v0: Vol, v: Vol, n: Inode, n': Inode, fb: seq<nat>, bytes: seq<byte>)
    requires |n'.block| == 15
  {
    var ib := n'.block[12];
    && Grown(v0, v, Blocks(fb, ib)) && Mapped(v.data, n', fb, ib) && |fb| == BlockCount(|bytes|)
    && |v.data| == MAX_BLOCKS && (forall j :: 0 <= j < |fb| ==> fb[j] < MAX_BLOCKS && v.data[fb[j]] == Chunk(bytes, j))
    && n' == n.(block := n'.block, blocks := n.blocks + 8 * Need(|bytes|))
  }

  // ------------------------------------------------------------- running out

  /** Blocks a file of `size` bytes takes: its data blocks and, past twelve, the indirect block. */
  function Need(size: nat): nat { BlockCount(size) + if BlockCount(size) > 12 then 1 else 0 }

  /** Setting the clear bits of `s` leaves |s| fewer clear. */
  lemma {:induction false} ClearMinus(bits: seq<bool>, bits': seq<bool>, s: set<nat>)
    requires |bits'| == |bits| && (forall x :: x in s ==> x < |bits| && !bits[x])
    requires forall i :: 0 <= i < |bits| ==> bits'[i] == (bits[i] || i in s)
    ensures Clear(bits') + |s| == Clear(bits)
    decreases s
  {
    hide Clear;
    if s == {} {
      assert bits' == bits;
    } else {
      var x :| x in s;
      ClearMinus(bits, bits'[x := false], s - {x});
      ClearFlip(bits', x, false);
    }
  }

  lemma GrownCount(v0: Vol, v: Vol, s: set<nat>)
    requires Grown(v0, v, s)
    ensures v.freeBlocks + |s| == v0.freeBlocks
  {
    hide AllOwnWell, Apart, DirsOk, RefsOk, RefsUnique, FreeZero, SameFinds, Raw, Clear;
    ClearMinus(v0.used, v.used, s);
  }

  lemma {:induction false} DistinctCount(fb: seq<nat>)
    requires AllDistinct(fb)
    ensures |Nonzero(fb)| == |fb|
  {
    if fb != [] {
      var k := |fb| - 1;
      DistinctCount(fb[..k]);
      assert fb == fb[..k] + [fb[k]];
      assert Nonzero(fb) == Nonzero(fb[..k]) + {fb[k]};
    }
  }

  lemma BlocksCount(data: seq<seq<byte>>, n: Inode, fb: seq<nat>, ib: nat)
    requires Mapped(data, n, fb, ib)
    ensures |Blocks(fb, ib)| == |fb| + if ib == 0 then 0 else 1
  {
    hide Filled, Lists;
    DistinctCount(fb);
  }

  lemma AllocFull(v: Vol)
    requires Inv(v)
    ensures AllocBlock(v).1 == 0 <==> v.freeBlocks == 0
    ensures AllocInode(v).1 == 0 <==> v.freeInodes == 0
  {
    hide AllOwnWell, Apart, DirsOk, RefsOk, RefsUnique, FreeZero, FirstClear;
    ClearNone(v.used);
    ClearNone(v.inodeUsed);
  }

  lemma {:induction false} ClearNone(bits: seq<bool>)
    ensures Clear(bits) == 0 <==> forall i :: 0 <= i < |bits| ==> bits[i]
  {
    if bits != [] {
      ClearNone(bits[1..]);
      assert forall i :: 0 < i < |bits| ==> bits[i] == bits[1..][i - 1];
    }
  }
}
