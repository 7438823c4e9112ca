/**
 The files of a FAT volume and the three phases of disk_store_large (mini64/kernel.c): the old chain
 freed, a new chain grown from free clusters, the directory entry written.
 */
module FatFiles {
  import opened Bytes
  import opened FatSpec

  ghost predicate Shaped(v: Vol, r: nat) {
    && 3 < |v.fat| <= SECTORS && |v.data| == |v.fat| && 2 <= r < |v.fat| && v.fat[r] != 0
    && forall c :: 0 <= c < |v.data| ==> |v.data[c]| == SECTOR
  }

  /** Slot `i` has a chain exactly when it is live and names a cluster. */
  ghost predicate FileOk(v: Vol, r: nat, chains: seq<seq<nat>>, i: nat)
    requires Shaped(v, r) && |chains| == SLOTS && i < SLOTS
  {
    var root := v.data[r];
    if Live(root, i) && 2 <= First(root, i) < |v.fat|
    then Chain(v.fat, chains[i]) && chains[i][0] == First(root, i)
    else chains[i] == []
  }

  ghost predicate Separate(a: seq<nat>, b: seq<nat>) { forall x :: x in a ==> x !in b }

  /** The volume invariant: disjoint acyclic chains, none through the root directory's cluster. */
  ghost predicate Files(v: Vol, r: nat, chains: seq<seq<nat>>) {
    && Shaped(v, r) && |chains| == SLOTS
    && (forall i :: 0 <= i < SLOTS ==> FileOk(v, r, chains, i))
    && (forall i, j :: 0 <= i < SLOTS && 0 <= j < SLOTS && i != j ==> Separate(chains[i], chains[j]))
    && (forall i :: 0 <= i < SLOTS ==> r !in chains[i])
  }

  lemma FileChain(v: Vol, r: nat, chains: seq<seq<nat>>, i: nat)
    requires Files(v, r, chains) && i < SLOTS
    ensures chains[i] == [] || Chain(v.fat, chains[i])
    ensures InRange(v.fat, chains[i]) && Distinct(chains[i]) && forall k ::
              0 <= k < |chains[i]| ==> v.fat[chains[i][k]] != 0
  {
    hide Live, First, Chain;
    assert FileOk(v, r, chains, i);
    ChainParts(v.fat, chains[i]);
    forall k | 0 <= k < |chains[i]| ensures v.fat[chains[i][k]] != 0 { ChainUsed(v.fat, chains[i], k); }
  }

  lemma ChainParts(fat: seq<nat>, cs: seq<nat>)
    requires cs == [] || Chain(fat, cs)
    ensures InRange(fat, cs) && Distinct(cs)
  {
  }

  // ---------------------------------------------------------- dropping a file

  /** A root sector with slot `i` marked deleted. */
  function Erased(root: seq<byte>, i: nat): (r: seq<byte>)
    requires |root| == SECTOR && i < SLOTS
    ensures |r| == SECTOR
  {
    root[i * 32 := DELETED]
  }

  lemma ErasedSlots(root: seq<byte>, i: nat)
    requires |root| == SECTOR && i < SLOTS
    ensures !Live(Erased(root, i), i)
    ensures forall j :: 0 <= j < SLOTS && j != i ==> Record(Erased(root, i), j) == Record(root, j)
  {
  }

  /** The volume after the old file's clusters are freed and its slot marked. */
  ghost function Dropped(v: Vol, r: nat, chains: seq<seq<nat>>, i: nat): Vol
    requires Files(v, r, chains) && i < SLOTS && InRange(v.fat, chains[i])
  {
    Vol(Freed(v.fat, chains[i]), v.data[r := Erased(v.data[r], i)])
  }

  lemma DropKeeps(v: Vol, r: nat, chains: seq<seq<nat>>, i: nat)
    requires Files(v, r, chains) && i < SLOTS
    ensures InRange(v.fat, chains[i])
    ensures var v' := Dropped(v, r, chains, i);
            && Files(v', r, chains[i := []])
            && Free(v'.fat, 2) == Free(v.fat, 2) + |chains[i]|
            && (forall c :: 0 <= c < |v.fat| && c !in chains[i] ==> v'.fat[c] == v.fat[c])
  {
    hide Live, First, NameAt, Chain, Zeros, Freed, Erased, Record;
    FileChain(v, r, chains, i);
    FreedAt(v.fat, chains[i]);
    FreedCount(v.fat, chains[i]);
    ErasedSlots(v.data[r], i);
    var v', chains' := Dropped(v, r, chains, i), chains[i := []];
    forall j | 0 <= j < SLOTS ensures FileOk(v', r, chains', j) {
      if j != i { StillFile(v, v', r, chains, chains', j); }
    }
    forall j | 0 <= j < SLOTS && j != i ensures Live(v'.data[r], j) == Live(v.data[r], j)
        && NameAt(v'.data[r], j) == NameAt(v.data[r], j) {
      SlotSame(v.data[r], v'.data[r], j);
    }
  }

  /** A file whose slot, chain entries and place are unchanged is still a file. */
  lemma StillFile(v: Vol, v': Vol, r: nat, chains: seq<seq<nat>>, chains': seq<seq<nat>>, j: nat)
    requires Shaped(v, r) && Shaped(v', r) && |chains| == |chains'| == SLOTS && j < SLOTS && FileOk(v, r, chains, j)
             && chains'[j] == chains[j]
    requires |v'.fat| == |v.fat| && Record(v'.data[r], j) == Record(v.data[r], j)
    requires forall c :: 0 <= c < |v.fat| && c in chains[j] ==> v'.fat[c] == v.fat[c]
    ensures FileOk(v', r, chains', j)
  {
    hide Live, First, NameAt, Chain, Record;
    SlotSame(v.data[r], v'.data[r], j);
    if Chain(v.fat, chains[j]) {
      HeadIn(v.fat, chains[j]);
      ChainParts(v.fat, chains[j]);
      ChainSame(v.fat, v'.fat, chains[j]);
    }
  }

  // --------------------------------------------------------- growing a chain

  /** Clusters a file of `size` bytes takes: at least one. */
  function Clusters(size: nat): (n: nat)
    ensures n >= 1
  {
    if size == 0 then 1 else (size + SECTOR - 1) / SECTOR
  }

  /** Cluster `j` of the data, padded with zeros. */
  function Chunk(bytes: seq<byte>, j: nat): (b: seq<byte>)
    ensures |b| == SECTOR
  {
    seq(SECTOR, k requires 0 <= k < SECTOR => if j * SECTOR + k < |bytes| then bytes[j * SECTOR + k] else 0)
  }

  /** `v` is `v1` with the chain `cs`, made of clusters free in `v1`, and nothing else. */
  ghost predicate Grown(v1: Vol, v: Vol, r: nat, cs: seq<nat>) {
    && Shaped(v1, r) && Shaped(v, r) && |v.fat| == |v1.fat| && v.data[r] == v1.data[r]
    && Chain(v.fat, cs) && (forall i :: 0 <= i < |cs| ==> cs[i] >= 3 && v1.fat[cs[i]] == 0)
       && v.fat[cs[|cs| - 1]] == END
    && (forall c :: 0 <= c < |v.fat| && c !in cs ==> v.fat[c] == v1.fat[c] && v.data[c] == v1.data[c])
    && Free(v.fat, 2) + |cs| == Free(v1.fat, 2) && Free(v.fat, 3) + |cs| == Free(v1.fat, 3)
  }

  /** The volume after allocate_cluster returns `c`. */
  function Taken(v: Vol, c: nat): Vol
    requires c < |v.fat| == |v.data|
  {
    Vol(v.fat[c := END], v.data[c := Blank()])
  }

  lemma GrowStart(v1: Vol, r: nat, c: nat)
    requires Shaped(v1, r) && 3 <= c < |v1.fat| && v1.fat[c] == 0
    ensures Grown(v1, Taken(v1, c), r, [c])
  {
    hide Zeros, Blank;
    FreeUpdate(v1.fat, c, END, 2);
    FreeUpdate(v1.fat, c, END, 3);
  }

  /** One more cluster: allocated, then linked behind the tail. */
  lemma GrowMore(v1: Vol, v: Vol, r: nat, cs: seq<nat>, c: nat)
    requires Grown(v1, v, r, cs) && 3 <= c < |v.fat| && v.fat[c] == 0
    ensures var tail := cs[|cs| - 1];
            var u := Taken(v, c);
            tail < |u.fat| && Grown(v1, u.(fat := u.fat[tail := c]), r, cs + [c])
    ensures c !in cs && v1.fat[c] == 0
  {
    hide Zeros, Blank, Chain;
    TailIn(v.fat, cs);
    var tail, u, more := cs[|cs| - 1], Taken(v, c), cs + [c];
    FreshCluster(v1, v, r, cs, c);
    FreeUpdate(v.fat, c, END, 2);
    FreeUpdate(v.fat, c, END, 3);
    FreeUpdate(u.fat, tail, c, 2);
    FreeUpdate(u.fat, tail, c, 3);
    LongerChain(v.fat, u.fat[tail := c], cs, c);
    var v' := u.(fat := u.fat[tail := c]);
    assert forall x :: x in cs ==> x in more by { assert forall i :: 0 <= i < |cs| ==> more[i] == cs[i]; }
    assert more[|cs|] == c;
  }

  lemma TailIn(fat: seq<nat>, cs: seq<nat>)
    requires Chain(fat, cs)
    ensures cs != [] && 2 <= cs[|cs| - 1] < |fat| && cs[|cs| - 1] in cs && fat[cs[|cs| - 1]] != 0
  {
  }

  lemma FreshCluster(v1: Vol, v: Vol, r: nat, cs: seq<nat>, c: nat)
    requires Grown(v1, v, r, cs) && c < |v.fat| && v.fat[c] == 0
    ensures c !in cs && v1.fat[c] == 0 && c != r
  {
    hide Zeros, Chain;
    if c in cs {
      var k :| 0 <= k < |cs| && cs[k] == c;
      ChainUsed(v.fat, cs, k);
    }
  }

  lemma LongerChain(fat: seq<nat>, fat': seq<nat>, cs: seq<nat>, c: nat)
    requires Chain(fat, cs) && |fat'| == |fat| && c !in cs && 2 <= c < |fat|
    requires fat' == fat[c := END][cs[|cs| - 1] := c]
    ensures Chain(fat', cs + [c]) && fat'[c] == END
  {
    var more := cs + [c];
    forall i | 0 <= i < |more| - 1 ensures Link(fat', more, i) {
      if i < |cs| - 1 { assert Link(fat, cs, i) && cs[i] != cs[|cs| - 1]; }
    }
  }

  /** Writing the data of a cluster of the new chain. */
  lemma GrowWrite(v1: Vol, v: Vol, r: nat, cs: seq<nat>, i: nat, b: seq<byte>)
    requires Grown(v1, v, r, cs) && i < |cs| && |b| == SECTOR
    ensures cs[i] < |v.data| && Grown(v1, v.(data := v.data[cs[i] := b]), r, cs)
  {
    hide Zeros, Free, Distinct, Linked;
    assert cs[i] in cs && v1.fat[cs[i]] == 0;
  }

  /** The other files do not notice the new chain. */
  lemma GrownFiles(v1: Vol, v: Vol, r: nat, cs: seq<nat>, chains: seq<seq<nat>>)
    requires Files(v1, r, chains) && Grown(v1, v, r, cs)
    ensures Files(v, r, chains) && r !in cs && forall i :: 0 <= i < SLOTS ==>
              Separate(chains[i], cs) && Separate(cs, chains[i])
  {
    hide Zeros, Free, Live, First, NameAt, Chain, Record;
    forall i | 0 <= i < SLOTS ensures Separate(chains[i], cs) && Separate(cs, chains[i]) && FileOk(v, r, chains, i) {
      FileChain(v1, r, chains, i);
      forall x | x in chains[i] ensures x !in cs {
        var k :| 0 <= k < |chains[i]| && chains[i][k] == x;
        assert v1.fat[x] != 0;
      }
      StillFile(v1, v, r, chains, chains, i);
    }
  }

  /** A chain without its first cluster, and where the first one leads. */
  lemma ChainTail(fat: seq<nat>, cs: seq<nat>)
    requires Chain(fat, cs)
    ensures |cs| == 1 ==> fat[cs[0]] >= EOC
    ensures |cs| > 1 ==> fat[cs[0]] == cs[1] && Chain(fat, cs[1..]) && Chain(fat[cs[0] := 0], cs[1..])
  {
    if |cs| > 1 {
      var rest := cs[1..];
      assert Link(fat, cs, 0);
      forall i | 0 <= i < |rest| - 1 ensures Link(fat, rest, i) { assert Link(fat, cs, i + 1); }
      ChainSame(fat, fat[cs[0] := 0], rest);
    }
  }

  // ------------------------------------------------------- entering the file

  /** The 32 bytes of a directory entry. */
  function EntryBytes(key: seq<byte>, first: nat, size: nat): (e: seq<byte>)
    requires |key| == 11
    ensures |e| == 32
  {
    var e := Overwrite(seq(32, _ => 0), 0, key)[11 := 0x20];
    W16(W16(W32(e, 28, size), 20, first / 0x1_0000), 26, first)
  }

  /** The root sector with the entry in slot `i`. */
  function Entered(root: seq<byte>, i: nat, key: seq<byte>, first: nat, size: nat): (r: seq<byte>)
    requires |root| == SECTOR && i < SLOTS && |key| == 11
    ensures |r| == SECTOR
  {
    Overwrite(root, i * 32, EntryBytes(key, first, size))
  }

  lemma EntryReads(key: seq<byte>, first: nat, size: nat)
    requires |key| == 11 && first < 0x1_0000_0000 && size < 0x1_0000_0000
    ensures var e := EntryBytes(key, first, size);
            && e[..11] == key && e[11] == 0x20
            && U32(e, 28) == size && U16(e, 26) + 0x1_0000 * U16(e, 20) == first
  {
    hide U16, U32, W16, W32;
    var e0 := Overwrite(seq(32, _ => 0), 0, key)[11 := 0x20];
    var e1 := W32(e0, 28, size);
    var e2 := W16(e1, 20, first / 0x1_0000);
    var e := W16(e2, 26, first);
    W32Reads(e0, 28, size);
    W32Frame(e0, 28, size, 0, 12);
    W16Reads(e1, 20, first / 0x1_0000);
    W16Frame(e1, 20, first / 0x1_0000, 0, 12);
    W16Frame(e1, 20, first / 0x1_0000, 28, 32);
    LowHalf(e2, 26, first);
    W16Frame(e2, 26, first, 0, 12);
    W16Frame(e2, 26, first, 28, 32);
    W16Frame(e2, 26, first, 20, 22);
    SameHalf(e, e2, 20);
    SameWord(e2, e1, 28);
    SameWord(e, e2, 28);
    assert e[0..12] == e0[0..12] == key + [0x20];
    assert e[..11] == e[0..12][..11] && e[11] == e[0..12][11];
  }

  /** w16 stores the low sixteen bits. */
  lemma LowHalf(b: seq<byte>, o: nat, v: nat)
    requires o + 2 <= |b|
    ensures U16(W16(b, o, v), o) == v % 0x1_0000
  {
    hide Overwrite;
    OverwriteRead(b, o, LeBytes(v, 2));
    TwoBytes(v);
  }

  lemma TwoBytes(v: nat)
    ensures Le(LeBytes(v, 2)) == v % 0x1_0000
  {
    assert LeBytes(v, 2) == [v % 256, v / 256 % 256] by {
      assert LeBytes(v / 256, 1) == [v / 256 % 256] + LeBytes(v / 256 / 256, 0);
    }
    assert Le([v / 256 % 256]) == v / 256 % 256;
  }

  lemma EnteredSlots(root: seq<byte>, i: nat, key: seq<byte>, first: nat, size: nat)
    requires |root| == SECTOR && i < SLOTS && |key| == 11 && first < 0x1_0000_0000 && size < 0x1_0000_0000
    ensures var r := Entered(root, i, key, first, size);
            && NameAt(r, i) == key && First(r, i) == first && Size(r, i) == size
            && (Live(r, i) <==> key[0] != 0 && key[0] != DELETED)
            && forall j :: 0 <= j < SLOTS && j != i ==> Record(r, j) == Record(root, j)
  {
    hide U16, U32, EntryBytes, Overwrite;
    var e, r, o := EntryBytes(key, first, size), Entered(root, i, key, first, size), i * 32;
    EntryReads(key, first, size);
    OverwriteRead(root, o, e);
    SubSlice(r, o, 0, 11);
    assert e[..11] == e[0..11];
    assert r[o] == r[o..o + 32][0] && e[0] == e[..11][0];
    FieldsOf(r, o);
    forall j | 0 <= j < SLOTS && j != i ensures Record(r, j) == Record(root, j)
      { OverwriteFrame(root, o, e, j * 32, j * 32 + 32); }
  }

  /** The entry's fields where a reader of the disk looks for them: name, archive attribute, first cluster, size. */
  lemma EntryOnDisk(root: seq<byte>, i: nat, key: seq<byte>, first: nat, size: nat)
    requires |root| == SECTOR && i < SLOTS && |key| == 11 && first < 0x1_0000_0000 && size < 0x1_0000_0000
    ensures var r := Entered(root, i, key, first, size);
            && r[32 * i..32 * i + 11] == key && r[32 * i + 11] == 0x20
            && U16(r, 32 * i + 26) + 0x1_0000 * U16(r, 32 * i + 20) == first && U32(r, 32 * i + 28) == size
  {
    hide U16, U32, EntryBytes, Overwrite;
    var e, r, o := EntryBytes(key, first, size), Entered(root, i, key, first, size), i * 32;
    EntryReads(key, first, size);
    OverwriteRead(root, o, e);
    SubSlice(r, o, 0, 11);
    assert r[o + 11] == r[o..o + 32][11];
    FieldsOf(r, o);
  }

  lemma FieldsOf(r: seq<byte>, o: nat)
    requires o + 32 <= |r|
    ensures var e := r[o..o + 32];
            U16(r, o + 26) == U16(e, 26) && U16(r, o + 20) == U16(e, 20) && U32(r, o + 28) == U32(e, 28)
  {
    hide Le;
    SubSlice(r, o, 26, 28);
    SubSlice(r, o, 20, 22);
    SubSlice(r, o, 28, 32);
  }

  /** The chain a slot gets: none when the name's first byte makes the slot look deleted. */
  function ChainOf(key: seq<byte>, cs: seq<nat>): seq<nat>
    requires |key| == 11
  {
    if key[0] == 0 || key[0] == DELETED then [] else cs
  }

  lemma EnterKeeps(v: Vol, r: nat, chains: seq<seq<nat>>, i: nat, key: seq<byte>, cs: seq<nat>, size: nat)
    requires Files(v, r, chains) && i < SLOTS && !Live(v.data[r], i) && |key| == 11 && Chain(v.fat, cs)
             && size < 0x1_0000_0000
    requires r !in cs && forall j :: 0 <= j < SLOTS ==> Separate(chains[j], cs) && Separate(cs, chains[j])
    ensures var v' := v.(data := v.data[r := Entered(v.data[r], i, key, cs[0], size)]);
            Files(v', r, chains[i := ChainOf(key, cs)])
  {
    hide Live, First, NameAt, Chain, Record, Entered, Size;
    HeadIn(v.fat, cs);
    var v', chains' := v.(data := v.data[r := Entered(v.data[r], i, key, cs[0], size)]), chains[i := ChainOf(key, cs)];
    EnteredSlots(v.data[r], i, key, cs[0], size);
    forall j | 0 <= j < SLOTS ensures FileOk(v', r, chains', j) {
      if j != i { StillFile(v, v', r, chains, chains', j); }
    }
    forall j | 0 <= j < SLOTS && j != i ensures Live(v'.data[r], j) == Live(v.data[r], j)
        && NameAt(v'.data[r], j) == NameAt(v.data[r], j) {
      SlotSame(v.data[r], v'.data[r], j);
    }
  }

  lemma HeadIn(fat: seq<nat>, cs: seq<nat>)
    requires Chain(fat, cs)
    ensures cs != [] && 2 <= cs[0] < |fat|
  {
  }

  // ------------------------------------------------------------------- reading

  /** What following the table from cluster `c` reads of a file with `size` bytes left. */
  ghost function Read(v: Vol, c: nat, size: nat): seq<byte>
    decreases size
  {
    if size == 0 || c >= |v.data| || c >= |v.fat| || |v.data[c]| != SECTOR then []
    else if size <= SECTOR then v.data[c][..size]
    else v.data[c] + if v.fat[c] >= EOC then [] else Read(v, v.fat[c], size - SECTOR)
  }

  /** The whole sectors read on the way. */
  ghost function Sectors(v: Vol, c: nat, size: nat): seq<byte>
    decreases size
  {
    if size == 0 || c >= |v.data| || c >= |v.fat| || |v.data[c]| != SECTOR then []
    else v.data[c] + if size <= SECTOR || v.fat[c] >= EOC then [] else Sectors(v, v.fat[c], size - SECTOR)
  }

  /** The file is what the sectors hold up to its size. */
  lemma {:induction false} SectorsHold(v: Vol, c: nat, size: nat)
    ensures var s := Sectors(v, c, size);
            |s| % SECTOR == 0 && Read(v, c, size) == s[..if |s| < size then |s| else size]
                && (|s| >= size ==> |s| < size + SECTOR)
    decreases size
  {
    if size > SECTOR && c < |v.data| && c < |v.fat| && |v.data[c]| == SECTOR && v.fat[c] < EOC {
      SectorsHold(v, v.fat[c], size - SECTOR);
      var b, s := v.data[c], Sectors(v, v.fat[c], size - SECTOR);
      PrefixOfTwo(b, s, size);
    } else {
      PrefixOfOne(v, c, size);
    }
  }

  lemma PrefixOfTwo(b: seq<byte>, s: seq<byte>, size: nat)
    requires |b| == SECTOR < size && |s| % SECTOR == 0
    ensures var t := b + s;
            && b + s[..if |s| < size - SECTOR then |s| else size - SECTOR] == t[..if |t| < size then |t| else size]
            && |t| % SECTOR == 0
  {
  }

  lemma PrefixOfOne(v: Vol, c: nat, size: nat)
    requires !(size > SECTOR && c < |v.data| && c < |v.fat| && |v.data[c]| == SECTOR && v.fat[c] < EOC)
    ensures var s := Sectors(v, c, size);
            && |s| % SECTOR == 0 && Read(v, c, size) == s[..if |s| < size then |s| else size]
            && (|s| >= size ==> |s| < size + SECTOR)
  {
  }

  lemma {:induction false} ReadsBack(v: Vol, r: nat, cs: seq<nat>, bytes: seq<byte>, k: nat)
    requires Shaped(v, r) && Chain(v.fat, cs) && |cs| == Clusters(|bytes|) && k < |cs|
    requires forall i :: 0 <= i < |cs| ==> v.data[cs[i]] == Chunk(bytes, i)
    ensures k * SECTOR <= |bytes| && Read(v, cs[k], |bytes| - k * SECTOR) == bytes[k * SECTOR..]
    decreases |cs| - k
  {
    hide Chunk, Distinct, Read, Chain;
    var left := |bytes| - k * SECTOR;
    assert k * SECTOR <= |bytes|;
    LastChunk(bytes, k);
    ReadOne(v, r, cs, k, left);
    if left > SECTOR {
      assert k + 1 < |cs|;
      ReadsBack(v, r, cs, bytes, k + 1);
      assert bytes[k * SECTOR..] == bytes[k * SECTOR..(k + 1) * SECTOR] + bytes[(k + 1) * SECTOR..];
    }
  }

  /** One cluster of a chain, and what follows it. */
  lemma ReadOne(v: Vol, r: nat, cs: seq<nat>, k: nat, left: nat)
    requires Shaped(v, r) && Chain(v.fat, cs) && k < |cs|
    ensures cs[k] < |v.data| && |v.data[cs[k]]| == SECTOR
    ensures left <= SECTOR ==> Read(v, cs[k], left) == v.data[cs[k]][..left]
    ensures left > SECTOR && k + 1 < |cs| ==>
              Read(v, cs[k], left) == v.data[cs[k]] + Read(v, cs[k + 1], left - SECTOR)
  {
    hide Distinct;
    if k + 1 < |cs| {
      assert Link(v.fat, cs, k);
      assert cs[k + 1] < EOC;
    }
  }

  lemma LastChunk(bytes: seq<byte>, k: nat)
    requires k * SECTOR <= |bytes|
    ensures var left := |bytes| - k * SECTOR;
            if left <= SECTOR then Chunk(bytes, k)[..left] == bytes[k * SECTOR..]
                else Chunk(bytes, k) == bytes[k * SECTOR..(k + 1) * SECTOR]
  {
  }

  // -------------------------------------------------------------- the outcome

  /** The volume once an old file of that name is gone; `o` is its slot, or 16. */
  ghost function Cleared(v: Vol, r: nat, chains: seq<seq<nat>>, o: nat): Vol
    requires Files(v, r, chains) && o <= SLOTS && (o < SLOTS ==> InRange(v.fat, chains[o]))
  {
    if o < SLOTS then Dropped(v, r, chains, o) else v
  }

  function Without(chains: seq<seq<nat>>, o: nat): (r: seq<seq<nat>>)
    requires |chains| == SLOTS
    ensures |r| == SLOTS
  {
    if o < SLOTS then chains[o := []] else chains
  }

  function OldChain(chains: seq<seq<nat>>, o: nat): seq<nat>
    requires |chains| == SLOTS
  {
    if o < SLOTS then chains[o] else []
  }

  lemma ClearedFacts(v: Vol, r: nat, chains: seq<seq<nat>>, key: seq<byte>)
    requires Files(v, r, chains)
    ensures var o := Slot(v.data[r], key, 0);
            && (o < SLOTS ==> InRange(v.fat, chains[o]))
            && var v1 := Cleared(v, r, chains, o);
            && Files(v1, r, Without(chains, o)) && |v1.fat| == |v.fat| && |v1.data| == |v.data|
            && Free(v1.fat, 2) == Free(v.fat, 2) + |OldChain(chains, o)|
            && (forall c :: 0 <= c < |v.fat| && c !in OldChain(chains, o) ==> v1.fat[c] == v.fat[c])
            && (forall c :: 0 <= c < |v.data| && c != r ==> v1.data[c] == v.data[c])
            && (forall j :: 0 <= j < SLOTS && j != o ==> Record(v1.data[r], j) == Record(v.data[r], j))
            && (forall j :: 0 <= j < SLOTS && Live(v1.data[r], j) && NameAt(v1.data[r], j) == key ==> o < j)
            && (o < SLOTS ==> !Live(v1.data[r], o))
  {
    hide Live, First, NameAt, Chain, Zeros, Freed, Erased, Record, FileOk, Slot;
    var o := Slot(v.data[r], key, 0);
    if o < SLOTS {
      DropKeeps(v, r, chains, o);
      ErasedSlots(v.data[r], o);
      forall j | 0 <= j < SLOTS && j != o
        ensures Live(v.data[r], j) && NameAt(v.data[r], j) == key ==> o < j
        ensures Live(Erased(v.data[r], o), j) == Live(v.data[r], j)
                && NameAt(Erased(v.data[r], o), j) == NameAt(v.data[r], j)
      {
        SlotSame(v.data[r], Erased(v.data[r], o), j);
      }
    }
  }

  /** The chain `cs` holds exactly the bytes. */
  ghost predicate Holds(v: Vol, cs: seq<nat>, bytes: seq<byte>) {
    && |cs| == Clusters(|bytes|) && InRange(v.fat, cs) && |v.data| == |v.fat|
    && forall i :: 0 <= i < |cs| ==> v.data[cs[i]] == Chunk(bytes, i)
  }

  /** Whether a store succeeds: a vacant slot and clusters enough, both after the old file is gone. */
  ghost predicate CanStore(v1: Vol, r: nat, size: nat)
    requires Shaped(v1, r)
  {
    Vacant(v1.data[r], 0) < SLOTS && Clusters(size) <= Free(v1.fat, 3)
  }

  /** What disk_store_large leaves; `cs` is the new chain. */
  ghost predicate Outcome(v: Vol, v': Vol, r: nat, chains: seq<seq<nat>>, chains': seq<seq<nat>>, key: seq<byte>,
                          bytes: seq<byte>, cs: seq<nat>, ok: bool) {
    && Files(v, r, chains) && Files(v', r, chains') && |key| == 11
    && var o := Slot(v.data[r], key, 0);
    && (o < SLOTS ==> InRange(v.fat, chains[o]))
    && var v1 := Cleared(v, r, chains, o);
    && |v'.fat| == |v1.fat| == |v.fat| && |v1.data| == |v.fat| && Shaped(v1, r)
    && ok == CanStore(v1, r, |bytes|)
    && (forall j, c :: 0 <= j < SLOTS && j != o && c in chains[j] ==> Intact(v, v', c))
    && (!ok ==> v'.data[r] == v1.data[r] && chains' == Without(chains, o))
    && (ok ==>
          var slot := Vacant(v1.data[r], 0);
          && Chain(v'.fat, cs) && Holds(v', cs, bytes)
          && v'.data[r] == Entered(v1.data[r], slot, key, cs[0], |bytes|)
          && chains' == Without(chains, o)[slot := ChainOf(key, cs)]
          && Free(v'.fat, 2) + |cs| == Free(v.fat, 2) + |OldChain(chains, o)|)
  }

  ghost predicate Intact(v: Vol, v': Vol, c: nat) {
    c < |v.fat| && c < |v'.fat| && c < |v.data| && c < |v'.data| && v'.fat[c] == v.fat[c] && v'.data[c] == v.data[c]
  }

  /** The stored file reads back through the table as exactly the bytes. */
  lemma StoredReads(v: Vol, v': Vol, r: nat, chains: seq<seq<nat>>, chains': seq<seq<nat>>, key: seq<byte>,
                    bytes: seq<byte>, cs: seq<nat>)
    requires Outcome(v, v', r, chains, chains', key, bytes, cs, true) && |bytes| < 0x1_0000_0000
    ensures var slot := Vacant(Cleared(v, r, chains, Slot(v.data[r], key, 0)).data[r], 0);
            && First(v'.data[r], slot) == cs[0] && Size(v'.data[r], slot) == |bytes|
            && v'.data[r][32 * slot..32 * slot + 11] == key && v'.data[r][32 * slot + 11] == 0x20
            && U16(v'.data[r], 32 * slot + 26) + 0x1_0000 * U16(v'.data[r], 32 * slot + 20) == cs[0]
            && U32(v'.data[r], 32 * slot + 28) == |bytes|
            && Read(v', First(v'.data[r], slot), Size(v'.data[r], slot)) == bytes
  {
    hide Live, NameAt, Slot, Vacant, Cleared, Record, Entered, First, Size, Files, Read, Chunk, Linked, Distinct;
    FilesShape(v, r, chains);
    FilesShape(v', r, chains');
    var v1 := Cleared(v, r, chains, Slot(v.data[r], key, 0));
    var slot := Vacant(v1.data[r], 0);
    EnteredSlots(v1.data[r], slot, key, cs[0], |bytes|);
    EntryOnDisk(v1.data[r], slot, key, cs[0], |bytes|);
    ReadsBack(v', r, cs, bytes, 0);
  }

  lemma FilesShape(v: Vol, r: nat, chains: seq<seq<nat>>)
    requires Files(v, r, chains)
    ensures Shaped(v, r) && |chains| == SLOTS
  {
  }

  /** The file is found again under its name exactly when the name does not begin with the deletion mark. */
  lemma FoundAgainIff(v: Vol, v': Vol, r: nat, chains: seq<seq<nat>>, chains': seq<seq<nat>>, name: seq<byte>,
                      bytes: seq<byte>, cs: seq<nat>)
    requires Outcome(v, v', r, chains, chains', Name83(name), bytes, cs, true) && |bytes| < 0x1_0000_0000 && 0 !in name
    ensures var key := Name83(name);
            var slot := Vacant(Cleared(v, r, chains, Slot(v.data[r], key, 0)).data[r], 0);
            && slot < SLOTS
            && Slot(v'.data[r], key, 0) == (if name != [] && name[0] == 0xe5 then 16 else slot)
  {
    hide Name83, Outcome, Cleared;
    KeyStart(name);
    FoundByKey(v, v', r, chains, chains', Name83(name), bytes, cs);
  }

  lemma FoundByKey(v: Vol, v': Vol, r: nat, chains: seq<seq<nat>>, chains': seq<seq<nat>>, key: seq<byte>,
                   bytes: seq<byte>, cs: seq<nat>)
    requires Outcome(v, v', r, chains, chains', key, bytes, cs, true) && |bytes| < 0x1_0000_0000 && key[0] != 0
    ensures var slot := Vacant(Cleared(v, r, chains, Slot(v.data[r], key, 0)).data[r], 0);
            && slot < SLOTS
            && (key[0] != DELETED ==> Slot(v'.data[r], key, 0) == slot)
               && (key[0] == DELETED ==> Slot(v'.data[r], key, 0) == SLOTS)
  {
    hide Live, NameAt, Slot, Vacant, Record, Entered, First, Size, Read, Chunk, Chain, Cleared, FileOk;
    ClearedFacts(v, r, chains, key);
    var v1 := Cleared(v, r, chains, Slot(v.data[r], key, 0));
    var slot, root' := Vacant(v1.data[r], 0), v'.data[r];
    HeadIn(v'.fat, cs);
    EnteredSlots(v1.data[r], slot, key, cs[0], |bytes|);
    forall j | 0 <= j < slot ensures !(Live(root', j) && NameAt(root', j) == key) { SlotSame(v1.data[r], root', j); }
    if key[0] == DELETED { NeverLive(root', key); }
  }

  /** No live entry bears a name that begins with the deletion mark. */
  lemma NeverLive(root: seq<byte>, key: seq<byte>)
    requires |root| == SECTOR && |key| == 11 && key[0] == DELETED
    ensures forall j :: 0 <= j < SLOTS ==> !(Live(root, j) && NameAt(root, j) == key)
  {
    forall j | 0 <= j < SLOTS && NameAt(root, j) == key ensures !Live(root, j) { assert NameAt(root, j)[0] == key[0]; }
  }

  /**
   Every live file but the one found under the name keeps its entry, its chain and its contents, whether the store
   succeeds or not.
   */
  lemma OthersKept(v: Vol, v': Vol, r: nat, chains: seq<seq<nat>>, chains': seq<seq<nat>>, key: seq<byte>,
                   bytes: seq<byte>, cs: seq<nat>, ok: bool, j: nat)
    requires Outcome(v, v', r, chains, chains', key, bytes, cs, ok) && |bytes| < 0x1_0000_0000
    requires j < SLOTS && Live(v.data[r], j) && j != Slot(v.data[r], key, 0)
    ensures Record(v'.data[r], j) == Record(v.data[r], j) && chains'[j] == chains[j]
    ensures forall size :: chains[j] != [] ==> Read(v', chains[j][0], size) == Read(v, chains[j][0], size)
  {
    hide Live, NameAt, Slot, Vacant, Record, Entered, First, Size, Read, Chunk, Chain, Cleared, FileOk, Intact,
         Clusters, Zeros;
    ClearedFacts(v, r, chains, key);
    var o := Slot(v.data[r], key, 0);
    var v1 := Cleared(v, r, chains, o);
    var slot := Vacant(v1.data[r], 0);
    SlotSame(v.data[r], v1.data[r], j);
    if ok {
      HeadIn(v'.fat, cs);
      EnteredSlots(v1.data[r], slot, key, cs[0], |bytes|);
    }
    FileChain(v, r, chains, j);
    forall size | chains[j] != [] ensures Read(v', chains[j][0], size) == Read(v, chains[j][0], size) {
      assert forall c :: c in chains[j] ==> Intact(v, v', c);
      SameRead(v, v', chains[j], 0, size);
    }
  }

  /** Storing under a name leaves every file with another name as it was, found where it was found before. */
  lemma OtherNamesKept(v: Vol, v': Vol, r: nat, chains: seq<seq<nat>>, chains': seq<seq<nat>>, base: seq<byte>,
                       ext: seq<byte>, bytes: seq<byte>, cs: seq<nat>, ok: bool, base': seq<byte>, ext': seq<byte>)
    requires Outcome(v, v', r, chains, chains', Name83(Dotted(base, ext)), bytes, cs, ok) && |bytes| < 0x1_0000_0000
    requires Fits83(base, ext) && Fits83(base', ext') && !(AlikeText(base, base') && AlikeText(ext, ext'))
    requires Slot(v.data[r], Name83(Dotted(base', ext')), 0) < SLOTS
    ensures var j := Slot(v.data[r], Name83(Dotted(base', ext')), 0);
            && Slot(v'.data[r], Name83(Dotted(base', ext')), 0) == j
            && Record(v'.data[r], j) == Record(v.data[r], j) && chains'[j] == chains[j]
            && forall size :: chains[j] != [] ==> Read(v', chains[j][0], size) == Read(v, chains[j][0], size)
  {
    hide Name83, Files, Cleared, Live, NameAt, Record, Read, Slot, CanStore, Holds, Intact, Entered;
    SameKeyIff(base, ext, base', ext');
    FilesShape(v, r, chains);
    var key, key' := Name83(Dotted(base, ext)), Name83(Dotted(base', ext'));
    var j := Slot(v.data[r], key', 0);
    OthersKept(v, v', r, chains, chains', key, bytes, cs, ok, j);
    OtherKeyFound(v, v', r, chains, chains', key, bytes, cs, ok, key');
  }

  lemma OtherKeyFound(v: Vol, v': Vol, r: nat, chains: seq<seq<nat>>, chains': seq<seq<nat>>, key: seq<byte>,
                      bytes: seq<byte>, cs: seq<nat>, ok: bool, key': seq<byte>)
    requires Outcome(v, v', r, chains, chains', key, bytes, cs, ok) && |bytes| < 0x1_0000_0000 && key != key'
    ensures Slot(v'.data[r], key', 0) == Slot(v.data[r], key', 0)
  {
    hide Live, NameAt, Slot, Vacant, Record, Entered, First, Size, Read, Chunk, Chain, Cleared, FileOk, Intact,
         Clusters, Zeros;
    ClearedFacts(v, r, chains, key);
    var o := Slot(v.data[r], key, 0);
    var root, root1, root' := v.data[r], Cleared(v, r, chains, o).data[r], v'.data[r];
    forall j | 0 <= j < SLOTS
      ensures Live(root', j) && NameAt(root', j) == key' <==> Live(root, j) && NameAt(root, j) == key'
    {
      if j != o { SlotSame(root, root1, j); }
      if ok {
        var slot := Vacant(root1, 0);
        HeadIn(v'.fat, cs);
        EnteredSlots(root1, slot, key, cs[0], |bytes|);
        if j != slot { SlotSame(root1, root', j); }
      }
    }
  }

  lemma {:induction false} SameRead(v: Vol, v': Vol, cs: seq<nat>, k: nat, size: nat)
    requires Chain(v.fat, cs) && k < |cs| && |v.data| == |v.fat| && |v'.fat| == |v.fat| && |v'.data| == |v.data|
    requires forall c :: c in cs ==> Intact(v, v', c)
    ensures Read(v', cs[k], size) == Read(v, cs[k], size)
    decreases |cs| - k
  {
    hide Distinct;
    assert cs[k] in cs && Intact(v, v', cs[k]);
    if size > SECTOR && v.fat[cs[k]] < EOC {
      assert k < |cs| - 1 && Link(v.fat, cs, k);
      SameRead(v, v', cs, k + 1, size - SECTOR);
    }
  }
}
