/**
 The FAT32 writer of Mini64 (mini64/kernel.c) on a mounted volume with one sector per cluster. Sectors are
 numbered from the start of the volume. The ghost `vol` is the table and the clusters as one copy
 of the table gives them; `chains` names every live file's clusters.
 */
module Fat32 {
  import opened Bytes
  import opened FatSpec
  import opened FatFiles

  /** Entry `c` of a table copy: the low 28 bits. */
  function Entry(table: seq<seq<byte>>, c: nat): nat
    requires c / 128 < |table| && |table[c / 128]| == SECTOR
  {
    U32(table[c / 128], c % 128 * 4) % 0x1000_0000
  }

  ghost predicate TableOk(table: seq<seq<byte>>) { forall s :: 0 <= s < |table| ==> |table[s]| == SECTOR }

  /** Rewriting one entry of the table. */
  function SetEntry(table: seq<seq<byte>>, c: nat, x: nat): (r: seq<seq<byte>>)
    requires c / 128 < |table| && |table[c / 128]| == SECTOR
    ensures |r| == |table|
  {
    table[c / 128 := W32(table[c / 128], c % 128 * 4, x)]
  }

  lemma SetEntryReads(table: seq<seq<byte>>, c: nat, x: nat, d: nat)
    requires TableOk(table) && c / 128 < |table| && d / 128 < |table| && x < 0x1000_0000
    ensures TableOk(SetEntry(table, c, x)) && Entry(SetEntry(table, c, x), d) == if d == c then x else Entry(table, d)
  {
    hide U32, W32;
    var b, o := table[c / 128], c % 128 * 4;
    W32Reads(b, o, x);
    if d / 128 == c / 128 && d != c {
      assert d % 128 != c % 128;
      U32Kept(b, o, x, d % 128 * 4);
    }
  }

  /** A mounted volume's geometry. */
  datatype Geo = Geo(reserved: nat, fatCount: nat, fatSectors: nat, dataStart: nat, root: nat) {
    /** One past the last cluster. */
    function Limit(): nat
      requires dataStart <= SECTORS
    {
      SECTORS - dataStart + 2
    }

    predicate Ok() {
      && fatCount >= 1 && dataStart == reserved + fatCount * fatSectors && dataStart < SECTORS - 1
      && Limit() <= fatSectors * 128 && 2 <= root < Limit()
    }

    /** Sector `s` of copy `f` of the table. */
    function CopyAt(f: nat, s: nat): nat { reserved + f * fatSectors + s }

    /** cluster_lba. */
    function ClusterAt(c: nat): nat
      requires c >= 2
    {
      dataStart + (c - 2)
    }
  }

  lemma CopyBelow(g: Geo, f: nat, s: nat)
    requires g.Ok() && f < g.fatCount && s < g.fatSectors
    ensures g.CopyAt(f, s) < g.dataStart
  {
    assert (f + 1) * g.fatSectors <= g.fatCount * g.fatSectors;
  }

  lemma CopyApart(g: Geo, f: nat, s: nat, f': nat, s': nat)
    requires s < g.fatSectors && s' < g.fatSectors && g.CopyAt(f, s) == g.CopyAt(f', s')
    ensures f == f' && s == s'
  {
    assert f < f' ==> (f + 1) * g.fatSectors <= f' * g.fatSectors;
    assert f' < f ==> (f' + 1) * g.fatSectors <= f * g.fatSectors;
  }

  lemma GeoFacts(g: Geo)
    requires g.Ok()
    ensures g.dataStart < SECTORS - 1 && g.Limit() <= g.fatSectors * 128 && 3 < g.Limit() && 2 <= g.root < g.Limit()
  {
  }

  ghost predicate Sized(disk: seq<seq<byte>>) {
    |disk| == SECTORS && forall n :: 0 <= n < SECTORS ==> |disk[n]| == SECTOR
  }

  /** Copy `f` on the disk is `table`. */
  ghost predicate CopyIs(g: Geo, disk: seq<seq<byte>>, f: nat, table: seq<seq<byte>>) {
    |table| == g.fatSectors && forall s :: 0 <= s < |table| ==> SectorIs(g, disk, f, s, table[s])
  }

  ghost predicate SectorIs(g: Geo, disk: seq<seq<byte>>, f: nat, s: nat, b: seq<byte>) {
    g.CopyAt(f, s) < |disk| && disk[g.CopyAt(f, s)] == b
  }

  ghost predicate Copies(g: Geo, disk: seq<seq<byte>>, table: seq<seq<byte>>) {
    forall f :: 0 <= f < g.fatCount ==> CopyIs(g, disk, f, table)
  }

  /** The clusters on the disk are `data`. */
  ghost predicate ClustersAre(g: Geo, disk: seq<seq<byte>>, data: seq<seq<byte>>) {
    && |disk| == SECTORS && g.dataStart <= SECTORS && |data| == g.Limit()
    && forall c :: 2 <= c < |data| ==> data[c] == disk[g.ClusterAt(c)]
  }

  ghost predicate TableIs(g: Geo, table: seq<seq<byte>>, fat: seq<nat>) {
    && g.Ok() && |table| == g.fatSectors && TableOk(table)
    && |fat| == g.Limit() && forall c :: 0 <= c < |fat| ==> fat[c] == Entry(table, c)
  }

  lemma TableSet(g: Geo, table: seq<seq<byte>>, fat: seq<nat>, c: nat, x: nat)
    requires TableIs(g, table, fat) && c < |fat| && x < 0x1000_0000
    ensures c / 128 < |table| && |table[c / 128]| == SECTOR && TableIs(g, SetEntry(table, c, x), fat[c := x])
  {
    hide Entry, SetEntry;
    SetEntryReads(table, c, x, c);
    forall d | 0 <= d < |fat| ensures fat[c := x][d] == Entry(SetEntry(table, c, x), d)
      { SetEntryReads(table, c, x, d); }
  }

  /** Writing sector `s` of copy `f` changes that copy alone. */
  lemma WriteCopy(g: Geo, disk: seq<seq<byte>>, f: nat, s: nat, b: seq<byte>, was: seq<seq<byte>>, data: seq<seq<byte>>)
    requires g.Ok() && Sized(disk) && f < g.fatCount && s < g.fatSectors && |b| == SECTOR && CopyIs(g, disk, f, was)
             && ClustersAre(g, disk, data)
    ensures g.CopyAt(f, s) < |disk|
    ensures var disk' := disk[g.CopyAt(f, s) := b];
            && Sized(disk') && CopyIs(g, disk', f, was[s := b]) && ClustersAre(g, disk', data)
            && forall f', t :: f' != f && CopyIs(g, disk, f', t) ==> CopyIs(g, disk', f', t)
  {
    hide Geo.CopyAt;
    CopyBelow(g, f, s);
    var at := g.CopyAt(f, s);
    var disk', now := disk[at := b], was[s := b];
    forall t | 0 <= t < |now| ensures SectorIs(g, disk', f, t, now[t]) {
      assert SectorIs(g, disk, f, t, was[t]);
      if t != s && g.CopyAt(f, t) == at { CopyApart(g, f, t, f, s); }
    }
    forall f', t | f' != f && CopyIs(g, disk, f', t) ensures CopyIs(g, disk', f', t) {
      forall k | 0 <= k < |t| ensures SectorIs(g, disk', f', k, t[k]) {
        assert SectorIs(g, disk, f', k, t[k]);
        if g.CopyAt(f', k) == at { CopyApart(g, f', k, f, s); }
      }
    }
  }

  /** Writing a cluster changes no copy of the table. */
  lemma WriteCluster(g: Geo, disk: seq<seq<byte>>, c: nat, b: seq<byte>, table: seq<seq<byte>>, data: seq<seq<byte>>)
    requires g.Ok() && Sized(disk) && 2 <= c < g.Limit() && |b| == SECTOR && Copies(g, disk, table)
             && ClustersAre(g, disk, data)
    ensures g.ClusterAt(c) < |disk|
    ensures var disk' := disk[g.ClusterAt(c) := b];
            Sized(disk') && Copies(g, disk', table) && ClustersAre(g, disk', data[c := b])
  {
    hide Geo.CopyAt;
    var disk' := disk[g.ClusterAt(c) := b];
    forall f | 0 <= f < g.fatCount ensures CopyIs(g, disk', f, table) {
      assert CopyIs(g, disk, f, table);
      forall s | 0 <= s < |table| ensures SectorIs(g, disk', f, s, table[s]) {
        assert SectorIs(g, disk, f, s, table[s]);
        CopyBelow(g, f, s);
      }
    }
  }

  // ------------------------------------------------------------------- on disk

  /** The entry of cluster `c` in copy `f` of the table, as a reader of the disk finds it. */
  ghost function EntryOnDisk(g: Geo, disk: seq<seq<byte>>, f: nat, c: nat): nat {
    var at := g.reserved + f * g.fatSectors + 4 * c / 512;
    if at < |disk| && |disk[at]| == 512 then U32(disk[at], 4 * c % 512) % 0x1000_0000 else 0
  }

  /** Byte `k` of cluster `c`, or 256 outside the disk. */
  ghost function ByteOnDisk(g: Geo, disk: seq<seq<byte>>, c: nat, k: nat): nat {
    var at := g.dataStart + c - 2;
    if 0 <= at < |disk| && k < |disk[at]| then disk[at][k] else 256
  }

  /** Both are what the volume says. */
  lemma VolumeOnDisk(g: Geo, disk: seq<seq<byte>>, table: seq<seq<byte>>, v: Vol, f: nat, c: nat)
    requires Sized(disk) && Copies(g, disk, table) && TableIs(g, table, v.fat) && ClustersAre(g, disk, v.data)
    requires f < g.fatCount && 2 <= c < |v.fat|
    ensures EntryOnDisk(g, disk, f, c) == v.fat[c]
    ensures c < |v.data| && |v.data[c]| == 512 && forall k :: 0 <= k < 512 ==> ByteOnDisk(g, disk, c, k) == v.data[c][k]
  {
    hide U32;
    assert 4 * c / 512 == c / 128 && 4 * c % 512 == c % 128 * 4;
    assert CopyIs(g, disk, f, table);
    assert SectorIs(g, disk, f, c / 128, table[c / 128]);
  }

  /**
   A stored file on the disk: in every copy of the table the entries lead from each cluster to the next and end the
   chain, and the clusters hold the bytes, with zeros up to the end of the last one.
   */
  ghost predicate FileOnDisk(g: Geo, disk: seq<seq<byte>>, cs: seq<nat>, bytes: seq<byte>) {
    && |cs| == (if bytes == [] then 1 else (|bytes| + 511) / 512)
    && (forall f, i :: 0 <= f < g.fatCount && 0 <= i < |cs| - 1 ==> EntryOnDisk(g, disk, f, cs[i]) == cs[i + 1])
    && (var last := cs[|cs| - 1]; forall f :: 0 <= f < g.fatCount ==> EntryOnDisk(g, disk, f, last) >= 0x0fff_fff8)
    && (forall i, k :: 0 <= i < |cs| && 0 <= k < 512 ==>
          ByteOnDisk(g, disk, cs[i], k) == if 512 * i + k < |bytes| then bytes[512 * i + k] else 0)
  }

  lemma StoredOnDisk(g: Geo, disk: seq<seq<byte>>, table: seq<seq<byte>>, v: Vol, cs: seq<nat>, bytes: seq<byte>)
    requires Sized(disk) && Copies(g, disk, table) && TableIs(g, table, v.fat) && ClustersAre(g, disk, v.data)
    requires Chain(v.fat, cs) && Holds(v, cs, bytes)
    ensures FileOnDisk(g, disk, cs, bytes)
  {
    hide Sized, Copies, TableIs, ClustersAre, Distinct, EntryOnDisk, ByteOnDisk;
    forall f, i | 0 <= f < g.fatCount && 0 <= i < |cs| ensures EntryOnDisk(g, disk, f, cs[i]) == v.fat[cs[i]] {
      VolumeOnDisk(g, disk, table, v, f, cs[i]);
    }
    forall i | 0 <= i < |cs| - 1 ensures v.fat[cs[i]] == cs[i + 1] { assert Link(v.fat, cs, i); }
    forall i, k | 0 <= i < |cs| && 0 <= k < 512 ensures ByteOnDisk(g, disk, cs[i], k) == Chunk(bytes, i)[k] {
      OneCopy(g, table, v.fat);
      VolumeOnDisk(g, disk, table, v, 0, cs[i]);
    }
  }

  lemma OutcomeHolds(v: Vol, v': Vol, r: nat, chains: seq<seq<nat>>, chains': seq<seq<nat>>, key: seq<byte>,
                     bytes: seq<byte>, cs: seq<nat>)
    requires Outcome(v, v', r, chains, chains', key, bytes, cs, true)
    ensures Chain(v'.fat, cs) && Holds(v', cs, bytes)
  {
    hide Files, Cleared, Slot, Live, NameAt, Chain, Holds, Vacant, Free;
  }

  /** Clusters are numbered from 2, one for each sector behind the table up to sector 129024. */
  lemma ClusterCount(g: Geo, table: seq<seq<byte>>, fat: seq<nat>)
    requires TableIs(g, table, fat)
    ensures |fat| == 129024 - g.dataStart + 2 && g.dataStart == g.reserved + g.fatCount * g.fatSectors
  {
    hide Entry;
  }

  lemma OneCopy(g: Geo, table: seq<seq<byte>>, fat: seq<nat>)
    requires TableIs(g, table, fat)
    ensures g.fatCount >= 1
  {
  }

  class Volume {
    const geo: Geo
    var disk: seq<seq<byte>>
    var nextFree: nat
    ghost var table: seq<seq<byte>>
    ghost var vol: Vol
    ghost var chains: seq<seq<nat>>

    /** Every copy of the table is `table`, and the disk holds `vol`. */
    ghost predicate Rep()
      reads this
    {
      && geo.Ok() && Sized(disk) && Shaped(vol, geo.root) && Copies(geo, disk, table)
      && TableIs(geo, table, vol.fat) && ClustersAre(geo, disk, vol.data)
    }

    ghost predicate Valid()
      reads this
    {
      Rep() && Files(vol, geo.root, chains)
    }

    /** fat_get, which reads the first copy. */
    method FatGet(c: nat) returns (x: nat)
      requires Rep() && c < |vol.fat|
      ensures x == vol.fat[c]
    {
      hide U32, Shaped, ClustersAre, Geo.CopyAt;
      FirstCopy(geo, disk, table, c / 128);
      var b := disk[geo.CopyAt(0, c / 128)];
      return U32(b, c % 128 * 4) % 0x1000_0000;
    }

    /** fat_set: the entry in every copy. */
    method FatSet(c: nat, x: nat)
      requires Rep() && c < |vol.fat| && x < 0x1000_0000 && (c == geo.root ==> x != 0)
      modifies this`disk, this`table, this`vol
      ensures Rep() && vol == old(vol).(fat := old(vol).fat[c := x])
    {
      hide W32, U32, Geo.Ok, Geo.CopyAt, ClustersAre, CopyIs, Sized, TableOk;
      ghost var was := table;
      TableSet(geo, was, vol.fat, c, x);
      ghost var now := SetEntry(was, c, x);
      var s := c / 128;
      for f := 0 to geo.fatCount
        invariant Sized(disk) && ClustersAre(geo, disk, vol.data) && vol == old(vol) && table == was
        invariant (forall k :: 0 <= k < f ==> CopyIs(geo, disk, k, now)) && forall k ::
                    f <= k < geo.fatCount ==> CopyIs(geo, disk, k, was)
      {
        SectorOf(geo, disk, f, was, s);
        var b := W32(disk[geo.CopyAt(f, s)], c % 128 * 4, x);
        WriteCopy(geo, disk, f, s, b, was, vol.data);
        disk := disk[geo.CopyAt(f, s) := b];
      }
      table := now;
      vol := vol.(fat := vol.fat[c := x]);
    }

    /** disk_write of a cluster. */
    method PutCluster(c: nat, b: seq<byte>)
      requires Rep() && 2 <= c < |vol.fat| && |b| == SECTOR
      modifies this`disk, this`vol
      ensures Rep() && vol == old(vol).(data := old(vol).data[c := b])
    {
      hide Geo.Ok, Geo.CopyAt, CopyIs, Sized, ClustersAre, Copies, TableOk;
      GeoFacts(geo);
      LimitIs(geo, table, vol.fat);
      WriteCluster(geo, disk, c, b, table, vol.data);
      disk := disk[geo.ClusterAt(c) := b];
      vol := vol.(data := vol.data[c := b]);
    }

    /** disk_read of a cluster. */
    method GetCluster(c: nat) returns (b: seq<byte>)
      requires Rep() && 2 <= c < |vol.data|
      ensures b == vol.data[c]
    {
      hide Copies, TableIs, Sized, Geo.Ok;
      return disk[geo.ClusterAt(c)];
    }

    /** The search of allocate_cluster in `[lo, hi)`. */
    method FindFree(lo: nat, hi: nat) returns (c: nat)
      requires Rep() && lo <= hi <= |vol.fat|
      ensures c == FirstFree(vol.fat, lo, hi)
    {
      hide Copies, TableIs, Sized, Geo.Ok, Shaped, ClustersAre;
      c := lo;
      while c < hi
        invariant lo <= c <= hi && FirstFree(vol.fat, c, hi) == FirstFree(vol.fat, lo, hi)
      {
        var x := FatGet(c);
        if x == 0 { return; }
        c := c + 1;
      }
    }

    /** allocate_cluster: next fit from the hint, wrapping to cluster 3; the cluster is zeroed. */
    method AllocateCluster() returns (c: nat)
      requires Rep()
      modifies this
      ensures Rep() && chains == old(chains) && |old(vol).fat| > 3 && |old(vol).data| == |old(vol).fat|
      ensures c == NextFit(old(vol).fat, old(nextFree))
      ensures if c == 0 then vol == old(vol) else vol == Taken(old(vol), c) && nextFree == c + 1
    {
      hide Copies, TableIs, Sized, Geo.Ok, ClustersAre, FirstFree, Blank;
      LimitIs(geo, table, vol.fat);
      GeoFacts(geo);
      var limit := geo.Limit();
      if nextFree < 3 || nextFree >= limit { nextFree := 3; }
      var start := nextFree;
      c := FindFree(start, limit);
      if c == limit {
        c := FindFree(3, start);
        if c == start { return 0; }
      }
      FatSet(c, END);
      PutCluster(c, Blank());
      nextFree := c + 1;
    }

    /** Fills `n` bytes from a text: at most `n` bytes in upper case, the rest spaces. */
    method FillName(text: seq<byte>, n: nat) returns (out: seq<byte>)
      ensures out == Padded(text, n)
    {
      out := [];
      while |out| < n
        invariant |out| <= n && forall i :: 0 <= i < |out| ==> out[i] == if i < |text| then Upper(text[i]) else SPACE
        decreases n - |out|
      {
        out := out + [if |out| < |text| then Upper(text[|out|]) else SPACE];
      }
    }

    method BaseEnd(name: seq<byte>) returns (i: nat)
      ensures i == BaseLength(name, 8)
    {
      i := 0;
      assert name[0..] == name;
      while i < |name| && name[i] != DOT && name[i] != SLASH && i < 8
        invariant i <= |name| && i <= 8 && i + BaseLength(name[i..], 8 - i) == BaseLength(name, 8)
      {
        assert name[i..][1..] == name[i + 1..];
        i := i + 1;
      }
    }

    method FindDot(name: seq<byte>, i: nat) returns (dot: nat)
      requires i <= |name| && forall k :: 0 <= k < i ==> name[k] != DOT
      ensures dot == DotAt(name)
    {
      dot := i;
      NoDotBefore(name, i);
      while dot < |name| && name[dot] != DOT
        invariant i <= dot <= |name| && dot + DotAt(name[dot..]) == DotAt(name)
      {
        assert name[dot..][1..] == name[dot + 1..];
        dot := dot + 1;
      }
    }

    /** name83. */
    method MakeKey(name: seq<byte>) returns (key: seq<byte>)
      ensures key == Name83(name)
    {
      hide DotAt, BaseLength, Padded;
      var i := BaseEnd(name);
      var base := FillName(name[..i], 8);
      var dot := FindDot(name, i);
      var ext := FillName(if dot < |name| then name[dot + 1..] else [], 3);
      key := base + ext;
    }

    /** The comparison loop of find_entry. */
    method SameKey(root: seq<byte>, i: nat, key: seq<byte>) returns (same: bool)
      requires |root| == SECTOR && i < SLOTS && |key| == 11
      ensures same == (NameAt(root, i) == key)
    {
      var j := 0;
      while j < 11
        invariant j <= 11 && NameAt(root, i)[..j] == key[..j]
      {
        assert NameAt(root, i)[j] == root[i * 32 + j];
        if root[i * 32 + j] != key[j] { return false; }
        j := j + 1;
      }
      assert NameAt(root, i)[..11] == NameAt(root, i) && key[..11] == key;
      return true;
    }

    /** find_entry: the root sector and the slot that bears the name, or 16. */
    method FindEntry(key: seq<byte>) returns (root: seq<byte>, slot: nat)
      requires Rep() && |key| == 11
      ensures root == vol.data[geo.root] && slot == Slot(root, key, 0)
    {
      hide Copies, TableIs, Sized, Geo.Ok, ClustersAre, NameAt, Live;
      root := GetCluster(geo.root);
      slot := 0;
      while slot < SLOTS
        invariant slot <= SLOTS && Slot(root, key, slot) == Slot(root, key, 0)
      {
        var same := SameKey(root, slot, key);
        if Live(root, slot) && same { return; }
        slot := slot + 1;
      }
    }

    /** The loop of disk_store_large that frees the old chain. */
    method FreeChain(cluster: nat, ghost cs: seq<nat>)
      requires Rep() && geo.root !in cs
      requires if 2 <= cluster < |vol.fat| then Chain(vol.fat, cs) && cs[0] == cluster else cs == []
      modifies this`disk, this`table, this`vol
      ensures Rep() && InRange(old(vol).fat, cs) && vol == old(vol).(fat := Freed(old(vol).fat, cs))
    {
      hide Copies, TableIs, Sized, Geo.Ok, ClustersAre, Chain, Freed, Shaped;
      LimitIs(geo, table, vol.fat);
      ghost var fat := vol.fat;
      ChainParts(fat, cs);
      FreedNothing(fat);
      if Chain(fat, cs) { HeadIn(fat, cs); }
      var limit, c, visited := geo.Limit(), cluster, 0;
      ghost var rest := cs;
      while c >= 2 && c < limit && visited < limit
        invariant Rep() && |vol.fat| == limit && vol == old(vol).(fat := vol.fat)
        invariant cs == [] ==> vol.fat == fat && !(2 <= c < limit)
        invariant cs != [] ==>
                    Chain(vol.fat, rest) && rest != [] && c == rest[0] && InRange(vol.fat, rest)
                    && Freed(vol.fat, rest) == Freed(fat, cs)
        invariant cs != [] ==> visited + |rest| == |cs| && rest == cs[visited..]
        decreases limit - visited
      {
        ChainTail(vol.fat, rest);
        FreedStep(vol.fat, rest);
        assert c == cs[visited];
        var next := FatGet(c);
        FatSet(c, 0);
        SmallTable(vol, geo.root);
        if next >= EOC || next < 2 { break; }
        HeadIn(vol.fat, rest[1..]);
        ChainParts(vol.fat, rest[1..]);
        rest := rest[1..];
        c, visited := next, visited + 1;
      }
      ChainFits(fat, cs);
    }

    /** The first part of disk_store_large: an old file of that name is freed and its slot marked. */
    method ClearOld(key: seq<byte>)
      requires Valid() && |key| == 11
      modifies this`disk, this`table, this`vol, this`chains
      ensures Valid() && Files(old(vol), geo.root, old(chains)) && |old(chains)| == SLOTS
      ensures var o := Slot(old(vol).data[geo.root], key, 0);
              && (o < SLOTS ==> InRange(old(vol).fat, old(chains)[o]))
              && vol == Cleared(old(vol), geo.root, old(chains), o) && chains == Without(old(chains), o)
    {
      hide Copies, TableIs, Sized, Geo.Ok, ClustersAre, NameAt, Live, Slot, Files, First, Freed, Chain, Erased;
      ghost var v0, chains0 := vol, chains;
      var root, slot := FindEntry(key);
      ClearedFacts(v0, geo.root, chains0, key);
      FilesShape(v0, geo.root, chains0);
      if slot < SLOTS {
        FileIn(v0, geo.root, chains0, slot);
        FreeChain(First(root, slot), chains0[slot]);
        PutCluster(geo.root, Erased(root, slot));
        chains := chains[slot := []];
      }
    }

    /** The search for a slot that can take the new entry. */
    method FindVacant(root: seq<byte>) returns (slot: nat)
      requires |root| == SECTOR
      ensures slot == Vacant(root, 0)
    {
      hide Live;
      slot := 0;
      while slot < SLOTS
        invariant slot <= SLOTS && Vacant(root, slot) == Vacant(root, 0)
      {
        if !Live(root, slot) { return; }
        slot := slot + 1;
      }
    }

    /** The copying loop: the next cluster of the data, zero padded. */
    method FillChunk(bytes: seq<byte>, written: nat) returns (b: seq<byte>)
      requires written % SECTOR == 0
      ensures b == Chunk(bytes, written / SECTOR)
    {
      b := [];
      var j := written / SECTOR;
      assert j * SECTOR == written;
      for i := 0 to SECTOR
        invariant |b| == i && forall k :: 0 <= k < i ==> b[k] == if j * SECTOR + k < |bytes| then bytes[j * SECTOR + k]
                  else 0
      {
        b := b + [if written + i < |bytes| then bytes[written + i] else 0];
      }
    }

    /** One more cluster for the chain being written: allocated, then linked behind the tail. */
    method Extend(tail: nat, ghost v1: Vol, ghost cs: seq<nat>) returns (next: nat)
      requires Rep() && Grown(v1, vol, geo.root, cs) && cs != [] && tail == cs[|cs| - 1]
      modifies this
      ensures Rep() && chains == old(chains) && |vol.data| == |old(vol).data|
      ensures next == 0 ==> vol == old(vol) && Free(v1.fat, 3) == |cs|
      ensures next != 0 ==> Grown(v1, vol, geo.root, cs + [next]) && forall c ::
                0 <= c < |vol.data| && c in cs ==> vol.data[c] == old(vol).data[c]
    {
      hide Copies, TableIs, Sized, Geo.Ok, ClustersAre, Blank, Free, NextFit, Chain;
      ghost var v := vol;
      NextFitFails(v.fat, nextFree);
      TailIn(v.fat, cs);
      next := AllocateCluster();
      if next != 0 {
        GrowMore(v1, v, geo.root, cs, next);
        FatSet(tail, next);
      }
    }

    /** The writing loop of disk_store_large: a chain grown cluster by cluster. */
    method WriteChain(bytes: seq<byte>, first: nat, ghost v1: Vol) returns (ok: bool, ghost cs: seq<nat>)
      requires Rep() && Grown(v1, vol, geo.root, [first]) && first < |vol.data| && vol.data[first] == Blank()
      modifies this
      ensures Rep() && chains == old(chains) && Grown(v1, vol, geo.root, cs) && cs != [] && cs[0] == first
      ensures ok == (Clusters(|bytes|) <= Free(v1.fat, 3)) && (ok ==> Holds(vol, cs, bytes))
    {
      hide Copies, TableIs, Sized, Geo.Ok, ClustersAre, Chunk, Blank, Clusters, Grown, Free, Shaped, Written;
      cs := [first];
      var tail, written := first, 0;
      GrownParts(v1, vol, geo.root, cs);
      WrittenStart(vol, first, bytes);
      while written < |bytes|
        invariant Rep() && chains == old(chains) && Grown(v1, vol, geo.root, cs) && cs != [] && cs[0] == first
                  && tail == cs[|cs| - 1]
        invariant written % SECTOR == 0 && |cs| == (if written < |bytes| then written / SECTOR + 1
                  else Clusters(|bytes|))
        invariant Written(vol, cs, bytes, if written < |bytes| then written / SECTOR else |cs|)
        decreases |bytes| - written
      {
        ghost var j := written / SECTOR;
        var b := FillChunk(bytes, written);
        GrownParts(v1, vol, geo.root, cs);
        GrowWrite(v1, vol, geo.root, cs, j, b);
        WrittenMore(vol, cs, bytes, j);
        PutCluster(tail, b);
        written := written + SECTOR;
        Progress(|bytes|, j);
        if written < |bytes| {
          ghost var v := vol;
          var next := Extend(tail, v1, cs);
          if next == 0 { return false, cs; }
          GrownParts(v1, vol, geo.root, cs + [next]);
          WrittenLonger(v, vol, cs, next, bytes, j + 1);
          cs := cs + [next];
          tail := next;
        }
      }
      GrownParts(v1, vol, geo.root, cs);
      WrittenAll(vol, cs, bytes);
      ok := true;
    }

    /** The rest of disk_store_large once a slot is found: the chain, then the entry. */
    method Fill(root: seq<byte>, slot: nat, key: seq<byte>, bytes: seq<byte>, ghost v0: Vol,
                ghost chains0: seq<seq<nat>>) returns (ok: bool, ghost cs: seq<nat>)
      requires Valid() && |bytes| < 0x1_0000_0000 && |key| == 11
      requires Files(v0, geo.root, chains0) && |chains0| == SLOTS && Shaped(v0, geo.root)
      requires var o := Slot(v0.data[geo.root], key, 0);
               (o < SLOTS ==> InRange(v0.fat, chains0[o])) && vol == Cleared(v0, geo.root, chains0, o)
                   && chains == Without(chains0, o)
      requires root == vol.data[geo.root] && slot == Vacant(root, 0) < SLOTS
      modifies this
      ensures Valid() && Outcome(v0, vol, geo.root, chains0, chains, key, bytes, cs, ok)
    {
      hide Copies, TableIs, Sized, Geo.Ok, ClustersAre, Blank, Clusters, Grown, Free, Files, Outcome, NextFit, Cleared,
           Slot, Live, NameAt, Entered, Taken, Holds, Vacant, Chain;
      ghost var v1 := vol;
      NextFitFails(v1.fat, nextFree);
      var first := AllocateCluster();
      if first == 0 {
        StoreFailed(v0, v1, v1, geo.root, chains0, key, bytes, []);
        return false, [];
      }
      GrowStart(v1, geo.root, first);
      TakenBlank(v1, first);
      ok, cs := WriteChain(bytes, first, v1);
      if ok {
        StoreDone(v0, v1, vol, geo.root, chains0, key, bytes, cs);
        PutCluster(geo.root, Entered(root, slot, key, first, |bytes|));
        chains := chains[slot := ChainOf(key, cs)];
      } else {
        StoreStopped(v0, v1, vol, geo.root, chains0, key, bytes, cs);
      }
    }

    /** disk_store_large. */
    method StoreLarge(name: seq<byte>, bytes: seq<byte>) returns (ok: bool, ghost cs: seq<nat>)
      requires Valid() && |bytes| < 0x1_0000_0000
      modifies this
      ensures Valid() && Outcome(old(vol), vol, geo.root, old(chains), chains, Name83(name), bytes, cs, ok)
      ensures ok ==> FileOnDisk(geo, disk, cs, bytes)
    {
      hide Copies, TableIs, Sized, Geo.Ok, ClustersAre, Name83, Files, Outcome, Cleared, Slot, Live, NameAt, Clusters,
           Free, Vacant, FileOnDisk;
      ghost var v0, chains0 := vol, chains;
      var key := MakeKey(name);
      ClearOld(key);
      var root := GetCluster(geo.root);
      var slot := FindVacant(root);
      cs := [];
      if slot == SLOTS {
        StoreFailed(v0, vol, vol, geo.root, chains0, key, bytes, cs);
        return false, [];
      }
      ok, cs := Fill(root, slot, key, bytes, v0, chains0);
      if ok {
        OutcomeHolds(v0, vol, geo.root, chains0, chains, key, bytes, cs);
        StoredOnDisk(geo, disk, table, vol, cs, bytes);
      }
    }

    /**
     The reading loop of read_bootmode, for any file and buffer size. It copies whole sectors; the file is what they
     hold up to its size.
     */
    method ReadFile(cluster: nat, size: nat) returns (data: seq<byte>)
      requires Valid() && exists i :: 0 <= i < SLOTS && chains[i] != [] && chains[i][0] == cluster
      ensures data == Sectors(vol, cluster, size) && |data| % SECTOR == 0
      ensures Read(vol, cluster, size) == data[..if |data| < size then |data| else size]
    {
      hide Copies, TableIs, Sized, Geo.Ok, ClustersAre, Files, Chain, Read, Sectors;
      FilesShape(vol, geo.root, chains);
      ghost var i :| 0 <= i < SLOTS && chains[i] != [] && chains[i][0] == cluster;
      FileChain(vol, geo.root, chains, i);
      SectorsHold(vol, cluster, size);
      ghost var cs, k: nat := chains[i], 0;
      var c, pos: nat := cluster, 0;
      data := [];
      while pos < size
        invariant k < |cs| && c == cs[k]
        invariant data + Sectors(vol, c, if pos < size then size - pos else 0) == Sectors(vol, cluster, size)
        decreases size - pos
      {
        ghost var left := size - pos;
        SectorStep(vol, geo.root, cs, k, left);
        var b := GetCluster(c);
        ghost var before := data;
        data := data + b;
        pos := pos + SECTOR;
        if pos < size {
          var next := FatGet(c);
          if next >= EOC { return; }
          assert before + (b + Sectors(vol, next, left - SECTOR)) == data + Sectors(vol, next, left - SECTOR);
          c, k := next, k + 1;
        } else {
          NoSectors(vol, c);
        }
      }
      NoSectors(vol, c);
    }
  }

  // ------------------------------------------------------ facts for the methods

  /** One cluster of a chain being read. */
  lemma SectorStep(v: Vol, r: nat, cs: seq<nat>, k: nat, left: nat)
    requires Shaped(v, r) && Chain(v.fat, cs) && k < |cs| && left > 0
    ensures 2 <= cs[k] < |v.data| && |v.data[cs[k]]| == SECTOR
    ensures left <= SECTOR || v.fat[cs[k]] >= EOC ==> Sectors(v, cs[k], left) == v.data[cs[k]]
    ensures left > SECTOR && v.fat[cs[k]] < EOC ==>
              k + 1 < |cs| && cs[k + 1] == v.fat[cs[k]] && Sectors(v, cs[k], left) == v.data[cs[k]] + Sectors(v,
                  cs[k + 1], left - SECTOR)
  {
    assert k < |cs| - 1 ==> Link(v.fat, cs, k);
  }

  lemma NoSectors(v: Vol, c: nat)
    ensures Sectors(v, c, 0) == []
  {
  }

  /** The first `j` clusters of the chain hold their part of the data. */
  ghost predicate Written(v: Vol, cs: seq<nat>, bytes: seq<byte>, j: nat) {
    && InRange(v.fat, cs) && |v.data| == |v.fat| && j <= |cs|
    && forall i :: 0 <= i < j ==> v.data[cs[i]] == Chunk(bytes, i)
  }

  lemma GrownParts(v1: Vol, v: Vol, r: nat, cs: seq<nat>)
    requires Grown(v1, v, r, cs)
    ensures cs != [] && InRange(v.fat, cs) && Distinct(cs) && |v.data| == |v.fat| && |v.fat| > 3 && Shaped(v, r)
            && Chain(v.fat, cs)
    ensures 3 <= |v1.fat| && Free(v1.fat, 3) >= |cs|
  {
    hide Zeros;
  }

  lemma WrittenStart(v: Vol, first: nat, bytes: seq<byte>)
    requires |v.data| == |v.fat| && 2 <= first < |v.fat| && v.data[first] == Blank()
    ensures Written(v, [first], bytes, if 0 < |bytes| then 0 else 1) && (bytes == [] ==> Clusters(|bytes|) == 1)
  {
    assert bytes == [] ==> Chunk(bytes, 0) == Blank();
  }

  lemma WrittenMore(v: Vol, cs: seq<nat>, bytes: seq<byte>, j: nat)
    requires Written(v, cs, bytes, j) && j < |cs| && Distinct(cs)
    ensures Written(v.(data := v.data[cs[j] := Chunk(bytes, j)]), cs, bytes, j + 1)
  {
  }

  lemma WrittenLonger(v: Vol, v': Vol, cs: seq<nat>, c: nat, bytes: seq<byte>, j: nat)
    requires Written(v, cs, bytes, j) && |v'.data| == |v.data| && InRange(v'.fat, cs + [c]) && |v'.data| == |v'.fat|
    requires forall x :: 0 <= x < |v.data| && x in cs ==> v'.data[x] == v.data[x]
    ensures Written(v', cs + [c], bytes, j)
  {
    hide Chunk;
    forall i | 0 <= i < j ensures v'.data[(cs + [c])[i]] == Chunk(bytes, i)
      { assert (cs + [c])[i] == cs[i] && cs[i] in cs; }
  }

  lemma Progress(size: nat, j: nat)
    requires j * SECTOR < size
    ensures var w := j * SECTOR + SECTOR;
            (w + 0) / SECTOR == j + 1 && w % SECTOR == 0 && (w < size ==> Clusters(size) > j + 1)
            && (w >= size ==> Clusters(size) == j + 1)
  {
  }

  lemma WrittenAll(v: Vol, cs: seq<nat>, bytes: seq<byte>)
    requires Written(v, cs, bytes, |cs|) && |cs| == Clusters(|bytes|)
    ensures Holds(v, cs, bytes)
  {
  }

  lemma TakenBlank(v: Vol, c: nat)
    requires c < |v.fat| == |v.data|
    ensures |Taken(v, c).data| == |v.data| && Taken(v, c).data[c] == Blank() && |Taken(v, c).fat| == |v.fat|
  {
    hide Blank;
  }

  /** What FreeChain is called with. */
  lemma FileIn(v: Vol, r: nat, chains: seq<seq<nat>>, i: nat)
    requires Files(v, r, chains) && i < SLOTS && Live(v.data[r], i)
    ensures r !in chains[i]
    ensures if 2 <= First(v.data[r], i) < |v.fat| then Chain(v.fat, chains[i]) && chains[i] != []
            && chains[i][0] == First(v.data[r], i) else chains[i] == []
  {
    hide Live, First;
    assert FileOk(v, r, chains, i);
  }

  /** No slot or no cluster: only the old file is gone. */
  lemma StoreFailed(v: Vol, v1: Vol, v': Vol, r: nat, chains: seq<seq<nat>>, key: seq<byte>, bytes: seq<byte>,
                    cs: seq<nat>)
    requires Files(v, r, chains) && |key| == 11 && |chains| == SLOTS && Shaped(v, r)
    requires var o := Slot(v.data[r], key, 0);
             (o < SLOTS ==> InRange(v.fat, chains[o])) && v1 == Cleared(v, r, chains, o) && v' == v1
    requires Shaped(v1, r) && !CanStore(v1, r, |bytes|)
    ensures Outcome(v, v', r, chains, Without(chains, Slot(v.data[r], key, 0)), key, bytes, cs, false)
    ensures Files(v', r, Without(chains, Slot(v.data[r], key, 0)))
  {
    hide Slot, Cleared, Live, NameAt, Record, Chain, CanStore, FileOk, Clusters, Zeros;
    ClearedFacts(v, r, chains, key);
    var o := Slot(v.data[r], key, 0);
    forall j, c | 0 <= j < SLOTS && j != o && c in chains[j] ensures Intact(v, v', c)
      { OthersIntact(v, v1, v', r, chains, key, [], j, c); }
  }

  /** A cluster of another file is untouched by clearing and growing. */
  lemma OthersIntact(v: Vol, v1: Vol, v': Vol, r: nat, chains: seq<seq<nat>>, key: seq<byte>, cs: seq<nat>, j: nat,
                     c: nat)
    requires Files(v, r, chains) && |key| == 11 && j < SLOTS && c in chains[j] && j != Slot(v.data[r], key, 0)
    requires var o := Slot(v.data[r], key, 0);
             (o < SLOTS ==> InRange(v.fat, chains[o])) && v1 == Cleared(v, r, chains, o)
    requires |v'.fat| == |v.fat| == |v'.data| && c !in cs
    requires forall x :: 0 <= x < |v.fat| && x !in cs && x != r ==>
               x < |v1.fat| && x < |v1.data| && v'.fat[x] == v1.fat[x] && v'.data[x] == v1.data[x]
    ensures Intact(v, v', c)
  {
    hide Slot, Cleared, Live, NameAt, Record, Chain, FileOk, Zeros;
    ClearedFacts(v, r, chains, key);
    FileChain(v, r, chains, j);
    var o := Slot(v.data[r], key, 0);
    assert o < SLOTS ==> Separate(chains[j], chains[o]);
  }

  lemma StoreStopped(v: Vol, v1: Vol, v': Vol, r: nat, chains: seq<seq<nat>>, key: seq<byte>, bytes: seq<byte>,
                     cs: seq<nat>)
    requires Files(v, r, chains) && |key| == 11 && |chains| == SLOTS && Shaped(v, r)
    requires var o := Slot(v.data[r], key, 0);
             (o < SLOTS ==> InRange(v.fat, chains[o])) && v1 == Cleared(v, r, chains, o)
    requires Grown(v1, v', r, cs) && Shaped(v1, r) && !CanStore(v1, r, |bytes|)
    ensures Outcome(v, v', r, chains, Without(chains, Slot(v.data[r], key, 0)), key, bytes, cs, false)
    ensures Files(v', r, Without(chains, Slot(v.data[r], key, 0)))
  {
    hide Slot, Cleared, Live, NameAt, Record, Chain, CanStore, FileOk, Clusters, Zeros, Separate;
    ClearedFacts(v, r, chains, key);
    var o := Slot(v.data[r], key, 0);
    GrownFiles(v1, v', r, cs, Without(chains, o));
    forall j, c | 0 <= j < SLOTS && j != o && c in chains[j] ensures Intact(v, v', c) {
      Apart(Without(chains, o)[j], cs, c);
      OthersIntact(v, v1, v', r, chains, key, cs, j, c);
    }
  }

  lemma Apart(a: seq<nat>, b: seq<nat>, c: nat)
    requires Separate(a, b) && c in a
    ensures c !in b
  {
  }

  lemma StoreDone(v: Vol, v1: Vol, v2: Vol, r: nat, chains: seq<seq<nat>>, key: seq<byte>, bytes: seq<byte>,
                  cs: seq<nat>)
    requires Files(v, r, chains) && |key| == 11 && |chains| == SLOTS && Shaped(v, r) && |bytes| < 0x1_0000_0000
    requires var o := Slot(v.data[r], key, 0);
             (o < SLOTS ==> InRange(v.fat, chains[o])) && v1 == Cleared(v, r, chains, o)
    requires Grown(v1, v2, r, cs) && cs != [] && Shaped(v1, r) && CanStore(v1, r, |bytes|) && Holds(v2, cs, bytes)
    ensures var slot := Vacant(v1.data[r], 0);
            && r < |v2.data|
            && var v' := v2.(data := v2.data[r := Entered(v1.data[r], slot, key, cs[0], |bytes|)]);
            var chains' := Without(chains, Slot(v.data[r], key, 0))[slot := ChainOf(key, cs)];
            Outcome(v, v', r, chains, chains', key, bytes, cs, true) && Files(v', r, chains')
  {
    hide Slot, Cleared, Live, NameAt, Record, Chain, FileOk, Clusters, Zeros, Separate, Entered, Vacant, Chunk, Files;
    ClearedFacts(v, r, chains, key);
    var o, slot := Slot(v.data[r], key, 0), Vacant(v1.data[r], 0);
    GrownFiles(v1, v2, r, cs, Without(chains, o));
    EnterKeeps(v2, r, Without(chains, o), slot, key, cs, |bytes|);
    var v' := v2.(data := v2.data[r := Entered(v1.data[r], slot, key, cs[0], |bytes|)]);
    forall j, c | 0 <= j < SLOTS && j != o && c in chains[j] ensures Intact(v, v', c) {
      Apart(Without(chains, o)[j], cs, c);
      OthersIntact(v, v1, v', r, chains, key, cs, j, c);
    }
  }

  lemma NoDotBefore(name: seq<byte>, i: nat)
    requires i <= |name| && forall k :: 0 <= k < i ==> name[k] != DOT
    ensures i + DotAt(name[i..]) == DotAt(name)
  {
    if i > 0 {
      NoDotBefore(name, i - 1);
      assert name[i - 1..][1..] == name[i..];
    } else {
      assert name[i..] == name;
    }
  }

  lemma FreedNothing(fat: seq<nat>)
    ensures Freed(fat, []) == fat
  {
  }

  lemma FreedStep(fat: seq<nat>, cs: seq<nat>)
    requires cs != [] && InRange(fat, cs)
    ensures InRange(fat[cs[0] := 0], cs[1..]) && Freed(fat, cs) == Freed(fat[cs[0] := 0], cs[1..])
    ensures |cs| == 1 ==> Freed(fat, cs) == fat[cs[0] := 0]
  {
  }

  lemma SmallTable(v: Vol, r: nat)
    requires Shaped(v, r)
    ensures |v.fat| < EOC
  {
  }

  lemma ChainFits(fat: seq<nat>, cs: seq<nat>)
    requires cs == [] || Chain(fat, cs)
    ensures |cs| <= |fat|
  {
    ChainLength(cs, |fat|);
  }

  lemma FirstCopy(g: Geo, disk: seq<seq<byte>>, table: seq<seq<byte>>, s: nat)
    requires g.Ok() && Copies(g, disk, table) && s < |table|
    ensures g.CopyAt(0, s) < |disk| && disk[g.CopyAt(0, s)] == table[s]
  {
    hide Geo.CopyAt;
    assert CopyIs(g, disk, 0, table);
    assert SectorIs(g, disk, 0, s, table[s]);
  }

  lemma SectorOf(g: Geo, disk: seq<seq<byte>>, f: nat, table: seq<seq<byte>>, s: nat)
    requires CopyIs(g, disk, f, table) && s < |table|
    ensures g.CopyAt(f, s) < |disk| && disk[g.CopyAt(f, s)] == table[s] && |table| == g.fatSectors
  {
    hide Geo.CopyAt;
    assert SectorIs(g, disk, f, s, table[s]);
  }

  lemma LimitIs(g: Geo, table: seq<seq<byte>>, fat: seq<nat>)
    requires TableIs(g, table, fat)
    ensures g.dataStart <= SECTORS && |fat| == g.Limit()
  {
  }
}
