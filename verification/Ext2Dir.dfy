/**
 Directory blocks: variable-length records that tile one 4 KiB block. The record bytes are tied
 to a list of entries, and the byte edits of dir_add and ext2_remove to edits of that list.
 */
module Ext2Dir {
  import opened Bytes
  import opened Ext2Layout

  datatype Entry = Entry(ino: nat, rec: nat, kind: byte, name: seq<byte>)

  /** Bytes a record with an `n`-byte name needs: header and name rounded up to a multiple of 4. */
  function Ideal(n: nat): (r: nat)
    ensures n + 8 <= r < n + 12
  {
    (8 + n + 3) / 4 * 4
  }

  // ------------------------------------------------------------ records in bytes

  function Rec(b: seq<byte>, p: nat): nat
    requires p + 8 <= |b|
  {
    U16(b, p + 4)
  }

  function Len(b: seq<byte>, p: nat): nat
    requires p + 8 <= |b|
  {
    b[p + 6]
  }

  /** A record starts at `p`, holds its name and ends inside the block. */
  predicate RecordOk(b: seq<byte>, p: nat) {
    |b| == BS && p + 8 <= BS && Rec(b, p) >= Ideal(Len(b, p)) && p + Rec(b, p) <= BS
  }

  /** From position `p` on, the block is exactly tiled by records that each hold their name. */
  ghost predicate Tiled(b: seq<byte>, p: nat)
    requires |b| == BS
    decreases BS - p
  {
    p == BS || (RecordOk(b, p) && Tiled(b, p + Rec(b, p)))
  }

  function EntryAt(b: seq<byte>, p: nat): Entry
    requires |b| == BS && p + 8 <= BS && p + 8 + Len(b, p) <= BS
  {
    Entry(U32(b, p), Rec(b, p), b[p + 7], b[p + 8..p + 8 + Len(b, p)])
  }

  ghost function Entries(b: seq<byte>, p: nat): seq<Entry>
    requires |b| == BS && Tiled(b, p)
    decreases BS - p
  {
    if p == BS then [] else [EntryAt(b, p)] + Entries(b, p + Rec(b, p))
  }

  /** The first record of a tiled block, and the rest. */
  lemma TiledStep(b: seq<byte>, p: nat)
    requires |b| == BS && p < BS && Tiled(b, p)
    ensures RecordOk(b, p) && p + 8 + Len(b, p) <= BS && p + Rec(b, p) <= BS && Rec(b, p) >= 8
            && Tiled(b, p + Rec(b, p))
    ensures Entries(b, p) == [EntryAt(b, p)] + Entries(b, p + Rec(b, p))
            && Entries(b, p)[1..] == Entries(b, p + Rec(b, p))
  {
    hide Rec, Len;
  }

  lemma TiledBuild(b: seq<byte>, p: nat)
    requires RecordOk(b, p) && Tiled(b, p + Rec(b, p))
    ensures Tiled(b, p) && p + 8 + Len(b, p) <= BS && Entries(b, p) == [EntryAt(b, p)] + Entries(b, p + Rec(b, p))
  {
    hide Rec, Len;
  }

  /** Records do not depend on bytes before them. */
  lemma {:induction false} SuffixSame(b: seq<byte>, b': seq<byte>, p: nat)
    requires |b| == |b'| == BS && Tiled(b, p) && p <= BS && b[p..] == b'[p..]
    ensures Tiled(b', p) && Entries(b', p) == Entries(b, p)
    decreases BS - p
  {
    hide U16, U32;
    if p < BS {
      RecordSame(b, b', p);
      var q := p + Rec(b, p);
      assert b[q..] == b[p..][q - p..] && b'[q..] == b'[p..][q - p..];
      SuffixSame(b, b', q);
    }
  }

  /** A record depends only on its own bytes. */
  lemma RecordSame(b: seq<byte>, b': seq<byte>, p: nat)
    requires |b| == |b'| == BS && p + 8 <= BS && p + 8 + Len(b, p) <= BS
    requires forall i :: p <= i < p + 8 + Len(b, p) ==> b[i] == b'[i]
    ensures Rec(b', p) == Rec(b, p) && Len(b', p) == Len(b, p) && EntryAt(b', p) == EntryAt(b, p)
  {
    hide Le;
    assert b[p..p + 4] == b'[p..p + 4] && b[p + 4..p + 6] == b'[p + 4..p + 6];
    assert b[p + 8..p + 8 + Len(b, p)] == b'[p + 8..p + 8 + Len(b, p)];
  }

  // --------------------------------------------------------------- entry lists

  /** The inode a name is bound to, or 0: the first record that bears the name decides. */
  function Lookup(es: seq<Entry>, name: seq<byte>): nat {
    if es == [] then 0 else if es[0].ino != 0 && es[0].name == name then es[0].ino else Lookup(es[1..], name)
  }

  ghost predicate Distinct(es: seq<Entry>) {
    forall i, j :: 0 <= i < j < |es| ==> es[i].name != es[j].name
  }

  ghost predicate AllBound(es: seq<Entry>) {
    forall i :: 0 <= i < |es| ==> es[i].ino != 0
  }

  predicate HasRoom(e: Entry, need: nat) {
    e.ino != 0 && e.rec >= Ideal(|e.name|) + need
  }

  /** Some record can be split to make room for a name of `n` bytes. */
  ghost predicate RoomFor(es: seq<Entry>, n: nat) {
    exists i :: 0 <= i < |es| && HasRoom(es[i], Ideal(n))
  }

  /** The list after the first record with room gives its slack to a new entry. */
  function Inserted(es: seq<Entry>, ino: nat, kind: byte, name: seq<byte>): seq<Entry> {
    if es == [] then []
    else if HasRoom(es[0], Ideal(|name|)) then
      [es[0].(rec := Ideal(|es[0].name|)), Entry(ino, es[0].rec - Ideal(|es[0].name|), kind, name)] + es[1..]
    else [es[0]] + Inserted(es[1..], ino, kind, name)
  }

  /** The list after the first entry of inode `ino` is absorbed by the one before it. */
  function Removed(es: seq<Entry>, ino: nat): seq<Entry> {
    if |es| < 2 then es
    else if es[1].ino == ino then [es[0].(rec := es[0].rec + es[1].rec)] + es[2..]
    else [es[0]] + Removed(es[1..], ino)
  }

  lemma {:induction false} RoomTail(es: seq<Entry>, n: nat)
    requires RoomFor(es, n) && !HasRoom(es[0], Ideal(n))
    ensures RoomFor(es[1..], n)
  {
    var i :| 0 <= i < |es| && HasRoom(es[i], Ideal(n));
    assert es[1..][i - 1] == es[i];
  }

  /** Inserting binds the new name and disturbs no other binding. */
  lemma {:induction false} InsertedLookup(es: seq<Entry>, ino: nat, kind: byte, name: seq<byte>, other: seq<byte>)
    requires RoomFor(es, |name|) && ino != 0 && Lookup(es, name) == 0
    ensures Lookup(Inserted(es, ino, kind, name), other) == if other == name then ino else Lookup(es, other)
  {
    hide Ideal;
    var r := Inserted(es, ino, kind, name);
    if HasRoom(es[0], Ideal(|name|)) {
      var e := Entry(ino, es[0].rec - Ideal(|es[0].name|), kind, name);
      assert r[1..] == [e] + es[1..];
      assert ([e] + es[1..])[1..] == es[1..];
    } else {
      RoomTail(es, |name|);
      InsertedLookup(es[1..], ino, kind, name, other);
      assert r[1..] == Inserted(es[1..], ino, kind, name);
    }
  }

  /** Every name of the inserted list is an old name or the new one. */
  lemma {:induction false} InsertedNames(es: seq<Entry>, ino: nat, kind: byte, name: seq<byte>)
    requires RoomFor(es, |name|)
    ensures var r := Inserted(es, ino, kind, name);
            && |r| == |es| + 1 && r[0].name == es[0].name
            && (forall i :: 0 <= i < |r| ==>
                  (r[i].name == name && r[i].ino == ino)
                  || exists j :: 0 <= j < |es| && es[j].name == r[i].name && es[j].ino == r[i].ino)
  {
    hide Ideal;
    var r := Inserted(es, ino, kind, name);
    if HasRoom(es[0], Ideal(|name|)) {
      forall i | 2 <= i < |r| ensures exists j :: 0 <= j < |es| && es[j].name == r[i].name && es[j].ino == r[i].ino {
        assert es[i - 1] == r[i];
      }
      assert es[0].name == r[0].name && es[0].ino == r[0].ino;
    } else {
      RoomTail(es, |name|);
      InsertedNames(es[1..], ino, kind, name);
      var r1 := Inserted(es[1..], ino, kind, name);
      assert r[0] == es[0];
      forall i | 1 <= i < |r|
        ensures (r[i].name == name && r[i].ino == ino)
                || exists j :: 0 <= j < |es| && es[j].name == r[i].name && es[j].ino == r[i].ino
      {
        assert r[i] == r1[i - 1];
        if !(r[i].name == name && r[i].ino == ino) {
          var j :| 0 <= j < |es[1..]| && es[1..][j].name == r[i].name && es[1..][j].ino == r[i].ino;
          assert es[j + 1] == es[1..][j];
        }
      }
    }
  }

  /** The new entry is in the list. */
  lemma {:induction false} InsertedHas(es: seq<Entry>, ino: nat, kind: byte, name: seq<byte>) returns (i: nat)
    requires RoomFor(es, |name|)
    ensures var r := Inserted(es, ino, kind, name); i < |r| && r[i] == Entry(ino, r[i].rec, kind, name)
  {
    hide Ideal;
    if HasRoom(es[0], Ideal(|name|)) {
      i := 1;
    } else {
      RoomTail(es, |name|);
      i := InsertedHas(es[1..], ino, kind, name);
      i := i + 1;
    }
  }

  /** What a reader of the block finds at `p`: inode, length of the name, type and name. */
  predicate RecordSays(b: seq<byte>, p: nat, ino: nat, kind: byte, name: seq<byte>) {
    && |b| == 4096 && p + 8 + |name| <= 4096
    && U32(b, p) == ino && b[p + 6] == |name| && b[p + 7] == kind && b[p + 8..p + 8 + |name|] == name
  }

  /** Every entry is a record of the block. */
  lemma {:induction false} EntryRecord(b: seq<byte>, p: nat, i: nat) returns (q: nat)
    requires |b| == BS && p <= BS && Tiled(b, p) && i < |Entries(b, p)|
    ensures var e := Entries(b, p)[i]; RecordSays(b, q, e.ino, e.kind, e.name)
    decreases BS - p
  {
    hide U32, Rec, Ideal;
    assert p < BS;
    TiledStep(b, p);
    q := p;
    if i > 0 { q := EntryRecord(b, p + Rec(b, p), i - 1); }
  }

  lemma {:induction false} NotLookedUp(es: seq<Entry>, name: seq<byte>)
    requires AllBound(es)
    ensures Lookup(es, name) == 0 <==> forall i :: 0 <= i < |es| ==> es[i].name != name
  {
    if es != [] {
      assert AllBound(es[1..]);
      NotLookedUp(es[1..], name);
      if Lookup(es, name) == 0 {
        forall i | 0 <= i < |es| ensures es[i].name != name { if i > 0 { assert es[i] == es[1..][i - 1]; } }
      }
    }
  }

  /** With distinct names, every entry is what its name looks up. */
  lemma {:induction false} EntryLookedUp(es: seq<Entry>, i: nat)
    requires AllBound(es) && Distinct(es) && i < |es|
    ensures Lookup(es, es[i].name) == es[i].ino
  {
    if i > 0 { EntryLookedUp(es[1..], i - 1); }
  }

  lemma {:induction false} LookedUpEntry(es: seq<Entry>, name: seq<byte>) returns (i: nat)
    requires Lookup(es, name) != 0
    ensures i < |es| && es[i].name == name && es[i].ino == Lookup(es, name)
  {
    if es[0].ino != 0 && es[0].name == name {
      i := 0;
    } else {
      i := LookedUpEntry(es[1..], name);
      i := i + 1;
    }
  }

  /** A directory's list: `.` first, `..` bound, every record bound, no name twice. */
  ghost predicate Good(es: seq<Entry>) {
    |es| > 0 && es[0].name == DOT && Lookup(es, DOTDOT) != 0 && AllBound(es) && Distinct(es)
  }

  /** `.` is always bound. */
  lemma DotBound(es: seq<Entry>)
    requires Good(es)
    ensures Lookup(es, DOT) != 0
  {
  }

  lemma {:induction false} InsertedDistinct(es: seq<Entry>, ino: nat, kind: byte, name: seq<byte>)
    requires RoomFor(es, |name|) && Distinct(es) && forall i :: 0 <= i < |es| ==> es[i].name != name
    ensures Distinct(Inserted(es, ino, kind, name))
  {
    hide Ideal;
    var r := Inserted(es, ino, kind, name);
    if HasRoom(es[0], Ideal(|name|)) {
      assert r[2..] == es[1..];
      assert forall i :: 2 <= i < |r| ==> r[i] == es[i - 1];
    } else {
      RoomTail(es, |name|);
      InsertedDistinct(es[1..], ino, kind, name);
      InsertedNames(es[1..], ino, kind, name);
      var r1 := Inserted(es[1..], ino, kind, name);
      forall i, j | 0 <= i < j < |r| ensures r[i].name != r[j].name {
        assert r[j] == r1[j - 1];
        if i > 0 {
          assert r[i] == r1[i - 1];
        } else if r1[j - 1].name != name {
          var k :| 0 <= k < |es[1..]| && es[1..][k].name == r1[j - 1].name;
          assert es[k + 1] == es[1..][k];
        }
      }
    }
  }

  /** dir_add keeps a directory's list well formed. */
  lemma InsertedGood(es: seq<Entry>, ino: nat, kind: byte, name: seq<byte>)
    requires Good(es) && RoomFor(es, |name|) && ino != 0 && Lookup(es, name) == 0
    ensures Good(Inserted(es, ino, kind, name))
  {
    NotLookedUp(es, name);
    InsertedNames(es, ino, kind, name);
    InsertedDistinct(es, ino, kind, name);
    InsertedLookup(es, ino, kind, name, DOTDOT);
    var r := Inserted(es, ino, kind, name);
    hide Inserted;
    forall i | 0 <= i < |r| ensures r[i].ino != 0 {
      if !(r[i].name == name && r[i].ino == ino) { var j :| 0 <= j < |es| && es[j].name == r[i].name && es[j].ino
          == r[i].ino; }
    }
  }

  /** The list has exactly one entry of inode `t`, it bears `name`, and it is not the first. */
  ghost predicate OnlyEntry(es: seq<Entry>, t: nat, name: seq<byte>) {
    && |es| > 0 && es[0].ino != t
    && (forall i :: 0 <= i < |es| && es[i].ino == t ==> es[i].name == name)
    && (exists i :: 0 <= i < |es| && es[i].ino == t)
  }

  lemma OnlyEntryTail(es: seq<Entry>, t: nat, name: seq<byte>)
    requires OnlyEntry(es, t, name) && |es| >= 2 && es[1].ino != t
    ensures OnlyEntry(es[1..], t, name)
  {
    var i :| 0 <= i < |es| && es[i].ino == t;
    assert es[1..][i - 1] == es[i];
  }

  lemma OnlyEntryLength(es: seq<Entry>, t: nat, name: seq<byte>)
    requires OnlyEntry(es, t, name)
    ensures |es| >= 2
  {
  }

  /** Removing unbinds the name and disturbs no other binding. */
  lemma {:induction false} RemovedLookup(es: seq<Entry>, t: nat, name: seq<byte>, other: seq<byte>)
    requires OnlyEntry(es, t, name) && AllBound(es) && Distinct(es)
    ensures Lookup(Removed(es, t), other) == if other == name then 0 else Lookup(es, other)
  {
    OnlyEntryLength(es, t, name);
    var r := Removed(es, t);
    if es[1].ino == t {
      assert r[1..] == es[2..] && es[1..][1..] == es[2..];
      if other == name {
        assert AllBound(es[2..]);
        NotLookedUp(es[2..], name);
        assert forall i :: 0 <= i < |es[2..]| ==> es[2..][i].name == es[i + 2].name != es[1].name;
      }
    } else {
      OnlyEntryTail(es, t, name);
      RemovedLookup(es[1..], t, name, other);
      assert r[1..] == Removed(es[1..], t);
      assert es[0].name != name by {
        var i :| 0 <= i < |es| && es[i].ino == t;
        assert es[0].name != es[i].name;
      }
    }
  }

  /** `r` binds what `es` binds, in order, with entry `k` left out. */
  ghost predicate Skips(r: seq<Entry>, es: seq<Entry>, k: nat) {
    && k < |es| == |r| + 1
    && (forall i :: 0 <= i < k ==> r[i].name == es[i].name && r[i].ino == es[i].ino)
    && (forall i :: k <= i < |r| ==> r[i].name == es[i + 1].name && r[i].ino == es[i + 1].ino)
  }

  lemma {:induction false} RemovedSkips(es: seq<Entry>, t: nat, name: seq<byte>) returns (k: nat)
    requires OnlyEntry(es, t, name)
    ensures 0 < k < |es| && es[k].ino == t && Skips(Removed(es, t), es, k)
  {
    hide OnlyEntry, Skips;
    OnlyEntryLength(es, t, name);
    if es[1].ino == t {
      k := 1;
      SkipsFirst(es, t);
    } else {
      OnlyEntryTail(es, t, name);
      k := RemovedSkips(es[1..], t, name);
      SkipsCons(Removed(es[1..], t), es[1..], k, es[0]);
      assert [es[0]] + es[1..] == es;
      k := k + 1;
    }
  }

  lemma SkipsFirst(es: seq<Entry>, t: nat)
    requires |es| >= 2 && es[1].ino == t
    ensures Skips(Removed(es, t), es, 1)
  {
  }

  lemma SkipsCons(r: seq<Entry>, es: seq<Entry>, k: nat, e: Entry)
    requires Skips(r, es, k)
    ensures Skips([e] + r, [e] + es, k + 1)
  {
  }

  lemma SkipsGood(r: seq<Entry>, es: seq<Entry>, k: nat)
    requires Skips(r, es, k) && Good(es) && k > 0
    ensures |r| > 0 && r[0].name == DOT && AllBound(r) && Distinct(r)
  {
    hide Lookup;
  }

  /** ext2_remove keeps a directory's list well formed. */
  lemma RemovedGood(es: seq<Entry>, t: nat, name: seq<byte>)
    requires Good(es) && OnlyEntry(es, t, name) && name != DOTDOT
    ensures Good(Removed(es, t))
  {
    hide Removed, OnlyEntry, Skips, Lookup;
    var k := RemovedSkips(es, t, name);
    SkipsGood(Removed(es, t), es, k);
    RemovedLookup(es, t, name, DOTDOT);
  }

  // ------------------------------------------------------------- byte edits

  /** The bytes of a record, without the slack behind its name. */
  function RecordBytes(ino: nat, rec: nat, kind: byte, name: seq<byte>): (r: seq<byte>)
    requires |name| < 256
    ensures |r| == 8 + |name|
  {
    LeBytes(ino, 4) + LeBytes(rec, 2) + [|name|, kind] + name
  }

  lemma RecordReads(b: seq<byte>, p: nat, ino: nat, rec: nat, kind: byte, name: seq<byte>)
    requires |b| == BS && p + 8 + |name| <= BS && |name| < 256 && ino < 0x1_0000_0000 && rec < 0x1_0000
    ensures var r := Overwrite(b, p, RecordBytes(ino, rec, kind, name));
            Rec(r, p) == rec && Len(r, p) == |name| && EntryAt(r, p) == Entry(ino, rec, kind, name)
  {
    hide LeBytes, Le;
    var t := RecordBytes(ino, rec, kind, name);
    var r := Overwrite(b, p, t);
    assert t[0..4] == LeBytes(ino, 4) && t[4..6] == LeBytes(rec, 2) && t[8..] == name;
    assert r[p..p + 4] == t[0..4] && r[p + 4..p + 6] == t[4..6] && r[p + 8..p + 8 + |name|] == t[8..];
    assert r[p + 6] == |name| && r[p + 7] == kind;
    Limits();
    LeRoundTrip(ino, 4);
    LeRoundTrip(rec, 2);
  }

  /** Position of the first record from `p` on with room for a name of `n` bytes, or the block size. */
  ghost function RoomAt(b: seq<byte>, p: nat, n: nat): (q: nat)
    requires |b| == BS && Tiled(b, p) && p <= BS
    ensures p <= q <= BS
    decreases BS - p
  {
    if p == BS || HasRoom(EntryAt(b, p), Ideal(n)) then p else RoomAt(b, p + Rec(b, p), n)
  }

  lemma {:induction false} RoomAtIff(b: seq<byte>, p: nat, n: nat)
    requires |b| == BS && Tiled(b, p) && p <= BS
    ensures RoomAt(b, p, n) < BS <==> RoomFor(Entries(b, p), n)
    decreases BS - p
  {
    hide EntryAt, Ideal;
    if p < BS && !HasRoom(EntryAt(b, p), Ideal(n)) {
      var es := Entries(b, p);
      RoomAtIff(b, p + Rec(b, p), n);
      assert es[1..] == Entries(b, p + Rec(b, p));
      if RoomFor(es[1..], n) {
        var i :| 0 <= i < |es[1..]| && HasRoom(es[1..][i], Ideal(n));
        assert es[i + 1] == es[1..][i];
      }
      if RoomFor(es, n) { RoomTail(es, n); }
    } else if p < BS {
      assert Entries(b, p)[0] == EntryAt(b, p);
    }
  }

  /** The block after the record at `q` is cut to its ideal length and a new record put behind it. */
  function AddRecord(b: seq<byte>, q: nat, ino: nat, kind: byte, name: seq<byte>): (r: seq<byte>)
    requires |b| == BS && q + 8 <= BS && |name| < 256
    requires Rec(b, q) >= Ideal(Len(b, q)) + Ideal(|name|) && q + Rec(b, q) <= BS
    ensures |r| == BS
  {
    var used, rec := Ideal(Len(b, q)), Rec(b, q);
    Overwrite(W16(b, q + 4, used), q + used, RecordBytes(ino, rec - used, kind, name))
  }

  /** At the split record: two records stand where one stood. */
  lemma AddRecordAt(b: seq<byte>, q: nat, ino: nat, kind: byte, name: seq<byte>)
    requires RecordOk(b, q) && HasRoom(EntryAt(b, q), Ideal(|name|)) && |name| < 256 && ino < 0x1_0000_0000
    ensures var r := AddRecord(b, q, ino, kind, name);
            var e := EntryAt(b, q);
            var used := Ideal(|e.name|);
            && r[..q] == b[..q] && r[q + e.rec..] == b[q + e.rec..]
            && Rec(r, q) == used && Len(r, q) == Len(b, q) && EntryAt(r, q) == e.(rec := used)
            && Rec(r, q + used) == e.rec - used && Len(r, q + used) == |name|
            && EntryAt(r, q + used) == Entry(ino, e.rec - used, kind, name)
  {
    hide LeBytes, Le, RecordBytes, Overwrite, Ideal;
    var e, used := EntryAt(b, q), Ideal(Len(b, q));
    U16Fits(b, q + 4);
    var b1 := W16(b, q + 4, used);
    var t := RecordBytes(ino, e.rec - used, kind, name);
    var r := Overwrite(b1, q + used, t);
    RecordReads(b1, q + used, ino, e.rec - used, kind, name);
    W16Reads(b, q + 4, used);
    CutRecord(b, q, used);
    HeadKept(b1, q + used, t, q);
    AroundKept(b, q, used, t);
  }

  /** Rewriting a record's length field changes nothing else of it. */
  lemma CutRecord(b: seq<byte>, q: nat, used: nat)
    requires |b| == BS && q + 8 <= BS && q + 8 + Len(b, q) <= BS && used < 0x1_0000
    ensures var b1 := W16(b, q + 4, used);
            && Rec(b1, q) == used && Len(b1, q) == Len(b, q) && EntryAt(b1, q) == EntryAt(b, q).(rec := used)
  {
    hide LeBytes, Le;
    var b1 := W16(b, q + 4, used);
    W16Reads(b, q + 4, used);
    assert b1[q + 6] == b[q + 6] && b1[q + 7] == b[q + 7];
    assert b1[q..q + 4] == b[q..q + 4] && b1[q + 8..q + 8 + Len(b, q)] == b[q + 8..q + 8 + Len(b, q)];
  }

  /** A write behind a record leaves the record alone. */
  lemma HeadKept(b: seq<byte>, at: nat, t: seq<byte>, q: nat)
    requires |b| == BS && q + 8 <= BS && q + 8 + Len(b, q) <= at && at + |t| <= BS
    ensures var r := Overwrite(b, at, t);
            Rec(r, q) == Rec(b, q) && Len(r, q) == Len(b, q) && EntryAt(r, q) == EntryAt(b, q)
  {
    RecordSame(b, Overwrite(b, at, t), q);
  }

  lemma AroundKept(b: seq<byte>, q: nat, used: nat, t: seq<byte>)
    requires |b| == BS && q + 8 <= BS && 8 <= used && q + used + |t| <= q + Rec(b, q) <= BS
    ensures var r := Overwrite(W16(b, q + 4, used), q + used, t);
            r[..q] == b[..q] && r[q + Rec(b, q)..] == b[q + Rec(b, q)..]
  {
  }

  /** dir_add's byte edit inserts the entry into the list. */
  lemma {:induction false} AddEntries(b: seq<byte>, p: nat, ino: nat, kind: byte, name: seq<byte>)
    requires |b| == BS && p <= BS && Tiled(b, p) && |name| < 256 && ino < 0x1_0000_0000 && RoomAt(b, p, |name|) < BS
    ensures var q := RoomAt(b, p, |name|);
            && RecordOk(b, q) && HasRoom(EntryAt(b, q), Ideal(|name|))
            && q + 8 <= BS && q + Rec(b, q) <= BS && Rec(b, q) >= Ideal(Len(b, q)) + Ideal(|name|)
            && var r := AddRecord(b, q, ino, kind, name);
            Tiled(r, p) && Entries(r, p) == Inserted(Entries(b, p), ino, kind, name)
    decreases BS - p
  {
    hide AddRecord, Rec, Len, Ideal, Tiled, Entries, EntryAt, HasRoom, RecordOk;
    var q := RoomAt(b, p, |name|);
    RoomHere(b, p, |name|);
    TiledStep(b, p);
    if q == p {
      AddHere(b, p, ino, kind, name);
    } else {
      var n := p + Rec(b, p);
      AddEntries(b, n, ino, kind, name);
      AddRecordAt(b, q, ino, kind, name);
      var r := AddRecord(b, q, ino, kind, name);
      RecordBefore(b, r, p, q);
      TiledBuild(r, p);
    }
  }

  lemma RoomHere(b: seq<byte>, p: nat, n: nat)
    requires |b| == BS && p <= BS && Tiled(b, p) && RoomAt(b, p, n) < BS
    ensures p < BS && RecordOk(b, p) && p + 8 + Len(b, p) <= BS
    ensures if RoomAt(b, p, n) == p then HasRoom(EntryAt(b, p), Ideal(n)) && Rec(b, p) >= Ideal(Len(b, p)) + Ideal(n)
            else !HasRoom(EntryAt(b, p), Ideal(n)) && p + Rec(b, p) <= RoomAt(b, p, n)
  {
    hide Rec, Len, Ideal, Entries;
  }

  /** The directory block dir_add leaves when some record has room. */
  ghost function Added(b: seq<byte>, ino: nat, kind: byte, name: seq<byte>): (r: seq<byte>)
    requires |b| == BS && Tiled(b, 0) && |name| < 256 && ino < 0x1_0000_0000 && RoomFor(Entries(b, 0), |name|)
    ensures |r| == BS && Tiled(r, 0) && Entries(r, 0) == Inserted(Entries(b, 0), ino, kind, name)
  {
    hide Rec, Len, Ideal, HasRoom, RecordOk, EntryAt, Tiled, Entries, Inserted, RoomFor, RoomAt, AddRecord;
    RoomAtIff(b, 0, |name|);
    AddEntries(b, 0, ino, kind, name);
    AddRecord(b, RoomAt(b, 0, |name|), ino, kind, name)
  }

  /** A record that ends by `q` is the same in blocks that agree up to `q`. */
  lemma RecordBefore(b: seq<byte>, r: seq<byte>, p: nat, q: nat)
    requires |r| == BS && RecordOk(b, p) && p + Rec(b, p) <= q <= BS && r[..q] == b[..q]
    ensures RecordOk(r, p) && Rec(r, p) == Rec(b, p) && EntryAt(r, p) == EntryAt(b, p)
  {
    assert forall i :: 0 <= i < q ==> r[i] == r[..q][i] == b[i];
    RecordSame(b, r, p);
  }

  lemma AddHere(b: seq<byte>, p: nat, ino: nat, kind: byte, name: seq<byte>)
    requires |b| == BS && p < BS && Tiled(b, p) && |name| < 256 && ino < 0x1_0000_0000
    requires HasRoom(EntryAt(b, p), Ideal(|name|))
    ensures var r := AddRecord(b, p, ino, kind, name);
            Tiled(r, p) && Entries(r, p) == Inserted(Entries(b, p), ino, kind, name)
  {
    hide AddRecord, Rec, Len, Ideal, Tiled, Entries, EntryAt;
    TiledStep(b, p);
    EntryFields(b, p);
    AddRecordAt(b, p, ino, kind, name);
    var r, e := AddRecord(b, p, ino, kind, name), EntryAt(b, p);
    var used, n := Ideal(|e.name|), p + e.rec;
    IdealLeast(|e.name|);
    IdealLeast(|name|);
    SuffixSame(b, r, n);
    TiledBuild(r, p + used);
    TiledBuild(r, p);
  }

  lemma EntryFields(b: seq<byte>, p: nat)
    requires |b| == BS && p + 8 <= BS && p + 8 + Len(b, p) <= BS
    ensures EntryAt(b, p).rec == Rec(b, p) && |EntryAt(b, p).name| == Len(b, p)
  {
  }

  lemma IdealLeast(n: nat)
    ensures Ideal(n) >= n + 8
  {
  }

  /** Position of the record just before the first record of inode `t` after `p`, or the block size. */
  ghost function Before(b: seq<byte>, p: nat, t: nat): (q: nat)
    requires |b| == BS && Tiled(b, p) && p < BS
    ensures p <= q <= BS
    decreases BS - p
  {
    var n := p + Rec(b, p);
    assert Tiled(b, n) && (n < BS ==> RecordOk(b, n));
    if n == BS then BS else if U32(b, n) == t then p else Before(b, n, t)
  }

  lemma {:induction false} BeforeFacts(b: seq<byte>, p: nat, t: nat)
    requires |b| == BS && Tiled(b, p) && p < BS && Before(b, p, t) < BS
    ensures var q := Before(b, p, t);
            RecordOk(b, q) && q + Rec(b, q) < BS && RecordOk(b, q + Rec(b, q)) && U32(b, q + Rec(b, q)) == t
    decreases BS - p
  {
    hide Rec, Len, Ideal, U32;
    var n := p + Rec(b, p);
    assert Tiled(b, n) && (n < BS ==> RecordOk(b, n));
    if n < BS && U32(b, n) != t { BeforeFacts(b, n, t); }
  }

  /** The block after the record at `q` absorbs the one behind it. */
  function Absorb(b: seq<byte>, q: nat): (r: seq<byte>)
    requires RecordOk(b, q) && RecordOk(b, q + Rec(b, q))
    ensures |r| == BS
  {
    W16(b, q + 4, Rec(b, q) + Rec(b, q + Rec(b, q)))
  }

  lemma AbsorbAt(b: seq<byte>, q: nat)
    requires RecordOk(b, q) && RecordOk(b, q + Rec(b, q))
    ensures var r := Absorb(b, q);
            var both := Rec(b, q) + Rec(b, q + Rec(b, q));
            && RecordOk(r, q) && Rec(r, q) == both && EntryAt(r, q) == EntryAt(b, q).(rec := both)
            && r[..q] == b[..q] && r[q + both..] == b[q + both..]
  {
    hide LeBytes, Le, Ideal;
    CutRecord(b, q, Rec(b, q) + Rec(b, q + Rec(b, q)));
  }

  lemma AbsorbHere(b: seq<byte>, p: nat, t: nat)
    requires RecordOk(b, p) && RecordOk(b, p + Rec(b, p)) && Tiled(b, p) && U32(b, p + Rec(b, p)) == t
    ensures var r := Absorb(b, p); Tiled(r, p) && Entries(r, p) == Removed(Entries(b, p), t)
  {
    hide Absorb, Rec, Len, Ideal, U32, Tiled, Entries, EntryAt;
    var n := p + Rec(b, p);
    TiledStep(b, p);
    TiledStep(b, n);
    EntryFields(b, p);
    EntryFields(b, n);
    EntryIno(b, n);
    AbsorbAt(b, p);
    var r, m := Absorb(b, p), n + Rec(b, n);
    SuffixSame(b, r, m);
    TiledBuild(r, p);
    assert Entries(b, p)[2..] == Entries(b, m);
  }

  lemma EntryIno(b: seq<byte>, p: nat)
    requires |b| == BS && p + 8 <= BS && p + 8 + Len(b, p) <= BS
    ensures EntryAt(b, p).ino == U32(b, p)
  {
  }

  /** ext2_remove's byte edit removes the entry from the list. */
  lemma {:induction false} AbsorbEntries(b: seq<byte>, p: nat, t: nat)
    requires |b| == BS && p < BS && Tiled(b, p) && Before(b, p, t) < BS
    ensures var q := Before(b, p, t);
            && RecordOk(b, q) && RecordOk(b, q + Rec(b, q))
            && var r := Absorb(b, q); Tiled(r, p) && Entries(r, p) == Removed(Entries(b, p), t)
    decreases BS - p
  {
    hide Absorb, Rec, Len, Ideal, U32, EntryAt;
    var q, n := Before(b, p, t), p + Rec(b, p);
    BeforeFacts(b, p, t);
    if q == p {
      AbsorbHere(b, p, t);
    } else {
      AbsorbEntries(b, n, t);
      AbsorbAt(b, q);
      var r := Absorb(b, q);
      RecordBefore(b, r, p, q);
      SecondIno(b, p);
      assert Entries(b, p)[1..] == Entries(b, n);
    }
  }

  lemma SecondIno(b: seq<byte>, p: nat)
    requires |b| == BS && p < BS && Tiled(b, p) && p + Rec(b, p) < BS
    ensures p + Rec(b, p) + 4 <= BS && |Entries(b, p)| >= 2 && Entries(b, p)[1].ino == U32(b, p + Rec(b, p))
  {
    var n := p + Rec(b, p);
    assert Entries(b, p) == [EntryAt(b, p)] + Entries(b, n);
    assert Entries(b, n)[0] == EntryAt(b, n);
  }

  /** The directory block ext2_remove leaves when an entry of inode `t` follows the first one. */
  ghost function Dropped(b: seq<byte>, t: nat): (r: seq<byte>)
    requires |b| == BS && Tiled(b, 0)
  {
    var q := Before(b, 0, t);
    if RecordOk(b, q) && RecordOk(b, q + Rec(b, q)) then Absorb(b, q) else b
  }

  lemma DroppedEntries(b: seq<byte>, t: nat)
    requires |b| == BS && Tiled(b, 0) && Before(b, 0, t) < BS
    ensures |Dropped(b, t)| == BS && Tiled(Dropped(b, t), 0) && Entries(Dropped(b, t), 0) == Removed(Entries(b, 0), t)
  {
    hide Rec, Len, Ideal, RecordOk, Tiled, Entries, Removed, Before, Absorb;
    AbsorbEntries(b, 0, t);
  }

  /** The scan finds a record exactly when the list has an entry of inode `t` behind the first. */
  lemma {:induction false} BeforeIff(b: seq<byte>, p: nat, t: nat)
    requires |b| == BS && p < BS && Tiled(b, p)
    ensures Before(b, p, t) < BS <==> exists i :: 0 < i < |Entries(b, p)| && Entries(b, p)[i].ino == t
    decreases BS - p
  {
    hide Rec, Len, Ideal, U32;
    var n := p + Rec(b, p);
    var es := Entries(b, p);
    assert es[1..] == Entries(b, n);
    if n < BS {
      assert es[1].ino == U32(b, n);
      BeforeIff(b, n, t);
      if exists i :: 0 < i < |es[1..]| && es[1..][i].ino == t {
        var i :| 0 < i < |es[1..]| && es[1..][i].ino == t;
        assert es[i + 1].ino == t;
      }
      if Before(b, n, t) == BS && U32(b, n) != t {
        forall i | 0 < i < |es| ensures es[i].ino != t { if i > 1 { assert es[i] == es[1..][i - 1]; } }
      }
    }
  }

  // --------------------------------------------------------- a new directory

  const DOT: seq<byte> := [46]
  const DOTDOT: seq<byte> := [46, 46]

  /** The block make_dir and ext2_format write: `.` and `..`. */
  function NewDir(self: nat, parent: nat): (b: seq<byte>)
    ensures |b| == BS
  {
    Overwrite(Overwrite(Zeros(BS), 0, RecordBytes(self, 12, 2, DOT)), 12, RecordBytes(parent, BS - 12, 2, DOTDOT))
  }

  lemma NewDirEntries(self: nat, parent: nat)
    requires 0 < self < 0x1_0000_0000 && 0 < parent < 0x1_0000_0000
    ensures var b := NewDir(self, parent);
            && Tiled(b, 0) && Entries(b, 0) == [Entry(self, 12, 2, DOT), Entry(parent, BS - 12, 2, DOTDOT)]
            && Good(Entries(b, 0))
  {
    hide LeBytes, Le, RecordBytes, Overwrite;
    var z := Overwrite(Zeros(BS), 0, RecordBytes(self, 12, 2, DOT));
    RecordReads(Zeros(BS), 0, self, 12, 2, DOT);
    RecordReads(z, 12, parent, BS - 12, 2, DOTDOT);
    HeadKept(z, 12, RecordBytes(parent, BS - 12, 2, DOTDOT), 0);
    var b := NewDir(self, parent);
    assert Tiled(b, BS);
    assert Tiled(b, 12) && Entries(b, 12) == [Entry(parent, BS - 12, 2, DOTDOT)];
    assert Tiled(b, 0) && Entries(b, 0) == [Entry(self, 12, 2, DOT)] + Entries(b, 12);
    assert Entries(b, 0)[1..] == [Entry(parent, BS - 12, 2, DOTDOT)];
    assert Lookup(Entries(b, 0), DOTDOT) == parent;
  }
}
