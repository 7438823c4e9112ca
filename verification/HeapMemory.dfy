/**
 The heap's block headers as bytes: where a header sits, what it holds, and how a
 header store affects other headers and the payloads of live blocks.
 */
module HeapMemory {
  import opened Bytes
  import opened HeapSpec

  const BLOCK_MAGIC: nat := 0x4f5336344d454d31
  const STORED: nat := 36   // bytes of block_t that carry fields; the rest is padding

  datatype Header = Header(magic: nat, size: nat, previous: nat, next: nat, free: nat) {
    predicate Fits() {
      && magic < SIZE_LIMIT && size < SIZE_LIMIT && previous < SIZE_LIMIT && next < SIZE_LIMIT
      && free < 0x1_0000_0000
    }
  }

  function HeaderIn(m: seq<byte>, o: nat): Header
    requires o + STORED <= |m|
  {
    Header(Le(m[o..o + 8]), Le(m[o + 8..o + 16]), Le(m[o + 16..o + 24]), Le(m[o + 24..o + 32]), Le(m[o + 32..o + 36]))
  }

  function Encode(h: Header): (b: seq<byte>)
    ensures |b| == STORED
  {
    LeBytes(h.magic, 8) + LeBytes(h.size, 8) + LeBytes(h.previous, 8) + LeBytes(h.next, 8) + LeBytes(h.free, 4)
  }

  function StoreHeader(m: seq<byte>, o: nat, h: Header): (r: seq<byte>)
    requires o + STORED <= |m|
    ensures |r| == |m|
  {
    Overwrite(m, o, Encode(h))
  }

  /** A stored header reads back. */
  lemma HeaderReadsBack(m: seq<byte>, o: nat, h: Header)
    requires o + STORED <= |m| && h.Fits()
    ensures HeaderIn(StoreHeader(m, o, h), o) == h
  {
    var r := StoreHeader(m, o, h);
    var e := Encode(h);
    assert r[o..o + STORED] == e;
    assert e[0..8] == LeBytes(h.magic, 8) && e[8..16] == LeBytes(h.size, 8) && e[16..24] == LeBytes(h.previous, 8);
    assert e[24..32] == LeBytes(h.next, 8) && e[32..36] == LeBytes(h.free, 4);
    assert r[o..o + 8] == e[0..8] && r[o + 8..o + 16] == e[8..16] && r[o + 16..o + 24] == e[16..24];
    assert r[o + 24..o + 32] == e[24..32] && r[o + 32..o + 36] == e[32..36];
    Limits();
    LeRoundTrip(h.magic, 8);
    LeRoundTrip(h.size, 8);
    LeRoundTrip(h.previous, 8);
    LeRoundTrip(h.next, 8);
    LeRoundTrip(h.free, 4);
  }

  /** A header store leaves every byte range clear of it alone. */
  lemma StoreFrame(m: seq<byte>, o: nat, h: Header, lo: nat, hi: nat)
    requires o + STORED <= |m| && lo <= hi <= |m| && (o + STORED <= lo || hi <= o)
    ensures StoreHeader(m, o, h)[lo..hi] == m[lo..hi]
  {
    hide Encode;
    var r := StoreHeader(m, o, h);
    assert forall i :: lo <= i < hi ==> r[i] == m[i];
  }

  lemma HeaderFrame(m: seq<byte>, o: nat, h: Header, o': nat)
    requires o + STORED <= |m| && o' + STORED <= |m| && (o + STORED <= o' || o' + STORED <= o)
    ensures HeaderIn(StoreHeader(m, o, h), o') == HeaderIn(m, o')
  {
    hide StoreHeader;
    StoreFrame(m, o, h, o', o' + 8);
    StoreFrame(m, o, h, o' + 8, o' + 16);
    StoreFrame(m, o, h, o' + 16, o' + 24);
    StoreFrame(m, o, h, o' + 24, o' + 32);
    StoreFrame(m, o, h, o' + 32, o' + 36);
  }

  // ------------------------------------------------ the list held by the headers

  /** The header of block `i` of a list: `previous` inverts `next`. */
  function Linked(bs: seq<Blk>, base: nat, i: nat): Header
    requires i < |bs|
  {
    Header(BLOCK_MAGIC, bs[i].size,
           if i == 0 then 0 else base + bs[i - 1].off,
           if i + 1 == |bs| then 0 else base + bs[i + 1].off,
           if bs[i].free then 1 else 0)
  }

  lemma LinkedFields(bs: seq<Blk>, base: nat, i: nat)
    requires i < |bs|
    ensures Linked(bs, base, i).magic == BLOCK_MAGIC && Linked(bs, base, i).size == bs[i].size
    ensures Linked(bs, base, i).previous == if i == 0 then 0 else base + bs[i - 1].off
    ensures Linked(bs, base, i).next == if i + 1 == |bs| then 0 else base + bs[i + 1].off
    ensures Linked(bs, base, i).free == if bs[i].free then 1 else 0
  {
  }

  ghost predicate HeaderOk(m: seq<byte>, bs: seq<Blk>, base: nat, i: nat)
    requires i < |bs|
  {
    bs[i].off + STORED <= |m| && HeaderIn(m, bs[i].off) == Linked(bs, base, i)
  }

  /** Memory `m` holds the block list `bs`. */
  ghost predicate Represents(m: seq<byte>, bs: seq<Blk>, base: nat) {
    forall i :: 0 <= i < |bs| ==> HeaderOk(m, bs, base, i)
  }

  /** The payload bytes of every block in `live` are the same in both memories. */
  ghost predicate PayloadsKept(m: seq<byte>, m': seq<byte>, live: set<Blk>) {
    && |m'| == |m|
    && forall b :: b in live ==> b.End() <= |m| && m'[b.off + HEADER..b.End()] == m[b.off + HEADER..b.End()]
  }

  lemma KeptSame(m: seq<byte>, s: State)
    requires Inv(s) && s.limit <= |m|
    ensures PayloadsKept(m, m, LiveBlocks(s.blocks))
  {
    if s.blocks != [] { KeptIdentity(m, s.blocks, s.limit); }
  }

  lemma KeptIdentity(m: seq<byte>, bs: seq<Blk>, limit: nat)
    requires Tiles(bs, limit) && limit <= |m|
    ensures PayloadsKept(m, m, LiveBlocks(bs))
  {
    forall b | b in LiveBlocks(bs) ensures b.End() <= |m| {
      var i :| 0 <= i < |bs| && bs[i] == b;
      Within(bs, limit, i);
    }
  }

  lemma KeptLess(m: seq<byte>, m': seq<byte>, more: set<Blk>, live: set<Blk>)
    requires PayloadsKept(m, m', more) && live <= more
    ensures PayloadsKept(m, m', live)
  {
  }

  lemma KeptTransitive(m: seq<byte>, m1: seq<byte>, m2: seq<byte>, live: set<Blk>)
    requires PayloadsKept(m, m1, live) && PayloadsKept(m1, m2, live)
    ensures PayloadsKept(m, m2, live)
  {
  }

  /** Storing a header over a block's header, or inside a free block, touches no live payload. */
  lemma StoreKeepsPayloads(m: seq<byte>, bs: seq<Blk>, limit: nat, k: nat, o: nat, h: Header)
    requires Tiles(bs, limit) && limit <= |m| && k < |bs|
    requires o == bs[k].off || (bs[k].free && bs[k].off <= o && o + STORED <= bs[k].End())
    ensures o + STORED <= |m| && PayloadsKept(m, StoreHeader(m, o, h), LiveBlocks(bs))
  {
    Within(bs, limit, k);
    hide Tiles;
    var r := StoreHeader(m, o, h);
    forall b | b in LiveBlocks(bs)
      ensures b.End() <= |m| && r[b.off + HEADER..b.End()] == m[b.off + HEADER..b.End()]
    {
      var i :| 0 <= i < |bs| && bs[i] == b;
      Within(bs, limit, i);
      if i < k { Ordered(bs, limit, i, k); }
      if k < i { Ordered(bs, limit, k, i); }
      StoreFrame(m, o, h, b.off + HEADER, b.End());
    }
  }

  /** Storing at block `k` leaves every other block's header alone. */
  lemma StoreKeepsHeader(m: seq<byte>, bs: seq<Blk>, limit: nat, k: nat, h: Header, i: nat)
    requires Tiles(bs, limit) && limit <= |m| && k < |bs| && i < |bs| && i != k
    ensures bs[k].off + STORED <= |m| && bs[i].off + STORED <= |m|
    ensures HeaderIn(StoreHeader(m, bs[k].off, h), bs[i].off) == HeaderIn(m, bs[i].off)
  {
    Within(bs, limit, i);
    Within(bs, limit, k);
    if i < k { Ordered(bs, limit, i, k); } else { Ordered(bs, limit, k, i); }
    HeaderFrame(m, bs[k].off, h, bs[i].off);
  }

  lemma LinkedFits(bs: seq<Blk>, base: nat, limit: nat, i: nat)
    requires Tiles(bs, limit) && base + HEAP_MAX_BYTES < SIZE_LIMIT && limit <= HEAP_MAX_BYTES && i < |bs|
    ensures Linked(bs, base, i).Fits()
  {
    Within(bs, limit, i);
    if i > 0 { Within(bs, limit, i - 1); }
    if i + 1 < |bs| { Within(bs, limit, i + 1); }
  }

  // ------------------------------------------------------ marking, splitting, joining

  /** Storing at block `k` leaves the headers of all the others alone. */
  lemma StoreKeepsOthers(m: seq<byte>, bs: seq<Blk>, limit: nat, k: nat, h: Header)
    requires Tiles(bs, limit) && limit <= |m| && k < |bs|
    ensures bs[k].off + STORED <= |m|
    ensures forall i :: 0 <= i < |bs| ==> bs[i].off + STORED <= |m|
    ensures forall i :: 0 <= i < |bs| && i != k ==>
              HeaderIn(StoreHeader(m, bs[k].off, h), bs[i].off) == HeaderIn(m, bs[i].off)
  {
    hide Tiles, HeaderIn, StoreHeader;
    Within(bs, limit, k);
    forall i | 0 <= i < |bs| ensures bs[i].off + STORED <= |m| { Within(bs, limit, i); }
    forall i | 0 <= i < |bs| && i != k
      ensures HeaderIn(StoreHeader(m, bs[k].off, h), bs[i].off) == HeaderIn(m, bs[i].off)
    {
      StoreKeepsHeader(m, bs, limit, k, h, i);
    }
  }

  /** All headers of `bs` are in place except perhaps those of the named blocks. */
  ghost predicate RepresentsBut(m: seq<byte>, bs: seq<Blk>, base: nat, pending: set<int>) {
    forall i :: 0 <= i < |bs| && i !in pending ==> HeaderOk(m, bs, base, i)
  }

  lemma NonePending(m: seq<byte>, bs: seq<Blk>, base: nat, pending: set<int>)
    requires RepresentsBut(m, bs, base, pending) && forall i :: i in pending ==> i >= |bs|
    ensures Represents(m, bs, base)
  {
  }

  lemma HeaderOf(m: seq<byte>, bs: seq<Blk>, base: nat, i: nat)
    requires Represents(m, bs, base) && i < |bs|
    ensures bs[i].off + STORED <= |m| && HeaderIn(m, bs[i].off) == Linked(bs, base, i)
  {
    assert HeaderOk(m, bs, base, i);
  }

  /** Storing block `k`'s header puts that block in order and disturbs no other header. */
  lemma StoreSettles(m: seq<byte>, bs: seq<Blk>, base: nat, limit: nat, k: nat, pending: set<int>)
    requires Tiles(bs, limit) && limit <= |m| && k < |bs|
    requires base + HEAP_MAX_BYTES < SIZE_LIMIT && limit <= HEAP_MAX_BYTES
    requires RepresentsBut(m, bs, base, pending)
    ensures forall i :: 0 <= i < |bs| ==> bs[i].off + STORED <= |m|
    ensures var r := StoreHeader(m, bs[k].off, Linked(bs, base, k));
            && RepresentsBut(r, bs, base, pending - {k})
            && forall i :: 0 <= i < |bs| && i != k ==> HeaderIn(r, bs[i].off) == HeaderIn(m, bs[i].off)
  {
    hide Tiles, HeaderIn, StoreHeader, Linked;
    var h := Linked(bs, base, k);
    LinkedFits(bs, base, limit, k);
    StoreKeepsOthers(m, bs, limit, k, h);
    HeaderReadsBack(m, bs[k].off, h);
    var r := StoreHeader(m, bs[k].off, h);
    forall i | 0 <= i < |bs| && i !in pending - {k} ensures HeaderOk(r, bs, base, i) {
      assert i == k || HeaderOk(m, bs, base, i);
    }
  }

  lemma MarkTiles(bs: seq<Blk>, limit: nat, k: nat, free: bool)
    requires Tiles(bs, limit) && k < |bs|
    ensures Tiles(bs[k := bs[k].(free := free)], limit)
  {
  }

  lemma MarkAligned(bs: seq<Blk>, k: nat, free: bool)
    requires Aligned(bs) && k < |bs|
    ensures Aligned(bs[k := bs[k].(free := free)])
  {
  }

  /** Before block `k`'s free flag is rewritten, every other header of the new list is in place. */
  lemma MarkPending(m: seq<byte>, bs: seq<Blk>, base: nat, k: nat, free: bool)
    requires Represents(m, bs, base) && k < |bs|
    ensures RepresentsBut(m, bs[k := bs[k].(free := free)], base, {k})
    ensures Linked(bs[k := bs[k].(free := free)], base, k) == Linked(bs, base, k).(free := if free then 1 else 0)
  {
    hide HeaderIn;
    var bs' := bs[k := bs[k].(free := free)];
    forall i | 0 <= i < |bs'| && i !in {k} ensures HeaderOk(m, bs', base, i) {
      assert HeaderOk(m, bs, base, i);
    }
  }

  /** The list in which free block `k` gives up its tail after `wanted` bytes. */
  function SplitList(bs: seq<Blk>, k: nat, wanted: nat): seq<Blk>
    requires k < |bs| && bs[k].size >= wanted + HEADER
  {
    bs[..k] + [bs[k].(size := wanted), Blk(bs[k].off + HEADER + wanted, bs[k].size - wanted - HEADER, true)]
        + bs[k + 1..]
  }

  ghost predicate Splittable(bs: seq<Blk>, limit: nat, k: nat, wanted: nat) {
    && Tiles(bs, limit) && k < |bs| && bs[k].free && bs[k].size >= wanted + HEADER + MIN_PAYLOAD
  }

  /** How the headers of the split list relate to those of the list before the split. */
  lemma SplitLinked(bs: seq<Blk>, base: nat, k: nat, wanted: nat, i: nat)
    requires k < |bs| && bs[k].size >= wanted + HEADER && i <= |bs|
    ensures var bs' := SplitList(bs, k, wanted);
            var rem := base + bs[k].off + HEADER + wanted;
            && |bs'| == |bs| + 1
            && (i < k ==> bs'[i] == bs[i] && Linked(bs', base, i) == Linked(bs, base, i))
            && (i == k ==>
                 bs'[k].off == bs[k].off && Linked(bs', base, k) == Linked(bs, base, k).(next := rem, size := wanted))
            && (i == k + 1 ==> bs'[i].off == bs[k].off + HEADER + wanted)
            && (i == k + 1 ==> Linked(bs', base, i) == Header(BLOCK_MAGIC, bs[k].size - wanted - HEADER, base
               + bs[k].off, Linked(bs, base, k).next, 1))
            && (i == k + 2 ==> bs'[i] == bs[i - 1] && Linked(bs', base, i) == Linked(bs, base, i - 1).(previous := rem))
            && (i > k + 2 ==> bs'[i] == bs[i - 1] && Linked(bs', base, i) == Linked(bs, base, i - 1))
  {
  }

  lemma SplitLive(bs: seq<Blk>, k: nat, wanted: nat)
    requires k < |bs| && bs[k].free && bs[k].size >= wanted + HEADER
    ensures LiveBlocks(SplitList(bs, k, wanted)) == LiveBlocks(bs)
  {
    SameMembers(bs, k, k + 1, [bs[k].(size := wanted),
        Blk(bs[k].off + HEADER + wanted, bs[k].size - wanted - HEADER, true)]);
    assert bs[k..k + 1] == [bs[k]];
  }

  lemma SplitTiles(bs: seq<Blk>, limit: nat, k: nat, wanted: nat)
    requires Splittable(bs, limit, k, wanted)
    ensures Tiles(SplitList(bs, k, wanted), limit)
  {
  }

  /** Before any header of a split is written, all but three headers of the new list are in place. */
  lemma SplitPending(m: seq<byte>, bs: seq<Blk>, base: nat, k: nat, wanted: nat)
    requires Represents(m, bs, base) && k < |bs| && bs[k].size >= wanted + HEADER
    ensures RepresentsBut(m, SplitList(bs, k, wanted), base, {k, k + 1, k + 2})
  {
    hide HeaderIn, Linked, SplitList;
    var bs' := SplitList(bs, k, wanted);
    SplitLinked(bs, base, k, wanted, 0);
    forall i | 0 <= i < |bs'| && i !in {k, k + 1, k + 2} ensures HeaderOk(m, bs', base, i) {
      SplitLinked(bs, base, k, wanted, i);
      assert HeaderOk(m, bs, base, if i < k then i else i - 1);
    }
  }

  lemma JoinLinked(bs: seq<Blk>, base: nat, k: nat, i: nat)
    requires k + 1 < |bs| && i + 1 < |bs|
    ensures var bs' := Join(bs, k);
            && |bs'| == |bs| - 1
            && (i < k ==> bs'[i] == bs[i] && Linked(bs', base, i) == Linked(bs, base, i))
            && (i == k ==> bs'[k].off == bs[k].off)
            && (i == k ==> Linked(bs', base, k) == Linked(bs, base, k).(size := bs[k].size + HEADER + bs[k + 1].size,
                                                                        next := Linked(bs, base, k + 1).next))
            && (i == k + 1 ==>
                 bs'[i] == bs[i + 1] && Linked(bs', base, i) == Linked(bs, base, i + 1).(previous := base + bs[k].off))
            && (i > k + 1 ==> bs'[i] == bs[i + 1] && Linked(bs', base, i) == Linked(bs, base, i + 1))
  {
  }

  lemma JoinPending(m: seq<byte>, bs: seq<Blk>, base: nat, k: nat)
    requires Represents(m, bs, base) && k + 1 < |bs|
    ensures RepresentsBut(m, Join(bs, k), base, {k, k + 1})
  {
    hide HeaderIn, Linked, Join;
    var bs' := Join(bs, k);
    JoinLinked(bs, base, k, 0);
    forall i | 0 <= i < |bs'| && i !in {k, k + 1} ensures HeaderOk(m, bs', base, i) {
      JoinLinked(bs, base, k, i);
      assert HeaderOk(m, bs, base, if i < k then i else i + 1);
    }
  }

  /** Everything a split needs to know about the headers before it writes the first one. */
  lemma SplitFacts(m: seq<byte>, bs: seq<Blk>, base: nat, limit: nat, k: nat, wanted: nat)
    requires Splittable(bs, limit, k, wanted) && Represents(m, bs, base) && limit <= |m|
    ensures bs[k].End() <= |m| && (k + 1 < |bs| ==> bs[k + 1].off + STORED <= |m|)
    ensures var bs' := SplitList(bs, k, wanted);
            var h := HeaderIn(m, bs[k].off);
            var rem := bs[k].off + HEADER + wanted;
            && Tiles(bs', limit) && RepresentsBut(m, bs', base, {k, k + 1, k + 2}) && |bs'| == |bs| + 1
            && h.size == bs[k].size && h.next == (if k + 1 < |bs| then base + bs[k + 1].off else 0)
            && bs'[k].off == bs[k].off && Linked(bs', base, k) == h.(next := base + rem, size := wanted)
            && bs'[k + 1].off == rem
            && Linked(bs', base, k + 1) == Header(BLOCK_MAGIC, h.size - wanted - HEADER, base + bs[k].off, h.next, 1)
            && (k + 1 < |bs| ==>
                  && bs'[k + 2].off == bs[k + 1].off
                  && Linked(bs', base, k + 2) == HeaderIn(m, bs[k + 1].off).(previous := base + rem))
  {
    SplitTiles(bs, limit, k, wanted);
    Within(bs, limit, k);
    hide Tiles, Linked, HeaderIn, SplitList, Represents, RepresentsBut;
    HeaderOf(m, bs, base, k);
    LinkedFields(bs, base, k);
    SplitPending(m, bs, base, k, wanted);
    SplitLinked(bs, base, k, wanted, k);
    SplitLinked(bs, base, k, wanted, k + 1);
    if k + 1 < |bs| {
      HeaderOf(m, bs, base, k + 1);
      SplitLinked(bs, base, k, wanted, k + 2);
    }
  }

  /** Everything a join needs to know about the headers before it writes the first one. */
  lemma JoinFacts(m: seq<byte>, bs: seq<Blk>, base: nat, limit: nat, k: nat)
    requires Tiles(bs, limit) && Aligned(bs) && k + 1 < |bs| && Represents(m, bs, base) && limit <= |m|
    ensures bs[k].End() <= |m| && bs[k + 1].off + STORED <= |m| && (k + 2 < |bs| ==> bs[k + 2].off + STORED <= |m|)
    ensures var bs' := Join(bs, k);
            var h, n := HeaderIn(m, bs[k].off), HeaderIn(m, bs[k + 1].off);
            && Tiles(bs', limit) && RepresentsBut(m, bs', base, {k, k + 1}) && |bs'| == |bs| - 1
            && h.next == base + bs[k + 1].off && h.free == (if bs[k].free then 1 else 0)
            && n.free == (if bs[k + 1].free then 1 else 0)
            && n.next == (if k + 2 < |bs| then base + bs[k + 2].off else 0)
            && bs'[k].off == bs[k].off && Linked(bs', base, k) == h.(size := h.size + HEADER + n.size, next := n.next)
            && (k + 2 < |bs| ==>
                  && bs'[k + 1].off == bs[k + 2].off
                  && Linked(bs', base, k + 1) == HeaderIn(m, bs[k + 2].off).(previous := base + bs[k].off))
  {
    JoinTiles(bs, limit, k);
    Within(bs, limit, k);
    hide Tiles, Linked, HeaderIn, Join, Represents, RepresentsBut;
    HeaderOf(m, bs, base, k);
    HeaderOf(m, bs, base, k + 1);
    LinkedFields(bs, base, k);
    LinkedFields(bs, base, k + 1);
    JoinPending(m, bs, base, k);
    JoinLinked(bs, base, k, k);
    if k + 2 < |bs| {
      HeaderOf(m, bs, base, k + 2);
      JoinLinked(bs, base, k, k + 1);
    }
  }

  /** Writing inside block `b`'s payload disturbs no header and no other live payload. */
  lemma PayloadWrite(m: seq<byte>, bs: seq<Blk>, base: nat, limit: nat, b: Blk, at: nat, data: seq<byte>)
    requires Tiles(bs, limit) && limit <= |m| && b in bs && Represents(m, bs, base)
    requires b.off + HEADER <= at && at + |data| <= b.End()
    ensures at + |data| <= |m|
    ensures Represents(Overwrite(m, at, data), bs, base)
    ensures PayloadsKept(m, Overwrite(m, at, data), LiveBlocks(bs) - {b})
  {
    hide Tiles, HeaderIn, Linked;
    var k :| 0 <= k < |bs| && bs[k] == b;
    Within(bs, limit, k);
    var r := Overwrite(m, at, data);
    forall i | 0 <= i < |bs| ensures HeaderOk(r, bs, base, i) {
      HeaderOf(m, bs, base, i);
      if i < k { Ordered(bs, limit, i, k); }
      if k < i { Ordered(bs, limit, k, i); }
      HeaderSame(m, r, bs[i].off);
    }
    forall a | a in LiveBlocks(bs) - {b} ensures a.End() <= |m|
        && r[a.off + HEADER..a.End()] == m[a.off + HEADER..a.End()] {
      var i :| 0 <= i < |bs| && bs[i] == a;
      Within(bs, limit, i);
      if i < k { Ordered(bs, limit, i, k); } else { Ordered(bs, limit, k, i); }
    }
  }

  lemma HeaderSame(m: seq<byte>, r: seq<byte>, o: nat)
    requires o + STORED <= |m| && |r| == |m| && forall i :: o <= i < o + STORED ==> r[i] == m[i]
    ensures HeaderIn(r, o) == HeaderIn(m, o)
  {
    assert r[o..o + 8] == m[o..o + 8] && r[o + 8..o + 16] == m[o + 8..o + 16] && r[o + 16..o + 24] == m[o + 16..o + 24];
    assert r[o + 24..o + 32] == m[o + 24..o + 32] && r[o + 32..o + 36] == m[o + 32..o + 36];
  }

  lemma ProductFits(count: nat, size: nat)
    requires size == 0 || count <= (SIZE_LIMIT - 1) / size
    ensures count * size < SIZE_LIMIT
  {
    if size != 0 {
      var q := (SIZE_LIMIT - 1) / size;
      assert q * size <= SIZE_LIMIT - 1;
      assert count * size <= q * size;
    }
  }

  /** The live blocks before a successful kmalloc are the live blocks after it but the new one. */
  lemma NewBlock(s: State, size: nat) returns (b: Blk)
    requires Inv(s) && MallocStep(s, size).1 != 0
    ensures var s' := MallocStep(s, size).0;
            && b in s'.blocks && !b.free && size <= b.size && s.base + b.off + HEADER == MallocStep(s, size).1
            && s'.blocks != [] && Tiles(s'.blocks, s.limit) && b.End() <= s.limit
            && LiveBlocks(s'.blocks) - {b} == LiveBlocks(s.blocks)
    ensures forall a :: a in LiveBlocks(s.blocks) ==> a.End() <= b.off || b.End() <= a.off
  {
    var f;
    b, f := MallocAddsOne(s, size);
    MallocKeepsInv(s, size);
    hide MallocStep;
    var s' := MallocStep(s, size).0;
    assert b in LiveBlocks(s'.blocks);
    var i :| 0 <= i < |s'.blocks| && s'.blocks[i] == b;
    Within(s'.blocks, s'.limit, i);
  }

  lemma KeptBut(m: seq<byte>, m': seq<byte>, s: State, p: nat)
    requires PayloadsKept(m, m', LiveBlocks(s.blocks))
    ensures PayloadsKept(m, m', LiveBut(s, p))
  {
  }

  /** The one live block a pointer can name. */
  lemma LiveIs(s: State, p: nat, k: nat)
    requires Inv(s) && k == Find(s.blocks, s.base, p, 0) && k < |s.blocks| && !s.blocks[k].free
    ensures forall b :: b in LiveBlocks(s.blocks) && s.base + b.off + HEADER == p ==> b == s.blocks[k]
    ensures s.blocks[k] in LiveBlocks(s.blocks) && s.blocks[k].End() <= s.limit
    ensures LiveBut(s, p) == LiveBlocks(s.blocks) - {s.blocks[k]}
  {
    Within(s.blocks, s.limit, k);
    LiveButNamed(s, p);
    forall b | b in LiveBlocks(s.blocks) && s.base + b.off + HEADER == p ensures b == s.blocks[k]
      { OnlyBlockAt(s, k, b); }
  }

  /** What a moving krealloc needs to know about the block it gets and the one it gives up. */
  lemma MoveFacts(s: State, p: nat, k: nat, size: nat) returns (b: Blk)
    requires Inv(s) && k == Find(s.blocks, s.base, p, 0) && k < |s.blocks| && !s.blocks[k].free
    requires s.blocks[k].size < size && MallocStep(s, size).1 != 0
    ensures var s1 := MallocStep(s, size).0;
            && s1.blocks != [] && Tiles(s1.blocks, s.limit) && b in s1.blocks && b.End() <= s.limit && b.size >= size
            && s.base + b.off + HEADER == MallocStep(s, size).1
            && LiveBlocks(s1.blocks) - {b} == LiveBlocks(s.blocks)
            && LiveBlocks(FreeStep(s1, p).blocks) == LiveBut(s, p) + {b}
    ensures s.blocks[k] in LiveBlocks(s.blocks) && s.base + s.blocks[k].off + HEADER == p
    ensures s.blocks[k].End() <= s.limit && (s.blocks[k].End() <= b.off || b.End() <= s.blocks[k].off)
  {
    hide Inv, Tiles, MallocStep, FreeStep, Find;
    b := NewBlock(s, size);
    LiveIs(s, p, k);
    var s1 := MallocStep(s, size).0;
    MallocKeepsInv(s, size);
    MallocBase(s, size);
    FreeRemovesOne(s1, p);
    assert b in LiveBlocks(s1.blocks);
  }

  lemma MallocBase(s: State, size: nat)
    ensures MallocStep(s, size).0.base == s.base
  {
  }

  lemma MoveKept(m: seq<byte>, m2: seq<byte>, m3: seq<byte>, s: State, p: nat, b: Blk)
    requires PayloadsKept(m, m2, LiveBlocks(s.blocks)) && PayloadsKept(m2, m3, LiveBut(s, p) + {b})
    ensures PayloadsKept(m, m3, LiveBut(s, p))
  {
  }

  lemma KeptOne(m: seq<byte>, m': seq<byte>, live: set<Blk>, b: Blk)
    requires PayloadsKept(m, m', live) && b in live
    ensures |m'| == |m| && b.End() <= |m| && m'[b.off + HEADER..b.End()] == m[b.off + HEADER..b.End()]
  {
  }

  /** The bytes of the old block, followed through allocation, copy and release. */
  lemma Moved(m: seq<byte>, m1: seq<byte>, m2: seq<byte>, m3: seq<byte>, was: Blk, b: Blk, live: set<Blk>,
              live': set<Blk>, n: nat)
    requires PayloadsKept(m, m1, live) && was in live && PayloadsKept(m2, m3, live') && b in live' && |m2| == |m1|
    requires n == was.size <= b.size && b.End() <= |m2| && was.End() <= |m1|
    requires m2[b.off + HEADER..b.off + HEADER + n] == m1[was.off + HEADER..was.off + HEADER + n]
    ensures |m3| == |m| && was.off + HEADER + n <= |m| && b.off + HEADER + n <= |m3|
    ensures m3[b.off + HEADER..b.off + HEADER + n] == m[was.off + HEADER..was.off + HEADER + n]
  {
    hide PayloadsKept;
    KeptOne(m, m1, live, was);
    KeptOne(m2, m3, live', b);
    PrefixSame(m2, m3, b.off + HEADER, b.End(), n);
  }

  lemma PrefixSame(m: seq<byte>, m': seq<byte>, lo: nat, hi: nat, n: nat)
    requires |m'| == |m| && lo + n <= hi <= |m| && m'[lo..hi] == m[lo..hi]
    ensures m'[lo..lo + n] == m[lo..lo + n]
  {
    assert m'[lo..lo + n] == m'[lo..hi][..n];
    assert m[lo..lo + n] == m[lo..hi][..n];
  }
}
