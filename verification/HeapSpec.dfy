/**
 What the kernel heap's operations do to its block list, as functions on values.
 A block list is the sequence of blocks met by following `next` from `first`.
 */
module HeapSpec {

  const HEADER: nat := 48          // sizeof(block_t)
  const ALIGNMENT: nat := 16
  const MIN_PAYLOAD: nat := 16
  const HEAP_MAX_BYTES: nat := 2 * 1024 * 1024
  const SIZE_LIMIT: nat := 0x1_0000_0000_0000_0000   // 2^64, one past the largest size_t

  /** A block: where its header starts in the heap, its payload size, its free flag. */
  datatype Blk = Blk(off: nat, size: nat, free: bool) {
    function End(): nat { off + HEADER + size }
  }

  /** The allocator's state. Addresses are `base + offset`; 0 is the null pointer. */
  datatype State = State(base: nat, limit: nat, blocks: seq<Blk>, used: nat, allocations: nat)

  datatype Op =
    | Malloc(size: nat)
    | Free(pointer: nat)
    | Calloc(count: nat, size: nat)
    | Realloc(pointer: nat, size: nat)

  // ---------------------------------------------------------------- tallies

  /** Payload bytes of the busy blocks. */
  function Busy(bs: seq<Blk>): nat {
    if bs == [] then 0 else (if bs[0].free then 0 else bs[0].size) + Busy(bs[1..])
  }

  /** Number of busy blocks. */
  function Live(bs: seq<Blk>): nat {
    if bs == [] then 0 else (if bs[0].free then 0 else 1) + Live(bs[1..])
  }

  /** Payload bytes of the free blocks. */
  function Idle(bs: seq<Blk>): nat {
    if bs == [] then 0 else (if bs[0].free then bs[0].size else 0) + Idle(bs[1..])
  }

  lemma {:induction false} TallyAppend(a: seq<Blk>, b: seq<Blk>)
    ensures Busy(a + b) == Busy(a) + Busy(b)
    ensures Live(a + b) == Live(a) + Live(b)
    ensures Idle(a + b) == Idle(a) + Idle(b)
  {
    if a == [] {
      assert a + b == b;
    } else {
      TallyAppend(a[1..], b);
      assert (a + b)[1..] == a[1..] + b;
    }
  }

  /** The tallies of a list whose blocks `from..to` are replaced by `mid`. */
  lemma TallyReplace(bs: seq<Blk>, from: nat, to: nat, mid: seq<Blk>)
    requires from <= to <= |bs|
    ensures Busy(bs[..from] + mid + bs[to..]) == Busy(bs) - Busy(bs[from..to]) + Busy(mid)
    ensures Live(bs[..from] + mid + bs[to..]) == Live(bs) - Live(bs[from..to]) + Live(mid)
    ensures Idle(bs[..from] + mid + bs[to..]) == Idle(bs) - Idle(bs[from..to]) + Idle(mid)
  {
    assert bs == bs[..from] + bs[from..to] + bs[to..];
    TallyAppend(bs[..from] + bs[from..to], bs[to..]);
    TallyAppend(bs[..from], bs[from..to]);
    TallyAppend(bs[..from] + mid, bs[to..]);
    TallyAppend(bs[..from], mid);
  }

  // -------------------------------------------------------------- invariant

  /** The blocks tile `[0, limit)` exactly, in address order. */
  ghost predicate Tiles(bs: seq<Blk>, limit: nat) {
    && |bs| > 0 && bs[0].off == 0 && bs[|bs| - 1].End() == limit
    && forall i, j :: 0 <= i && j == i + 1 && j < |bs| ==> bs[j].off == bs[i].End()
  }

  /** Every payload is a positive multiple of 16. */
  ghost predicate Aligned(bs: seq<Blk>) {
    forall i :: 0 <= i < |bs| ==> bs[i].size % ALIGNMENT == 0 && bs[i].size >= MIN_PAYLOAD
  }

  /** No two neighbouring blocks are both free. */
  ghost predicate Coalesced(bs: seq<Blk>) {
    forall i, j :: 0 <= i && j == i + 1 && j < |bs| ==> !(bs[i].free && bs[j].free)
  }

  ghost predicate Inv(s: State) {
    && 0 < s.base && s.base + HEAP_MAX_BYTES < SIZE_LIMIT
    && s.limit <= HEAP_MAX_BYTES && s.limit % ALIGNMENT == 0
    && (s.blocks == [] <==> s.limit <= HEADER + MIN_PAYLOAD)
    && (s.blocks != [] ==> Tiles(s.blocks, s.limit))
    && Aligned(s.blocks) && Coalesced(s.blocks)
    && s.used == Busy(s.blocks) && s.allocations == Live(s.blocks)
  }

  /** Blocks of a tiling lie strictly one after the other. */
  lemma {:induction false} Ordered(bs: seq<Blk>, limit: nat, i: nat, j: nat)
    requires Tiles(bs, limit) && i < j < |bs|
    ensures bs[i].End() <= bs[j].off
    decreases j
  {
    if i + 1 < j { Ordered(bs, limit, i, j - 1); }
    assert bs[j].off == bs[j - 1].End();
  }

  lemma StartsAtZero(bs: seq<Blk>, limit: nat)
    requires Tiles(bs, limit)
    ensures |bs| > 0 && bs[0].off == 0
  {
  }

  lemma Within(bs: seq<Blk>, limit: nat, i: nat)
    requires Tiles(bs, limit) && i < |bs|
    ensures bs[i].End() <= limit
  {
    if i < |bs| - 1 { Ordered(bs, limit, i, |bs| - 1); }
  }

  // ------------------------------------------------------------- operations

  function InitState(base: nat, limit: nat): State {
    State(base, limit, if limit <= HEADER + MIN_PAYLOAD then [] else [Blk(0, limit - HEADER, true)], 0, 0)
  }

  /** `size` rounded up to a multiple of 16, or 0 when that does not fit a size_t. */
  function AlignUp(size: nat): (r: nat)
    ensures r != 0 ==> r % 16 == 0 && size <= r < size + 16
    ensures r == 0 <==> size == 0 || size > SIZE_LIMIT - 16
  {
    if size > SIZE_LIMIT - 1 - (ALIGNMENT - 1) then 0 else size + 15 - (size + 15) % 16
  }

  /** First block at or after `from` that is free and holds `wanted` bytes. */
  function FirstFit(bs: seq<Blk>, wanted: nat, from: nat): (k: nat)
    requires from <= |bs|
    ensures from <= k <= |bs|
    ensures k < |bs| ==> bs[k].free && bs[k].size >= wanted
    ensures forall i :: from <= i < k ==> !(bs[i].free && bs[i].size >= wanted)
    decreases |bs| - from
  {
    if from == |bs| || (bs[from].free && bs[from].size >= wanted) then from else FirstFit(bs, wanted, from + 1)
  }

  /** The blocks that block `b` becomes when `wanted` bytes of it are taken. */
  function Taken(b: Blk, wanted: nat): (t: seq<Blk>)
    requires b.size >= wanted
    ensures |t| >= 1 && t[0].off == b.off && !t[0].free && t[0].size >= wanted
  {
    if b.size >= wanted + HEADER + MIN_PAYLOAD
    then [Blk(b.off, wanted, false), Blk(b.off + HEADER + wanted, b.size - wanted - HEADER, true)]
    else [b.(free := false)]
  }

  function MallocStep(s: State, size: nat): (r: (State, nat)) {
    var wanted := AlignUp(size);
    var k := FirstFit(s.blocks, wanted, 0);
    if size == 0 || wanted == 0 || k == |s.blocks| then (s, 0)
    else
      var t := Taken(s.blocks[k], wanted);
      (s.(blocks := s.blocks[..k] + t + s.blocks[k + 1..],
          used := s.used + t[0].size, allocations := s.allocations + 1),
       s.base + t[0].off + HEADER)
  }

  /** The block whose payload starts at address `p`, or the list's length. */
  function Find(bs: seq<Blk>, base: nat, p: nat, from: nat): (k: nat)
    requires from <= |bs|
    ensures from <= k <= |bs|
    ensures k < |bs| ==> base + bs[k].off + HEADER == p
    ensures forall i :: from <= i < k ==> base + bs[i].off + HEADER != p
    decreases |bs| - from
  {
    if from == |bs| || base + bs[from].off + HEADER == p then from else Find(bs, base, p, from + 1)
  }

  /** Blocks `k` and `k + 1` joined into one. */
  function Join(bs: seq<Blk>, k: nat): seq<Blk>
    requires k + 1 < |bs|
  {
    bs[..k] + [bs[k].(size := bs[k].size + HEADER + bs[k + 1].size)] + bs[k + 2..]
  }

  function JoinNext(bs: seq<Blk>, k: nat): seq<Blk> {
    if k + 1 < |bs| && bs[k + 1].free then Join(bs, k) else bs
  }

  function JoinPrevious(bs: seq<Blk>, k: nat): seq<Blk>
    requires k < |bs|
  {
    if 0 < k && bs[k - 1].free then Join(bs, k - 1) else bs
  }

  /** The block list after block `k` is marked free and joined with its free neighbours. */
  function Released(bs: seq<Blk>, k: nat): seq<Blk>
    requires k < |bs|
  {
    JoinPrevious(JoinNext(bs[k := bs[k].(free := true)], k), k)
  }

  function FreeStep(s: State, p: nat): State {
    var k := Find(s.blocks, s.base, p, 0);
    if p == 0 || p < s.base + HEADER || p >= s.base + s.limit || k == |s.blocks| || s.blocks[k].free then s
    else s.(blocks := Released(s.blocks, k),
            used := if s.used >= s.blocks[k].size then s.used - s.blocks[k].size else 0,
            allocations := if s.allocations > 0 then s.allocations - 1 else 0)
  }

  function CallocStep(s: State, count: nat, size: nat): (State, nat) {
    if size != 0 && count > (SIZE_LIMIT - 1) / size then (s, 0) else MallocStep(s, count * size)
  }

  function ReallocStep(s: State, p: nat, size: nat): (State, nat) {
    if p == 0 then MallocStep(s, size)
    else if size == 0 then (FreeStep(s, p), 0)
    else
      var k := Find(s.blocks, s.base, p, 0);
      if k == |s.blocks| || s.blocks[k].free then (s, 0)
      else if s.blocks[k].size >= size then (s, p)
      else
        var (s1, q) := MallocStep(s, size);
        if q == 0 then (s1, 0) else (FreeStep(s1, p), q)
  }

  /** A pointer that names no live allocation is refused, and one that is large enough stays. */
  lemma ReallocStays(s: State, p: nat, size: nat)
    requires p != 0 && size != 0
    ensures var k := Find(s.blocks, s.base, p, 0);
            && (k == |s.blocks| || s.blocks[k].free ==> ReallocStep(s, p, size) == (s, 0))
            && (k < |s.blocks| && !s.blocks[k].free && s.blocks[k].size >= size ==> ReallocStep(s, p, size) == (s, p))
  {
    hide MallocStep, FreeStep, Find;
  }

  /** Growing a live allocation: a new one, then the old one freed. */
  lemma ReallocMoves(s: State, p: nat, size: nat)
    requires p != 0
    requires var k := Find(s.blocks, s.base, p, 0); k < |s.blocks| && !s.blocks[k].free && s.blocks[k].size < size
    ensures var (s1, q) := MallocStep(s, size); ReallocStep(s, p, size) == if q == 0 then (s1, 0)
            else (FreeStep(s1, p), q)
  {
    hide MallocStep, FreeStep, Find;
  }

  function Step(s: State, op: Op): (State, nat) {
    match op
    case Malloc(size) => MallocStep(s, size)
    case Free(p) => (FreeStep(s, p), 0)
    case Calloc(count, size) => CallocStep(s, count, size)
    case Realloc(p, size) => ReallocStep(s, p, size)
  }

  function Run(s: State, ops: seq<Op>): State
    decreases ops
  {
    if ops == [] then s else Run(Step(s, ops[0]).0, ops[1..])
  }

  // ------------------------------------------------- one step keeps the invariant

  lemma MallocNull(s: State, size: nat)
    requires size == 0 || AlignUp(size) == 0 || FirstFit(s.blocks, AlignUp(size), 0) == |s.blocks|
    ensures MallocStep(s, size) == (s, 0)
  {
  }

  lemma MallocIs(s: State, size: nat, k: nat, s': State)
    requires size != 0 && AlignUp(size) != 0 && k == FirstFit(s.blocks, AlignUp(size), 0) && k < |s.blocks|
    requires s'.base == s.base && s'.limit == s.limit
    requires s'.blocks == s.blocks[..k] + Taken(s.blocks[k], AlignUp(size)) + s.blocks[k + 1..]
    requires s'.used == s.used + Taken(s.blocks[k], AlignUp(size))[0].size && s'.allocations == s.allocations + 1
    ensures MallocStep(s, size) == (s', s.base + s.blocks[k].off + HEADER)
  {
  }

  lemma FreeIs(s: State, p: nat, k: nat, s': State)
    requires p >= s.base + HEADER && p < s.base + s.limit && k == Find(s.blocks, s.base, p, 0) && k < |s.blocks|
    requires !s.blocks[k].free && s.used >= s.blocks[k].size && s.allocations > 0
    requires s' == s.(blocks := Released(s.blocks, k), used := s.used - s.blocks[k].size,
             allocations := s.allocations - 1)
    ensures FreeStep(s, p) == s'
  {
  }

  lemma FreeNone(s: State, p: nat)
    requires var k := Find(s.blocks, s.base, p, 0);
             p == 0 || p < s.base + HEADER || p >= s.base + s.limit || k == |s.blocks| || s.blocks[k].free
    ensures FreeStep(s, p) == s
  {
  }

  lemma TakenTiles(bs: seq<Blk>, limit: nat, k: nat, wanted: nat)
    requires Tiles(bs, limit) && k < |bs| && bs[k].size >= wanted
    ensures Tiles(bs[..k] + Taken(bs[k], wanted) + bs[k + 1..], limit)
  {
  }

  lemma TakenCoalesced(bs: seq<Blk>, k: nat, wanted: nat)
    requires Coalesced(bs) && k < |bs| && bs[k].free && bs[k].size >= wanted
    ensures Coalesced(bs[..k] + Taken(bs[k], wanted) + bs[k + 1..])
  {
  }

  lemma TakenAligned(bs: seq<Blk>, k: nat, wanted: nat)
    requires Aligned(bs) && k < |bs| && bs[k].size >= wanted && wanted % 16 == 0 && wanted > 0
    ensures Aligned(bs[..k] + Taken(bs[k], wanted) + bs[k + 1..])
  {
    assert forall i :: 0 <= i < |Taken(bs[k], wanted)| ==>
                         var t := Taken(bs[k], wanted)[i]; t.size % ALIGNMENT == 0 && t.size >= MIN_PAYLOAD;
  }

  lemma TakenShape(bs: seq<Blk>, limit: nat, k: nat, wanted: nat)
    requires Tiles(bs, limit) && Aligned(bs) && Coalesced(bs)
    requires k < |bs| && bs[k].free && bs[k].size >= wanted && wanted % 16 == 0 && wanted > 0
    ensures var r := bs[..k] + Taken(bs[k], wanted) + bs[k + 1..];
            Tiles(r, limit) && Aligned(r) && Coalesced(r)
  {
    hide Tiles, Coalesced, Aligned, Taken;
    TakenTiles(bs, limit, k, wanted);
    TakenCoalesced(bs, k, wanted);
    TakenAligned(bs, k, wanted);
  }

  lemma TakenTally(bs: seq<Blk>, k: nat, wanted: nat)
    requires k < |bs| && bs[k].free && bs[k].size >= wanted
    ensures var t := Taken(bs[k], wanted);
            var r := bs[..k] + t + bs[k + 1..];
            Busy(r) == Busy(bs) + t[0].size && Live(r) == Live(bs) + 1
  {
    var t := Taken(bs[k], wanted);
    TallyReplace(bs, k, k + 1, t);
    assert bs[k..k + 1] == [bs[k]];
    if |t| == 2 {
      TallyAppend([t[0]], [t[1]]);
      assert t == [t[0]] + [t[1]];
    }
  }

  lemma MallocKeepsInv(s: State, size: nat)
    requires Inv(s)
    ensures Inv(MallocStep(s, size).0)
  {
    var wanted := AlignUp(size);
    var k := FirstFit(s.blocks, wanted, 0);
    if size != 0 && wanted != 0 && k < |s.blocks| {
      TakenShape(s.blocks, s.limit, k, wanted);
      TakenTally(s.blocks, k, wanted);
    }
  }

  lemma JoinAt(bs: seq<Blk>, k: nat)
    requires k + 1 < |bs|
    ensures var r := Join(bs, k);
            && |r| == |bs| - 1 && r[k].off == bs[k].off && r[k].size == bs[k].size + HEADER + bs[k + 1].size
            && (bs[k + 1].off == bs[k].End() ==> r[k].End() == bs[k + 1].End())
            && (forall i :: 0 <= i < k ==> r[i] == bs[i])
            && (forall i :: k < i < |r| ==> r[i] == bs[i + 1])
  {
  }

  lemma JoinTiles(bs: seq<Blk>, limit: nat, k: nat)
    requires Tiles(bs, limit) && Aligned(bs) && k + 1 < |bs|
    ensures Tiles(Join(bs, k), limit) && Aligned(Join(bs, k))
  {
    hide Join, Blk.End;
    var r := Join(bs, k);
    JoinAt(bs, k);
    assert Aligned(r);
    forall i, j | 0 <= i && j == i + 1 && j < |r| ensures r[j].off == r[i].End() {
      if i < k { assert bs[i + 1].off == bs[i].End(); } else { assert bs[i + 2].off == bs[i + 1].End(); }
    }
  }

  lemma JoinTally(bs: seq<Blk>, k: nat)
    requires k + 1 < |bs| && bs[k].free && bs[k + 1].free
    ensures Busy(Join(bs, k)) == Busy(bs) && Live(Join(bs, k)) == Live(bs)
    ensures Idle(Join(bs, k)) == Idle(bs) + HEADER
  {
    assert bs[k..k + 2] == [bs[k]] + [bs[k + 1]];
    TallyAppend([bs[k]], [bs[k + 1]]);
    TallyReplace(bs, k, k + 2, [bs[k].(size := bs[k].size + HEADER + bs[k + 1].size)]);
  }

  lemma ReleasedTally(bs: seq<Blk>, k: nat)
    requires k < |bs| && !bs[k].free
    ensures Busy(Released(bs, k)) == Busy(bs) - bs[k].size && Live(Released(bs, k)) == Live(bs) - 1
  {
    var marked := bs[k := bs[k].(free := true)];
    assert marked == bs[..k] + [marked[k]] + bs[k + 1..];
    assert bs[k..k + 1] == [bs[k]];
    TallyReplace(bs, k, k + 1, [marked[k]]);
    if k + 1 < |marked| && marked[k + 1].free { JoinTally(marked, k); }
    var joined := JoinNext(marked, k);
    if 0 < k && joined[k - 1].free { JoinTally(joined, k - 1); }
  }

  /** No two neighbours are both free, except perhaps blocks `k - 1` and `k`. */
  ghost predicate CoalescedBut(bs: seq<Blk>, k: nat) {
    forall i, j :: 0 <= i && j == i + 1 && j < |bs| && j != k ==> !(bs[i].free && bs[j].free)
  }

  lemma JoinNextCoalesces(bs: seq<Blk>, k: nat)
    requires Coalesced(bs) && k < |bs| && !bs[k].free
    ensures CoalescedBut(JoinNext(bs[k := bs[k].(free := true)], k), k)
  {
  }

  lemma JoinPreviousCoalesces(bs: seq<Blk>, k: nat)
    requires CoalescedBut(bs, k) && k < |bs| && bs[k].free
    ensures Coalesced(JoinPrevious(bs, k))
  {
    var r := JoinPrevious(bs, k);
    if 0 < k && bs[k - 1].free {
      forall i, j | 0 <= i && j == i + 1 && j < |r| ensures !(r[i].free && r[j].free) {
        if j < k - 1 || i < k - 1 { assert r[i] == bs[i]; }
        if i > k - 1 { assert r[i] == bs[i + 1] && r[j] == bs[j + 1]; }
        if i == k - 1 { assert r[j] == bs[k + 1]; }
      }
    }
  }

  lemma MarkedTiles(bs: seq<Blk>, limit: nat, k: nat)
    requires Tiles(bs, limit) && Aligned(bs) && k < |bs|
    ensures Tiles(bs[k := bs[k].(free := true)], limit) && Aligned(bs[k := bs[k].(free := true)])
  {
  }

  lemma ReleasedShape(bs: seq<Blk>, limit: nat, k: nat)
    requires Tiles(bs, limit) && Aligned(bs) && Coalesced(bs) && k < |bs| && !bs[k].free
    ensures Tiles(Released(bs, k), limit) && Aligned(Released(bs, k)) && Coalesced(Released(bs, k))
  {
    hide Tiles, Aligned, Coalesced;
    var marked := bs[k := bs[k].(free := true)];
    MarkedTiles(bs, limit, k);
    if k + 1 < |marked| && marked[k + 1].free { JoinTiles(marked, limit, k); }
    JoinNextCoalesces(bs, k);
    var joined := JoinNext(marked, k);
    if 0 < k && joined[k - 1].free { JoinTiles(joined, limit, k - 1); }
    JoinPreviousCoalesces(joined, k);
  }

  lemma FreeKeepsInv(s: State, p: nat)
    requires Inv(s)
    ensures Inv(FreeStep(s, p))
  {
    var k := Find(s.blocks, s.base, p, 0);
    if FreeStep(s, p) != s {
      ReleasedShape(s.blocks, s.limit, k);
      ReleasedTally(s.blocks, k);
    }
  }

  /** A reallocation leaves one of three states, each reached by smaller steps. */
  lemma ReallocCases(s: State, p: nat, size: nat)
    ensures var r := ReallocStep(s, p, size).0;
            var s1 := MallocStep(s, size).0;
            r == s || r == s1 || r == FreeStep(s, p) || r == FreeStep(s1, p)
  {
    hide MallocStep, FreeStep, Find;
  }

  lemma ReallocKeepsInv(s: State, p: nat, size: nat)
    requires Inv(s)
    ensures Inv(ReallocStep(s, p, size).0)
  {
    var r, s1 := ReallocStep(s, p, size).0, MallocStep(s, size).0;
    ReallocCases(s, p, size);
    MallocKeepsInv(s, size);
    FreeKeepsInv(s, p);
    FreeKeepsInv(s1, p);
    assert Inv(r);
  }

  lemma StepKeepsInv(s: State, op: Op)
    requires Inv(s)
    ensures Inv(Step(s, op).0)
  {
    match op
    case Malloc(size) => MallocKeepsInv(s, size);
    case Free(p) => FreeKeepsInv(s, p);
    case Calloc(count, size) => MallocKeepsInv(s, count * size);
    case Realloc(p, size) => ReallocKeepsInv(s, p, size);
  }

  // ------------------------------------------------------------ whole runs

  lemma OneFree(b: Blk)
    requires b.free
    ensures Busy([b]) == 0 && Live([b]) == 0
  {
    var bs := [b];
    assert bs[0] == b && bs[1..] == [];
    assert Busy(bs) == Busy(bs[1..]) && Live(bs) == Live(bs[1..]);
  }

  lemma InitInv(base: nat, limit: nat)
    requires 0 < base && base + HEAP_MAX_BYTES < SIZE_LIMIT
    requires limit <= HEAP_MAX_BYTES && limit % ALIGNMENT == 0
    ensures Inv(InitState(base, limit))
    ensures limit > HEADER + MIN_PAYLOAD ==> Tiles(InitState(base, limit).blocks, limit)
  {
    var b := Blk(0, if limit < HEADER then 0 else limit - HEADER, true);
    OneFree(b);
  }

  lemma StepKeepsGeometry(s: State, op: Op)
    ensures Step(s, op).0.base == s.base && Step(s, op).0.limit == s.limit
  {
    if op.Realloc? { ReallocCases(s, op.pointer, op.size); }
  }

  lemma {:induction false} RunKeepsInv(s: State, ops: seq<Op>)
    requires Inv(s)
    ensures Inv(Run(s, ops)) && Run(s, ops).base == s.base && Run(s, ops).limit == s.limit
    decreases ops
  {
    if ops != [] {
      var s1, rest := Step(s, ops[0]).0, ops[1..];
      StepKeepsInv(s, ops[0]);
      StepKeepsGeometry(s, ops[0]);
      RunKeepsInv(s1, rest);
      var r := Run(s1, rest);
      assert Inv(r) && r == Run(s, ops);
    }
  }

  /** From memory_init on, every run of calls keeps the heap invariant. */
  lemma EveryRunIsValid(base: nat, limit: nat, ops: seq<Op>)
    requires 0 < base && base + HEAP_MAX_BYTES < SIZE_LIMIT
    requires limit <= HEAP_MAX_BYTES && limit % ALIGNMENT == 0
    ensures Inv(Run(InitState(base, limit), ops))
  {
    InitInv(base, limit);
    RunKeepsInv(InitState(base, limit), ops);
  }

  lemma {:induction false} SuffixBytes(bs: seq<Blk>, limit: nat, i: nat)
    requires Tiles(bs, limit) && i < |bs|
    ensures Busy(bs[i..]) + Idle(bs[i..]) + HEADER * (|bs| - i) == limit - bs[i].off
    decreases |bs| - i
  {
    assert bs[i..][1..] == bs[i + 1..];
    if i + 1 < |bs| {
      SuffixBytes(bs, limit, i + 1);
      assert bs[i + 1].off == bs[i].End();
    }
  }

  /** Used bytes, free bytes and headers together are the whole heap. */
  lemma Conservation(s: State)
    requires Inv(s) && s.blocks != []
    ensures s.used + Idle(s.blocks) + HEADER * |s.blocks| == s.limit
  {
    SuffixBytes(s.blocks, s.limit, 0);
    assert s.blocks[0..] == s.blocks;
  }

  ghost function LiveBlocks(bs: seq<Blk>): set<Blk> { set b | b in bs && !b.free }

  /** Two live allocations never share a byte, and each lies inside the heap. */
  lemma LiveDisjoint(s: State, a: Blk, b: Blk)
    requires Inv(s) && a in LiveBlocks(s.blocks) && b in LiveBlocks(s.blocks) && a != b
    ensures a.End() <= b.off || b.End() <= a.off
    ensures a.End() <= s.limit && b.End() <= s.limit
  {
    var i :| 0 <= i < |s.blocks| && s.blocks[i] == a;
    var j :| 0 <= j < |s.blocks| && s.blocks[j] == b;
    Within(s.blocks, s.limit, i);
    Within(s.blocks, s.limit, j);
    if i < j { Ordered(s.blocks, s.limit, i, j); } else { Ordered(s.blocks, s.limit, j, i); }
  }

  /** kmalloc returns null exactly when the size is unusable or no free block can hold it. */
  lemma MallocFailsIff(s: State, size: nat)
    requires Inv(s)
    ensures MallocStep(s, size).1 == 0 <==>
            size == 0 || size > SIZE_LIMIT - 16 || forall b :: b in s.blocks && b.free ==> b.size < AlignUp(size)
    ensures MallocStep(s, size).1 == 0 ==> MallocStep(s, size).0 == s
  {
    var k := FirstFit(s.blocks, AlignUp(size), 0);
    if k < |s.blocks| { assert s.blocks[k] in s.blocks; }
  }

  lemma TakenLive(bs: seq<Blk>, k: nat, wanted: nat)
    requires k < |bs| && bs[k].free && bs[k].size >= wanted
    ensures LiveBlocks(bs[..k] + Taken(bs[k], wanted) + bs[k + 1..]) == LiveBlocks(bs) + {Taken(bs[k], wanted)[0]}
  {
    var t := Taken(bs[k], wanted);
    SameMembers(bs, k, k + 1, t);
    assert bs[k..k + 1] == [bs[k]];
    assert LiveBlocks([bs[k]]) == {};
    assert LiveBlocks(t) == {t[0]};
  }

  /** A busy block never overlaps the free block at `k`. */
  lemma LiveApart(bs: seq<Blk>, limit: nat, k: nat, a: Blk)
    requires Tiles(bs, limit) && k < |bs| && bs[k].free && a in LiveBlocks(bs)
    ensures a.End() <= bs[k].off || bs[k].End() <= a.off
  {
    var i :| 0 <= i < |bs| && bs[i] == a;
    if i < k { Ordered(bs, limit, i, k); } else { Ordered(bs, limit, k, i); }
  }

  ghost function FreeBlocks(bs: seq<Blk>): set<Blk> { set b | b in bs && b.free }

  /** What is left of free block `f` when `b` is taken from its front. */
  ghost function Remainder(f: Blk, b: Blk): set<Blk> {
    if b.size + 48 <= f.size then {Blk(b.End(), f.size - b.size - 48, true)} else {}
  }

  lemma TakenFree(bs: seq<Blk>, limit: nat, k: nat, wanted: nat)
    requires Tiles(bs, limit) && k < |bs| && bs[k].free && bs[k].size >= wanted
    ensures var t := Taken(bs[k], wanted);
            FreeBlocks(bs[..k] + t + bs[k + 1..]) == FreeBlocks(bs) - {bs[k]} + Remainder(bs[k], t[0])
  {
    hide Taken, FreeBlocks, Remainder;
    var t := Taken(bs[k], wanted);
    FreeMembers(bs, k, k + 1, t);
    assert bs[k..k + 1] == [bs[k]];
    FreeOne(bs[k]);
    RestFree(bs[k], wanted);
    OnlyHere(bs, limit, k);
    var front, back, left := FreeBlocks(bs[..k]), FreeBlocks(bs[k + 1..]), Remainder(bs[k], t[0]);
    assert front + left + back == front + {bs[k]} + back - {bs[k]} + left;
  }

  lemma FreeOne(b: Blk)
    requires b.free
    ensures FreeBlocks([b]) == {b}
  {
  }

  lemma RestFree(b: Blk, wanted: nat)
    requires b.free && b.size >= wanted
    ensures FreeBlocks(Taken(b, wanted)) == Remainder(b, Taken(b, wanted)[0])
  {
    var t := Taken(b, wanted);
    if |t| == 2 { assert t == [t[0], t[1]]; } else { assert t == [t[0]]; }
  }

  /** A tiling holds no block twice. */
  lemma OnlyHere(bs: seq<Blk>, limit: nat, k: nat)
    requires Tiles(bs, limit) && k < |bs|
    ensures bs[k] !in FreeBlocks(bs[..k]) && bs[k] !in FreeBlocks(bs[k + 1..])
  {
    hide Tiles;
    forall i | 0 <= i < |bs| && i != k ensures bs[i] != bs[k] {
      if i < k { Ordered(bs, limit, i, k); } else { Ordered(bs, limit, k, i); }
    }
  }

  lemma FreeMembers(bs: seq<Blk>, from: nat, to: nat, mid: seq<Blk>)
    requires from <= to <= |bs|
    ensures FreeBlocks(bs) == FreeBlocks(bs[..from]) + FreeBlocks(bs[from..to]) + FreeBlocks(bs[to..])
    ensures FreeBlocks(bs[..from] + mid + bs[to..]) == FreeBlocks(bs[..from]) + FreeBlocks(mid) + FreeBlocks(bs[to..])
  {
    assert bs == bs[..from] + bs[from..to] + bs[to..];
  }

  /** The block first fit takes is the lowest that is large enough. */
  lemma LowestFit(bs: seq<Blk>, limit: nat, wanted: nat, g: Blk)
    requires Tiles(bs, limit) && g in FreeBlocks(bs) && g.size >= wanted
    ensures var k := FirstFit(bs, wanted, 0); k < |bs| && bs[k] in FreeBlocks(bs) && bs[k].off <= g.off
  {
    var k := FirstFit(bs, wanted, 0);
    var i :| 0 <= i < |bs| && bs[i] == g;
    if k < i { Ordered(bs, limit, k, i); }
  }

  /**
   A successful kmalloc adds exactly one live block, clear of the others and large enough. It is cut from the front of
   the lowest free block `f` that can hold it, with no more than 63 bytes beyond the aligned size, and of the free
   blocks only `f` changes: what is not taken stays free.
   */
  lemma MallocAddsOne(s: State, size: nat) returns (b: Blk, f: Blk)
    requires Inv(s) && MallocStep(s, size).1 != 0
    ensures !b.free && size <= b.size && s.base + b.off + HEADER == MallocStep(s, size).1
    ensures LiveBlocks(MallocStep(s, size).0.blocks) == LiveBlocks(s.blocks) + {b}
    ensures forall a :: a in LiveBlocks(s.blocks) ==> a.End() <= b.off || b.End() <= a.off
    ensures f in FreeBlocks(s.blocks) && f.off == b.off && AlignUp(size) <= b.size < AlignUp(size) + 64
    ensures forall g :: g in FreeBlocks(s.blocks) && g.size >= AlignUp(size) ==> f.off <= g.off
    ensures b.size == (if f.size >= AlignUp(size) + 64 then AlignUp(size) else f.size)
    ensures FreeBlocks(MallocStep(s, size).0.blocks) == FreeBlocks(s.blocks) - {f} + Remainder(f, b)
  {
    var bs, wanted := s.blocks, AlignUp(size);
    var k := FirstFit(bs, wanted, 0);
    f, b := bs[k], Taken(bs[k], wanted)[0];
    TakenLive(bs, k, wanted);
    TakenFree(bs, s.limit, k, wanted);
    forall a | a in LiveBlocks(bs) ensures a.End() <= b.off || b.End() <= a.off {
      LiveApart(bs, s.limit, k, a);
    }
    forall g | g in FreeBlocks(bs) && g.size >= wanted ensures f.off <= g.off { LowestFit(bs, s.limit, wanted, g); }
  }

  /** The free bytes shrink by the new block, and by one header if one more block exists. */
  lemma MallocIdle(s: State, size: nat)
    requires Inv(s) && MallocStep(s, size).1 != 0
    ensures var r := MallocStep(s, size).0;
            && |s.blocks| <= |r.blocks| <= |s.blocks| + 1
            && Idle(r.blocks) == Idle(s.blocks) - (r.used - s.used) - 48 * (|r.blocks| - |s.blocks|)
  {
    MallocKeepsInv(s, size);
    Conservation(s);
    Conservation(MallocStep(s, size).0);
  }

  // ------------------------------------------------------- serving many requests

  /** The pointers a run of kmalloc calls returns. */
  function Pointers(s: State, sizes: seq<nat>): (ps: seq<nat>)
    ensures |ps| == |sizes|
    decreases sizes
  {
    if sizes == [] then []
    else [MallocStep(s, sizes[0]).1] + Pointers(MallocStep(s, sizes[0]).0, sizes[1..])
  }

  /** The aligned sizes, each with a header before it. */
  function Demand(sizes: seq<nat>): nat {
    if sizes == [] then 0 else AlignUp(sizes[0]) + 48 + Demand(sizes[1..])
  }

  /** After a request is served from a heap with free block `f`, there is a block for what is left of the demand. */
  lemma StillServes(s: State, f: Blk, size: nat, rest: nat) returns (g: Blk)
    requires Inv(s) && f in FreeBlocks(s.blocks) && AlignUp(size) != 0
    requires f.size >= AlignUp(size) && (rest > 0 ==> rest >= 64 && f.size + 48 >= AlignUp(size) + 48 + rest)
    ensures MallocStep(s, size).1 != 0
    ensures rest > 0 ==> g in FreeBlocks(MallocStep(s, size).0.blocks) && g.size + 48 >= rest
  {
    hide MallocStep;
    MallocFailsIff(s, size);
    var b, taken := MallocAddsOne(s, size);
    g := if taken != f then f else Blk(b.End(), if f.size < b.size + 48 then 0 else f.size - b.size - 48, true);
  }

  /**
   A free block that could hold several requests laid one behind the other, each with its header, serves them all,
   whatever else the heap holds.
   */
  lemma {:induction false} ServesAll(s: State, f: Blk, sizes: seq<nat>)
    requires Inv(s) && f in FreeBlocks(s.blocks) && f.size + 48 >= Demand(sizes)
    requires forall i :: 0 <= i < |sizes| ==> AlignUp(sizes[i]) != 0
    ensures forall i :: 0 <= i < |sizes| ==> Pointers(s, sizes)[i] != 0
    decreases sizes
  {
    hide Inv, MallocStep, FreeBlocks;
    if sizes != [] {
      DemandLeft(sizes);
      var g := StillServes(s, f, sizes[0], Demand(sizes[1..]));
      var s' := MallocStep(s, sizes[0]).0;
      MallocKeepsInv(s, sizes[0]);
      if sizes[1..] != [] {
        ServesAll(s', g, sizes[1..]);
      }
    }
  }

  lemma DemandLeft(sizes: seq<nat>)
    requires sizes != [] && forall i :: 0 <= i < |sizes| ==> AlignUp(sizes[i]) != 0
    ensures sizes[1..] == [] ==> Demand(sizes[1..]) == 0
    ensures sizes[1..] != [] ==> Demand(sizes[1..]) >= 64
  {
    hide AlignUp;
    if |sizes| > 1 { assert sizes[1..][0] == sizes[1]; assert AlignUp(sizes[1]) >= 16; }
  }

  /** The live blocks of a list whose blocks `from..to` are replaced by `mid`. */
  lemma SameMembers(bs: seq<Blk>, from: nat, to: nat, mid: seq<Blk>)
    requires from <= to <= |bs|
    ensures LiveBlocks(bs) == LiveBlocks(bs[..from]) + LiveBlocks(bs[from..to]) + LiveBlocks(bs[to..])
    ensures LiveBlocks(bs[..from] + mid + bs[to..]) == LiveBlocks(bs[..from]) + LiveBlocks(mid) + LiveBlocks(bs[to..])
  {
    assert bs == bs[..from] + bs[from..to] + bs[to..];
  }

  lemma JoinLive(bs: seq<Blk>, k: nat)
    requires k + 1 < |bs| && bs[k].free && bs[k + 1].free
    ensures LiveBlocks(Join(bs, k)) == LiveBlocks(bs)
  {
    SameMembers(bs, k, k + 2, [bs[k].(size := bs[k].size + HEADER + bs[k + 1].size)]);
    assert bs[k..k + 2] == [bs[k], bs[k + 1]];
  }

  lemma MarkedLive(bs: seq<Blk>, limit: nat, k: nat)
    requires Tiles(bs, limit) && k < |bs| && !bs[k].free
    ensures LiveBlocks(bs[k := bs[k].(free := true)]) == LiveBlocks(bs) - {bs[k]}
  {
    var marked := bs[k := bs[k].(free := true)];
    assert marked == bs[..k] + [marked[k]] + bs[k + 1..];
    SameMembers(bs, k, k + 1, [marked[k]]);
    assert bs[k..k + 1] == [bs[k]];
    forall i | 0 <= i < |bs| && i != k ensures bs[i] != bs[k] {
      if i < k { Ordered(bs, limit, i, k); } else { Ordered(bs, limit, k, i); }
    }
  }

  lemma ReleasedLive(bs: seq<Blk>, limit: nat, k: nat)
    requires Tiles(bs, limit) && k < |bs| && !bs[k].free
    ensures LiveBlocks(Released(bs, k)) == LiveBlocks(bs) - {bs[k]}
  {
    var marked := bs[k := bs[k].(free := true)];
    MarkedLive(bs, limit, k);
    hide LiveBlocks;
    if k + 1 < |marked| && marked[k + 1].free { JoinLive(marked, k); }
    var joined := JoinNext(marked, k);
    if 0 < k && joined[k - 1].free { JoinLive(joined, k - 1); }
  }

  /** At most one block starts at a given offset. */
  lemma OffsetsDiffer(bs: seq<Blk>, limit: nat, i: nat, j: nat)
    requires Tiles(bs, limit) && i < |bs| && j < |bs| && bs[i].off == bs[j].off
    ensures i == j
  {
    if i < j { Ordered(bs, limit, i, j); }
    if j < i { Ordered(bs, limit, j, i); }
  }

  lemma OnlyBlockAt(s: State, k: nat, b: Blk)
    requires s.blocks != [] ==> Tiles(s.blocks, s.limit)
    requires k < |s.blocks| && b in s.blocks && b.off == s.blocks[k].off
    ensures b == s.blocks[k]
  {
    var i :| 0 <= i < |s.blocks| && s.blocks[i] == b;
    OffsetsDiffer(s.blocks, s.limit, i, k);
  }

  ghost function LiveBut(s: State, p: nat): set<Blk> {
    set b | b in LiveBlocks(s.blocks) && s.base + b.off + HEADER != p
  }

  lemma LiveButNamed(s: State, p: nat)
    requires Inv(s)
    ensures var k := Find(s.blocks, s.base, p, 0);
            LiveBut(s, p) == LiveBlocks(s.blocks) - (if k < |s.blocks| then {s.blocks[k]} else {})
  {
    var bs, k := s.blocks, Find(s.blocks, s.base, p, 0);
    if k < |bs| {
      forall b | b in bs && b.off == bs[k].off ensures b == bs[k] { OnlyBlockAt(s, k, b); }
    }
  }

  /** kfree removes exactly the live block whose payload starts at `p`, or nothing. */
  lemma FreeRemovesOne(s: State, p: nat)
    requires Inv(s)
    ensures LiveBlocks(FreeStep(s, p).blocks) == LiveBut(s, p)
    ensures FreeStep(s, p).base == s.base
  {
    hide Released;
    var bs, k := s.blocks, Find(s.blocks, s.base, p, 0);
    LiveButNamed(s, p);
    if k < |bs| {
      Within(bs, s.limit, k);
      if !bs[k].free { ReleasedLive(bs, s.limit, k); }
    }
  }

  /** kcalloc fails exactly when kmalloc of the true product would: the product never wraps. */
  lemma CallocFailsIff(s: State, count: nat, size: nat)
    requires Inv(s)
    ensures CallocStep(s, count, size).1 == 0 <==>
            || count * size == 0 || count * size > 0x1_0000_0000_0000_0000 - 16
            || forall b :: b in s.blocks && b.free ==> b.size < AlignUp(count * size)
    ensures CallocStep(s, count, size) == MallocStep(s, count * size)
  {
    hide Inv, MallocStep;
    MallocFailsIff(s, count * size);
    if size != 0 && count > (SIZE_LIMIT - 1) / size { ProductWraps(count, size); }
  }

  lemma ProductWraps(count: nat, size: nat)
    requires size != 0 && count > (SIZE_LIMIT - 1) / size
    ensures count * size >= SIZE_LIMIT && AlignUp(count * size) == 0
  {
    var q := (SIZE_LIMIT - 1) / size;
    assert (q + 1) * size > SIZE_LIMIT - 1;
    assert count * size >= (q + 1) * size;
  }

  /** There is a live allocation at address `p`. */
  ghost predicate LiveAt(s: State, p: nat, b: Blk) { b in LiveBlocks(s.blocks) && s.base + b.off + HEADER == p }

  /**
   krealloc in terms of what is live. Size 0 frees; otherwise success replaces the allocation at `p`, if any, by one of
   at least the size, and failure changes nothing.
   */
  lemma ReallocLive(s: State, p: nat, size: nat) returns (b: Blk)
    requires Inv(s)
    ensures var (r, q) := ReallocStep(s, p, size);
            && (size == 0 && p != 0 ==> q == 0 && LiveBlocks(r.blocks) == LiveBut(s, p))
            && (size != 0 && q == 0 ==> r == s)
            && (q != 0 ==>
                  size <= b.size && s.base + b.off + HEADER == q && LiveBlocks(r.blocks) == LiveBut(s, p) + {b})
  {
    hide Inv, MallocStep, FreeStep, Find;
    var k := Find(s.blocks, s.base, p, 0);
    MallocFailsIff(s, size);
    b := Blk(0, 0, false);
    if p == 0 {
      NoneAtNull(s);
      if MallocStep(s, size).1 != 0 { var f; b, f := MallocAddsOne(s, size); }
    } else if size == 0 {
      FreeRemovesOne(s, p);
    } else {
      LiveNamed(s, p);
      LiveButNamed(s, p);
      if k < |s.blocks| && !s.blocks[k].free {
        if s.blocks[k].size >= size {
          b := s.blocks[k];
        } else {
          ReallocMoves(s, p, size);
          if MallocStep(s, size).1 != 0 { b := MovedBlock(s, p, size); }
        }
      }
    }
  }

  /** It fails exactly for a pointer to nothing live, or when what is there is too small and kmalloc finds no room. */
  lemma ReallocFailsIff(s: State, p: nat, size: nat)
    requires Inv(s) && size != 0
    ensures ReallocStep(s, p, size).1 == 0 <==>
            || (p != 0 && forall a :: !LiveAt(s, p, a))
            || (MallocStep(s, size).1 == 0 && forall a :: LiveAt(s, p, a) ==> a.size < size)
  {
    hide Inv, MallocStep, FreeStep, Find, LiveAt;
    var k := Find(s.blocks, s.base, p, 0);
    if p == 0 {
      NoneAtNull(s);
    } else {
      LiveNamed(s, p);
      ReallocStays(s, p, size);
      if k < |s.blocks| && !s.blocks[k].free {
        assert LiveAt(s, p, s.blocks[k]);
        if s.blocks[k].size < size { ReallocMoves(s, p, size); }
      }
    }
  }

  lemma NoneAtNull(s: State)
    requires Inv(s)
    ensures LiveBut(s, 0) == LiveBlocks(s.blocks) && forall a :: !LiveAt(s, 0, a)
  {
  }

  lemma LiveNamed(s: State, p: nat)
    requires Inv(s)
    ensures var k := Find(s.blocks, s.base, p, 0);
            forall a :: LiveAt(s, p, a) <==> k < |s.blocks| && !s.blocks[k].free && a == s.blocks[k]
  {
    var bs, k := s.blocks, Find(s.blocks, s.base, p, 0);
    forall a | LiveAt(s, p, a) ensures k < |bs| && a == bs[k] {
      var i :| 0 <= i < |bs| && bs[i] == a;
      OnlyBlockAt(s, k, a);
    }
  }

  /** The allocation at `p` gives way to a larger one. */
  lemma MovedBlock(s: State, p: nat, size: nat) returns (b: Blk)
    requires Inv(s) && MallocStep(s, size).1 != 0
    requires var k := Find(s.blocks, s.base, p, 0); k < |s.blocks| && !s.blocks[k].free && s.blocks[k].size < size
    ensures size <= b.size && s.base + b.off + HEADER == MallocStep(s, size).1
    ensures LiveBlocks(FreeStep(MallocStep(s, size).0, p).blocks) == LiveBut(s, p) + {b}
  {
    hide Inv, FreeStep, Find, LiveBlocks;
    var f;
    b, f := MallocAddsOne(s, size);
    var s1 := MallocStep(s, size).0;
    MallocKeepsInv(s, size);
    FreeRemovesOne(s1, p);
    var k := Find(s.blocks, s.base, p, 0);
    assert s.blocks[k] in LiveBlocks(s.blocks) by { InLive(s.blocks, k); }
    assert LiveBut(s1, p) == LiveBut(s, p) + {b};
  }

  lemma InLive(bs: seq<Blk>, k: nat)
    requires k < |bs| && !bs[k].free
    ensures bs[k] in LiveBlocks(bs)
  {
  }

  function Frees(ps: seq<nat>): seq<Op> {
    if ps == [] then [] else [Free(ps[0])] + Frees(ps[1..])
  }

  ghost function LiveExcept(s: State, ps: seq<nat>): set<Blk> {
    set b | b in LiveBlocks(s.blocks) && s.base + b.off + HEADER !in ps
  }

  lemma {:induction false} FreesLeave(s: State, ps: seq<nat>)
    requires Inv(s)
    ensures LiveBlocks(Run(s, Frees(ps)).blocks) == LiveExcept(s, ps)
    decreases ps
  {
    hide Inv, FreeStep, LiveBlocks;
    if ps != [] {
      var s1, rest := FreeStep(s, ps[0]), ps[1..];
      FreeRemovesOne(s, ps[0]);
      FreeKeepsInv(s, ps[0]);
      FreesLeave(s1, rest);
      assert Frees(ps)[1..] == Frees(rest);
      assert Run(s, Frees(ps)) == Run(s1, Frees(rest));
      assert LiveExcept(s1, rest) == LiveExcept(s, ps);
    }
  }

  lemma {:induction false} NoneLive(bs: seq<Blk>)
    requires LiveBlocks(bs) == {}
    ensures Busy(bs) == 0 && Live(bs) == 0
  {
    if bs != [] {
      assert bs[0] in bs && bs[0] !in LiveBlocks(bs);
      assert forall b :: b in bs[1..] ==> b in bs && b !in LiveBlocks(bs);
      NoneLive(bs[1..]);
    }
  }

  lemma IdleHeapIsInitial(r: State)
    requires Inv(r) && LiveBlocks(r.blocks) == {}
    ensures r == InitState(r.base, r.limit)
  {
    NoneLive(r.blocks);
    if r.blocks != [] {
      assert |r.blocks| > 1 ==> !(r.blocks[0].free && r.blocks[1].free);
      forall i | 0 <= i < |r.blocks| ensures r.blocks[i].free {
        assert r.blocks[i] in r.blocks && r.blocks[i] !in LiveBlocks(r.blocks);
      }
      assert r.blocks == [r.blocks[0]];
    }
  }

  /** Freeing every live pointer, in any order and with any strays, restores the initial heap. */
  lemma FreeingAllRestores(s: State, ps: seq<nat>)
    requires Inv(s)
    requires forall b :: b in LiveBlocks(s.blocks) ==> s.base + b.off + HEADER in ps
    ensures Run(s, Frees(ps)) == InitState(s.base, s.limit)
  {
    hide Inv, Run, Frees, LiveBlocks;
    var r := Run(s, Frees(ps));
    FreesLeave(s, ps);
    RunKeepsInv(s, Frees(ps));
    assert LiveExcept(s, ps) == {};
    IdleHeapIsInitial(r);
  }
}
