/**
 The kernel heap (kernel/mm/memory.c): a first-fit allocator whose doubly linked
 block headers live inside the byte array it hands out.
 */
module KernelHeap {
  import opened Bytes
  import opened HeapSpec
  import opened HeapMemory

  /** Heap size for `available` bytes of memory: an eighth of it, capped, in whole 16-byte units. */
  function HeapSize(available: nat): (bytes: nat)
    ensures bytes % 16 == 0 && bytes <= 2097152
    ensures available != 0 ==> bytes <= available / 8
    ensures available == 0 || available / 8 >= 2097152 ==> bytes == 2097152
    ensures available != 0 && available / 8 < 2097152 ==> available / 8 - 16 < bytes
  {
    var bytes := if available != 0 && available / 8 < HEAP_MAX_BYTES then available / 8 else HEAP_MAX_BYTES;
    bytes - bytes % 16
  }

  class Heap {
    const base: nat              // address of heap[0]
    const heap: array<byte>
    var heapBytes: nat
    var used: nat
    var allocations: nat
    var first: nat               // address of the first block, or 0
    ghost var blocks: seq<Blk>   // the blocks met by following `next` from `first`

    ghost function View(): State
      reads this
    {
      State(base, heapBytes, blocks, used, allocations)
    }

    /** The bytes hold the list `blocks`, and the list tiles the heap. */
    ghost predicate Core()
      reads this, heap
    {
      && heap.Length == HEAP_MAX_BYTES && heapBytes <= HEAP_MAX_BYTES
      && 0 < base && base + HEAP_MAX_BYTES < SIZE_LIMIT
      && first == (if blocks == [] then 0 else base)
      && (blocks != [] ==> Tiles(blocks, heapBytes))
      && Represents(heap[..], blocks, base)
    }

    ghost predicate Valid()
      reads this, heap
    {
      Core() && Inv(View())
    }

    /** memory_init, given the bytes of memory the boot map reports (0 when unknown). */
    constructor (address: nat, available: nat)
      requires 0 < address && address + HEAP_MAX_BYTES < SIZE_LIMIT
      ensures Valid() && base == address && fresh(heap)
      ensures View() == InitState(address, HeapSize(available))
    {
      base := address;
      heapBytes := HeapSize(available);
      used, allocations, first := 0, 0, 0;
      blocks := [];
      heap := new byte[HEAP_MAX_BYTES](_ => 0);
      new;
      hide Inv, StoreHeader, HeaderIn, Tiles;
      InitInv(base, heapBytes);
      if heapBytes > HEADER + MIN_PAYLOAD { PlaceFirst(); }
    }

    /** Writes the header of the one free block of a new heap. */
    method PlaceFirst()
      requires HEADER + MIN_PAYLOAD < heapBytes <= HEAP_MAX_BYTES == heap.Length
      modifies heap, this`first, this`blocks
      ensures first == base && blocks == [Blk(0, heapBytes - HEADER, true)] && Represents(heap[..], blocks, base)
    {
      hide StoreHeader, HeaderIn;
      first := base;
      var h := Header(BLOCK_MAGIC, heapBytes - HEADER, 0, 0, 1);
      HeaderReadsBack(heap[..], 0, h);
      Store(0, h);
      blocks := [Blk(0, heapBytes - HEADER, true)];
      assert HeaderOk(heap[..], blocks, base, 0);
    }

    method Load(o: nat) returns (h: Header)
      requires o + STORED <= heap.Length
      ensures h == HeaderIn(heap[..], o)
    {
      h := HeaderIn(heap[..], o);
    }

    method Store(o: nat, h: Header)
      requires o + STORED <= heap.Length
      modifies heap
      ensures heap[..] == StoreHeader(old(heap[..]), o, h)
    {
      var e := Encode(h);
      for i := 0 to STORED
        invariant forall j :: 0 <= j < i ==> heap[o + j] == e[j]
        invariant forall j :: 0 <= j < heap.Length && !(o <= j < o + i) ==> heap[j] == old(heap[j])
      {
        heap[o + i] := e[i];
      }
      hide Encode;
      assert heap[..] == Overwrite(old(heap[..]), o, e);
    }

    /** `blocks` tiles the heap and every header except the pending ones is in place. */
    ghost predicate Pending(pending: set<int>)
      reads this, heap
    {
      && heap.Length == HEAP_MAX_BYTES && heapBytes <= HEAP_MAX_BYTES
      && 0 < base && base + HEAP_MAX_BYTES < SIZE_LIMIT
      && Tiles(blocks, heapBytes) && RepresentsBut(heap[..], blocks, base, pending)
    }

    /**
     Stores block `k`'s header, which is at `o`. For the list `bs` the caller started from,
     `o` is a header or lies in a free block, so no payload that was live in `bs` changes.
     */
    method Settle(o: nat, h: Header, ghost k: nat, ghost pending: set<int>, ghost bs: seq<Blk>, ghost j: nat)
      requires Pending(pending) && k < |blocks| && o == blocks[k].off && h == Linked(blocks, base, k)
      requires Tiles(bs, heapBytes) && j < |bs|
      requires o == bs[j].off || (bs[j].free && bs[j].off <= o && o + STORED <= bs[j].End())
      modifies heap
      ensures Pending(pending - {k})
      ensures forall i :: 0 <= i < |blocks| ==> blocks[i].off + STORED <= heap.Length
      ensures forall i :: 0 <= i < |blocks| && i != k ==>
                HeaderIn(heap[..], blocks[i].off) == HeaderIn(old(heap[..]), blocks[i].off)
      ensures PayloadsKept(old(heap[..]), heap[..], LiveBlocks(bs))
    {
      hide Tiles, Linked, HeaderIn, StoreHeader;
      StoreKeepsPayloads(heap[..], bs, heapBytes, j, o, h);
      StoreSettles(heap[..], blocks, base, heapBytes, k, pending);
      Store(o, h);
    }

    /** Points the `previous` link of block `k`, whose address is `next`, at `previous`; no-op at the list's end. */
    method Relink(next: nat, previous: nat, ghost k: nat, ghost pending: set<int>, ghost bs: seq<Blk>, ghost j: nat)
      requires Pending(pending) && (next == 0 <==> k >= |blocks|)
      requires k < |blocks| ==>
                 && blocks[k].off + STORED <= heap.Length && next == base + blocks[k].off
                 && HeaderIn(heap[..], blocks[k].off).(previous := previous) == Linked(blocks, base, k)
                 && j < |bs| && bs[j].off == blocks[k].off
      requires Tiles(bs, heapBytes)
      modifies heap
      ensures Pending(pending - {k})
      ensures forall i :: 0 <= i < |blocks| && i != k ==>
                blocks[i].off + STORED <= heap.Length
                && HeaderIn(heap[..], blocks[i].off) == HeaderIn(old(heap[..]), blocks[i].off)
      ensures PayloadsKept(old(heap[..]), heap[..], LiveBlocks(bs))
    {
      hide Tiles, Linked, HeaderIn;
      if next != 0 {
        var h := Load(next - base);
        Settle(next - base, h.(previous := previous), k, pending, bs, j);
      } else {
        forall i | 0 <= i < |blocks| ensures blocks[i].off + STORED <= heap.Length { Within(blocks, heapBytes, i); }
        forall b | b in LiveBlocks(bs) ensures b.End() <= heap.Length {
          var i :| 0 <= i < |bs| && bs[i] == b;
          Within(bs, heapBytes, i);
        }
      }
    }

    /** Marks block `k`, whose header is at `o`, free or busy. */
    method Mark(o: nat, free: bool, ghost k: nat)
      requires Core() && k < |blocks| && o == blocks[k].off
      modifies heap, this`blocks
      ensures Core() && blocks == old(blocks)[k := old(blocks)[k].(free := free)]
      ensures PayloadsKept(old(heap[..]), heap[..], LiveBlocks(old(blocks)))
    {
      hide Tiles, Linked, HeaderIn, StoreHeader;
      ghost var m, bs := heap[..], blocks;
      Within(bs, heapBytes, k);
      var h := Load(o);
      assert HeaderOk(m, bs, base, k);
      MarkPending(m, bs, base, k, free);
      MarkTiles(bs, heapBytes, k, free);
      blocks := bs[k := bs[k].(free := free)];
      Settle(o, h.(free := if free then 1 else 0), k, {k}, bs, k);
      assert {k} - {k} == {};
    }

    /** Cuts free block `k`, whose header is at `o`, after `wanted` payload bytes. */
    method Split(o: nat, wanted: nat, ghost k: nat)
      requires Core() && Splittable(blocks, heapBytes, k, wanted) && o == blocks[k].off
      modifies heap, this`blocks
      ensures Core() && blocks == SplitList(old(blocks), k, wanted)
      ensures PayloadsKept(old(heap[..]), heap[..], LiveBlocks(old(blocks)))
    {
      hide Tiles, Linked, HeaderIn, SplitList, Represents, RepresentsBut, PayloadsKept;
      ghost var m, bs := heap[..], blocks;
      SplitFacts(m, bs, base, heapBytes, k, wanted);
      var block := Load(o);
      blocks := SplitList(bs, k, wanted);
      var remainder := o + HEADER + wanted;
      Settle(remainder, Header(BLOCK_MAGIC, block.size - wanted - HEADER, base + o, block.next, 1),
             k + 1, {k, k + 1, k + 2}, bs, k);
      ghost var m1, left := heap[..], {k, k + 1, k + 2} - {k + 1};
      Relink(block.next, base + remainder, k + 2, left, bs, k + 1);
      KeptTransitive(m, m1, heap[..], LiveBlocks(bs));
      m1 := heap[..];
      block := Load(o);
      Settle(o, block.(next := base + remainder, size := wanted), k, left - {k + 2}, bs, k);
      KeptTransitive(m, m1, heap[..], LiveBlocks(bs));
      NonePending(heap[..], blocks, base, left - {k + 2} - {k});
    }

    /** Joins block `k`, whose header is at `o`, with its successor. */
    method JoinBlocks(o: nat, ghost k: nat)
      requires Core() && Aligned(blocks) && k + 1 < |blocks| && o == blocks[k].off && blocks[k + 1].free
      modifies heap, this`blocks
      ensures Core() && blocks == Join(old(blocks), k)
      ensures PayloadsKept(old(heap[..]), heap[..], LiveBlocks(old(blocks)))
    {
      hide Tiles, Linked, HeaderIn, Join, Represents, RepresentsBut, PayloadsKept;
      ghost var m, bs := heap[..], blocks;
      JoinFacts(m, bs, base, heapBytes, k);
      var block := Load(o);
      var next := Load(block.next - base);
      blocks := Join(bs, k);
      block := block.(size := block.size + HEADER + next.size, next := next.next);
      Settle(o, block, k, {k, k + 1}, bs, k);
      ghost var m1 := heap[..];
      Relink(block.next, base + o, k + 1, {k, k + 1} - {k}, bs, k + 2);
      KeptTransitive(m, m1, heap[..], LiveBlocks(bs));
      NonePending(heap[..], blocks, base, {k, k + 1} - {k} - {k + 1});
    }

    /** Gives `wanted` bytes of free block `k` to the caller: cut it when the rest is worth keeping. */
    method Take(o: nat, wanted: nat, ghost k: nat)
      requires Core() && k < |blocks| && o == blocks[k].off && blocks[k].free && blocks[k].size >= wanted
      modifies heap, this`blocks, this`used, this`allocations
      ensures Core()
      ensures var t := Taken(old(blocks)[k], wanted);
              && blocks == old(blocks)[..k] + t + old(blocks)[k + 1..]
              && used == old(used) + t[0].size && allocations == old(allocations) + 1
      ensures PayloadsKept(old(heap[..]), heap[..], LiveBlocks(old(blocks)))
    {
      hide HeaderIn, Represents, PayloadsKept, LiveBlocks, Linked, Tiles, Aligned;
      ghost var m, bs := heap[..], blocks;
      HeaderOf(m, bs, base, k);
      LinkedFields(bs, base, k);
      var block := Load(o);
      if block.size >= wanted + HEADER + MIN_PAYLOAD {
        Split(o, wanted, k);
        SplitLive(bs, k, wanted);
      }
      ghost var m1, bs1 := heap[..], blocks;
      Mark(o, false, k);
      if bs1 != bs { KeptTransitive(m, m1, heap[..], LiveBlocks(bs)); }
      HeaderOf(heap[..], blocks, base, k);
      LinkedFields(blocks, base, k);
      block := Load(o);
      used := used + block.size;
      allocations := allocations + 1;
    }

    ghost function Address(k: nat): nat
      reads this
    {
      if k < |blocks| then base + blocks[k].off else 0
    }

    /** memory_free_bytes: the payload bytes of all free blocks. */
    method FreeBytes() returns (bytes: nat)
      requires Valid()
      ensures bytes == Idle(blocks)
    {
      hide Inv, Tiles, HeaderIn, Linked, Represents;
      if first != 0 { StartsAtZero(blocks, heapBytes); }
      bytes := 0;
      var block := first;
      ghost var i := 0;
      assert blocks[0..] == blocks && block == Address(0);
      while block != 0
        invariant 0 <= i <= |blocks| && block == Address(i)
        invariant bytes + Idle(blocks[i..]) == Idle(blocks)
        decreases |blocks| - i
      {
        HeaderOf(heap[..], blocks, base, i);
        LinkedFields(blocks, base, i);
        var h := Load(block - base);
        assert h.magic == BLOCK_MAGIC;      // the corruption check never fires
        if h.free != 0 { bytes := bytes + h.size; }
        assert blocks[i..][1..] == blocks[i + 1..];
        block, i := h.next, i + 1;
      }
    }

    /** The first free block that holds `wanted` bytes, or null. */
    method Search(wanted: nat) returns (block: nat, ghost k: nat)
      requires Core()
      ensures block == Address(FirstFit(blocks, wanted, 0)) && k == FirstFit(blocks, wanted, 0)
    {
      hide Tiles, HeaderIn, Linked, Represents;
      if first != 0 { StartsAtZero(blocks, heapBytes); }
      block, k := first, 0;
      assert block == Address(0);
      while block != 0
        invariant 0 <= k <= |blocks| && block == Address(k)
        invariant FirstFit(blocks, wanted, 0) == FirstFit(blocks, wanted, k)
        decreases |blocks| - k
      {
        HeaderOf(heap[..], blocks, base, k);
        LinkedFields(blocks, base, k);
        var h := Load(block - base);
        assert h.magic == BLOCK_MAGIC;      // the corruption check never fires
        if h.free != 0 && h.size >= wanted { return; }
        block, k := h.next, k + 1;
      }
    }

    /** The block whose payload starts at `p`, or null. */
    method Locate(p: nat) returns (block: nat, ghost k: nat)
      requires Core()
      ensures block == Address(Find(blocks, base, p, 0)) && k == Find(blocks, base, p, 0)
    {
      hide Tiles, HeaderIn, Linked, Represents;
      if first != 0 { StartsAtZero(blocks, heapBytes); }
      block, k := first, 0;
      assert block == Address(0);
      while block != 0 && block + HEADER != p
        invariant 0 <= k <= |blocks| && block == Address(k)
        invariant Find(blocks, base, p, 0) == Find(blocks, base, p, k)
        decreases |blocks| - k
      {
        HeaderOf(heap[..], blocks, base, k);
        LinkedFields(blocks, base, k);
        var h := Load(block - base);
        assert h.magic == BLOCK_MAGIC;      // the corruption check never fires
        block, k := h.next, k + 1;
      }
    }

    method Kmalloc(size: nat) returns (p: nat)
      requires Valid() && size < SIZE_LIMIT
      modifies heap, this`blocks, this`used, this`allocations
      ensures Valid() && (View(), p) == MallocStep(old(View()), size)
      ensures p == 0 ==> View() == old(View())
      ensures PayloadsKept(old(heap[..]), heap[..], LiveBlocks(old(blocks)))
    {
      hide Inv, Represents, Tiles, Taken, PayloadsKept, LiveBlocks, FirstFit, AlignUp, MallocStep;
      ghost var s := View();
      MallocKeepsInv(s, size);
      KeptSame(heap[..], s);
      p := 0;
      var wanted := AlignUp(size);
      if size == 0 || first == 0 || wanted == 0 {
        MallocNull(s, size);
      } else {
        var block, k := Search(wanted);
        if block == 0 {
          MallocNull(s, size);
        } else {
          Take(block - base, wanted, k);
          p := block + HEADER;
          MallocIs(s, size, k, View());
        }
      }
    }

    method Kfree(p: nat)
      requires Valid()
      modifies heap, this`blocks, this`used, this`allocations
      ensures Valid() && View() == FreeStep(old(View()), p)
      ensures PayloadsKept(old(heap[..]), heap[..], LiveBlocks(blocks))
    {
      hide Inv, Represents, Tiles, PayloadsKept, LiveBlocks, Released, HeaderIn, Linked, Find, FreeStep;
      ghost var s := View();
      FreeKeepsInv(s, p);
      KeptSame(heap[..], s);
      if p == 0 || p < base + HEADER || p >= base + heapBytes { FreeNone(s, p); return; }
      var block, k := Locate(p);
      if block == 0 { FreeNone(s, p); return; }
      HeaderOf(heap[..], blocks, base, k);
      LinkedFields(blocks, base, k);
      var h := Load(block - base);
      assert h.magic == BLOCK_MAGIC;      // the corruption check never fires
      if h.free != 0 { FreeNone(s, p); return; }
      Release(block - base, k);
      FreeIs(s, p, k, View());
    }

    /** Marks busy block `k` free and joins it with its free neighbours. */
    method Release(o: nat, ghost k: nat)
      requires Valid() && k < |blocks| && o == blocks[k].off && !blocks[k].free
      modifies heap, this`blocks, this`used, this`allocations
      ensures Core() && blocks == Released(old(blocks), k)
      ensures used == old(used) - old(blocks)[k].size && allocations == old(allocations) - 1
      ensures PayloadsKept(old(heap[..]), heap[..], LiveBlocks(blocks))
    {
      hide Represents, PayloadsKept, LiveBlocks, HeaderIn, Linked, Aligned, Tiles, Coalesced, Busy, Live;
      ghost var m, bs := heap[..], blocks;
      KeptSame(m, View());
      ReleasedTally(bs, k);
      ReleasedLive(bs, heapBytes, k);
      MarkedLive(bs, heapBytes, k);
      MarkAligned(bs, k, true);
      Mark(o, true, k);
      HeaderOf(heap[..], blocks, base, k);
      LinkedFields(blocks, base, k);
      var block := Load(o);
      used := used - block.size;
      if allocations != 0 { allocations := allocations - 1; }
      ghost var live, m1 := LiveBlocks(blocks), heap[..];
      MergeNext(o, k);
      ghost var m2 := heap[..];
      MergePrevious(o, k);
      KeptLess(m, m1, LiveBlocks(bs), live);
      KeptTransitive(m, m1, m2, live);
      KeptTransitive(m, m2, heap[..], live);
    }

    /** Joins free block `k` with its successor when that is free too. */
    method MergeNext(o: nat, ghost k: nat)
      requires Core() && Aligned(blocks) && k < |blocks| && o == blocks[k].off && blocks[k].free
      modifies heap, this`blocks
      ensures Core() && Aligned(blocks) && blocks == JoinNext(old(blocks), k)
      ensures k < |blocks| && o == blocks[k].off && blocks[k].free
      ensures LiveBlocks(blocks) == LiveBlocks(old(blocks))
      ensures PayloadsKept(old(heap[..]), heap[..], LiveBlocks(old(blocks)))
    {
      hide Represents, Tiles, PayloadsKept, LiveBlocks, HeaderIn, Linked, Aligned;
      KeptIdentity(heap[..], blocks, heapBytes);
      HeaderOf(heap[..], blocks, base, k);
      LinkedFields(blocks, base, k);
      var block := Load(o);
      if block.next != 0 {
        HeaderOf(heap[..], blocks, base, k + 1);
        LinkedFields(blocks, base, k + 1);
        var next := Load(block.next - base);
        assert next.magic == BLOCK_MAGIC;
        if next.free != 0 {
          JoinTiles(blocks, heapBytes, k);
          JoinLive(blocks, k);
          JoinBlocks(o, k);
        }
      }
    }

    /** Joins free block `k` with its predecessor when that is free too. */
    method MergePrevious(o: nat, ghost k: nat)
      requires Core() && Aligned(blocks) && k < |blocks| && o == blocks[k].off && blocks[k].free
      modifies heap, this`blocks
      ensures Core() && blocks == JoinPrevious(old(blocks), k)
      ensures LiveBlocks(blocks) == LiveBlocks(old(blocks))
      ensures PayloadsKept(old(heap[..]), heap[..], LiveBlocks(old(blocks)))
    {
      hide Represents, Tiles, PayloadsKept, LiveBlocks, HeaderIn, Linked, Aligned, Join;
      KeptIdentity(heap[..], blocks, heapBytes);
      HeaderOf(heap[..], blocks, base, k);
      LinkedFields(blocks, base, k);
      var block := Load(o);
      if block.previous != 0 {
        HeaderOf(heap[..], blocks, base, k - 1);
        LinkedFields(blocks, base, k - 1);
        var previous := Load(block.previous - base);
        assert previous.magic == BLOCK_MAGIC;
        if previous.free != 0 {
          JoinLive(blocks, k - 1);
          JoinBlocks(block.previous - base, k - 1);
        }
      }
    }

    method Fill(at: nat, n: nat)
      requires at + n <= heap.Length
      modifies heap
      ensures heap[..] == Overwrite(old(heap[..]), at, seq(n, _ => 0))
    {
      for i := 0 to n
        invariant forall j :: at <= j < at + i ==> heap[j] == 0
        invariant forall j :: 0 <= j < heap.Length && !(at <= j < at + i) ==> heap[j] == old(heap[j])
      {
        heap[at + i] := 0;
      }
    }

    method Copy(from: nat, to: nat, n: nat)
      requires from + n <= heap.Length && to + n <= heap.Length && (from + n <= to || to + n <= from)
      modifies heap
      ensures heap[..] == Overwrite(old(heap[..]), to, old(heap[from..from + n]))
    {
      for i := 0 to n
        invariant forall j :: to <= j < to + i ==> heap[j] == old(heap[from + (j - to)])
        invariant forall j :: 0 <= j < heap.Length && !(to <= j < to + i) ==> heap[j] == old(heap[j])
      {
        heap[to + i] := heap[from + i];
      }
    }

    method Kcalloc(count: nat, size: nat) returns (p: nat)
      requires Valid() && count < SIZE_LIMIT && size < SIZE_LIMIT
      modifies heap, this`blocks, this`used, this`allocations
      ensures Valid() && (View(), p) == CallocStep(old(View()), count, size)
      ensures p != 0 ==> forall i :: p - base <= i < p - base + count * size ==> 0 <= i < heap.Length && heap[i] == 0
      ensures PayloadsKept(old(heap[..]), heap[..], LiveBlocks(old(blocks)))
    {
      hide Inv, Represents, Tiles, PayloadsKept, LiveBlocks, MallocStep;
      ghost var s, m := View(), heap[..];
      p := 0;
      if size != 0 && count > (SIZE_LIMIT - 1) / size {
        KeptSame(m, s);
      } else {
        ProductFits(count, size);
        p := Kmalloc(count * size);
        if p != 0 {
          ghost var m1 := heap[..];
          ghost var b := NewBlock(s, count * size);
          PayloadWrite(m1, blocks, base, heapBytes, b, p - base, seq(count * size, _ => 0));
          Fill(p - base, count * size);
          KeptTransitive(m, m1, heap[..], LiveBlocks(s.blocks));
        }
      }
    }

    /**
     krealloc. Whatever it returns, no other live payload changes; a failed call with a nonzero
     size leaves the whole state as it was; a successful one carries the old payload along.
     */
    method Krealloc(p: nat, size: nat) returns (q: nat)
      requires Valid() && size < SIZE_LIMIT
      modifies heap, this`blocks, this`used, this`allocations
      ensures Valid() && (View(), q) == ReallocStep(old(View()), p, size)
      ensures PayloadsKept(old(heap[..]), heap[..], LiveBut(old(View()), p))
      ensures q == 0 && size != 0 ==> View() == old(View())
      ensures q == 0 && size != 0 ==> PayloadsKept(old(heap[..]), heap[..], LiveBlocks(old(blocks)))
      ensures q != 0 && p != 0 ==> forall b :: b in LiveBlocks(old(blocks)) && base + b.off + HEADER == p ==>
                base <= q && q - base + b.size <= heap.Length && b.End() <= heap.Length
                && heap[q - base..q - base + b.size] == old(heap[b.off + HEADER..b.End()])
    {
      hide Inv, Represents, Tiles, PayloadsKept, LiveBlocks, LiveBut, MallocStep, FreeStep, Find, HeaderIn, Linked;
      ghost var s, m := View(), heap[..];
      if p == 0 {
        q := Kmalloc(size);
        KeptBut(m, heap[..], s, p);
      } else if size == 0 {
        Kfree(p);
        FreeRemovesOne(s, p);
        q := 0;
      } else {
        q := Resize(p, size);
      }
    }

    /** krealloc of a pointer to a nonzero size. */
    method Resize(p: nat, size: nat) returns (q: nat)
      requires Valid() && 0 < size < SIZE_LIMIT && p != 0
      modifies heap, this`blocks, this`used, this`allocations
      ensures Valid() && (View(), q) == ReallocStep(old(View()), p, size)
      ensures PayloadsKept(old(heap[..]), heap[..], LiveBut(old(View()), p))
      ensures q == 0 ==> View() == old(View()) && PayloadsKept(old(heap[..]), heap[..], LiveBlocks(old(blocks)))
      ensures q != 0 ==> forall b :: b in LiveBlocks(old(blocks)) && base + b.off + HEADER == p ==>
                base <= q && q - base + b.size <= heap.Length && b.End() <= heap.Length
                && heap[q - base..q - base + b.size] == old(heap[b.off + HEADER..b.End()])
    {
      hide Inv, Represents, Tiles, PayloadsKept, LiveBlocks, LiveBut, MallocStep, FreeStep, Find, HeaderIn, Linked,
           ReallocStep;
      ghost var s, m := View(), heap[..];
      KeptSame(m, s);
      KeptBut(m, m, s, p);
      ReallocStays(s, p, size);
      var block, k := Locate(p);
      if block == 0 { return 0; }
      HeaderOf(m, blocks, base, k);
      LinkedFields(blocks, base, k);
      var h := Load(block - base);
      if h.free != 0 { return 0; }
      LiveIs(s, p, k);
      if h.size >= size { return p; }
      q := Move(p, h.size, size, k);
    }

    /** Copies `n` payload bytes from `p` into block `b`, whose payload is at `q`. */
    method Carry(p: nat, q: nat, n: nat, ghost b: Blk)
      requires Core() && blocks != [] && b in blocks && q == base + b.off + HEADER && n <= b.size
               && b.End() <= heapBytes
      requires base <= p && p - base + n <= heap.Length && (p - base + n <= q - base || q - base + n <= p - base)
      modifies heap
      ensures Core() && PayloadsKept(old(heap[..]), heap[..], LiveBlocks(blocks) - {b})
      ensures q - base + n <= heap.Length && heap[..][q - base..q - base + n] == old(heap[..])[p - base..p - base + n]
    {
      hide Represents, Tiles, PayloadsKept, LiveBlocks;
      ghost var m := heap[..];
      PayloadWrite(m, blocks, base, heapBytes, b, q - base, m[p - base..p - base + n]);
      Copy(p - base, q - base, n);
    }

    /** The copying part of krealloc: busy block `k`, whose payload is at `p`, is too small for `size`. */
    method Move(p: nat, oldSize: nat, size: nat, ghost k: nat) returns (q: nat)
      requires Valid() && size < SIZE_LIMIT && p != 0 && k == Find(blocks, base, p, 0)
      requires k < |blocks| && !blocks[k].free && oldSize == blocks[k].size < size
      modifies heap, this`blocks, this`used, this`allocations
      ensures Valid() && (View(), q) == ReallocStep(old(View()), p, size)
      ensures PayloadsKept(old(heap[..]), heap[..], LiveBut(old(View()), p))
      ensures q == 0 ==> View() == old(View()) && PayloadsKept(old(heap[..]), heap[..], LiveBlocks(old(blocks)))
      ensures q != 0 ==>
                base <= q && q - base + oldSize <= heap.Length && base <= p && p - base + oldSize <= heap.Length
                && heap[..][q - base..q - base + oldSize] == old(heap[..])[p - base..p - base + oldSize]
    {
      hide Inv, Represents, Tiles, PayloadsKept, LiveBlocks, LiveBut, MallocStep, FreeStep, Find, HeaderIn, Linked,
           Live, ReallocStep;
      ghost var s, m := View(), heap[..];
      ReallocMoves(s, p, size);
      q := Kmalloc(size);
      KeptBut(m, heap[..], s, p);
      if q != 0 {
        ghost var m1 := heap[..];
        ghost var b := MoveFacts(s, p, k, size);
        Carry(p, q, oldSize, b);
        ghost var m2 := heap[..];
        KeptTransitive(m, m1, m2, LiveBlocks(s.blocks));
        Kfree(p);
        MoveKept(m, m2, heap[..], s, p, b);
        Moved(m, m1, m2, heap[..], s.blocks[k], b, LiveBlocks(s.blocks), LiveBut(s, p) + {b}, oldSize);
      }
    }
  }
}
