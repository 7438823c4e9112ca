/**
 Complete delivery: a stream cut into at most nine segments arrives whole, whatever the order
 and however often its segments are repeated.
 */
module TcpDelivery {
  import opened Bytes
  import opened TcpSpec
  import opened TcpSafety

  /** A stream cut into segments; the first byte has sequence number `base`. */
  datatype Cut = Cut(base: nat, pieces: seq<seq<byte>>) {
    ghost predicate Good() {
      && base < SEQ_MODULUS && 1 <= |pieces| <= 9
      && forall i :: 0 <= i < |pieces| ==> 1 <= |pieces[i]| <= 1460
    }
  }

  function Joined(ps: seq<seq<byte>>): seq<byte> {
    if ps == [] then [] else Joined(ps[..|ps| - 1]) + ps[|ps| - 1]
  }

  /** Where piece `i` starts in the stream. */
  function Start(c: Cut, i: nat): nat
    requires i <= |c.pieces|
  {
    |Joined(c.pieces[..i])|
  }

  /** The expected sequence number once `m` pieces are consumed; FIN counts after the last. */
  function Expected(c: Cut, m: nat): nat
    requires m <= |c.pieces|
  {
    Plus(c.base, Start(c, m) + if m == |c.pieces| then 1 else 0)
  }

  lemma JoinedGrows(c: Cut, m: nat)
    requires m < |c.pieces|
    ensures Joined(c.pieces[..m + 1]) == Joined(c.pieces[..m]) + c.pieces[m]
    ensures Start(c, m + 1) == Start(c, m) + |c.pieces[m]|
  {
    assert c.pieces[..m + 1][..m] == c.pieces[..m];
  }

  lemma {:induction false} StartMonotone(c: Cut, i: nat, j: nat)
    requires c.Good() && i < j <= |c.pieces|
    ensures Start(c, i) + |c.pieces[i]| <= Start(c, j)
    decreases j
  {
    JoinedGrows(c, j - 1);
    if i < j - 1 { StartMonotone(c, i, j - 1); }
  }

  lemma {:induction false} StartBound(c: Cut, i: nat)
    requires c.Good() && i <= |c.pieces|
    ensures Start(c, i) <= MAX_FRAGMENT * i <= MAX_FRAGMENT * (SLOTS + 1)
  {
    if i > 0 {
      JoinedGrows(c, i - 1);
      StartBound(c, i - 1);
    }
  }

  /** Segment `g` carries piece `i`, with FIN exactly on the last piece. */
  ghost predicate IsPiece(c: Cut, g: Segment, i: nat) {
    && i < |c.pieces| && !g.Rst()
    && g.sequence == Plus(c.base, Start(c, i)) && g.payload == c.pieces[i]
    && (g.Fin() <==> i == |c.pieces| - 1)
  }

  /** The slot that holds piece `i`; an empty slot is marked by -1. */
  function SlotFor(c: Cut, i: int): Slot
    requires i < |c.pieces|
  {
    if i < 0 then Empty else Held(Plus(c.base, Start(c, i)), c.pieces[i], i == |c.pieces| - 1)
  }

  /** Slot by slot, `held` names the pieces the slots hold; no piece is held twice. */
  ghost predicate Slotted(c: Cut, slots: seq<Slot>, held: seq<int>) {
    && |held| == |slots| == SLOTS
    && (forall j :: 0 <= j < SLOTS ==> -1 <= held[j] < |c.pieces| && slots[j] == SlotFor(c, held[j]))
    && (forall j, j' :: 0 <= j < j' < SLOTS && held[j] == held[j'] ==> held[j] == -1)
  }

  /** The held pieces are exactly the arrived pieces from `m` on. */
  ghost predicate HoldsArrived(held: seq<int>, m: nat, arrived: set<nat>) {
    && (forall j :: 0 <= j < |held| && held[j] >= 0 ==> m <= held[j] && held[j] in arrived)
    && (forall i :: i in arrived && i >= m ==> i in held)
  }

  /** `m` pieces are delivered in order: handed out or queued. */
  ghost predicate Delivered(c: Cut, w: World, m: nat) {
    && m <= |c.pieces|
    && w.given + w.r.queue == Joined(c.pieces[..m])
    && w.r.remoteSeq == Expected(c, m)
    && w.r.state == (if m == |c.pieces| then 4 else 2)
  }

  /** The receiver accounts for every arrived piece: consumed in order up to `m`, or held. */
  ghost predicate Loose(c: Cut, w: World, m: nat, arrived: set<nat>, held: seq<int>) {
    && c.Good() && Delivered(c, w, m) && Slotted(c, w.r.slots, held) && HoldsArrived(held, m, arrived)
    && (forall i :: 0 <= i < m ==> i in arrived) && (forall i :: i in arrived ==> i < |c.pieces|)
  }

  /** The slot found for a sequence number at a piece boundary holds exactly that piece. */
  lemma FoundIsPiece(c: Cut, slots: seq<Slot>, held: seq<int>, m: nat, j: nat)
    requires c.Good() && Slotted(c, slots, held) && m < |c.pieces| && j < SLOTS
    ensures slots[j].Held? && slots[j].sequence == Plus(c.base, Start(c, m)) <==> held[j] == m
  {
    hide Plus, Start;
    if held[j] >= 0 && held[j] != m {
      var lo, hi := if held[j] < m then held[j] else m, if held[j] < m then m else held[j];
      StartMonotone(c, lo, hi);
      StartBound(c, hi);
      if Plus(c.base, Start(c, lo)) == Plus(c.base, Start(c, hi)) { PlusInjective(c.base, Start(c, lo), Start(c, hi)); }
    }
  }

  /** Consuming the next piece in order. */
  lemma AppendPiece(c: Cut, w: World, m: nat)
    requires c.Good() && Delivered(c, w, m) && m < |c.pieces|
    ensures Delivered(c, World(Closed(Append(w.r, c.pieces[m]), m == |c.pieces| - 1), w.given), m + 1)
  {
    hide Plus, Joined, Start;
    var w' := World(Closed(Append(w.r, c.pieces[m]), m == |c.pieces| - 1), w.given);
    StartBound(c, m);
    assert |w.r.queue| <= |w.given + w.r.queue| == Start(c, m) by { LengthIsStart(c, m); }
    assert w'.r.queue == w.r.queue + c.pieces[m];
    assert w'.given + w'.r.queue == w.given + w.r.queue + c.pieces[m];
    JoinedGrows(c, m);
    PlusPlus(c.base, Start(c, m), |c.pieces[m]|);
    PlusPlus(c.base, Start(c, m + 1), 1);
  }

  lemma LengthIsStart(c: Cut, m: nat)
    requires m <= |c.pieces|
    ensures |Joined(c.pieces[..m])| == Start(c, m)
  {
  }

  lemma DeliveredOnly(c: Cut, w: World, w': World, m: nat)
    requires Delivered(c, w, m) && w'.given == w.given
    requires w'.r.queue == w.r.queue && w'.r.remoteSeq == w.r.remoteSeq && w'.r.state == w.r.state
    ensures Delivered(c, w', m)
  {
  }

  /** Consuming the held piece `m` from slot `j`. */
  lemma ConsumePiece(c: Cut, w: World, m: nat, arrived: set<nat>, held: seq<int>, j: nat)
    requires Loose(c, w, m, arrived, held) && m < |c.pieces| && j < SLOTS && held[j] == m
    ensures w.r.slots[j].Held?
    ensures Loose(c, World(Consume(w.r, j), w.given), m + 1, arrived, held[j := -1])
  {
    hide Delivered, Joined, Start, Plus, Append, Closed, Cut.Good;
    AppendPiece(c, w, m);
    var w' := World(Consume(w.r, j), w.given);
    DeliveredOnly(c, World(Closed(Append(w.r, c.pieces[m]), m == |c.pieces| - 1), w.given), w', m + 1);
    assert HoldsArrived(held[j := -1], m + 1, arrived) by {
      forall i | i in arrived && i >= m + 1 ensures i in held[j := -1] {
        var k :| 0 <= k < |held| && held[k] == i;
        assert held[j := -1][k] == i;
      }
    }
  }

  /** The next slot a drain consumes holds piece `m`, and there is one exactly when `m` has arrived. */
  lemma NextSlot(c: Cut, w: World, m: nat, arrived: set<nat>, held: seq<int>)
    requires Loose(c, w, m, arrived, held)
    ensures var j := FirstHeld(w.r.slots, w.r.remoteSeq, 0);
            if m in arrived then j < SLOTS && held[j] == m && m < |c.pieces| else j == SLOTS
  {
    hide Joined, Start, Plus, FirstHeld, Cut.Good;
    var j := FirstHeld(w.r.slots, w.r.remoteSeq, 0);
    if m == |c.pieces| {
      assert forall k :: 0 <= k < SLOTS ==> w.r.slots[k] == Empty;
    } else {
      forall k | 0 <= k < SLOTS ensures w.r.slots[k].Held? && w.r.slots[k].sequence == w.r.remoteSeq <==> held[k] == m {
        FoundIsPiece(c, w.r.slots, held, m, k);
      }
    }
  }

  lemma DrainUnfolds(r: Receiver)
    ensures var j := FirstHeld(r.slots, r.remoteSeq, 0);
            Drain(r) == if j == |r.slots| then r else Drain(Consume(r, j))
  {
  }

  /** Draining consumes held pieces until the next one has not arrived. */
  lemma {:induction false} DrainDelivers(c: Cut, w: World, m: nat, arrived: set<nat>, held: seq<int>)
    returns (m': nat, held': seq<int>)
    requires Loose(c, w, m, arrived, held)
    ensures Loose(c, World(Drain(w.r), w.given), m', arrived, held') && m' !in arrived
    decreases |c.pieces| - m
  {
    hide Loose, Drain, Consume, FirstHeld;
    m', held' := m, held;
    SlotCount(c, w, m, arrived, held);
    NextSlot(c, w, m, arrived, held);
    DrainUnfolds(w.r);
    if m in arrived {
      var j := FirstHeld(w.r.slots, w.r.remoteSeq, 0);
      ConsumePiece(c, w, m, arrived, held, j);
      m', held' := DrainDelivers(c, World(Consume(w.r, j), w.given), m + 1, arrived, held[j := -1]);
    }
  }

  lemma SlotCount(c: Cut, w: World, m: nat, arrived: set<nat>, held: seq<int>)
    requires Loose(c, w, m, arrived, held)
    ensures |w.r.slots| == |held| == SLOTS && World(w.r, w.given) == w
  {
  }

  // ---------------------------------------------------- delivering one segment

  /** With at most eight other pieces to hold, an unheld piece always finds an empty slot. */
  lemma RoomToHold(held: seq<int>, m: nat, i: nat, pieces: nat)
    requires |held| == SLOTS && m < i < pieces <= SLOTS + 1 && i !in held
    requires forall j :: 0 <= j < SLOTS && held[j] >= 0 ==> m < held[j] < pieces
    requires forall j, j' :: 0 <= j < j' < SLOTS && held[j] == held[j'] ==> held[j] == -1
    ensures exists j :: 0 <= j < SLOTS && held[j] < 0
  {
    if forall j :: 0 <= j < SLOTS ==> held[j] >= 0 {
      var others := {1, 2, 3, 4, 5, 6, 7, 8} - {i};
      assert |others| == 7;
      Pigeonhole(held, others);
    }
  }

  lemma {:induction false} Pigeonhole(a: seq<int>, b: set<int>)
    requires forall j, j' :: 0 <= j < j' < |a| ==> a[j] != a[j']
    requires forall j :: 0 <= j < |a| ==> a[j] in b
    ensures |a| <= |b|
  {
    if a != [] { Pigeonhole(a[1..], b - {a[0]}); }
  }

  /** A piece already consumed is dropped. */
  lemma OldPiece(c: Cut, w: World, m: nat, g: Segment, i: nat)
    requires c.Good() && Delivered(c, w, m) && IsPiece(c, g, i) && i < m
    ensures g.sequence != w.r.remoteSeq && !Ahead(g.sequence, w.r.remoteSeq)
  {
    hide Joined, Start, Segment.Fin, Segment.Rst;
    StartMonotone(c, i, m);
    StartBound(c, m);
    Behind(c.base, Start(c, i), Start(c, m) + if m == |c.pieces| then 1 else 0);
  }

  lemma Behind(base: int, lo: nat, hi: nat)
    requires lo < hi < HALF
    ensures Plus(base, lo) != Plus(base, hi) && !Ahead(Plus(base, lo), Plus(base, hi))
            && Ahead(Plus(base, hi), Plus(base, lo))
  {
  }

  /** A piece beyond the next one is ahead of the expected sequence number. */
  lemma FuturePiece(c: Cut, w: World, m: nat, g: Segment, i: nat)
    requires c.Good() && Delivered(c, w, m) && IsPiece(c, g, i) && m < i
    ensures g.sequence != w.r.remoteSeq && Ahead(g.sequence, w.r.remoteSeq)
  {
    hide Joined, Start, Segment.Fin, Segment.Rst;
    StartMonotone(c, m, i);
    StartBound(c, i);
    Behind(c.base, Start(c, m), Start(c, i));
  }

  lemma NowHeld(held: seq<int>, m: nat, arrived: set<nat>, e: nat, i: nat)
    requires HoldsArrived(held, m, arrived) && e < |held| && held[e] == -1 && m <= i
    ensures HoldsArrived(held[e := i], m, arrived + {i})
  {
    var held' := held[e := i];
    assert held'[e] == i;
    forall x | x in arrived + {i} && x >= m ensures x in held' {
      if x != i {
        var k :| 0 <= k < |held| && held[k] == x;
        assert held'[k] == x;
      }
    }
  }

  /** Holding a piece that is ahead. */
  lemma HoldPiece(c: Cut, w: World, m: nat, arrived: set<nat>, held: seq<int>, g: Segment, i: nat)
                  returns (held': seq<int>)
    requires Loose(c, w, m, arrived, held) && m !in arrived && IsPiece(c, g, i) && m < i
    ensures var r' := w.r.(slots := StoreFragment(w.r.slots, g.sequence, g.payload, g.Fin()));
            Loose(c, World(r', w.given), m, arrived + {i}, held')
  {
    hide Joined, Start, Plus, Delivered, Segment.Fin, Segment.Rst, FirstEmpty, FirstHeld;
    forall k | 0 <= k < SLOTS
      ensures w.r.slots[k].Held? && w.r.slots[k].sequence == g.sequence <==> held[k] == i
    {
      FoundIsPiece(c, w.r.slots, held, i, k);
    }
    held' := held;
    if i !in held {
      RoomToHold(held, m, i, |c.pieces|);
      var e := FirstEmpty(w.r.slots, 0);
      held' := held[e := i];
      NowHeld(held, m, arrived, e, i);
    } else {
      assert HoldsArrived(held, m, arrived + {i});
    }
    var r' := w.r.(slots := StoreFragment(w.r.slots, g.sequence, g.payload, g.Fin()));
    DeliveredOnly(c, w, World(r', w.given), m);
  }

  /** The next piece in order is consumed, then whatever was held behind it. */
  lemma TakePiece(c: Cut, w: World, m: nat, arrived: set<nat>, held: seq<int>, g: Segment)
    requires Loose(c, w, m, arrived, held) && m !in arrived && IsPiece(c, g, m)
    ensures Loose(c, World(Closed(Append(w.r, g.payload), g.Fin()), w.given), m + 1, arrived + {m}, held)
  {
    hide Joined, Start, Plus, Delivered, Segment.Fin, Segment.Rst;
    AppendPiece(c, w, m);
    assert HoldsArrived(held, m + 1, arrived + {m});
  }

  lemma LooseOnly(c: Cut, w: World, w': World, m: nat, arrived: set<nat>, held: seq<int>)
    requires Loose(c, w, m, arrived, held) && w'.given == w.given && w'.r.slots == w.r.slots
    requires w'.r.queue == w.r.queue && w'.r.remoteSeq == w.r.remoteSeq && w'.r.state == w.r.state
    ensures Loose(c, w', m, arrived, held)
  {
    hide Joined, Start, Plus, Slotted, HoldsArrived, Cut.Good;
  }

  lemma DeliverPiece(c: Cut, w: World, m: nat, arrived: set<nat>, held: seq<int>, g: Segment, i: nat)
    returns (m': nat, held': seq<int>)
    requires Loose(c, w, m, arrived, held) && m !in arrived && IsPiece(c, g, i)
    ensures Loose(c, World(ReceiveStep(w.r, g), w.given), m', arrived + {i}, held') && m' !in arrived + {i}
  {
    hide Slotted, HoldsArrived, Joined, Start, Plus, Append, Drain, StoreFragment, Ahead, Segment.Fin, Segment.Syn,
         Segment.Ack;
    m', held' := m, held;
    var r1 := if g.Ack() then w.r.(lastAck := g.ack) else w.r;
    var w1, w' := World(r1, w.given), World(ReceiveStep(w.r, g), w.given);
    LooseOnly(c, w, w1, m, arrived, held);
    if i < m {
      OldPiece(c, w1, m, g, i);
      assert arrived + {i} == arrived;
      LooseOnly(c, w1, w', m, arrived, held);
    } else if i == m {
      TakePiece(c, w1, m, arrived, held, g);
      var r2 := Closed(Append(r1, g.payload), g.Fin());
      m', held' := DrainDelivers(c, World(r2, w.given), m + 1, arrived + {m}, held);
      LooseOnly(c, World(Drain(r2), w.given), w', m', arrived + {m}, held');
    } else {
      FuturePiece(c, w1, m, g, i);
      held' := HoldPiece(c, w1, m, arrived, held, g, i);
      LooseOnly(c, World(r1.(slots := StoreFragment(r1.slots, g.sequence, g.payload, g.Fin())), w.given), w', m,
          arrived + {i}, held');
    }
  }

  lemma ReadPiece(c: Cut, w: World, m: nat, arrived: set<nat>, held: seq<int>, capacity: nat)
    requires Loose(c, w, m, arrived, held)
    ensures Loose(c, WorldStep(w, Read(capacity)), m, arrived, held)
  {
    hide Joined, Start, Plus, Slotted, HoldsArrived, Cut.Good;
    var w' := WorldStep(w, Read(capacity));
    assert w'.given + w'.r.queue == w.given + w.r.queue;
  }

  // --------------------------------------------------------------- whole runs

  /** An arrival of some piece of the cut, or a read. `at` gives the piece each delivery carries. */
  ghost predicate Arrivals(c: Cut, es: seq<Event>, at: seq<nat>) {
    |at| == |es| && forall i :: 0 <= i < |es| && es[i].Deliver? ==> IsPiece(c, es[i].segment, at[i])
  }

  /** The pieces that arrive in a run. */
  ghost function ArrivedIn(es: seq<Event>, at: seq<nat>): set<nat>
    requires |at| == |es|
  {
    set i | 0 <= i < |es| && es[i].Deliver? :: at[i]
  }

  lemma {:induction false} RunDelivers(c: Cut, w: World, m: nat, arrived: set<nat>, held: seq<int>, es: seq<Event>,
                                       at: seq<nat>)
    returns (m': nat, held': seq<int>)
    requires Loose(c, w, m, arrived, held) && m !in arrived && Arrivals(c, es, at)
    ensures Loose(c, WorldRun(w, es), m', arrived + ArrivedIn(es, at), held') && m' !in arrived + ArrivedIn(es, at)
    decreases es
  {
    hide Loose, IsPiece, ReceiveStep, ReadStep;
    m', held' := m, held;
    if es == [] {
      assert arrived + ArrivedIn(es, at) == arrived;
    } else {
      var e := es[0];
      var now := if e.Deliver? then arrived + {at[0]} else arrived;
      if e.Deliver? {
        m', held' := DeliverPiece(c, w, m, arrived, held, e.segment, at[0]);
      } else {
        ReadPiece(c, w, m, arrived, held, e.capacity);
      }
      m', held' := RunDelivers(c, WorldStep(w, e), m', now, held', es[1..], at[1..]);
      assert now + ArrivedIn(es[1..], at[1..]) == arrived + ArrivedIn(es, at) by { ArrivedSplit(es, at); }
    }
  }

  lemma ArrivedSplit(es: seq<Event>, at: seq<nat>)
    requires |at| == |es| && es != []
    ensures ArrivedIn(es, at) == (if es[0].Deliver? then {at[0]} else {}) + ArrivedIn(es[1..], at[1..])
  {
    var rest := ArrivedIn(es[1..], at[1..]);
    forall x | x in ArrivedIn(es, at) ensures x in (if es[0].Deliver? then {at[0]} else {}) + rest {
      var i :| 0 <= i < |es| && es[i].Deliver? && at[i] == x;
      if i > 0 { assert es[1..][i - 1].Deliver? && at[1..][i - 1] == x; }
    }
    forall x | x in rest ensures x in ArrivedIn(es, at) {
      var i :| 0 <= i < |es[1..]| && es[1..][i].Deliver? && at[1..][i] == x;
      assert es[i + 1].Deliver? && at[i + 1] == x;
    }
  }

  /**
   Complete delivery. Once every piece has arrived, in any order, with any repetition and with reads
   at any time, the bytes handed out and queued are the whole stream, no fragment is left and the
   stream is closed.
   */
  lemma CompleteDelivery(c: Cut, w: World, es: seq<Event>, at: seq<nat>)
    requires c.Good() && Established(Peer(c.base, Joined(c.pieces)), w) && |w.r.slots| == SLOTS
    requires Arrivals(c, es, at) && forall i :: 0 <= i < |c.pieces| ==> i in ArrivedIn(es, at)
    ensures var w' := WorldRun(w, es);
            && w'.given + w'.r.queue == Joined(c.pieces)
            && w'.r.slots == seq(SLOTS, _ => Empty)
            && w'.r.state == 4
  {
    hide WorldRun, Plus, IsPiece, Arrivals, ArrivedIn;
    var held := seq(SLOTS, _ => -1);
    assert Expected(c, 0) == c.base by { BaseExpected(c); }
    assert w.given + w.r.queue == [] == Joined(c.pieces[..0]);
    assert Loose(c, w, 0, {}, held);
    var m', held' := RunDelivers(c, w, 0, {}, held, es, at);
    assert m' == |c.pieces|;
    assert c.pieces[..m'] == c.pieces;
  }

  lemma BaseExpected(c: Cut)
    requires c.Good()
    ensures Expected(c, 0) == c.base
  {
    assert c.pieces[..0] == [];
  }

  // ------------------------------------------------------------- reading it all

  function Reading(capacities: seq<nat>): seq<Event> {
    seq(|capacities|, i requires 0 <= i < |capacities| => Read(capacities[i]))
  }

  function Capacity(capacities: seq<nat>): nat {
    if capacities == [] then 0 else capacities[0] + Capacity(capacities[1..])
  }

  /** The first `n` queued bytes are handed out. */
  function HandedOut(w: World, n: nat): World
    requires n <= |w.r.queue|
  {
    World(w.r.(queue := w.r.queue[n..]), w.given + w.r.queue[..n])
  }

  lemma HandedTwice(w: World, k: nat, m: nat)
    requires k + m <= |w.r.queue|
    ensures HandedOut(HandedOut(w, k), m) == HandedOut(w, k + m)
  {
    var q := w.r.queue;
    assert q[..k] + q[k..][..m] == q[..k + m] && q[k..][m..] == q[k + m..];
    assert w.given + q[..k] + q[k..][..m] == w.given + (q[..k] + q[k..][..m]);
  }

  /** Reads hand out the queue in order, as much as they have room for. */
  lemma {:induction false} ReadsInOrder(w: World, capacities: seq<nat>)
    ensures WorldRun(w, Reading(capacities))
            == HandedOut(w, if Capacity(capacities) < |w.r.queue| then Capacity(capacities) else |w.r.queue|)
    decreases capacities
  {
    hide HandedOut, WorldStep;
    if capacities == [] {
      NothingHanded(w);
    } else {
      var q, c, rest := w.r.queue, capacities[0], Capacity(capacities[1..]);
      var k := if |q| > c then c else |q|;
      OneRead(w, c, k);
      ReadsInOrder(HandedOut(w, k), capacities[1..]);
      assert Reading(capacities)[1..] == Reading(capacities[1..]);
      HandedTwice(w, k, if rest < |q| - k then rest else |q| - k);
    }
  }

  lemma NothingHanded(w: World)
    ensures HandedOut(w, 0) == w
  {
    assert w.given + w.r.queue[..0] == w.given;
  }

  lemma OneRead(w: World, c: nat, k: nat)
    requires k == if |w.r.queue| > c then c else |w.r.queue|
    ensures WorldStep(w, Read(c)) == HandedOut(w, k) && |HandedOut(w, k).r.queue| == |w.r.queue| - k
  {
  }

  /** Once all pieces are there, reads with room enough hand out the whole stream and leave nothing. */
  lemma DeliveredAndRead(c: Cut, w: World, es: seq<Event>, at: seq<nat>, capacities: seq<nat>)
    requires c.Good() && Established(Peer(c.base, Joined(c.pieces)), w) && |w.r.slots| == SLOTS
    requires Arrivals(c, es, at) && forall i :: 0 <= i < |c.pieces| ==> i in ArrivedIn(es, at)
    requires Capacity(capacities) >= |Joined(c.pieces)|
    ensures var w' := WorldRun(WorldRun(w, es), Reading(capacities));
            w'.given == Joined(c.pieces) && w'.r.queue == [] && w'.r.state == 4
  {
    hide WorldRun, Arrivals, ArrivedIn, Joined, Established, Cut.Good, Reading, Capacity;
    CompleteDelivery(c, w, es, at);
    var w1 := WorldRun(w, es);
    ReadsInOrder(w1, capacities);
    assert |w1.r.queue| <= |w1.given + w1.r.queue|;
    assert w1.r.queue[..|w1.r.queue|] == w1.r.queue;
  }
}
