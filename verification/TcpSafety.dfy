/**
 Prefix safety of the TCP receiver against an honest peer (sections 3.4 and 3.10.7.4 of RFC 9293).
 */
module TcpSafety {
  import opened Bytes
  import opened TcpSpec

  /** A peer's stream: its first data byte has sequence number `base`. */
  datatype Peer = Peer(base: nat, stream: seq<byte>) {
    predicate Fits() { base < 0x1_0000_0000 && |stream| < 0x7fff_ffff }
    function Offset(s: nat): nat { (s - base) % SEQ_MODULUS }
  }

  /** The segment is a piece of the peer's stream, and carries FIN only at the stream's end. */
  ghost predicate Honest(p: Peer, s: nat, data: seq<byte>, fin: bool) {
    && s < SEQ_MODULUS
    && p.Offset(s) + |data| <= |p.stream|
    && data == p.stream[p.Offset(s)..p.Offset(s) + |data|]
    && (fin ==> p.Offset(s) + |data| == |p.stream|)
  }

  ghost predicate HonestSlots(p: Peer, slots: seq<Slot>) {
    forall i :: 0 <= i < |slots| && slots[i].Held? ==> Honest(p, slots[i].sequence, slots[i].data, slots[i].fin)
  }

  /**
   The receiver is in step with the peer: `given` (handed out) and the queue form a prefix of the
   stream, and the expected sequence number is the stream position, one more once FIN is consumed.
   */
  ghost predicate InStep(p: Peer, r: Receiver, given: seq<byte>, finished: bool) {
    && given + r.queue <= p.stream
    && (finished ==> given + r.queue == p.stream)
    && r.remoteSeq == Plus(p.base, |given + r.queue| + if finished then 1 else 0)
    && |r.queue| <= QUEUE
  }

  /** In step with the peer, holding only honest fragments, past the handshake; state 4 means FIN was consumed. */
  ghost predicate Safe(p: Peer, r: Receiver, given: seq<byte>, finished: bool) {
    && p.Fits() && HonestSlots(p, r.slots) && InStep(p, r, given, finished)
    && r.state != 1 && (r.state == 4 ==> finished) && (finished ==> r.state == 4 || r.state == -2)
  }

  /** Stream position `n` is recovered from its sequence number. */
  lemma OffsetPlus(p: Peer, n: nat)
    requires p.base < SEQ_MODULUS && n < SEQ_MODULUS
    ensures p.Offset(Plus(p.base, n)) == n
  {
  }

  lemma PlusPlus(a: int, m: int, n: int)
    ensures Plus(Plus(a, m), n) == Plus(a, m + n)
  {
  }

  lemma PlusInjective(a: int, m: nat, n: nat)
    requires m < SEQ_MODULUS && n < SEQ_MODULUS && Plus(a, m) == Plus(a, n)
    ensures m == n
  {
  }

  /** Ahead is up to half the numbers further on, across the wrap-around. */
  lemma AheadIs(b: nat, n: nat)
    requires b < 0x1_0000_0000 && n < 0x1_0000_0000
    ensures Ahead((b + n) % 0x1_0000_0000, b) <==> 1 <= n <= 0x7fff_ffff
  {
    assert ((b + n) % 0x1_0000_0000 - b) % 0x1_0000_0000 == n;
  }

  lemma AppendGrows(p: Peer, r: Receiver, given: seq<byte>, data: seq<byte>, fin: bool)
    requires p.Fits() && InStep(p, r, given, false) && Honest(p, r.remoteSeq, data, fin)
    requires |r.queue| + |data| <= QUEUE
    ensures InStep(p, Closed(Append(r, data), fin), given, fin)
  {
    hide Plus, Peer.Offset;
    var n := |given + r.queue|;
    OffsetPlus(p, n);
    var r' := Closed(Append(r, data), fin);
    assert given + r'.queue == given + r.queue + data;
    assert p.stream[..n] + data == p.stream[..n + |data|];
    PlusPlus(p.base, n, |data|);
    PlusPlus(p.base, n + |data|, 1);
  }

  lemma AppendLoses(p: Peer, r: Receiver, given: seq<byte>, data: seq<byte>, fin: bool)
    requires p.Fits() && InStep(p, r, given, false) && Honest(p, r.remoteSeq, data, fin)
    requires |r.queue| + |data| > QUEUE
    ensures !InStep(p, Closed(Append(r, data), fin), given, fin)
  {
    hide Plus, Peer.Offset;
    var n := |given + r.queue|;
    OffsetPlus(p, n);
    var r' := Closed(Append(r, data), fin);
    var k, one := |given + r'.queue|, if fin then 1 else 0;
    PlusPlus(p.base, n, |data|);
    PlusPlus(p.base, n + |data|, 1);
    assert r'.remoteSeq == Plus(p.base, n + |data| + one);
    if r'.remoteSeq == Plus(p.base, k + one) { PlusInjective(p.base, n + |data| + one, k + one); }
  }

  /** In-order honest data extends the prefix exactly when the queue has room for all of it. */
  lemma AppendSafeIff(p: Peer, r: Receiver, given: seq<byte>, data: seq<byte>, fin: bool)
    requires p.Fits() && InStep(p, r, given, false) && Honest(p, r.remoteSeq, data, fin)
    ensures |r.queue| + |data| <= 32768 <==> InStep(p, Closed(Append(r, data), fin), given, fin)
  {
    hide InStep, Honest, Append, Closed;
    if |r.queue| + |data| <= QUEUE { AppendGrows(p, r, given, data, fin); } else
      { AppendLoses(p, r, given, data, fin); }
  }

  /** Once FIN is consumed, no honest data is ever next in order. */
  lemma NothingAfterFin(p: Peer, r: Receiver, given: seq<byte>, s: nat, data: seq<byte>, fin: bool)
    requires p.Fits() && InStep(p, r, given, true) && Honest(p, s, data, fin)
    ensures s != r.remoteSeq
  {
    OffsetPlus(p, |p.stream| + 1);
  }

  /** Bytes the queue needs, `have` being in it, once every fragment that is next in order is consumed. */
  function DrainNeeds(r: Receiver, have: nat): (need: nat)
    decreases Occupied(r.slots)
  {
    var i := FirstHeld(r.slots, r.remoteSeq, 0);
    if i == |r.slots| then have
    else
      ClearOccupied(r.slots, i);
      DrainNeeds(Consume(r, i), have + |r.slots[i].data|)
  }

  lemma {:induction false} DrainNeedsMore(r: Receiver, have: nat)
    ensures DrainNeeds(r, have) >= have
    decreases Occupied(r.slots)
  {
    var i := FirstHeld(r.slots, r.remoteSeq, 0);
    if i < |r.slots| {
      ClearOccupied(r.slots, i);
      DrainNeedsMore(Consume(r, i), have + |r.slots[i].data|);
    }
  }

  /** Bytes the queue needs when a segment arrives: its payload, if it is next in order, and what then follows. */
  function Needs(r: Receiver, g: Segment): nat {
    var r1 := if g.Ack() then r.(lastAck := g.ack) else r;
    if g.Rst() || (g.Syn() && g.Ack() && r.state == 1) || (g.Carries() && g.sequence != r.remoteSeq) then |r.queue|
    else DrainNeeds(Closed(Append(r1, g.payload), g.Fin()), |r.queue| + |g.payload|)
  }

  /** In-order honest data that the queue has room for keeps the receiver safe. */
  lemma AppendSafe(p: Peer, r: Receiver, given: seq<byte>, finished: bool, data: seq<byte>, fin: bool)
    requires Safe(p, r, given, finished) && Honest(p, r.remoteSeq, data, fin)
    requires |r.queue| + |data| <= QUEUE
    ensures !finished && Safe(p, Closed(Append(r, data), fin), given, fin)
    ensures |Closed(Append(r, data), fin).queue| == |r.queue| + |data|
  {
    hide HonestSlots, InStep, Honest;
    if finished { NothingAfterFin(p, r, given, r.remoteSeq, data, fin); }
    AppendGrows(p, r, given, data, fin);
  }

  /** Only the queue and the expected sequence number matter to being in step. */
  lemma InStepOnly(p: Peer, r: Receiver, r': Receiver, given: seq<byte>, finished: bool)
    requires InStep(p, r, given, finished) && r'.queue == r.queue && r'.remoteSeq == r.remoteSeq
    ensures InStep(p, r', given, finished)
  {
  }

  /** A drain that the queue has room for keeps the receiver safe. */
  lemma {:induction false} DrainSafe(p: Peer, r: Receiver, given: seq<byte>, finished: bool) returns (done: bool)
    requires Safe(p, r, given, finished) && DrainNeeds(r, |r.queue|) <= QUEUE
    ensures Safe(p, Drain(r), given, done)
    decreases Occupied(r.slots)
  {
    hide InStep, Honest, Append, Occupied, FirstHeld;
    var i := FirstHeld(r.slots, r.remoteSeq, 0);
    if i == |r.slots| {
      done := finished;
    } else {
      var f := r.slots[i];
      ClearOccupied(r.slots, i);
      DrainNeedsMore(Consume(r, i), |r.queue| + |f.data|);
      AppendSafe(p, r, given, finished, f.data, f.fin);
      InStepOnly(p, Closed(Append(r, f.data), f.fin), Consume(r, i), given, f.fin);
      done := DrainSafe(p, Consume(r, i), given, f.fin);
    }
  }

  // --------------------------------------------------------------- whole runs

  datatype Event = Deliver(segment: Segment) | Read(capacity: nat)

  /** The receiver and the bytes handed out so far. */
  datatype World = World(r: Receiver, given: seq<byte>)

  function WorldStep(w: World, e: Event): World {
    match e
    case Deliver(g) => World(ReceiveStep(w.r, g), w.given)
    case Read(c) => World(ReadStep(w.r, c).0, w.given + ReadStep(w.r, c).1)
  }

  function WorldRun(w: World, es: seq<Event>): World
    decreases es
  {
    if es == [] then w else WorldRun(WorldStep(w, es[0]), es[1..])
  }

  /** Data and FIN come from the peer's stream; control segments are unrestricted. */
  ghost predicate HonestEvent(p: Peer, e: Event) {
    e.Deliver? && e.segment.Carries() ==> Honest(p, e.segment.sequence, e.segment.payload, e.segment.Fin())
  }

  /** No delivery of the run overflows the queue. */
  ghost predicate NeverOverflows(w: World, es: seq<Event>)
    decreases es
  {
    es != [] ==> (es[0].Deliver? ==> Needs(w.r, es[0].segment) <= 32768) && NeverOverflows(WorldStep(w, es[0]), es[1..])
  }

  /** The state just after the handshake. */
  ghost predicate Established(p: Peer, w: World) {
    && w.r.remoteSeq == p.base && w.r.state == 2 && w.r.queue == [] && w.given == []
    && forall i :: 0 <= i < |w.r.slots| ==> w.r.slots[i] == Empty
  }

  /** The peer's SYN with an acknowledgement completes the handshake; its data start one number further. */
  lemma Handshake(sequence: nat, g: Segment, stream: seq<byte>)
    requires g.Syn() && g.Ack() && !g.Rst()
    ensures var w := WorldStep(World(Connecting(sequence), []), Deliver(g));
            && Established(Peer((g.sequence + 1) % 0x1_0000_0000, stream), w)
            && w.r.localSeq == w.r.lastAck == g.ack && w.r.acks == []
  {
    hide Segment.Rst, Segment.Syn, Segment.Ack;
  }

  lemma EstablishedSafe(p: Peer, w: World)
    requires p.Fits() && Established(p, w)
    ensures Safe(p, w.r, w.given, false)
  {
  }

  lemma ReadSafe(p: Peer, w: World, finished: bool, capacity: nat)
    requires Safe(p, w.r, w.given, finished)
    ensures var w' := WorldStep(w, Read(capacity)); Safe(p, w'.r, w'.given, finished)
  {
    var w' := WorldStep(w, Read(capacity));
    assert w'.given + w'.r.queue == w.given + w.r.queue;
  }

  lemma StoreSafe(p: Peer, slots: seq<Slot>, s: nat, data: seq<byte>, fin: bool)
    requires HonestSlots(p, slots) && Honest(p, s, data, fin)
    ensures HonestSlots(p, StoreFragment(slots, s, data, fin))
  {
    hide Honest, FirstEmpty, FirstHeld;
  }

  /** A segment that is not next in order at most adds an honest fragment. */
  lemma AheadSafe(p: Peer, r: Receiver, given: seq<byte>, finished: bool, g: Segment)
    requires Safe(p, r, given, finished) && Honest(p, g.sequence, g.payload, g.Fin())
    requires !g.Rst() && g.Carries() && g.sequence != r.remoteSeq
    ensures Safe(p, ReceiveStep(r, g), given, finished)
  {
    hide Honest, HonestSlots, StoreFragment, Ahead, Segment.Fin, Segment.Rst, Segment.Syn, Segment.Ack, Segment.Carries;
    StoreSafe(p, r.slots, g.sequence, g.payload, g.Fin());
  }

  /** A segment that is next in order, or carries nothing, and that the queue has room for. */
  lemma NextSafe(p: Peer, r: Receiver, given: seq<byte>, finished: bool, g: Segment) returns (done: bool)
    requires Safe(p, r, given, finished) && (g.Carries() ==>
               Honest(p, g.sequence, g.payload, g.Fin()) && g.sequence == r.remoteSeq)
    requires !g.Rst() && Needs(r, g) <= QUEUE
    ensures Safe(p, ReceiveStep(r, g), given, done)
  {
    hide Honest, HonestSlots, InStep, Drain, DrainNeeds, Segment.Rst, Segment.Syn, Segment.Ack, Segment.Fin;
    var r1 := if g.Ack() then r.(lastAck := g.ack) else r;
    InStepOnly(p, r, r1, given, finished);
    var r2 := Closed(Append(r1, g.payload), g.Fin());
    DrainNeedsMore(r2, |r.queue| + |g.payload|);
    done := finished;
    if g.Carries() {
      AppendSafe(p, r1, given, finished, g.payload, g.Fin());
      done := DrainSafe(p, r2, given, g.Fin());
    } else {
      NothingAppended(p, r1, given, finished);
      done := DrainSafe(p, r2, given, finished);
    }
    InStepOnly(p, Drain(r2), ReceiveStep(r, g), given, done);
  }

  lemma NothingAppended(p: Peer, r: Receiver, given: seq<byte>, finished: bool)
    requires InStep(p, r, given, finished)
    ensures Append(r, []) == r
  {
    assert r.queue + [] == r.queue;
  }

  lemma StepSafe(p: Peer, w: World, finished: bool, e: Event) returns (done: bool)
    requires Safe(p, w.r, w.given, finished) && HonestEvent(p, e) && (e.Deliver? ==> Needs(w.r, e.segment) <= QUEUE)
    ensures Safe(p, WorldStep(w, e).r, WorldStep(w, e).given, done)
  {
    hide Honest, HonestSlots, InStep, Drain, StoreFragment, Append, Needs;
    done := finished;
    if e.Read? {
      ReadSafe(p, w, finished, e.capacity);
    } else if e.segment.Rst() {
      InStepOnly(p, w.r, w.r.(state := -2), w.given, finished);
    } else if e.segment.Carries() && e.segment.sequence != w.r.remoteSeq {
      AheadSafe(p, w.r, w.given, finished, e.segment);
    } else {
      done := NextSafe(p, w.r, w.given, finished, e.segment);
    }
  }

  lemma {:induction false} RunSafe(p: Peer, w: World, finished: bool, es: seq<Event>) returns (done: bool)
    requires Safe(p, w.r, w.given, finished) && NeverOverflows(w, es)
    requires forall i :: 0 <= i < |es| ==> HonestEvent(p, es[i])
    ensures Safe(p, WorldRun(w, es).r, WorldRun(w, es).given, done)
    decreases es
  {
    hide Safe, WorldStep, HonestEvent;
    if es == [] {
      done := finished;
    } else {
      var mid := StepSafe(p, w, finished, es[0]);
      done := RunSafe(p, WorldStep(w, es[0]), mid, es[1..]);
    }
  }

  /**
   Prefix safety. However an honest peer's segments overlap, repeat or get lost, the bytes handed
   out followed by the bytes queued are a prefix of its stream, and the receiver expects exactly the
   next position, one further once FIN is consumed (when they are the whole stream).
   */
  lemma PrefixSafety(p: Peer, w: World, es: seq<Event>)
    requires p.Fits() && Established(p, w) && NeverOverflows(w, es)
    requires forall i :: 0 <= i < |es| ==> HonestEvent(p, es[i])
    ensures var w' := WorldRun(w, es);
            var got := w'.given + w'.r.queue;
            && got <= p.stream
            && (w'.r.remoteSeq == Plus(p.base, |got|) || (got == p.stream && w'.r.remoteSeq == Plus(p.base, |got| + 1)))
            && (w'.r.state == 4 ==> got == p.stream && w'.r.remoteSeq == Plus(p.base, |got| + 1))
            && (w'.r.state != 4 && w'.r.state != -2 ==> w'.r.remoteSeq == Plus(p.base, |got|))
  {
    hide WorldRun, NeverOverflows, HonestEvent;
    EstablishedSafe(p, w);
    var done := RunSafe(p, w, false, es);
  }

  // ---------------------------------------------------------- acknowledgements

  lemma {:induction false} DrainAcks(r: Receiver)
    ensures Drain(r).acks == r.acks
    decreases Occupied(r.slots)
  {
    var i := FirstHeld(r.slots, r.remoteSeq, 0);
    if i < |r.slots| {
      ClearOccupied(r.slots, i);
      DrainAcks(Consume(r, i));
    }
  }

  /** Every segment but a reset and the answer to the SYN is acknowledged once, with the number then expected. */
  lemma ReceiveAcks(r: Receiver, g: Segment)
    ensures ReceiveStep(r, g).acks
            == r.acks + if g.Rst() || (g.Syn() && g.Ack() && r.state == 1) then [] else [ReceiveStep(r, g).remoteSeq]
  {
    hide Drain, Segment.Rst, Segment.Syn, Segment.Ack, Segment.Fin, StoreFragment, Ahead, Plus;
    var r1 := if g.Ack() then r.(lastAck := g.ack) else r;
    DrainAcks(Closed(Append(r1, g.payload), g.Fin()));
  }

  lemma {:induction false} RunLast(w: World, es: seq<Event>, e: Event)
    ensures WorldRun(w, es + [e]) == WorldStep(WorldRun(w, es), e)
    decreases es
  {
    hide WorldStep;
    if es == [] {
      assert ([e])[1..] == [] && es + [e] == [e];
      assert WorldRun(WorldStep(w, e), []) == WorldStep(w, e);
    } else {
      assert (es + [e])[1..] == es[1..] + [e];
      RunLast(WorldStep(w, es[0]), es[1..], e);
    }
  }

  lemma {:induction false} OverflowsSplit(w: World, es: seq<Event>, e: Event)
    requires NeverOverflows(w, es + [e])
    ensures NeverOverflows(w, es)
    decreases es
  {
    hide WorldStep, Needs;
    if es != [] {
      assert (es + [e])[1..] == es[1..] + [e];
      OverflowsSplit(WorldStep(w, es[0]), es[1..], e);
    }
  }

  /**
   Acknowledged positions. In every run against an honest peer, each arriving segment but a reset is answered with one
   acknowledgement, and it names the end of what has been received: no byte that is missing, none that is there twice.
   */
  lemma AckedPosition(p: Peer, w: World, es: seq<Event>, g: Segment)
    requires p.Fits() && Established(p, w) && NeverOverflows(w, es + [Deliver(g)]) && !g.Rst()
    requires (forall i :: 0 <= i < |es| ==> HonestEvent(p, es[i])) && HonestEvent(p, Deliver(g))
    ensures var w1, w2 := WorldRun(w, es), WorldRun(w, es + [Deliver(g)]);
            var got := w2.given + w2.r.queue;
            && got <= p.stream && |w2.r.acks| == |w1.r.acks| + 1 && w1.r.acks <= w2.r.acks
            && var ack := w2.r.acks[|w1.r.acks|];
               ack == Plus(p.base, |got|) || (got == p.stream && ack == Plus(p.base, |got| + 1))
  {
    hide WorldRun, NeverOverflows, HonestEvent, ReceiveStep, Plus, Segment.Rst, Honest, HonestSlots;
    var all := es + [Deliver(g)];
    OverflowsSplit(w, es, Deliver(g));
    EstablishedSafe(p, w);
    var done := RunSafe(p, w, false, es);
    RunLast(w, es, Deliver(g));
    ReceiveAcks(WorldRun(w, es).r, g);
    PrefixSafety(p, w, all);
  }
}
