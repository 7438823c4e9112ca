/**
 The receiving side of the kernel's TCP connection, as functions on values: a byte queue,
 eight out-of-order fragment slots and the next expected sequence number.
 */
module TcpSpec {
  import opened Bytes

  const SEQ_MODULUS: int := 0x1_0000_0000   // sequence numbers are 32 bits
  const HALF: int := 0x8000_0000
  const QUEUE: nat := 32768
  const SLOTS: nat := 8
  const MAX_FRAGMENT: nat := 1460

  datatype Slot = Empty | Held(sequence: nat, data: seq<byte>, fin: bool)

  /** A segment after its header is parsed; `flags` is byte 13 of the TCP header. */
  datatype Segment = Segment(sequence: nat, ack: nat, flags: byte, payload: seq<byte>) {
    predicate Fin() { flags % 2 == 1 }
    predicate Syn() { flags / 2 % 2 == 1 }
    predicate Rst() { flags / 4 % 2 == 1 }
    predicate Ack() { flags / 16 % 2 == 1 }
    predicate Carries() { payload != [] || Fin() }
  }

  /** `acks` lists the acknowledgement numbers sent so far. */
  datatype Receiver = Receiver(remoteSeq: nat, localSeq: nat, lastAck: nat, state: int,
                               queue: seq<byte>, slots: seq<Slot>, acks: seq<nat>)

  /** The state network_tcp_connect waits in once the SYN is sent. */
  function Connecting(sequence: nat): Receiver {
    Receiver(0, Plus(sequence, 1), sequence, 1, [], seq(SLOTS, _ => Empty), [])
  }

  /** Sequence-number addition. */
  function Plus(a: int, n: int): (r: nat)
    ensures r < SEQ_MODULUS
  {
    (a + n) % SEQ_MODULUS
  }

  /** `a` is ahead of `b`: the difference is positive as a signed 32-bit number. */
  predicate Ahead(a: nat, b: nat) {
    0 < (a - b) % SEQ_MODULUS < HALF
  }

  /** tcp_append: the queue takes what fits, the sequence number moves past all of it. */
  function Append(r: Receiver, data: seq<byte>): Receiver {
    var room := if |r.queue| < QUEUE then QUEUE - |r.queue| else 0;
    var take := if |data| > room then room else |data|;
    r.(queue := r.queue + data[..take], remoteSeq := Plus(r.remoteSeq, |data|))
  }

  /** First slot at or after `from` that is empty. */
  function FirstEmpty(slots: seq<Slot>, from: nat): (i: nat)
    requires from <= |slots|
    ensures from <= i <= |slots| && (i < |slots| ==> slots[i] == Empty)
    ensures forall j :: from <= j < i ==> slots[j] != Empty
    decreases |slots| - from
  {
    if from == |slots| || slots[from] == Empty then from else FirstEmpty(slots, from + 1)
  }

  /** First slot at or after `from` that holds sequence number `s`. */
  function FirstHeld(slots: seq<Slot>, s: nat, from: nat): (i: nat)
    requires from <= |slots|
    ensures from <= i <= |slots| && (i < |slots| ==> slots[i].Held? && slots[i].sequence == s)
    ensures forall j :: from <= j < i ==> !(slots[j].Held? && slots[j].sequence == s)
    decreases |slots| - from
  {
    if from == |slots| || (slots[from].Held? && slots[from].sequence == s) then from else FirstHeld(slots, s, from + 1)
  }

  /** tcp_store_fragment. */
  function StoreFragment(slots: seq<Slot>, s: nat, data: seq<byte>, fin: bool): (r: seq<Slot>)
    ensures |r| == |slots|
  {
    var i := FirstEmpty(slots, 0);
    if |data| > MAX_FRAGMENT || FirstHeld(slots, s, 0) < |slots| || i == |slots| then slots
    else slots[i := Held(s, data, fin)]
  }

  function Occupied(slots: seq<Slot>): nat {
    if slots == [] then 0 else (if slots[0].Held? then 1 else 0) + Occupied(slots[1..])
  }

  lemma {:induction false} ClearOccupied(slots: seq<Slot>, i: nat)
    requires i < |slots| && slots[i].Held?
    ensures Occupied(slots[i := Empty]) == Occupied(slots) - 1
  {
    if i > 0 {
      ClearOccupied(slots[1..], i - 1);
      assert slots[i := Empty][1..] == slots[1..][i - 1 := Empty];
    } else {
      assert slots[i := Empty][1..] == slots[1..];
    }
  }

  /** Consumes the fragment in slot `i`. */
  function Consume(r: Receiver, i: nat): Receiver
    requires i < |r.slots| && r.slots[i].Held?
  {
    var f := r.slots[i];
    Closed(Append(r, f.data), f.fin).(slots := r.slots[i := Empty])
  }

  /** A FIN takes one sequence number and closes the stream. */
  function Closed(r: Receiver, fin: bool): Receiver {
    if fin then r.(remoteSeq := Plus(r.remoteSeq, 1), state := 4) else r
  }

  /** tcp_drain_fragments: consume fragments as long as one is next in order. */
  function Drain(r: Receiver): Receiver
    decreases Occupied(r.slots)
  {
    var i := FirstHeld(r.slots, r.remoteSeq, 0);
    if i == |r.slots| then r
    else
      ClearOccupied(r.slots, i);
      Drain(Consume(r, i))
  }

  function SendAck(r: Receiver): Receiver { r.(acks := r.acks + [r.remoteSeq]) }

  /** tcp_receive, once the addresses, ports and header length are accepted. */
  function ReceiveStep(r: Receiver, g: Segment): Receiver {
    if g.Rst() then r.(state := -2)
    else
      var r1 := if g.Ack() then r.(lastAck := g.ack) else r;
      if g.Syn() && g.Ack() && r1.state == 1 then
        r1.(remoteSeq := Plus(g.sequence, 1), localSeq := g.ack, lastAck := g.ack, state := 2)
      else if g.Carries() && g.sequence != r1.remoteSeq then
        SendAck(if Ahead(g.sequence, r1.remoteSeq)
                then r1.(slots := StoreFragment(r1.slots, g.sequence, g.payload, g.Fin()))
                else r1)
      else
        SendAck(Drain(Closed(Append(r1, g.payload), g.Fin())))
  }

  /** The part of network_tcp_receive that hands bytes out: what is read and what is left. */
  function ReadStep(r: Receiver, capacity: nat): (Receiver, seq<byte>) {
    var take := if |r.queue| > capacity then capacity else |r.queue|;
    (r.(queue := r.queue[take..]), r.queue[..take])
  }
}
