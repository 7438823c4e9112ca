/**
 The kernel's TCP connection state (kernel/net/net.c): the static queue, fragment slots and
 sequence numbers that each arriving packet updates.
 */
module TcpConnection {
  import opened Bytes
  import opened TcpSpec

  function Be16(b: seq<byte>, o: nat): nat
    requires o + 2 <= |b|
  {
    (b[o] as int) * 256 + b[o + 1] as int
  }

  function Be32(b: seq<byte>, o: nat): (v: nat)
    requires o + 4 <= |b|
    ensures v < SEQ_MODULUS
  {
    Be16(b, o) * 65536 + Be16(b, o + 2)
  }

  type port = x: int | 0 <= x < 0x1_0000

  datatype Endpoint = Endpoint(remoteIp: nat, remotePort: port, localPort: port)

  datatype Parsed = Ignored | Accepted(segment: Segment)

  /** The header checks of tcp_receive: which packets are for this connection, and what they carry. */
  function Parse(e: Endpoint, tcp: seq<byte>, source: nat): Parsed {
    if source != e.remoteIp || |tcp| < 20 || Be16(tcp, 2) != e.localPort || Be16(tcp, 0) != e.remotePort then Ignored
    else
      var header := tcp[12] / 16 * 4;
      if header < 20 || header > |tcp| then Ignored
      else Accepted(Segment(Be32(tcp, 4), Be32(tcp, 8), tcp[13], tcp[header..]))
  }

  /** What one turn of a polling loop meets: a request to cancel, or the packets that network_poll hands on. */
  datatype Poll = Cancel | Arrivals(packets: seq<Packet>)

  datatype Packet = Packet(tcp: seq<byte>, source: nat)

  /** The packets arrive one after the other. */
  function Arrive(e: Endpoint, r: Receiver, packets: seq<Packet>): Receiver
    decreases packets
  {
    if packets == [] then r
    else
      var p := Parse(e, packets[0].tcp, packets[0].source);
      Arrive(e, if p.Accepted? then ReceiveStep(r, p.segment) else r, packets[1..])
  }

  /** Polling until there is something to read, the connection is gone, or a cancel; and whether it was a cancel. */
  function Polled(e: Endpoint, r: Receiver, polls: seq<Poll>): (Receiver, bool)
    decreases polls
  {
    if polls == [] || r.queue != [] || r.state < 2 then (r, false)
    else if polls[0].Cancel? then (r, true)
    else Polled(e, Arrive(e, r, polls[0].packets), polls[1..])
  }

  class Connection {
    var endpoint: Endpoint
    var remoteSeq: nat
    var localSeq: nat
    var lastAck: nat
    var state: int
    const queue: array<byte>
    var queueLength: nat
    const fragments: array<Slot>
    var acks: seq<nat>          // acknowledgement numbers sent in answer to segments

    ghost predicate Valid()
      reads this, queue, fragments
    {
      && queue.Length == QUEUE && queueLength <= QUEUE && fragments.Length == SLOTS
      && remoteSeq < SEQ_MODULUS && localSeq < SEQ_MODULUS
    }

    ghost function View(): Receiver
      requires Valid()
      reads this, queue, fragments
    {
      Receiver(remoteSeq, localSeq, lastAck, state, queue[..queueLength], fragments[..], acks)
    }

    /** The state network_tcp_connect waits in for the handshake to complete: the SYN took one sequence number. */
    constructor (e: Endpoint, sequence: nat)
      ensures Valid() && fresh(queue) && fresh(fragments) && endpoint == e && View() == Connecting(sequence)
    {
      endpoint := e;
      remoteSeq, localSeq, lastAck, state, queueLength, acks := 0, Plus(sequence, 1), sequence, 1, 0, [];
      queue := new byte[QUEUE](_ => 0);
      fragments := new Slot[SLOTS](_ => Empty);
    }

    /** tcp_append. */
    method AppendBytes(data: seq<byte>)
      requires Valid()
      modifies this`queueLength, this`remoteSeq, queue
      ensures Valid() && View() == Append(old(View()), data)
    {
      hide Plus;
      var take := |data|;
      if take > queue.Length - queueLength { take := queue.Length - queueLength; }
      for i := 0 to take
        modifies queue
        invariant forall j :: 0 <= j < queueLength ==> queue[j] == old(queue[j])
        invariant forall j :: queueLength <= j < queueLength + i ==> queue[j] == data[j - queueLength]
      {
        queue[queueLength + i] := data[i];
      }
      assert queue[..queueLength + take] == old(queue[..queueLength]) + data[..take];
      queueLength := queueLength + take;
      remoteSeq := Plus(remoteSeq, |data|);
    }

    method FindHeld(s: nat) returns (i: nat)
      requires Valid()
      ensures i == FirstHeld(fragments[..], s, 0)
    {
      i := 0;
      while i < fragments.Length
        invariant i <= SLOTS && FirstHeld(fragments[..], s, i) == FirstHeld(fragments[..], s, 0)
      {
        if fragments[i].Held? && fragments[i].sequence == s { return; }
        i := i + 1;
      }
    }

    method FindEmpty() returns (i: nat)
      requires Valid()
      ensures i == FirstEmpty(fragments[..], 0)
    {
      i := 0;
      while i < fragments.Length
        invariant i <= SLOTS && FirstEmpty(fragments[..], i) == FirstEmpty(fragments[..], 0)
      {
        if fragments[i] == Empty { return; }
        i := i + 1;
      }
    }

    /** tcp_store_fragment. */
    method Hold(s: nat, data: seq<byte>, fin: bool)
      requires Valid()
      modifies fragments
      ensures Valid() && View() == old(View()).(slots := StoreFragment(old(View()).slots, s, data, fin))
    {
      hide FirstHeld, FirstEmpty;
      if |data| > MAX_FRAGMENT { return; }
      var i := FindHeld(s);
      if i < fragments.Length { return; }
      i := FindEmpty();
      if i == fragments.Length { return; }
      fragments[i] := Held(s, data, fin);
      assert fragments[..] == old(fragments[..])[i := Held(s, data, fin)];
    }

    /** A FIN takes one sequence number. */
    method Close(fin: bool)
      requires Valid()
      modifies this`remoteSeq, this`state
      ensures Valid() && View() == Closed(old(View()), fin)
    {
      if fin { remoteSeq, state := Plus(remoteSeq, 1), 4; }
    }

    method ConsumeSlot(i: nat)
      requires Valid() && i < SLOTS && fragments[i].Held?
      modifies this`queueLength, this`remoteSeq, this`state, queue, fragments
      ensures Valid() && View() == Consume(old(View()), i)
    {
      hide Plus;
      AppendBytes(fragments[i].data);
      Close(fragments[i].fin);
      fragments[i] := Empty;
    }

    /** tcp_drain_fragments. */
    method DrainFragments()
      requires Valid()
      modifies this`queueLength, this`remoteSeq, this`state, queue, fragments
      ensures Valid() && View() == Drain(old(View()))
    {
      hide Consume, FirstHeld, Occupied;
      var progress := true;
      while progress
        invariant Valid() && Drain(View()) == Drain(old(View()))
        invariant !progress ==> FirstHeld(View().slots, remoteSeq, 0) == SLOTS
        decreases Occupied(View().slots), progress
      {
        var i := FindHeld(remoteSeq);
        progress := i < fragments.Length;
        if progress {
          ClearOccupied(View().slots, i);
          ConsumeSlots(View(), i);
          ConsumeSlot(i);
        }
      }
    }

    /** tcp_receive. */
    method Receive(tcp: seq<byte>, source: nat)
      requires Valid()
      modifies this`queueLength, this`remoteSeq, this`localSeq, this`lastAck, this`state, this`acks, queue, fragments
      ensures Valid()
      ensures var p := Parse(old(endpoint), tcp, source);
              View() == if p.Accepted? then ReceiveStep(old(View()), p.segment) else old(View())
    {
      hide Consume, Drain, Plus, StoreFragment, Append, Be32;
      if source != endpoint.remoteIp || |tcp| < 20 || Be16(tcp, 2) != endpoint.localPort
          || Be16(tcp, 0) != endpoint.remotePort { return; }
      var header := tcp[12] / 16 * 4;
      if header < 20 || header > |tcp| { return; }
      var flags, sequence, ack := tcp[13], Be32(tcp, 4), Be32(tcp, 8);
      if flags / 4 % 2 == 1 { state := -2; return; }
      if flags / 16 % 2 == 1 { lastAck := ack; }
      if flags / 16 % 2 == 1 && flags / 2 % 2 == 1 && state == 1 {
        remoteSeq, localSeq, lastAck, state := Plus(sequence, 1), ack, ack, 2;
        return;
      }
      var payload, fin := tcp[header..], flags % 2 == 1;
      if (payload != [] || fin) && sequence != remoteSeq {
        if Ahead(sequence, remoteSeq) { Hold(sequence, payload, fin); }
        acks := acks + [remoteSeq];
        return;
      }
      AppendBytes(payload);
      Close(fin);
      DrainFragments();
      acks := acks + [remoteSeq];
    }

    /** Moves the queued bytes after the first `take` to the front. */
    method Shift(take: nat)
      requires Valid() && take <= queueLength
      modifies queue
      ensures queue[..queueLength - take] == old(queue[take..queueLength])
    {
      for i := take to queueLength
        invariant forall j :: 0 <= j < i - take ==> queue[j] == old(queue[take..queueLength])[j]
        invariant forall j :: i <= j < queueLength ==> queue[j] == old(queue[j])
      {
        queue[i - take] := queue[i];
      }
    }

    /** network_poll: hands on the packets that are there. */
    method TakeIn(packets: seq<Packet>)
      requires Valid()
      modifies this`queueLength, this`remoteSeq, this`localSeq, this`lastAck, this`state, this`acks, queue, fragments
      ensures Valid() && View() == Arrive(endpoint, old(View()), packets)
    {
      hide ReceiveStep, Parse;
      assert packets[0..] == packets;
      for i := 0 to |packets|
        invariant Valid() && Arrive(endpoint, View(), packets[i..]) == Arrive(endpoint, old(View()), packets)
      {
        assert packets[i..][1..] == packets[i + 1..];
        Receive(packets[i].tcp, packets[i].source);
      }
    }

    /** network_tcp_receive: polls as long as `polls` allows and there is nothing to read, then copies bytes out. */
    method Read(capacity: nat, polls: seq<Poll>) returns (code: int, data: seq<byte>)
      requires Valid()
      modifies this`queueLength, this`remoteSeq, this`localSeq, this`lastAck, this`state, this`acks, queue, fragments
      ensures Valid()
      ensures old(state) < 2 || capacity == 0 ==> code == -1 && data == [] && View() == old(View())
      ensures old(state) >= 2 && capacity > 0 ==>
                var (r, cancelled) := Polled(endpoint, old(View()), polls);
                if cancelled then code == -3 && data == [] && View() == r
                else && (View(), data) == ReadStep(r, capacity)
                     && code == if data != [] then 1 else if state == 4 then 0 else -2
    {
      hide Arrive;
      if state < 2 || capacity == 0 { return -1, []; }
      var i := 0;
      assert polls[0..] == polls;
      while i < |polls| && queueLength == 0 && state >= 2
        invariant i <= |polls| && Valid() && Polled(endpoint, View(), polls[i..])
                  == Polled(endpoint, old(View()), polls)
      {
        assert polls[i..][1..] == polls[i + 1..];
        if polls[i].Cancel? { return -3, []; }
        TakeIn(polls[i].packets);
        i := i + 1;
      }
      code, data := TakeOut(capacity);
    }

    /** Copies out what is queued, as far as there is room for it. */
    method TakeOut(capacity: nat) returns (code: int, data: seq<byte>)
      requires Valid() && capacity > 0
      modifies this`queueLength, queue
      ensures Valid() && (View(), data) == ReadStep(old(View()), capacity)
      ensures code == if data != [] then 1 else if state == 4 then 0 else -2
    {
      var take := if queueLength > capacity then capacity else queueLength;
      data := queue[..take];
      assert data == queue[..queueLength][..take] && queue[take..queueLength] == queue[..queueLength][take..];
      Shift(take);
      queueLength := queueLength - take;
      code := if take > 0 then 1 else if state == 4 then 0 else -2;
    }
  }

  lemma ConsumeSlots(r: Receiver, i: nat)
    requires i < |r.slots| && r.slots[i].Held?
    ensures Consume(r, i).slots == r.slots[i := Empty]
  {
  }
}
