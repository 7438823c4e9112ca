/**
 TCP packets as bytes (section 3.1 of RFC 9293): the layout tcp_send writes is the one tcp_receive reads, and the
 two stream theorems hold of arriving packets.
 */
module TcpPackets {
  import opened Bytes
  import opened Checksum
  import opened TcpSpec
  import opened TcpSafety
  import opened TcpDelivery
  import opened TcpConnection

  // -------------------------------------------------------------------- layout

  /** The control bits that matter to the receiver; `push` and `high` stand for the others. */
  datatype Flags = Flags(fin: bool, syn: bool, rst: bool, push: bool, ack: bool, high: nat) {
    predicate Good() { high < 8 }
    function Byte(): byte
      requires Good()
    {
      Bit(fin) + 2 * Bit(syn) + 4 * Bit(rst) + 8 * Bit(push) + 16 * Bit(ack) + 32 * high
    }
  }

  function Bit(b: bool): nat { if b then 1 else 0 }

  /** What a packet says: `rest` is window, checksum and urgent pointer, `low` the bits beside the data offset. */
  datatype Header = Header(sequence: nat, ack: nat, flags: Flags, low: nat, rest: seq<byte>, options: seq<byte>) {
    predicate Good() {
      && sequence < 0x1_0000_0000 && ack < 0x1_0000_0000 && flags.Good() && low < 16
      && |rest| == 6 && |options| % 4 == 0 && |options| <= 40
    }
  }

  function Big16(v: nat): seq<byte>
    requires v < 0x1_0000
  {
    [v / 0x100, v % 0x100]
  }

  function Big32(v: nat): seq<byte>
    requires v < 0x1_0000_0000
  {
    [v / 0x100_0000, v / 0x1_0000 % 0x100, v / 0x100 % 0x100, v % 0x100]
  }

  /** The packet, field by field. */
  function Wire(from: port, to: port, h: Header, payload: seq<byte>): (tcp: seq<byte>)
    requires h.Good()
    ensures |tcp| == 20 + |h.options| + |payload|
  {
    Big16(from) + Big16(to) + Big32(h.sequence) + Big32(h.ack)
    + [(5 + |h.options| / 4) * 16 + h.low, h.flags.Byte()] + h.rest + h.options + payload
  }

  /** The segment tcp_receive works on. */
  function Meant(h: Header, payload: seq<byte>): Segment
    requires h.Good()
  {
    Segment(h.sequence, h.ack, h.flags.Byte(), payload)
  }

  lemma FlagBits(h: Header, payload: seq<byte>)
    requires h.Good()
    ensures var g := Meant(h, payload);
            g.Fin() == h.flags.fin && g.Syn() == h.flags.syn && g.Rst() == h.flags.rst && g.Ack() == h.flags.ack
  {
    var f := h.flags;
    var a := Bit(f.ack) + 2 * f.high;
    var b := Bit(f.push) + 2 * a;
    var c := Bit(f.rst) + 2 * b;
    var d := Bit(f.syn) + 2 * c;
    assert f.Byte() == Bit(f.fin) + 2 * d;
    hide Flags.Byte, Bit;
    Halves(f.Byte(), d, f.fin);
    Halves(d, c, f.syn);
    Halves(c, b, f.rst);
    Halves(b, a, f.push);
    Halves(a, f.high, f.ack);
    Quarters(f.Byte());
  }

  lemma Halves(x: nat, rest: nat, bit: bool)
    requires x == Bit(bit) + 2 * rest
    ensures (x % 2 == 1) == bit && x / 2 == rest
  {
  }

  lemma Quarters(x: nat)
    ensures x / 4 == x / 2 / 2 && x / 16 == x / 2 / 2 / 2 / 2
  {
  }

  lemma Big16Reads(v: nat, b: seq<byte>, o: nat)
    requires v < 0x1_0000 && o + 2 <= |b| && b[o..o + 2] == Big16(v)
    ensures Be16(b, o) == v
  {
    assert b[o] == b[o..o + 2][0] && b[o + 1] == b[o..o + 2][1];
  }

  lemma Big32Reads(v: nat, b: seq<byte>, o: nat)
    requires v < 0x1_0000_0000 && o + 4 <= |b| && b[o..o + 4] == Big32(v)
    ensures Be32(b, o) == v
  {
    var w := b[o..o + 4];
    assert b[o] == w[0] && b[o + 1] == w[1] && b[o + 2] == w[2] && b[o + 3] == w[3];
    Big32Halves(v);
  }

  lemma Big32Halves(v: nat)
    ensures v / 0x100_0000 == v / 0x1_0000 / 0x100
    ensures v == v / 0x1_0000 * 0x1_0000 + v / 0x100 % 0x100 * 0x100 + v % 0x100
  {
    Quarter(v);
    var x := v % 0x1_0000;
    assert x == x / 0x100 * 0x100 + x % 0x100 && v == v / 0x1_0000 * 0x1_0000 + x;
  }

  /** Where the fields lie. */
  lemma WireFields(from: port, to: port, h: Header, payload: seq<byte>)
    requires h.Good()
    ensures var t := Wire(from, to, h, payload);
            && t[0..2] == Big16(from) && t[2..4] == Big16(to)
            && t[4..8] == Big32(h.sequence) && t[8..12] == Big32(h.ack)
            && t[12] == (5 + |h.options| / 4) * 16 + h.low && t[13] == h.flags.Byte()
            && t[20 + |h.options|..] == payload
  {
    hide Flags.Byte;
  }

  /**
   tcp_receive reads what the layout says: of a well-formed packet it takes in exactly sequence number,
   acknowledgement, flags and payload, and only if address and ports are those of the connection.
   */
  lemma ParseWire(e: Endpoint, from: port, to: port, h: Header, payload: seq<byte>, source: nat)
    requires h.Good()
    ensures Parse(e, Wire(from, to, h, payload), source)
            == if source == e.remoteIp && from == e.remotePort && to == e.localPort then Accepted(Meant(h, payload))
               else Ignored
  {
    hide Be32, Be16, Wire, Big16, Big32, Flags.Byte;
    var t := Wire(from, to, h, payload);
    WireFields(from, to, h, payload);
    Big16Reads(from, t, 0);
    Big16Reads(to, t, 2);
    Big32Reads(h.sequence, t, 4);
    Big32Reads(h.ack, t, 8);
    Offset(|h.options| / 4, h.low);
  }

  lemma Offset(words: nat, low: nat)
    requires low < 16
    ensures ((5 + words) * 16 + low) / 16 * 4 == 20 + 4 * words
  {
  }

  /** A packet that is too short, or whose data offset points before the options or past the end. */
  predicate Malformed(tcp: seq<byte>) {
    |tcp| < 20 || tcp[12] < 0x50 || tcp[12] / 16 * 4 > |tcp|
  }

  lemma MalformedIgnored(e: Endpoint, tcp: seq<byte>, source: nat)
    requires Malformed(tcp)
    ensures Parse(e, tcp, source) == Ignored
  {
    hide Be16, Be32;
  }

  /** The control bits of a byte. */
  function FlagsOf(b: byte): (f: Flags)
    ensures f.Good() && f.Byte() == b
  {
    BitsOf(b);
    Flags(b % 2 == 1, b / 2 % 2 == 1, b / 4 % 2 == 1, b / 8 % 2 == 1, b / 16 % 2 == 1, b / 32)
  }

  lemma BitsOf(b: nat)
    ensures b == b % 2 + 2 * (b / 2 % 2) + 4 * (b / 4 % 2) + 8 * (b / 8 % 2) + 16 * (b / 16 % 2) + 32 * (b / 32)
  {
    var c := b / 2;
    var d := c / 2;
    var e := d / 2;
    var f := e / 2;
    assert b / 4 == d && b / 8 == e && b / 16 == f && b / 32 == f / 2;
    assert f == f % 2 + 2 * (f / 2) && e == e % 2 + 2 * f && d == d % 2 + 2 * e && c == c % 2 + 2 * d;
  }

  /** Every packet that is not malformed is laid out like that. */
  lemma EveryPacket(tcp: seq<byte>) returns (from: port, to: port, h: Header, payload: seq<byte>)
    requires !Malformed(tcp)
    ensures h.Good() && tcp == Wire(from, to, h, payload)
  {
    hide Be32, Be16, Big32, Big16, Flags.Byte, FlagsOf;
    var n := tcp[12] / 16 * 4;
    OffsetBack(tcp[12]);
    ReadBig16(tcp, 0);
    ReadBig16(tcp, 2);
    from, to, payload := Be16(tcp, 0), Be16(tcp, 2), tcp[n..];
    h := Header(Be32(tcp, 4), Be32(tcp, 8), FlagsOf(tcp[13]), tcp[12] % 16, tcp[14..20], tcp[20..n]);
    ReadBig32(tcp, 4);
    ReadBig32(tcp, 8);
    Sliced(tcp, n);
  }

  lemma OffsetBack(x: byte)
    requires x >= 0x50
    ensures var n := x / 16 * 4;
            20 <= n <= 60 && (n - 20) % 4 == 0 && n - 20 <= 40 && (5 + (n - 20) / 4) * 16 + x % 16 == x
  {
    assert x == x / 16 * 16 + x % 16;
  }

  lemma Sliced(t: seq<byte>, n: nat)
    requires 20 <= n <= |t|
    ensures t == t[0..2] + t[2..4] + t[4..8] + t[8..12] + [t[12], t[13]] + t[14..20] + t[20..n] + t[n..]
  {
    assert t[0..2] + t[2..4] == t[..4];
    assert t[..4] + t[4..8] == t[..8];
    assert t[..8] + t[8..12] == t[..12];
    assert t[..12] + [t[12], t[13]] == t[..14];
    assert t[..14] + t[14..20] == t[..20];
    assert t[..20] + t[20..n] == t[..n];
  }

  lemma ReadBig16(b: seq<byte>, o: nat)
    requires o + 2 <= |b|
    ensures Be16(b, o) < 0x1_0000 && Big16(Be16(b, o)) == b[o..o + 2]
  {
  }

  lemma ReadBig32(b: seq<byte>, o: nat)
    requires o + 4 <= |b|
    ensures Big32(Be32(b, o)) == b[o..o + 4]
  {
    var v := Be32(b, o);
    assert v == 0x1_0000 * Be16(b, o) + Be16(b, o + 2);
    Big32Halves(v);
    assert v / 0x1_0000 == Be16(b, o);
    assert v / 0x100 == 0x100 * Be16(b, o) + b[o + 2] as int;
  }

  // ------------------------------------------------------------------- sending

  datatype Hop = NoHop | Hop(mac: seq<byte>)

  /** write32. */
  function Put32(d: seq<byte>, o: nat, v: nat): (r: seq<byte>)
    requires o + 4 <= |d| && v < 0x1_0000_0000
    ensures |r| == |d|
  {
    Put16(Put16(d, o, v / 0x1_0000), o + 2, v % 0x1_0000)
  }

  /** The header tcp_send means, with its window of 4096 bytes and no options. */
  function SentHeader(sequence: nat, ack: nat, flags: byte, check: nat): (h: Header)
    requires sequence < 0x1_0000_0000 && ack < 0x1_0000_0000 && check < 0x1_0000
    ensures h.Good()
  {
    Header(sequence, ack, FlagsOf(flags), 0, Big16(4096) + Big16(check) + [0, 0], [])
  }

  /** The writes of tcp_send into its buffer, up to the checksum. */
  method WriteHeader(from: port, to: port, sequence: nat, ack: nat, flags: byte) returns (t: seq<byte>)
    requires sequence < 0x1_0000_0000 && ack < 0x1_0000_0000
    ensures |t| == 20 && t == Wire(from, to, SentHeader(sequence, ack, flags, 0), [])
  {
    hide FlagsOf, Flags.Byte, Put16, Put32, Wire, SentHeader, Big16, Big32;
    var t0: seq<byte> := seq(20, _ => 0);
    var t1 := Put16(t0, 0, from);
    var t2 := Put16(t1, 2, to);
    var t3 := Put32(t2, 4, sequence);
    var t4 := Put32(t3, 8, ack);
    var t5: seq<byte> := t4[12 := 0x50][13 := flags];
    Put16Facts(t0, 0, from);
    Put16Facts(t1, 2, to);
    Put32Facts(t2, 4, sequence);
    Put32Facts(t3, 8, ack);
    SameSlice(t5, t1, 0, 2);
    SameSlice(t5, t2, 2, 4);
    SameSlice(t5, t3, 4, 8);
    SameSlice(t5, t4, 8, 12);
    t := WriteRest(t5);
    assert forall i :: 0 <= i < 14 ==> t[i] == t[..14][i];
    SameSlice(t, t5, 0, 2);
    SameSlice(t, t5, 2, 4);
    SameSlice(t, t5, 4, 8);
    SameSlice(t, t5, 8, 12);
    Written(t, from, to, sequence, ack, flags);
  }

  /** Window, checksum and urgent pointer. */
  method WriteRest(t: seq<byte>) returns (r: seq<byte>)
    requires |t| == 20
    ensures |r| == 20 && r[..14] == t[..14] && r[14] == 16 && forall i :: 15 <= i < 20 ==> r[i] == 0
  {
    r := Put16(t, 14, 4096);
    r := Put16(r, 16, 0);
    r := Put16(r, 18, 0);
  }

  lemma SameSlice(a: seq<byte>, b: seq<byte>, lo: nat, hi: nat)
    requires lo <= hi <= |a| == |b| && forall i :: lo <= i < hi ==> a[i] == b[i]
    ensures a[lo..hi] == b[lo..hi]
  {
  }

  lemma Put16Facts(d: seq<byte>, o: nat, v: nat)
    requires o + 2 <= |d| && v < 0x1_0000
    ensures Put16(d, o, v)[o..o + 2] == Big16(v)
    ensures forall i :: 0 <= i < |d| && (i < o || o + 2 <= i) ==> Put16(d, o, v)[i] == d[i]
  {
  }

  lemma Put32Facts(d: seq<byte>, o: nat, v: nat)
    requires o + 4 <= |d| && v < 0x1_0000_0000
    ensures Put32(d, o, v)[o..o + 4] == Big32(v)
    ensures forall i :: 0 <= i < |d| && (i < o || o + 4 <= i) ==> Put32(d, o, v)[i] == d[i]
  {
    Quarter(v);
  }

  lemma Quarter(v: nat)
    ensures v / 0x1_0000 / 0x100 == v / 0x100_0000 && v % 0x1_0000 / 0x100 == v / 0x100 % 0x100
            && v % 0x1_0000 % 0x100 == v % 0x100
  {
    var low, x := v % 0x100, v / 0x100;
    var mid, y := x % 0x100, x / 0x100;
    assert v == 0x1_0000 * y + (0x100 * mid + low);
    assert v / 0x1_0000 == y && v % 0x1_0000 == 0x100 * mid + low;
    var third, top := y % 0x100, y / 0x100;
    assert v == 0x100_0000 * top + (0x1_0000 * third + 0x100 * mid + low);
  }

  lemma Written(t: seq<byte>, from: port, to: port, sequence: nat, ack: nat, flags: byte)
    requires sequence < 0x1_0000_0000 && ack < 0x1_0000_0000 && |t| == 20
    requires t[0..2] == Big16(from) && t[2..4] == Big16(to) && t[4..8] == Big32(sequence) && t[8..12] == Big32(ack)
    requires t[12] == 0x50 && t[13] == flags && t[14] == 16 && forall i :: 15 <= i < 20 ==> t[i] == 0
    ensures t == Wire(from, to, SentHeader(sequence, ack, flags, 0), [])
  {
    hide FlagsOf, Flags.Byte, Big32;
  }

  /**
   tcp_send: a frame whose two checksums verify and that a receiver with the ports the other way round reads as
   this sequence number, this acknowledgement of the next expected byte, these flags and these data.
   */
  method TcpSend(c: Connection, s: Sender, destination: seq<byte>, hop: Hop, flags: byte, data: seq<byte>)
    returns (f: seq<byte>)
    requires c.Valid() && s.Valid() && |destination| == 4 && (hop.Hop? ==> |hop.mac| == 6)
    modifies s`ipId
    ensures s.Valid()
    ensures hop.NoHop? || |data| > 1400 ==> f == [] && s.ipId == old(s.ipId)
    ensures hop.Hop? && |data| <= 1400 ==>
              && |f| == 54 + |data| && f[..6] == hop.mac && Check(f[14..34]) == 0
              && Check(Pseudo(s.ip, destination, 20 + |data|) + f[34..]) == 0
              && forall peer: Endpoint ::
                   peer.remotePort == c.endpoint.localPort && peer.localPort == c.endpoint.remotePort ==>
                     Parse(peer, f[34..], peer.remoteIp) == Accepted(Segment(c.localSeq, c.remoteSeq, flags, data))
  {
    hide Wire, Parse, Check, Pseudo, SentHeader, Put16, Flags.Byte, FlagsOf;
    if hop.NoHop? || |data| > 1400 { return []; }
    var front := s.Ipv4Begin(destination, 6, 20 + |data|, hop.mac);
    var t := WriteHeader(c.endpoint.localPort, c.endpoint.remotePort, c.localSeq, c.remoteSeq, flags);
    t := t + data;
    Blank(c.endpoint.localPort, c.endpoint.remotePort, c.localSeq, c.remoteSeq, flags, data);
    var check := s.TcpChecksum(destination, t);
    ghost var h := SentHeader(c.localSeq, c.remoteSeq, flags, check);
    Filled(c.endpoint.localPort, c.endpoint.remotePort, c.localSeq, c.remoteSeq, flags, data, check);
    t := Put16(t, 16, check);
    f := front + t;
    assert f[14..34] == front[14..] && f[34..] == t && f[..6] == front[..14][..6];
    forall peer: Endpoint | peer.remotePort == c.endpoint.localPort && peer.localPort == c.endpoint.remotePort
      ensures Parse(peer, t, peer.remoteIp) == Accepted(Segment(c.localSeq, c.remoteSeq, flags, data))
    {
      ParseWire(peer, c.endpoint.localPort, c.endpoint.remotePort, h, data, peer.remoteIp);
      MeantSent(c.localSeq, c.remoteSeq, flags, check, data);
    }
  }

  lemma MeantSent(sequence: nat, ack: nat, flags: byte, check: nat, data: seq<byte>)
    requires sequence < 0x1_0000_0000 && ack < 0x1_0000_0000 && check < 0x1_0000
    ensures Meant(SentHeader(sequence, ack, flags, check), data) == Segment(sequence, ack, flags, data)
  {
  }

  lemma Blank(from: port, to: port, sequence: nat, ack: nat, flags: byte, data: seq<byte>)
    requires sequence < 0x1_0000_0000 && ack < 0x1_0000_0000
    ensures var h := SentHeader(sequence, ack, flags, 0);
            && Wire(from, to, h, []) + data == Wire(from, to, h, data)
            && Wire(from, to, h, data)[16] == 0 && Wire(from, to, h, data)[17] == 0
  {
    hide FlagsOf, Flags.Byte, Big32;
    var h := SentHeader(sequence, ack, flags, 0);
    assert Wire(from, to, h, data) == Wire(from, to, h, []) + data;
  }

  lemma Filled(from: port, to: port, sequence: nat, ack: nat, flags: byte, data: seq<byte>, check: nat)
    requires sequence < 0x1_0000_0000 && ack < 0x1_0000_0000 && check < 0x1_0000
    ensures Put16(Wire(from, to, SentHeader(sequence, ack, flags, 0), data), 16, check)
            == Wire(from, to, SentHeader(sequence, ack, flags, check), data)
  {
    hide FlagsOf, Flags.Byte, Big32;
  }

  // ------------------------------------------------------------------- streams

  /** What happens to a connection: a packet comes in, or bytes are read. */
  datatype Happening = Comes(packet: Packet) | Reads(capacity: nat)

  function PacketStep(e: Endpoint, w: World, h: Happening): World {
    match h
    case Comes(p) => World(Arrive(e, w.r, [p]), w.given)
    case Reads(c) => WorldStep(w, Read(c))
  }

  function PacketRun(e: Endpoint, w: World, hs: seq<Happening>): World
    decreases hs
  {
    if hs == [] then w else PacketRun(e, PacketStep(e, w, hs[0]), hs[1..])
  }

  /** The event for the stream theorems; a packet that is ignored is as good as reading nothing. */
  function EventOf(e: Endpoint, h: Happening): Event {
    match h
    case Reads(c) => Read(c)
    case Comes(p) =>
      var m := Parse(e, p.tcp, p.source);
      if m.Accepted? then Deliver(m.segment) else Read(0)
  }

  function Events(e: Endpoint, hs: seq<Happening>): (es: seq<Event>)
    ensures |es| == |hs|
  {
    seq(|hs|, i requires 0 <= i < |hs| => EventOf(e, hs[i]))
  }

  lemma ReadNothing(w: World)
    ensures WorldStep(w, Read(0)) == w
  {
    assert w.given + w.r.queue[..0] == w.given && w.r.queue[0..] == w.r.queue;
  }

  lemma ArriveOne(e: Endpoint, r: Receiver, p: Packet)
    ensures var m := Parse(e, p.tcp, p.source);
            Arrive(e, r, [p]) == if m.Accepted? then ReceiveStep(r, m.segment) else r
  {
    hide ReceiveStep, Parse;
    var m := Parse(e, p.tcp, p.source);
    var r' := if m.Accepted? then ReceiveStep(r, m.segment) else r;
    assert [p][1..] == [];
    assert Arrive(e, r', []) == r';
  }

  lemma SameStep(e: Endpoint, w: World, h: Happening)
    ensures PacketStep(e, w, h) == WorldStep(w, EventOf(e, h))
  {
    hide ReceiveStep, Parse;
    if h.Comes? {
      ArriveOne(e, w.r, h.packet);
      ReadNothing(w);
    }
  }

  lemma {:induction false} SameRun(e: Endpoint, w: World, hs: seq<Happening>)
    ensures PacketRun(e, w, hs) == WorldRun(w, Events(e, hs))
    decreases hs
  {
    hide PacketStep, WorldStep, EventOf;
    if hs != [] {
      SameStep(e, w, hs[0]);
      SameRun(e, PacketStep(e, w, hs[0]), hs[1..]);
      assert Events(e, hs)[1..] == Events(e, hs[1..]);
    }
  }

  /** Nothing for this connection: another address, other ports, or no proper header. */
  predicate Alien(e: Endpoint, p: Packet) {
    || p.source != e.remoteIp || Malformed(p.tcp)
    || (p.tcp[0] as int) * 256 + p.tcp[1] != e.remotePort || (p.tcp[2] as int) * 256 + p.tcp[3] != e.localPort
  }

  lemma AlienIgnored(e: Endpoint, p: Packet)
    requires Alien(e, p)
    ensures Parse(e, p.tcp, p.source) == Ignored
  {
    hide Be32;
  }

  datatype Said = Said(header: Header, payload: seq<byte>)

  /** The packet is the peer's and says just that. */
  predicate Says(e: Endpoint, p: Packet, s: Said) {
    s.header.Good() && p.source == e.remoteIp && p.tcp == Wire(e.remotePort, e.localPort, s.header, s.payload)
  }

  lemma SaysDelivers(e: Endpoint, p: Packet, s: Said)
    requires Says(e, p, s)
    ensures EventOf(e, Comes(p)) == Deliver(Meant(s.header, s.payload))
  {
    hide Parse, Wire;
    ParseWire(e, e.remotePort, e.localPort, s.header, s.payload, p.source);
  }

  /** Data and FIN are from the peer's stream; what else the packet says does not matter. */
  ghost predicate Truthful(p: Peer, s: Said) {
    s.payload != [] || s.header.flags.fin ==> Honest(p, s.header.sequence, s.payload, s.header.flags.fin)
  }

  ghost predicate TruthfulComing(e: Endpoint, p: Peer, h: Happening, s: Said) {
    h.Comes? ==> Alien(e, h.packet) || (Says(e, h.packet, s) && Truthful(p, s))
  }

  lemma HonestComing(e: Endpoint, p: Peer, h: Happening, s: Said)
    requires TruthfulComing(e, p, h, s)
    ensures HonestEvent(p, EventOf(e, h))
  {
    hide Parse, Alien, Says, Honest, Segment.Fin;
    if h.Comes? {
      if Alien(e, h.packet) {
        AlienIgnored(e, h.packet);
      } else {
        SaysDelivers(e, h.packet, s);
        SaidGood(e, h.packet, s);
        FlagBits(s.header, s.payload);
      }
    }
  }

  lemma SaidGood(e: Endpoint, p: Packet, s: Said)
    requires Says(e, p, s)
    ensures s.header.Good()
  {
  }

  /**
   Prefix safety of packets. Whatever packets come in, those of the peer being pieces of its stream laid out as the
   standard says, the bytes handed out and queued are a prefix of the stream and the number expected next is theirs.
   */
  lemma PacketSafety(e: Endpoint, p: Peer, w: World, hs: seq<Happening>, said: seq<Said>)
    requires p.Fits() && Established(p, w) && NeverOverflows(w, Events(e, hs))
    requires |said| == |hs| && forall i :: 0 <= i < |hs| ==> TruthfulComing(e, p, hs[i], said[i])
    ensures var w' := PacketRun(e, w, hs);
            var got := w'.given + w'.r.queue;
            && got <= p.stream
            && (w'.r.state == 4 ==> got == p.stream && w'.r.remoteSeq == Plus(p.base, |got| + 1))
            && (w'.r.state != 4 && w'.r.state != -2 ==> w'.r.remoteSeq == Plus(p.base, |got|))
  {
    hide PacketRun, WorldRun, EventOf, Established, NeverOverflows, HonestEvent, TruthfulComing, Plus;
    SameRun(e, w, hs);
    forall i | 0 <= i < |hs| ensures HonestEvent(p, Events(e, hs)[i]) { HonestComing(e, p, hs[i], said[i]); }
    PrefixSafety(p, w, Events(e, hs));
  }

  /** The packet says piece `i` of the cut: its position, its bytes, and FIN exactly on the last. */
  ghost predicate SaysPiece(c: Cut, s: Said, i: nat) {
    && i < |c.pieces| && !s.header.flags.rst && s.payload == c.pieces[i]
    && s.header.sequence == Plus(c.base, Start(c, i)) && (s.header.flags.fin <==> i == |c.pieces| - 1)
  }

  ghost predicate Brings(e: Endpoint, c: Cut, h: Happening, s: Said, i: nat) {
    h.Comes? && Says(e, h.packet, s) && SaysPiece(c, s, i)
  }

  /** Piece `k` is among what comes. */
  ghost predicate Brought(e: Endpoint, c: Cut, hs: seq<Happening>, said: seq<Said>, at: seq<nat>, k: nat)
    requires |said| == |at| == |hs|
  {
    exists i :: 0 <= i < |hs| && at[i] == k && Brings(e, c, hs[i], said[i], k)
  }

  lemma PieceComing(e: Endpoint, c: Cut, h: Happening, s: Said, i: nat)
    requires Brings(e, c, h, s, i)
    ensures EventOf(e, h).Deliver? && IsPiece(c, EventOf(e, h).segment, i)
  {
    hide Parse, Plus, Start, Says, Segment.Fin, Segment.Rst;
    SaysDelivers(e, h.packet, s);
    SaidGood(e, h.packet, s);
    FlagBits(s.header, s.payload);
  }

  /**
   Complete delivery of packets. A stream cut into at most nine packets arrives whole, in whatever order and however
   often its packets come, with alien packets and reads in between.
   */
  lemma PacketsDelivered(e: Endpoint, c: Cut, w: World, hs: seq<Happening>, said: seq<Said>, at: seq<nat>)
    requires c.Good() && Established(Peer(c.base, Joined(c.pieces)), w) && |w.r.slots| == SLOTS
    requires |said| == |at| == |hs|
    requires forall i :: 0 <= i < |hs| && hs[i].Comes? ==> Alien(e, hs[i].packet) || Brings(e, c, hs[i], said[i], at[i])
    requires forall k :: 0 <= k < |c.pieces| ==> Brought(e, c, hs, said, at, k)
    ensures var w' := PacketRun(e, w, hs);
            && w'.given + w'.r.queue == Joined(c.pieces)
            && w'.r.slots == seq(SLOTS, _ => Empty)
            && w'.r.state == 4
  {
    hide PacketRun, WorldRun, EventOf, Established, Brings, IsPiece, Alien, Joined, Cut.Good;
    SameRun(e, w, hs);
    var es := Events(e, hs);
    forall i | 0 <= i < |hs| && es[i].Deliver? ensures IsPiece(c, es[i].segment, at[i]) {
      EventComing(e, c, hs[i], said[i], at[i]);
    }
    forall k | 0 <= k < |c.pieces| ensures k in ArrivedIn(es, at) {
      assert Brought(e, c, hs, said, at, k);
      var i :| 0 <= i < |hs| && at[i] == k && Brings(e, c, hs[i], said[i], k);
      PieceComing(e, c, hs[i], said[i], k);
      assert es[i].Deliver? && at[i] == k;
    }
    CompleteDelivery(c, w, es, at);
  }

  lemma EventComing(e: Endpoint, c: Cut, h: Happening, s: Said, i: nat)
    requires EventOf(e, h).Deliver? && (h.Comes? ==> Alien(e, h.packet) || Brings(e, c, h, s, i))
    ensures IsPiece(c, EventOf(e, h).segment, i)
  {
    hide Parse, Alien, Brings, IsPiece;
    if Alien(e, h.packet) { AlienIgnored(e, h.packet); } else { PieceComing(e, c, h, s, i); }
  }

  // ------------------------------------------------------------------- control

  /** What a packet of the peer does beside its data, flag by flag. */
  lemma PacketControl(e: Endpoint, r: Receiver, p: Packet, s: Said)
    requires Says(e, p, s)
    ensures var r', f := Arrive(e, r, [p]), s.header.flags;
            && (f.rst ==> r' == r.(state := -2))
            && (!f.rst ==> r'.lastAck == if f.ack then s.header.ack else r.lastAck)
            && (!f.rst && f.syn && f.ack && r.state == 1 ==>
                  r' == r.(remoteSeq := (s.header.sequence + 1) % 0x1_0000_0000, localSeq := s.header.ack,
                           lastAck := s.header.ack, state := 2))
            && (!f.rst && !(f.syn && f.ack && r.state == 1) ==>
                  r'.localSeq == r.localSeq && (r'.state == r.state || r'.state == 4))
  {
    hide Parse, Wire, Drain, Segment.Rst, Segment.Syn, Segment.Ack, Segment.Fin, StoreFragment, Ahead;
    var g := Meant(s.header, s.payload);
    ParseWire(e, e.remotePort, e.localPort, s.header, s.payload, p.source);
    FlagBits(s.header, s.payload);
    ArriveOne(e, r, p);
    var r1 := if g.Ack() then r.(lastAck := g.ack) else r;
    DrainControl(Closed(Append(r1, g.payload), g.Fin()));
  }

  lemma {:induction false} DrainControl(r: Receiver)
    ensures Drain(r).localSeq == r.localSeq && Drain(r).lastAck == r.lastAck
    ensures Drain(r).state == r.state || Drain(r).state == 4
    decreases Occupied(r.slots)
  {
    var i := FirstHeld(r.slots, r.remoteSeq, 0);
    if i < |r.slots| {
      ClearOccupied(r.slots, i);
      DrainControl(Consume(r, i));
    }
  }

  /** A piece that comes early is kept exactly when it has at most 1460 bytes, is not kept yet and a slot is empty. */
  lemma HeldIff(slots: seq<Slot>, s: nat, data: seq<byte>, fin: bool)
    ensures var isNew := forall j :: 0 <= j < |slots| ==> !(slots[j].Held? && slots[j].sequence == s);
            var room := exists j :: 0 <= j < |slots| && slots[j] == Empty;
            var slots' := StoreFragment(slots, s, data, fin);
            if |data| <= 1460 && isNew && room
            then exists j :: 0 <= j < |slots| && slots[j] == Empty && slots' == slots[j := Held(s, data, fin)]
            else slots' == slots
  {
    var i := FirstEmpty(slots, 0);
    if i < |slots| { assert slots[i] == Empty; }
  }

  // ------------------------------------------------------------------- polling

  /** All packets of some turns of polling, in order. */
  function AllPackets(polls: seq<Poll>): seq<Packet>
    requires forall i :: 0 <= i < |polls| ==> polls[i].Arrivals?
  {
    if polls == [] then [] else polls[0].packets + AllPackets(polls[1..])
  }

  lemma {:induction false} ArriveConcat(e: Endpoint, r: Receiver, a: seq<Packet>, b: seq<Packet>)
    ensures Arrive(e, r, a + b) == Arrive(e, Arrive(e, r, a), b)
    decreases a
  {
    hide Parse, ReceiveStep;
    if a == [] {
      assert a + b == b;
    } else {
      assert (a + b)[1..] == a[1..] + b;
      var m := Parse(e, a[0].tcp, a[0].source);
      ArriveConcat(e, if m.Accepted? then ReceiveStep(r, m.segment) else r, a[1..], b);
    }
  }

  /** Nothing to read yet, and the connection still up. */
  predicate Waits(r: Receiver) { r.queue == [] && r.state >= 2 }

  /**
   network_tcp_receive polls exactly as long as there is nothing to read: if it waits before each of the first `n` turns
   and not after them, or has no more turns, it has taken in just the packets of these.
   */
  lemma {:induction false} PolledIs(e: Endpoint, r: Receiver, polls: seq<Poll>, n: nat)
    requires n <= |polls| && forall i :: 0 <= i < n ==> polls[i].Arrivals?
    requires forall i :: 0 <= i < n ==> Waits(Arrive(e, r, AllPackets(polls[..i])))
    requires n == |polls| || !Waits(Arrive(e, r, AllPackets(polls[..n])))
    ensures Polled(e, r, polls) == (Arrive(e, r, AllPackets(polls[..n])), false)
    decreases n
  {
    hide Arrive;
    if n == 0 {
      NoneArrive(e, r);
    } else {
      var r1, rest := Arrive(e, r, polls[0].packets), polls[1..];
      NoneArrive(e, r);
      assert polls[..0] == [];
      assert Waits(Arrive(e, r, AllPackets(polls[..0])));
      forall i | 0 <= i < n ensures Arrive(e, r1, AllPackets(rest[..i])) == Arrive(e, r, AllPackets(polls[..i + 1])) {
        assert polls[..i + 1][1..] == rest[..i];
        ArriveConcat(e, r, polls[0].packets, AllPackets(rest[..i]));
      }
      PolledIs(e, r1, rest, n - 1);
    }
  }

  lemma NoneArrive(e: Endpoint, r: Receiver)
    ensures Arrive(e, r, []) == r
  {
  }

  /** A request to cancel ends the polling at once, with what came before it taken in. */
  lemma {:induction false} CancelledIs(e: Endpoint, r: Receiver, polls: seq<Poll>, n: nat)
    requires n < |polls| && polls[n].Cancel? && forall i :: 0 <= i < n ==> polls[i].Arrivals?
    requires forall i :: 0 <= i <= n ==> Waits(Arrive(e, r, AllPackets(polls[..i])))
    ensures Polled(e, r, polls) == (Arrive(e, r, AllPackets(polls[..n])), true)
    decreases n
  {
    hide Arrive;
    NoneArrive(e, r);
    assert polls[..0] == [];
    assert Waits(Arrive(e, r, AllPackets(polls[..0])));
    if n > 0 {
      var r1, rest := Arrive(e, r, polls[0].packets), polls[1..];
      forall i | 0 <= i < n ensures Arrive(e, r1, AllPackets(rest[..i])) == Arrive(e, r, AllPackets(polls[..i + 1])) {
        assert polls[..i + 1][1..] == rest[..i];
        ArriveConcat(e, r, polls[0].packets, AllPackets(rest[..i]));
      }
      CancelledIs(e, r1, rest, n - 1);
    }
  }
}
