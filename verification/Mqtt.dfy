/** MQTT 3.1.1 packets: the parser, the writers, and the receive loop over a stream. */
module Mqtt {
  import opened Options
  import opened Bytes

  const U16 := 0x1_0000
  const U32 := 0x1_0000_0000

  const CONNECT := 1
  const CONNACK := 2
  const PUBLISH := 3
  const SUBSCRIBE := 8
  const SUBACK := 9

  /** Connect flags. */
  const HAS_WILL := 0x04
  const HAS_PASSWORD := 0x40
  const HAS_USER_NAME := 0x80

  predicate Has(flags: byte, bit: nat)
    requires bit > 0
  {
    flags as int / bit % 2 == 1
  }

  /** The part of `mg_mqtt_message` each command fills in. */
  datatype Packet =
    | Connect(name: seq<byte>, version: byte, flags: byte, keepAlive: nat, clientId: seq<byte>,
              willTopic: Option<seq<byte>>, willMessage: Option<seq<byte>>,
              userName: Option<seq<byte>>, password: Option<seq<byte>>)
    | ConnAck(code: byte)
    | Ack(id: nat)
    | Publish(topic: seq<byte>, publishId: Option<nat>, payload: seq<byte>)
    | Subscribe(subscribeId: nat, topics: seq<byte>)
    | Other

  datatype Message = Message(cmd: nat, qos: nat, packet: Packet)

  datatype Result = Ok(message: Message, len: nat) | Incomplete | Malformed

  // ---------------------------------------------------------------------------
  // parse_mqtt

  function Power128(k: nat): nat {
    if k == 0 then 1 else 128 * Power128(k - 1)
  }

  datatype Length = Length(n: nat, end: nat) | More | TooLong

  /** "decode mqtt variable length", in 32 bits and at most 5 bytes. */
  function DecodeLength(io: seq<byte>, p: nat, k: nat, acc: nat): (r: Length)
    requires k <= 4
    ensures r.Length? ==> p < r.end <= |io|
    decreases 4 - k
  {
    if p >= |io| then More
    else
      var acc' := (acc + io[p] as int % 128 * Power128(k)) % U32;
      if io[p] < 128 then Length(acc', p + 1)
      else if k + 1 > 4 then TooLong
      else DecodeLength(io, p + 1, k + 1, acc')
  }

  /** `scanto` inside a packet body: a string and where it ends.  A string that is not all
      there makes every packet malformed. */
  function Scan(d: seq<byte>, p: nat): (r: Option<(seq<byte>, nat)>)
    ensures r.Some? ==> p + 2 <= r.value.1 <= |d|
  {
    if p + 2 > |d| || p + 2 + ReadBE16(d[p..]) > |d| then None
    else Some((d[p + 2..p + 2 + ReadBE16(d[p..])], p + 2 + ReadBE16(d[p..])))
  }

  /** A string that is there if a flag says so. */
  function ScanIf(cond: bool, d: seq<byte>, p: nat): (r: Option<(Option<seq<byte>>, nat)>)
    requires p <= |d|
    ensures r.Some? ==> p <= r.value.1 <= |d|
  {
    if !cond then Some((None, p))
    else
      match Scan(d, p)
      case None => None
      case Some(x) => Some((Some(x.0), x.1))
  }

  function ParseConnect(d: seq<byte>): Option<Packet> {
    match Scan(d, 0)
    case None => None
    case Some(name) =>
      if name.1 + 4 > |d| then None
      else
        var flags := d[name.1 + 1];
        match Scan(d, name.1 + 4)
        case None => None
        case Some(id) =>
          ParseConnectTail(d, id.1,
            Connect(name.0, d[name.1], flags, ReadBE16(d[name.1 + 2..]), id.0, None, None, None, None))
  }

  /** The strings behind the client identifier. */
  function ParseConnectTail(d: seq<byte>, p: nat, c: Packet): Option<Packet>
    requires c.Connect? && p <= |d|
  {
    match ScanIf(Has(c.flags, HAS_WILL), d, p)
    case None => None
    case Some(topic) =>
      match ScanIf(Has(c.flags, HAS_WILL), d, topic.1)
      case None => None
      case Some(message) =>
        match ScanIf(Has(c.flags, HAS_USER_NAME), d, message.1)
        case None => None
        case Some(user) =>
          match ScanIf(Has(c.flags, HAS_PASSWORD), d, user.1)
          case None => None
          case Some(password) =>
            if password.1 != |d| then None
            else Some(c.(willTopic := topic.0, willMessage := message.0, userName := user.0, password := password.0))
  }

  function ParsePublish(qos: nat, d: seq<byte>): Option<Packet> {
    match Scan(d, 0)
    case None => None
    case Some(topic) =>
      if qos == 0 then Some(Publish(topic.0, None, d[topic.1..]))
      else if topic.1 + 2 > |d| then None
      else Some(Publish(topic.0, Some(ReadBE16(d[topic.1..])), d[topic.1 + 2..]))
  }

  function Qos(header: byte): nat {
    header as int / 2 % 4
  }

  /** The switch over the commands. */
  function ParseBody(header: byte, d: seq<byte>): Option<Packet> {
    var cmd := header as int / 16;
    if cmd == CONNECT then ParseConnect(d)
    else if cmd == CONNACK then if |d| < 2 then None else Some(ConnAck(d[1]))
    else if 4 <= cmd <= 7 || cmd == SUBACK then if |d| < 2 then None else Some(Ack(ReadBE16(d)))
    else if cmd == PUBLISH then ParsePublish(Qos(header), d)
    else if cmd == SUBSCRIBE then if |d| < 2 then None else Some(Subscribe(ReadBE16(d), d[2..]))
    else Some(Other)
  }

  function Parse(io: seq<byte>): (r: Result)
    ensures r.Ok? ==> 2 <= r.len <= |io|
  {
    if |io| < 2 then Incomplete
    else
      match DecodeLength(io, 1, 0, 0)
      case More => Incomplete
      case TooLong => Malformed
      case Length(n, end) =>
        if end + n > |io| then Incomplete
        else
          match ParseBody(io[0], io[end..end + n])
          case None => Malformed
          case Some(packet) => Ok(Message(io[0] as int / 16, Qos(io[0]), packet), end + n)
  }

  method DecodeLengthLoop(io: seq<byte>) returns (len: nat, p: nat, tooLong: bool, more: bool)
    requires |io| >= 2
    ensures DecodeLength(io, 1, 0, 0) == if tooLong then TooLong else if more then More else Length(len, p)
  {
    len, p, tooLong, more := 0, 1, false, true;
    var lenLen, scale := 0, 1;
    while p < |io|
      invariant 1 <= p <= |io| && lenLen <= 4 && more && scale == Power128(lenLen) && len < U32
      invariant DecodeLength(io, 1, 0, 0) == DecodeLength(io, p, lenLen, len)
      decreases |io| - p
    {
      var lc := io[p];
      p := p + 1;
      len := (len + lc as int % 128 * scale) % U32;
      lenLen, scale := lenLen + 1, scale * 128;
      if lc < 128 {
        more := false;
        break;
      }
      if lenLen > 4 {
        tooLong := true;
        break;
      }
    }
  }

  /** `parse_mqtt`. */
  method ParseMqtt(io: seq<byte>) returns (r: Result)
    ensures r == Parse(io)
  {
    hide ParseBody;
    if |io| < 2 {
      return Incomplete;
    }
    var len, p, tooLong, more := DecodeLengthLoop(io);
    if tooLong {
      return Malformed;
    }
    if more || p + len > |io| {
      return Incomplete;
    }
    var packet := ParseBody(io[0], io[p..p + len]);
    if packet.None? {
      return Malformed;
    }
    r := Ok(Message(io[0] as int / 16, Qos(io[0]), packet.value), p + len);
  }

  // ---------------------------------------------------------------------------
  // One packet among others

  /** Bytes that are one whole packet. */
  predicate IsPacket(w: seq<byte>) {
    Parse(w).Ok? && Parse(w).len == |w|
  }

  lemma {:induction false} LengthStays(a: seq<byte>, t: seq<byte>, p: nat, k: nat, acc: nat)
    requires k <= 4 && DecodeLength(a, p, k, acc).Length?
    ensures DecodeLength(a + t, p, k, acc) == DecodeLength(a, p, k, acc)
    decreases 4 - k
  {
    if a[p] >= 128 {
      LengthStays(a, t, p + 1, k + 1, (acc + a[p] as int % 128 * Power128(k)) % U32);
    }
  }

  lemma {:induction false} LengthOfPrefix(w: seq<byte>, n: nat, p: nat, k: nat, acc: nat)
    requires k <= 4 && n <= |w| && DecodeLength(w, p, k, acc).Length?
    ensures DecodeLength(w[..n], p, k, acc) == if DecodeLength(w, p, k, acc).end <= n then DecodeLength(w, p, k, acc)
      else More
    decreases 4 - k
  {
    if p < n && w[p] >= 128 {
      LengthOfPrefix(w, n, p + 1, k + 1, (acc + w[p] as int % 128 * Power128(k)) % U32);
    }
  }

  /** What is behind a packet does not matter. */
  lemma PacketFirst(w: seq<byte>, tail: seq<byte>)
    requires IsPacket(w)
    ensures Parse(w + tail) == Parse(w)
  {
    hide ParseBody;
    LengthStays(w, tail, 1, 0, 0);
    var x := DecodeLength(w, 1, 0, 0);
    assert (w + tail)[x.end..x.end + x.n] == w[x.end..x.end + x.n];
  }

  /** Every strict prefix of a packet is incomplete. */
  lemma PrefixIncomplete(w: seq<byte>, n: nat)
    requires IsPacket(w) && n < |w|
    ensures Parse(w[..n]) == Incomplete
  {
    hide ParseBody;
    LengthOfPrefix(w, n, 1, 0, 0);
  }

  // ---------------------------------------------------------------------------
  // The receive loop

  datatype Connection = Connection(recv: seq<byte>, delivered: seq<Message>, closed: bool)

  const Fresh := Connection([], [], false)

  /** The loop of `mqtt_handler`; `limit` is `recv_mbuf_limit`, 0 for none. */
  function Drain(c: Connection, limit: nat): Connection
    decreases |c.recv|
  {
    match Parse(c.recv)
    case Ok(m, len) => Drain(c.(recv := c.recv[len..], delivered := c.delivered + [m]), limit)
    case Malformed => c.(closed := true)
    case Incomplete => if limit > 0 && |c.recv| >= limit then c.(closed := true) else c
  }

  function Receive(c: Connection, chunk: seq<byte>, limit: nat): Connection {
    Drain(c.(recv := c.recv + chunk), limit)
  }

  function Feed(c: Connection, chunks: seq<seq<byte>>, limit: nat): Connection
    decreases |chunks|
  {
    if chunks == [] then c else Feed(Receive(c, chunks[0], limit), chunks[1..], limit)
  }

  method OnReceive(c: Connection, chunk: seq<byte>, limit: nat) returns (c': Connection)
    ensures c' == Receive(c, chunk, limit)
  {
    hide Parse;
    c' := c.(recv := c.recv + chunk);
    var done := false;
    while !done
      invariant if done then c' == Receive(c, chunk, limit) else Drain(c', limit) == Receive(c, chunk, limit)
      decreases |c'.recv|, !done
    {
      var r := ParseMqtt(c'.recv);
      match r {
        case Ok(m, len) => c' := c'.(recv := c'.recv[len..], delivered := c'.delivered + [m]);
        case Malformed =>
          c' := c'.(closed := true);
          done := true;
        case Incomplete =>
          if limit > 0 && |c'.recv| >= limit {
            c' := c'.(closed := true);
          }
          done := true;
      }
    }
  }

  /** A stream of packets, each within the limit. */
  predicate Packets(ws: seq<seq<byte>>, limit: nat) {
    forall i :: 0 <= i < |ws| ==> IsPacket(ws[i]) && (limit > 0 ==> |ws[i]| <= limit)
  }

  function MessagesOf(ws: seq<seq<byte>>): seq<Message>
    requires Packets(ws, 0)
  {
    if ws == [] then [] else [Parse(ws[0]).message] + MessagesOf(ws[1..])
  }

  /** The loop delivers the packets that are complete; delivered and outstanding messages
      together stay the same. */
  lemma {:induction false} DrainPackets(c: Connection, ws: seq<seq<byte>>, later: seq<byte>, limit: nat)
      returns (ws': seq<seq<byte>>)
    requires Packets(ws, limit) && c.recv + later == Concat(ws) && !c.closed
    ensures Packets(ws', limit) && !Drain(c, limit).closed
    ensures Drain(c, limit).recv + later == Concat(ws')
    ensures Drain(c, limit).delivered + MessagesOf(ws') == c.delivered + MessagesOf(ws)
    ensures if ws' == [] then Drain(c, limit).recv == [] else |Drain(c, limit).recv| < |ws'[0]|
    decreases |ws|
  {
    hide Parse, IsPacket, Concat;
    if ws == [] {
      NoPieces();
      assert c.recv == [];
      NothingThere();
      ws' := ws;
    } else {
      FrontPacket(c.recv, later, ws);
      if |c.recv| < |ws[0]| {
        PrefixIncomplete(ws[0], |c.recv|);
        ws' := ws;
      } else {
        var tail := c.recv[|ws[0]|..];
        PacketFirst(ws[0], tail);
        WholePacket(ws[0]);
        var next := c.(recv := tail, delivered := c.delivered + [Parse(ws[0]).message]);
        ws' := DrainPackets(next, ws[1..], later, limit);
        assert c.delivered + ([Parse(ws[0]).message] + MessagesOf(ws[1..])) == next.delivered + MessagesOf(ws[1..]);
      }
    }
  }

  lemma NoPieces()
    ensures Concat([]) == []
  {
  }

  lemma NothingThere()
    ensures Parse([]) == Incomplete
  {
  }

  lemma WholePacket(w: seq<byte>)
    requires IsPacket(w)
    ensures Parse(w).Ok? && Parse(w).len == |w| > 0
  {
  }

  lemma FrontPacket(recv: seq<byte>, later: seq<byte>, ws: seq<seq<byte>>)
    requires ws != [] && recv + later == Concat(ws)
    ensures |recv| < |ws[0]| ==> recv == ws[0][..|recv|]
    ensures |recv| >= |ws[0]| ==> recv == ws[0] + recv[|ws[0]|..] && recv[|ws[0]|..] + later == Concat(ws[1..])
  {
    var w, rest := ws[0], Concat(ws[1..]);
    assert recv + later == w + rest;
    if |recv| < |w| {
      assert recv == (recv + later)[..|recv|] == (w + rest)[..|recv|];
    } else {
      assert recv[..|w|] == (recv + later)[..|w|] == (w + rest)[..|w|] == w;
      assert recv[|w|..] + later == (recv + later)[|w|..] == (w + rest)[|w|..] == rest;
    }
  }

  lemma {:induction false} FeedPackets(c: Connection, ws: seq<seq<byte>>, chunks: seq<seq<byte>>, limit: nat)
    requires Packets(ws, limit) && c.recv + Concat(chunks) == Concat(ws) && !c.closed
    requires if ws == [] then c.recv == [] else |c.recv| < |ws[0]|
    ensures Feed(c, chunks, limit) == Connection([], c.delivered + MessagesOf(ws), false)
    decreases |chunks|
  {
    hide Parse, IsPacket, Drain;
    assert ws != [] ==> |Concat(ws)| >= |ws[0]|;
    if chunks == [] {
      assert c.recv + [] == c.recv && c.delivered + [] == c.delivered;
    } else {
      var later := Concat(chunks[1..]);
      var arrived := c.(recv := c.recv + chunks[0]);
      assert c.recv + (chunks[0] + later) == (c.recv + chunks[0]) + later;
      var ws' := DrainPackets(arrived, ws, later, limit);
      FeedPackets(Drain(arrived, limit), ws', chunks[1..], limit);
    }
  }

  /** Packets cut into deliveries anywhere are delivered once each, in order, and nothing is
      left; packets no longer than the receive limit never close the connection. */
  lemma StreamDelivered(ws: seq<seq<byte>>, chunks: seq<seq<byte>>, limit: nat)
    requires Packets(ws, limit) && Concat(chunks) == Concat(ws)
    ensures Feed(Fresh, chunks, limit) == Connection([], MessagesOf(ws), false)
  {
    hide Parse, IsPacket;
    assert [] + Concat(chunks) == Concat(chunks);
    if ws != [] {
      WholePacket(ws[0]);
    }
    FeedPackets(Fresh, ws, chunks, limit);
    assert [] + MessagesOf(ws) == MessagesOf(ws);
  }
}
