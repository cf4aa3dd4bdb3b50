/** Writing CONNECT, PUBLISH and SUBSCRIBE packets, and reading them back. */
module MqttWriters {
  import opened Options
  import opened Bytes
  import opened Mqtt

  /** The longest packet MQTT 3.1.1 section 2.2.3 knows. */
  const MAX_REMAINING := 0x1000_0000

  // ---------------------------------------------------------------------------
  // The fixed header

  function VarLen(n: nat): (r: seq<byte>)
    ensures r != []
  {
    if n < 128 then [n] else [n % 128 + 128] + VarLen(n / 128)
  }

  function HeaderBytes(cmd: nat, flags: nat, len: nat): seq<byte>
    requires cmd < 16 && flags < 16
  {
    [cmd * 16 + flags] + VarLen(len)
  }

  /** `mg_send_mqtt_header`, into the send buffer. */
  method SendHeader(send: seq<byte>, cmd: nat, flags: nat, length: nat) returns (send': seq<byte>)
    requires cmd < 16 && flags < 16
    ensures send' == send + HeaderBytes(cmd, flags, length)
  {
    var buf: seq<byte> := [cmd * 16 + flags];
    var len := length;
    var more := true;
    assert HeaderBytes(cmd, flags, length) == buf + VarLen(length);
    while more
      invariant HeaderBytes(cmd, flags, length) == if more then buf + VarLen(len) else buf
      decreases len, more
    {
      var v: byte := len % 0x80;
      ghost var was := len;
      len := len / 0x80;
      if len > 0 {
        v := v + 0x80;
        assert buf + ([v] + VarLen(len)) == (buf + [v]) + VarLen(len);
      }
      buf := buf + [v];
      more := len > 0;
    }
    send' := send + buf;
  }

  lemma {:induction false} VarLenSize(n: nat, k: nat)
    requires k > 0
    ensures |VarLen(n)| <= k <==> n < Power128(k)
  {
    if n >= 128 && k > 1 {
      VarLenSize(n / 128, k - 1);
    } else if n >= 128 {
      assert Power128(1) == 128 * Power128(0);
    } else {
      PowerGrows(k);
    }
  }

  lemma {:induction false} PowerGrows(k: nat)
    requires k > 0
    ensures Power128(k) >= 128
  {
    if k > 1 {
      PowerGrows(k - 1);
    }
  }

  lemma DecodeStep(io: seq<byte>, p: nat, k: nat, acc: nat, digit: nat, more: bool)
    requires p < |io| && k <= 4 && digit < 128 && io[p] as int == digit + (if more then 128 else 0)
    requires acc + digit * Power128(k) < U32
    ensures !more ==> DecodeLength(io, p, k, acc) == Length(acc + digit * Power128(k), p + 1)
    ensures more && k < 4 ==> DecodeLength(io, p, k, acc) == DecodeLength(io, p + 1, k + 1, acc + digit * Power128(k))
  {
    hide DecodeLength, Power128;
    var w := Power128(k);
    assert io[p] as int % 128 == digit;
    assert io[p] as int % 128 * w == digit * w;
    DecodeUnfold(io, p, k, acc);
  }

  lemma DecodeUnfold(io: seq<byte>, p: nat, k: nat, acc: nat)
    requires p < |io| && k <= 4 && 0 <= acc + io[p] as int % 128 * Power128(k) < U32
    ensures
      var acc': nat := acc + io[p] as int % 128 * Power128(k);
      DecodeLength(io, p, k, acc) == if io[p] < 128 then Length(acc', p + 1)
                                     else if k + 1 > 4 then TooLong
                                     else DecodeLength(io, p + 1, k + 1, acc')
  {
    hide Power128;
    Small(acc + io[p] as int % 128 * Power128(k));
  }

  lemma Small(x: int)
    requires 0 <= x < U32
    ensures x % U32 == x
  {
  }

  /** The length is read back, as long as it has at most 32 bits and 5 bytes. */
  lemma {:induction false} LengthReadBack(io: seq<byte>, p: nat, n: nat, k: nat, acc: nat)
    requires At(io, p, VarLen(n)) && k + |VarLen(n)| <= 5 && acc + n * Power128(k) < U32
    ensures DecodeLength(io, p, k, acc) == Length(acc + n * Power128(k), p + |VarLen(n)|)
    decreases n
  {
    hide DecodeLength, At, Power128;
    if n < 128 {
      AtByte(io, p, n);
      DecodeStep(io, p, k, acc, n, false);
    } else {
      var low, high, w := n % 128, n / 128, Power128(k);
      AtSplit(io, p, [low + 128], VarLen(high));
      AtByte(io, p, low + 128);
      Scale(n, w);
      NextPower(k);
      DecodeStep(io, p, k, acc, low, true);
      LengthReadBack(io, p + 1, high, k + 1, acc + low * w);
    }
  }

  lemma NextPower(k: nat)
    ensures Power128(k + 1) == 128 * Power128(k)
  {
  }

  lemma Scale(n: nat, w: nat)
    ensures n * w == n % 128 * w + n / 128 * (128 * w)
    ensures 0 <= n % 128 * w && 0 <= n / 128 * (128 * w)
  {
    var low, high := n % 128, n / 128;
    assert n == high * 128 + low;
    assert (high * 128 + low) * w == low * w + high * (128 * w);
  }

  lemma ParseParts(io: seq<byte>, n: nat, end: nat)
    requires |io| >= 2 && DecodeLength(io, 1, 0, 0) == Length(n, end) && end + n == |io|
    ensures
      var b := ParseBody(io[0], io[end..]);
      Parse(io) == if b.Some? then Ok(Message(io[0] as int / 16, Qos(io[0]), b.value), |io|) else Malformed
  {
    hide ParseBody, DecodeLength;
    assert io[end..end + n] == io[end..];
  }

  /** A header and a body of the size it announces are a packet when the body is well formed. */
  lemma PacketOf(cmd: nat, flags: nat, body: seq<byte>)
    requires cmd < 16 && flags < 16 && |body| < MAX_REMAINING
    ensures
      var io := HeaderBytes(cmd, flags, |body|) + body;
      var b := ParseBody(cmd * 16 + flags, body);
      Parse(io) == if b.Some? then Ok(Message(cmd, flags / 2 % 4, b.value), |io|) else Malformed
  {
    hide ParseBody, VarLen, Parse, DecodeLength;
    var n := |body|;
    var io, v, header := HeaderBytes(cmd, flags, n) + body, VarLen(n), cmd * 16 + flags;
    assert io == [header] + (v + body);
    assert io[1..1 + |v|] == v && io[1 + |v|..] == body && io[0] == header;
    assert Power128(2) == 16384 && Power128(4) == MAX_REMAINING;
    VarLenSize(n, 4);
    assert n * Power128(0) == n;
    LengthReadBack(io, 1, n, 0, 0);
    ParseParts(io, n, 1 + |v|);
    HeaderBits(cmd, flags);
  }

  lemma HeaderBits(cmd: nat, flags: nat)
    requires cmd < 16 && flags < 16
    ensures (cmd * 16 + flags) / 16 == cmd && Qos(cmd * 16 + flags) == flags / 2 % 4
  {
    assert (cmd * 16 + flags) / 2 == 4 * (2 * cmd) + flags / 2;
    LowBits(2 * cmd, flags / 2);
  }

  lemma LowBits(q: nat, a: nat)
    ensures (4 * q + a) % 4 == a % 4
  {
  }

  // ---------------------------------------------------------------------------
  // Strings

  /** What is sent of a string: its length is kept in 16 bits. */
  function Cut(s: seq<byte>): seq<byte> {
    s[..|s| % U16]
  }

  predicate Fits(s: seq<byte>) {
    |s| < U16
  }

  lemma CutFits(s: seq<byte>)
    ensures Cut(s) == s <==> Fits(s)
  {
  }

  function Str(s: seq<byte>): (r: seq<byte>)
    ensures |r| == 2 + |Cut(s)|
  {
    BE16(|Cut(s)|) + Cut(s)
  }

  function StrIf(s: Option<seq<byte>>): seq<byte> {
    if s.None? then [] else Str(s.value)
  }

  function CutIf(s: Option<seq<byte>>): Option<seq<byte>> {
    if s.None? then None else Some(Cut(s.value))
  }

  lemma StrReadBack(d: seq<byte>, p: nat, s: seq<byte>)
    requires At(d, p, Str(s))
    ensures Scan(d, p) == Some((Cut(s), p + |Str(s)|))
  {
    AtSplit(d, p, BE16(|Cut(s)|), Cut(s));
    ReadWrite16(|Cut(s)|);
    var b := BE16(|Cut(s)|);
    assert d[p] == d[p..p + 2][0] == b[0] && d[p + 1] == d[p..p + 2][1] == b[1];
    assert d[p..][0] == d[p] && d[p..][1] == d[p + 1];
  }

  lemma StrIfReadBack(d: seq<byte>, p: nat, s: Option<seq<byte>>)
    requires At(d, p, StrIf(s))
    ensures p <= |d| && ScanIf(s.Some?, d, p) == Some((CutIf(s), p + |StrIf(s)|))
  {
    if s.Some? {
      StrReadBack(d, p, s.value);
    }
  }

  // ---------------------------------------------------------------------------
  // CONNECT

  /** What `mg_send_mqtt_handshake_opt` is given. */
  datatype Handshake = Handshake(clientId: seq<byte>, flags: byte, keepAlive: nat,
                                 will: Option<(seq<byte>, seq<byte>)>, userName: Option<seq<byte>>,
                                   password: Option<seq<byte>>)

  function With(flags: byte, bit: nat, set_: bool): byte
    requires bit == HAS_WILL || bit == HAS_PASSWORD || bit == HAS_USER_NAME
  {
    if set_ && !Has(flags, bit) then flags + bit else flags
  }

  /** A name or password flag comes with its string; the code would crash without. */
  predicate Complete(h: Handshake) {
    && h.keepAlive < U16
    && (Has(h.flags, HAS_USER_NAME) ==> h.userName.Some?) && (Has(h.flags, HAS_PASSWORD) ==> h.password.Some?)
  }

  function ConnectFlags(h: Handshake): byte {
    With(With(With(h.flags, HAS_USER_NAME, h.userName.Some?), HAS_PASSWORD, h.password.Some?), HAS_WILL, h.will.Some?)
  }

  /** A will flag without a will sends two empty strings. */
  function WillOf(h: Handshake): Option<(seq<byte>, seq<byte>)> {
    if h.will.Some? then h.will else if Has(h.flags, HAS_WILL) then Some(([], [])) else None
  }

  function Topic(w: Option<(seq<byte>, seq<byte>)>): Option<seq<byte>> {
    if w.Some? then Some(w.value.0) else None
  }

  function Text(w: Option<(seq<byte>, seq<byte>)>): Option<seq<byte>> {
    if w.Some? then Some(w.value.1) else None
  }

  const MQTT: seq<byte> := [77, 81, 84, 84]

  /** Keep-alive 0 stands for 60 seconds. */
  function KeepAlive(h: Handshake): nat {
    if h.keepAlive == 0 then 60 else h.keepAlive
  }

  function ConnectBody(h: Handshake): seq<byte> {
    Str(MQTT) + ([4, ConnectFlags(h)] + (BE16(KeepAlive(h)) + (Str(h.clientId) + ConnectTail(h))))
  }

  function ConnectTail(h: Handshake): seq<byte> {
    StrIf(Topic(WillOf(h))) + (StrIf(Text(WillOf(h))) + (StrIf(h.userName) + StrIf(h.password)))
  }

  /** The packet as it is read: every string cut to what was sent of it. */
  function ConnectPacket(h: Handshake, cut: bool): Packet {
    if cut then
      Connect(MQTT, 4, ConnectFlags(h), KeepAlive(h), Cut(h.clientId),
              CutIf(Topic(WillOf(h))), CutIf(Text(WillOf(h))), CutIf(h.userName), CutIf(h.password))
    else
      Connect(MQTT, 4, ConnectFlags(h), KeepAlive(h), h.clientId,
              Topic(WillOf(h)), Text(WillOf(h)), h.userName, h.password)
  }

  /** Setting one bit says nothing about the others. */
  lemma SetBit(flags: byte, bit: nat, set_: bool)
    requires bit == HAS_WILL || bit == HAS_PASSWORD || bit == HAS_USER_NAME
    ensures Has(With(flags, bit, set_), bit) <==> set_ || Has(flags, bit)
    ensures bit != HAS_WILL ==> (Has(With(flags, bit, set_), HAS_WILL) <==> Has(flags, HAS_WILL))
    ensures bit != HAS_PASSWORD ==> (Has(With(flags, bit, set_), HAS_PASSWORD) <==> Has(flags, HAS_PASSWORD))
    ensures bit != HAS_USER_NAME ==> (Has(With(flags, bit, set_), HAS_USER_NAME) <==> Has(flags, HAS_USER_NAME))
  {
    var f := flags as int;
    if bit == HAS_WILL {
      if f / 4 % 2 == 0 {
        WillBit(f);
      }
    } else if bit == HAS_PASSWORD {
      assert (f + 0x40) / 4 == f / 4 + 16 && (f + 0x40) / 0x40 == f / 0x40 + 1;
      assert f / 0x40 % 2 == 0 ==> (f + 0x40) / 0x80 == f / 0x80;
    } else {
      assert (f + 0x80) / 4 == f / 4 + 32 && (f + 0x80) / 0x40 == f / 0x40 + 2 && (f + 0x80) / 0x80 == f / 0x80 + 1;
    }
  }

  lemma WillBit(f: nat)
    requires f / 4 % 2 == 0
    ensures (f + 4) / 4 % 2 == 1 && (f + 4) / 0x40 == f / 0x40 && (f + 4) / 0x80 == f / 0x80
  {
    var q, r := f / 8, f % 4;
    assert f == 8 * q + r;
    By64(q, r);
    By64(q, r + 4);
    By128(q, r);
    By128(q, r + 4);
  }

  lemma By64(q: nat, x: nat)
    requires x < 8
    ensures (8 * q + x) / 64 == q / 8
  {
    assert 8 * q + x == 64 * (q / 8) + (8 * (q % 8) + x);
  }

  lemma By128(q: nat, x: nat)
    requires x < 8
    ensures (8 * q + x) / 128 == q / 16
  {
    assert 8 * q + x == 128 * (q / 16) + (8 * (q % 16) + x);
  }

  lemma FlagsSay(h: Handshake)
    requires Complete(h)
    ensures Has(ConnectFlags(h), HAS_WILL) <==> WillOf(h).Some?
    ensures Has(ConnectFlags(h), HAS_USER_NAME) <==> h.userName.Some?
    ensures Has(ConnectFlags(h), HAS_PASSWORD) <==> h.password.Some?
  {
    hide Has, With;
    var a := With(h.flags, HAS_USER_NAME, h.userName.Some?);
    var b := With(a, HAS_PASSWORD, h.password.Some?);
    SetBit(h.flags, HAS_USER_NAME, h.userName.Some?);
    SetBit(a, HAS_PASSWORD, h.password.Some?);
    SetBit(b, HAS_WILL, h.will.Some?);
  }

  lemma TailReadBack(d: seq<byte>, p: nat, c: Packet, h: Handshake)
    requires Complete(h) && c.Connect? && c.flags == ConnectFlags(h)
    requires At(d, p, ConnectTail(h)) && p + |ConnectTail(h)| == |d|
    ensures ParseConnectTail(d, p, c) ==
      Some(c.(willTopic := CutIf(Topic(WillOf(h))), willMessage := CutIf(Text(WillOf(h))),
              userName := CutIf(h.userName), password := CutIf(h.password)))
  {
    hide Has, With, At, ScanIf, ConnectFlags, StrIf, CutIf, WillOf, Complete;
    FlagsSay(h);
    var a, b, e, f := StrIf(Topic(WillOf(h))), StrIf(Text(WillOf(h))), StrIf(h.userName), StrIf(h.password);
    AtSplit(d, p, a, b + (e + f));
    AtSplit(d, p + |a|, b, e + f);
    AtSplit(d, p + |a| + |b|, e, f);
    StrIfReadBack(d, p, Topic(WillOf(h)));
    StrIfReadBack(d, p + |a|, Text(WillOf(h)));
    StrIfReadBack(d, p + |a| + |b|, h.userName);
    StrIfReadBack(d, p + |a| + |b| + |e|, h.password);
  }

  lemma ConnectReadBack(h: Handshake)
    requires Complete(h)
    ensures ParseConnect(ConnectBody(h)) == Some(ConnectPacket(h, true))
  {
    hide At, Str, Scan, ConnectFlags, ConnectTail, ParseConnectTail;
    var d, flags := ConnectBody(h), ConnectFlags(h);
    var id, tail := Str(h.clientId), ConnectTail(h);
    var behind := BE16(KeepAlive(h)) + (id + tail);
    NameFits();
    AtSelf(d);
    AtSplit(d, 0, Str(MQTT), [4, flags] + behind);
    AtSplit(d, 6, [4, flags], behind);
    AtSplit(d, 8, BE16(KeepAlive(h)), id + tail);
    AtSplit(d, 10, id, tail);
    StrReadBack(d, 0, MQTT);
    TwoBytesAt(d, 6, [4, flags]);
    TwoBytesAt(d, 8, BE16(KeepAlive(h)));
    ReadWrite16(KeepAlive(h));
    StrReadBack(d, 10, h.clientId);
    TailReadBack(d, 10 + |id|, Connect(MQTT, 4, flags, KeepAlive(h), Cut(h.clientId), None, None, None, None), h);
  }

  lemma AtSelf(d: seq<byte>)
    ensures At(d, 0, d)
  {
    assert d[0..|d|] == d;
  }

  lemma NameFits()
    ensures Cut(MQTT) == MQTT && |Str(MQTT)| == 6
  {
  }

  lemma TwoBytesAt(d: seq<byte>, p: nat, s: seq<byte>)
    requires At(d, p, s) && |s| == 2
    ensures p + 2 <= |d| && d[p] == s[0] && d[p + 1] == s[1] && ReadBE16(d[p..]) == ReadBE16(s)
  {
    assert d[p..p + 2][0] == d[p] && d[p..p + 2][1] == d[p + 1];
    assert d[p..][0] == d[p] && d[p..][1] == d[p + 1];
  }

  function ConnectBytes(h: Handshake): seq<byte> {
    HeaderBytes(CONNECT, 0, |ConnectBody(h)|) + ConnectBody(h)
  }

  predicate FitsIf(s: Option<seq<byte>>) {
    s.Some? ==> Fits(s.value)
  }

  /** A CONNECT packet is read back as it was meant exactly when every string in it has at
      most 65535 bytes; a longer one is cut. */
  lemma ConnectRoundTrip(h: Handshake)
    requires Complete(h) && |ConnectBody(h)| < MAX_REMAINING
    ensures Parse(ConnectBytes(h)) == Ok(Message(CONNECT, 0, ConnectPacket(h, false)), |ConnectBytes(h)|)
       <==> (Fits(h.clientId) && FitsIf(Topic(WillOf(h))) && FitsIf(Text(WillOf(h))) && FitsIf(h.userName) &&
             FitsIf(h.password))
    ensures IsPacket(ConnectBytes(h))
  {
    hide Parse, ParseConnect, ConnectBody, HeaderBytes, Cut, Fits, WillOf;
    ConnectReadBack(h);
    PacketOf(CONNECT, 0, ConnectBody(h));
    CutFits(h.clientId);
    CutFitsIf(Topic(WillOf(h)));
    CutFitsIf(Text(WillOf(h)));
    CutFitsIf(h.userName);
    CutFitsIf(h.password);
  }

  lemma CutFitsIf(s: Option<seq<byte>>)
    ensures CutIf(s) == s <==> FitsIf(s)
  {
    if s.Some? {
      CutFits(s.value);
    }
  }

  lemma ConnectLength(h: Handshake)
    requires Complete(h)
    ensures
      var will := WillOf(h);
      |ConnectBody(h)| == 12 + |Cut(h.clientId)|
        + (if will.Some? then 4 + |Cut(will.value.0)| + |Cut(will.value.1)| else 0)
        + (if h.userName.Some? then 2 + |Cut(h.userName.value)| else 0)
        + (if h.password.Some? then 2 + |Cut(h.password.value)| else 0)
  {
    hide Cut, WillOf, ConnectFlags, KeepAlive;
    NameFits();
  }

  /** `mg_send_mqtt_handshake_opt`; `total` adds up the sizes as the code does. */
  method SendHandshake(send: seq<byte>, h: Handshake) returns (send': seq<byte>)
    requires Complete(h)
    ensures send' == send + ConnectBytes(h)
  {
    hide Cut, HeaderBytes, ConnectBody, WillOf, Complete;
    ConnectLength(h);
    var will := WillOf(h);
    var total := 7 + 1 + 2 + 2 + |Cut(h.clientId)|;
    if will.Some? {
      total := total + 2 + |Cut(will.value.0)| + 2 + |Cut(will.value.1)|;
    }
    if h.userName.Some? {
      total := total + 2 + |Cut(h.userName.value)|;
    }
    if h.password.Some? {
      total := total + 2 + |Cut(h.password.value)|;
    }
    send' := SendHeader(send, CONNECT, 0, total);
    send' := send' + ConnectBody(h);
    assert send + HeaderBytes(CONNECT, 0, total) + ConnectBody(h) == send + ConnectBytes(h);
  }

  // ---------------------------------------------------------------------------
  // PUBLISH

  function PublishBody(topic: seq<byte>, id: nat, flags: nat, data: seq<byte>): seq<byte> {
    Str(topic) + ((if flags / 2 % 4 > 0 then BE16(id) else []) + data)
  }

  function PublishBytes(topic: seq<byte>, id: nat, flags: nat, data: seq<byte>): seq<byte>
    requires flags < 16
  {
    var body := PublishBody(topic, id, flags, data);
    HeaderBytes(PUBLISH, flags, |body|) + body
  }

  lemma PublishReadBack(topic: seq<byte>, id: nat, flags: nat, data: seq<byte>)
    requires flags < 16 && id < U16
    ensures ParsePublish(flags / 2 % 4, PublishBody(topic, id, flags, data))
         == Some(Publish(Cut(topic), if flags / 2 % 4 > 0 then Some(id) else None, data))
  {
    hide At, Str, Scan;
    var qos, d := flags / 2 % 4, PublishBody(topic, id, flags, data);
    var t, i := Str(topic), if qos > 0 then BE16(id) else [];
    AtSelf(d);
    AtSplit(d, 0, t, i + data);
    AtSplit(d, |t|, i, data);
    StrReadBack(d, 0, topic);
    assert d[|t| + |i|..] == data;
    if qos > 0 {
      TwoBytesAt(d, |t|, i);
      ReadWrite16(id);
    }
  }

  /** A PUBLISH packet is read back exactly when its topic has at most 65535 bytes. */
  lemma PublishRoundTrip(topic: seq<byte>, id: nat, flags: nat, data: seq<byte>)
    requires flags < 16 && id < U16 && |PublishBody(topic, id, flags, data)| < MAX_REMAINING
    ensures
      var w, qos := PublishBytes(topic, id, flags, data), flags / 2 % 4;
      && IsPacket(w)
      && (Parse(w) == Ok(Message(PUBLISH, qos, Publish(topic, if qos > 0 then Some(id) else None, data)), |w|)
        <==> Fits(topic))
  {
    hide Parse, ParsePublish, PublishBody, HeaderBytes, Cut, Fits;
    PublishReadBack(topic, id, flags, data);
    PacketOf(PUBLISH, flags, PublishBody(topic, id, flags, data));
    HeaderBits(PUBLISH, flags);
    CutFits(topic);
  }

  /** `mg_mqtt_publish`. */
  method SendPublish(send: seq<byte>, topic: seq<byte>, id: nat, flags: nat, data: seq<byte>) returns (send': seq<byte>)
    requires flags < 16
    ensures send' == send + PublishBytes(topic, id, flags, data)
  {
    var total := 2 + |Cut(topic)| + |data|;
    if flags / 2 % 4 > 0 {
      total := total + 2;
    }
    ghost var body := PublishBody(topic, id, flags, data);
    assert total == |body|;
    send' := SendHeader(send, PUBLISH, flags, total);
    send' := send' + Str(topic);
    if flags / 2 % 4 > 0 {
      send' := send' + BE16(id);
    }
    send' := send' + data;
    assert send' == send + HeaderBytes(PUBLISH, flags, total) + body;
    assert send + HeaderBytes(PUBLISH, flags, total) + body == send + PublishBytes(topic, id, flags, data);
  }

  // ---------------------------------------------------------------------------
  // SUBSCRIBE

  /** A topic expression and its QoS. */
  type TopicQos = (seq<byte>, byte)

  function TopicsBytes(topics: seq<TopicQos>): seq<byte> {
    if topics == [] then [] else Str(topics[0].0) + ([topics[0].1] + TopicsBytes(topics[1..]))
  }

  /** The remaining length the header announces: with the topics in full, where what is sent
      of a topic is cut. */
  function Announced(topics: seq<TopicQos>): nat {
    if topics == [] then 0 else 2 + |topics[0].0| + 1 + Announced(topics[1..])
  }

  function SubscribeBytes(topics: seq<TopicQos>, id: nat): seq<byte> {
    HeaderBytes(SUBSCRIBE, 2, 2 + Announced(topics)) + (BE16(id) + TopicsBytes(topics))
  }

  predicate AllFit(topics: seq<TopicQos>) {
    forall i :: 0 <= i < |topics| ==> Fits(topics[i].0)
  }

  lemma AllFitCons(topics: seq<TopicQos>)
    requires topics != []
    ensures AllFit(topics) <==> Fits(topics[0].0) && AllFit(topics[1..])
  {
    hide Fits;
    if Fits(topics[0].0) && AllFit(topics[1..]) {
      forall i | 0 <= i < |topics| ensures Fits(topics[i].0) {
        if i > 0 { assert topics[i] == topics[1..][i - 1]; }
      }
    }
  }

  lemma CutShortens(s: seq<byte>)
    ensures |Str(s)| <= 2 + |s| && (|Str(s)| == 2 + |s| <==> Fits(s))
  {
  }

  lemma {:induction false} AnnouncedIsSent(topics: seq<TopicQos>)
    ensures |TopicsBytes(topics)| <= Announced(topics)
    ensures |TopicsBytes(topics)| == Announced(topics) <==> AllFit(topics)
  {
    hide Str, Fits, AllFit;
    if topics == [] {
      assert AllFit(topics) by { NoTopics(); }
    } else {
      AnnouncedIsSent(topics[1..]);
      AllFitCons(topics);
      CutShortens(topics[0].0);
    }
  }

  lemma NoTopics()
    ensures AllFit([])
  {
  }

  /** `mg_mqtt_next_subscribe_topic`: the topic at a position, and the next position. */
  function NextTopic(payload: seq<byte>, pos: nat): (r: Option<(TopicQos, nat)>)
    ensures r.Some? ==> pos < r.value.1 <= |payload|
  {
    match Scan(payload, pos)
    case None => None
    case Some(x) => if x.1 + 1 > |payload| then None else Some(((x.0, payload[x.1]), x.1 + 1))
  }

  /** Calling it until there is nothing more. */
  method AllTopics(payload: seq<byte>) returns (topics: seq<TopicQos>, end: nat)
    ensures end <= |payload|
    ensures forall t: seq<TopicQos> :: payload == TopicsBytes(t) && AllFit(t) ==> topics == t && end == |payload|
  {
    hide NextTopic, AllFit;
    topics, end := [], 0;
    var next := NextTopic(payload, 0);
    assert forall t: seq<TopicQos> :: t[0..] == t;
    while next.Some?
      invariant end <= |payload| && next == NextTopic(payload, end)
      invariant forall t: seq<TopicQos> :: payload == TopicsBytes(t) && AllFit(t) ==> IsAt(payload, end, t, topics)
      decreases |payload| - end
    {
      forall t: seq<TopicQos> | payload == TopicsBytes(t) && AllFit(t)
        ensures IsAt(payload, next.value.1, t, topics + [next.value.0])
      {
        OneMore(payload, end, t, topics);
      }
      NextGrows(payload, end);
      topics, end := topics + [next.value.0], next.value.1;
      next := NextTopic(payload, end);
    }
    forall t: seq<TopicQos> | payload == TopicsBytes(t) && AllFit(t) ensures topics == t && end == |payload| {
      NoMore(payload, end, t, topics);
    }
  }

  /** The topics read so far are the first of `t`, and the others stand at `end`. */
  ghost predicate IsAt(payload: seq<byte>, end: nat, t: seq<TopicQos>, topics: seq<TopicQos>) {
    |topics| <= |t| && topics == t[..|topics|] && end <= |payload| && payload[end..] == TopicsBytes(t[|topics|..])
  }

  lemma NextGrows(payload: seq<byte>, pos: nat)
    requires NextTopic(payload, pos).Some?
    ensures pos < NextTopic(payload, pos).value.1 <= |payload|
  {
  }

  lemma OneMore(payload: seq<byte>, end: nat, t: seq<TopicQos>, topics: seq<TopicQos>)
    requires IsAt(payload, end, t, topics) && AllFit(t) && NextTopic(payload, end).Some?
    ensures
      var (topic, next) := NextTopic(payload, end).value;
      IsAt(payload, next, t, topics + [topic])
  {
    hide Str;
    var n := |topics|;
    var rest := t[n..];
    NextGrows(payload, end);
    assert |TopicsBytes(rest)| > 0;
    TopicAt(payload, end, rest);
    assert t[..n + 1] == t[..n] + [t[n]] && rest[1..] == t[n + 1..];
  }

  lemma TopicAt(payload: seq<byte>, end: nat, rest: seq<TopicQos>)
    requires end <= |payload| && rest != [] && payload[end..] == TopicsBytes(rest) && Fits(rest[0].0)
    ensures
      var next := end + |Str(rest[0].0)| + 1;
      && NextTopic(payload, end) == Some((rest[0], next)) && next <= |payload|
      && payload[next..] == TopicsBytes(rest[1..])
  {
    hide Str, Scan;
    var s, q, more := Str(rest[0].0), [rest[0].1], TopicsBytes(rest[1..]);
    assert payload[end..] == s + (q + more);
    assert payload[end..end + |s| + 1 + |more|] == payload[end..];
    AtSplit(payload, end, s, q + more);
    AtSplit(payload, end + |s|, q, more);
    AtByte(payload, end + |s|, rest[0].1);
    StrReadBack(payload, end, rest[0].0);
    CutFits(rest[0].0);
    assert payload[end + |s| + 1..] == payload[end + |s| + 1..end + |s| + 1 + |more|];
  }

  lemma NoMore(payload: seq<byte>, end: nat, t: seq<TopicQos>, topics: seq<TopicQos>)
    requires IsAt(payload, end, t, topics) && AllFit(t) && NextTopic(payload, end).None?
    ensures topics == t && end == |payload|
  {
    var rest := t[|topics|..];
    if rest != [] {
      TopicAt(payload, end, rest);
    } else {
      assert payload[end..] == [];
    }
  }

  /** A SUBSCRIBE packet is read back, with the topics it was made from, exactly when each of
      them has at most 65535 bytes; otherwise the header announces more than is sent. */
  lemma SubscribeRoundTrip(topics: seq<TopicQos>, id: nat)
    requires id < U16 && 2 + Announced(topics) < MAX_REMAINING
    ensures
      var w := SubscribeBytes(topics, id);
      if AllFit(topics) then
        Parse(w) == Ok(Message(SUBSCRIBE, 1, Subscribe(id, TopicsBytes(topics))), |w|)
      else Parse(w) == Incomplete
  {
    hide Parse, TopicsBytes, HeaderBytes, AllFit, Announced;
    var body := BE16(id) + TopicsBytes(topics);
    AnnouncedIsSent(topics);
    if AllFit(topics) {
      ReadWrite16(id);
      assert body[2..] == TopicsBytes(topics) && ReadBE16(body) == ReadBE16(BE16(id));
      PacketOf(SUBSCRIBE, 2, body);
      HeaderBits(SUBSCRIBE, 2);
    } else {
      ShortBody(SUBSCRIBE, 2, body, 2 + Announced(topics));
    }
  }

  /** `mg_mqtt_subscribe`: one loop adds up the sizes, another sends. */
  lemma OneTopicOn(start: seq<byte>, sent: seq<byte>, s: seq<byte>, q: byte, rest: seq<byte>)
    ensures sent + (s + ([q] + rest)) == (sent + (s + [q])) + rest
    ensures start + sent + s + [q] == start + (sent + (s + [q]))
  {
  }

  method SendSubscribe(send: seq<byte>, topics: seq<TopicQos>, id: nat) returns (send': seq<byte>)
    ensures send' == send + SubscribeBytes(topics, id)
  {
    hide Str;
    var total := 2;
    assert topics[0..] == topics;
    for i := 0 to |topics|
      invariant total + Announced(topics[i..]) == 2 + Announced(topics)
    {
      assert topics[i..][1..] == topics[i + 1..];
      total := total + 2 + |topics[i].0| + 1;
    }
    send' := SendHeader(send, SUBSCRIBE, 2, total);
    send' := send' + BE16(id);
    ghost var start, sent := send', [];
    assert start + [] == start && [] + TopicsBytes(topics) == TopicsBytes(topics);
    for i := 0 to |topics|
      invariant send' == start + sent && sent + TopicsBytes(topics[i..]) == TopicsBytes(topics)
    {
      assert topics[i..][1..] == topics[i + 1..];
      ghost var part := Str(topics[i].0) + [topics[i].1];
      OneTopicOn(start, sent, Str(topics[i].0), topics[i].1, TopicsBytes(topics[i + 1..]));
      send' := send' + Str(topics[i].0);
      send' := send' + [topics[i].1];
      sent := sent + part;
    }
    assert sent + [] == sent;
    assert send + HeaderBytes(SUBSCRIBE, 2, total) + BE16(id) + sent
        == send + (HeaderBytes(SUBSCRIBE, 2, total) + (BE16(id) + sent));
  }

  /** A body shorter than announced is awaited. */
  lemma ShortBody(cmd: nat, flags: nat, body: seq<byte>, n: nat)
    requires cmd < 16 && flags < 16 && |body| < n < MAX_REMAINING
    ensures Parse(HeaderBytes(cmd, flags, n) + body) == Incomplete
  {
    hide ParseBody, VarLen, DecodeLength;
    var io, v, header := HeaderBytes(cmd, flags, n) + body, VarLen(n), cmd * 16 + flags;
    assert io == [header] + (v + body);
    assert io[1..1 + |v|] == v;
    assert Power128(2) == 16384 && Power128(4) == MAX_REMAINING;
    VarLenSize(n, 4);
    assert n * Power128(0) == n;
    LengthReadBack(io, 1, n, 0, 0);
  }
}
