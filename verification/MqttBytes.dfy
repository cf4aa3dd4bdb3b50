/** MQTT 3.1.1 packets as bytes: what each kind of packet is read as, field by field. */
module MqttBytes {
  import opened Options
  import opened Bytes
  import opened Mqtt
  import opened MqttWriters

  /** The remaining length of section 2.2.3: seven bits a byte, the lowest first, and a bit for more. */
  function LengthBytes(n: nat): seq<byte>
    requires n < MAX_REMAINING
  {
    if n < 128 then [n]
    else if n < 16384 then [n % 128 + 128, n / 128]
    else if n < 2097152 then [n % 128 + 128, n / 128 % 128 + 128, n / 16384]
    else [n % 128 + 128, n / 128 % 128 + 128, n / 16384 % 128 + 128, n / 2097152]
  }

  lemma LengthIs(n: nat)
    requires n < MAX_REMAINING
    ensures VarLen(n) == LengthBytes(n)
  {
    var a := n / 128;
    var b := a / 128;
    var c := b / 128;
    assert b == n / 16384 && c == n / 2097152;
    assert n >= 128 ==> VarLen(n) == [n % 128 + 128] + VarLen(a);
    assert a >= 128 ==> VarLen(a) == [a % 128 + 128] + VarLen(b);
    assert b >= 128 ==> VarLen(b) == [b % 128 + 128] + VarLen(c);
  }

  function Packed(cmd: nat, flags: nat, body: seq<byte>): seq<byte>
    requires cmd < 16 && flags < 16 && |body| < MAX_REMAINING
  {
    [cmd * 16 + flags] + LengthBytes(|body|) + body
  }

  /** A string with its length in front. */
  function Counted(s: seq<byte>): seq<byte>
    requires |s| < U16
  {
    [|s| / 256, |s| % 256] + s
  }

  lemma PackedIs(cmd: nat, flags: nat, body: seq<byte>)
    requires cmd < 16 && flags < 16 && |body| < MAX_REMAINING
    ensures
      var io, b := Packed(cmd, flags, body), ParseBody(cmd * 16 + flags, body);
      Parse(io) == if b.Some? then Ok(Message(cmd, flags / 2 % 4, b.value), |io|) else Malformed
    ensures (cmd * 16 + flags) / 16 == cmd && Qos(cmd * 16 + flags) == flags / 2 % 4
  {
    hide ParseBody, Parse, VarLen, LengthBytes;
    PacketOf(cmd, flags, body);
    HeaderBits(cmd, flags);
    LengthIs(|body|);
  }

  /** CONNACK: the second byte is the return code. */
  lemma ConnAckRead(flags: nat, ack: byte, code: byte, rest: seq<byte>)
    requires flags < 16 && |rest| + 2 < MAX_REMAINING
    ensures
      var io := Packed(2, flags, [ack, code] + rest);
      Parse(io) == Ok(Message(2, flags / 2 % 4, ConnAck(code)), |io|)
    ensures Parse([0x20, 2, ack, code]) == Ok(Message(2, 0, ConnAck(code)), 4)
  {
    hide Parse, LengthBytes;
    PackedIs(2, flags, [ack, code] + rest);
    PackedIs(2, 0, [ack, code]);
    assert LengthBytes(2) == [2] by { LengthOfTwo(); }
    assert Packed(2, 0, [ack, code]) == [0x20, 2, ack, code];
  }

  lemma LengthOfTwo()
    ensures LengthBytes(2) == [2]
  {
  }

  /** PUBACK, PUBREC, PUBREL, PUBCOMP and SUBACK: the first two bytes are the packet identifier. */
  lemma AckRead(cmd: nat, flags: nat, id: nat, rest: seq<byte>)
    requires cmd in {4, 5, 6, 7, 9} && flags < 16 && id < U16 && |rest| + 2 < MAX_REMAINING
    ensures
      var io := Packed(cmd, flags, [id / 256, id % 256] + rest);
      Parse(io) == Ok(Message(cmd, flags / 2 % 4, Ack(id)), |io|)
  {
    hide Parse, LengthBytes;
    PackedIs(cmd, flags, [id / 256, id % 256] + rest);
  }

  /** SUBSCRIBE: the identifier, and the topics as they are. */
  lemma SubscribeRead(flags: nat, id: nat, rest: seq<byte>)
    requires flags < 16 && id < U16 && |rest| + 2 < MAX_REMAINING
    ensures
      var io := Packed(8, flags, [id / 256, id % 256] + rest);
      Parse(io) == Ok(Message(8, flags / 2 % 4, Subscribe(id, rest)), |io|)
  {
    hide Parse, LengthBytes;
    var body := [id / 256, id % 256] + rest;
    assert body[2..] == rest;
    PackedIs(8, flags, body);
  }

  /** All of these are malformed when they are shorter. */
  lemma ShortIsMalformed(cmd: nat, flags: nat, body: seq<byte>)
    requires cmd in {2, 4, 5, 6, 7, 8, 9} && flags < 16 && |body| < 2
    ensures Parse(Packed(cmd, flags, body)) == Malformed
  {
    hide Parse, LengthBytes;
    PackedIs(cmd, flags, body);
  }

  /** Commands that are not handled have no fields. */
  lemma OthersRead(cmd: nat, flags: nat, body: seq<byte>)
    requires cmd in {0, 10, 11, 12, 13, 14, 15} && flags < 16 && |body| < MAX_REMAINING
    ensures
      var io := Packed(cmd, flags, body);
      Parse(io) == Ok(Message(cmd, flags / 2 % 4, Other), |io|)
  {
    hide Parse, LengthBytes;
    PackedIs(cmd, flags, body);
  }

  lemma CountedAt(d: seq<byte>, p: nat, s: seq<byte>)
    requires |s| < U16 && At(d, p, Counted(s))
    ensures Scan(d, p) == Some((s, p + 2 + |s|))
  {
    hide At;
    assert Counted(s) == Str(s) && Cut(s) == s;
    StrReadBack(d, p, s);
  }

  /** PUBLISH: the topic, an identifier above QoS 0, and the payload. */
  lemma PublishRead(flags: nat, topic: seq<byte>, id: nat, payload: seq<byte>)
    requires flags < 16 && |topic| < U16 && id < U16 && |topic| + |payload| + 4 < MAX_REMAINING
    ensures
      var io := Packed(3, flags, Counted(topic) + payload);
      flags / 2 % 4 == 0 ==> Parse(io) == Ok(Message(3, 0, Publish(topic, None, payload)), |io|)
    ensures
      var io := Packed(3, flags, Counted(topic) + ([id / 256, id % 256] + payload));
      flags / 2 % 4 > 0 ==> Parse(io) == Ok(Message(3, flags / 2 % 4, Publish(topic, Some(id), payload)), |io|)
  {
    hide Parse, LengthBytes, At, Scan, Counted;
    CountedSize(topic);
    PublishParts(flags / 2 % 4, topic, id, payload);
    PackedIs(3, flags, Counted(topic) + payload);
    PackedIs(3, flags, Counted(topic) + ([id / 256, id % 256] + payload));
  }

  lemma PublishParts(qos: nat, topic: seq<byte>, id: nat, payload: seq<byte>)
    requires |topic| < U16 && id < U16
    ensures qos == 0 ==> ParsePublish(qos, Counted(topic) + payload) == Some(Publish(topic, None, payload))
    ensures qos > 0 ==>
      ParsePublish(qos, Counted(topic) + ([id / 256, id % 256] + payload)) == Some(Publish(topic, Some(id), payload))
  {
    hide At, Scan;
    var t, i := Counted(topic), [id / 256, id % 256];
    var d, e := t + payload, t + (i + payload);
    AtSelf(d);
    AtSelf(e);
    AtSplit(d, 0, t, payload);
    AtSplit(e, 0, t, i + payload);
    CountedAt(d, 0, topic);
    CountedAt(e, 0, topic);
    assert d[|t|..] == payload && e[|t| + 2..] == payload;
    assert e[|t|..][0] == id / 256 && e[|t|..][1] == id % 256;
  }

  /** A string of CONNECT that its flag says is there. */
  function CountedIf(there: bool, s: seq<byte>): seq<byte>
    requires |s| < U16
  {
    if there then Counted(s) else []
  }

  function OnlyIf(there: bool, s: seq<byte>): Option<seq<byte>> {
    if there then Some(s) else None
  }

  lemma CountedIfAt(there: bool, d: seq<byte>, p: nat, s: seq<byte>)
    requires |s| < U16 && At(d, p, CountedIf(there, s))
    ensures p <= |d| && ScanIf(there, d, p) == Some((OnlyIf(there, s), p + |CountedIf(there, s)|))
  {
    hide Scan;
    if there { CountedAt(d, p, s); }
  }

  /** The flags of CONNECT: a will is bit 2, a password bit 6 and a user name bit 7. */
  predicate Flagged(flags: byte, bit: nat)
    requires bit in {4, 64, 128}
  {
    flags as int / bit % 2 == 1
  }

  function ConnectStrings(flags: byte, topic: seq<byte>, text: seq<byte>, user: seq<byte>,
                          password: seq<byte>): seq<byte>
    requires |topic| < U16 && |text| < U16 && |user| < U16 && |password| < U16
  {
    CountedIf(Flagged(flags, 4), topic) + (CountedIf(Flagged(flags, 4), text)
      + (CountedIf(Flagged(flags, 128), user) + CountedIf(Flagged(flags, 64), password)))
  }

  lemma ConnectTailRead(d: seq<byte>, p: nat, c: Packet, topic: seq<byte>, text: seq<byte>, user: seq<byte>,
                        password: seq<byte>)
    requires |topic| < U16 && |text| < U16 && |user| < U16 && |password| < U16 && c.Connect?
    requires
      var tail := ConnectStrings(c.flags, topic, text, user, password);
      At(d, p, tail) && p + |tail| == |d|
    ensures ParseConnectTail(d, p, c) ==
      Some(c.(willTopic := OnlyIf(Flagged(c.flags, 4), topic), willMessage := OnlyIf(Flagged(c.flags, 4), text),
              userName := OnlyIf(Flagged(c.flags, 128), user), password := OnlyIf(Flagged(c.flags, 64), password)))
  {
    hide At, ScanIf, CountedIf, OnlyIf;
    var will, named, secret := Flagged(c.flags, 4), Flagged(c.flags, 128), Flagged(c.flags, 64);
    var a, b, e, f := CountedIf(will, topic), CountedIf(will, text), CountedIf(named, user),
      CountedIf(secret, password);
    AtSplit(d, p, a, b + (e + f));
    AtSplit(d, p + |a|, b, e + f);
    AtSplit(d, p + |a| + |b|, e, f);
    CountedIfAt(will, d, p, topic);
    CountedIfAt(will, d, p + |a|, text);
    CountedIfAt(named, d, p + |a| + |b|, user);
    CountedIfAt(secret, d, p + |a| + |b| + |e|, password);
  }

  /** CONNECT: protocol name and version, flags, keep-alive time, client identifier, and the strings
      the flags speak of. */
  lemma ConnectRead(low: nat, name: seq<byte>, version: byte, flags: byte, keepAlive: nat, id: seq<byte>,
                    topic: seq<byte>, text: seq<byte>, user: seq<byte>, password: seq<byte>)
    requires low < 16 && |name| < U16 && keepAlive < U16 && |id| < U16
    requires |topic| < U16 && |text| < U16 && |user| < U16 && |password| < U16
    ensures
      var body := Counted(name) + ([version, flags] + ([keepAlive / 256, keepAlive % 256]
        + (Counted(id) + ConnectStrings(flags, topic, text, user, password))));
      |body| < MAX_REMAINING ==>
        Parse(Packed(1, low, body)) ==
          Ok(Message(1, low / 2 % 4, Connect(name, version, flags, keepAlive, id,
               OnlyIf(Flagged(flags, 4), topic), OnlyIf(Flagged(flags, 4), text),
               OnlyIf(Flagged(flags, 128), user), OnlyIf(Flagged(flags, 64), password))), |Packed(1, low, body)|)
  {
    hide Parse, LengthBytes, At, Scan, Counted, ConnectStrings, ParseConnectTail, OnlyIf, Flagged;
    var n, k, i, tail := Counted(name), [keepAlive / 256, keepAlive % 256], Counted(id),
      ConnectStrings(flags, topic, text, user, password);
    var d := n + ([version, flags] + (k + (i + tail)));
    assert |n| == 2 + |name| && |i| == 2 + |id| by { CountedSize(name); CountedSize(id); }
    AtSelf(d);
    AtSplit(d, 0, n, [version, flags] + (k + (i + tail)));
    AtSplit(d, |n|, [version, flags], k + (i + tail));
    AtSplit(d, |n| + 2, k, i + tail);
    AtSplit(d, |n| + 4, i, tail);
    CountedAt(d, 0, name);
    CountedAt(d, |n| + 4, id);
    TwoBytesAt(d, |n|, [version, flags]);
    TwoBytesAt(d, |n| + 2, k);
    ConnectTailRead(d, |n| + 4 + |i|, Connect(name, version, flags, keepAlive, id, None, None, None, None), topic,
      text, user, password);
    if |d| < MAX_REMAINING { PackedIs(1, low, d); }
  }

  lemma CountedSize(s: seq<byte>)
    requires |s| < U16
    ensures |Counted(s)| == 2 + |s|
  {
  }
}
