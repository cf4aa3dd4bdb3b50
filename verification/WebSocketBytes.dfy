/** What a connection makes of the bytes of one frame, said by the bytes: the fields of RFC 6455
    section 5.2, and the bits of the masked payload. */
module WebSocketBytes {
  import opened Options
  import opened Bytes
  import opened WebSocket

  // ---------------------------------------------------------------------------
  // Masking, bit by bit

  const WEIGHTS: seq<nat> := [1, 2, 4, 8, 16, 32, 64, 128]

  predicate Bit(b: byte, k: nat)
    requires k < 8
  {
    b / WEIGHTS[k] % 2 == 1
  }

  lemma {:induction false} XorBit(a: nat, b: nat, bits: nat, k: nat)
    requires k < bits
    ensures Halved(XorBits(a, b, bits), k) % 2 == 1 <==> Halved(a, k) % 2 != Halved(b, k) % 2
  {
    var r := XorBits(a, b, bits);
    assert r / 2 == XorBits(a / 2, b / 2, bits - 1);
    if k > 0 {
      XorBit(a / 2, b / 2, bits - 1, k - 1);
    }
  }

  function Halved(n: nat, k: nat): nat {
    if k == 0 then n else Halved(n / 2, k - 1)
  }

  /** A byte halved `k` times. */
  lemma HalvedByte(b: byte, k: nat)
    requires k < 8
    ensures Halved(b, k) == b / WEIGHTS[k]
  {
    hide Halved;
    HalvedTwice(b);
  }

  lemma HalvedTwice(b: byte)
    ensures Halved(b, 0) == b && Halved(b, 1) == b / 2 && Halved(b, 2) == b / 4 && Halved(b, 3) == b / 8
    ensures Halved(b, 4) == b / 16 && Halved(b, 5) == b / 32 && Halved(b, 6) == b / 64 && Halved(b, 7) == b / 128
  {
    var b1, b2, b3, b4, b5, b6 := b / 2, b / 4, b / 8, b / 16, b / 32, b / 64;
    assert b1 / 2 == b2 && b2 / 2 == b3 && b3 / 2 == b4 && b4 / 2 == b5 && b5 / 2 == b6 && b6 / 2 == b / 128;
    assert Halved(b6, 0) == b6 && Halved(b6, 1) == Halved(b / 128, 0) == b / 128;
    assert Halved(b5, 1) == Halved(b6, 0) && Halved(b5, 2) == Halved(b6, 1);
    assert Halved(b4, 2) == Halved(b5, 1) && Halved(b4, 3) == Halved(b5, 2);
    assert Halved(b3, 3) == Halved(b4, 2) && Halved(b3, 4) == Halved(b4, 3);
    assert Halved(b2, 4) == Halved(b3, 3) && Halved(b2, 5) == Halved(b3, 4);
    assert Halved(b1, 5) == Halved(b2, 4) && Halved(b1, 6) == Halved(b2, 5);
    assert Halved(b, 6) == Halved(b1, 5) && Halved(b, 7) == Halved(b1, 6);
    assert Halved(b, 5) == Halved(b1, 4) == Halved(b2, 3) == Halved(b3, 2) == Halved(b4, 1) == Halved(b5, 0);
    assert Halved(b, 4) == Halved(b1, 3) == Halved(b2, 2) == Halved(b3, 1) == Halved(b4, 0);
    assert Halved(b, 3) == Halved(b1, 2) == Halved(b2, 1) == Halved(b3, 0);
    assert Halved(b, 2) == Halved(b1, 1) == Halved(b2, 0);
    assert Halved(b, 1) == Halved(b1, 0);
  }

  /** A bit of masked data is set exactly when those of the data and of the mask differ; without a
      mask the data is as it was. */
  lemma MaskedBits(data: seq<byte>, mask: seq<byte>, i: nat, k: nat)
    requires (|mask| == 0 || |mask| == 4) && i < |data| && k < 8
    ensures |mask| == 0 ==> Masked(data, mask) == data
    ensures |mask| == 4 ==> (Bit(Masked(data, mask)[i], k) <==> Bit(data[i], k) != Bit(mask[i % 4], k))
  {
    hide XorBits;
    if |mask| == 4 {
      XorBit(data[i], mask[i % 4], 8, k);
      HalvedByte(Masked(data, mask)[i], k);
      HalvedByte(data[i], k);
      HalvedByte(mask[i % 4], k);
    }
  }

  /** `wire` is `data` under the mask: the same number of bytes, and these bits. */
  ghost predicate Carries(wire: seq<byte>, mask: seq<byte>, data: seq<byte>) {
    && |wire| == |data|
    && (|mask| == 0 ==> wire == data)
    && (|mask| == 4 ==> forall i, k {:trigger Bit(data[i], k)} :: 0 <= i < |data| && 0 <= k < 8 ==>
          (Bit(data[i], k) <==> Bit(wire[i], k) != Bit(mask[i % 4], k)))
  }

  lemma MaskedCarries(wire: seq<byte>, mask: seq<byte>)
    requires |mask| == 0 || |mask| == 4
    ensures Carries(wire, mask, Masked(wire, mask))
  {
    hide Masked, Bit;
    var data := Masked(wire, mask);
    if |mask| == 4 {
      forall i, k {:trigger Bit(data[i], k)} | 0 <= i < |data| && 0 <= k < 8
        ensures Bit(data[i], k) <==> Bit(wire[i], k) != Bit(mask[i % 4], k)
      {
        MaskedBits(wire, mask, i, k);
      }
    } else {
      NotMasked(wire, mask);
    }
  }

  /** The bits say which data it is. */
  lemma CarriesOnce(wire: seq<byte>, mask: seq<byte>, a: seq<byte>, b: seq<byte>)
    requires (|mask| == 0 || |mask| == 4) && Carries(wire, mask, a) && Carries(wire, mask, b)
    ensures a == b
  {
    hide Bit;
    if |mask| == 4 {
      forall i | 0 <= i < |a| ensures a[i] == b[i] {
        forall k | 0 <= k < 8 ensures Bit(a[i], k) <==> Bit(b[i], k) {
        }
        SameBits(a[i], b[i]);
      }
    }
  }

  lemma SameBits(a: byte, b: byte)
    requires forall k :: 0 <= k < 8 ==> (Bit(a, k) <==> Bit(b, k))
    ensures a == b
  {
    forall k | 0 <= k < 8 ensures Halved(a, k) % 2 == Halved(b, k) % 2 {
      assert Bit(a, k) <==> Bit(b, k);
      HalvedByte(a, k);
      HalvedByte(b, k);
    }
    assert Pow2(8) == 256;
    SameHalves(a, b, 8);
  }

  lemma {:induction false} SameHalves(a: nat, b: nat, n: nat)
    requires a < Pow2(n) && b < Pow2(n) && forall k :: 0 <= k < n ==> Halved(a, k) % 2 == Halved(b, k) % 2
    ensures a == b
  {
    if n > 0 {
      assert Halved(a, 0) % 2 == Halved(b, 0) % 2;
      forall k | 0 <= k < n - 1 ensures Halved(a / 2, k) % 2 == Halved(b / 2, k) % 2 {
        assert Halved(a, k + 1) % 2 == Halved(b, k + 1) % 2;
      }
      SameHalves(a / 2, b / 2, n - 1);
    }
  }

  lemma NotMasked(data: seq<byte>, mask: seq<byte>)
    requires |mask| == 0
    ensures Masked(data, mask) == data
  {
  }

  // ---------------------------------------------------------------------------
  // The length

  /** The second byte and what belongs to it: a bit for the mask, and 7, 16 or 64 bits for the
      length. */
  predicate Length(bytes: seq<byte>, masked: bool, n: nat) {
    var bit := if masked then 128 else 0;
    || (bytes == [bit + n] && n < 126)
    || (n < 65536 && bytes == [bit + 126, n / 256, n % 256])
    || (|bytes| == 9 && bytes[0] == bit + 127 && bytes[1] < 128 && n == BigEndian(bytes[1..]))
  }

  function FormOf(bytes: seq<byte>): LengthForm {
    if |bytes| == 1 then Short else if |bytes| == 3 then Medium else Long
  }

  lemma LengthIs(bytes: seq<byte>, flags: byte, mask: seq<byte>, data: seq<byte>)
    requires (|mask| == 0 || |mask| == 4) && Length(bytes, mask != [], |data|)
    ensures
      var f := Frame(flags, FormOf(bytes), mask, data);
      Encodable(f) && LengthBytes(f) == bytes
  {
    if |bytes| == 9 {
      LongBytes(bytes[1..], |data|);
      assert bytes == [bytes[0]] + bytes[1..];
    }
  }

  lemma LongBytes(b: seq<byte>, n: nat)
    requires |b| == 8 && b[0] < 128 && n == BigEndian(b)
    ensures n < 0x8000_0000_0000_0000 && BE32(n / 0x1_0000_0000) + BE32(n) == b
  {
    var high, low := BigEndian(b[..4]), BigEndian(b[4..]);
    BigEndianJoin(b[..4], b[4..]);
    assert b[..4] + b[4..] == b && Power256(4) == 0x1_0000_0000;
    BigEndianFour(b[..4]);
    BigEndianFour(b[4..]);
    assert n == high * 0x1_0000_0000 + low && n / 0x1_0000_0000 == high;
    WordBytes(b[..4], 0);
    WordBytes(b[4..], high);
  }

  lemma WordBytes(b: seq<byte>, q: nat)
    requires |b| == 4
    ensures BE32(q * 0x1_0000_0000 + BigEndian(b)) == b
  {
    BigEndianFour(b);
    var n := q * 0x1_0000_0000 + BigEndian(b);
    var top := (q * 256 + b[0] as nat) * 256 + b[1] as nat;
    assert n / 65536 == top;
    HalfBytes(top, q * 256 + b[0] as nat, b[1], q, b[0]);
    HalfBytes(n, top * 256 + b[2] as nat, b[3], top, b[2]);
  }

  lemma HalfBytes(n: nat, q: nat, low: byte, p: nat, high: byte)
    requires n == q * 256 + low as nat && q == p * 256 + high as nat
    ensures BE16(n) == [high, low]
  {
    assert n / 256 == q && n % 256 == low && q % 256 == high;
  }

  // ---------------------------------------------------------------------------
  // One frame

  /** The first byte of a message or control frame of its own. */
  predicate Alone(flags: byte) {
    flags >= 128 && flags % 16 != 0
  }

  /** The bytes of a frame that is a message or control frame of its own, cut anywhere: one event with
      its first byte and the data it carries.  A ping is answered with that data, a close with a close,
      and nothing else is answered. */
  lemma FrameBytesDelivered(flags: byte, length: seq<byte>, mask: seq<byte>, wire: seq<byte>, chunks: seq<seq<byte>>)
      returns (data: seq<byte>)
    requires Alone(flags) && (|mask| == 0 || |mask| == 4) && Length(length, mask != [], |wire|)
    requires Concat(chunks) == [flags] + length + mask + wire
    ensures Carries(wire, mask, data)
    ensures
      var c := Feed(Fresh, chunks, false);
      && c.events == [Event(flags, data)] && c.recv == [] && c.reass == 0
      && c.replies == if flags % 16 == 9 then [Pong(data)] else if flags % 16 == 8 then [Close(data)] else []
  {
    hide Feed, Masked, Length;
    data := Masked(wire, mask);
    MaskedCarries(wire, mask);
    LengthIs(length, flags, mask, data);
    var f := Frame(flags, FormOf(length), mask, data);
    MaskUndoes(wire, mask);
    assert Wire(f) == Concat(chunks);
    OneFrame(f);
    StreamDelivered([f], chunks);
  }

  lemma OneFrame(f: Frame)
    requires Encodable(f) && Alone(f.flags)
    ensures LegalRun([f], None) && Stream([f], None) == Wire(f) && PartialOf([f], None) == None
    ensures EventsOf([f], None) == [Event(f.flags, f.payload)]
    ensures AnswersOf([f]) ==
      if f.flags % 16 == 9 then [Pong(f.payload)] else if f.flags % 16 == 8 then [Close(f.payload)] else []
  {
    hide Wire;
    var fs := [f];
    assert fs[1..] == [];
    assert LegalRun(fs[1..], After(f, None));
    assert Stream(fs, None) == Wire(f) + [] == Wire(f);
    assert EventsOf(fs, None) == Completed(f, None) + [];
    assert AnswersOf(fs) == Answers(f) + [];
  }

  /** A message in two fragments, the first byte of the first one naming it. */
  lemma FragmentsDelivered(flags: byte, a: seq<byte>, b: seq<byte>, chunks: seq<seq<byte>>)
    requires 0 < flags < 8 && |a| < 126 && |b| < 126
    requires Concat(chunks) == [flags, |a|] + a + ([128, |b|] + b)
    ensures
      var c := Feed(Fresh, chunks, false);
      c.events == [Event(128 + flags, a + b)] && c.replies == [] && c.recv == [] && c.reass == 0
  {
    hide Feed;
    var f, g := Frame(flags, Short, [], a), Frame(128, Short, [], b);
    var partial := Some(Event(flags, a));
    assert Wire(f) == [flags, |a|] + a && Wire(g) == [128, |b|] + b;
    var fs, gs := [f, g], [g];
    assert fs[1..] == gs && gs[1..] == [];
    assert After(f, None) == partial && After(g, partial) == None;
    assert LegalRun([], None);
    assert LegalRun(gs, partial);
    assert LegalRun(fs, None);
    assert Stream(gs, partial) == Wire(g) + [];
    assert Stream(fs, None) == Wire(f) + Stream(gs, partial) == Concat(chunks);
    StreamDelivered(fs, chunks);
    assert EventsOf(gs, partial) == Completed(g, partial) + [] == [Event(128 + flags, a + b)];
    assert EventsOf(fs, None) == Completed(f, None) + EventsOf(gs, partial);
    assert AnswersOf(gs) == [] + [] && AnswersOf(fs) == [] + AnswersOf(gs);
    assert PartialOf(gs, partial) == None;
  }

  // ---------------------------------------------------------------------------
  // What is refused

  /** A control frame that is a fragment, and a message that comes in between the fragments of
      another, are complained about and stay in the buffer. */
  lemma Refused(c: Connection)
    requires Valid(c) && c.reass < |c.recv|
    ensures
      var flags := c.recv[c.reass];
      flags < 128 && flags % 16 in {8, 9, 10} ==>
        Deliver(c, false) == (c.(replies := c.replies + [Complaint(FragmentedControl)]), false)
    ensures
      var flags := c.recv[c.reass];
      c.reass > 0 && flags >= 128 && flags % 16 !in {0, 8, 9, 10} ==>
        Deliver(c, false) == (c.(replies := c.replies + [Complaint(Interrupted)]), false)
  {
    hide ParseHeader, PayloadOf, FrameSize, Reassemble, Pass;
    assert c.recv[c.reass..][0] == c.recv[c.reass];
  }

  /** Where messages are not put together again, every frame is passed on as it is, fragments
      included. */
  lemma FrameByFrame(c: Connection, f: Frame, tail: seq<byte>)
    requires Encodable(f) && c.reass == 0 && c.recv == Wire(f) + tail
    ensures
      var (c', ok) := Deliver(c, true);
      && ok && c'.recv == tail && c'.reass == 0 && c'.events == c.events + [Event(f.flags, f.payload)]
      && c'.replies == c.replies + if f.flags % 16 == 9 then [Pong(f.payload)]
                                   else if f.flags % 16 == 8 then [Close(f.payload)] else []
  {
    hide ParseHeader, PayloadOf, Wire, FrameSize;
    var d := Wire(f) + tail;
    assert c.recv[c.reass..] == d && c.recv[..0] + tail == tail;
    WholeFrame(d, f, tail);
  }

  // ---------------------------------------------------------------------------
  // The examples of RFC 6455 section 5.7

  const HELLO: seq<byte> := [0x48, 0x65, 0x6c, 0x6c, 0x6f]

  lemma FragmentedHello(chunks: seq<seq<byte>>)
    requires Concat(chunks) == [0x01, 0x03, 0x48, 0x65, 0x6c] + [0x80, 0x02, 0x6c, 0x6f]
    ensures Feed(Fresh, chunks, false).events == [Event(0x81, HELLO)]
  {
    hide Feed;
    var a, b := [0x48, 0x65, 0x6c], [0x6c, 0x6f];
    assert [0x01, 3] + a + ([128, 2] + b) == Concat(chunks);
    FragmentsDelivered(0x01, a, b, chunks);
    assert a + b == HELLO;
  }

  lemma PingedHello(chunks: seq<seq<byte>>)
    requires Concat(chunks) == [0x89, 0x05] + HELLO
    ensures Feed(Fresh, chunks, false).replies == [Pong(HELLO)]
  {
    hide Feed;
    assert [0x89] + [5] + [] + HELLO == Concat(chunks);
    var data := FrameBytesDelivered(0x89, [5], [], HELLO, chunks);
  }
}
