/** WebSocket frames (RFC 6455): the reassembly step over the receive buffer, and the writer. */
module WebSocket {
  import opened Options
  import opened Bytes

  const CONTINUE := 0
  const CLOSE := 8
  const PING := 9
  const PONG := 10

  // ---------------------------------------------------------------------------
  // Masking

  function XorBits(a: nat, b: nat, bits: nat): (r: nat) {
    if bits == 0 then 0 else 2 * XorBits(a / 2, b / 2, bits - 1) + (if a % 2 == b % 2 then 0 else 1)
  }

  function Pow2(n: nat): nat {
    if n == 0 then 1 else 2 * Pow2(n - 1)
  }

  lemma {:induction false} XorBound(a: nat, b: nat, bits: nat)
    ensures XorBits(a, b, bits) < Pow2(bits)
  {
    if bits > 0 {
      XorBound(a / 2, b / 2, bits - 1);
    }
  }

  lemma {:induction false} XorTwice(a: nat, b: nat, bits: nat)
    requires a < Pow2(bits)
    ensures XorBits(XorBits(a, b, bits), b, bits) == a
  {
    if bits > 0 {
      XorTwice(a / 2, b / 2, bits - 1);
      var half := XorBits(a / 2, b / 2, bits - 1);
      assert XorBits(a, b, bits) / 2 == half;
    }
  }

  function Xor(a: byte, b: byte): byte {
    assert Pow2(8) == 256;
    XorBound(a, b, 8);
    XorBits(a, b, 8)
  }

  lemma XorUndoes(a: byte, b: byte)
    ensures Xor(Xor(a, b), b) == a
  {
    assert Pow2(8) == 256;
    XorTwice(a, b, 8);
  }

  /** The masking of RFC 6455 section 5.3; no mask leaves the data as it is. */
  function Masked(data: seq<byte>, mask: seq<byte>): (r: seq<byte>)
    requires |mask| == 0 || |mask| == 4
    ensures |r| == |data|
  {
    if mask == [] then data else seq(|data|, i requires 0 <= i < |data| => Xor(data[i], mask[i % 4]))
  }

  lemma MaskUndoes(data: seq<byte>, mask: seq<byte>)
    requires |mask| == 0 || |mask| == 4
    ensures Masked(Masked(data, mask), mask) == data
  {
    if mask != [] {
      forall i | 0 <= i < |data| ensures Masked(Masked(data, mask), mask)[i] == data[i] {
        XorUndoes(data[i], mask[i % 4]);
      }
    }
  }

  // ---------------------------------------------------------------------------
  // Frames on the wire

  /** The three ways to give the length. */
  datatype LengthForm = Short | Medium | Long

  /** `flags` is the first byte: FIN, reserved bits and opcode. */
  datatype Frame = Frame(flags: byte, form: LengthForm, mask: seq<byte>, payload: seq<byte>)

  predicate Fin(flags: byte) {
    flags >= 128
  }

  function Op(flags: byte): nat {
    flags % 16
  }

  /** `mg_is_ws_fragment`, `mg_is_ws_first_fragment`, `mg_is_ws_control_frame`. */
  predicate IsFragment(flags: byte) {
    !Fin(flags) || Op(flags) == CONTINUE
  }

  predicate IsFirstFragment(flags: byte) {
    !Fin(flags) && Op(flags) != CONTINUE
  }

  predicate IsControl(flags: byte) {
    Op(flags) == CLOSE || Op(flags) == PING || Op(flags) == PONG
  }

  /** A frame that can be written: the length fits its form, and 63 bits. */
  predicate Encodable(f: Frame) {
    && (|f.mask| == 0 || |f.mask| == 4)
    && match f.form
       case Short => |f.payload| < 126
       case Medium => |f.payload| < 0x1_0000
       case Long => |f.payload| < 0x8000_0000_0000_0000
  }

  function LengthBytes(f: Frame): (r: seq<byte>)
    requires Encodable(f)
    ensures |r| == if f.form.Short? then 1 else if f.form.Medium? then 3 else 9
  {
    var bit := if f.mask == [] then 0 else 128;
    match f.form
    case Short => [|f.payload| + bit]
    case Medium => [126 + bit] + BE16(|f.payload|)
    case Long => [127 + bit] + (BE32(|f.payload| / 0x1_0000_0000) + BE32(|f.payload|))
  }

  function HeaderSize(f: Frame): nat {
    (match f.form case Short => 2 case Medium => 4 case Long => 10) + |f.mask|
  }

  /** RFC 6455 section 5.2. */
  function Wire(f: Frame): (r: seq<byte>)
    requires Encodable(f)
    ensures |r| == HeaderSize(f) + |f.payload|
  {
    [f.flags] + LengthBytes(f) + f.mask + Masked(f.payload, f.mask)
  }

  // ---------------------------------------------------------------------------
  // mg_deliver_websocket_data

  const U64 := 0x1_0000_0000_0000_0000

  /** What the handler is given: first byte and payload. */
  datatype Event = Event(flags: byte, data: seq<byte>)

  datatype Reply = Pong(data: seq<byte>) | Close(data: seq<byte>) | Complaint(reason: Reason)

  datatype Reason = FragmentedControl | Interrupted | Overflowed

  /** `recv` is the receive buffer; its first `reass` bytes are the message being
      reassembled: the first byte of its first frame, then payload. */
  datatype Connection = Connection(recv: seq<byte>, reass: nat, events: seq<Event>, replies: seq<Reply>)

  predicate Valid(c: Connection) {
    c.reass <= |c.recv|
  }

  datatype Header = Header(size: nat, data: nat, mask: nat)

  /** Header size, data length and mask length; a header size of 0 if the header is not
      complete. */
  function ParseHeader(d: seq<byte>): (h: Header)
    ensures h.size <= 14 && (h.size > 0 ==> h.mask + 2 <= h.size) && (h.size == 0 ==> h.data == 0)
    ensures h.data < U64 && (h.mask == 0 || h.mask == 4)
  {
    if |d| < 2 then Header(0, 0, 0)
    else
      var len, mask := d[1] % 128, if d[1] >= 128 then 4 else 0;
      if len < 126 && |d| >= mask then Header(2 + mask, len, mask)
      else if len == 126 && |d| >= 4 + mask then Header(4 + mask, ReadBE16(d[2..]), mask)
      else if |d| >= 10 + mask then Header(10 + mask, ReadBE32(d[2..]) * 0x1_0000_0000 + ReadBE32(d[6..]), mask)
      else Header(0, 0, mask)
  }

  /** `frame_len`, in 64 bits. */
  function FrameSize(h: Header): (r: nat)
    requires h.size <= 14 && h.data < U64
    ensures r >= h.size && r >= h.data ==> r == h.size + h.data
  {
    (h.size + h.data) % U64
  }

  /** `FLAGS_MASK_FIN | flags`. */
  function WithFin(flags: byte): byte {
    if flags >= 128 then flags else flags + 128
  }

  /** The reassembled message at the start of the buffer.  (Without its first byte, which
      only a continuation of nothing can bring about, it counts as empty.) */
  function Reassembled(recv: seq<byte>, reass: nat): Event
    requires reass <= |recv|
  {
    if reass == 0 then Event(128, []) else Event(WithFin(recv[0]), recv[1..reass])
  }

  function Replies(flags: byte, data: seq<byte>): seq<Reply> {
    if Op(flags) == PING then [Pong(data)] else if Op(flags) == CLOSE then [Close(data)] else []
  }

  function Complain(c: Connection, reason: Reason): Connection {
    c.(replies := c.replies + [Complaint(reason)])
  }

  /** The payload of the frame at the start of `d`, unmasked. */
  function PayloadOf(d: seq<byte>, h: Header): seq<byte>
    requires (h.mask == 0 || h.mask == 4) && h.mask <= h.size && h.size + h.data <= |d|
  {
    Masked(d[h.size..h.size + h.data], d[h.size - h.mask..h.size])
  }

  /** A fragment: its payload joins the message, which is passed on with the last one. */
  function Reassemble(c: Connection, flags: byte, data: seq<byte>, rest: seq<byte>): (c': Connection)
    requires Valid(c)
    ensures Valid(c') && |c'.recv| <= c.reass + 1 + |data| + |rest|
  {
    var first := IsFirstFragment(flags);
    var recv := c.recv[..c.reass] + (if first then [flags] else []) + data + rest;
    var reass := (if first then 1 else c.reass) + |data|;
    if Fin(flags) then
      c.(recv := recv[reass..], reass := 0, events := c.events + [Reassembled(recv, reass)])
    else c.(recv := recv, reass := reass)
  }

  /** A frame that is a message of its own, perhaps in between the fragments of another. */
  function Pass(c: Connection, flags: byte, data: seq<byte>, rest: seq<byte>): (c': Connection)
    requires Valid(c)
    ensures Valid(c')
  {
    c.(recv := c.recv[..c.reass] + rest,
       events := c.events + [Event(flags, data)],
       replies := c.replies + Replies(flags, data))
  }

  function Deliver(c: Connection, noDefrag: bool): (r: (Connection, bool))
    requires Valid(c)
    ensures Valid(r.0)
    ensures r.1 ==> |r.0.recv| < |c.recv|
    ensures !r.1 ==> r.0.recv == c.recv && r.0.reass == c.reass
  {
    var d := c.recv[c.reass..];
    var reass := d != [] && IsFragment(d[0]) && !noDefrag;
    if reass && IsControl(d[0]) then (Complain(c, FragmentedControl), false)
    else if d != [] && !reass && !IsControl(d[0]) && c.reass > 0 then (Complain(c, Interrupted), false)
    else
      var h := ParseHeader(d);
      if FrameSize(h) < h.size || FrameSize(h) < h.data then (Complain(c, Overflowed), false)
      else if !(0 < FrameSize(h) <= |d|) then (c, false)
      else
        var data, rest := PayloadOf(d, h), d[FrameSize(h)..];
        if reass then (Reassemble(c, d[0], data, rest), true) else (Pass(c, d[0], data, rest), true)
  }

  // ---------------------------------------------------------------------------
  // What a frame sequence means

  /** The frames RFC 6455 section 5.4 allows; `partial` is the message whose last fragment
      has not been seen. */
  predicate Legal(f: Frame, partial: Option<Event>) {
    && Encodable(f)
    && (if IsFragment(f.flags) then !IsControl(f.flags) && (partial.Some? <==> Op(f.flags) == CONTINUE)
        else partial.Some? ==> IsControl(f.flags))
  }

  /** The message in progress after a frame. */
  function Joined(f: Frame, partial: Option<Event>): Event
    requires Legal(f, partial) && IsFragment(f.flags)
  {
    if Op(f.flags) == CONTINUE then Event(partial.value.flags, partial.value.data + f.payload)
    else Event(f.flags, f.payload)
  }

  function After(f: Frame, partial: Option<Event>): Option<Event>
    requires Legal(f, partial)
  {
    if !IsFragment(f.flags) then partial
    else if Fin(f.flags) then None
    else Some(Joined(f, partial))
  }

  /** The messages and control frames a frame completes. */
  function Completed(f: Frame, partial: Option<Event>): seq<Event>
    requires Legal(f, partial)
  {
    if !IsFragment(f.flags) then [Event(f.flags, f.payload)]
    else if Fin(f.flags) then [Event(WithFin(Joined(f, partial).flags), Joined(f, partial).data)]
    else []
  }

  function Answers(f: Frame): seq<Reply> {
    if IsFragment(f.flags) then [] else Replies(f.flags, f.payload)
  }

  predicate LegalRun(fs: seq<Frame>, partial: Option<Event>) {
    fs == [] || (Legal(fs[0], partial) && LegalRun(fs[1..], After(fs[0], partial)))
  }

  function EventsOf(fs: seq<Frame>, partial: Option<Event>): seq<Event>
    requires LegalRun(fs, partial)
  {
    if fs == [] then [] else Completed(fs[0], partial) + EventsOf(fs[1..], After(fs[0], partial))
  }

  function PartialOf(fs: seq<Frame>, partial: Option<Event>): Option<Event>
    requires LegalRun(fs, partial)
  {
    if fs == [] then partial else PartialOf(fs[1..], After(fs[0], partial))
  }

  function AnswersOf(fs: seq<Frame>): seq<Reply> {
    if fs == [] then [] else Answers(fs[0]) + AnswersOf(fs[1..])
  }

  ghost function Stream(fs: seq<Frame>, partial: Option<Event>): seq<byte>
    requires LegalRun(fs, partial)
  {
    if fs == [] then [] else Wire(fs[0]) + Stream(fs[1..], After(fs[0], partial))
  }

  // ---------------------------------------------------------------------------
  // One frame

  /** The buffered part of a message. */
  function Held(partial: Option<Event>): seq<byte> {
    if partial.None? then [] else [partial.value.flags] + partial.value.data
  }

  /** `d` starts with the bytes of `f`, as far as it goes. */
  ghost predicate Starts(d: seq<byte>, f: Frame)
    requires Encodable(f)
  {
    forall i :: 0 <= i < |d| && i < |Wire(f)| ==> d[i] == Wire(f)[i]
  }

  function HeaderOf(f: Frame): Header {
    Header(HeaderSize(f), |f.payload|, |f.mask|)
  }

  lemma WireBytes(f: Frame)
    requires Encodable(f)
    ensures Wire(f)[0] == f.flags && Wire(f)[1..1 + |LengthBytes(f)|] == LengthBytes(f)
    ensures HeaderSize(f) == 1 + |LengthBytes(f)| + |f.mask|
    ensures Wire(f)[HeaderSize(f) - |f.mask|..HeaderSize(f)] == f.mask
    ensures Wire(f)[HeaderSize(f)..] == Masked(f.payload, f.mask)
  {
  }

  /** The length is read back. */
  lemma LengthReadBack(d: seq<byte>, f: Frame)
    requires Encodable(f) && |d| >= 1 + |LengthBytes(f)| && d[1..1 + |LengthBytes(f)|] == LengthBytes(f)
    ensures d[1] >= 128 <==> f.mask != []
    ensures f.form.Short? ==> d[1] % 128 == |f.payload|
    ensures f.form.Medium? ==> d[1] % 128 == 126 && ReadBE16(d[2..]) == |f.payload|
    ensures f.form.Long? ==> d[1] % 128 == 127 && ReadBE32(d[2..]) * 0x1_0000_0000 + ReadBE32(d[6..]) == |f.payload|
  {
    assert d[1] == d[1..1 + |LengthBytes(f)|][0];
    match f.form
    case Short =>
    case Medium => MediumReadBack(d, |f.payload|);
    case Long => LongReadBack(d, |f.payload|);
  }

  lemma MediumReadBack(d: seq<byte>, n: nat)
    requires |d| >= 4 && n < 0x1_0000 && exists b: byte :: d[1..4] == [b] + BE16(n)
    ensures ReadBE16(d[2..]) == n
  {
    ReadWrite16(n);
    assert d[2..4] == d[1..4][1..] == BE16(n);
    assert d[2] == d[2..4][0] && d[3] == d[2..4][1];
  }

  lemma LongReadBack(d: seq<byte>, n: nat)
    requires |d| >= 10 && n < U64
    requires exists b: byte :: d[1..10] == [b] + (BE32(n / 0x1_0000_0000) + BE32(n))
    ensures ReadBE32(d[2..]) * 0x1_0000_0000 + ReadBE32(d[6..]) == n
  {
    hide BE32, ReadBE32;
    var high, low := BE32(n / 0x1_0000_0000), BE32(n);
    var b: byte :| d[1..10] == [b] + (high + low);
    forall i | 0 <= i < 4 ensures d[2..][i] == high[i] && d[6..][i] == low[i] {
      assert d[2 + i] == d[1..10][1 + i] && d[6 + i] == d[1..10][5 + i];
    }
    assert d[2..][..4] == high && d[6..][..4] == low;
    ReadWrite32(n / 0x1_0000_0000);
    Cut32(n);
    Same32(d[2..], high);
    Same32(d[6..], low);
  }

  lemma Same32(a: seq<byte>, b: seq<byte>)
    requires |a| >= 4 && |b| == 4 && a[..4] == b
    ensures ReadBE32(a) == ReadBE32(b)
  {
    assert a[0] == a[..4][0] && a[1] == a[..4][1] && a[2] == a[..4][2] && a[3] == a[..4][3];
  }

  /** With enough bytes the header is the one written; with fewer than the frame has it does
      not claim to be complete. */
  lemma ParseWire(d: seq<byte>, f: Frame)
    requires Encodable(f) && Starts(d, f)
    ensures |d| >= HeaderSize(f) ==> ParseHeader(d) == HeaderOf(f)
    ensures |d| < HeaderSize(f) ==> ParseHeader(d).size == 0 || ParseHeader(d) == HeaderOf(f)
  {
    WireBytes(f);
    var n := 1 + |LengthBytes(f)|;
    if |d| >= 2 {
      assert d[1] == Wire(f)[1] == Wire(f)[1..n][0] == LengthBytes(f)[0];
    }
    if |d| >= n {
      assert d[1..n] == Wire(f)[1..n];
      LengthReadBack(d, f);
    }
  }

  lemma WholeFrame(d: seq<byte>, f: Frame, tail: seq<byte>)
    requires Encodable(f) && d == Wire(f) + tail
    ensures ParseHeader(d) == HeaderOf(f) && FrameSize(HeaderOf(f)) == |Wire(f)| <= |d|
    ensures d[0] == f.flags && PayloadOf(d, HeaderOf(f)) == f.payload && d[|Wire(f)|..] == tail
  {
    hide ParseHeader, Masked, LengthBytes;
    ParseWire(d, f);
    WireBytes(f);
    var h := HeaderSize(f);
    assert d[h..h + |f.payload|] == Wire(f)[h..];
    assert d[h - |f.mask|..h] == Wire(f)[h - |f.mask|..h];
    MaskUndoes(f.payload, f.mask);
  }

  /** A frame that is not all there yet is left alone. */
  lemma PartOfFrame(d: seq<byte>, f: Frame)
    requires Encodable(f) && Starts(d, f) && |d| < |Wire(f)|
    ensures
      var h := ParseHeader(d);
      && FrameSize(h) == h.size + h.data && !(0 < FrameSize(h) <= |d|)
  {
    hide ParseHeader, LengthBytes, Masked, Starts;
    ParseWire(d, f);
    assert HeaderSize(f) + |f.payload| < U64;
  }

  // ---------------------------------------------------------------------------
  // One delivery

  /** A connection in the middle of a stream: `partial` and the bytes behind it. */
  ghost predicate Holds(c: Connection, partial: Option<Event>, pending: seq<byte>) {
    c.recv == Held(partial) + pending && c.reass == |Held(partial)|
  }

  /** A whole frame at the front is consumed and does what RFC 6455 says. */
  lemma DeliverFrame(c: Connection, f: Frame, partial: Option<Event>, tail: seq<byte>)
    requires Legal(f, partial) && Holds(c, partial, Wire(f) + tail)
    ensures
      var (c', ok) := Deliver(c, false);
      && ok && Holds(c', After(f, partial), tail)
      && c'.events == c.events + Completed(f, partial) && c'.replies == c.replies + Answers(f)
  {
    hide ParseHeader, PayloadOf, Wire, FrameSize;
    var held, d := Held(partial), Wire(f) + tail;
    assert c.recv[c.reass..] == d && c.recv[..c.reass] == held;
    WholeFrame(d, f, tail);
    assert Deliver(c, false) ==
        (if IsFragment(f.flags) then Reassemble(c, f.flags, f.payload, tail) else Pass(c, f.flags, f.payload, tail),
          true);
    if IsFragment(f.flags) {
      ReassembleFrame(c, f, partial, tail);
    }
  }

  lemma ReassembleFrame(c: Connection, f: Frame, partial: Option<Event>, tail: seq<byte>)
    requires Legal(f, partial) && IsFragment(f.flags) && Valid(c)
    requires c.recv[..c.reass] == Held(partial) && c.reass == |Held(partial)|
    ensures
      var c' := Reassemble(c, f.flags, f.payload, tail);
      && Holds(c', After(f, partial), tail)
      && c'.events == c.events + Completed(f, partial) && c'.replies == c.replies + Answers(f)
  {
    hide Fin, Held, Op;
    var first := IsFirstFragment(f.flags);
    var m := Joined(f, partial);
    HeldJoined(c.recv[..c.reass], f, partial);
    var recv := c.recv[..c.reass] + (if first then [f.flags] else []) + f.payload + tail;
    var reass := (if first then 1 else c.reass) + |f.payload|;
    HeldIs(m, tail);
    assert recv == Held(Some(m)) + tail;
    assert reass == |Held(Some(m))|;
    HeldNone(tail);
  }

  /** What is held with the payload is the message as far as it goes. */
  lemma HeldJoined(held: seq<byte>, f: Frame, partial: Option<Event>)
    requires Legal(f, partial) && IsFragment(f.flags) && held == Held(partial)
    ensures
      var first := IsFirstFragment(f.flags);
      && held + (if first then [f.flags] else []) + f.payload == Held(Some(Joined(f, partial)))
      && (if first then 1 else |held|) + |f.payload| == |Held(Some(Joined(f, partial)))|
  {
  }

  lemma HeldIs(m: Event, tail: seq<byte>)
    ensures
      var recv, n := Held(Some(m)) + tail, |Held(Some(m))|;
      n == 1 + |m.data| && recv[0] == m.flags && recv[1..n] == m.data && recv[n..] == tail
  {
  }

  lemma HeldNone(tail: seq<byte>)
    ensures Held(None) == [] && Held(None) + tail == tail
  {
  }

  /** Less than a frame is not touched. */
  lemma DeliverPart(c: Connection, f: Frame, partial: Option<Event>, d: seq<byte>)
    requires Legal(f, partial) && Starts(d, f) && |d| < |Wire(f)| && Holds(c, partial, d)
    ensures Deliver(c, false) == (c, false)
  {
    hide PayloadOf, FrameSize, LengthBytes, Masked, Wire, Held, Legal, Reassemble, Pass, ParseHeader, IsFragment,
      IsControl;
    assert c.recv[c.reass..] == d;
    LegalFlags(f, partial);
    PartOfFrame(d, f);
    if d != [] {
      WireBytes(f);
      assert d[0] == Wire(f)[0];
    }
  }

  lemma LegalFlags(f: Frame, partial: Option<Event>)
    requires Legal(f, partial)
    ensures Encodable(f)
    ensures !(IsFragment(f.flags) && IsControl(f.flags))
    ensures !(!IsFragment(f.flags) && !IsControl(f.flags) && |Held(partial)| > 0)
  {
  }

  lemma DeliverNothing(c: Connection, partial: Option<Event>)
    requires Holds(c, partial, [])
    ensures Deliver(c, false) == (c, false)
  {
    assert c.recv[c.reass..] == [];
  }

  // ---------------------------------------------------------------------------
  // The receive loop over a stream

  /** The loop of `mg_ws_handler`. */
  function Drain(c: Connection, noDefrag: bool): (c': Connection)
    requires Valid(c)
    ensures Valid(c')
    decreases |c.recv|
  {
    var (next, ok) := Deliver(c, noDefrag);
    if ok then Drain(next, noDefrag) else next
  }

  function Receive(c: Connection, chunk: seq<byte>, noDefrag: bool): (c': Connection)
    requires Valid(c)
    ensures Valid(c')
  {
    Drain(c.(recv := c.recv + chunk), noDefrag)
  }

  function Feed(c: Connection, chunks: seq<seq<byte>>, noDefrag: bool): (c': Connection)
    requires Valid(c)
    ensures Valid(c')
    decreases |chunks|
  {
    if chunks == [] then c else Feed(Receive(c, chunks[0], noDefrag), chunks[1..], noDefrag)
  }

  const Fresh := Connection([], 0, [], [])

  /** A connection that has still to see the frames `fs` of a stream, with `pending` of
      their bytes in the buffer. */
  ghost predicate Awaits(c: Connection, partial: Option<Event>, pending: seq<byte>, fs: seq<Frame>) {
    Holds(c, partial, pending) && LegalRun(fs, partial)
  }

  /** What has been passed on and what the frames to come stand for, together, is the same. */
  ghost predicate Conserved(c: Connection, partial: Option<Event>, fs: seq<Frame>,
                            c': Connection, partial': Option<Event>, fs': seq<Frame>)
    requires LegalRun(fs, partial) && LegalRun(fs', partial')
  {
    && c'.events + EventsOf(fs', partial') == c.events + EventsOf(fs, partial)
    && c'.replies + AnswersOf(fs') == c.replies + AnswersOf(fs)
    && PartialOf(fs', partial') == PartialOf(fs, partial)
  }

  /** The bytes are not a whole frame of those still to come. */
  ghost predicate Incomplete(pending: seq<byte>, fs: seq<Frame>, partial: Option<Event>)
    requires LegalRun(fs, partial)
  {
    if fs == [] then pending == [] else |pending| < |Wire(fs[0])|
  }

  lemma FirstFrame(pending: seq<byte>, later: seq<byte>, fs: seq<Frame>, partial: Option<Event>)
    requires fs != [] && LegalRun(fs, partial) && pending + later == Stream(fs, partial)
    ensures Encodable(fs[0])
    ensures |pending| < |Wire(fs[0])| ==> Starts(pending, fs[0])
    ensures |pending| >= |Wire(fs[0])| ==>
      && pending == Wire(fs[0]) + pending[|Wire(fs[0])|..]
      && pending[|Wire(fs[0])|..] + later == Stream(fs[1..], After(fs[0], partial))
  {
    hide Wire;
    var w, rest := Wire(fs[0]), Stream(fs[1..], After(fs[0], partial));
    assert pending + later == w + rest;
    if |pending| < |w| {
      forall i | 0 <= i < |pending| ensures pending[i] == w[i] {
        assert pending[i] == (pending + later)[i] == (w + rest)[i];
      }
    } else {
      assert pending[..|w|] == (pending + later)[..|w|] == (w + rest)[..|w|] == w;
      assert pending[|w|..] + later == (pending + later)[|w|..];
      assert (w + rest)[|w|..] == rest;
    }
  }

  /** One frame delivered: nothing is lost or invented. */
  lemma FrameConserved(c: Connection, c': Connection, fs: seq<Frame>, partial: Option<Event>)
    requires fs != [] && LegalRun(fs, partial)
    requires c'.events == c.events + Completed(fs[0], partial) && c'.replies == c.replies + Answers(fs[0])
    ensures LegalRun(fs[1..], After(fs[0], partial))
    ensures Conserved(c, partial, fs, c', After(fs[0], partial), fs[1..])
  {
    var a, b := Completed(fs[0], partial), EventsOf(fs[1..], After(fs[0], partial));
    assert c.events + (a + b) == (c.events + a) + b;
    var x, y := Answers(fs[0]), AnswersOf(fs[1..]);
    assert c.replies + (x + y) == (c.replies + x) + y;
  }

  /** The loop delivers the frames that have arrived completely, as many as there are. */
  lemma {:induction false} DrainFrames(c: Connection, partial: Option<Event>, pending: seq<byte>, fs: seq<Frame>,
                                       later: seq<byte>)
    returns (partial': Option<Event>, left: seq<byte>, fs': seq<Frame>)
    requires Awaits(c, partial, pending, fs) && pending + later == Stream(fs, partial)
    ensures Awaits(Drain(c, false), partial', left, fs') && left + later == Stream(fs', partial')
    ensures Incomplete(left, fs', partial')
    ensures Conserved(c, partial, fs, Drain(c, false), partial', fs')
    decreases |fs|
  {
    hide Wire, Deliver, After, Completed, Answers, Legal;
    partial', left, fs' := partial, pending, fs;
    if fs == [] {
      assert pending == [];
      DeliverNothing(c, partial);
    } else {
      FirstFrame(pending, later, fs, partial);
      if |pending| < |Wire(fs[0])| {
        DeliverPart(c, fs[0], partial, pending);
      } else {
        var tail := pending[|Wire(fs[0])|..];
        DeliverFrame(c, fs[0], partial, tail);
        var next := Deliver(c, false).0;
        FrameConserved(c, next, fs, partial);
        partial', left, fs' := DrainFrames(next, After(fs[0], partial), tail, fs[1..], later);
      }
    }
  }

  /** Bytes may arrive cut anywhere. */
  lemma {:induction false} FeedFrames(c: Connection, partial: Option<Event>, pending: seq<byte>, fs: seq<Frame>,
                                      chunks: seq<seq<byte>>)
    requires Awaits(c, partial, pending, fs) && pending + Concat(chunks) == Stream(fs, partial)
    requires Incomplete(pending, fs, partial)
    ensures Feed(c, chunks, false).events == c.events + EventsOf(fs, partial)
    ensures Feed(c, chunks, false).replies == c.replies + AnswersOf(fs)
    ensures Holds(Feed(c, chunks, false), PartialOf(fs, partial), [])
    decreases |chunks|
  {
    hide Wire, Drain, After, Completed, Answers, Legal, Held;
    if chunks == [] {
      NothingToCome(c, partial, pending, fs);
    } else {
      var later := Concat(chunks[1..]);
      var arrived := c.(recv := c.recv + chunks[0]);
      assert (Held(partial) + pending) + chunks[0] == Held(partial) + (pending + chunks[0]);
      assert pending + (chunks[0] + later) == (pending + chunks[0]) + later;
      var partial', left, fs' := DrainFrames(arrived, partial, pending + chunks[0], fs, later);
      FeedFrames(Drain(arrived, false), partial', left, fs', chunks[1..]);
    }
  }

  lemma NothingToCome(c: Connection, partial: Option<Event>, pending: seq<byte>, fs: seq<Frame>)
    requires Awaits(c, partial, pending, fs) && pending + [] == Stream(fs, partial) && Incomplete(pending, fs, partial)
    ensures fs == [] && pending == []
    ensures c.events == c.events + EventsOf(fs, partial) && c.replies == c.replies + AnswersOf(fs)
  {
    hide Wire;
    assert pending + [] == pending;
  }

  /** For every legal frame sequence and every way to cut its bytes into deliveries, exactly
      its messages and control frames are passed on, in order, pings and closes are answered,
      and the buffer keeps what there is of a message that is not finished. */
  lemma StreamDelivered(fs: seq<Frame>, chunks: seq<seq<byte>>)
    requires LegalRun(fs, None) && Concat(chunks) == Stream(fs, None)
    ensures
      var c := Feed(Fresh, chunks, false);
      && c.events == EventsOf(fs, None) && c.replies == AnswersOf(fs)
      && c.recv == Held(PartialOf(fs, None)) && c.reass == |c.recv|
  {
    hide Wire, Drain, After, Completed, Answers, Legal;
    assert [] + Concat(chunks) == Concat(chunks);
    FeedFrames(Fresh, None, [], fs, chunks);
    assert Fresh.events + EventsOf(fs, None) == EventsOf(fs, None);
    assert Fresh.replies + AnswersOf(fs) == AnswersOf(fs);
    assert Held(PartialOf(fs, None)) + [] == Held(PartialOf(fs, None));
  }
}
