/** The WebSocket code as it runs: over the receive buffer in place, and into the send
    buffer. */
module WebSocketIo {
  import opened Options
  import opened Bytes
  import opened WebSocket

  lemma MaskedMore(data: seq<byte>, mask: seq<byte>, i: nat)
    requires |mask| == 4 && i < |data|
    ensures Masked(data[..i + 1], mask) == Masked(data[..i], mask) + [Xor(data[i], mask[i % 4])]
  {
  }

  /** The two loops that mask: bytes `at` to `at + n` of a buffer, by the mask. */
  method MaskInPlace(buf: seq<byte>, at: nat, n: nat, mask: seq<byte>) returns (r: seq<byte>)
    requires at + n <= |buf| && |mask| == 4
    ensures r == buf[..at] + Masked(buf[at..at + n], mask) + buf[at + n..]
  {
    hide Masked, Xor;
    r := buf;
    assert buf[at..at + n][..0] == [] && |Masked([], mask)| == 0;
    assert r == buf[..at] + Masked(buf[at..at + n][..0], mask) + buf[at..];
    for i := 0 to n
      invariant |r| == |buf| && r == buf[..at] + Masked(buf[at..at + n][..i], mask) + buf[at + i..]
    {
      ghost var done := Masked(buf[at..at + n][..i], mask);
      MaskedMore(buf[at..at + n], mask, i);
      assert buf[at + i..] == [buf[at + i]] + buf[at + i + 1..];
      r := r[at + i := Xor(r[at + i], mask[i % 4])];
      assert r == buf[..at] + (done + [Xor(buf[at + i], mask[i % 4])]) + buf[at + i + 1..];
    }
    assert buf[at..at + n][..n] == buf[at..at + n];
  }

  /** The payload and what is behind it, seen from the buffer. */
  lemma PayloadAt(s: seq<byte>, start: nat, h: Header)
    requires (h.mask == 0 || h.mask == 4) && h.mask <= h.size && start + h.size + h.data <= |s|
    ensures
      var at := start + h.size;
      && |PayloadOf(s[start..], h)| == h.data
      && PayloadOf(s[start..], h) == Masked(s[at..at + h.data], s[at - h.mask..at])
      && s[start..][h.size + h.data..] == s[at + h.data..]
  {
    hide Masked;
    var at := start + h.size;
    assert s[start..][h.size..h.size + h.data] == s[at..at + h.data];
    assert s[start..][h.size - h.mask..h.size] == s[at - h.mask..at];
  }

  lemma StaysValid(c: Connection, c': Connection)
    requires Valid(c) && c' == c.(recv := c'.recv) && |c'.recv| == |c.recv| && c.recv[..c.reass] == c'.recv[..c.reass]
    ensures Valid(c')
  {
  }

  lemma SameFront(a: seq<byte>, b: seq<byte>, n: nat, k: nat)
    requires k < n <= |a| && n <= |b| && a[..n] == b[..n]
    ensures a[k] == b[k] && a[..k] == b[..k]
  {
    assert a[k] == a[..n][k] && b[k] == b[..n][k];
    assert a[..k] == a[..n][..k] && b[..k] == b[..n][..k];
  }

  /** The payload moved up against what is kept in front of it. */
  lemma MovedUp(s: seq<byte>, to: nat, from: nat, size: nat, flags: byte, first: bool)
    requires to < from && from + size <= |s| && s[to] == flags
    ensures s[..if first then to + 1 else to] + s[from..]
         == s[..to] + (if first then [flags] else []) + s[from..from + size] + s[from + size..]
  {
    assert s[from..] == s[from..from + size] + s[from + size..];
    assert s[..to + 1] == s[..to] + [flags];
  }

  class Receiver {
    var recv: seq<byte>
    var reassLen: nat
    var events: seq<Event>
    var replies: seq<Reply>
    const noDefrag: bool

    constructor (noDefrag: bool)
      ensures State() == Fresh && this.noDefrag == noDefrag
    {
      recv, reassLen, events, replies := [], 0, [], [];
      this.noDefrag := noDefrag;
    }

    function State(): Connection
      reads this
    {
      Connection(recv, reassLen, events, replies)
    }

    method Close(reason: Reason)
      modifies this`replies
      ensures replies == old(replies) + [Complaint(reason)]
    {
      replies := replies + [Complaint(reason)];
    }

    /** A fragment: its payload is moved up against what there is of the message. */
    method Reassemble(flags: byte, header: nat, size: nat)
      requires reassLen + header + size <= |recv| && header >= 2 && recv[reassLen] == flags
      modifies this
      ensures State() == WebSocket.Reassemble(old(State()), flags,
                           old(recv[reassLen + header..reassLen + header + size]),
                             old(recv[reassLen + header + size..]))
    {
      hide IsFirstFragment, Fin;
      var to, from := reassLen, reassLen + header;
      ghost var data, rest := recv[from..from + size], recv[from + size..];
      MovedUp(recv, to, from, size, flags, IsFirstFragment(flags));
      if IsFirstFragment(flags) {
        to, reassLen := to + 1, 1;
      }
      ghost var c := old(State());
      recv := recv[..to] + recv[from..];
      reassLen := reassLen + size;
      if Fin(flags) {
        events := events + [Reassembled(recv, reassLen)];
        recv := recv[reassLen..];
        reassLen := 0;
      }
    }

    /** A complete message: it is passed on, and cut out of the buffer. */
    method Pass(flags: byte, header: nat, size: nat)
      requires reassLen + header + size <= |recv|
      modifies this
      ensures State() == WebSocket.Pass(old(State()), flags,
                           old(recv[reassLen + header..reassLen + header + size]),
                             old(recv[reassLen + header + size..]))
    {
      var data := recv[reassLen + header..reassLen + header + size];
      match Op(flags) {
        case 9 => replies := replies + [Pong(data)];
        case 8 => replies := replies + [Reply.Close(data)];
        case _ =>
      }
      events := events + [Event(flags, data)];
      recv := recv[..reassLen] + recv[reassLen + header + size..];
    }

    /** The frame at the front is all there: it is unmasked where it stands and used. */
    method Consume(flags: byte, h: Header, reass: bool)
      requires Valid(State()) && h.mask + 2 <= h.size && (h.mask == 0 || h.mask == 4)
      requires reassLen + h.size + h.data <= |recv| && recv[reassLen] == flags
      modifies this
      ensures
        var d := old(recv[reassLen..]);
        var data, rest := PayloadOf(d, h), d[h.size + h.data..];
        State() == if reass then WebSocket.Reassemble(old(State()), flags, data, rest)
                   else WebSocket.Pass(old(State()), flags, data, rest)
    {
      hide WebSocket.Reassemble, WebSocket.Pass, Masked, PayloadOf, Valid;
      ghost var c, d := State(), recv[reassLen..];
      ghost var data := PayloadOf(d, h);
      var at := reassLen + h.size;
      PayloadAt(recv, reassLen, h);
      if h.mask > 0 {
        recv := MaskInPlace(recv, at, h.data, recv[at - 4..at]);
      } else {
        NoMask(recv, at, h.data, recv[at - h.mask..at]);
      }
      Unmasked(c.recv, recv, at, h.data, data);
      SameFront(c.recv, recv, at, reassLen);
      StaysValid(c, State());
      SamePrefix(c, State(), flags, data, recv[at + h.data..]);
      if reass {
        Reassemble(flags, h.size, h.data);
      } else {
        Pass(flags, h.size, h.data);
      }
    }

    /** `mg_deliver_websocket_data`. */
    method DeliverData() returns (ok: bool)
      requires Valid(State())
      modifies this
      ensures (State(), ok) == Deliver(old(State()), noDefrag)
    {
      hide WebSocket.Reassemble, WebSocket.Pass, PayloadOf, ParseHeader, FrameSize, IsFragment, IsControl;
      var pending := |recv| - reassLen;
      ghost var d := recv[reassLen..];
      var flags: byte := if pending > 0 then recv[reassLen] else 0;
      var reass := pending > 0 && IsFragment(flags) && !noDefrag;
      if reass && IsControl(flags) {
        Close(FragmentedControl);
        return false;
      } else if pending > 0 && !reass && !IsControl(flags) && reassLen > 0 {
        Close(Interrupted);
        return false;
      }
      var h := ParseHeader(recv[reassLen..]);
      var frame := FrameSize(h);
      ok := 0 < frame <= pending;
      if frame < h.size || frame < h.data {
        ok := false;
        Close(Overflowed);
      }
      if ok {
        Consume(flags, h, reass);
      }
    }

    /** Data has arrived: the loop of `mg_ws_handler`. */
    method OnReceive(chunk: seq<byte>)
      requires Valid(State())
      modifies this
      ensures State() == Receive(old(State()), chunk, noDefrag)
    {
      hide Deliver;
      recv := recv + chunk;
      var ok := true;
      while ok
        invariant Valid(State())
        invariant if ok then Drain(State(), noDefrag) == Receive(old(State()), chunk, noDefrag)
                  else State() == Receive(old(State()), chunk, noDefrag)
        decreases |recv|, ok
      {
        ok := DeliverData();
      }
    }
  }

  lemma NoMask(buf: seq<byte>, at: nat, n: nat, mask: seq<byte>)
    requires at + n <= |buf| && mask == []
    ensures buf == buf[..at] + Masked(buf[at..at + n], mask) + buf[at + n..]
  {
  }

  /** Only the bytes of the payload have changed. */
  lemma Unmasked(before: seq<byte>, after: seq<byte>, at: nat, n: nat, data: seq<byte>)
    requires at + n <= |before| && |data| == n
    requires after == before[..at] + data + before[at + n..]
    ensures after[at..at + n] == data && after[at + n..] == before[at + n..] && after[..at] == before[..at]
  {
  }

  /** The outcome depends on the message in progress, not on the rest of the buffer. */
  lemma SamePrefix(c: Connection, c': Connection, flags: byte, data: seq<byte>, rest: seq<byte>)
    requires Valid(c) && Valid(c') && c' == c.(recv := c'.recv) && c.recv[..c.reass] == c'.recv[..c.reass]
    ensures Reassemble(c, flags, data, rest) == Reassemble(c', flags, data, rest)
    ensures Pass(c, flags, data, rest) == Pass(c', flags, data, rest)
  {
  }

  // ---------------------------------------------------------------------------
  // Writing

  /** `WEBSOCKET_DONT_FIN` in the operation to be sent. */
  predicate DontFin(op: nat) {
    op / 0x100 % 2 == 1
  }

  function FlagsOf(op: nat): byte {
    (if DontFin(op) then 0 else 128) + op % 16
  }

  function FormFor(n: nat): LengthForm {
    if n < 126 then Short else if n < 65535 then Medium else Long
  }

  /** The frame `mg_send_websocket_frame` writes. */
  function FrameOf(op: nat, data: seq<byte>, mask: seq<byte>): Frame {
    Frame(FlagsOf(op), FormFor(|data|), mask, data)
  }

  function HeaderBytes(f: Frame): seq<byte>
    requires Encodable(f)
  {
    [f.flags] + LengthBytes(f) + f.mask
  }

  lemma FrameParts(op: nat, data: seq<byte>, mask: seq<byte>)
    requires |data| < 0x8000_0000_0000_0000 && (|mask| == 0 || |mask| == 4)
    ensures
      var f := FrameOf(op, data, mask);
      && Encodable(f) && f.payload == data && f.mask == mask
      && Wire(f) == HeaderBytes(f) + Masked(data, mask)
  {
  }

  lemma UnmaskedData(data: seq<byte>)
    ensures Masked(data, []) == data
  {
  }

  class Writer {
    var send: seq<byte>
    /** Client connections mask what they send. */
    const client: bool

    constructor (client: bool)
      ensures send == [] && this.client == client
    {
      send, this.client := [], client;
    }

    /** `mg_send_ws_header`, for a frame with this payload; the position returned is 0 when
        nothing is to be masked. */
    method SendHeader(op: nat, len: nat, random: seq<byte>, ghost f: Frame) returns (pos: nat)
      requires len == |f.payload| < 0x8000_0000_0000_0000 && |random| == 4
      requires f == FrameOf(op, f.payload, if client then random else [])
      modifies this
      ensures pos == if client then |send| else 0
      ensures send == old(send) + HeaderBytes(f) && |send| > |old(send)|
    {
      var bit := if client then 128 else 0;
      var header: seq<byte>;
      if len < 126 {
        header := [FlagsOf(op), len + bit];
      } else if len < 65535 {
        header := [FlagsOf(op), 126 + bit] + BE16(len);
      } else {
        header := [FlagsOf(op), 127 + bit] + BE32(len / 0x1_0000_0000) + BE32(len);
      }
      send := send + header;
      pos := 0;
      if client {
        send := send + random;
        pos := |send|;
      }
    }

    /** `mg_send_websocket_frame`. */
    method SendFrame(op: nat, data: seq<byte>, random: seq<byte>)
      requires |data| < 0x8000_0000_0000_0000 && |random| == 4
      modifies this
      ensures send == old(send) + Wire(FrameOf(op, data, if client then random else []))
    {
      hide FrameOf, HeaderBytes, Masked, Wire, Encodable;
      ghost var f := FrameOf(op, data, if client then random else []);
      FrameParts(op, data, if client then random else []);
      var pos := SendHeader(op, |data|, random, f);
      ghost var before := send;
      send := send + data;
      MaskFrame(pos, random, before, data);
      assert (old(send) + HeaderBytes(f)) + Masked(data, f.mask) == old(send) + (HeaderBytes(f) + Masked(data, f.mask));
    }

    /** `mg_ws_mask_frame`: everything behind the header, unless `pos` is 0. */
    method MaskFrame(pos: nat, random: seq<byte>, ghost header: seq<byte>, ghost data: seq<byte>)
      requires |random| == 4 && send == header + data && (pos == 0 || pos == |header|)
      modifies this
      ensures send == header + Masked(data, if pos > 0 then random else [])
    {
      hide Masked;
      if pos > 0 {
        var n := |send| - pos;
        assert send[..pos] == header && send[pos..pos + n] == data && send[pos + n..] == [];
        send := MaskInPlace(send, pos, n, random);
        assert header + Masked(data, random) + [] == header + Masked(data, random);
      } else {
        UnmaskedData(data);
      }
    }
  }

  /** What one side sends the other side is given, with the same operation and payload,
      masked or not and however the bytes are cut. */
  lemma MessageArrives(op: nat, data: seq<byte>, mask: seq<byte>, chunks: seq<seq<byte>>)
    requires |data| < 0x8000_0000_0000_0000 && (|mask| == 0 || |mask| == 4)
    requires !DontFin(op) && op % 16 != CONTINUE
    requires Encodable(FrameOf(op, data, mask)) && Concat(chunks) == Wire(FrameOf(op, data, mask))
    ensures
      var c := Feed(Fresh, chunks, false);
      && c.events == [Event(128 + op % 16, data)] && c.recv == [] && c.reass == 0
  {
    hide Wire, Feed;
    var f := FrameOf(op, data, mask);
    assert Op(f.flags) == op % 16;
    var fs := [f];
    assert fs[1..] == [];
    assert LegalRun(fs, None) by { assert LegalRun(fs[1..], After(f, None)); }
    assert Stream(fs, None) == Wire(f) + [] == Wire(f);
    StreamDelivered(fs, chunks);
    assert EventsOf(fs, None) == Completed(f, None) + [] == [Event(f.flags, data)];
    assert PartialOf(fs, None) == None;
  }

  /** A message sent in two parts, the first one with `WEBSOCKET_DONT_FIN` (0x100) and the second one
      as a continuation, arrives as one. */
  lemma PartsArrive(op: nat, a: seq<byte>, b: seq<byte>, m: seq<byte>, n: seq<byte>, chunks: seq<seq<byte>>)
    requires 0 < op < 8 && |a| < 0x8000_0000_0000_0000 && |b| < 0x8000_0000_0000_0000
    requires (|m| == 0 || |m| == 4) && (|n| == 0 || |n| == 4)
    requires Encodable(FrameOf(0x100 + op, a, m)) && Encodable(FrameOf(0, b, n))
    requires Concat(chunks) == Wire(FrameOf(0x100 + op, a, m)) + Wire(FrameOf(0, b, n))
    ensures Feed(Fresh, chunks, false).events == [Event(128 + op, a + b)]
  {
    hide Wire, Feed, FormFor;
    var f, g, partial := FrameOf(0x100 + op, a, m), FrameOf(0, b, n), Some(Event(op, a));
    assert f.flags == op && g.flags == 128;
    var fs, gs := [f, g], [g];
    assert fs[1..] == gs && gs[1..] == [];
    assert After(f, None) == partial && After(g, partial) == None;
    assert LegalRun([], None);
    assert LegalRun(gs, partial);
    assert LegalRun(fs, None);
    assert Stream(gs, partial) == Wire(g) + [];
    assert Stream(fs, None) == Wire(f) + Stream(gs, partial);
    StreamDelivered(fs, chunks);
    assert EventsOf(gs, partial) == Completed(g, partial) + [] == [Event(128 + op, a + b)];
    assert EventsOf(fs, None) == Completed(f, None) + EventsOf(gs, partial);
  }

  predicate Minimal(f: Frame) {
    match f.form
    case Short => true
    case Medium => |f.payload| >= 126
    case Long => |f.payload| >= 65536
  }

  /** RFC 6455 section 5.2 wants the shortest form of the length; the writer uses it for
      every length but 65535. */
  lemma WritesMinimalLength(op: nat, data: seq<byte>, mask: seq<byte>)
    ensures Minimal(FrameOf(op, data, mask)) <==> |data| != 65535
  {
  }
}
