/** HTTP chunked bodies (RFC 7230 section 4.1): writing a chunk, and collapsing the chunks that
    have arrived into a body, in place. */
module Chunked {
  import opened Options
  import opened Bytes

  const CR: byte := 13
  const LF: byte := 10

  // ---------------------------------------------------------------------------
  // mg_http_parse_chunk

  function HexValue(b: byte): Option<nat> {
    if '0' as int <= b <= '9' as int then Some(b - '0' as int)
    else if 'A' as int <= b <= 'F' as int then Some(b - 'A' as int + 10)
    else if 'a' as int <= b <= 'f' as int then Some(b - 'a' as int + 10)
    else None
  }

  /** The hexadecimal number at the start: digits and value.  More than 6 digits are too
      many. */
  function HexNumber(s: seq<byte>, i: nat, n: nat): (r: Option<(nat, nat)>)
    requires i <= 6 && i <= |s|
    ensures r.Some? ==> i <= r.value.0 <= 6 && r.value.0 <= |s|
    decreases 6 - i
  {
    if i < |s| && HexValue(s[i]).Some? then
      if i + 1 > 6 then None else HexNumber(s, i + 1, n * 16 + HexValue(s[i]).value)
    else Some((i, n))
  }

  predicate NewLineAt(s: seq<byte>, i: nat) {
    i + 2 <= |s| && s[i] == CR && s[i + 1] == LF
  }

  /** A chunk that has arrived completely: where its data starts, how long that is, and the
      size of the whole. */
  datatype Chunk = Chunk(at: nat, size: nat, total: nat)

  function ParseChunk(s: seq<byte>): (r: Option<Chunk>)
    ensures r.Some? ==> 0 < r.value.at && r.value.total == r.value.at + r.value.size + 2 <= |s|
  {
    match HexNumber(s, 0, 0)
    case None => None
    case Some((digits, n)) =>
      if digits == 0 || !NewLineAt(s, digits) then None
      else if !NewLineAt(s, digits + 2 + n) then None
      else Some(Chunk(digits + 2, n, digits + 2 + n + 2))
  }

  function DataOf(s: seq<byte>): seq<byte>
    requires ParseChunk(s).Some?
  {
    var c := ParseChunk(s).value;
    s[c.at..c.at + c.size]
  }

  // ---------------------------------------------------------------------------
  // All chunks there are

  /** The data of the chunks at the start of `s`, what is left, and whether the last chunk,
      which has no data, has been seen. */
  datatype Body = Body(data: seq<byte>, rest: seq<byte>, complete: bool)

  function Collapse(s: seq<byte>): (r: Body)
    ensures |r.data| + |r.rest| <= |s|
    ensures r.rest != s ==> |r.data| + |r.rest| < |s|
    decreases |s|
  {
    match ParseChunk(s)
    case None => Body([], s, false)
    case Some(c) =>
      if c.size == 0 then Body([], s[c.total..], true)
      else Prepend(DataOf(s), Collapse(s[c.total..]))
  }

  function Prepend(d: seq<byte>, b: Body): Body {
    b.(data := d + b.data)
  }

  /** A complete chunk stays one, and the same, when more arrives. */
  lemma ChunkStays(s: seq<byte>, t: seq<byte>)
    requires ParseChunk(s).Some?
    ensures ParseChunk(s + t) == ParseChunk(s) && DataOf(s + t) == DataOf(s)
    ensures (s + t)[ParseChunk(s).value.total..] == s[ParseChunk(s).value.total..] + t
  {
    hide HexNumber, NewLineAt;
    NumberStays(s, t, 0, 0);
    var c := ParseChunk(s).value;
    NewLineStays(s, t, c.at - 2);
    NewLineStays(s, t, c.total - 2);
    PartStays(s, t, c.at, c.at + c.size);
    RestStays(s, t, c.total);
  }

  lemma NewLineStays(s: seq<byte>, t: seq<byte>, i: nat)
    requires i + 2 <= |s|
    ensures NewLineAt(s + t, i) <==> NewLineAt(s, i)
  {
  }

  lemma PartStays(s: seq<byte>, t: seq<byte>, a: nat, b: nat)
    requires a <= b <= |s|
    ensures (s + t)[a..b] == s[a..b]
  {
  }

  lemma RestStays(s: seq<byte>, t: seq<byte>, a: nat)
    requires a <= |s|
    ensures (s + t)[a..] == s[a..] + t
  {
  }

  lemma {:induction false} NumberStays(s: seq<byte>, t: seq<byte>, i: nat, n: nat)
    requires i <= 6 && i <= |s|
    requires HexNumber(s, i, n).Some? && HexNumber(s, i, n).value.0 < |s|
    ensures HexNumber(s + t, i, n) == HexNumber(s, i, n)
    decreases 6 - i
  {
    if i < |s| && HexValue(s[i]).Some? {
      NumberStays(s, t, i + 1, n * 16 + HexValue(s[i]).value);
    }
  }

  /** Decoding what has arrived, then the rest together with what comes later, is decoding
      all at once. */
  lemma {:induction false} CollapseLater(a: seq<byte>, b: seq<byte>)
    ensures
      var first := Collapse(a);
      Collapse(a + b) == if first.complete then first.(rest := first.rest + b)
                         else Prepend(first.data, Collapse(first.rest + b))
    decreases |a|
  {
    hide ParseChunk, DataOf;
    var c := ParseChunk(a);
    if c.None? {
      assert [] + Collapse(a + b).data == Collapse(a + b).data;
    } else {
      ChunkStays(a, b);
      if c.value.size > 0 {
        var tail := a[c.value.total..];
        CollapseLater(tail, b);
        var first := Collapse(tail);
        assert DataOf(a) + (first.data + Collapse(first.rest + b).data) == (DataOf(a) + first.data)
          + Collapse(first.rest + b).data;
      }
    }
  }

  // ---------------------------------------------------------------------------
  // Deliveries, when the length of the body is carried over

  /** The receive buffer: the body so far, then bytes that are not a chunk yet. */
  datatype Buffer = Buffer(body: seq<byte>, pending: seq<byte>, complete: bool)

  const Empty := Buffer([], [], false)

  function Deliver(b: Buffer, d: seq<byte>): Buffer {
    if b.complete then b.(pending := b.pending + d)
    else
      var c := Collapse(b.pending + d);
      Buffer(b.body + c.data, c.rest, c.complete)
  }

  function DeliverAll(b: Buffer, ds: seq<seq<byte>>): Buffer
    decreases |ds|
  {
    if ds == [] then b else DeliverAll(Deliver(b, ds[0]), ds[1..])
  }

  /** What a buffer stands for when these bytes are still to come. */
  function Expected(b: Buffer, later: seq<byte>): Buffer {
    if b.complete then b.(pending := b.pending + later)
    else
      var c := Collapse(b.pending + later);
      Buffer(b.body + c.data, c.rest, c.complete)
  }

  lemma Join(a: seq<byte>, b: seq<byte>, c: seq<byte>)
    ensures a + (b + c) == (a + b) + c
  {
  }

  lemma DeliverKeeps(b: Buffer, d: seq<byte>, later: seq<byte>)
    ensures Expected(Deliver(b, d), later) == Expected(b, d + later)
  {
    hide Collapse;
    Join(b.pending, d, later);
    if !b.complete {
      var first := Collapse(b.pending + d);
      CollapseLater(b.pending + d, later);
      Join(b.body, first.data, Collapse(first.rest + later).data);
    }
  }

  lemma {:induction false} DeliveriesExpected(b: Buffer, ds: seq<seq<byte>>)
    requires !b.complete ==> Collapse(b.pending) == Body([], b.pending, false)
    ensures DeliverAll(b, ds) == Expected(b, Concat(ds))
    decreases |ds|
  {
    if ds == [] {
      assert b.pending + [] == b.pending && b.body + [] == b.body;
    } else {
      var next := Deliver(b, ds[0]);
      DeliverKeeps(b, ds[0], Concat(ds[1..]));
      NothingMore(b.pending + ds[0]);
      DeliveriesExpected(next, ds[1..]);
    }
  }

  /** What is left holds no complete chunk. */
  lemma {:induction false} NothingMore(s: seq<byte>)
    ensures !Collapse(s).complete ==> Collapse(Collapse(s).rest) == Body([], Collapse(s).rest, false)
    decreases |s|
  {
    hide DataOf;
    if ParseChunk(s).Some? && ParseChunk(s).value.size > 0 {
      NothingMore(s[ParseChunk(s).value.total..]);
    }
  }

  /** However the bytes of a body are cut into deliveries, the outcome is that of one, as long as
      `body_len` is carried over from one call of `mg_handle_chunked` to the next. */
  lemma CutsDoNotMatter(ds: seq<seq<byte>>)
    ensures DeliverAll(Empty, ds) == Deliver(Empty, Concat(ds))
  {
    NoChunk();
    DeliveriesExpected(Empty, ds);
    assert [] + Concat(ds) == Concat(ds);
  }

  lemma NoChunk()
    ensures Collapse([]) == Body([], [], false)
  {
    assert HexNumber([], 0, 0) == Some((0, 0));
  }

  // ---------------------------------------------------------------------------
  // Deliveries, as mg_http_handler takes them: body_len is 0 again on each

  /** What the handler of the chunk event has been given and had deleted, and the buffer. */
  datatype Received = Received(passed: seq<byte>, buffer: Buffer)

  const Nothing := Received([], Empty)

  /** One delivery: the whole buffer is parsed, the body that was collapsed before included.
      `delete` is the flag the handler may set. */
  function Receive(r: Received, d: seq<byte>, delete: bool): Received {
    if r.buffer.complete then r.(buffer := r.buffer.(pending := r.buffer.pending + d))
    else
      var text := r.buffer.body + r.buffer.pending + d;
      var c := Collapse(text);
      if delete && c.rest != text then Received(r.passed + c.data, Buffer([], c.rest, c.complete))
      else Received(r.passed, Buffer(c.data, c.rest, c.complete))
  }

  function ReceiveAll(r: Received, ds: seq<seq<byte>>, delete: bool): Received
    decreases |ds|
  {
    if ds == [] then r else ReceiveAll(Receive(r, ds[0], delete), ds[1..], delete)
  }

  /** The body: what has been passed on and what stands in the buffer. */
  function Total(r: Received): Buffer {
    r.buffer.(body := r.passed + r.buffer.body)
  }

  /** With the flag the body never stands in the buffer when the next delivery comes. */
  lemma ReceiveDeletes(r: Received, d: seq<byte>)
    requires r.buffer.body == []
    ensures
      var next := Receive(r, d, true);
      Total(next) == Deliver(Total(r), d) && next.buffer.body == []
  {
    var text := r.buffer.pending + d;
    assert r.buffer.body + r.buffer.pending + d == text;
    NothingInIt(text);
  }

  lemma NothingInIt(s: seq<byte>)
    ensures Collapse(s).rest == s ==> Collapse(s) == Body([], s, false)
  {
  }

  lemma {:induction false} DeletedAll(r: Received, ds: seq<seq<byte>>)
    requires r.buffer.body == []
    ensures Total(ReceiveAll(r, ds, true)) == DeliverAll(Total(r), ds)
    decreases |ds|
  {
    hide Receive, Deliver;
    if ds != [] {
      ReceiveDeletes(r, ds[0]);
      DeletedAll(Receive(r, ds[0], true), ds[1..]);
    }
  }

  /** With the delete flag cuts make no difference. */
  lemma DeletingCutsDoNotMatter(ds: seq<seq<byte>>)
    ensures Total(ReceiveAll(Nothing, ds, true)) == Deliver(Empty, Concat(ds))
  {
    DeletedAll(Nothing, ds);
    CutsDoNotMatter(ds);
  }

  /** Deliveries in which no chunk has become complete only grow the buffer. */
  lemma {:induction false} OnlyGrows(text: seq<byte>, ds: seq<seq<byte>>)
    requires forall j :: 0 < j <= |ds| ==> ParseChunk(text + Concat(ds[..j])).None?
    ensures ReceiveAll(Received([], Buffer([], text, false)), ds, false) ==
      Received([], Buffer([], text + Concat(ds), false))
    decreases |ds|
  {
    hide ParseChunk;
    if ds == [] {
      assert text + [] == text;
    } else {
      var next := text + ds[0];
      assert [] + text + ds[0] == next;
      assert ds[..1] == [ds[0]] && Concat(ds[..1]) == ds[0] by { OneConcat(ds[0]); }
      assert ParseChunk(next).None?;
      forall j | 0 < j <= |ds[1..]| ensures ParseChunk(next + Concat(ds[1..][..j])).None? {
        assert ds[..j + 1] == [ds[0]] + ds[1..][..j];
        Join(text, ds[0], Concat(ds[1..][..j]));
        assert Concat(ds[..j + 1]) == ds[0] + Concat(ds[1..][..j]);
      }
      OnlyGrows(next, ds[1..]);
      Join(text, ds[0], Concat(ds[1..]));
    }
  }

  lemma OneConcat(d: seq<byte>)
    ensures Concat([d]) == d
  {
    assert |[d][1..]| == 0;
    assert d + [] == d;
  }

  /** No delivery before the last holds a complete chunk. */
  ghost predicate NoneBefore(ds: seq<seq<byte>>, k: nat)
    requires k <= |ds|
  {
    forall j :: 0 < j < k ==> ParseChunk(Concat(ds[..j])).None?
  }

  lemma {:induction false} ReceiveConcat(r: Received, a: seq<seq<byte>>, b: seq<seq<byte>>, delete: bool)
    ensures ReceiveAll(r, a + b, delete) == ReceiveAll(ReceiveAll(r, a, delete), b, delete)
    decreases |a|
  {
    hide Receive;
    if a == [] {
      assert a + b == b;
    } else {
      assert (a + b)[0] == a[0] && (a + b)[1..] == a[1..] + b;
      ReceiveConcat(Receive(r, a[0], delete), a[1..], b, delete);
    }
  }

  /** What has been received by the first delivery that can complete a chunk. */
  lemma FirstFound(ds: seq<seq<byte>>, k: nat)
    requires 0 < k <= |ds| && NoneBefore(ds, k)
    ensures
      var c := Collapse(Concat(ds[..k]));
      ReceiveAll(Nothing, ds[..k], false) == Received([], Buffer(c.data, c.rest, c.complete))
  {
    hide ParseChunk, Collapse;
    var before, d := ds[..k - 1], ds[k - 1];
    assert ds[..k] == before + [d];
    forall j | 0 < j <= |before| ensures ParseChunk([] + Concat(before[..j])).None? {
      assert before[..j] == ds[..j] && [] + Concat(ds[..j]) == Concat(ds[..j]);
    }
    OnlyGrows([], before);
    ReceiveConcat(Nothing, before, [d], false);
    assert [] + Concat(before) == Concat(before);
    LastOf(before, d);
    var r := Received([], Buffer([], Concat(before), false));
    assert [] + Concat(before) + d == Concat(ds[..k]);
    OneReceived(r, d);
  }

  lemma OneReceived(r: Received, d: seq<byte>)
    ensures ReceiveAll(r, [d], false) == Receive(r, d, false)
  {
    hide Receive;
    assert |[d][1..]| == 0;
  }

  lemma {:induction false} LastOf(ds: seq<seq<byte>>, d: seq<byte>)
    ensures Concat(ds + [d]) == Concat(ds) + d
  {
    ConcatJoin(ds, [d]);
    OneConcat(d);
  }

  lemma {:induction false} ConcatJoin(a: seq<seq<byte>>, b: seq<seq<byte>>)
    ensures Concat(a + b) == Concat(a) + Concat(b)
  {
    if a == [] {
      assert a + b == b;
    } else {
      assert (a + b)[0] == a[0] && (a + b)[1..] == a[1..] + b;
      ConcatJoin(a[1..], b);
    }
  }

  /** Without the flag cuts make no difference either if no delivery before the last holds a
      complete chunk. */
  lemma KeepingLastOnly(ds: seq<seq<byte>>)
    requires NoneBefore(ds, |ds|)
    ensures ReceiveAll(Nothing, ds, false) == Received([], Deliver(Empty, Concat(ds)))
  {
    hide Collapse, ParseChunk;
    assert [] + Concat(ds) == Concat(ds);
    NoChunk();
    if ds != [] {
      assert ds[..|ds|] == ds;
      FirstFound(ds, |ds|);
    }
    assert [] + Collapse(Concat(ds)).data == Collapse(Concat(ds)).data;
  }

  /** What starts with no digit is not the start of a chunk. */
  lemma NotADigit(s: seq<byte>)
    requires s != [] && HexValue(s[0]).None?
    ensures ParseChunk(s).None?
  {
    assert HexNumber(s, 0, 0) == Some((0, 0));
  }

  /** If there is no chunk with what follows, there is none before it has come. */
  lemma NoneYet(s: seq<byte>, t: seq<byte>)
    requires ParseChunk(s + t).None?
    ensures ParseChunk(s).None?
  {
    if ParseChunk(s).Some? { ChunkStays(s, t); }
  }

  /** A body that stands in front of the buffer and is no chunk keeps everything from being
      parsed. */
  lemma {:induction false} Stuck(body: seq<byte>, pending: seq<byte>, ds: seq<seq<byte>>, b: Buffer)
    requires ds != [] && !b.complete && b.body + b.pending == body + pending
    requires ParseChunk(body + (pending + Concat(ds))).None?
    ensures ReceiveAll(Received([], b), ds, false) == Received([], Buffer([], body + (pending + Concat(ds)), false))
    decreases |ds|
  {
    hide ParseChunk;
    var text := body + (pending + ds[0]);
    assert b.body + b.pending + ds[0] == text by { Join(body, pending, ds[0]); }
    assert Concat(ds) == ds[0] + Concat(ds[1..]);
    assert body + (pending + Concat(ds)) == text + Concat(ds[1..]);
    NoneYet(text, Concat(ds[1..]));
    StaysStuck(text);
    var next := Buffer([], text, false);
    assert Receive(Received([], b), ds[0], false) == Received([], next);
    if ds[1..] == [] {
      assert Concat(ds) == ds[0] + [] == ds[0];
    } else {
      assert [] + text == text;
      assert body + (pending + ds[0] + Concat(ds[1..])) == text + Concat(ds[1..]);
      Stuck(body, pending + ds[0], ds[1..], next);
      Join(pending, ds[0], Concat(ds[1..]));
    }
  }

  lemma StaysStuck(text: seq<byte>)
    requires ParseChunk(text).None?
    ensures Collapse(text) == Body([], text, false)
  {
  }

  /** When the `k`-th delivery is the first by which a chunk is complete, and the data decoded by then
      does not read as a chunk again with all that follows it: cuts make no difference exactly when
      that delivery is the last, or completes the body. */
  lemma KeepingExactly(ds: seq<seq<byte>>, k: nat)
    requires 0 < k <= |ds| && NoneBefore(ds, k) && ParseChunk(Concat(ds[..k])).Some?
    requires
      var c := Collapse(Concat(ds[..k]));
      c.complete || ParseChunk(c.data + (c.rest + Concat(ds[k..]))).None?
    ensures ReceiveAll(Nothing, ds, false) == Received([], Deliver(Empty, Concat(ds)))
       <==> k == |ds| || Collapse(Concat(ds[..k])).complete
  {
    hide Collapse, ParseChunk, Receive;
    var a, b := ds[..k], ds[k..];
    var c := Collapse(Concat(a));
    assert ds == a + b;
    FirstFound(ds, k);
    ReceiveConcat(Nothing, a, b, false);
    ConcatJoin(a, b);
    CollapseLater(Concat(a), Concat(b));
    assert [] + Concat(ds) == Concat(ds);
    var now := Buffer(c.data, c.rest, c.complete);
    if c.complete {
      AfterwardsGrows(now, b);
      assert [] + c.data == c.data;
    } else if b == [] {
      KeepingLastOnly(ds);
    } else {
      Stuck(c.data, c.rest, b, now);
      SomeData(Concat(a));
    }
  }

  lemma {:induction false} AfterwardsGrows(b: Buffer, ds: seq<seq<byte>>)
    requires b.complete
    ensures ReceiveAll(Received([], b), ds, false) == Received([], b.(pending := b.pending + Concat(ds)))
    decreases |ds|
  {
    if ds == [] {
      assert b.pending + [] == b.pending;
    } else {
      AfterwardsGrows(b.(pending := b.pending + ds[0]), ds[1..]);
      Join(b.pending, ds[0], Concat(ds[1..]));
    }
  }

  lemma SomeData(s: seq<byte>)
    requires ParseChunk(s).Some? && !Collapse(s).complete
    ensures Collapse(s).data != []
  {
  }

  // ---------------------------------------------------------------------------
  // mg_send_http_chunk

  function HexDigit(d: nat): byte
    requires d < 16
  {
    if d < 10 then '0' as int + d else 'A' as int + d - 10
  }

  /** `%lX`. */
  function HexText(n: nat): (r: seq<byte>)
    ensures r != []
  {
    if n < 16 then [HexDigit(n)] else HexText(n / 16) + [HexDigit(n % 16)]
  }

  function ChunkBytes(piece: seq<byte>): seq<byte> {
    HexText(|piece|) + ([CR, LF] + (piece + [CR, LF]))
  }

  function AllChunks(pieces: seq<seq<byte>>): seq<byte> {
    if pieces == [] then [] else ChunkBytes(pieces[0]) + AllChunks(pieces[1..])
  }

  function Power16(k: nat): nat {
    if k == 0 then 1 else 16 * Power16(k - 1)
  }

  lemma {:induction false} HexLength(n: nat, k: nat)
    requires k > 0
    ensures |HexText(n)| <= k <==> n < Power16(k)
  {
    if n >= 16 && k > 1 {
      HexLength(n / 16, k - 1);
    } else if n >= 16 {
      assert Power16(1) == 16 * Power16(0);
    } else {
      PowerGrows(k);
    }
  }

  lemma {:induction false} PowerGrows(k: nat)
    requires k > 0
    ensures Power16(k) >= 16
  {
    if k > 1 {
      PowerGrows(k - 1);
    }
  }

  /** The digits of a number are read back as that number, if there are not too many. */
  lemma {:induction false} DigitsReadBack(n: nat, s: seq<byte>)
    requires |HexText(n)| <= |s| && s[..|HexText(n)|] == HexText(n)
    ensures HexNumber(s, 0, 0) == if |HexText(n)| > 6 then None else HexNumber(s, |HexText(n)|, n)
  {
    hide HexDigit, HexValue, HexNumber;
    var k: nat := |HexText(n)|;
    DigitValue(n % 16);
    assert s[k - 1] == s[..k][k - 1] == HexDigit(n % 16);
    if n >= 16 {
      assert s[..k - 1] == s[..k][..k - 1] == HexText(n / 16);
      DigitsReadBack(n / 16, s);
    }
    if k <= 7 {
      NumberStep(s, k - 1, n / 16, n % 16);
    }
  }

  lemma DigitValue(d: nat)
    requires d < 16
    ensures HexValue(HexDigit(d)) == Some(d)
  {
  }

  lemma NumberStep(s: seq<byte>, i: nat, n: nat, d: nat)
    requires i <= 6 && i < |s| && HexValue(s[i]) == Some(d)
    ensures HexNumber(s, i, n) == if i == 6 then None else HexNumber(s, i + 1, n * 16 + d)
  {
  }

  /** Where the parts of a chunk stand. */
  lemma ChunkParts(h: seq<byte>, piece: seq<byte>, tail: seq<byte>)
    ensures
      var s, k, n := h + ([CR, LF] + (piece + [CR, LF])) + tail, |h|, |piece|;
      && s[..k] == h && NewLineAt(s, k) && s[k + 2..k + 2 + n] == piece && NewLineAt(s, k + 2 + n)
      && s[k + 2 + n + 2..] == tail && HexValue(s[k]).None?
  {
    var s, k, n := h + ([CR, LF] + (piece + [CR, LF])) + tail, |h|, |piece|;
    assert s[k] == CR;
  }

  /** A chunk can be read back exactly when its size has at most six digits. */
  lemma ChunkReadBack(piece: seq<byte>, tail: seq<byte>)
    ensures
      var s := ChunkBytes(piece) + tail;
      && (|piece| < 0x100_0000 ==>
            && ParseChunk(s) == Some(Chunk(|HexText(|piece|)| + 2, |piece|, |ChunkBytes(piece)|))
            && DataOf(s) == piece && s[|ChunkBytes(piece)|..] == tail)
      && (|piece| >= 0x100_0000 ==> ParseChunk(s) == None)
  {
    hide HexText, NewLineAt, HexNumber, HexValue, ChunkBytes;
    var n, h := |piece|, HexText(|piece|);
    var s, k := ChunkBytes(piece) + tail, |h|;
    ChunkIs(piece, tail);
    ChunkParts(h, piece, tail);
    DigitsReadBack(n, s);
    SixDigits(n);
    if k <= 6 { NumberEnds(s, k, n); }
  }

  lemma ChunkIs(piece: seq<byte>, tail: seq<byte>)
    ensures
      var h := HexText(|piece|);
      && ChunkBytes(piece) + tail == h + ([CR, LF] + (piece + [CR, LF])) + tail
      && |ChunkBytes(piece)| == |h| + 2 + |piece| + 2
  {
    hide HexText;
  }

  lemma NumberEnds(s: seq<byte>, k: nat, n: nat)
    requires k <= 6 && k < |s| && HexValue(s[k]).None?
    ensures HexNumber(s, k, n) == Some((k, n))
  {
  }

  lemma SixDigits(n: nat)
    ensures |HexText(n)| <= 6 <==> n < 0x100_0000
  {
    assert Power16(3) == 4096 && Power16(6) == 0x100_0000;
    HexLength(n, 6);
  }

  predicate Sendable(piece: seq<byte>) {
    0 < |piece| < 0x100_0000
  }

  lemma {:induction false} ChunksReadBack(pieces: seq<seq<byte>>, tail: seq<byte>)
    ensures
      var b := Collapse(AllChunks(pieces) + (ChunkBytes([]) + tail));
      && ((forall i :: 0 <= i < |pieces| ==> Sendable(pieces[i])) ==> b == Body(Concat(pieces), tail, true))
      && (!(forall i :: 0 <= i < |pieces| ==> Sendable(pieces[i])) ==> |b.rest| > |tail|)
    decreases |pieces|
  {
    hide ParseChunk, DataOf, ChunkBytes;
    var last := ChunkBytes([]) + tail;
    if pieces == [] {
      assert [] + last == last;
      ChunkReadBack([], tail);
    } else {
      var p, more := pieces[0], AllChunks(pieces[1..]) + last;
      var s := AllChunks(pieces) + last;
      assert s == ChunkBytes(p) + more;
      ChunkReadBack(p, more);
      ChunksReadBack(pieces[1..], tail);
      assert |last| > |tail| by { ChunkReadBack([], tail); }
      assert forall i :: 0 <= i < |pieces| - 1 ==> pieces[1..][i] == pieces[i + 1];
      assert (forall i :: 0 <= i < |pieces| ==> Sendable(pieces[i]))
         <==> Sendable(p) && forall i :: 0 <= i < |pieces| - 1 ==> Sendable(pieces[1..][i]);
    }
  }

  /** Pieces sent as chunks, the last chunk behind them, come out as their concatenation with
      the rest of the buffer untouched, exactly when each piece has 1 to 16^6 - 1 bytes. */
  lemma SentIsReceived(pieces: seq<seq<byte>>, tail: seq<byte>)
    ensures Collapse(AllChunks(pieces) + (ChunkBytes([]) + tail)) == Body(Concat(pieces), tail, true)
       <==> forall i :: 0 <= i < |pieces| ==> Sendable(pieces[i])
  {
    ChunksReadBack(pieces, tail);
  }

  /** A piece in one delivery and the last chunk in the next, when the flag is not set and the piece
      does not start with a hexadecimal digit: in one delivery they are the whole body, in two the
      body is never complete. */
  lemma LastChunkLost(piece: seq<byte>)
    requires Sendable(piece) && HexValue(piece[0]).None?
    ensures
      var first, last := ChunkBytes(piece), ChunkBytes([]);
      && Deliver(Empty, Concat([first, last])) == Buffer(piece, [], true)
      && ReceiveAll(Nothing, [first, last], false) == Received([], Buffer([], piece + last, false))
  {
    hide Collapse, ParseChunk, ChunkBytes;
    var first, last := ChunkBytes(piece), ChunkBytes([]);
    PieceAlone(piece);
    OneSent(piece);
    assert [first, last][1..] == [last];
    OneConcat(last);
    assert [] + Concat([first, last]) == first + last;
    assert [] + piece == piece;
    OneConcat(first);
    var ds := [first, last];
    assert ds[..1] == [first] && ds[1..] == [last] && ds == [first] + [last];
    FirstFound(ds, 1);
    ReceiveConcat(Nothing, [first], [last], false);
    NotADigit(piece + ([] + Concat([last])));
    Stuck(piece, [], [last], Buffer(piece, [], false));
    assert [] + last == last;
  }

  lemma PieceAlone(piece: seq<byte>)
    requires Sendable(piece)
    ensures Collapse(ChunkBytes(piece)) == Body(piece, [], false)
  {
    hide ParseChunk, ChunkBytes, DataOf;
    var s := ChunkBytes(piece);
    assert s + [] == s;
    ChunkReadBack(piece, []);
    NoChunk();
    assert piece + [] == piece;
  }

  /** Data that reads as a chunk is decoded a second time with the next delivery. */
  lemma DecodedTwice(piece: seq<byte>)
    requires Sendable(piece) && Sendable(ChunkBytes(piece))
    ensures
      var first, last := ChunkBytes(ChunkBytes(piece)), ChunkBytes([]);
      && Deliver(Empty, Concat([first, last])) == Buffer(ChunkBytes(piece), [], true)
      && ReceiveAll(Nothing, [first, last], false) == Received([], Buffer(piece, [], true))
  {
    hide Collapse, ParseChunk, ChunkBytes;
    var inner, last := ChunkBytes(piece), ChunkBytes([]);
    var first := ChunkBytes(inner);
    OneSent(piece);
    OneSent(inner);
    PieceAlone(inner);
    OneConcat(first);
    OneConcat(last);
    assert [first, last][1..] == [last];
    assert [] + Concat([first, last]) == first + last;
    assert [] + inner == inner;
    var ds := [first, last];
    assert ds[..1] == [first] && ds == [first] + [last];
    FirstFound(ds, 1);
    ReceiveConcat(Nothing, [first], [last], false);
    var r := Received([], Buffer(inner, [], false));
    OneReceived(r, last);
    assert inner + [] + last == inner + last;
  }

  lemma OneSent(piece: seq<byte>)
    requires Sendable(piece)
    ensures Collapse(ChunkBytes(piece) + ChunkBytes([])) == Body(piece, [], true)
  {
    hide Collapse, ChunkBytes;
    var first, last := ChunkBytes(piece), ChunkBytes([]);
    assert AllChunks([piece]) == first by {
      assert |[piece][1..]| == 0;
      assert first + [] == first;
    }
    assert last + [] == last;
    SentIsReceived([piece], []);
    OneConcat(piece);
  }
}
