/** The packets of RFC 1350 byte by byte, and what becomes of whole transfers. */
module TftpBytes {
  import opened Options
  import opened Bytes
  import opened Tftp

  function DataAs(block: nat, data: seq<byte>): Packet {
    [0, 3, block / 256 % 256, block % 256] + data
  }

  function AckAs(block: nat): Packet {
    [0, 4, block / 256 % 256, block % 256]
  }

  /** "incorrect ack" with code 0 and "failed to read file" with code 4, each with its NUL. */
  const NOT_ACKED: Packet := [0, 5, 0, 0] + Chars("incorrect ack") + [0]
  const NOT_READ: Packet := [0, 5, 0, 4] + Chars("failed to read file") + [0]

  function Chars(s: string): (r: seq<byte>)
    ensures |r| == |s|
  {
    seq(|s|, i requires 0 <= i < |s| => if s[i] < 128 as char then s[i] as int else 0)
  }

  lemma PacketsAre(n: nat)
    ensures AckPacket(n) == AckAs(n) && INCORRECT_ACK == NOT_ACKED && CANNOT_READ == NOT_READ
  {
    assert INCORRECT_ACK == [0, 5, 0, 0] + INCORRECT;
    assert Chars("incorrect ack") + [0] == INCORRECT;
    assert CANNOT_READ == [0, 5, 0, 4] + FAILED_TO_READ;
    assert Chars("failed to read file") + [0] == FAILED_TO_READ;
    assert [0, 5, 0, 0] + Chars("incorrect ack") + [0] == [0, 5, 0, 0] + (Chars("incorrect ack") + [0]);
    assert [0, 5, 0, 4] + Chars("failed to read file") + [0] == [0, 5, 0, 4] + (Chars("failed to read file") + [0]);
  }

  // ---------------------------------------------------------------------------
  // Receiving

  /** One packet of data: it is acknowledged by its number, kept unless its number has been passed, and
      the last one if it is short. */
  lemma DataReceived(r: Receiver, block: nat, data: seq<byte>)
    requires r.result.None? && block < 65536
    ensures
      var (r', out) := Receive(r, Some(DataAs(block, data)));
      && out == [AckAs(block)]
      && r'.written == (if block < r.next then r.written else r.written + data)
      && r'.next == (if block < r.next then r.next else r.next + 1)
      && r'.result == if |data| < 512 then Some(0) else None
  {
    var p := DataAs(block, data);
    PacketsAre(block);
    assert p[4..] == data && p[2..][0] == p[2] && p[2..][1] == p[3];
    assert Code(p) == 3 && Number(p) == block;
  }

  /** Anything else: a repeated write request is answered again before the first block; another packet
      ends the transfer with 1, nothing at all with -1. */
  lemma OtherReceived(r: Receiver, p: Packet)
    requires r.result.None? && |p| >= 4 && !(p[0] == 0 && p[1] == 3)
    ensures Receive(r, Some(p)) ==
      if p[0] == 0 && p[1] == 2 && r.next == 1 then (r, [[0, 4, 0, 0]]) else (r.(result := Some(1)), [])
    ensures Receive(r, None) == (r.(result := Some(-1)), [])
  {
    PacketsAre(0);
  }

  /** Block `k` of a file. */
  function Slice(file: seq<byte>, k: nat): (r: seq<byte>)
    requires k >= 1 && 512 * (k - 1) <= |file|
  {
    file[512 * (k - 1)..if 512 * k < |file| then 512 * k else |file|]
  }

  /** The packets of a file from block `k` on; a file of whole blocks ends with an empty one. */
  function DataPackets(file: seq<byte>, k: nat): (r: seq<Packet>)
    requires k >= 1 && 512 * (k - 1) <= |file|
    decreases |file| - 512 * (k - 1)
  {
    [DataAs(k, Slice(file, k))] + if 512 * k <= |file| then DataPackets(file, k + 1) else []
  }

  function Acks(k: nat, n: nat): seq<Packet>
    requires 1 <= k
    decreases n - k
  {
    if k >= n then [] else [AckAs(k)] + Acks(k + 1, n)
  }

  function Given(packets: seq<Packet>): (r: seq<Option<Packet>>)
    ensures |r| == |packets| && forall i :: 0 <= i < |packets| ==> r[i] == Some(packets[i])
  {
    seq(|packets|, i requires 0 <= i < |packets| => Some(packets[i]))
  }

  predicate Sized(input: seq<Option<Packet>>) {
    forall i :: 0 <= i < |input| ==> input[i].Some? ==> |input[i].value| >= 4
  }

  lemma StepReceived(r: Receiver, p: Packet, rest: seq<Option<Packet>>)
    requires r.result.None? && |p| >= 4 && Sized(rest)
    ensures Sized([Some(p)] + rest)
    ensures
      var (r', out) := Receive(r, Some(p));
      RunReceiver(r, [Some(p)] + rest) == (RunReceiver(r', rest).0, out + RunReceiver(r', rest).1)
  {
    hide Receive;
    assert ([Some(p)] + rest)[1..] == rest;
  }

  lemma DoneReceived(r: Receiver, rest: seq<Option<Packet>>)
    requires r.result.Some? && Sized(rest)
    ensures RunReceiver(r, rest) == (r, [])
  {
  }

  lemma FirstGiven(p: Packet, more: seq<Packet>, later: seq<Option<Packet>>)
    ensures Given([p] + more) + later == [Some(p)] + (Given(more) + later)
  {
  }

  lemma SliceJoins(file: seq<byte>, k: nat)
    requires k >= 1 && 512 * (k - 1) <= |file|
    ensures file[..512 * (k - 1)] + Slice(file, k) == if 512 * k <= |file| then file[..512 * k] else file
    ensures |Slice(file, k)| < 512 <==> 512 * k > |file|
  {
  }

  /** A file of fewer than 65535 blocks, every packet in order: it is written as it is, each block is
      acknowledged, and the result is 0. */
  lemma {:induction false} FileReceived(file: seq<byte>, k: nat, later: seq<Option<Packet>>)
    requires k >= 1 && 512 * (k - 1) <= |file| < 512 * 65535 && Sized(later)
    ensures Sized(Given(DataPackets(file, k)) + later)
    ensures
      var r := RunReceiver(Receiver(k, file[..512 * (k - 1)], None), Given(DataPackets(file, k)) + later);
      r.0.written == file && r.0.result == Some(0) && r.1 == Acks(k, |file| / 512 + 2)
    decreases |file| - 512 * (k - 1)
  {
    hide Receive, DataAs, AckAs, Sized, RunReceiver, Slice, Given;
    var r, p := Receiver(k, file[..512 * (k - 1)], None), DataAs(k, Slice(file, k));
    var more := if 512 * k <= |file| then DataPackets(file, k + 1) else [];
    NextIs(r, k, Slice(file, k));
    DataSize(k, Slice(file, k));
    SliceJoins(file, k);
    FirstGiven(p, more, later);
    if 512 * k <= |file| {
      FileReceived(file, k + 1, later);
      StepReceived(r, p, Given(more) + later);
    } else {
      assert Given([]) + later == later;
      StepReceived(r, p, later);
      DoneReceived(Receive(r, Some(p)).0, later);
      assert |file| / 512 + 2 == k + 1;
      assert Acks(k, k + 1) == [AckAs(k)] + Acks(k + 1, k + 1);
    }
  }

  lemma DataSize(block: nat, data: seq<byte>)
    ensures |DataAs(block, data)| == 4 + |data|
  {
  }

  lemma NextIs(r: Receiver, block: nat, data: seq<byte>)
    requires r.result.None? && block < 65536 && r.next == block
    ensures Receive(r, Some(DataAs(block, data))).0 ==
      Receiver(block + 1, r.written + data, if |data| < 512 then Some(0) else None)
    ensures Receive(r, Some(DataAs(block, data))).1 == [AckAs(block)]
  {
    DataReceived(r, block, data);
  }

  // ---------------------------------------------------------------------------
  // Sending

  /** What is sent of a file from block `k` on when every block is acknowledged at once.  A file of
      whole blocks has no last one: an error is sent instead. */
  function FilePackets(file: seq<byte>, k: nat): seq<Packet>
    requires k >= 1 && 512 * (k - 1) <= |file|
    decreases |file| - 512 * (k - 1)
  {
    if 512 * (k - 1) == |file| then [NOT_READ]
    else [DataAs(k, Slice(file, k))] + if 512 * k <= |file| then FilePackets(file, k + 1) else []
  }

  function FileAcks(file: seq<byte>, k: nat): seq<Packet>
    requires k >= 1 && 512 * (k - 1) <= |file|
    decreases |file| - 512 * (k - 1)
  {
    if 512 * (k - 1) == |file| then []
    else [AckAs(k)] + if 512 * k <= |file| then FileAcks(file, k + 1) else []
  }

  lemma BlockLoaded(file: seq<byte>, k: nat, buffer: seq<byte>)
    requires k >= 1 && 512 * (k - 1) <= |file| && |buffer| == 516
    ensures
      var (s, out) := NextBlock(k, 512 * (k - 1), buffer, file);
      && s.tries == 0 && |s.buffer| == 516 && s.size <= 512 && s.pos <= |file| && s.block == k
      && (512 * (k - 1) == |file| ==> out == [NOT_READ] && s.result == Some(-1))
      && (512 * (k - 1) < |file| ==>
            && out == [DataAs(k, Slice(file, k))] && s.result == None && s.size == |Slice(file, k)|
            && s.buffer[..s.size + 4] == DataAs(k, Slice(file, k))
            && s.pos == (if 512 * k <= |file| then 512 * k else |file|))
  {
    hide Overlay;
    PacketsAre(k);
    var (s, out) := NextBlock(k, 512 * (k - 1), buffer, file);
    if 512 * (k - 1) < |file| {
      var n := s.size;
      assert s.pos == 512 * (k - 1) + n && file[512 * (k - 1)..512 * (k - 1) + n] == Slice(file, k);
      assert DataAs(k, Slice(file, k)) == BE16(CMD_DATA) + BE16(k) + Slice(file, k);
    }
  }

  lemma AckExpected(block: nat, k: nat)
    ensures Expected(Some(AckAs(k)), block) <==> k % 65536 == block % 65536
    ensures !Foreign(Some(AckAs(k)))
  {
    ReadWrite16(k);
    var p := AckAs(k);
    assert p[2..][0] == p[2] && p[2..][1] == p[3] && BE16(k)[0] == p[2] && BE16(k)[1] == p[3];
    assert Code(p) == 4 && Number(p) == k % 65536;
  }

  lemma FirstAnswer(p: Packet, more: seq<Packet>)
    ensures Head(Given([p] + more)) == Some(p) && Tail(Given([p] + more)) == Given(more)
  {
    assert Given([p] + more)[1..] == Given(more);
  }

  /** A file whose blocks are all acknowledged at once: every block is sent once, in order, and the result
      is 0 unless the last block is a whole one. */
  lemma {:induction false} FileSent(file: seq<byte>, k: nat, buffer: seq<byte>)
    requires k >= 1 && 512 * (k - 1) <= |file| && |buffer| == 516
    ensures
      var (s, out) := NextBlock(k, 512 * (k - 1), buffer, file);
      && s.pos <= |file| && |s.buffer| == 516 && s.size <= 512 && s.tries < 3
      && var r := RunSender(s, file, Given(FileAcks(file, k)));
         && out + r.1 == FilePackets(file, k)
         && r.0.result == Some(if |file| % 512 == 0 then -1 else 0)
    decreases |file| - 512 * (k - 1)
  {
    hide NextBlock, RunSender, AckAs, DataAs, NOT_READ, Given, Head, Tail, Expected, Slice;
    BlockLoaded(file, k, buffer);
    var (s, out) := NextBlock(k, 512 * (k - 1), buffer, file);
    if 512 * (k - 1) == |file| {
      Finished(s, file, Given([]));
    } else {
      SliceJoins(file, k);
      var more := if 512 * k <= |file| then FileAcks(file, k + 1) else [];
      FirstAnswer(AckAs(k), more);
      AckExpected(k, k);
      AckStep(s, file, Given([AckAs(k)] + more));
      if 512 * k <= |file| {
        SliceSize(file, k);
        FileSent(file, k + 1, s.buffer);
        Associative(out, NextBlock(k + 1, 512 * k, s.buffer, file).1,
          RunSender(NextBlock(k + 1, 512 * k, s.buffer, file).0, file, Given(more)).1);
      } else {
        assert |file| % 512 != 0;
      }
    }
  }

  lemma SliceSize(file: seq<byte>, k: nat)
    requires k >= 1 && 512 * k <= |file|
    ensures |Slice(file, k)| == 512
  {
  }

  lemma Finished(s: Sender, file: seq<byte>, input: seq<Option<Packet>>)
    requires s.pos <= |file| && |s.buffer| == DATA_SIZE && s.size <= BLOCK_SIZE && s.tries < 3 && s.result.Some?
    ensures RunSender(s, file, input) == (s, [])
  {
  }

  lemma Retried(s: Sender, file: seq<byte>, input: seq<Option<Packet>>, buffer: seq<byte>, complaint: seq<Packet>)
    requires s.pos <= |file| && |s.buffer| == DATA_SIZE && s.size <= BLOCK_SIZE && s.tries < 2 && s.result.None?
    requires !Expected(Head(input), s.block)
    requires AfterWait(s.buffer, Head(input)) == buffer && Complaint(Head(input)) == complaint && |buffer| == DATA_SIZE
    ensures
      var s' := s.(buffer := buffer, tries := s.tries + 1);
      && RunSender(s, file, input).0 == RunSender(s', file, Tail(input)).0
      && RunSender(s, file, input).1 == complaint + [buffer[..s.size + 4]] + RunSender(s', file, Tail(input)).1
  {
    hide RunSender, Expected, AfterWait, Complaint, Head, Tail;
    RetryStep(s, file, input, []);
    var s' := s.(buffer := buffer, tries := s.tries + 1);
    assert [] + RunSender(s, file, input).1 == RunSender(s, file, input).1 && [] + complaint == complaint;
  }

  lemma WrongAck(buffer: seq<byte>, k: nat, a: nat)
    requires |buffer| == 516 && a % 65536 != k % 65536
    ensures !Expected(Some(AckAs(a)), k) && AfterWait(buffer, Some(AckAs(a))) == buffer
    ensures Complaint(Some(AckAs(a))) == []
  {
    AckExpected(k, a);
  }

  /** A block that is not acknowledged: after three tries the transfer ends with -1.  An acknowledgement
      with another number has the block sent again. */
  lemma OthersAcked(file: seq<byte>, k: nat, buffer: seq<byte>, a: nat, b: nat, c: nat)
    requires k >= 1 && 512 * (k - 1) < |file| && |buffer| == 516
    requires a % 65536 != k % 65536 && b % 65536 != k % 65536 && c % 65536 != k % 65536
    ensures
      var (s, out) := NextBlock(k, 512 * (k - 1), buffer, file);
      && s.pos <= |file| && |s.buffer| == 516 && s.size <= 512 && s.tries < 3
      && var r, p := RunSender(s, file, Given([AckAs(a)] + ([AckAs(b)] + ([AckAs(c)] + [])))),
        DataAs(k, Slice(file, k));
         r.0.result == Some(-1) && out + r.1 == [p, p, p]
  {
    hide NextBlock, RunSender, AckAs, DataAs, NOT_READ, Given, Head, Tail, Expected, Slice, AfterWait, Complaint;
    BlockLoaded(file, k, buffer);
    var (s, out) := NextBlock(k, 512 * (k - 1), buffer, file);
    var p := DataAs(k, Slice(file, k));
    WrongAck(s.buffer, k, a);
    WrongAck(s.buffer, k, b);
    WrongAck(s.buffer, k, c);
    FirstAnswer(AckAs(a), [AckAs(b)] + ([AckAs(c)] + []));
    FirstAnswer(AckAs(b), [AckAs(c)] + []);
    FirstAnswer(AckAs(c), []);
    Retried(s, file, Given([AckAs(a)] + ([AckAs(b)] + ([AckAs(c)] + []))), s.buffer, []);
    Retried(s.(tries := 1), file, Given([AckAs(b)] + ([AckAs(c)] + [])), s.buffer, []);
    GiveUpStep(s.(tries := 2), file, Given([AckAs(c)] + []));
    assert [p] + ([] + [p] + ([] + [p] + [])) == [p, p, p];
  }

  /** No answer at all: an error is sent after each try, and from then on it stands in the buffer in the place of
      the block. */
  lemma NothingAcked(file: seq<byte>, k: nat, buffer: seq<byte>)
    requires k >= 1 && 512 * (k - 1) < |file| && |buffer| == 516
    ensures
      var (s, out) := NextBlock(k, 512 * (k - 1), buffer, file);
      && s.pos <= |file| && |s.buffer| == 516 && s.size <= 512 && s.tries < 3 && |NOT_ACKED| == 18
      && var r, again := RunSender(s, file, []), (NOT_ACKED + s.buffer[18..])[..s.size + 4];
         r.0.result == Some(-1) && out + r.1 ==
           [DataAs(k, Slice(file, k)), NOT_ACKED, again, NOT_ACKED, again, NOT_ACKED]
  {
    hide NextBlock, RunSender, DataAs, NOT_READ, Slice, NOT_ACKED, Expected, AfterWait, Complaint, Head, Tail,
      Overlay;
    BlockLoaded(file, k, buffer);
    var (s, out) := NextBlock(k, 512 * (k - 1), buffer, file);
    var x := NOT_ACKED + s.buffer[18..];
    NothingRetried(s, file);
    assert x[18..] == s.buffer[18..];
    NothingRetried(s.(tries := 1, buffer := x), file);
    NothingComes(k, x);
    GiveUpStep(s.(tries := 2, buffer := x), file, []);
    SixPackets(DataAs(k, Slice(file, k)), NOT_ACKED, x[..s.size + 4]);
  }

  lemma SixPackets(p: Packet, e: Packet, again: Packet)
    ensures [p] + ([e] + [again] + ([e] + [again] + [e])) == [p, e, again, e, again, e]
  {
  }

  lemma NothingRetried(s: Sender, file: seq<byte>)
    requires s.pos <= |file| && |s.buffer| == DATA_SIZE && s.size <= BLOCK_SIZE && s.tries < 2 && s.result.None?
    ensures |NOT_ACKED| == 18
    ensures
      var x := NOT_ACKED + s.buffer[18..];
      var s' := s.(buffer := x, tries := s.tries + 1);
      && RunSender(s, file, []).0 == RunSender(s', file, []).0
      && RunSender(s, file, []).1 == [NOT_ACKED] + [x[..s.size + 4]] + RunSender(s', file, []).1
  {
    hide RunSender, NOT_ACKED, Expected, AfterWait, Complaint, Head, Tail;
    NothingComes(s.block, s.buffer);
    Retried(s, file, [], NOT_ACKED + s.buffer[18..], [NOT_ACKED]);
  }

  lemma NothingComes(k: nat, buffer: seq<byte>)
    requires |buffer| == 516
    ensures |NOT_ACKED| == 18
    ensures Head([]) == None && Tail([]) == [] && !Expected(None, k) && Complaint(None) == [NOT_ACKED]
    ensures AfterWait(buffer, None) == NOT_ACKED + buffer[18..]
  {
    PacketsAre(0);
  }
}
