/** The TFTP server's two transfer loops: `process_write` receives a file, `process_read`
    sends one.  Datagrams are byte sequences; `None` stands for a `recvfrom` that failed
    or timed out. */
module Tftp {
  import opened Options
  import opened Bytes

  type Packet = seq<byte>

  const CMD_WRQ := 2
  const CMD_DATA := 3
  const CMD_ACK := 4
  const CMD_ERROR := 5

  const ERR_NOT_DEFINED := 0
  const ERR_ILLEGAL_OPERATION := 4

  /** `TFTP_DATA_SIZE`: four bytes of header and one block. */
  const DATA_SIZE := 516
  const BLOCK_SIZE := 512

  function Code(p: Packet): nat
    requires |p| >= 4
  {
    ReadBE16(p)
  }

  function Number(p: Packet): nat
    requires |p| >= 4
  {
    ReadBE16(p[2..])
  }

  function AckPacket(block_num: nat): Packet {
    BE16(CMD_ACK) + BE16(block_num)
  }

  /** The packet `send_error` builds; `message` ends with its NUL. */
  function ErrorPacket(code: nat, message: seq<byte>): (r: Packet)
    ensures |r| == 4 + |message|
  {
    BE16(CMD_ERROR) + BE16(code) + message
  }

  /** "failed to read file" and "incorrect ack". */
  const FAILED_TO_READ: seq<byte> :=
    [0x66, 0x61, 0x69, 0x6c, 0x65, 0x64, 0x20, 0x74, 0x6f, 0x20, 0x72, 0x65, 0x61, 0x64, 0x20, 0x66, 0x69, 0x6c, 0x65,
    0]
  const INCORRECT: seq<byte> := [0x69, 0x6e, 0x63, 0x6f, 0x72, 0x72, 0x65, 0x63, 0x74, 0x20, 0x61, 0x63, 0x6b, 0]

  /** Writing a packet over the start of the buffer. */
  function Overlay(buffer: seq<byte>, p: Packet): (r: seq<byte>)
    requires |p| <= |buffer|
    ensures |r| == |buffer| && r[..|p|] == p && r[|p|..] == buffer[|p|..]
  {
    p + buffer[|p|..]
  }

  // ---------------------------------------------------------------------------
  // process_write, one datagram at a time

  /** `next` is `next_block_num`; `result` is set when the loop has been left. */
  datatype Receiver = Receiver(next: nat, written: seq<byte>, result: Option<int>)

  const FreshReceiver := Receiver(1, [], None)

  function Receive(r: Receiver, packet: Option<Packet>): (Receiver, seq<Packet>)
    requires r.result.None? && (packet.Some? ==> |packet.value| >= 4)
  {
    match packet
    case None => (r.(result := Some(-1)), [])
    case Some(p) =>
      if Code(p) != CMD_DATA then
        if Code(p) == CMD_WRQ && r.next == 1 then (r, [AckPacket(0)])
        else (r.(result := Some(1)), [])
      else
        var r' := if Number(p) < r.next then r else r.(next := r.next + 1, written := r.written + p[4..]);
        (if |p| < DATA_SIZE then r'.(result := Some(0)) else r', [AckPacket(Number(p))])
  }

  function RunReceiver(r: Receiver, input: seq<Option<Packet>>): (Receiver, seq<Packet>)
    requires forall i :: 0 <= i < |input| ==> input[i].Some? ==> |input[i].value| >= 4
    decreases |input|
  {
    if r.result.Some? then (r, [])
    else if input == [] then (r.(result := Some(-1)), [])
    else
      var (r', out) := Receive(r, input[0]);
      var (r'', out') := RunReceiver(r', input[1..]);
      (r'', out + out')
  }

  // ---------------------------------------------------------------------------
  // process_read, one answer at a time

  /** `buffer` is `m_buffer`, `size` the number of file bytes in it, `tries` the retry
      counter; `pos` is how far the file has been read. */
  datatype Sender = Sender(block: nat, pos: nat, buffer: seq<byte>, size: nat, tries: nat, result: Option<int>)

  function Min(a: int, b: int): int {
    if a < b then a else b
  }

  /** The top of the loop: read the next block and send it for the first time.  At the end
      of the file `fread` returns 0 and the transfer is given up. */
  function NextBlock(block: nat, pos: nat, buffer: seq<byte>, file: seq<byte>): (Sender, seq<Packet>)
    requires pos <= |file| && |buffer| == DATA_SIZE
  {
    var header := BE16(CMD_DATA) + BE16(block);
    var n := Min(BLOCK_SIZE, |file| - pos);
    if n == 0 then
      (Sender(block, pos, Overlay(Overlay(buffer, header), CANNOT_READ), 0, 0, Some(-1)), [CANNOT_READ])
    else
      var data := header + file[pos..pos + n];
      (Sender(block, pos + n, Overlay(Overlay(buffer, header), data), n, 0, None), [data])
  }

  predicate IsAck(p: Packet) {
    |p| >= 4 && Code(p) == CMD_ACK
  }

  const INCORRECT_ACK := ErrorPacket(ERR_NOT_DEFINED, INCORRECT)

  predicate Expected(packet: Option<Packet>, block: nat) {
    packet.Some? && IsAck(packet.value) && Number(packet.value) == block % 65536
  }

  predicate Foreign(packet: Option<Packet>) {
    packet.None? || !IsAck(packet.value)
  }

  function AfterWait(buffer: seq<byte>, packet: Option<Packet>): seq<byte>
    requires |buffer| == DATA_SIZE
  {
    if Foreign(packet) then Overlay(buffer, INCORRECT_ACK) else buffer
  }

  function Complaint(packet: Option<Packet>): seq<Packet> {
    if Foreign(packet) then [INCORRECT_ACK] else []
  }

  /** The body of the retry loop behind `sendto`.  `wait_for_ack` reports a missing or
      foreign answer with `send_error`, which builds its packet in `m_buffer`: what is sent
      again after that is no longer the block. */
  function Answer(s: Sender, file: seq<byte>, packet: Option<Packet>): (Sender, seq<Packet>)
    requires s.result.None? && s.pos <= |file| && |s.buffer| == DATA_SIZE && s.size <= BLOCK_SIZE
  {
    if Expected(packet, s.block) then
      if s.size < BLOCK_SIZE then (s.(result := Some(0)), [])
      else NextBlock(s.block + 1, s.pos, s.buffer, file)
    else
      var buffer := AfterWait(s.buffer, packet);
      if s.tries + 1 < 3 then
        (s.(buffer := buffer, tries := s.tries + 1), Complaint(packet) + [buffer[..s.size + 4]])
      else (s.(buffer := buffer, result := Some(-1)), Complaint(packet))
  }

  /** The answers in order; when they run out every further wait times out. */
  function RunSender(s: Sender, file: seq<byte>, input: seq<Option<Packet>>): (Sender, seq<Packet>)
    requires s.pos <= |file| && |s.buffer| == DATA_SIZE && s.size <= BLOCK_SIZE && s.tries < 3
    decreases |input|, if s.result.Some? then 0 else 3 - s.tries
  {
    if s.result.Some? then (s, [])
    else
      var (s', out) := Answer(s, file, Head(input));
      var (s'', out') := RunSender(s', file, Tail(input));
      (s'', out + out')
  }

  const CANNOT_READ := ErrorPacket(ERR_ILLEGAL_OPERATION, FAILED_TO_READ)

  function Head(input: seq<Option<Packet>>): Option<Packet> {
    if input == [] then None else input[0]
  }

  function Tail(input: seq<Option<Packet>>): seq<Option<Packet>> {
    if input == [] then [] else input[1..]
  }

  lemma RunUnfold(s: Sender, file: seq<byte>, input: seq<Option<Packet>>)
    requires s.pos <= |file| && |s.buffer| == DATA_SIZE && s.size <= BLOCK_SIZE && s.tries < 3 && s.result.None?
    ensures
      var (s', out) := Answer(s, file, Head(input));
      RunSender(s, file, input) == (RunSender(s', file, Tail(input)).0, out + RunSender(s', file, Tail(input)).1)
  {
  }

  /** An answer that is not the expected one, while there are tries left. */
  lemma RetryStep(s: Sender, file: seq<byte>, input: seq<Option<Packet>>, sent: seq<Packet>)
    requires s.pos <= |file| && |s.buffer| == DATA_SIZE && s.size <= BLOCK_SIZE && s.tries < 2 && s.result.None?
    requires !Expected(Head(input), s.block)
    ensures
      var r, p := RunSender(s, file, input), Head(input);
      var s' := s.(buffer := AfterWait(s.buffer, p), tries := s.tries + 1);
      && r.0 == RunSender(s', file, Tail(input)).0
      && sent + r.1 == (sent + Complaint(p)) + [s'.buffer[..s.size + 4]] + RunSender(s', file, Tail(input)).1
  {
    hide RunSender, Answer, Head, Tail, Expected, Complaint, AfterWait;
    var p := Head(input);
    var s' := s.(buffer := AfterWait(s.buffer, p), tries := s.tries + 1);
    RunUnfold(s, file, input);
    RetryAnswer(s, file, p);
    Regroup(sent, Complaint(p), [s'.buffer[..s.size + 4]], RunSender(s', file, Tail(input)).1);
  }

  lemma RetryAnswer(s: Sender, file: seq<byte>, p: Option<Packet>)
    requires s.pos <= |file| && |s.buffer| == DATA_SIZE && s.size <= BLOCK_SIZE && s.tries < 2 && s.result.None?
    requires !Expected(p, s.block)
    ensures
      var buffer := AfterWait(s.buffer, p);
      && |buffer| == DATA_SIZE
      && Answer(s, file, p) == (s.(buffer := buffer, tries := s.tries + 1), Complaint(p) + [buffer[..s.size + 4]])
  {
    hide Expected, Complaint;
  }

  lemma Regroup(a: seq<Packet>, b: seq<Packet>, c: seq<Packet>, d: seq<Packet>)
    ensures a + ((b + c) + d) == (a + b) + c + d
  {
  }

  lemma Associative(a: seq<Packet>, b: seq<Packet>, c: seq<Packet>)
    ensures a + (b + c) == (a + b) + c
  {
  }

  lemma GiveUpStep(s: Sender, file: seq<byte>, input: seq<Option<Packet>>)
    requires s.pos <= |file| && |s.buffer| == DATA_SIZE && s.size <= BLOCK_SIZE && s.tries == 2 && s.result.None?
    requires !Expected(Head(input), s.block)
    ensures RunSender(s, file, input).0.result == Some(-1)
    ensures RunSender(s, file, input).1 == Complaint(Head(input))
  {
    RunUnfold(s, file, input);
    assert RunSender(Answer(s, file, Head(input)).0, file, Tail(input)).1 == [];
  }

  lemma AckStep(s: Sender, file: seq<byte>, input: seq<Option<Packet>>)
    requires s.pos <= |file| && |s.buffer| == DATA_SIZE && s.size <= BLOCK_SIZE && s.tries < 3 && s.result.None?
    requires Expected(Head(input), s.block)
    ensures s.size < BLOCK_SIZE ==> RunSender(s, file, input).0.result == Some(0) && RunSender(s, file, input).1 == []
    ensures s.size == BLOCK_SIZE ==>
      var (s', out) := NextBlock(s.block + 1, s.pos, s.buffer, file);
      RunSender(s, file, input) == (RunSender(s', file, Tail(input)).0, out + RunSender(s', file, Tail(input)).1)
  {
    RunUnfold(s, file, input);
    if s.size < BLOCK_SIZE {
      assert RunSender(s.(result := Some(0)), file, Tail(input)) == (s.(result := Some(0)), []);
    }
  }

  function StartSender(file: seq<byte>, buffer: seq<byte>): (Sender, seq<Packet>)
    requires |buffer| == DATA_SIZE
  {
    NextBlock(1, 0, buffer, file)
  }

  // ---------------------------------------------------------------------------
  // The loops themselves

  /** The members of the C++ class the loops use.  `sent` collects what goes to the socket. */
  class Server {
    const m_buffer: array<byte>
    var m_data_size: int
    var written: seq<byte>
    var filePos: nat
    var sent: seq<Packet>

    ghost predicate Valid()
      reads this
    {
      m_buffer.Length == DATA_SIZE
    }

    constructor ()
      ensures Valid() && fresh(m_buffer) && written == [] && sent == [] && filePos == 0
    {
      m_buffer := new byte[DATA_SIZE];
      m_data_size, written, filePos, sent := 0, [], 0, [];
    }

    /** What the loop reads of a packet in the buffer. */
    static lemma PacketParts(buffer: seq<byte>, p: Packet)
      requires 4 <= |p| <= |buffer| && buffer[..|p|] == p
      ensures ReadBE16(buffer[0..2]) == Code(p) && ReadBE16(buffer[2..4]) == Number(p) && buffer[4..|p|] == p[4..]
    {
      assert forall k :: 0 <= k < |p| ==> buffer[k] == buffer[..|p|][k];
      assert buffer[4..|p|] == buffer[..|p|][4..];
    }

    static lemma ReceiveCases(r: Receiver, p: Packet)
      requires r.result.None? && |p| >= 4
      ensures Code(p) != CMD_DATA && Code(p) == CMD_WRQ && r.next == 1 ==> Receive(r, Some(p)) == (r, [AckPacket(0)])
      ensures Code(p) != CMD_DATA && !(Code(p) == CMD_WRQ && r.next == 1) ==>
        Receive(r, Some(p)) == (r.(result := Some(1)), [])
      ensures Code(p) == CMD_DATA ==>
        var next, written := if Number(p) < r.next then r.next else r.next + 1,
          if Number(p) < r.next then r.written else r.written + p[4..];
        Receive(r, Some(p)) ==
          (Receiver(next, written, if |p| < DATA_SIZE then Some(0) else None), [AckPacket(Number(p))])
    {
      hide Code, Number, AckPacket;
    }

    /** Datagrams as `recvfrom` hands them over: no longer than the buffer. */
    static function Arriving(input: seq<Option<Packet>>): (r: seq<Option<Packet>>)
      ensures |r| == |input|
      ensures forall i :: 0 <= i < |input| ==>
        r[i] == (if input[i].None? then None else Some(input[i].value[..Min(|input[i].value|, DATA_SIZE)]))
    {
      seq(|input|, i requires 0 <= i < |input| =>
        if input[i].None? then None else Some(input[i].value[..Min(|input[i].value|, DATA_SIZE)]))
    }

    static lemma ArrivingTail(input: seq<Option<Packet>>)
      ensures Arriving(Tail(input)) == Tail(Arriving(input))
      ensures Head(Arriving(input)) ==
        (if Head(input).None? then None else Some(Head(input).value[..Min(|Head(input).value|, DATA_SIZE)]))
    {
    }

    /** `recvfrom` into `m_buffer`: longer datagrams are cut. */
    method RecvFrom(input: seq<Option<Packet>>) returns (rest: seq<Option<Packet>>)
      requires Valid()
      modifies this`m_data_size, m_buffer
      ensures input == [] || input[0].None? ==> m_data_size == -1
      ensures input != [] && input[0].Some? ==>
        && m_data_size == Min(|input[0].value|, DATA_SIZE)
        && m_buffer[..m_data_size] == input[0].value[..m_data_size]
      ensures rest == if input == [] then [] else input[1..]
    {
      rest := if input == [] then [] else input[1..];
      m_data_size := -1;
      if input != [] && input[0].Some? {
        m_data_size := Min(|input[0].value|, DATA_SIZE);
        for i := 0 to m_data_size
          invariant m_data_size == Min(|input[0].value|, DATA_SIZE)
          invariant m_buffer[..i] == input[0].value[..i]
        {
          m_buffer[i] := input[0].value[i];
        }
      }
    }

    method SendTo(packet: Packet)
      modifies this`sent
      ensures sent == old(sent) + [packet]
    {
      sent := sent + [packet];
    }

    static ghost predicate LeadsReceiver(r: Receiver, input: seq<Option<Packet>>, sent: seq<Packet>,
                                         goal: Receiver, all: seq<Packet>)
    {
      && (forall i :: 0 <= i < |input| ==> input[i].Some? ==> 4 <= |input[i].value| <= DATA_SIZE)
      && goal == RunReceiver(r, input).0 && all == sent + RunReceiver(r, input).1
    }

    static lemma LeadsReceiverOn(r: Receiver, input: seq<Option<Packet>>, sent: seq<Packet>, goal: Receiver,
                                 all: seq<Packet>)
      requires LeadsReceiver(r, input, sent, goal, all) && r.result.None?
      ensures Head(input).None? ==> goal == r.(result := Some(-1)) && all == sent
      ensures Head(input).Some? ==>
        var (r', out) := Receive(r, Head(input));
        LeadsReceiver(r', Tail(input), sent + out, goal, all)
    {
      if Head(input).Some? {
        var (r', out) := Receive(r, Head(input));
        Associative(sent, out, RunReceiver(r', Tail(input)).1);
      } else if input != [] {
        assert RunReceiver(r.(result := Some(-1)), Tail(input)) == (r.(result := Some(-1)), []);
      }
    }

    static lemma LeadsReceiverDone(r: Receiver, input: seq<Option<Packet>>, sent: seq<Packet>, goal: Receiver,
                                   all: seq<Packet>)
      requires LeadsReceiver(r, input, sent, goal, all) && r.result.Some?
      ensures goal == r && all == sent
    {
    }

    /** `process_write`. */
    method ProcessWrite(input: seq<Option<Packet>>) returns (result: int)
      requires Valid()
      requires forall i :: 0 <= i < |input| ==> input[i].Some? ==> 4 <= |input[i].value|
      modifies this, m_buffer
      ensures
        var r := RunReceiver(Receiver(1, old(written), None), Arriving(input));
        r.0.result == Some(result) && written == r.0.written && sent == old(sent) + r.1
    {
      hide RunReceiver, Receive, AckPacket, ReadBE16, Code, Number, Arriving;
      ghost var goal := RunReceiver(Receiver(1, written, None), Arriving(input));
      ghost var all := sent + goal.1;
      var next_block_num, left := 1, input;
      while true
        invariant Valid() && next_block_num >= 1
        invariant forall i :: 0 <= i < |left| ==> left[i].Some? ==> 4 <= |left[i].value|
        invariant LeadsReceiver(Receiver(next_block_num, written, None), Arriving(left), sent, goal.0, all)
        decreases |left|
      {
        ghost var r, packet, sent0 := Receiver(next_block_num, written, None), Head(Arriving(left)), sent;
        LeadsReceiverOn(r, Arriving(left), sent, goal.0, all);
        ArrivingTail(left);
        left := RecvFrom(left);
        if m_data_size < 0 {
          return -1;
        }
        PacketParts(m_buffer[..], packet.value);
        ReceiveCases(r, packet.value);
        var code := ReadBE16(m_buffer[0..2]);
        if code != CMD_DATA {
          if code == CMD_WRQ && next_block_num == 1 {
            SendTo(AckPacket(0));
            continue;
          }
          assert sent0 + [] == sent0;
          LeadsReceiverDone(r.(result := Some(1)), Arriving(left), sent0 + [], goal.0, all);
          return 1;
        }
        var block_num := ReadBE16(m_buffer[2..4]);
        SendTo(AckPacket(block_num));
        if block_num >= next_block_num {
          next_block_num := next_block_num + 1;
          written := written + m_buffer[4..m_data_size];
        }
        if m_data_size < DATA_SIZE {
          LeadsReceiverDone(Receiver(next_block_num, written, Some(0)), Arriving(left), sent, goal.0, all);
          return 0;
        }
      }
    }

    /** `fread` of at most one block behind the header, reported as -1 at the end of the file. */
    method OnReadData(file: seq<byte>) returns (n: int)
      requires Valid() && filePos <= |file|
      modifies this`filePos, m_buffer
      ensures filePos <= |file|
      ensures n == if filePos == old(filePos) then -1 else Min(BLOCK_SIZE, |file| - old(filePos))
      ensures filePos == old(filePos) + Min(BLOCK_SIZE, |file| - old(filePos))
      ensures m_buffer[..4] == old(m_buffer[..4])
      ensures m_buffer[4..4 + filePos - old(filePos)] == file[old(filePos)..filePos]
      ensures m_buffer[4 + filePos - old(filePos)..] == old(m_buffer[4 + Min(BLOCK_SIZE, |file| - filePos)..])
    {
      var count := Min(BLOCK_SIZE, |file| - filePos);
      for i := 0 to count
        invariant filePos == old(filePos)
        invariant m_buffer[..4] == old(m_buffer[..4])
        invariant m_buffer[4..4 + i] == file[filePos..filePos + i]
        invariant m_buffer[4 + i..] == old(m_buffer[..])[4 + i..]
      {
        m_buffer[4 + i] := file[filePos + i];
        assert m_buffer[4..4 + i + 1] == m_buffer[4..4 + i] + [file[filePos + i]];
        assert file[filePos..filePos + i + 1] == file[filePos..filePos + i] + [file[filePos + i]];
      }
      filePos := filePos + count;
      n := if count > 0 then count else -1;
    }

    /** Storing a packet at the start of `m_buffer`. */
    method Store(p: Packet)
      requires Valid() && |p| <= DATA_SIZE
      modifies m_buffer
      ensures m_buffer[..] == Overlay(old(m_buffer[..]), p)
    {
      for i := 0 to |p|
        invariant m_buffer[..i] == p[..i]
        invariant m_buffer[i..] == old(m_buffer[..])[i..]
      {
        m_buffer[i] := p[i];
      }
    }

    method SendError(e: Packet)
      requires Valid() && |e| <= DATA_SIZE
      modifies this`sent, m_buffer
      ensures m_buffer[..] == Overlay(old(m_buffer[..]), e)
      ensures sent == old(sent) + [e]
    {
      Store(e);
      SendTo(e);
    }

    /** `wait_for_ack`: 0 for the expected number, 1 for another one, -1 for anything else. */
    method WaitForAck(block_num: nat, input: seq<Option<Packet>>) returns (status: int, rest: seq<Option<Packet>>)
      requires Valid()
      modifies this`sent, m_buffer
      ensures rest == Tail(input)
      ensures status == if Foreign(Head(input)) then -1 else if Expected(Head(input), block_num) then 0 else 1
      ensures m_buffer[..] == AfterWait(old(m_buffer[..]), Head(input))
      ensures sent == old(sent) + Complaint(Head(input))
    {
      var p := Head(input);
      rest := Tail(input);
      if p.None? || !IsAck(p.value) {
        SendError(INCORRECT_ACK);
        return -1, rest;
      }
      status := if Number(p.value) != block_num % 65536 then 1 else 0;
    }

    /** The top of the loop of `process_read`. */
    method LoadBlock(file: seq<byte>, block_num: nat) returns (loaded: bool)
      requires Valid() && filePos <= |file|
      modifies this, m_buffer
      ensures filePos <= |file|
      ensures
        var s := NextBlock(block_num, old(filePos), old(m_buffer[..]), file).0;
        && m_buffer[..] == s.buffer && filePos == s.pos
        && (loaded <==> s.result.None?)
        && (loaded ==> m_data_size == s.size && sent == old(sent))
        && (!loaded ==> sent == old(sent) + NextBlock(block_num, old(filePos), old(m_buffer[..]), file).1)
    {
      var header := BE16(CMD_DATA) + BE16(block_num);
      ghost var pos, start := filePos, m_buffer[..];
      Store(header);
      ghost var stored := m_buffer[..];
      m_data_size := OnReadData(file);
      if m_data_size < 0 {
        assert m_buffer[..] == stored;
        SendError(CANNOT_READ);
        return false;
      }
      ghost var n := m_data_size;
      assert m_buffer[..] == m_buffer[..4] + m_buffer[4..4 + n] + m_buffer[4 + n..];
      assert m_buffer[..] == Overlay(stored, header + file[pos..pos + n]);
      loaded := true;
    }

    method SendAndWait(block_num: nat, input: seq<Option<Packet>>) returns (status: int, rest: seq<Option<Packet>>)
      requires Valid() && 0 <= m_data_size <= BLOCK_SIZE
      modifies this`sent, m_buffer
      ensures rest == Tail(input)
      ensures status == 0 <==> Expected(Head(input), block_num)
      ensures status == 0 ==>
        m_buffer[..] == old(m_buffer[..]) && sent == old(sent) + [old(m_buffer[..])[..m_data_size + 4]]
      ensures m_buffer[..] == AfterWait(old(m_buffer[..]), Head(input))
      ensures sent == (old(sent) + [old(m_buffer[..])[..m_data_size + 4]]) + Complaint(Head(input))
    {
      SendTo(m_buffer[..m_data_size + 4]);
      status, rest := WaitForAck(block_num, input);
      assert status == 0 ==> Complaint(Head(input)) == [];
    }

    /** What is still to come of a transfer that ends in `goal` after sending `all`. */
    static ghost predicate Leads(s: Sender, file: seq<byte>, input: seq<Option<Packet>>, sent: seq<Packet>,
                                 goal: Sender, all: seq<Packet>)
    {
      && s.pos <= |file| && |s.buffer| == DATA_SIZE && s.size <= BLOCK_SIZE && s.tries < 3
      && goal == RunSender(s, file, input).0 && all == sent + RunSender(s, file, input).1
    }

    static lemma LeadsOn(s: Sender, file: seq<byte>, input: seq<Option<Packet>>, sent: seq<Packet>,
                         goal: Sender, all: seq<Packet>)
      requires Leads(s, file, input, sent, goal, all) && s.result.None?
      ensures Expected(Head(input), s.block) && s.size < BLOCK_SIZE ==> goal.result == Some(0) && all == sent
      ensures Expected(Head(input), s.block) && s.size == BLOCK_SIZE ==>
        var (s', out) := NextBlock(s.block + 1, s.pos, s.buffer, file);
        Leads(s', file, Tail(input), sent + out, goal, all)
      ensures !Expected(Head(input), s.block) && s.tries == 2 ==>
        goal.result == Some(-1) && all == sent + Complaint(Head(input))
      ensures !Expected(Head(input), s.block) && s.tries < 2 ==>
        var s' := s.(buffer := AfterWait(s.buffer, Head(input)), tries := s.tries + 1);
        Leads(s', file, Tail(input), (sent + Complaint(Head(input))) + [s'.buffer[..s.size + 4]], goal, all)
    {
      if Expected(Head(input), s.block) {
        AckStep(s, file, input);
        var (s', out) := NextBlock(s.block + 1, s.pos, s.buffer, file);
        if s.size == BLOCK_SIZE {
          Associative(sent, out, RunSender(s', file, Tail(input)).1);
        }
      } else if s.tries == 2 {
        GiveUpStep(s, file, input);
      } else {
        RetryStep(s, file, input, sent);
      }
    }

    /** The retry loop of `process_read`: block `block_num` is in the buffer.  `goal` is how
        the whole transfer ends, `all` everything sent by then. */
    method SendBlock(file: seq<byte>, block_num: nat, input: seq<Option<Packet>>, ghost goal: Sender,
                     ghost all: seq<Packet>)
      returns (result: int, rest: seq<Option<Packet>>)
      requires Valid() && filePos <= |file| && 0 <= m_data_size <= BLOCK_SIZE
      requires Leads(Sender(block_num, filePos, m_buffer[..], m_data_size, 0, None), file, input,
                     sent + [m_buffer[..m_data_size + 4]], goal, all)
      modifies this`sent, m_buffer
      ensures result == 0 || result == -1
      ensures result == -1 || m_data_size < BLOCK_SIZE ==> goal.result == Some(result) && sent == all
      ensures result == 0 && m_data_size == BLOCK_SIZE ==>
        var (s', out) := NextBlock(block_num + 1, filePos, m_buffer[..], file);
        Leads(s', file, rest, sent + out, goal, all)
    {
      hide Leads, RunSender, AfterWait, Complaint, Expected, Head, Tail;
      rest := input;
      ghost var s := Sender(block_num, filePos, m_buffer[..], m_data_size, 0, None);
      var r := 0;
      while true
        invariant 0 <= r < 3
        invariant s == Sender(block_num, filePos, m_buffer[..], m_data_size, r, None)
        invariant Leads(s, file, rest, sent + [s.buffer[..s.size + 4]], goal, all)
        decreases 3 - r
      {
        LeadsOn(s, file, rest, sent + [s.buffer[..s.size + 4]], goal, all);
        ghost var answer := Head(rest);
        var status;
        status, rest := SendAndWait(block_num, rest);
        if status == 0 {
          return 0, rest;
        }
        r := r + 1;
        if r == 3 {
          return -1, rest;
        }
        s := s.(buffer := AfterWait(s.buffer, answer), tries := r);
      }
    }

    /** `process_read`. */
    method ProcessRead(file: seq<byte>, input: seq<Option<Packet>>) returns (result: int)
      requires Valid() && filePos == 0
      modifies this, m_buffer
      ensures
        var (s, out) := StartSender(file, old(m_buffer[..]));
        var r := RunSender(s, file, input);
        r.0.result == Some(result) && sent == old(sent) + out + r.1
    {
      var block_num, left := 1, input;
      ghost var start := StartSender(file, m_buffer[..]);
      ghost var goal := RunSender(start.0, file, input);
      ghost var all := sent + start.1 + goal.1;
      while true
        invariant Valid() && filePos <= |file| && block_num >= 1
        invariant
          var (s, out) := NextBlock(block_num, filePos, m_buffer[..], file);
          Leads(s, file, left, sent + out, goal.0, all)
        decreases |file| - filePos
      {
        ghost var s := NextBlock(block_num, filePos, m_buffer[..], file).0;
        var loaded := LoadBlock(file, block_num);
        if !loaded {
          assert RunSender(s, file, left) == (s, []);
          return -1;
        }
        assert s == Sender(block_num, filePos, m_buffer[..], m_data_size, 0, None);
        result, left := SendBlock(file, block_num, left, goal.0, all);
        if result < 0 {
          return result;
        }
        if m_data_size < BLOCK_SIZE {
          return 0;
        }
        block_num := block_num + 1;
      }
    }
  }
}
