/** Sender and receiver of one file, joined by a channel that may lose, repeat and reorder
    datagrams: a datagram once sent stays deliverable, and nothing ever has to arrive. */
module TftpProtocol {
  import opened Options
  import opened Bytes
  import opened Tftp

  datatype System = System(sender: Sender, receiver: Receiver, data: set<Packet>, acks: set<Packet>)

  function ToSet(s: seq<Packet>): (r: set<Packet>)
    ensures forall p :: p in r <==> p in s
  {
    set p | p in s
  }

  /** The transfer has been requested: write requests may still be on their way, and the
      answer to the first one too. */
  ghost predicate Init(file: seq<byte>, s: System) {
    exists buffer :: InitWith(file, s, buffer)
  }

  ghost predicate InitWith(file: seq<byte>, s: System, buffer: seq<byte>) {
    && |buffer| == DATA_SIZE
    && s.sender == StartSender(file, buffer).0
    && s.receiver == FreshReceiver
    && (forall p :: p in s.data ==> p in StartSender(file, buffer).1 || (4 <= |p| <= DATA_SIZE && Code(p) == CMD_WRQ))
    && (forall p :: p in StartSender(file, buffer).1 ==> p in s.data)
    && (forall p :: p in s.acks ==> p == AckPacket(0))
  }

  ghost predicate ReceiverStep(s: System, s': System, packet: Option<Packet>) {
    && s.receiver.result.None?
    && (packet.Some? ==> packet.value in s.data && |packet.value| >= 4)
    && s' == s.(receiver := Receive(s.receiver, packet).0, acks := s.acks + ToSet(Receive(s.receiver, packet).1))
  }

  ghost predicate SenderStep(file: seq<byte>, s: System, s': System, packet: Option<Packet>) {
    && s.sender.result.None? && s.sender.pos <= |file| && |s.sender.buffer| == DATA_SIZE && s.sender.size <= BLOCK_SIZE
    && (packet.Some? ==> packet.value in s.acks)
    && s' == s.(sender := Answer(s.sender, file, packet).0, data := s.data + ToSet(Answer(s.sender, file, packet).1))
  }

  ghost predicate Step(file: seq<byte>, s: System, s': System) {
    exists packet :: ReceiverStep(s, s', packet) || SenderStep(file, s, s', packet)
  }

  ghost predicate Path(file: seq<byte>, trace: seq<System>) {
    trace != [] && forall i :: 0 <= i < |trace| - 1 ==> Step(file, trace[i], trace[i + 1])
  }

  ghost predicate Run(file: seq<byte>, trace: seq<System>) {
    Path(file, trace) && Init(file, trace[0])
  }

  // ---------------------------------------------------------------------------
  // The invariant

  /** Block numbers start at 1; block `k` exists when the file reaches it. */
  ghost predicate Exists(file: seq<byte>, k: nat) {
    k >= 1 && BLOCK_SIZE * (k - 1) < |file|
  }

  function UpTo(file: seq<byte>, k: nat): (r: nat)
    ensures r <= |file|
  {
    Min(BLOCK_SIZE * k, |file|)
  }

  function Block(file: seq<byte>, k: nat): (r: seq<byte>)
    requires Exists(file, k)
    ensures 0 < |r| <= BLOCK_SIZE
    ensures |r| < BLOCK_SIZE ==> |file| % BLOCK_SIZE != 0 && k == |file| / BLOCK_SIZE + 1
  {
    file[UpTo(file, k - 1)..UpTo(file, k)]
  }

  function DataPacket(file: seq<byte>, k: nat): (r: Packet)
    requires Exists(file, k)
    ensures |r| == 4 + |Block(file, k)|
    ensures Code(r) == CMD_DATA && Number(r) == k % 65536 && r[4..] == Block(file, k)
  {
    ReadWrite16(CMD_DATA);
    ReadWrite16(k);
    var h := BE16(CMD_DATA) + BE16(k);
    assert (h + Block(file, k))[2..][..2] == BE16(k);
    h + Block(file, k)
  }

  /** The last block a sender gets to acknowledge: one more than the full blocks. */
  function LastBlock(file: seq<byte>): nat {
    |file| / BLOCK_SIZE + 1
  }

  ghost predicate SenderInv(file: seq<byte>, s: Sender) {
    && s.block >= 1 && |s.buffer| == DATA_SIZE && s.tries < 3 && s.pos == UpTo(file, s.block)
    && (s.result.None? || s.result == Some(0) ==>
          && Exists(file, s.block) && s.size == |Block(file, s.block)|
          && (s.buffer[..s.size + 4] == DataPacket(file, s.block) || Code(s.buffer) == CMD_ERROR))
    && s.size <= BLOCK_SIZE
    && BLOCK_SIZE * (s.block - 1) <= |file|
    && (s.result == Some(0) ==> s.size < BLOCK_SIZE)
  }

  ghost predicate SentOk(file: seq<byte>, block: nat, p: Packet) {
    && 4 <= |p| <= DATA_SIZE
    && (Code(p) == CMD_WRQ || Code(p) == CMD_ERROR
        || exists k :: 1 <= k <= block && Exists(file, k) && p == DataPacket(file, k))
  }

  ghost predicate AckOk(file: seq<byte>, block: nat, next: nat, p: Packet) {
    exists k: nat :: k <= block && p == AckPacket(k % 65536) && (k <= 65535 ==> k < next)
  }

  ghost predicate ReceiverInv(file: seq<byte>, block: nat, r: Receiver) {
    && 1 <= r.next <= 65536 && r.next <= block + 1
    && (if block <= 65535 then r.next >= block else r.next == 65536)
    && r.written == file[..UpTo(file, r.next - 1)]
    && (r.result == Some(0) ==> |file| % BLOCK_SIZE != 0 && r.next - 1 == Min(LastBlock(file), 65535))
    && (|file| % BLOCK_SIZE != 0 && r.next == LastBlock(file) + 1 ==> r.result == Some(0))
  }

  ghost predicate Inv(file: seq<byte>, s: System) {
    && SenderInv(file, s.sender)
    && ReceiverInv(file, s.sender.block, s.receiver)
    && (forall p :: p in s.data ==> SentOk(file, s.sender.block, p))
    && (forall p :: p in s.acks ==> AckOk(file, s.sender.block, s.receiver.next, p))
    && (s.sender.result == Some(0) && LastBlock(file) <= 65535 ==> s.receiver.next == LastBlock(file) + 1)
  }

  /** Loading a block keeps the sender consistent and sends that block, or an error. */
  lemma NextBlockInv(file: seq<byte>, block: nat, pos: nat, buffer: seq<byte>)
    requires block >= 1 && |buffer| == DATA_SIZE && pos == UpTo(file, block - 1) && BLOCK_SIZE * (block - 1) <= |file|
    ensures
      var (s, out) := NextBlock(block, pos, buffer, file);
      && SenderInv(file, s) && s.block == block && s.result != Some(0)
      && (Exists(file, block) <==> s.result.None?)
      && (s.result.None? ==> out == [DataPacket(file, block)] && s.buffer[..s.size + 4] == DataPacket(file, block))
      && (forall p :: p in out ==> SentOk(file, block, p))
  {
    var (s, out) := NextBlock(block, pos, buffer, file);
    if s.result.None? {
      var h := BE16(CMD_DATA) + BE16(block);
      assert Exists(file, block);
      assert out[0] == h + Block(file, block) == DataPacket(file, block);
    } else {
      assert ReadBE16(CANNOT_READ) == CMD_ERROR;
    }
  }

  lemma InitInv(file: seq<byte>, s: System)
    requires Init(file, s)
    ensures Inv(file, s)
  {
    var buffer :| InitWith(file, s, buffer);
    NextBlockInv(file, 1, 0, buffer);
    forall p | p in s.acks ensures AckOk(file, 1, 1, p) {
      assert p == AckPacket(0 % 65536);
    }
    assert file[..UpTo(file, 0)] == [];
  }

  lemma NumberOfAck(k: nat)
    ensures Code(AckPacket(k)) == CMD_ACK && Number(AckPacket(k)) == k % 65536 && IsAck(AckPacket(k))
  {
    ReadWrite16(CMD_ACK);
    ReadWrite16(k);
    assert AckPacket(k)[2..] == BE16(k);
  }

  /** What one datagram does to the receiver. */
  lemma ReceiveInv(file: seq<byte>, block: nat, r: Receiver, packet: Option<Packet>)
    requires ReceiverInv(file, block, r) && r.result.None? && block <= LastBlock(file)
    requires packet.Some? ==> SentOk(file, block, packet.value)
    ensures
      var (r', out) := Receive(r, packet);
      && ReceiverInv(file, block, r') && r'.next >= r.next
      && (forall p :: p in out ==> AckOk(file, block, r'.next, p))
  {
    var (r', out) := Receive(r, packet);
    if packet.Some? && Code(packet.value) == CMD_DATA {
      var k :| 1 <= k <= block && Exists(file, k) && packet.value == DataPacket(file, k);
      DataInv(file, block, r, k);
    } else if packet.Some? && Code(packet.value) == CMD_WRQ && r.next == 1 {
      assert AckOk(file, block, 1, AckPacket(0 % 65536));
    }
  }

  lemma DataInv(file: seq<byte>, block: nat, r: Receiver, k: nat)
    requires ReceiverInv(file, block, r) && r.result.None? && block <= LastBlock(file)
    requires 1 <= k <= block && Exists(file, k)
    ensures
      var (r', out) := Receive(r, Some(DataPacket(file, k)));
      && ReceiverInv(file, block, r') && r'.next >= r.next
      && (forall p :: p in out ==> AckOk(file, block, r'.next, p))
  {
    var p := DataPacket(file, k);
    var (r', out) := Receive(r, Some(p));
    if Number(p) >= r.next {
      assert block <= 65535 && k == block == r.next;
      WriteBlock(file, k);
      assert r'.written == file[..UpTo(file, k)];
    } else {
      assert r'.next == r.next && r'.written == r.written;
    }
    if |p| < DATA_SIZE {
      assert k == LastBlock(file);
    } else if |file| % BLOCK_SIZE != 0 {
      assert k != LastBlock(file);
    }
    assert out == [AckPacket(k % 65536)];
    assert AckOk(file, block, r'.next, AckPacket(k % 65536));
  }

  lemma WriteBlock(file: seq<byte>, k: nat)
    requires Exists(file, k)
    ensures file[..UpTo(file, k - 1)] + Block(file, k) == file[..UpTo(file, k)]
  {
  }

  lemma AckLater(file: seq<byte>, block: nat, next: nat, block': nat, next': nat, p: Packet)
    requires AckOk(file, block, next, p) && block <= block' && next <= next'
    ensures AckOk(file, block', next', p)
  {
    var k: nat :| k <= block && p == AckPacket(k % 65536) && (k <= 65535 ==> k < next);
    assert k <= block';
  }

  lemma SentLater(file: seq<byte>, block: nat, block': nat, p: Packet)
    requires SentOk(file, block, p) && block <= block'
    ensures SentOk(file, block', p)
  {
  }

  /** An acknowledgement of the current block means the receiver has it, while block
      numbers have not wrapped around. */
  lemma ExpectedMeansReceived(file: seq<byte>, block: nat, r: Receiver, p: Packet)
    requires ReceiverInv(file, block, r) && block >= 1 && AckOk(file, block, r.next, p)
    requires Expected(Some(p), block)
    ensures block <= 65535 ==> r.next == block + 1
  {
    var k: nat :| k <= block && p == AckPacket(k % 65536) && (k <= 65535 ==> k < r.next);
    NumberOfAck(k % 65536);
  }

  lemma RetryInv(file: seq<byte>, s: Sender, packet: Option<Packet>)
    requires SenderInv(file, s) && s.result.None? && !Expected(packet, s.block)
    ensures
      var (s', out) := Answer(s, file, packet);
      && SenderInv(file, s') && s'.block == s.block && s'.result != Some(0)
      && (forall p :: p in out ==> SentOk(file, s.block, p))
  {
    var (s', out) := Answer(s, file, packet);
    assert INCORRECT_ACK[..2] == BE16(CMD_ERROR);
    assert ReadBE16(INCORRECT_ACK) == CMD_ERROR;
    assert Foreign(packet) ==> Code(s'.buffer) == CMD_ERROR;
    assert |s'.buffer[..s.size + 4]| == s.size + 4;
  }

  lemma StepInv(file: seq<byte>, s: System, s': System)
    requires Inv(file, s) && Step(file, s, s')
    ensures Inv(file, s')
  {
    var packet :| ReceiverStep(s, s', packet) || SenderStep(file, s, s', packet);
    if ReceiverStep(s, s', packet) {
      ReceiverStepInv(file, s, s', packet);
    } else {
      SenderStepInv(file, s, s', packet);
    }
  }

  lemma ReceiverStepInv(file: seq<byte>, s: System, s': System, packet: Option<Packet>)
    requires Inv(file, s) && ReceiverStep(s, s', packet)
    ensures Inv(file, s')
  {
    ReceiveInv(file, s.sender.block, s.receiver, packet);
    forall p | p in s'.acks ensures AckOk(file, s'.sender.block, s'.receiver.next, p) {
      if p in s.acks {
        AckLater(file, s.sender.block, s.receiver.next, s.sender.block, s'.receiver.next, p);
      }
    }
  }

  lemma SenderStepInv(file: seq<byte>, s: System, s': System, packet: Option<Packet>)
    requires Inv(file, s) && SenderStep(file, s, s', packet)
    ensures Inv(file, s')
  {
    if Expected(packet, s.sender.block) {
      AckedInv(file, s, s', packet);
    } else {
      RetryInv(file, s.sender, packet);
      RetriedInv(file, s, s', Answer(s.sender, file, packet).1);
    }
  }

  lemma AckedInv(file: seq<byte>, s: System, s': System, packet: Option<Packet>)
    requires Inv(file, s) && SenderStep(file, s, s', packet) && Expected(packet, s.sender.block)
    ensures Inv(file, s')
  {
    ExpectedMeansReceived(file, s.sender.block, s.receiver, packet.value);
    if s.sender.size == BLOCK_SIZE {
      MoveOn(file, s.sender, packet);
      AdvanceInv(file, s, s', Answer(s.sender, file, packet).1);
    } else {
      DoneInv(file, s, s');
    }
  }

  lemma MoveOn(file: seq<byte>, s: Sender, packet: Option<Packet>)
    requires SenderInv(file, s) && s.result.None? && Expected(packet, s.block) && s.size == BLOCK_SIZE
    ensures
      var (s', out) := Answer(s, file, packet);
      && SenderInv(file, s') && s'.block == s.block + 1 && s'.result != Some(0)
      && (forall p :: p in out ==> SentOk(file, s'.block, p))
  {
    NextBlockInv(file, s.block + 1, s.pos, s.buffer);
  }

  /** The last block has been acknowledged. */
  lemma DoneInv(file: seq<byte>, s: System, s': System)
    requires Inv(file, s) && s.sender.result.None? && s.sender.size < BLOCK_SIZE
    requires s'.sender == s.sender.(result := Some(0)) && s'.receiver == s.receiver && s'.acks == s.acks
      && s'.data <= s.data
    requires s.sender.block <= 65535 ==> s.receiver.next == s.sender.block + 1
    ensures Inv(file, s')
  {
    assert s.sender.block == LastBlock(file);
  }

  /** The sender has repeated itself or given up. */
  lemma RetriedInv(file: seq<byte>, s: System, s': System, out: seq<Packet>)
    requires Inv(file, s) && s'.receiver == s.receiver && s'.acks == s.acks && s'.data == s.data + ToSet(out)
    requires SenderInv(file, s'.sender) && s'.sender.block == s.sender.block && s'.sender.result != Some(0)
    requires forall p :: p in out ==> SentOk(file, s.sender.block, p)
    ensures Inv(file, s')
  {
  }

  /** The sender has moved on to its next block. */
  lemma AdvanceInv(file: seq<byte>, s: System, s': System, out: seq<Packet>)
    requires Inv(file, s) && s'.receiver == s.receiver && s'.acks == s.acks
    requires SenderInv(file, s'.sender) && s'.sender.block == s.sender.block + 1 && s'.sender.result != Some(0)
    requires s.sender.block <= 65535 ==> s.receiver.next == s.sender.block + 1
    requires s'.data == s.data + ToSet(out) && forall p :: p in out ==> SentOk(file, s'.sender.block, p)
    ensures Inv(file, s')
  {
    forall p | p in s'.acks ensures AckOk(file, s'.sender.block, s'.receiver.next, p) {
      AckLater(file, s.sender.block, s.receiver.next, s'.sender.block, s'.receiver.next, p);
    }
    forall p | p in s'.data ensures SentOk(file, s'.sender.block, p) {
      if p in s.data { SentLater(file, s.sender.block, s'.sender.block, p); }
    }
  }

  lemma {:induction false} RunInv(file: seq<byte>, trace: seq<System>, i: nat)
    requires Run(file, trace) && i < |trace|
    ensures Inv(file, trace[i])
  {
    if i == 0 {
      InitInv(file, trace[0]);
    } else {
      RunInv(file, trace, i - 1);
      assert Step(file, trace[i - 1], trace[i - 1 + 1]);
      StepInv(file, trace[i - 1], trace[i]);
    }
  }

  // ---------------------------------------------------------------------------
  // What every run guarantees

  /** What a reachable state says about the file. */
  ghost predicate Agree(file: seq<byte>, s: System) {
    && 1 <= s.receiver.next <= 65536
    && s.receiver.written == file[..UpTo(file, s.receiver.next - 1)]
    && (s.receiver.result == Some(0) ==>
          |file| % BLOCK_SIZE != 0 && (s.receiver.written == file <==> LastBlock(file) <= 65535))
    && (s.sender.result == Some(0) ==>
          && |file| % BLOCK_SIZE != 0
          && (LastBlock(file) <= 65535 ==> s.receiver.result == Some(0) && s.receiver.written == file))
  }

  lemma InvAgrees(file: seq<byte>, s: System)
    requires Inv(file, s)
    ensures Agree(file, s)
  {
    assert file[..|file|] == file;
    if s.receiver.result == Some(0) && LastBlock(file) > 65535 {
      assert |s.receiver.written| < |file|;
    }
  }

  /** In every run what has been written is a prefix of the file made of whole blocks (at
      most 65535 of them).  A receiver that reports success has the whole file exactly when
      its block numbers fit 16 bits; a sender that reports success has, for such files, a
      receiver with the whole file at the other end. */
  lemma Agreement(file: seq<byte>, trace: seq<System>)
    requires Run(file, trace)
    ensures Agree(file, trace[|trace| - 1])
  {
    RunInv(file, trace, |trace| - 1);
    InvAgrees(file, trace[|trace| - 1]);
  }

  // ---------------------------------------------------------------------------
  // Transfers that succeed

  lemma {:induction false} JoinPaths(file: seq<byte>, a: seq<System>, b: seq<System>)
    requires Path(file, a) && Path(file, b) && Step(file, a[|a| - 1], b[0])
    ensures Path(file, a + b)
  {
    var t := a + b;
    forall i | 0 <= i < |t| - 1 ensures Step(file, t[i], t[i + 1]) {
      if i < |a| - 1 {
        assert Step(file, a[i], a[i + 1]);
      } else if i >= |a| {
        assert Step(file, b[i - |a|], b[i - |a| + 1]);
      }
    }
  }

  /** Nothing has been lost so far: the current block is on its way to a receiver that has
      all the blocks before it, or as many as it can number. */
  ghost predicate OnTrack(file: seq<byte>, s: System) {
    && Inv(file, s) && s.sender.result.None? && s.receiver.result.None?
    && DataPacket(file, s.sender.block) in s.data
  }

  /** The block arrives and is acknowledged, the acknowledgement arrives. */
  lemma DeliverBlock(file: seq<byte>, s: System) returns (s1: System)
    requires OnTrack(file, s)
    ensures Step(file, s, s1) && Inv(file, s1) && s1.sender == s.sender && s1.data == s.data
    ensures AckPacket(s.sender.block % 65536) in s1.acks
    ensures s1.receiver.result == if s.sender.size < BLOCK_SIZE then Some(0) else None
  {
    var b := s.sender.block;
    var p := DataPacket(file, b);
    var (r, out) := Receive(s.receiver, Some(p));
    s1 := s.(receiver := r, acks := s.acks + ToSet(out));
    assert ReceiverStep(s, s1, Some(p));
    assert out[0] == AckPacket(b % 65536);
    StepInv(file, s, s1);
  }

  lemma DeliverAck(file: seq<byte>, s: System) returns (s2: System)
    requires Inv(file, s) && s.sender.result.None? && AckPacket(s.sender.block % 65536) in s.acks
    ensures Step(file, s, s2) && Inv(file, s2)
    ensures
      var (sender, out) := Answer(s.sender, file, Some(AckPacket(s.sender.block % 65536)));
      s2 == s.(sender := sender, data := s.data + ToSet(out))
  {
    var a := AckPacket(s.sender.block % 65536);
    var (sender, out) := Answer(s.sender, file, Some(a));
    s2 := s.(sender := sender, data := s.data + ToSet(out));
    assert SenderStep(file, s, s2, Some(a));
    StepInv(file, s, s2);
  }

  lemma AfterAck(file: seq<byte>, s: Sender)
    requires SenderInv(file, s) && s.result.None?
    ensures
      var (s', out) := Answer(s, file, Some(AckPacket(s.block % 65536)));
      && (s.size < BLOCK_SIZE ==> s'.result == Some(0))
      && (s.size == BLOCK_SIZE && Exists(file, s.block + 1) ==>
            s'.block == s.block + 1 && s'.result.None? && DataPacket(file, s.block + 1) in out)
  {
    NumberOfAck(s.block % 65536);
    if s.size == BLOCK_SIZE {
      NextBlockInv(file, s.block + 1, s.pos, s.buffer);
    }
  }

  /** Both steps: the transfer is over, or on track with the next block. */
  lemma Advance(file: seq<byte>, s: System) returns (s1: System, s2: System)
    requires OnTrack(file, s) && |file| % BLOCK_SIZE != 0
    ensures Step(file, s, s1) && Step(file, s1, s2)
    ensures s.sender.size < BLOCK_SIZE ==> s2.sender.result == Some(0) && s2.receiver.result == Some(0)
    ensures s.sender.size == BLOCK_SIZE ==>
      OnTrack(file, s2) && s2.sender.block == s.sender.block + 1 && BLOCK_SIZE * s.sender.block < |file|
    ensures s.sender.size <= BLOCK_SIZE
  {
    hide Step, Answer, Exists, DataPacket, AckPacket, SenderInv;
    TrackSender(file, s);
    s1 := DeliverBlock(file, s);
    s2 := DeliverAck(file, s1);
    AfterAck(file, s.sender);
    if s.sender.size == BLOCK_SIZE {
      FullBlock(file, s.sender.block);
    }
  }

  lemma TrackSender(file: seq<byte>, s: System)
    requires OnTrack(file, s)
    ensures SenderInv(file, s.sender) && s.sender.size <= BLOCK_SIZE
    ensures Exists(file, s.sender.block) && |Block(file, s.sender.block)| == s.sender.size
  {
  }

  lemma {:induction false} Finish(file: seq<byte>, s: System) returns (path: seq<System>)
    requires OnTrack(file, s) && |file| % BLOCK_SIZE != 0
    ensures Path(file, path) && path[0] == s
    ensures path[|path| - 1].sender.result == Some(0) && path[|path| - 1].receiver.result == Some(0)
    decreases |file| - BLOCK_SIZE * s.sender.block
  {
    var s1, s2 := Advance(file, s);
    if s.sender.size < BLOCK_SIZE {
      path := [s, s1, s2];
    } else {
      var rest := Finish(file, s2);
      JoinPaths(file, [s, s1], rest);
      path := [s, s1] + rest;
    }
  }

  lemma FullBlock(file: seq<byte>, k: nat)
    requires Exists(file, k) && |Block(file, k)| == BLOCK_SIZE && |file| % BLOCK_SIZE != 0
    ensures Exists(file, k + 1) && BLOCK_SIZE * k < |file|
  {
  }

  /** A run can end in success exactly when the file does not end on a block boundary: a
      file that does leaves `process_read` with nothing to send as its last block. */
  lemma SuccessPossible(file: seq<byte>)
    ensures (exists trace: seq<System> :: Run(file, trace) && trace[|trace| - 1].sender.result == Some(0))
       <==> |file| % BLOCK_SIZE != 0
  {
    if |file| % BLOCK_SIZE != 0 {
      var trace := SuccessfulRun(file);
      assert Run(file, trace);
    }
    forall trace: seq<System> | Run(file, trace)
      && trace[|trace| - 1].sender.result == Some(0) ensures |file| % BLOCK_SIZE != 0 {
      Agreement(file, trace);
    }
  }

  lemma Begin(file: seq<byte>) returns (s: System)
    requires |file| % BLOCK_SIZE != 0
    ensures Init(file, s) && OnTrack(file, s)
  {
    var buffer := Zeros(DATA_SIZE);
    s := System(StartSender(file, buffer).0, FreshReceiver, ToSet(StartSender(file, buffer).1), {});
    assert InitWith(file, s, buffer);
    InitInv(file, s);
    FirstBlock(file, buffer);
  }

  lemma FirstBlock(file: seq<byte>, buffer: seq<byte>)
    requires |file| % BLOCK_SIZE != 0 && |buffer| == DATA_SIZE
    ensures
      var (sender, out) := StartSender(file, buffer);
      && sender.result.None? && sender.block == 1 && Exists(file, 1)
      && DataPacket(file, 1) in out
  {
    NextBlockInv(file, 1, 0, buffer);
    var out := StartSender(file, buffer).1;
    assert out[0] == DataPacket(file, 1);
  }

  lemma SuccessfulRun(file: seq<byte>) returns (trace: seq<System>)
    requires |file| % BLOCK_SIZE != 0
    ensures Run(file, trace)
    ensures trace[|trace| - 1].sender.result == Some(0) && trace[|trace| - 1].receiver.result == Some(0)
  {
    var s := Begin(file);
    trace := Finish(file, s);
  }

  /** The limit is real: a longer file can be reported complete by both ends while only its
      first 65535 blocks were written. */
  lemma WrapLosesData(file: seq<byte>)
    requires |file| % BLOCK_SIZE != 0 && LastBlock(file) > 65535
    ensures exists trace: seq<System> | Run(file, trace) ::
              && trace[|trace| - 1].sender.result == Some(0)
              && trace[|trace| - 1].receiver.result == Some(0)
              && trace[|trace| - 1].receiver.written == file[..BLOCK_SIZE * 65535]
  {
    var trace := SuccessfulRun(file);
    RunInv(file, trace, |trace| - 1);
    assert Run(file, trace);
  }

  // ---------------------------------------------------------------------------
  // Retransmission

  /** A block is sent again only after an acknowledgement with another number.  After a
      timeout `send_error` has overwritten the buffer, and the retry carries its text. */
  lemma RetransmitsBlock(file: seq<byte>, s: Sender, packet: Option<Packet>)
    requires SenderInv(file, s) && s.result.None? && s.tries < 2 && !Expected(packet, s.block)
    requires s.buffer[..s.size + 4] == DataPacket(file, s.block)
    ensures
      var out := Answer(s, file, packet).1;
      && out != []
      && (out[|out| - 1] == DataPacket(file, s.block) <==> !Foreign(packet))
      && (Foreign(packet) ==> forall p :: p in out ==> |p| >= 4 && Code(p) == CMD_ERROR)
  {
    assert INCORRECT_ACK[..2] == BE16(CMD_ERROR);
    assert ReadBE16(INCORRECT_ACK) == CMD_ERROR;
    var (s', out) := Answer(s, file, packet);
    if Foreign(packet) {
      assert Code(s'.buffer) == CMD_ERROR;
      assert Code(s'.buffer[..s.size + 4]) == CMD_ERROR;
    }
  }
}
