/** Chunked bodies in the receive buffer itself: chunk data is moved up against the body, and
    what has not been parsed is moved up behind it. */
module ChunkedIo {
  import opened Options
  import opened Bytes
  import opened Chunked

  /** The first loop of `mg_http_parse_chunk`. */
  method ScanNumber(buf: array<byte>, at: nat, end: nat) returns (r: Option<(nat, nat)>)
    requires at <= end <= buf.Length
    ensures r == HexNumber(buf[at..end], 0, 0)
  {
    ghost var s := buf[at..end];
    var i: nat, n: nat := 0, 0;
    while at + i < end && HexValue(buf[at + i]).Some?
      invariant i <= 6 && at + i <= end && HexNumber(s, 0, 0) == HexNumber(s, i, n)
      decreases 6 - i
    {
      assert s[i] == buf[at + i];
      n := n * 16 + HexValue(buf[at + i]).value;
      i := i + 1;
      if i > 6 {
        return None;
      }
    }
    r := Some((i, n));
  }

  /** `mg_http_parse_chunk`. */
  method ParseChunkAt(buf: array<byte>, at: nat, end: nat) returns (r: Option<Chunk>)
    requires at <= end <= buf.Length
    ensures r == ParseChunk(buf[at..end])
  {
    hide HexNumber, HexValue;
    var number := ScanNumber(buf, at, end);
    if number.None? {
      return None;
    }
    var (i, n) := number.value;
    if i == 0 || at + i + 2 > end || buf[at + i] != CR || buf[at + i + 1] != LF {
      return None;
    }
    var data := i + 2;
    i := data + n;
    if at + i + 2 > end || buf[at + i] != CR || buf[at + i + 1] != LF {
      return None;
    }
    r := Some(Chunk(data, n, i + 2));
  }

  /** `memmove` inside a buffer, downwards. */
  method MoveDown(buf: array<byte>, to: nat, from: nat, n: nat)
    requires to <= from && from + n <= buf.Length
    modifies buf
    ensures buf[..to + n] == old(buf[..to]) + old(buf[from..from + n])
    ensures forall k :: to + n <= k < buf.Length ==> buf[k] == old(buf[k])
  {
    forall i | 0 <= i < n {
      buf[to + i] := buf[from + i];
    }
    assert buf[..to] == old(buf[..to]) && buf[to..to + n] == old(buf[from..from + n]);
  }

  method Clear(buf: array<byte>, at: nat, n: nat)
    requires at + n <= buf.Length
    modifies buf
    ensures buf[..at] == old(buf[..at]) && buf[at..at + n] == Zeros(n) && buf[at + n..] == old(buf[at + n..])
  {
    forall i | 0 <= i < n {
      buf[at + i] := 0;
    }
  }

  class Connection {
    var buf: array<byte>
    /** `recv_mbuf.len` and `chunk.body_len`. */
    var recvLen: nat
    var bodyLen: nat
    /** Set when the last chunk has been seen. */
    var complete: bool
    /** The body the handler of the chunk event has been given and had deleted. */
    ghost var passed: seq<byte>

    constructor ()
      ensures Valid() && Outcome() == Nothing && fresh(buf)
    {
      buf := new byte[0];
      recvLen, bodyLen, complete, passed := 0, 0, false, [];
    }

    ghost predicate Valid()
      reads this
    {
      bodyLen <= recvLen <= buf.Length
    }

    ghost function State(): Buffer
      requires Valid()
      reads this, buf
    {
      Buffer(buf[..bodyLen], buf[bodyLen..recvLen], complete)
    }

    ghost function Outcome(): Received
      requires Valid()
      reads this, buf
    {
      Received(passed, State())
    }

    /** One round of the loop of `mg_handle_chunked`: a chunk at `i` joins the body. */
    method CollapseOne(body: nat, i: nat) returns (found: bool, body': nat, i': nat, zero: bool)
      requires body <= i <= recvLen <= buf.Length
      modifies buf
      ensures
        var rest := old(buf[i..recvLen]);
        && found == ParseChunk(rest).Some?
        && (found ==>
              var c := ParseChunk(rest).value;
              && body' == body + c.size && i' == i + c.total <= recvLen && body' < i' && zero == (c.size == 0)
              && buf[..body'] == old(buf[..body]) + DataOf(rest) && buf[i'..recvLen] == rest[c.total..])
        && (!found ==> buf[..] == old(buf[..]) && body' == body && i' == i && !zero)
    {
      hide ParseChunk;
      body', i', zero := body, i, false;
      ghost var rest := buf[i..recvLen];
      var chunk := ParseChunkAt(buf, i, recvLen);
      found := chunk.Some?;
      if found {
        var c := chunk.value;
        assert DataOf(rest) == buf[i + c.at..i + c.at + c.size];
        MoveDown(buf, body, i + c.at, c.size);
        body', i', zero := body + c.size, i + c.total, c.size == 0;
        forall k | i' <= k < recvLen ensures buf[k] == rest[k - i] {
        }
      }
    }

    /** The loop of `mg_handle_chunked`: where the body ends then, and where parsing does. */
    method CollapseChunks() returns (body: nat, i: nat, zero: bool)
      requires Valid()
      modifies buf
      ensures bodyLen <= body <= i <= recvLen <= buf.Length
      ensures
        var c := Collapse(old(buf[bodyLen..recvLen]));
        && buf[..body] == old(buf[..bodyLen]) + c.data && buf[i..recvLen] == c.rest && zero == c.complete
      ensures i == bodyLen ==> buf[..] == old(buf[..]) && body == bodyLen && !zero
      ensures i > bodyLen ==> body < i
    {
      hide Collapse, ParseChunk, DataOf;
      ghost var start, all, data := buf[..bodyLen], buf[bodyLen..recvLen], [];
      body, i, zero := bodyLen, bodyLen, false;
      var found := true;
      assert start + data == start;
      PrependNothing(Collapse(all));
      while found && !zero
        invariant bodyLen <= body <= i <= recvLen && (i > bodyLen ==> body < i)
        invariant i == bodyLen ==> buf[..] == old(buf[..]) && body == bodyLen && !zero
        invariant buf[..body] == start + data
        invariant if zero then Collapse(all) == Body(data, buf[i..recvLen], true)
                  else Collapse(all) == Prepend(data, Collapse(buf[i..recvLen]))
        invariant !found ==> !zero && ParseChunk(buf[i..recvLen]).None?
        decreases recvLen - i, found
      {
        ghost var rest := buf[i..recvLen];
        NextChunk(rest);
        found, body, i, zero := CollapseOne(body, i);
        if found {
          ghost var d := DataOf(rest);
          Regroup(start, data, d, Collapse(buf[i..recvLen]));
          assert zero ==> data + d == data && data + [] == data;
          data := data + d;
        }
      }
      if !zero {
        NextChunk(buf[i..recvLen]);
        assert data + [] == data;
      }
    }

    /** "Shift unparsed content to the parsed body"; what is left over is cleared. */
    method Shift(body: nat, i: nat)
      requires bodyLen <= body < i <= recvLen <= buf.Length
      modifies this`recvLen, this`bodyLen, buf
      ensures Valid() && bodyLen == body && recvLen - bodyLen == old(recvLen) - i
      ensures buf[..bodyLen] == old(buf[..body]) && buf[bodyLen..recvLen] == old(buf[i..recvLen])
      ensures buf[recvLen..old(recvLen)] == Zeros(i - body)
    {
      ghost var text, rest := buf[..body], buf[i..recvLen];
      var n := recvLen - i;
      MoveDown(buf, body, i, n);
      assert buf[..body + n] == text + rest;
      Clear(buf, body + n, i - body);
      assert buf[..body] == text && buf[body..body + n] == rest;
      recvLen := recvLen - (i - body);
      bodyLen := body;
    }

    /** "Delete processed data if user set MG_F_DELETE_CHUNK flag". */
    method Drop()
      requires Valid()
      modifies this`recvLen, this`bodyLen, buf
      ensures Valid() && bodyLen == 0 && buf[bodyLen..recvLen] == old(buf[bodyLen..recvLen])
    {
      ghost var rest := buf[bodyLen..recvLen];
      var n := recvLen - bodyLen;
      Clear(buf, 0, bodyLen);
      assert buf[bodyLen..recvLen] == rest;
      MoveDown(buf, 0, bodyLen, n);
      recvLen := recvLen - bodyLen;
      bodyLen := 0;
      assert buf[0..n] == buf[..0 + n] == [] + rest;
    }

    /** `mg_handle_chunked`.  `delete` is what the handler of the chunk event sets; the
        result is the length of the body.  When the last chunk has been seen, the message is
        as long as its headers and `messageLen`. */
    method HandleChunked(delete: bool) returns (body: nat, messageLen: nat)
      requires Valid()
      modifies this`recvLen, this`bodyLen, this`complete, buf
      ensures Valid() && buf == old(buf) && body == old(bodyLen) + |Collapse(old(buf[bodyLen..recvLen])).data|
      ensures
        var b := old(State());
        var c := Collapse(b.pending);
        && State() == Buffer(if delete && c.rest != b.pending then [] else b.body + c.data, c.rest, b.complete
          || c.complete)
        && (c.complete ==> messageLen == bodyLen + |c.rest|)
    {
      hide Collapse;
      ghost var c := Collapse(buf[bodyLen..recvLen]);
      var i, zero;
      body, i, zero := CollapseChunks();
      messageLen := 0;
      if i > bodyLen {
        Shift(body, i);
        if delete {
          Drop();
        }
        if zero {
          complete := true;
          messageLen := recvLen;
        }
      }
    }

    /** The buffer takes what has arrived. */
    method Append(d: seq<byte>)
      requires Valid()
      modifies this`buf, this`recvLen
      ensures Valid() && fresh(buf) && bodyLen == old(bodyLen)
      ensures buf[..bodyLen] == old(buf[..bodyLen]) && buf[bodyLen..recvLen] == old(buf[bodyLen..recvLen]) + d
    {
      var data := buf[..recvLen] + d;
      buf := new byte[|data|](k requires 0 <= k < |data| => data[k]);
      recvLen := recvLen + |d|;
      assert buf[..] == data;
      assert buf[..bodyLen] == data[..bodyLen];
      assert buf[bodyLen..recvLen] == data[bodyLen..];
    }

    /** What `mg_http_handler` does with a delivery: the protocol data are made anew, so `body_len`
        is 0 again, and then the chunks are handled.  `delete` is what the handler of the chunk
        event sets; what it was given then is gone from the buffer. */
    method OnReceive(d: seq<byte>, delete: bool)
      requires Valid() && !complete
      modifies this, buf
      ensures Valid() && fresh(buf) && Outcome() == Receive(old(Outcome()), d, delete)
    {
      hide Collapse;
      ghost var before, text := State(), buf[..recvLen] + d;
      assert buf[..recvLen] == before.body + before.pending;
      Append(d);
      assert buf[..recvLen] == buf[..bodyLen] + buf[bodyLen..recvLen];
      assert buf[..recvLen] == text by
        { assert before.body + (before.pending + d) == (before.body + before.pending) + d; }
      bodyLen := 0;
      assert buf[0..recvLen] == text && buf[..0] == [];
      ghost var c := Collapse(text);
      assert [] + c.data == c.data;
      var body, messageLen := HandleChunked(delete);
      if delete && c.rest != text {
        passed := passed + c.data;
      }
    }
  }

  lemma PrependNothing(b: Body)
    ensures Prepend([], b) == b
  {
    assert [] + b.data == b.data;
  }

  lemma NextChunk(s: seq<byte>)
    ensures ParseChunk(s).None? ==> Collapse(s) == Body([], s, false)
    ensures ParseChunk(s).Some? ==>
      var c := ParseChunk(s).value;
      && Collapse(s) ==
        (if c.size == 0 then Body([], s[c.total..], true) else Prepend(DataOf(s), Collapse(s[c.total..])))
      && (c.size == 0 ==> DataOf(s) == [])
  {
  }

  lemma Regroup(start: seq<byte>, data: seq<byte>, more: seq<byte>, b: Body)
    ensures start + (data + more) == (start + data) + more
    ensures Prepend(data, Prepend(more, b)) == Prepend(data + more, b)
  {
    assert data + (more + b.data) == (data + more) + b.data;
  }
}
