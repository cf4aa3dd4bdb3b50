/** The CoAP code as it runs: a linked option list with a tail pointer, a composer that
    fills a buffer of the size calculated before, and the parser. */
module CoapIo {
  import opened Options
  import opened Bytes
  import opened Coap

  class OptionNode {
    const number: nat
    const value: seq<byte>
    var next: OptionNode?

    constructor (number: nat, value: seq<byte>)
      ensures this.number == number && this.value == value && next == null
    {
      this.number, this.value, next := number, value, null;
    }
  }

  ghost function OptionsOf(nodes: seq<OptionNode>): (r: seq<Opt>)
    ensures |r| == |nodes| && forall i :: 0 <= i < |nodes| ==> r[i] == Opt(nodes[i].number, nodes[i].value)
  {
    seq(|nodes|, i requires 0 <= i < |nodes| => Opt(nodes[i].number, nodes[i].value))
  }

  class OptionList {
    var options: OptionNode?
    /** `optiomg_tail`. */
    var tail: OptionNode?
    ghost var nodes: seq<OptionNode>

    ghost predicate Valid()
      reads this, nodes
    {
      && (nodes == [] ==> options == null)
      && (nodes != [] ==> options == nodes[0] && tail == nodes[|nodes| - 1] && nodes[|nodes| - 1].next == null)
      && (forall i :: 0 <= i < |nodes| - 1 ==> nodes[i].next == nodes[i + 1])
      && (forall i, j :: 0 <= i < j < |nodes| ==> nodes[i] != nodes[j])
    }

    ghost function Contents(): (r: seq<Opt>)
      reads this
    {
      OptionsOf(nodes)
    }

    constructor ()
      ensures Valid() && nodes == [] && Contents() == []
    {
      options, tail, nodes := null, null, [];
    }

    /** Where a new option goes that is not greater than the last: the node before, if any,
        and the node behind. */
    method Search(number: nat) returns (prev: OptionNode?, current: OptionNode, ghost k: nat)
      requires Valid() && nodes != [] && nodes[|nodes| - 1].number > number
      ensures k < |nodes| && current == nodes[k] && prev == (if k == 0 then null else nodes[k - 1])
      ensures current.number > number && forall i :: 0 <= i < k ==> nodes[i].number <= number
      ensures current in nodes && (prev != null ==> prev in nodes && prev.number <= number && prev.next == current)
    {
      var c := options;
      prev, k := null, 0;
      while c != null && c.number <= number
        invariant k < |nodes| && c == nodes[k] && prev == (if k == 0 then null else nodes[k - 1])
        invariant forall i :: 0 <= i < k ==> nodes[i].number <= number
        decreases |nodes| - k
      {
        prev, c, k := c, c.next, k + 1;
      }
      current := c;
    }

    /** An option that is not out of order goes behind the tail. */
    method Append(node: OptionNode)
      requires Valid() && node !in nodes && node.next == null
      modifies this, nodes
      ensures Valid() && nodes == old(nodes) + [node]
    {
      if options == null {
        options, tail := node, node;
      } else {
        tail.next := node;
        tail := node;
      }
      nodes := nodes + [node];
    }

    /** Between two options, or before the first. */
    method InsertAt(node: OptionNode, prev: OptionNode?, current: OptionNode, ghost k: nat)
      requires Valid() && node !in nodes && k < |nodes| && current == nodes[k]
      requires prev == if k == 0 then null else nodes[k - 1]
      modifies this, nodes, node
      ensures Valid() && nodes == old(nodes)[..k] + [node] + old(nodes)[k..]
    {
      if prev != null {
        prev.next := node;
        node.next := current;
      } else {
        node.next := options;
        options := node;
      }
      ghost var was := nodes;
      nodes := was[..k] + [node] + was[k..];
      assert forall i :: 0 <= i < k ==> nodes[i] == was[i];
      assert forall i :: k < i < |nodes| ==> nodes[i] == was[i - 1];
    }

    /** `mg_coap_add_option`; the ghost result is the place of the new option. */
    method Add(number: nat, value: seq<byte>) returns (node: OptionNode, ghost k: nat)
      requires Valid()
      modifies this, nodes
      ensures Valid() && fresh(node) && k <= |old(nodes)|
      ensures nodes == old(nodes)[..k] + [node] + old(nodes)[k..]
      ensures Contents() == Insert(old(Contents()), Opt(number, value))
    {
      hide OptionsOf, Insert;
      node := new OptionNode(number, value);
      ghost var before := nodes;
      if options == null || tail.number <= number {
        k := |before|;
        AppendedOptions(before, node);
        Append(node);
      } else {
        var prev, current;
        prev, current, k := Search(number);
        InsertedOptions(before, node, k);
        InsertAt(node, prev, current, k);
      }
    }

    /** `mg_coap_free_options`. */
    method Free()
      modifies this
      ensures Valid() && nodes == [] && Contents() == []
    {
      options, nodes := null, [];
    }
  }

  lemma AppendedOptions(nodes: seq<OptionNode>, node: OptionNode)
    requires nodes == [] || nodes[|nodes| - 1].number <= node.number
    ensures nodes + [node] == nodes[..|nodes|] + [node] + nodes[|nodes|..]
    ensures OptionsOf(nodes + [node]) == Insert(OptionsOf(nodes), Opt(node.number, node.value))
  {
    assert OptionsOf(nodes + [node]) == OptionsOf(nodes) + [Opt(node.number, node.value)];
  }

  lemma InsertedOptions(nodes: seq<OptionNode>, node: OptionNode, k: nat)
    requires k < |nodes| && nodes[k].number > node.number && nodes[|nodes| - 1].number > node.number
    requires forall i :: 0 <= i < k ==> nodes[i].number <= node.number
    ensures OptionsOf(nodes[..k] + [node] + nodes[k..]) == Insert(OptionsOf(nodes), Opt(node.number, node.value))
  {
    var was, o := OptionsOf(nodes), Opt(node.number, node.value);
    hide OptionsOf, InsertBefore, Insert;
    NodesInserted(nodes, node, k);
    GoesBefore(was, o);
    InsertedAt(was, o, k);
  }

  lemma GoesBefore(options: seq<Opt>, o: Opt)
    requires options != [] && options[|options| - 1].number > o.number
    ensures Insert(options, o) == InsertBefore(options, o)
  {
  }

  lemma NodesInserted(nodes: seq<OptionNode>, node: OptionNode, k: nat)
    requires k < |nodes|
    ensures OptionsOf(nodes[..k] + [node] + nodes[k..]) == OptionsOf(nodes)[..k] + [Opt(node.number, node.value)]
      + OptionsOf(nodes)[k..]
  {
  }

  lemma {:induction false} InsertedAt(options: seq<Opt>, o: Opt, k: nat)
    requires k < |options| && options[k].number > o.number
    requires forall i :: 0 <= i < k ==> options[i].number <= o.number
    ensures InsertBefore(options, o) == options[..k] + [o] + options[k..]
  {
    if k > 0 {
      InsertedAt(options[1..], o, k - 1);
      assert [options[0]] + (options[1..][..k - 1] + [o] + options[1..][k - 1..]) == options[..k] + [o] + options[k..];
    }
  }

  // ---------------------------------------------------------------------------
  // Composing

  /** `coap_get_ext_opt_size`. */
  function ExtSize(value: nat): (n: nat)
    ensures value <= EXT_MAX ==> n == |Ext(value)|
  {
    if 13 <= value <= 0xFF + 13 then 1 else if 0xFF + 13 < value <= 0xFFFF + 269 then 2 else 0
  }

  /** The loop of `coap_calculate_packet_size`. */
  method OptionsSize(list: OptionList) returns (ok: bool, len: nat)
    requires list.Valid()
    ensures ok <==> Writable(list.Contents(), 0)
    ensures ok ==> len == |OptionsBytes(list.Contents(), 0)|
  {
    ghost var all := list.Contents();
    var opt: OptionNode?, prev: nat := list.options, 0;
    ghost var k := 0;
    len := 0;
    assert all[0..] == all;
    while opt != null
      invariant k <= |all| && opt == if k < |all| then list.nodes[k] else null
      invariant k < |all| ==> prev <= all[k].number
      invariant Writable(all, 0) <==> Writable(all[k..], prev)
      invariant Writable(all, 0) ==> |OptionsBytes(all, 0)| == len + |OptionsBytes(all[k..], prev)|
      decreases |all| - k
    {
      assert all[k] == Opt(opt.number, opt.value) && all[k..][1..] == all[k + 1..];
      assert opt.next == if k + 1 < |all| then list.nodes[k + 1] else null;
      len := len + 1 + ExtSize(opt.number - prev) + ExtSize(|opt.value|);
      if (opt.next != null && opt.number > opt.next.number) || |opt.value| > EXT_MAX || opt.number - prev > EXT_MAX {
        assert k + 1 < |all| && all[k].number > all[k + 1].number ==> !Writable(all[k + 1..], opt.number);
        return false, 0;
      }
      len := len + |opt.value|;
      prev := opt.number;
      opt := opt.next;
      k := k + 1;
    }
    ok := true;
  }

  /** `coap_calculate_packet_size`: what is wrong with the message, or its size in bytes. */
  method CalculatePacketSize(m: Message, list: OptionList) returns (error: Option<Flag>, len: nat)
    requires list.Valid() && list.Contents() == m.options && m.msgId < U16
    ensures error.None? <==> Composable(m)
    ensures error.None? ==> len == |MessageBytes(m)|
  {
    hide Writable, OptionsBytes;
    len := 4;
    if m.msgType > 3 {
      return Some(TypeField), len;
    }
    if |m.token| > 8 {
      return Some(TokenField), len;
    }
    if m.codeClass > 7 {
      return Some(CodeClassField), len;
    }
    if m.codeDetail > 31 {
      return Some(CodeDetailField), len;
    }
    len := len + |m.token|;
    if |m.payload| != 0 {
      len := len + |m.payload| + 1;
    }
    var ok, size := OptionsSize(list);
    if !ok {
      return Some(OptionField), len;
    }
    return None, len + size;
  }

  /** Bytes written at the write pointer. */
  method Store(out: array<byte>, ptr: nat, s: seq<byte>) returns (next: nat)
    requires ptr + |s| <= out.Length
    modifies out
    ensures next == ptr + |s| && out[..next] == old(out[..ptr]) + s
  {
    forall i | 0 <= i < |s| {
      out[ptr + i] := s[i];
    }
    next := ptr + |s|;
    assert out[..ptr] == old(out[..ptr]) && out[ptr..next] == s;
  }

  /** One option: four bits each of delta and length, their extensions, the value. */
  method StoreOption(out: array<byte>, ptr: nat, number: nat, value: seq<byte>, prev: nat) returns (next: nat)
    requires prev <= number <= prev + EXT_MAX && |value| <= EXT_MAX
    requires ptr + |OptionBytes(Opt(number, value), prev)| <= out.Length
    modifies out
    ensures next == ptr + |OptionBytes(Opt(number, value), prev)|
    ensures out[..next] == old(out[..ptr]) + OptionBytes(Opt(number, value), prev)
  {
    hide Ext, Base;
    ghost var before := out[..ptr];
    next := Store(out, ptr, [Base(number - prev) * 16 + Base(|value|)]);
    next := Store(out, next, Ext(number - prev));
    next := Store(out, next, Ext(|value|));
    next := Store(out, next, value);
    FourParts(before, [Base(number - prev) * 16 + Base(|value|)], Ext(number - prev), Ext(|value|), value);
  }

  lemma FourParts(a: seq<byte>, b: seq<byte>, c: seq<byte>, d: seq<byte>, e: seq<byte>)
    ensures a + b + c + d + e == a + (b + (c + (d + e)))
  {
  }

  /** The loop of `mg_coap_compose`. */
  method StoreOptions(out: array<byte>, ptr: nat, list: OptionList) returns (next: nat)
    requires list.Valid() && Writable(list.Contents(), 0) && ptr + |OptionsBytes(list.Contents(), 0)| <= out.Length
    modifies out
    ensures next == ptr + |OptionsBytes(list.Contents(), 0)|
    ensures out[..next] == old(out[..ptr]) + OptionsBytes(list.Contents(), 0)
  {
    hide OptionBytes;
    ghost var all, before, done := list.Contents(), out[..ptr], [];
    var opt: OptionNode?, prev: nat := list.options, 0;
    ghost var k := 0;
    next := ptr;
    assert all[0..] == all && before + [] == before && [] + OptionsBytes(all, 0) == OptionsBytes(all, 0);
    while opt != null
      invariant k <= |all| && opt == if k < |all| then list.nodes[k] else null
      invariant Writable(all[k..], prev) && OptionsBytes(all, 0) == done + OptionsBytes(all[k..], prev)
      invariant next == ptr + |done| && out[..next] == before + done
      decreases |all| - k
    {
      assert all[k] == Opt(opt.number, opt.value) && all[k..][1..] == all[k + 1..];
      ghost var part, rest := OptionBytes(all[k], prev), OptionsBytes(all[k + 1..], opt.number);
      next := StoreOption(out, next, opt.number, opt.value, prev);
      ThreeParts(before, done, part, rest);
      done := done + part;
      prev := opt.number;
      opt := opt.next;
      k := k + 1;
    }
    assert done + [] == done;
  }

  lemma ThreeParts(a: seq<byte>, b: seq<byte>, c: seq<byte>, d: seq<byte>)
    ensures a + b + c == a + (b + c) && b + (c + d) == (b + c) + d
  {
  }

  /** `mg_coap_compose`: the buffer is extended by the calculated size, and that is how much
      is written. */
  method Compose(m: Message, list: OptionList, io: seq<byte>) returns (error: Option<Flag>, io': seq<byte>)
    requires list.Valid() && list.Contents() == m.options && m.msgId < U16
    ensures error.None? <==> Composable(m)
    ensures error.None? ==> io' == io + MessageBytes(m)
    ensures error.Some? ==> io' == io
  {
    hide OptionsBytes, Writable;
    var size;
    error, size := CalculatePacketSize(m, list);
    if error.Some? {
      return error, io;
    }
    var out := new byte[size];
    assert out[..0] == [];
    var header := [64 + m.msgType * 16 + |m.token|, m.codeClass * 32 + m.codeDetail];
    var ptr := Store(out, 0, header);
    ptr := Store(out, ptr, BE16(m.msgId));
    assert out[..ptr] == HeaderBytes(m);
    ptr := Store(out, ptr, m.token);
    ptr := StoreOptions(out, ptr, list);
    if |m.payload| != 0 {
      ptr := Store(out, ptr, [0xFF]);
      ptr := Store(out, ptr, m.payload);
    }
    Assemble(HeaderBytes(m), m.token, OptionsBytes(m.options, 0), m.payload);
    assert out[..ptr] == MessageBytes(m);
    assert out[..] == out[..ptr];
    io' := io + out[..];
  }

  lemma Assemble(h: seq<byte>, t: seq<byte>, o: seq<byte>, payload: seq<byte>)
    ensures payload != [] ==> h + t + o + [0xFF] + payload == h + (t + (o + PayloadBytes(payload)))
    ensures payload == [] ==> h + t + o == h + (t + (o + PayloadBytes(payload)))
  {
    if payload != [] {
      FourParts(h, t, o, [0xFF], payload);
    }
  }

  // ---------------------------------------------------------------------------
  // Parsing

  /** `coap_get_ext_opt`. */
  method GetExtOpt(d: seq<byte>, pos: nat, info: nat) returns (ok: bool, value: nat, used: nat)
    requires info <= 14
    ensures GetExt(d, pos, info) == if ok then Some((value, used)) else None
  {
    ok, value, used := true, info, 0;
    if info == 13 {
      if pos < |d| {
        value, used := d[pos] as int + 13, 1;
      } else {
        ok := false;
      }
    } else if info == 14 {
      if pos + 1 < |d| {
        value, used := (d[pos] as int * 256 + d[pos + 1] as int + 269) % U16, 2;
        assert d[pos..][0] == d[pos] && d[pos..][1] == d[pos + 1];
      } else {
        ok := false;
      }
    }
  }

  /** The lines of `coap_get_options` that read one option's head. */
  method GetHead(d: seq<byte>, pos: nat, prev: nat) returns (head: OptionHead)
    requires pos < |d|
    ensures head == ParseHead(d, pos, prev)
  {
    hide GetExt;
    var delta, size := d[pos] as int / 16, d[pos] as int % 16;
    if delta == 15 || size == 15 {
      return Bad(FormatError);
    }
    var ok, x, used := GetExtOpt(d, pos + 1, delta);
    if !ok {
      return Bad(NotEnoughData);
    }
    var y, more;
    ok, y, more := GetExtOpt(d, pos + 1 + used, size);
    if !ok {
      return Bad(NotEnoughData);
    }
    head := Head((prev + x) % U16, y, pos + 1 + used + more);
  }

  /** `coap_get_options`: each option is added to the list as it is found; after an error
      the list is freed. */
  method GetOptions(d: seq<byte>, start: nat, list: OptionList) returns (failed: Option<Flag>, end: nat)
    requires start <= |d| && list.Valid() && list.nodes == []
    modifies list
    ensures list.Valid()
    ensures ParseOptions(d, start, 0, []) ==
      if failed.None? then Parsed(list.Contents(), end) else Failed(failed.value)
    ensures failed.Some? ==> list.Contents() == []
  {
    hide ParseHead, Insert, OptionsOf;
    var pos: nat, prev: nat := start, 0;
    failed := None;
    while pos < |d| && d[pos] != 0xFF
      invariant start <= pos <= |d| && list.Valid()
      invariant forall i :: 0 <= i < |list.nodes| ==> fresh(list.nodes[i])
      invariant ParseOptions(d, start, 0, []) == ParseOptions(d, pos, prev, list.Contents())
      decreases |d| - pos
    {
      var head := GetHead(d, pos, prev);
      if head.Bad? {
        list.Free();
        return Some(head.flag), pos;
      }
      if head.at + head.size > |d| {
        list.Free();
        return Some(NotEnoughData), pos;
      }
      var node, k := list.Add(head.number, d[head.at..head.at + head.size]);
      pos, prev := head.at + head.size, head.number;
    }
    end := pos;
  }

  /** `mg_coap_parse`: the flags and the message, its options in the list. */
  method ParseMessage(d: seq<byte>) returns (flags: set<Flag>, m: Message, list: OptionList)
    ensures fresh(list) && list.Valid() && m.options == []
    ensures (flags, m.(options := list.Contents())) == Parse(d)
  {
    hide ParseOptions;
    list := new OptionList();
    m := Message(0, 0, 0, 0, [], [], []);
    if |d| < 4 {
      return {NotEnoughData}, m, list;
    }
    if d[0] / 64 != 1 {
      return {Ignore}, m, list;
    }
    var tokenLen := d[0] as int % 16;
    m := m.(msgType := d[0] as int / 16 % 4);
    if tokenLen > 8 {
      return {TypeField, FormatError}, m, list;
    }
    m := m.(codeClass := d[1] as int / 32, codeDetail := d[1] as int % 32, msgId := ReadBE16(d[2..]));
    flags := {TypeField, CodeClassField, CodeDetailField, MsgIdField};
    if tokenLen != 0 && 4 + tokenLen > |d| {
      return flags + {NotEnoughData}, m, list;
    }
    m := m.(token := d[4..4 + tokenLen]);
    if tokenLen != 0 {
      flags := flags + {TokenField};
    }
    flags, m := FinishParse(d, 4 + tokenLen, m, flags, list);
  }

  /** Options and payload. */
  method FinishParse(d: seq<byte>, pos: nat, head: Message, f: set<Flag>, list: OptionList)
      returns (flags: set<Flag>, m: Message)
    requires pos <= |d| && list.Valid() && list.nodes == [] && head.options == []
    modifies list
    ensures list.Valid() && m.options == []
    ensures (flags, m.(options := list.Contents())) == ParseBody(d, pos, head, f)
  {
    hide ParseOptions;
    flags, m := f, head;
    if pos == |d| {
      return;
    }
    var failed, end := GetOptions(d, pos, list);
    if failed.Some? {
      flags := flags + {failed.value};
      return;
    }
    flags := flags + {OptionField};
    if end == |d| {
      return;
    }
    if |d| - (end + 1) != 0 {
      m := m.(payload := d[end + 1..]);
      flags := flags + {PayloadField};
    }
  }
}
