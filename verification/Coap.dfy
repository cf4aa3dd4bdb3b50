/** CoAP messages (RFC 7252): their bytes, and what the parser makes of bytes. */
module Coap {
  import opened Options
  import opened Bytes

  datatype Opt = Opt(number: nat, value: seq<byte>)

  datatype Message = Message(msgType: nat, codeClass: nat, codeDetail: nat, msgId: nat,
                             token: seq<byte>, options: seq<Opt>, payload: seq<byte>)

  const U16 := 0x1_0000

  /** The largest option delta and length that can be written. */
  const EXT_MAX := 0xFFFF + 269

  // ---------------------------------------------------------------------------
  // Composing

  /** `coap_split_opt`: the four bits, and the bytes behind them. */
  function Base(value: nat): (b: nat)
    ensures b <= 14
  {
    if value < 13 then value else if value <= 0xFF + 13 then 13 else 14
  }

  function Ext(value: nat): (r: seq<byte>)
    requires value <= EXT_MAX
    ensures |r| <= 2
  {
    if value < 13 then [] else if value <= 0xFF + 13 then [value - 13] else BE16(value - 269)
  }

  /** The options can be written behind an option with this number. */
  predicate Writable(options: seq<Opt>, prev: nat) {
    options == [] || (
      && prev <= options[0].number <= prev + EXT_MAX && |options[0].value| <= EXT_MAX
      && Writable(options[1..], options[0].number))
  }

  /** What `coap_calculate_packet_size` lets pass. */
  predicate Composable(m: Message) {
    m.msgType <= 3 && |m.token| <= 8 && m.codeClass <= 7 && m.codeDetail <= 31 && m.msgId < U16
      && Writable(m.options, 0)
  }

  function OptionBytes(o: Opt, prev: nat): seq<byte>
    requires prev <= o.number <= prev + EXT_MAX && |o.value| <= EXT_MAX
  {
    [Base(o.number - prev) * 16 + Base(|o.value|)] + (Ext(o.number - prev) + (Ext(|o.value|) + o.value))
  }

  function OptionsBytes(options: seq<Opt>, prev: nat): seq<byte>
    requires Writable(options, prev)
  {
    if options == [] then [] else OptionBytes(options[0], prev) + OptionsBytes(options[1..], options[0].number)
  }

  function HeaderBytes(m: Message): (r: seq<byte>)
    requires Composable(m)
    ensures |r| == 4
  {
    [64 + m.msgType * 16 + |m.token|, m.codeClass * 32 + m.codeDetail] + BE16(m.msgId)
  }

  function PayloadBytes(payload: seq<byte>): seq<byte> {
    if payload == [] then [] else [0xFF] + payload
  }

  /** RFC 7252 section 3. */
  function MessageBytes(m: Message): seq<byte>
    requires Composable(m)
  {
    HeaderBytes(m) + (m.token + (OptionsBytes(m.options, 0) + PayloadBytes(m.payload)))
  }

  // ---------------------------------------------------------------------------
  // The option list

  /** `mg_coap_add_option`: behind the tail if that is not greater, else before the first
      option that is. */
  function Insert(options: seq<Opt>, o: Opt): (r: seq<Opt>)
    ensures |r| == |options| + 1
  {
    if options == [] || options[|options| - 1].number <= o.number then options + [o] else InsertBefore(options, o)
  }

  function InsertBefore(options: seq<Opt>, o: Opt): (r: seq<Opt>)
    ensures |r| == |options| + 1
  {
    if options == [] || options[0].number > o.number then [o] + options
    else [options[0]] + InsertBefore(options[1..], o)
  }

  predicate Ascending(options: seq<Opt>) {
    forall i :: 0 <= i < |options| - 1 ==> options[i].number <= options[i + 1].number
  }

  lemma {:induction false} InsertBeforeOrdered(options: seq<Opt>, o: Opt)
    requires Ascending(options)
    ensures Ascending(InsertBefore(options, o))
    ensures multiset(InsertBefore(options, o)) == multiset(options) + multiset{o}
    ensures InsertBefore(options, o)[0] == o || (options != [] && InsertBefore(options, o)[0] == options[0])
  {
    if options == [] || options[0].number > o.number {
    } else {
      var tail := options[1..];
      assert Ascending(tail) by {
        forall i | 0 <= i < |tail| - 1 ensures tail[i].number <= tail[i + 1].number {
          assert options[i + 1].number <= options[i + 1 + 1].number;
        }
      }
      InsertBeforeOrdered(tail, o);
      var r := InsertBefore(tail, o);
      assert r[0] == o || (tail != [] && r[0] == options[1]);
      assert options == [options[0]] + tail;
      forall i | 0 <= i < |[options[0]]
        + r| - 1 ensures ([options[0]] + r)[i].number <= ([options[0]] + r)[i + 1].number {
        if i > 0 { assert r[i - 1].number <= r[i - 1 + 1].number; }
      }
    }
  }

  /** Adding an option keeps the list ascending and loses nothing; an option goes behind
      those with the same number. */
  lemma InsertOrdered(options: seq<Opt>, o: Opt)
    requires Ascending(options)
    ensures Ascending(Insert(options, o))
    ensures multiset(Insert(options, o)) == multiset(options) + multiset{o}
  {
    InsertBeforeOrdered(options, o);
  }

  // ---------------------------------------------------------------------------
  // Parsing

  datatype Flag = TypeField | CodeClassField | CodeDetailField | MsgIdField | TokenField | OptionField | PayloadField
                | FormatError | Ignore | NotEnoughData

  predicate IsError(flags: set<Flag>) {
    FormatError in flags || Ignore in flags || NotEnoughData in flags
  }

  /** `coap_get_ext_opt`: the value, in 16 bits, and the bytes used. */
  function GetExt(d: seq<byte>, pos: nat, info: nat): (r: Option<(nat, nat)>)
    requires info <= 14
    ensures r.Some? ==> r.value.0 < U16 && pos + r.value.1 <= |d| + (if info < 13 then pos else 0)
  {
    if info == 13 then if pos < |d| then Some((d[pos] as int + 13, 1)) else None
    else if info == 14 then if pos + 1 < |d| then Some(((ReadBE16(d[pos..]) + 269) % U16, 2)) else None
    else Some((info, 0))
  }

  /** One option at `pos`: number, length and where its value starts, or what is wrong. */
  datatype OptionHead = Head(number: nat, size: nat, at: nat) | Bad(flag: Flag)

  function ParseHead(d: seq<byte>, pos: nat, prev: nat): (h: OptionHead)
    requires pos < |d|
    ensures h.Head? ==> h.number < U16 && h.size < U16 && pos < h.at
  {
    var delta, size := d[pos] as int / 16, d[pos] as int % 16;
    if delta == 15 || size == 15 then Bad(FormatError)
    else
      match GetExt(d, pos + 1, delta)
      case None => Bad(NotEnoughData)
      case Some(x) =>
        match GetExt(d, pos + 1 + x.1, size)
        case None => Bad(NotEnoughData)
        case Some(y) => Head((prev + x.0) % U16, y.0, pos + 1 + x.1 + y.1)
  }

  datatype OptionsResult = Parsed(options: seq<Opt>, end: nat) | Failed(flag: Flag)

  /** The loop of `coap_get_options`: up to the end, or the payload marker. */
  function ParseOptions(d: seq<byte>, pos: nat, prev: nat, options: seq<Opt>): (r: OptionsResult)
    requires pos <= |d|
    ensures r.Parsed? ==> pos <= r.end <= |d|
    decreases |d| - pos
  {
    if pos == |d| || d[pos] == 0xFF then Parsed(options, pos)
    else
      match ParseHead(d, pos, prev)
      case Bad(flag) => Failed(flag)
      case Head(number, size, at) =>
        if at + size > |d| then Failed(NotEnoughData)
        else ParseOptions(d, at + size, number, Insert(options, Opt(number, d[at..at + size])))
  }

  /** `mg_coap_parse`: the flags, and the message as far as it has been filled in. */
  function Parse(d: seq<byte>): (r: (set<Flag>, Message)) {
    var none := Message(0, 0, 0, 0, [], [], []);
    if |d| < 4 then ({NotEnoughData}, none)
    else if d[0] / 64 != 1 then ({Ignore}, none)
    else
      var msgType, tokenLen := d[0] as int / 16 % 4, d[0] as int % 16;
      var m := none.(msgType := msgType);
      if tokenLen > 8 then ({TypeField, FormatError}, m)
      else
        var head := m.(codeClass := d[1] as int / 32, codeDetail := d[1] as int % 32, msgId := ReadBE16(d[2..]));
        var flags := {TypeField, CodeClassField, CodeDetailField, MsgIdField};
        if 4 + tokenLen > |d| then (flags + {NotEnoughData}, head)
        else
          ParseBody(d, 4 + tokenLen, head.(token := d[4..4 + tokenLen]),
            if tokenLen > 0 then flags + {TokenField} else flags)
  }

  function ParseBody(d: seq<byte>, pos: nat, m: Message, flags: set<Flag>): (set<Flag>, Message)
    requires pos <= |d|
  {
    if pos == |d| then (flags, m)
    else
      match ParseOptions(d, pos, 0, [])
      case Failed(flag) => (flags + {flag}, m)
      case Parsed(options, end) =>
        var f, m' := flags + {OptionField}, m.(options := options);
        if end == |d| || end + 1 == |d| then (f, m')
        else (f + {PayloadField}, m'.(payload := d[end + 1..]))
  }

  // ---------------------------------------------------------------------------
  // Parsing undoes composing

  /** What 16 bits can hold. */
  predicate Fits(o: Opt) {
    o.number < U16 && |o.value| < U16
  }

  predicate AllFit(options: seq<Opt>) {
    forall i :: 0 <= i < |options| ==> Fits(options[i])
  }

  lemma ExtReadBack(d: seq<byte>, pos: nat, value: nat)
    requires value <= EXT_MAX && At(d, pos, Ext(value))
    ensures GetExt(d, pos, Base(value)) == Some((value % U16, |Ext(value)|))
  {
    var e := Ext(value);
    if value >= 13 {
      assert d[pos] == d[pos..pos + |e|][0];
      if value > 0xFF + 13 {
        assert d[pos + 1] == d[pos..pos + |e|][1];
        ReadWrite16(value - 269);
      }
    }
  }

  lemma HeadReadBack(d: seq<byte>, pos: nat, o: Opt, prev: nat)
    requires prev <= o.number <= prev + EXT_MAX && |o.value| <= EXT_MAX && At(d, pos, OptionBytes(o, prev))
    ensures pos < |d| && d[pos] != 0xFF
    ensures
      var at := pos + |OptionBytes(o, prev)| - |o.value|;
      && ParseHead(d, pos, prev) == Head((prev + (o.number - prev) % U16) % U16, |o.value| % U16, at)
      && d[at..at + |o.value|] == o.value && at + |o.value| <= |d|
  {
    hide Ext, Base, GetExt, At;
    var delta := o.number - prev;
    var head: byte := Base(delta) * 16 + Base(|o.value|);
    AtSplit(d, pos, [head], Ext(delta) + (Ext(|o.value|) + o.value));
    AtSplit(d, pos + 1, Ext(delta), Ext(|o.value|) + o.value);
    AtSplit(d, pos + 1 + |Ext(delta)|, Ext(|o.value|), o.value);
    AtByte(d, pos, head);
    ExtReadBack(d, pos + 1, delta);
    ExtReadBack(d, pos + 1 + |Ext(delta)|, |o.value|);
    AtSlice(d, pos + 1 + |Ext(delta)| + |Ext(|o.value|)|, o.value);
  }

  lemma NumberBack(prev: nat, number: nat)
    requires prev <= number < U16
    ensures (prev + (number - prev) % U16) % U16 == number
  {
    assert (number - prev) % U16 == number - prev;
  }

  lemma OptionReadBack(d: seq<byte>, pos: nat, o: Opt, prev: nat, before: seq<Opt>)
    requires prev <= o.number <= prev + EXT_MAX && |o.value| <= EXT_MAX && At(d, pos, OptionBytes(o, prev)) && Fits(o)
    requires before == [] || before[|before| - 1].number == prev
    ensures pos + |OptionBytes(o, prev)| <= |d|
    ensures ParseOptions(d, pos, prev, before)
         == ParseOptions(d, pos + |OptionBytes(o, prev)|, o.number, before + [o])
  {
    hide OptionBytes, ParseHead, ParseOptions, Insert, At;
    var end := pos + |OptionBytes(o, prev)|;
    HeadReadBack(d, pos, o, prev);
    NumberBack(prev, o.number);
    SizeBack(|o.value|);
    OneOption(d, pos, prev, before, Head(o.number, |o.value|, end - |o.value|), o.value);
    InsertLast(before, o);
  }

  lemma SizeBack(n: nat)
    requires n < U16
    ensures n % U16 == n
  {
  }

  lemma OneOption(d: seq<byte>, pos: nat, prev: nat, before: seq<Opt>, h: OptionHead, value: seq<byte>)
    requires pos < |d| && d[pos] != 0xFF && ParseHead(d, pos, prev) == h && h.Head?
    requires h.at + h.size <= |d| && d[h.at..h.at + h.size] == value
    ensures ParseOptions(d, pos, prev, before) ==
      ParseOptions(d, h.at + h.size, h.number, Insert(before, Opt(h.number, value)))
  {
    hide ParseHead, Insert;
  }

  lemma InsertLast(before: seq<Opt>, o: Opt)
    requires before == [] || before[|before| - 1].number <= o.number
    ensures Insert(before, o) == before + [o]
  {
  }

  /** The end of the message, or the payload marker. */
  predicate Ends(d: seq<byte>, end: nat) {
    end == |d| || (end < |d| && d[end] == 0xFF)
  }

  lemma {:induction false} OptionsReadBack(d: seq<byte>, pos: nat, options: seq<Opt>, prev: nat, before: seq<Opt>,
                                           end: nat)
    requires Writable(options, prev) && AllFit(options) && At(d, pos, OptionsBytes(options, prev))
    requires end == pos + |OptionsBytes(options, prev)| && Ends(d, end)
    requires before == [] || before[|before| - 1].number == prev
    ensures pos <= |d|
    ensures ParseOptions(d, pos, prev, before) == Parsed(before + options, end)
    decreases |options|
  {
    hide OptionBytes, At, AllFit, Ends, ParseOptions;
    if options == [] {
      AtMarker(d, pos, prev, before);
      assert before + options == before;
    } else {
      var o, next := options[0], pos + |OptionBytes(options[0], prev)|;
      FitTail(options);
      AtSplit(d, pos, OptionBytes(o, prev), OptionsBytes(options[1..], o.number));
      OptionReadBack(d, pos, o, prev, before);
      OptionsReadBack(d, next, options[1..], o.number, before + [o], end);
      assert before + [o] + options[1..] == before + options;
    }
  }

  lemma FitTail(options: seq<Opt>)
    requires options != [] && AllFit(options)
    ensures Fits(options[0]) && AllFit(options[1..])
  {
  }

  lemma AtMarker(d: seq<byte>, pos: nat, prev: nat, before: seq<Opt>)
    requires Ends(d, pos)
    ensures ParseOptions(d, pos, prev, before) == Parsed(before, pos)
  {
  }

  /** Whatever is parsed fits 16 bits. */
  lemma {:induction false} ParsedFits(d: seq<byte>, pos: nat, prev: nat, before: seq<Opt>)
    requires pos <= |d| && AllFit(before)
    ensures
      var r := ParseOptions(d, pos, prev, before);
      r.Parsed? ==> AllFit(r.options)
    decreases |d| - pos
  {
    hide ParseHead, Insert, InsertBefore;
    if pos < |d| && d[pos] != 0xFF {
      var h := ParseHead(d, pos, prev);
      if h.Head? && h.at + h.size <= |d| {
        var o := Opt(h.number, d[h.at..h.at + h.size]);
        InsertFits(before, o);
        ParsedFits(d, h.at + h.size, h.number, Insert(before, o));
      }
    }
  }

  lemma {:induction false} InsertFits(options: seq<Opt>, o: Opt)
    requires Fits(o) && AllFit(options)
    ensures AllFit(InsertBefore(options, o)) && AllFit(Insert(options, o))
  {
    if options != [] {
      InsertFits(options[1..], o);
    }
  }

  /** The options of a parsed message are ascending, whatever the bytes were. */
  lemma {:induction false} ParsedAscending(d: seq<byte>, pos: nat, prev: nat, before: seq<Opt>)
    requires pos <= |d| && Ascending(before)
    ensures
      var r := ParseOptions(d, pos, prev, before);
      r.Parsed? ==> Ascending(r.options)
    decreases |d| - pos
  {
    hide ParseHead, Insert, InsertBefore;
    if pos < |d| && d[pos] != 0xFF {
      var h := ParseHead(d, pos, prev);
      if h.Head? && h.at + h.size <= |d| {
        var o := Opt(h.number, d[h.at..h.at + h.size]);
        InsertOrdered(before, o);
        ParsedAscending(d, h.at + h.size, h.number, Insert(before, o));
      }
    }
  }

  /** Where the parts of a message stand. */
  lemma PartsAt(m: Message)
    requires Composable(m)
    ensures
      var d, t := MessageBytes(m), |m.token|;
      && |d| >= 4 + t && d[..4] == HeaderBytes(m) && d[4..4 + t] == m.token
      && At(d, 4 + t, OptionsBytes(m.options, 0))
      && d[4 + t + |OptionsBytes(m.options, 0)|..] == PayloadBytes(m.payload)
  {
    hide OptionsBytes, PayloadBytes, HeaderBytes;
    var d, o, p := MessageBytes(m), OptionsBytes(m.options, 0), PayloadBytes(m.payload);
    assert d[0..] == HeaderBytes(m) + (m.token + (o + p));
    CutAt(d, 0, HeaderBytes(m), m.token + (o + p));
    CutAt(d, 4, m.token, o + p);
    CutAt(d, 4 + |m.token|, o, p);
  }

  lemma HeaderReadBack(m: Message)
    requires Composable(m)
    ensures
      var h := HeaderBytes(m);
      && h[0] as int / 64 == 1 && h[0] as int / 16 % 4 == m.msgType && h[0] as int % 16 == |m.token|
      && h[1] as int / 32 == m.codeClass && h[1] as int % 32 == m.codeDetail
      && ReadBE16(h[2..]) == m.msgId
  {
    ReadWrite16(m.msgId);
    assert HeaderBytes(m)[2..] == BE16(m.msgId);
  }

  /** The header part of a parse. */
  lemma ParseAfterHeader(m: Message)
    requires Composable(m)
    ensures
      var d := MessageBytes(m);
      && 4 + |m.token| <= |d|
      && Parse(d) == ParseBody(d, 4 + |m.token|, m.(options := [], payload := []), HeaderFlags(m))
  {
    hide MessageBytes, ParseBody, HeaderBytes;
    var d, h := MessageBytes(m), HeaderBytes(m);
    PartsAt(m);
    HeaderReadBack(m);
    assert d[0] == d[..4][0] && d[1] == d[..4][1] && d[2] == d[..4][2] && d[3] == d[..4][3];
    assert d[2..][0] == d[2] && d[2..][1] == d[3] && h[2..][0] == h[2] && h[2..][1] == h[3];
    assert m.(options := [], payload := []) == Message(m.msgType, m.codeClass, m.codeDetail, m.msgId, m.token, [], []);
  }

  function HeaderFlags(m: Message): set<Flag> {
    var flags := {TypeField, CodeClassField, CodeDetailField, MsgIdField};
    if |m.token| > 0 then flags + {TokenField} else flags
  }

  /** The flags of a message that parses: what it has, and no error. */
  function FlagsOf(m: Message): set<Flag> {
    HeaderFlags(m) + (if m.options == [] && m.payload == [] then {} else {OptionField})
                   + (if m.payload == [] then {} else {PayloadField})
  }

  lemma BodyReadBack(m: Message)
    requires Composable(m) && AllFit(m.options)
    ensures
      var d := MessageBytes(m);
      && 4 + |m.token| <= |d|
      && ParseBody(d, 4 + |m.token|, m.(options := [], payload := []), HeaderFlags(m)) == (FlagsOf(m), m)
  {
    hide MessageBytes, ParseOptions, OptionsBytes, PayloadBytes, ParseBody, HeaderFlags, FlagsOf;
    var d, pos := MessageBytes(m), 4 + |m.token|;
    PartsAt(m);
    var end := pos + |OptionsBytes(m.options, 0)|;
    PayloadBehind(d, end, m.payload);
    OptionsReadBack(d, pos, m.options, 0, [], end);
    assert [] + m.options == m.options;
    EmptyOptions(m.options);
    BodyOf(d, pos, m, end);
  }

  /** The payload behind its marker, or the end. */
  lemma PayloadBehind(d: seq<byte>, end: nat, payload: seq<byte>)
    requires end <= |d| && d[end..] == PayloadBytes(payload)
    ensures payload == [] ==> end == |d|
    ensures payload != [] ==> end + 1 < |d| && d[end] == 0xFF && d[end + 1..] == payload
    ensures Ends(d, end)
  {
    if payload != [] {
      assert |d[end..]| == |payload| + 1 && d[end..][0] == d[end];
      assert d[end + 1..] == d[end..][1..];
    }
  }

  lemma BodyOf(d: seq<byte>, pos: nat, m: Message, end: nat)
    requires pos <= end <= |d| && ParseOptions(d, pos, 0, []) == Parsed(m.options, end)
    requires m.payload == [] ==> end == |d|
    requires m.payload != [] ==> end + 1 < |d| && d[end + 1..] == m.payload
    requires pos == end <==> m.options == []
    ensures ParseBody(d, pos, m.(options := [], payload := []), HeaderFlags(m)) == (FlagsOf(m), m)
  {
    hide ParseOptions, HeaderFlags;
    Flags(HeaderFlags(m));
  }

  lemma Flags(f: set<Flag>)
    ensures f + {} + {} == f && f + {OptionField} + {} == f + {OptionField}
  {
  }

  lemma EmptyOptions(options: seq<Opt>)
    requires Writable(options, 0)
    ensures OptionsBytes(options, 0) == [] <==> options == []
  {
  }

  /** Parsing a composed message gives it back, without an error, exactly when every option
      number and length fits 16 bits; the composer lets both be larger. */
  lemma RoundTrip(m: Message)
    requires Composable(m)
    ensures Parse(MessageBytes(m)) == (FlagsOf(m), m) <==> AllFit(m.options)
    ensures !IsError(FlagsOf(m))
  {
    hide MessageBytes, ParseBody, HeaderFlags;
    ParseAfterHeader(m);
    if AllFit(m.options) {
      BodyReadBack(m);
    } else {
      BodyFits(MessageBytes(m), 4 + |m.token|, m.(options := [], payload := []), HeaderFlags(m));
    }
    NoError(m);
  }

  lemma NoError(m: Message)
    ensures !IsError(FlagsOf(m))
  {
  }

  lemma BodyFits(d: seq<byte>, pos: nat, m: Message, flags: set<Flag>)
    requires pos <= |d| && m.options == []
    ensures AllFit(ParseBody(d, pos, m, flags).1.options)
  {
    hide ParseOptions;
    ParsedFits(d, pos, 0, []);
  }
}
