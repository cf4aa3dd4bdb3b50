/** CoAP messages byte by byte, as section 3 of RFC 7252 draws them. */
module CoapBytes {
  import opened Options
  import opened Bytes
  import opened Coap

  /** A delta or length: four bits, and the bytes that extend them (section 3.1). */
  function Extended(n: nat): (nat, seq<byte>)
    requires n <= 65535 + 269
  {
    if n <= 12 then (n, [])
    else if n <= 268 then (13, [n - 13])
    else (14, [(n - 269) / 256, (n - 269) % 256])
  }

  function OptionAs(delta: nat, value: seq<byte>): seq<byte>
    requires delta <= 65535 + 269 && |value| <= 65535 + 269
  {
    var (d, l) := (Extended(delta), Extended(|value|));
    [d.0 * 16 + l.0] + d.1 + l.1 + value
  }

  function OptionsAs(options: seq<Opt>, prev: nat): seq<byte>
    requires Writable(options, prev)
  {
    if options == [] then []
    else OptionAs(options[0].number - prev, options[0].value) + OptionsAs(options[1..], options[0].number)
  }

  /** Version 1, the type, the length of the token, code and identifier; the token, the options, and
      a payload behind its marker. */
  function MessageAs(m: Message): seq<byte>
    requires Composable(m)
  {
    [64 + m.msgType * 16 + |m.token|, m.codeClass * 32 + m.codeDetail, m.msgId / 256, m.msgId % 256]
    + m.token + OptionsAs(m.options, 0) + (if m.payload == [] then [] else [255] + m.payload)
  }

  lemma ExtendedIs(n: nat)
    requires n <= EXT_MAX
    ensures Base(n) == Extended(n).0 && Ext(n) == Extended(n).1
  {
  }

  lemma OptionIs(o: Opt, prev: nat)
    requires prev <= o.number <= prev + EXT_MAX && |o.value| <= EXT_MAX
    ensures OptionBytes(o, prev) == OptionAs(o.number - prev, o.value)
  {
    hide Base, Ext, Extended;
    ExtendedIs(o.number - prev);
    ExtendedIs(|o.value|);
  }

  lemma {:induction false} OptionsAre(options: seq<Opt>, prev: nat)
    requires Writable(options, prev)
    ensures OptionsBytes(options, prev) == OptionsAs(options, prev)
  {
    hide OptionBytes, OptionAs;
    if options != [] {
      OptionIs(options[0], prev);
      OptionsAre(options[1..], options[0].number);
    }
  }

  /** What is written is the message of the standard, and it is read as the message it was written
      for when its numbers and lengths fit 16 bits. */
  lemma MessageIs(m: Message)
    requires Composable(m)
    ensures MessageBytes(m) == MessageAs(m)
    ensures AllFit(m.options) ==> Parse(MessageAs(m)).1 == m && !IsError(Parse(MessageAs(m)).0)
  {
    hide OptionsBytes, OptionsAs, Parse, AllFit, IsError;
    OptionsAre(m.options, 0);
    var a, t, o, p := HeaderBytes(m), m.token, OptionsAs(m.options, 0), PayloadBytes(m.payload);
    assert a == [64 + m.msgType * 16 + |m.token|, m.codeClass * 32 + m.codeDetail, m.msgId / 256, m.msgId % 256];
    assert a + (t + (o + p)) == a + t + o + p;
    if AllFit(m.options) { RoundTrip(m); }
  }

  /** An option that is added stands behind all that are not greater, and the others keep their places. */
  lemma {:induction false} InsertPlace(options: seq<Opt>, o: Opt) returns (k: nat)
    requires Ascending(options)
    ensures k <= |options| && Insert(options, o) == options[..k] + [o] + options[k..]
    ensures forall i :: 0 <= i < k ==> options[i].number <= o.number
    ensures forall i :: k <= i < |options| ==> o.number < options[i].number
  {
    hide InsertBefore;
    if options == [] || options[|options| - 1].number <= o.number {
      k := |options|;
      AllBelow(options, |options|);
    } else {
      k := BeforePlace(options, o);
    }
  }

  lemma {:induction false} AllBelow(options: seq<Opt>, k: nat)
    requires Ascending(options) && k <= |options|
    ensures forall i, j :: 0 <= i <= j < k ==> options[i].number <= options[j].number
  {
    if k > 0 {
      AllBelow(options, k - 1);
      if k > 1 { assert options[k - 2].number <= options[k - 2 + 1].number; }
    }
  }

  lemma {:induction false} BeforePlace(options: seq<Opt>, o: Opt) returns (k: nat)
    requires Ascending(options)
    ensures k <= |options| && InsertBefore(options, o) == options[..k] + [o] + options[k..]
    ensures forall i :: 0 <= i < k ==> options[i].number <= o.number
    ensures forall i :: k <= i < |options| ==> o.number < options[i].number
  {
    if options == [] || options[0].number > o.number {
      k := 0;
      AllBelow(options, |options|);
    } else {
      var tail := options[1..];
      assert Ascending(tail) by {
        forall i | 0 <= i < |tail| - 1 ensures tail[i].number <= tail[i + 1].number {
          assert options[i + 1].number <= options[i + 1 + 1].number;
        }
      }
      var j := BeforePlace(tail, o);
      k := j + 1;
      assert options[..k] == [options[0]] + tail[..j] && options[k..] == tail[j..];
      assert forall i :: 1 <= i < |options| ==> options[i] == tail[i - 1];
    }
  }

  /** What is refused on sight: too few bytes, another version, a token of more than 8 bytes, a token that is
      not all there. */
  lemma HeaderRefused(d: seq<byte>)
    ensures |d| < 4 ==> Parse(d).0 == {NotEnoughData}
    ensures |d| >= 4 && !(64 <= d[0] < 128) ==> Parse(d).0 == {Ignore}
    ensures |d| >= 4 && 64 <= d[0] < 128 && d[0] % 16 > 8 ==> Parse(d).0 == {TypeField, FormatError}
    ensures |d| >= 4 && 64 <= d[0] < 128 && d[0] % 16 <= 8 && |d| < 4 + d[0] % 16 ==>
      Parse(d).0 == {TypeField, CodeClassField, CodeDetailField, MsgIdField, NotEnoughData}
  {
  }

  /** Of an option head: four bits of 15, but not the payload marker, are a format error; bytes that
      are missing are missing. */
  lemma OptionRefused(d: seq<byte>, pos: nat, prev: nat, before: seq<Opt>)
    requires pos < |d| && d[pos] != 255
    ensures d[pos] / 16 == 15 || d[pos] % 16 == 15 ==> ParseOptions(d, pos, prev, before) == Failed(FormatError)
    ensures
      d[pos] / 16 < 15 && d[pos] % 16 < 15 ==>
        |d| < pos + 1 + ExtraBytes(d[pos] / 16) + ExtraBytes(d[pos] % 16) ==>
          ParseOptions(d, pos, prev, before) == Failed(NotEnoughData)
  {
  }

  function ExtraBytes(bits: nat): nat {
    if bits == 13 then 1 else if bits == 14 then 2 else 0
  }
}
