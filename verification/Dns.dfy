/** DNS names (RFC 1035): writing one label by label, and expanding a compressed one. */
module Dns {
  import opened Options
  import opened Bytes

  const DOT: byte := 46

  // ---------------------------------------------------------------------------
  // mg_dns_encode_name_s

  /** Where the first dot is, or the end of the name. */
  function DotIndex(name: seq<byte>): (d: nat)
    ensures d <= |name| && (d < |name| ==> name[d] == DOT)
    ensures forall k :: 0 <= k < d ==> name[k] != DOT
  {
    if name == [] || name[0] == DOT then 0 else 1 + DotIndex(name[1..])
  }

  /** What is left behind the first label and its dot. */
  function Behind(name: seq<byte>): (r: seq<byte>)
    ensures name != [] ==> |r| < |name|
  {
    var d := DotIndex(name);
    if d < |name| then name[d + 1..] else []
  }

  /** The labels written: nothing behind a dot at the end.  The flag says whether all were
      short enough; what has been appended before a label that is not stays. */
  function EncodedLabels(name: seq<byte>): (r: (bool, seq<byte>))
    decreases |name|
  {
    var d := DotIndex(name);
    if d > 127 then (false, [])
    else if Behind(name) == [] then (true, [d] + name[..d])
    else
      var (ok, more) := EncodedLabels(Behind(name));
      (ok, [d] + name[..d] + more)
  }

  function Encoded(name: seq<byte>): (bool, seq<byte>) {
    var (ok, labels) := EncodedLabels(name);
    (ok, if ok then labels + [0] else labels)
  }

  lemma LabelStep(name: seq<byte>)
    requires DotIndex(name) <= 127
    ensures
      var d := DotIndex(name);
      EncodedLabels(name) == if Behind(name) == [] then (true, [d] + name[..d])
                             else (EncodedLabels(Behind(name)).0, [d] + name[..d] + EncodedLabels(Behind(name)).1)
  {
  }

  lemma Regroup(a: seq<byte>, b: seq<byte>, c: seq<byte>, d: seq<byte>)
    ensures a + b + c == a + (b + c) && b + (c + d) == (b + c) + d
  {
  }

  method EncodeName(io: seq<byte>, name: seq<byte>) returns (written: int, io': seq<byte>)
    ensures io' == io + Encoded(name).1
    ensures written == if Encoded(name).0 then |Encoded(name).1| else -1
  {
    hide EncodedLabels, DotIndex, Behind;
    var rest: seq<byte> := name;
    io' := io;
    ghost var all := EncodedLabels(name);
    ghost var done: seq<byte> := [];
    var more := true;
    assert done + all.1 == all.1 && io + done == io;
    while more
      invariant more ==> all.0 == EncodedLabels(rest).0 && all.1 == done + EncodedLabels(rest).1
      invariant !more ==> all == (true, done)
      invariant io' == io + done
      decreases |rest|, more
    {
      var s := IndexOfDot(rest);
      if s > 127 {
        TooLong(rest);
        assert done + [] == done;
        return -1, io';
      }
      LabelStep(rest);
      NextLabel(rest, s);
      var n, part := s, [s] + rest[..s];
      io' := io' + part;
      if n < |rest| {
        n := n + 1;
      }
      Regroup(io, done, part, EncodedLabels(rest[n..]).1);
      done := done + part;
      rest := rest[n..];
      more := |rest| > 0;
    }
    io' := io' + [0];
    assert io + done + [0] == io + (done + [0]);
    written := |io'| - |io|;
  }

  lemma TooLong(name: seq<byte>)
    requires DotIndex(name) > 127
    ensures EncodedLabels(name) == (false, [])
  {
  }

  lemma NextLabel(name: seq<byte>, s: nat)
    requires s == DotIndex(name)
    ensures s <= |name| && Behind(name) == name[if s < |name| then s + 1 else s..]
    ensures Behind(name) != [] ==> |Behind(name)| < |name|
  {
  }

  /** `mg_strchr`, or the end. */
  method IndexOfDot(name: seq<byte>) returns (s: nat)
    ensures s == DotIndex(name)
  {
    s := 0;
    while s < |name| && name[s] != DOT
      invariant s <= |name| && DotIndex(name) == s + DotIndex(name[s..])
    {
      assert name[s..][1..] == name[s + 1..];
      s := s + 1;
    }
  }

  // ---------------------------------------------------------------------------
  // mg_dns_uncompress_name

  /** Pointers followed before the code gives up. */
  const MAX_HOPS := 15

  predicate IsPointer(b: byte) {
    b >= 0xC0
  }

  function Offset(high: byte, low: byte): nat {
    high % 64 * 256 + low
  }

  function Min(a: int, b: int): int {
    if a < b then a else b
  }

  /** What the loop returns from `pos` on, with `pointers` followed and `out` written: dotted
      labels with a dot behind each, cut at `cap`, or nothing when the name is broken. */
  function Uncompressed(pkt: seq<byte>, pos: nat, pointers: nat, out: seq<byte>, cap: nat): (r: seq<byte>)
    requires pos < |pkt| && pointers <= MAX_HOPS && |out| <= cap
    ensures |r| <= cap
    decreases MAX_HOPS - pointers, |pkt| - pos
  {
    var chunk := pkt[pos];
    if chunk == 0 then if out == [] then [] else out[..|out| - 1]
    else if pos + 1 >= |pkt| then []
    else if IsPointer(chunk) then
      var off := Offset(chunk, pkt[pos + 1]);
      if off >= |pkt| || pointers + 1 > MAX_HOPS then []
      else Uncompressed(pkt, off, pointers + 1, out, cap)
    else if chunk > 63 then []
    else
      var n := Min(chunk, cap - |out|);
      if pos + 1 + n >= |pkt| then []
      else
        var out' := out + pkt[pos + 1..pos + 1 + n];
        if |out'| == cap then out' else Uncompressed(pkt, pos + 1 + n, pointers, out' + [DOT], cap)
  }

  /** The name at `pos`, copied into `dst` as far as it goes.  Every read is inside the
      packet, every write inside the first `dstLen` bytes, and the loop ends. */
  method UncompressName(pkt: seq<byte>, pos: nat, dst: array<byte>, dstLen: nat) returns (n: nat)
    requires dstLen <= dst.Length
    modifies dst
    ensures n == 0 <== pos >= |pkt|
    ensures pos < |pkt| ==>
      n == |Uncompressed(pkt, pos, 0, [], dstLen)| && dst[..n] == Uncompressed(pkt, pos, 0, [], dstLen)
    ensures n <= dstLen && dst[dstLen..] == old(dst[dstLen..])
  {
    hide Uncompressed;
    n := 0;
    if pos >= |pkt| {
      return;
    }
    var data: nat, pointers: nat := pos, 0;
    ghost var goal := Uncompressed(pkt, pos, 0, [], dstLen);
    assert dst[..0] == [];
    while pkt[data] != 0
      invariant data < |pkt| && pointers <= MAX_HOPS && n <= dstLen
      invariant Uncompressed(pkt, data, pointers, dst[..n], dstLen) == goal
      invariant dst[dstLen..] == old(dst[dstLen..])
      decreases MAX_HOPS - pointers, |pkt| - data
    {
      Refused(pkt, data, pointers, dst[..n], dstLen);
      var chunk: int := pkt[data];
      data := data + 1;
      var leeway := dstLen - n;
      if data >= |pkt| {
        return 0;
      }
      if chunk >= 0xC0 {
        var off := chunk % 64 * 256 + pkt[data] as int;
        if off >= |pkt| {
          return 0;
        }
        pointers := pointers + 1;
        if pointers > MAX_HOPS {
          return 0;
        }
        PointerStep(pkt, data - 1, pointers - 1, dst[..n], dstLen);
        data := off;
        continue;
      }
      if chunk > 63 {
        return 0;
      }
      if chunk > leeway {
        chunk := leeway;
      }
      if data + chunk >= |pkt| {
        return 0;
      }
      CopyStep(pkt, data - 1, pointers, dst[..n], dstLen);
      n := Copy(pkt[data..data + chunk], dst, n);
      data := data + chunk;
      leeway := leeway - chunk;
      if leeway == 0 {
        return n;
      }
      n := Copy([DOT], dst, n);
    }
    ZeroStep(pkt, data, pointers, dst[..n], dstLen);
    if n != 0 {
      n := n - 1;
      Terminate(dst, n, dstLen);
    }
  }

  /** `*--dst = 0`: the NUL takes the place of the last dot. */
  method Terminate(dst: array<byte>, n: nat, dstLen: nat)
    requires n < dstLen <= dst.Length
    modifies dst
    ensures dst[..n] == old(dst[..n + 1])[..n] && dst[dstLen..] == old(dst[dstLen..])
  {
    dst[n] := 0;
    assert dst[..n] == old(dst[..n]);
  }

  lemma ZeroStep(pkt: seq<byte>, pos: nat, pointers: nat, out: seq<byte>, cap: nat)
    requires pos < |pkt| && pkt[pos] == 0 && pointers <= MAX_HOPS && |out| <= cap
    ensures Uncompressed(pkt, pos, pointers, out, cap) == if out == [] then [] else out[..|out| - 1]
  {
  }

  /** The ways in which nothing is returned. */
  lemma Refused(pkt: seq<byte>, pos: nat, pointers: nat, out: seq<byte>, cap: nat)
    requires pos < |pkt| && pkt[pos] != 0 && pointers <= MAX_HOPS && |out| <= cap
    ensures
      (|| pos + 1 >= |pkt|
       || (IsPointer(pkt[pos]) && (Offset(pkt[pos], pkt[pos + 1]) >= |pkt| || pointers == MAX_HOPS))
       || 63 < pkt[pos] < 0xC0
       || (pkt[pos] <= 63 && pos + 1 + Min(pkt[pos], cap - |out|) >= |pkt|))
      ==> Uncompressed(pkt, pos, pointers, out, cap) == []
  {
  }

  /** `memcpy` to the write pointer. */
  method Copy(part: seq<byte>, dst: array<byte>, n: nat) returns (n': nat)
    requires n + |part| <= dst.Length
    modifies dst
    ensures n' == n + |part| && dst[..n'] == old(dst[..n]) + part && dst[n'..] == old(dst[n'..])
    ensures forall k :: n' <= k <= dst.Length ==> dst[k..] == old(dst[k..])
  {
    forall i | 0 <= i < |part| {
      dst[n + i] := part[i];
    }
    n' := n + |part|;
    assert dst[..n] == old(dst[..n]) && dst[n..n'] == part;
  }

  /** A label that is copied, whole or cut. */
  lemma CopyStep(pkt: seq<byte>, pos: nat, pointers: nat, out: seq<byte>, cap: nat)
    requires pos + 1 < |pkt| && 1 <= pkt[pos] <= 63 && pointers <= MAX_HOPS && |out| <= cap
    ensures
      var n := Min(pkt[pos], cap - |out|);
      pos + 1 + n < |pkt| ==>
        var out' := out + pkt[pos + 1..pos + 1 + n];
        Uncompressed(pkt, pos, pointers, out, cap) ==
          if |out'| == cap then out' else Uncompressed(pkt, pos + 1 + n, pointers, out' + [DOT], cap)
  {
  }

  // ---------------------------------------------------------------------------
  // RFC 1035, section 4.1.4

  /** The labels of the name at `pos`, pointers followed; none if the name runs out of the
      packet, has a label type RFC 1035 does not define, or needs too many pointers. */
  function Expand(pkt: seq<byte>, pos: nat, pointers: nat): Option<seq<seq<byte>>>
    requires pointers <= MAX_HOPS
    decreases MAX_HOPS - pointers, |pkt| - pos
  {
    if pos >= |pkt| then None
    else if pkt[pos] == 0 then Some([])
    else if IsPointer(pkt[pos]) then
      if pos + 1 < |pkt| && pointers < MAX_HOPS && Offset(pkt[pos], pkt[pos + 1]) < |pkt|
      then Expand(pkt, Offset(pkt[pos], pkt[pos + 1]), pointers + 1)
      else None
    else if pkt[pos] > 63 || pos + 1 + pkt[pos] as int > |pkt| then None
    else
      match Expand(pkt, pos + 1 + pkt[pos] as int, pointers)
      case None => None
      case Some(labels) => Some([pkt[pos + 1..pos + 1 + pkt[pos] as int]] + labels)
  }

  /** Labels with dots between them. */
  function Dotted(labels: seq<seq<byte>>): seq<byte> {
    if labels == [] then []
    else if |labels| == 1 then labels[0]
    else labels[0] + [DOT] + Dotted(labels[1..])
  }

  /** What stands in the buffer when these labels come behind `out`, which ends in a dot. */
  function Text(out: seq<byte>, labels: seq<seq<byte>>): seq<byte> {
    if labels == [] then if out == [] then [] else out[..|out| - 1] else out + Dotted(labels)
  }

  /** Every name that RFC 1035 expands, through at most 15 pointers, comes out as the start of
      its dotted form, as much of it as there is room for. */
  lemma {:induction false} UncompressedIsExpansion(pkt: seq<byte>, pos: nat, pointers: nat, out: seq<byte>, cap: nat)
    requires pointers <= MAX_HOPS && |out| <= cap && Expand(pkt, pos, pointers).Some?
    ensures pos < |pkt|
    ensures
      var t := Text(out, Expand(pkt, pos, pointers).value);
      Uncompressed(pkt, pos, pointers, out, cap) == t[..Min(|t|, cap)]
    decreases MAX_HOPS - pointers, |pkt| - pos
  {
    hide Text, Uncompressed;
    if pkt[pos] == 0 {
      AtTheEnd(pkt, pos, pointers, out, cap);
    } else if IsPointer(pkt[pos]) {
      var off := Offset(pkt[pos], pkt[pos + 1]);
      UncompressedIsExpansion(pkt, off, pointers + 1, out, cap);
      PointerStep(pkt, pos, pointers, out, cap);
    } else {
      var next := pos + 1 + pkt[pos] as int;
      var part, rest := pkt[pos + 1..next], Expand(pkt, next, pointers).value;
      MoreText(out, part, rest);
      if |out + part| < cap {
        UncompressedIsExpansion(pkt, next, pointers, out + part + [DOT], cap);
      } else {
        InPacket(pkt, next, pointers);
      }
      CopyPart(pkt, pos, pointers, out, part, Text(out, [part] + rest), cap);
    }
  }

  lemma InPacket(pkt: seq<byte>, pos: nat, pointers: nat)
    requires pointers <= MAX_HOPS && Expand(pkt, pos, pointers).Some?
    ensures pos < |pkt|
  {
  }

  lemma AtTheEnd(pkt: seq<byte>, pos: nat, pointers: nat, out: seq<byte>, cap: nat)
    requires pos < |pkt| && pkt[pos] == 0 && pointers <= MAX_HOPS && |out| <= cap
    ensures
      var t := Text(out, []);
      Uncompressed(pkt, pos, pointers, out, cap) == t[..Min(|t|, cap)]
  {
    var t := Text(out, []);
    assert t[..|t|] == t;
  }

  lemma PointerStep(pkt: seq<byte>, pos: nat, pointers: nat, out: seq<byte>, cap: nat)
    requires pos + 1 < |pkt| && IsPointer(pkt[pos]) && pointers < MAX_HOPS && |out| <= cap
    requires Offset(pkt[pos], pkt[pos + 1]) < |pkt|
    ensures Uncompressed(pkt, pos, pointers, out, cap)
         == Uncompressed(pkt, Offset(pkt[pos], pkt[pos + 1]), pointers + 1, out, cap)
  {
  }

  lemma CopyPart(pkt: seq<byte>, pos: nat, pointers: nat, out: seq<byte>, part: seq<byte>, t: seq<byte>, cap: nat)
    requires pos + 1 < |pkt| && 1 <= pkt[pos] <= 63 && pointers <= MAX_HOPS && |out| <= cap
    requires pos + 1 + |part| < |pkt| && |part| == pkt[pos] as int && part == pkt[pos + 1..pos + 1 + |part|]
    requires |t| >= |out + part| && t[..|out + part|] == out + part
    requires |out + part| < cap ==>
      Uncompressed(pkt, pos + 1 + |part|, pointers, out + part + [DOT], cap) == t[..Min(|t|, cap)]
    ensures Uncompressed(pkt, pos, pointers, out, cap) == t[..Min(|t|, cap)]
  {
    hide Uncompressed;
    CopyStep(pkt, pos, pointers, out, cap);
    var n: nat := Min(|part|, cap - |out|);
    StartOfPart(pkt, pos + 1, |part|, n);
    if |out + part| < cap {
      assert part[..n] == part;
    } else {
      assert t[..cap] == t[..|out + part|][..cap] == out + part[..n];
    }
  }

  lemma StartOfPart(pkt: seq<byte>, at: nat, size: nat, n: nat)
    requires at + size <= |pkt| && n <= size
    ensures pkt[at..at + n] == pkt[at..at + size][..n]
  {
  }

  lemma MoreText(out: seq<byte>, part: seq<byte>, rest: seq<seq<byte>>)
    ensures Text(out, [part] + rest) == Text(out + part + [DOT], rest)
    ensures |Text(out, [part] + rest)| >= |out + part| && Text(out, [part] + rest)[..|out + part|] == out + part
  {
    var labels, all := [part] + rest, out + part + [DOT];
    assert labels[0] == part && labels[1..] == rest;
    if rest == [] {
      assert all[..|all| - 1] == out + part;
    } else {
      assert out + (part + [DOT] + Dotted(rest)) == all + Dotted(rest);
    }
  }

  // ---------------------------------------------------------------------------
  // Decoding undoes encoding

  /** Every label has 1 to 63 bytes, as RFC 1035 section 3.1 wants it. */
  predicate ProperLabels(name: seq<byte>)
    decreases |name|
  {
    1 <= DotIndex(name) <= 63 && (DotIndex(name) == |name| || ProperLabels(Behind(name)))
  }

  /** Where the parts of an encoded name stand. */
  lemma LabelsAt(name: seq<byte>, pkt: seq<byte>, pos: nat)
    requires name != [] && EncodedLabels(name).0 && At(pkt, pos, EncodedLabels(name).1 + [0])
    ensures
      var d := DotIndex(name);
      && d <= 127 && pos + 1 + d < |pkt| && pkt[pos] == d && pkt[pos + 1..pos + 1 + d] == name[..d]
      && (Behind(name) == [] ==> pkt[pos + 1 + d] == 0)
      && (Behind(name) != [] ==>
            EncodedLabels(Behind(name)).0 && At(pkt, pos + 1 + d, EncodedLabels(Behind(name)).1 + [0]))
  {
    hide DotIndex, Behind, EncodedLabels, At;
    var d, rest := DotIndex(name), Behind(name);
    ShortEnough(name);
    LabelStep(name);
    var part := name[..d];
    var more := if rest == [] then [] else EncodedLabels(rest).1;
    assert EncodedLabels(name).1 + [0] == [d] + (part + (more + [0]));
    AtSplit(pkt, pos, [d], part + (more + [0]));
    AtSplit(pkt, pos + 1, part, more + [0]);
    AtSplit(pkt, pos + 1 + d, more, [0]);
    AtByte(pkt, pos, d);
    AtSlice(pkt, pos + 1, part);
    AtByte(pkt, pos + 1 + d + |more|, 0);
  }

  lemma ShortEnough(name: seq<byte>)
    requires EncodedLabels(name).0
    ensures DotIndex(name) <= 127
  {
  }

  lemma {:induction false} DecodeLabels(name: seq<byte>, pkt: seq<byte>, pos: nat, out: seq<byte>, cap: nat)
    requires name != [] && EncodedLabels(name).0 && At(pkt, pos, EncodedLabels(name).1 + [0])
    requires |out| + |name| <= cap
    ensures pos < |pkt|
    ensures
      var r := Uncompressed(pkt, pos, 0, out, cap);
      (ProperLabels(name) ==> r == out + name) && (!ProperLabels(name) ==> |r| < |out| + |name|)
    decreases |name|
  {
    hide Uncompressed, EncodedLabels, At, DotIndex, Behind, ProperLabels;
    var d, rest := DotIndex(name), Behind(name);
    var part := name[..d];
    LabelsAt(name, pkt, pos);
    NameParts(name);
    if 1 <= d <= 63 {
      CopyStep(pkt, pos, 0, out, cap);
      if rest == [] {
        LastLabel(pkt, pos + 1 + d, out + part, cap);
      } else {
        DecodeLabels(rest, pkt, pos + 1 + d, out + part + [DOT], cap);
        assert out + part + [DOT] + rest == out + (part + [DOT] + rest);
      }
    } else {
      NoLabel(pkt, pos, out, cap);
    }
  }

  /** A name is its first label and what is behind that; a dot at the end is lost. */
  lemma NameParts(name: seq<byte>)
    requires name != []
    ensures
      var d, rest := DotIndex(name), Behind(name);
      && d <= |name| && |rest| < |name|
      && (rest != [] ==> name == name[..d] + [DOT] + rest)
      && (rest == [] ==> name == name[..d] || |name| == d + 1)
      && (ProperLabels(name) <==> 1 <= d <= 63 && (name == name[..d] || (rest != [] && ProperLabels(rest))))
  {
    hide DotIndex;
    var d: nat := DotIndex(name);
    NoEmptyLabel();
    if d == |name| {
      assert name[..d] == name;
    } else {
      assert name == name[..d] + [DOT] + name[d + 1..];
    }
  }

  lemma NoEmptyLabel()
    ensures !ProperLabels([])
  {
  }

  lemma LastLabel(pkt: seq<byte>, pos: nat, out: seq<byte>, cap: nat)
    requires pos < |pkt| && pkt[pos] == 0 && |out| <= cap
    ensures |out| < cap ==> Uncompressed(pkt, pos, 0, out + [DOT], cap) == out
  {
    hide Uncompressed;
    if |out| < cap {
      AtTheEnd(pkt, pos, 0, out + [DOT], cap);
      LastDot(out);
    }
  }

  lemma LastDot(out: seq<byte>)
    ensures
      var t := Text(out + [DOT], []);
      forall cap: nat :: cap >= |out| ==> t[..Min(|t|, cap)] == out
  {
    assert (out + [DOT])[..|out|] == out;
  }

  /** An empty label ends the name, a length of 64 to 191 is no label. */
  lemma NoLabel(pkt: seq<byte>, pos: nat, out: seq<byte>, cap: nat)
    requires pos + 1 < |pkt| && (pkt[pos] == 0 || 63 < pkt[pos] < 0xC0) && |out| <= cap
    ensures |Uncompressed(pkt, pos, 0, out, cap)| <= |out|
  {
  }

  /** The encoder accepts every name whose labels have at most 127 bytes; reading back what
      it wrote, with room for the name, gives the name exactly when it is empty or its labels
      have 1 to 63 bytes (and no dot stands at the end). */
  lemma DecodeUndoesEncode(name: seq<byte>, cap: nat)
    requires Encoded(name).0 && cap >= |name|
    ensures Encoded(name).1 != []
    ensures Uncompressed(Encoded(name).1, 0, 0, [], cap) == name <==> name == [] || ProperLabels(name)
  {
    var e := Encoded(name).1;
    if name == [] {
      assert e == [0] + [] + [0];
    } else {
      assert e[0..|e|] == e;
      DecodeLabels(name, e, 0, [], cap);
      assert [] + name == name;
    }
  }
}
