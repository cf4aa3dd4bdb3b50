/** Names as RFC 1035 puts them into packets: section 3.1 for labels, 4.1.4 for pointers. */
module DnsBytes {
  import opened Options
  import opened Bytes
  import opened Dns

  /** Each part with its length in front, and a zero. */
  function Wire(labels: seq<seq<byte>>): seq<byte>
    requires forall i :: 0 <= i < |labels| ==> |labels[i]| < 256
  {
    if labels == [] then [0] else [|labels[0]|] + (labels[0] + Wire(labels[1..]))
  }

  /** Labels that can be written: none empty or longer than `most`, none with a dot. */
  predicate Short(labels: seq<seq<byte>>, most: nat) {
    forall i :: 0 <= i < |labels| ==> 0 < |labels[i]| <= most && 46 !in labels[i]
  }

  lemma {:induction false} FirstDot(part: seq<byte>, rest: seq<byte>)
    requires 46 !in part && (rest == [] || rest[0] == 46)
    ensures DotIndex(part + rest) == |part|
  {
    if part == [] {
      assert part + rest == rest;
    } else {
      assert (part + rest)[0] == part[0] && (part + rest)[1..] == part[1..] + rest;
      FirstDot(part[1..], rest);
    }
  }

  lemma NameParted(part: seq<byte>, rest: seq<byte>)
    requires 46 !in part
    ensures DotIndex(part) == |part| && Behind(part) == []
    ensures
      var name := part + ([DOT] + rest);
      DotIndex(name) == |part| && name[..|part|] == part && Behind(name) == rest
  {
    hide DotIndex;
    FirstDot(part, []);
    assert part + [] == part;
    FirstDot(part, [DOT] + rest);
    DotBetween(part, rest);
  }

  lemma DotBetween(part: seq<byte>, rest: seq<byte>)
    ensures
      var name := part + ([DOT] + rest);
      |part| < |name| && name[..|part|] == part && name[|part| + 1..] == rest
  {
  }

  /** Labels of at most 127 bytes are written as they are. */
  lemma {:induction false} LabelsWritten(labels: seq<seq<byte>>)
    requires labels != [] && Short(labels, 127)
    ensures EncodedLabels(Dotted(labels)).0 && EncodedLabels(Dotted(labels)).1 + [0] == Wire(labels)
    decreases |labels|
  {
    hide DotIndex, Behind, EncodedLabels;
    var part, rest := labels[0], labels[1..];
    NameParted(part, Dotted(rest));
    if rest == [] {
      LabelStep(part);
      assert part[..|part|] == part;
      assert [|part|] + part + [0] == [|part|] + (part + Wire([]));
    } else {
      LabelsWritten(rest);
      Visible(rest);
      var name, more := Dotted(labels), EncodedLabels(Dotted(rest)).1;
      assert name == part + ([DOT] + Dotted(rest));
      LabelStep(name);
      assert [|part|] + part + more + [0] == [|part|] + (part + (more + [0]));
    }
  }

  lemma NameWritten(labels: seq<seq<byte>>)
    requires labels != [] && Short(labels, 127)
    ensures Encoded(Dotted(labels)) == (true, Wire(labels))
  {
    hide EncodedLabels, Dotted, Wire;
    LabelsWritten(labels);
  }

  lemma Visible(labels: seq<seq<byte>>)
    requires labels != [] && |labels[0]| > 0
    ensures Dotted(labels) != []
  {
  }

  /** A longer part is refused; the name before it has been written. */
  lemma LongRefused(part: seq<byte>, rest: seq<byte>)
    requires |part| > 127 && 46 !in part && (rest == [] || rest[0] == 46)
    ensures Encoded(part + rest) == (false, [])
  {
    FirstDot(part, rest);
  }

  /** Labels of at most 63 bytes are read as they are. */
  lemma {:induction false} LabelsRead(pkt: seq<byte>, pos: nat, labels: seq<seq<byte>>, pointers: nat)
    requires Short(labels, 63) && At(pkt, pos, Wire(labels)) && pointers <= 15
    ensures Expand(pkt, pos, pointers) == Some(labels)
    decreases |labels|
  {
    hide At, Expand, IsPointer, Offset;
    if labels == [] {
      AtByte(pkt, pos, 0);
      NoLabels(pkt, pos, pointers);
    } else {
      var part, rest := labels[0], labels[1..];
      AtSplit(pkt, pos, [|part|], part + Wire(rest));
      AtSplit(pkt, pos + 1, part, Wire(rest));
      AtByte(pkt, pos, |part|);
      AtSlice(pkt, pos + 1, part);
      LabelsRead(pkt, pos + 1 + |part|, rest, pointers);
      OneLabel(pkt, pos, part, pointers);
      assert [part] + rest == labels;
    }
  }

  /** Two bytes from 192 on are a pointer: a name goes on at the offset, 15 times at most. */
  lemma PointerRead(pkt: seq<byte>, pos: nat, off: nat, pointers: nat, out: seq<byte>, cap: nat)
    requires off < 16384 && At(pkt, pos, [192 + off / 256, off % 256]) && pointers <= 15 && |out| <= cap
    ensures pos < |pkt|
    ensures off < |pkt| && pointers < 15 ==>
      && Expand(pkt, pos, pointers) == Expand(pkt, off, pointers + 1)
      && Uncompressed(pkt, pos, pointers, out, cap) == Uncompressed(pkt, off, pointers + 1, out, cap)
    ensures off >= |pkt| || pointers == 15 ==> Uncompressed(pkt, pos, pointers, out, cap) == []
  {
    assert pkt[pos] == pkt[pos..pos + 2][0] && pkt[pos + 1] == pkt[pos..pos + 2][1];
    assert Offset(pkt[pos], pkt[pos + 1]) == off;
  }

  /** Labels and then a pointer: the labels, and those of the name it points to. */
  lemma {:induction false} SuffixShared(pkt: seq<byte>, pos: nat, labels: seq<seq<byte>>, off: nat,
                                        more: seq<seq<byte>>)
    requires Short(labels, 63) && off < 16384 && Expand(pkt, off, 1) == Some(more)
    requires At(pkt, pos, Wire(labels)[..|Wire(labels)| - 1] + [192 + off / 256, off % 256])
    ensures Expand(pkt, pos, 0) == Some(labels + more)
    decreases |labels|
  {
    hide At, Expand;
    var p: seq<byte> := [192 + off / 256, off % 256];
    if labels == [] {
      assert Wire(labels)[..0] + p == p;
      PointerRead(pkt, pos, off, 0, [], 0);
      assert off < |pkt| by { InPacket(pkt, off, 1); }
      assert labels + more == more;
    } else {
      var part, rest := labels[0], labels[1..];
      var w := Wire(rest);
      assert Wire(labels)[..|Wire(labels)| - 1] + p == [|part|] + (part + (w[..|w| - 1] + p));
      AtSplit(pkt, pos, [|part|], part + (w[..|w| - 1] + p));
      AtSplit(pkt, pos + 1, part, w[..|w| - 1] + p);
      AtByte(pkt, pos, |part|);
      AtSlice(pkt, pos + 1, part);
      SuffixShared(pkt, pos + 1 + |part|, rest, off, more);
      OneLabel(pkt, pos, part, 0);
      assert [part] + (rest + more) == labels + more;
    }
  }

  lemma NoLabels(pkt: seq<byte>, pos: nat, pointers: nat)
    requires pos < |pkt| && pkt[pos] == 0 && pointers <= 15
    ensures Expand(pkt, pos, pointers) == Some([])
  {
  }

  lemma OneLabel(pkt: seq<byte>, pos: nat, part: seq<byte>, pointers: nat)
    requires pointers <= 15
    requires 0 < |part| <= 63 && pos + 1 + |part| <= |pkt| && pkt[pos] == |part|
    requires pkt[pos + 1..pos + 1 + |part|] == part
    ensures Expand(pkt, pos, pointers) == match Expand(pkt, pos + 1 + |part|, pointers)
      case None => None
      case Some(labels) => Some([part] + labels)
  {
  }
}
