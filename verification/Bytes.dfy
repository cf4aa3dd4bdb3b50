/** Bytes and the integers packets are made of. */
module Bytes {
  type byte = b: int | 0 <= b < 256

  /** `htons`, `htonl`: an integer in network byte order; higher digits are cut off. */
  function BE16(n: nat): (r: seq<byte>)
    ensures |r| == 2
  {
    [n / 256 % 256, n % 256]
  }

  function ReadBE16(s: seq<byte>): (n: nat)
    requires |s| >= 2
    ensures n < 65536
  {
    s[0] as int * 256 + s[1] as int
  }

  lemma ReadWrite16(n: nat)
    ensures ReadBE16(BE16(n)) == n % 65536
    ensures n < 65536 ==> ReadBE16(BE16(n)) == n
  {
    var q, r := n / 65536, n % 65536;
    var a, b := r / 256, r % 256;
    assert n == 256 * (256 * q + a) + b;
    assert n / 256 == 256 * q + a && n % 256 == b;
    LowDigit(q, a);
  }

  lemma LowDigit(q: nat, a: nat)
    requires a < 256
    ensures (256 * q + a) % 256 == a
  {
  }

  function BE32(n: nat): (r: seq<byte>)
    ensures |r| == 4
  {
    BE16(n / 65536) + BE16(n)
  }

  function ReadBE32(s: seq<byte>): (n: nat)
    requires |s| >= 4
    ensures n < 0x1_0000_0000
  {
    ReadBE16(s) * 65536 + ReadBE16(s[2..])
  }

  lemma ReadWrite32(n: nat)
    requires n < 0x1_0000_0000
    ensures ReadBE32(BE32(n)) == n
  {
    ReadWrite16(n);
    ReadWrite16(n / 65536);
    assert BE32(n)[2..] == BE16(n);
  }

  lemma Cut32(n: nat)
    ensures ReadBE32(BE32(n)) == n % 0x1_0000_0000
  {
    ReadWrite16(n);
    ReadWrite16(n / 65536);
    assert BE32(n)[2..] == BE16(n);
    Halves(n);
  }

  lemma Halves(n: nat)
    ensures n / 65536 % 65536 * 65536 + n % 65536 == n % 0x1_0000_0000
  {
  }

  /** Little-endian words, as MD5 stores them. */
  function LE32(n: nat): (r: seq<byte>)
    ensures |r| == 4
  {
    [n % 256, n / 0x100 % 256, n / 0x1_0000 % 256, n / 0x100_0000 % 256]
  }

  function Zeros(n: nat): (r: seq<byte>)
    ensures |r| == n && forall i :: 0 <= i < n ==> r[i] == 0
  {
    seq(n, i => 0)
  }

  function Concat(pieces: seq<seq<byte>>): seq<byte> {
    if pieces == [] then [] else pieces[0] + Concat(pieces[1..])
  }

  lemma {:induction false} ConcatSnoc(pieces: seq<seq<byte>>, i: nat)
    requires i < |pieces|
    ensures Concat(pieces[..i + 1]) == Concat(pieces[..i]) + pieces[i]
    decreases i
  {
    if i == 0 {
      assert pieces[..1][1..] == [] && pieces[..0] == [];
    } else {
      ConcatSnoc(pieces[1..], i - 1);
      assert pieces[..i + 1][1..] == pieces[1..][..i] && pieces[..i][1..] == pieces[1..][..i - 1];
      assert pieces[0] + (Concat(pieces[1..][..i - 1]) + pieces[i]) == (pieces[0] + Concat(pieces[1..][..i - 1]))
        + pieces[i];
    }
  }

  // ---------------------------------------------------------------------------
  // Parts of a packet

  /** The bytes `s` stand in `d` at `pos`. */
  predicate At(d: seq<byte>, pos: nat, s: seq<byte>) {
    pos + |s| <= |d| && d[pos..pos + |s|] == s
  }

  lemma CutAt(d: seq<byte>, n: nat, a: seq<byte>, b: seq<byte>)
    requires n <= |d| && d[n..] == a + b
    ensures n + |a| <= |d| && d[n..n + |a|] == a && d[n + |a|..] == b
  {
    assert |d[n..]| == |a| + |b|;
    assert d[n..n + |a|] == d[n..][..|a|] && d[n + |a|..] == d[n..][|a|..];
  }

  lemma AtSplit(d: seq<byte>, pos: nat, a: seq<byte>, b: seq<byte>)
    requires At(d, pos, a + b)
    ensures At(d, pos, a) && At(d, pos + |a|, b)
  {
    var s := d[pos..pos + |a + b|];
    assert s[..|a|] == a && s[|a|..] == b;
    assert d[pos..pos + |a|] == s[..|a|] && d[pos + |a|..pos + |a| + |b|] == s[|a|..];
  }

  lemma AtByte(d: seq<byte>, pos: nat, b: byte)
    requires At(d, pos, [b])
    ensures pos < |d| && d[pos] == b
  {
    assert d[pos] == d[pos..pos + 1][0];
  }

  lemma AtSlice(d: seq<byte>, pos: nat, s: seq<byte>)
    requires At(d, pos, s)
    ensures pos + |s| <= |d| && d[pos..pos + |s|] == s
  {
  }

  /** The number bytes are in network order: the first one weighs most. */
  function BigEndian(s: seq<byte>): nat {
    if s == [] then 0 else BigEndian(s[..|s| - 1]) * 256 + s[|s| - 1] as nat
  }

  function Power256(n: nat): nat {
    if n == 0 then 1 else Power256(n - 1) * 256
  }

  lemma {:induction false} BigEndianJoin(a: seq<byte>, b: seq<byte>)
    ensures BigEndian(a + b) == BigEndian(a) * Power256(|b|) + BigEndian(b)
  {
    if b == [] {
      assert a + b == a;
    } else {
      var n := |b| - 1;
      assert (a + b)[..|a| + n] == a + b[..n];
      BigEndianJoin(a, b[..n]);
      Distribute(BigEndian(a), Power256(n), BigEndian(b[..n]));
    }
  }

  lemma Distribute(a: nat, p: nat, b: nat)
    ensures (a * p + b) * 256 == a * (p * 256) + b * 256
  {
  }

  lemma BigEndianTwo(b: seq<byte>)
    requires |b| == 2
    ensures BigEndian(b) == b[0] as nat * 256 + b[1] as nat
  {
    assert b[..1] == [b[0]] && [b[0]][..0] == [];
    assert BigEndian([b[0]]) == b[0] as nat;
  }

  lemma BigEndianFour(b: seq<byte>)
    requires |b| == 4
    ensures BigEndian(b) == ((b[0] as nat * 256 + b[1] as nat) * 256 + b[2] as nat) * 256 + b[3] as nat
  {
    var c := b[..3];
    assert c[..2] == b[..2] && c[2] == b[2];
    BigEndianTwo(b[..2]);
    assert BigEndian(c) == BigEndian(b[..2]) * 256 + b[2] as nat;
  }

  /** The integers of the packets are in this order. */
  lemma NetworkOrder(n: nat, s: seq<byte>)
    ensures n < 0x1_0000 ==> BigEndian(BE16(n)) == n
    ensures n < 0x1_0000_0000 ==> BigEndian(BE32(n)) == n
    ensures |s| >= 2 ==> ReadBE16(s) == BigEndian(s[..2])
    ensures |s| >= 4 ==> ReadBE32(s) == BigEndian(s[..4])
  {
    ReadWrite16(n);
    if n < 0x1_0000 {
      ReadTwo(BE16(n));
      assert BE16(n)[..2] == BE16(n);
    }
    if n < 0x1_0000_0000 {
      ReadWrite32(n);
      ReadFour(BE32(n));
      assert BE32(n)[..4] == BE32(n);
    }
    if |s| >= 2 { ReadTwo(s); }
    if |s| >= 4 { ReadFour(s); }
  }

  lemma ReadTwo(s: seq<byte>)
    requires |s| >= 2
    ensures ReadBE16(s) == BigEndian(s[..2])
  {
    BigEndianTwo(s[..2]);
  }

  lemma ReadFour(s: seq<byte>)
    requires |s| >= 4
    ensures ReadBE32(s) == BigEndian(s[..4])
  {
    var w := s[..4];
    BigEndianFour(w);
    assert w[0] == s[0] && w[1] == s[1] && w[2] == s[2] && w[3] == s[3];
    assert ReadBE16(s[2..]) == s[2] as nat * 256 + s[3] as nat;
  }
}
