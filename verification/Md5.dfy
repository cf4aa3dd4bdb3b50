/** The incremental MD5 of `cs_md5.c` (RFC 1321), over any compression function. */
module Md5 {
  import opened Bytes

  const U32 := 0x1_0000_0000
  const U64 := 0x1_0000_0000_0000_0000

  /** The chaining state; each word is below 2^32. */
  datatype Words = Words(a: nat, b: nat, c: nat, d: nat)

  /** What happens to the state for one block of 64 bytes. */
  type Compression = (Words, seq<byte>) -> Words

  const INIT := Words(0x67452301, 0xefcdab89, 0x98badcfe, 0x10325476)

  // ---------------------------------------------------------------------------
  // RFC 1321, sections 3.1 to 3.5

  function Fold(compress: Compression, state: Words, blocks: seq<byte>): Words
    requires |blocks| % 64 == 0
    decreases |blocks|
  {
    if blocks == [] then state else Fold(compress, compress(state, blocks[..64]), blocks[64..])
  }

  /** A one bit, zeros up to 448 bits modulo 512, and a 64 bit count. */
  function Padded(message: seq<byte>, count: nat): (r: seq<byte>)
    ensures |r| % 64 == 0
  {
    message + [0x80] + Zeros((119 - |message| % 64) % 64) + (LE32(count) + LE32(count / U32))
  }

  function DigestBytes(w: Words): seq<byte> {
    LE32(w.a) + LE32(w.b) + LE32(w.c) + LE32(w.d)
  }

  /** The digest of a message whose bits have been counted as `count`. */
  function DigestOf(compress: Compression, message: seq<byte>, count: nat): seq<byte> {
    DigestBytes(Fold(compress, INIT, Padded(message, count)))
  }

  /** The digest of a message: the count is its length in bits modulo 2^64. */
  function Digest(compress: Compression, message: seq<byte>): seq<byte> {
    DigestOf(compress, message, 8 * |message| % U64)
  }

  lemma {:induction false} FoldJoin(compress: Compression, state: Words, a: seq<byte>, b: seq<byte>)
    requires |a| % 64 == 0 && |b| % 64 == 0
    ensures Fold(compress, state, a + b) == Fold(compress, Fold(compress, state, a), b)
    decreases |a|
  {
    if a == [] {
      assert a + b == b;
    } else {
      assert (a + b)[..64] == a[..64] && (a + b)[64..] == a[64..] + b;
      FoldJoin(compress, compress(state, a[..64]), a[64..], b);
    }
  }

  lemma FoldBlock(compress: Compression, state: Words, a: seq<byte>, block: seq<byte>)
    requires |a| % 64 == 0 && |block| == 64
    ensures Fold(compress, state, a + block) == compress(Fold(compress, state, a), block)
  {
    FoldJoin(compress, state, a, block);
    var middle := Fold(compress, state, a);
    assert block[..64] == block && block[64..] == [];
    assert Fold(compress, middle, block) == Fold(compress, compress(middle, block), []);
  }

  /** The two 32 bit halves after an update: the shifts keep 35 bits of the length. */
  lemma CarryIsRight(low: nat, high: nat, len: nat, low': nat, high': nat)
    requires low < U32 && high < U32
    requires low' == (low + len * 8) % U32
    requires high' == ((if low' < low then high + 1 else high) + len % U32 / 0x2000_0000) % U32
    ensures high' * U32 + low' == (high * U32 + low + 8 * (len % U32)) % U64
  {
    var n := len % U32;
    var top, rest := n / 0x2000_0000, n % 0x2000_0000;
    assert n == top * 0x2000_0000 + rest;
    LowHalf(low, len, rest);
    var carry := if low' < low then 1 else 0;
    assert low + rest * 8 == carry * U32 + low';
    assert high * U32 + low + 8 * n == (high + top + carry) * U32 + low';
    Wrap(high + top + carry, low');
  }

  lemma LowHalf(low: nat, len: nat, rest: nat)
    requires low < U32 && rest == len % U32 % 0x2000_0000
    ensures (low + len * 8) % U32 == (low + rest * 8) % U32
  {
    var n := len % U32;
    assert len == len / U32 * U32 + n && n == n / 0x2000_0000 * 0x2000_0000 + rest;
    var k := len / U32 * 8 + n / 0x2000_0000;
    assert low + len * 8 == k * U32 + (low + rest * 8);
    Multiples(k, low + rest * 8);
  }

  lemma Multiples(k: nat, x: nat)
    ensures (k * U32 + x) % U32 == x % U32
  {
    var q, r := x / U32, x % U32;
    assert k * U32 + x == (k + q) * U32 + r;
    Remainder(k + q, r);
  }

  lemma Remainder(k: nat, r: nat)
    requires r < U32
    ensures (k * U32 + r) % U32 == r && (k * U32 + r) / U32 == k
  {
  }

  lemma Wrap(h: nat, low: nat)
    requires low < U32
    ensures h % U32 * U32 + low == (h * U32 + low) % U64
  {
    var q, r := h / U32, h % U32;
    assert h * U32 + low == q * U64 + (r * U32 + low);
    WideRemainder(q, r * U32 + low);
  }

  lemma WideRemainder(k: nat, r: nat)
    requires r < U64
    ensures (k * U64 + r) % U64 == r
  {
  }

  /** The count kept is the length in bits exactly for updates below 2^32 bytes. */
  lemma CountsShortUpdates(bits: nat, len: nat)
    requires bits < U64 && len < 0x2000_0000_0000_0000
    ensures (bits + 8 * (len % U32)) % U64 == (bits + 8 * len) % U64 <==> len < U32
  {
    if len >= U32 {
      var q := len / U32;
      assert len == q * U32 + len % U32;
      assert bits + 8 * len == bits + 8 * (len % U32) + q * 8 * U32;
      assert 0 < q * 8 * U32 < U64;
    }
  }

  // ---------------------------------------------------------------------------

  function Whole(n: nat): (r: nat)
    ensures r <= n && r % 64 == 0 && n - r == n % 64
  {
    n / 64 * 64
  }

  class Context {
    const compress: Compression
    var buf: Words
    var bits0: nat
    var bits1: nat
    /** `in`. */
    const input: array<byte>
    /** Everything the context has been updated with. */
    ghost var message: seq<byte>

    /** The blocks of `m` have gone into the state, the rest of it is in `input`. */
    ghost predicate Absorbed(m: seq<byte>)
      reads this`buf, input
    {
      && input.Length == 64
      && buf == Fold(compress, INIT, m[..Whole(|m|)])
      && input[..|m| % 64] == m[Whole(|m|)..]
    }

    ghost predicate Valid()
      reads this, input
    {
      bits0 < U32 && bits1 < U32 && bits0 / 8 % 64 == |message| % 64 && Absorbed(message)
    }

    function Bits(): nat
      reads this
    {
      bits1 * U32 + bits0
    }

    /** `cs_md5_init`. */
    constructor (compress: Compression)
      ensures Valid() && fresh(input) && message == [] && Bits() == 0 && this.compress == compress
    {
      this.compress := compress;
      buf := INIT;
      bits0, bits1 := 0, 0;
      input := new byte[64];
      message := [];
    }

    /** `memcpy` into `input`. */
    method Copy(at: nat, data: seq<byte>)
      requires at + |data| <= input.Length
      modifies input
      ensures input[..at + |data|] == old(input[..at]) + data
    {
      forall i | 0 <= i < |data| {
        input[at + i] := data[i];
      }
      assert input[..at] == old(input[..at]);
      assert input[at..at + |data|] == data;
    }

    method Transform(ghost done: seq<byte>)
      requires input.Length == 64 && |done| % 64 == 0 && buf == Fold(compress, INIT, done)
      modifies this`buf
      ensures buf == Fold(compress, INIT, done + input[..])
    {
      FoldBlock(compress, INIT, done, input[..]);
      buf := compress(buf, input[..]);
    }

    /** The first lines of `cs_md5_update`; what they return is the fill of `input`. */
    method Count(len: nat) returns (fill: nat)
      requires bits0 < U32 && bits1 < U32
      modifies this`bits0, this`bits1
      ensures bits0 < U32 && bits1 < U32 && Bits() == (old(Bits()) + 8 * (len % U32)) % U64
      ensures fill == old(bits0) / 8 % 64 && bits0 / 8 % 64 == (fill + len) % 64
    {
      var t, high := bits0, bits1;
      bits0 := (t + len * 8) % U32;
      if bits0 < t {
        bits1 := (bits1 + 1) % U32;
      }
      bits1 := (bits1 + len % U32 / 0x2000_0000) % U32;
      fill := t / 8 % 64;
      TwoSteps(if bits0 < t then high + 1 else high, len % U32 / 0x2000_0000);
      CarryIsRight(t, high, len, bits0, bits1);
      FillIsRight(t, len);
    }

    /** The first part of `cs_md5_update`: a block that has been begun is filled up. */
    method FillBlock(data: seq<byte>, fill: nat) returns (at: nat)
      requires Absorbed(message) && fill == |message| % 64 > 0 && |data| >= 64 - fill
      modifies this`buf, input
      ensures at == 64 - fill && |message + data[..at]| % 64 == 0
      ensures buf == Fold(compress, INIT, message + data[..at])
    {
      hide Fold;
      ghost var done := message[..Whole(|message|)];
      at := 64 - fill;
      Copy(fill, data[..at]);
      assert input[..] == input[..fill + at];
      Filled(message, data, at, input[..]);
      Transform(done);
    }

    /** The loop of `cs_md5_update`. */
    method WholeBlocks(data: seq<byte>, start: nat, ghost was: seq<byte>) returns (at: nat)
      requires input.Length == 64 && start <= |data| && |was + data[..start]| % 64 == 0
      requires buf == Fold(compress, INIT, was + data[..start])
      modifies this`buf, input
      ensures start <= at <= |data| < at + 64 && |was + data[..at]| % 64 == 0
      ensures buf == Fold(compress, INIT, was + data[..at])
    {
      hide Fold;
      at := start;
      while |data| - at >= 64
        invariant start <= at <= |data| && |was + data[..at]| % 64 == 0
        invariant buf == Fold(compress, INIT, was + data[..at])
      {
        var block := data[at..at + 64];
        Copy(0, block);
        assert input[..] == input[..64] == [] + block == block;
        Transform(was + data[..at]);
        OneBlockOn(was, data, at);
        at := at + 64;
      }
    }

    /** The end of `cs_md5_update`: what is no whole block stays in `input`. */
    method Keep(data: seq<byte>, at: nat, ghost was: seq<byte>)
      requires input.Length == 64 && at <= |data| < at + 64 && |was + data[..at]| % 64 == 0
      requires buf == Fold(compress, INIT, was + data[..at])
      modifies input
      ensures Absorbed(was + data)
    {
      hide Fold;
      Copy(0, data[at..]);
      Remaining(was, data, at);
      assert input[..|data| - at] == [] + data[at..];
    }

    /** `cs_md5_update` behind the count. */
    method Absorb(data: seq<byte>, fill: nat)
      requires Absorbed(message) && fill == |message| % 64
      modifies this`buf, input
      ensures Absorbed(message + data)
    {
      hide Fold, Whole;
      var at := 0;
      if fill == 0 {
        NothingFilled(message, data);
      } else if |data| < 64 - fill {
        StillFits(message, data);
        Copy(fill, data);
        return;
      } else {
        at := FillBlock(data, fill);
      }
      at := WholeBlocks(data, at, message);
      Keep(data, at, message);
    }

    /** `cs_md5_update`. */
    method Update(data: seq<byte>)
      requires Valid()
      modifies this, input
      ensures Valid() && message == old(message) + data
      ensures Bits() == (old(Bits()) + 8 * (|data| % U32)) % U64
    {
      hide Absorbed;
      SameFill(|message|, |data|);
      var fill := Count(|data|);
      Absorb(data, fill);
      message := message + data;
    }

    /** `cs_md5_final` up to the count: all but the last 8 bytes of the padded message are
        in `done`, whose blocks are in the state, and in `input`. */
    method Pad() returns (ghost done: seq<byte>)
      requires Valid()
      modifies this`buf, input
      ensures |done| % 64 == 0 && buf == Fold(compress, INIT, done)
      ensures done + input[..56] == Unfinished(message)
    {
      hide Fold;
      var count := bits0 / 8 % 64;
      done := message[..Whole(|message|)];
      ghost var rest := message[Whole(|message|)..];
      Copy(count, [0x80]);
      count := 64 - 1 - count;
      if count < 8 {
        Copy(64 - count, Zeros(count));
        assert input[..] == input[..64] == rest + [0x80] + Zeros(count);
        Transform(done);
        done := done + (rest + [0x80] + Zeros(count));
        Copy(0, Zeros(56));
        assert input[..56] == [] + Zeros(56) == Zeros(56);
        TwoBlocks(message, done, rest, count);
      } else {
        Copy(64 - count, Zeros(count - 8));
        assert input[..56] == rest + [0x80] + Zeros(count - 8);
        OneBlock(message, done, rest, count);
      }
    }

    /** `cs_md5_final`. */
    method Final() returns (digest: seq<byte>)
      requires Valid()
      modifies this, input
      ensures digest == DigestOf(compress, old(message), old(Bits()))
    {
      hide Fold, LE32;
      ghost var done := Pad();
      ghost var head := input[..56];
      Copy(56, CountBytes(bits0, bits1));
      assert input[..] == input[..64] == head + CountBytes(bits0, bits1);
      Transform(done);
      CountSplits(bits0, bits1);
      assert done + (head + CountBytes(bits0, bits1)) == (done + head) + CountBytes(bits0, bits1);
      digest := DigestBytes(buf);
    }
  }

  function CountBytes(low: nat, high: nat): (r: seq<byte>)
    ensures |r| == 8
  {
    LE32(low) + LE32(high)
  }

  lemma CountSplits(low: nat, high: nat)
    requires low < U32 && high < U32
    ensures CountBytes(low, high) == LE32(high * U32 + low) + LE32((high * U32 + low) / U32)
  {
    Remainder(high, low);
    SameBytes(low, high);
  }

  lemma SameBytes(low: nat, high: nat)
    ensures LE32(high * U32 + low) == LE32(low)
  {
    var n := high * U32 + low;
    assert n / 0x100 == high * 0x100_0000 + low / 0x100;
    assert n / 0x1_0000 == high * 0x1_0000 + low / 0x1_0000;
    assert n / 0x100_0000 == high * 0x100 + low / 0x100_0000;
    LastByte(high * 0x100_0000, low);
    LastByte(high * 0x1_0000, low / 0x100);
    LastByte(high * 0x100, low / 0x1_0000);
    LastByte(high, low / 0x100_0000);
  }

  lemma LastByte(k: nat, x: nat)
    ensures (k * 256 + x) % 256 == x % 256
  {
  }

  /** Without the count. */
  function Unfinished(message: seq<byte>): seq<byte> {
    message + [0x80] + Zeros((119 - |message| % 64) % 64)
  }

  lemma TwoBlocks(message: seq<byte>, done: seq<byte>, rest: seq<byte>, count: nat)
    requires |rest| == |message| % 64 && count == 63 - |rest| < 8
    requires done == message[..Whole(|message|)] + (rest + [0x80] + Zeros(count)) && rest == message[Whole(|message|)..]
    ensures |done| % 64 == 0 && done + Zeros(56) == Unfinished(message)
  {
    assert message[..Whole(|message|)] + rest == message;
    assert Zeros(count) + Zeros(56) == Zeros(count + 56);
  }

  lemma OneBlock(message: seq<byte>, done: seq<byte>, rest: seq<byte>, count: nat)
    requires |rest| == |message| % 64 && count == 63 - |rest| && count >= 8
    requires done == message[..Whole(|message|)] && rest == message[Whole(|message|)..]
    ensures done + (rest + [0x80] + Zeros(count - 8)) == Unfinished(message)
  {
    assert done + rest == message;
  }

  lemma TwoSteps(high: nat, top: nat)
    ensures (high % U32 + top) % U32 == (high + top) % U32
  {
    var q := high / U32;
    assert high + top == q * U32 + (high % U32 + top);
    Multiples(q, high % U32 + top);
  }

  lemma FillIsRight(low: nat, len: nat)
    ensures (low + len * 8) % U32 / 8 % 64 == (low / 8 % 64 + len) % 64
  {
    var t := low + len * 8;
    EighthOf(t);
    assert t / 8 == low / 8 + len;
    SameFill(low / 8, len);
  }

  lemma EighthOf(t: nat)
    ensures t % U32 / 8 % 64 == t / 8 % 64
  {
    var q, r := t / U32, t % U32;
    var a, b := r / 8, r % 8;
    assert t == 8 * (0x2000_0000 * q + a) + b;
    assert t / 8 == 64 * (0x80_0000 * q) + a;
    SameRest(0x80_0000 * q, a);
  }

  lemma OneBlockOn(was: seq<byte>, data: seq<byte>, at: nat)
    requires at + 64 <= |data| && |was + data[..at]| % 64 == 0
    ensures (was + data[..at]) + data[at..at + 64] == was + data[..at + 64] && |was + data[..at + 64]| % 64 == 0
  {
    SameFill(|was| + at, 64);
  }

  lemma SameRest(k: nat, a: nat)
    ensures (64 * k + a) % 64 == a % 64
  {
  }

  lemma SameFill(a: nat, b: nat)
    ensures (a % 64 + b) % 64 == (a + b) % 64
  {
    assert a == 64 * (a / 64) + a % 64;
    SameRest(a / 64, a % 64 + b);
  }

  lemma StillFits(was: seq<byte>, data: seq<byte>)
    requires |data| < 64 - |was| % 64
    ensures Whole(|was + data|) == Whole(|was|) && |was + data| % 64 == |was| % 64 + |data|
    ensures (was + data)[..Whole(|was|)] == was[..Whole(|was|)]
    ensures (was + data)[Whole(|was|)..] == was[Whole(|was|)..] + data
  {
  }

  lemma Filled(was: seq<byte>, data: seq<byte>, t: nat, block: seq<byte>)
    requires t == 64 - |was| % 64 <= |data| && block == was[Whole(|was|)..] + data[..t]
    ensures was[..Whole(|was|)] + block == was + data[..t]
  {
    assert was == was[..Whole(|was|)] + was[Whole(|was|)..];
  }

  lemma NothingFilled(was: seq<byte>, data: seq<byte>)
    requires |was| % 64 == 0
    ensures was[..Whole(|was|)] == was == was + data[..0]
  {
  }

  lemma Remaining(was: seq<byte>, data: seq<byte>, at: nat)
    requires at <= |data| && |was + data[..at]| % 64 == 0 && |data| - at < 64
    ensures Whole(|was + data|) == |was| + at && |was + data| % 64 == |data| - at
    ensures (was + data)[..|was| + at] == was + data[..at]
    ensures (was + data)[|was| + at..] == data[at..]
  {
  }

  // ---------------------------------------------------------------------------
  // mg_hash_md5_v

  /** What the bit counter says after updates with these pieces. */
  function Counted(pieces: seq<seq<byte>>): (r: nat)
    ensures r < U64
  {
    if pieces == [] then 0
    else (Counted(pieces[..|pieces| - 1]) + 8 * (|pieces[|pieces| - 1]| % U32)) % U64
  }

  /** Pieces below 2^32 bytes are counted right, however many there are. */
  lemma {:induction false} CountedIsLength(pieces: seq<seq<byte>>)
    requires forall i :: 0 <= i < |pieces| ==> |pieces[i]| < U32
    ensures Counted(pieces) == 8 * |Concat(pieces)| % U64
    decreases |pieces|
  {
    hide Concat;
    if pieces == [] {
      NoPieces();
    } else {
      var n := |pieces| - 1;
      CountedIsLength(pieces[..n]);
      ConcatSnoc(pieces, n);
      assert pieces[..n + 1] == pieces;
      var a, b := |Concat(pieces[..n])|, |pieces[n]|;
      assert b % U32 == b && |Concat(pieces)| == a + b;
      AddModulo(8 * a, 8 * b);
    }
  }

  lemma NoPieces()
    ensures Concat([]) == []
  {
  }

  lemma AddModulo(a: nat, b: nat)
    ensures (a % U64 + b) % U64 == (a + b) % U64
  {
    assert a + b == a / U64 * U64 + (a % U64 + b);
    var q, x := a / U64, a % U64 + b;
    assert x == x / U64 * U64 + x % U64;
    assert (q * U64 + x) == (q + x / U64) * U64 + x % U64;
  }

  /** Hashing pieces one after the other gives the digest of their concatenation, so where
      the cuts are makes no difference. */
  method HashV(compress: Compression, pieces: seq<seq<byte>>) returns (digest: seq<byte>)
    ensures digest == DigestOf(compress, Concat(pieces), Counted(pieces))
    ensures (forall i :: 0 <= i < |pieces| ==> |pieces[i]| < U32) ==> digest == Digest(compress, Concat(pieces))
  {
    hide Fold, Padded, Counted, Concat, DigestOf;
    var c := new Context(compress);
    assert pieces[..0] == [];
    NothingHashed();
    for i := 0 to |pieces|
      invariant c.Valid() && fresh(c) && fresh(c.input) && c.compress == compress
      invariant c.message == Concat(pieces[..i]) && c.Bits() == Counted(pieces[..i])
    {
      ConcatSnoc(pieces, i);
      CountedSnoc(pieces, i);
      c.Update(pieces[i]);
    }
    assert pieces[..|pieces|] == pieces;
    digest := c.Final();
    if forall i :: 0 <= i < |pieces| ==> |pieces[i]| < U32 {
      CountedIsLength(pieces);
    }
  }

  lemma CountedSnoc(pieces: seq<seq<byte>>, i: nat)
    requires i < |pieces|
    ensures Counted(pieces[..i + 1]) == (Counted(pieces[..i]) + 8 * (|pieces[i]| % U32)) % U64
  {
    assert pieces[..i + 1][..i] == pieces[..i] && pieces[..i + 1][i] == pieces[i];
  }

  lemma NothingHashed()
    ensures Concat([]) == [] && Counted([]) == 0
  {
  }

  /** One update with a message of 2^32 bytes or more loses count: what is hashed is padded
      with a wrong length (up to 2^61 bytes, where RFC 1321 itself goes back to 0). */
  lemma LongMessage(message: seq<byte>)
    requires |message| < 0x2000_0000_0000_0000
    ensures Padded(message, Counted([message])) == Padded(message, 8 * |message| % U64) <==> |message| < U32
  {
    var c, d := Counted([message]), 8 * |message| % U64;
    assert [message][..0] == [] && Counted([]) == 0;
    CountsShortUpdates(0, |message|);
    if Padded(message, c) == Padded(message, d) {
      var n := |Padded(message, c)| - 8;
      assert Padded(message, c)[n..] == LE32(c) + LE32(c / U32);
      assert Padded(message, d)[n..] == LE32(d) + LE32(d / U32);
      CountReadBack(c, d);
    }
  }

  lemma CountReadBack(c: nat, d: nat)
    requires c < U64 && d < U64 && LE32(c) + LE32(c / U32) == LE32(d) + LE32(d / U32)
    ensures c == d
  {
    hide LE32;
    var x, y := LE32(c) + LE32(c / U32), LE32(d) + LE32(d / U32);
    assert x[..4] == LE32(c) && x[4..] == LE32(c / U32) && y[..4] == LE32(d) && y[4..] == LE32(d / U32);
    WordReadBack(c, d);
    WordReadBack(c / U32, d / U32);
    assert c == c / U32 * U32 + c % U32 && d == d / U32 * U32 + d % U32;
  }

  lemma WordReadBack(c: nat, d: nat)
    requires LE32(c) == LE32(d)
    ensures c % U32 == d % U32
  {
    WordValue(c);
    WordValue(d);
  }

  lemma WordValue(c: nat)
    ensures
      var w := LE32(c);
      c % U32 == w[0] as int + 0x100 * w[1] as int + 0x1_0000 * w[2] as int + 0x100_0000 * w[3] as int
  {
    var a, b, e := c / 0x100, c / 0x1_0000, c / 0x100_0000;
    assert a / 0x100 == b && b / 0x100 == e;
    assert c == 0x100 * a + c % 0x100 && a == 0x100 * b + a % 0x100 && b == 0x100 * e + b % 0x100
      && e == 0x100 * (e / 0x100) + e % 0x100;
    assert e / 0x100 == c / U32;
  }
}
