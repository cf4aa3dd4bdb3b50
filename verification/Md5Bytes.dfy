/** What MD5 pads a message to and how its words are written, byte by byte (RFC 1321). */
module Md5Bytes {
  import opened Bytes
  import opened Md5

  /** The number bytes stand for, the first one weighing least. */
  function LittleEndian(s: seq<byte>): nat {
    if s == [] then 0 else s[0] as nat + 256 * LittleEndian(s[1..])
  }

  lemma WordIs(n: nat)
    requires n < U32
    ensures LittleEndian(LE32(n)) == n
  {
    var w := LE32(n);
    var a, b, c := n / 256, n / 65536, n / 16777216;
    assert a == b * 256 + a % 256 && b == c * 256 + b % 256 && c < 256;
    assert w[1..][1..] == w[2..] && w[2..][1..] == w[3..] && w[3..][1..] == [];
    assert LittleEndian(w[3..]) == c && LittleEndian(w[2..]) == b && LittleEndian(w[1..]) == a;
  }

  lemma {:induction false} LittleEndianJoin(a: seq<byte>, b: seq<byte>)
    ensures LittleEndian(a + b) == LittleEndian(a) + Power256(|a|) * LittleEndian(b)
  {
    if a == [] {
      assert a + b == b;
    } else {
      assert (a + b)[0] == a[0] && (a + b)[1..] == a[1..] + b;
      LittleEndianJoin(a[1..], b);
      Distributed(LittleEndian(a[1..]), Power256(|a| - 1), LittleEndian(b));
    }
  }

  lemma Distributed(x: nat, p: nat, y: nat)
    ensures 256 * (x + p * y) == 256 * x + (p * 256) * y
  {
  }

  /** The padded message: a one bit, as few zeros as make whole blocks, and eight bytes with the
      number of bits. */
  lemma PaddedIs(message: seq<byte>, count: nat) returns (zeros: nat, size: seq<byte>)
    requires count < U64
    ensures Padded(message, count) == message + [0x80] + seq(zeros, i => 0) + size
    ensures zeros < 64 && |size| == 8 && LittleEndian(size) == count && |Padded(message, count)| % 64 == 0
  {
    zeros := (119 - |message| % 64) % 64;
    size := LE32(count) + LE32(count / U32);
    var low := count % U32;
    SameLow(count);
    WordIs(low);
    WordIs(count / U32);
    LittleEndianJoin(LE32(count), LE32(count / U32));
    assert Power256(4) == U32 by { assert Power256(2) == 65536; }
    assert count == low + U32 * (count / U32);
    assert Zeros(zeros) == seq(zeros, i => 0);
  }

  /** The higher bits of a number do not show in the low word. */
  lemma SameLow(n: nat)
    ensures LE32(n) == LE32(n % U32)
  {
    var q, r := n / U32, n % U32;
    assert n == U32 * q + r;
    LowPart(q * 16777216, r, 256);
    assert n / 256 == 16777216 * q + r / 256;
    assert n / 65536 == 65536 * q + r / 65536;
    assert n / 16777216 == 256 * q + r / 16777216;
    LowPart(q * 65536, r / 256, 256);
    LowPart(q * 256, r / 65536, 256);
    LowPart(q, r / 16777216, 256);
  }

  lemma LowPart(q: nat, r: nat, m: nat)
    requires m == 256
    ensures (256 * q + r) % m == r % m
  {
  }

  /** The state MD5 starts with is the bytes 01 23 45 67 up to ef, and down again; words are written
      with their low byte first, in their order. */
  lemma StartIs()
    ensures DigestBytes(INIT) == [0x01, 0x23, 0x45, 0x67, 0x89, 0xab, 0xcd, 0xef,
                                  0xfe, 0xdc, 0xba, 0x98, 0x76, 0x54, 0x32, 0x10]
  {
  }

  /** A message of at most 55 bytes is one block. */
  lemma OneBlockDigest(compress: Compression, message: seq<byte>)
    requires |message| <= 55
    ensures
      var block := message + [0x80] + seq(55 - |message|, i => 0)
        + [8 * |message| % 256, 8 * |message| / 256, 0, 0, 0, 0, 0, 0];
      Digest(compress, message) == DigestBytes(compress(INIT, block))
  {
    hide LE32, Zeros, Fold;
    var n := 8 * |message|;
    var zeros := 55 - |message|;
    var block := message + [0x80] + seq(zeros, i => 0) + [n % 256, n / 256, 0, 0, 0, 0, 0, 0];
    SizeBytes(n);
    assert Zeros(zeros) == seq(zeros, i => 0);
    assert Padded(message, n) == block;
    OneBlockFolded(compress, block);
  }

  lemma SizeBytes(n: nat)
    requires n < 65536
    ensures LE32(n) + LE32(n / U32) == [n % 256, n / 256, 0, 0, 0, 0, 0, 0]
  {
  }

  lemma OneBlockFolded(compress: Compression, block: seq<byte>)
    requires |block| == 64
    ensures Fold(compress, INIT, block) == compress(INIT, block)
  {
    assert block[..64] == block && block[64..] == [];
    assert Fold(compress, INIT, block) == Fold(compress, compress(INIT, block), []);
  }
}
