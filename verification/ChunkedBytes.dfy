/** Chunked bodies as bytes: what a chunk written with any hexadecimal digits is read as. */
module ChunkedBytes {
  import opened Options
  import opened Bytes
  import opened Chunked

  const UPPER := "0123456789ABCDEF"
  const LOWER := "0123456789abcdef"

  /** The byte is the hexadecimal digit for `d`, in upper or lower case. */
  predicate DigitFor(b: byte, d: nat) {
    d < 16 && (b == UPPER[d] as int || b == LOWER[d] as int)
  }

  lemma UpperAt(d: nat)
    requires d < 16
    ensures UPPER[d] as int == if d < 10 then 48 + d else 55 + d
  {
  }

  lemma LowerAt(d: nat)
    requires d < 16
    ensures LOWER[d] as int == if d < 10 then 48 + d else 87 + d
  {
  }

  /** The digits that are read are those of both strings, and no other bytes. */
  lemma DigitRead(b: byte, d: nat)
    ensures HexValue(b) == Some(d) <==> DigitFor(b, d)
  {
    if d < 16 {
      UpperAt(d);
      LowerAt(d);
    }
  }

  /** Hexadecimal digits, the first one weighs most. */
  predicate Numeral(text: seq<byte>, digits: seq<nat>) {
    |text| == |digits| && forall k :: 0 <= k < |text| ==> DigitFor(text[k], digits[k])
  }

  function Base16(digits: seq<nat>): nat {
    if digits == [] then 0 else Base16(digits[..|digits| - 1]) * 16 + digits[|digits| - 1]
  }

  lemma {:induction false} NumeralRead(s: seq<byte>, digits: seq<nat>, i: nat)
    requires i <= |digits| < |s| && i <= 6 && Numeral(s[..|digits|], digits)
    requires HexValue(s[|digits|]).None?
    ensures HexNumber(s, i, Base16(digits[..i])) == if |digits| > 6 then None else Some((|digits|, Base16(digits)))
    decreases |digits| - i
  {
    hide HexValue, DigitFor;
    if i < |digits| {
      assert s[i] == s[..|digits|][i];
      DigitRead(s[i], digits[i]);
      NumberStep(s, i, Base16(digits[..i]), digits[i]);
      assert digits[..i + 1][..i] == digits[..i];
      if i < 6 { NumeralRead(s, digits, i + 1); }
    } else {
      assert digits[..i] == digits;
    }
  }

  /** A chunk: its size in one to six digits of either case, a new line, the data and a new line. */
  function Framed(text: seq<byte>, data: seq<byte>): seq<byte> {
    text + ([13, 10] + (data + [13, 10]))
  }

  lemma FramedParts(text: seq<byte>, data: seq<byte>, tail: seq<byte>)
    ensures
      var s, k, n := Framed(text, data) + tail, |text|, |data|;
      && |s| == k + n + 4 + |tail| && s[..k] == text && NewLineAt(s, k) && s[k + 2..k + 2 + n] == data
      && NewLineAt(s, k + 2 + n) && s[k + 2 + n + 2..] == tail && HexValue(s[k]).None?
  {
    ChunkParts(text, data, tail);
    assert Framed(text, data) + tail == text + ([CR, LF] + (data + [CR, LF])) + tail;
  }

  lemma ParsedWhole(text: seq<byte>, digits: seq<nat>, data: seq<byte>, tail: seq<byte>)
    requires Numeral(text, digits) && digits != [] && |data| == Base16(digits)
    ensures
      var s, c := Framed(text, data) + tail, Chunk(|text| + 2, |data|, |Framed(text, data)|);
      && ParseChunk(s) == (if |digits| > 6 then None else Some(c))
      && s[c.at..c.at + c.size] == data && s[c.total..] == tail
  {
    hide Numeral, HexValue, NewLineAt;
    FramedParts(text, data, tail);
    SameLength(text, digits);
    NumeralRead(Framed(text, data) + tail, digits, 0);
    assert digits[..0] == [] && Base16([]) == 0;
  }

  /** Its data is what is read, whatever the case of the digits; more than six are refused. */
  lemma ChunkRead(text: seq<byte>, digits: seq<nat>, data: seq<byte>, tail: seq<byte>)
    requires Numeral(text, digits) && digits != [] && |data| == Base16(digits)
    ensures
      var s, later := Framed(text, data) + tail, Collapse(tail);
      Collapse(s) ==
        if |digits| > 6 then Body([], s, false)
        else if data == [] then Body([], tail, true)
        else Body(data + later.data, later.rest, later.complete)
  {
    hide Numeral, ParseChunk, Base16, Framed;
    ParsedWhole(text, digits, data, tail);
  }

  lemma SameLength(text: seq<byte>, digits: seq<nat>)
    requires Numeral(text, digits)
    ensures |text| == |digits|
  {
  }

  /** A chunk that has not arrived completely is left where it is. */
  lemma PartWaits(text: seq<byte>, digits: seq<nat>, data: seq<byte>, n: nat)
    requires Numeral(text, digits) && 0 < |digits| <= 6 && |data| == Base16(digits) && n < |Framed(text, data)|
    ensures Collapse(Framed(text, data)[..n]) == Body([], Framed(text, data)[..n], false)
  {
    hide HexNumber, HexValue, Numeral, Base16;
    var w := Framed(text, data);
    var part, k := w[..n], |text|;
    assert w[..k] == text;
    assert w == part + w[n..] && part + w[n..] + [] == w;
    if ParseChunk(part).Some? {
      ChunkStays(part, w[n..]);
      assert w + [] == w;
      ParsedWhole(text, digits, data, []);
    }
  }

  function DigitsOf(n: nat): (r: seq<nat>) {
    if n < 16 then [n] else DigitsOf(n / 16) + [n % 16]
  }

  lemma {:induction false} TextWritten(n: nat)
    ensures Numeral(HexText(n), DigitsOf(n)) && Base16(DigitsOf(n)) == n
    ensures forall k :: 0 <= k < |HexText(n)| ==> HexText(n)[k] == UPPER[DigitsOf(n)[k]] as int
    ensures n > 0 ==> DigitsOf(n)[0] > 0
  {
    hide UPPER, LOWER;
    WrittenDigit(n % 16);
    var ds := DigitsOf(n);
    if n >= 16 {
      TextWritten(n / 16);
      assert ds[..|ds| - 1] == DigitsOf(n / 16);
    } else {
      assert ds[..0] == [];
    }
  }

  lemma WrittenDigit(d: nat)
    requires d < 16
    ensures HexDigit(d) == UPPER[d] as int
  {
    UpperAt(d);
  }

  /** What is sent of a piece is a chunk with its size in upper-case digits, none of them a leading 0. */
  lemma ChunkWritten(piece: seq<byte>)
    ensures exists text: seq<byte>, digits ::
      && Numeral(text, digits) && digits != [] && Base16(digits) == |piece| && ChunkBytes(piece) == Framed(text, piece)
      && (forall k :: 0 <= k < |text| ==> text[k] == UPPER[digits[k]] as int) && (piece != [] ==> digits[0] > 0)
  {
    hide Numeral, HexText, DigitsOf, Base16, UPPER;
    TextWritten(|piece|);
    ChunkIs(piece, []);
    var text, digits := HexText(|piece|), DigitsOf(|piece|);
    SameLength(text, digits);
    assert ChunkBytes(piece) + [] == ChunkBytes(piece) && Framed(text, piece) + [] == Framed(text, piece);
    assert ChunkBytes(piece) == Framed(text, piece);
  }
}
