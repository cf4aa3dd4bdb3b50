/** What a string literal of RFC 8259 section 7 means, piece by piece, and that it is what cJSON
    reads and writes. */
module JsonLiterals {
  import opened Options
  import opened Json
  import opened JsonStrings

  /** The letters behind a backslash and the bytes they stand for. */
  const LETTERS := "\"\\/bfnrt"
  const VALUES: seq<nat> := [0x22, 0x5c, 0x2f, 8, 12, 10, 13, 9]

  /** A backslash and a letter. */
  predicate ShortEscape(t: string, meaning: string) {
    |t| == 2 && t[0] == '\\' && exists k: nat | k < 8 :: t[1] == LETTERS[k] && meaning == [VALUES[k] as char]
  }

  /** The escape of a code point, which is kept in UTF-8. */
  ghost predicate LongEscape(t: string, meaning: string) {
    exists cp: nat ::
      CodePoint(cp) && |t| == (if cp < 0x1_0000 then 6 else 12) && EscapeOf(t, 0, cp) && meaning == Utf8(cp)
  }

  /** A character as it is. */
  predicate Plain(t: string, meaning: string) {
    |t| == 1 && t[0] != '"' && t[0] != '\\' && meaning == t
  }

  datatype Piece = Piece(text: string, meaning: string)

  ghost predicate Means(p: Piece) {
    Plain(p.text, p.meaning) || ShortEscape(p.text, p.meaning) || LongEscape(p.text, p.meaning)
  }

  function TextOf(ps: seq<Piece>): string {
    if ps == [] then "" else ps[0].text + TextOf(ps[1..])
  }

  function MeaningOf(ps: seq<Piece>): string {
    if ps == [] then "" else ps[0].meaning + MeaningOf(ps[1..])
  }

  // ---------------------------------------------------------------------------
  // One piece

  lemma PieceAt(s: string, p: nat, t: string, k: nat)
    requires IsTextAt(s, p, t) && k < |t|
    ensures p + k < |s| && s[p + k] == t[k]
  {
  }

  lemma UnitThere(s: string, p: nat, t: string, k: nat, unit: nat)
    requires IsTextAt(s, p, t) && UnitAt(t, k, unit)
    ensures UnitAt(s, p + k, unit)
  {
    hide DigitIs;
    PieceAt(s, p, t, k);
    PieceAt(s, p, t, k + 1);
    PieceAt(s, p, t, k + 2);
    PieceAt(s, p, t, k + 3);
    PieceAt(s, p, t, k + 4);
    PieceAt(s, p, t, k + 5);
  }

  /** The first pass goes over an escape. */
  lemma OverUnit(s: string, p: nat, unit: nat)
    requires UnitAt(s, p, unit)
    ensures StringEnd(s, p) == StringEnd(s, p + 6)
  {
    hide StringEnd;
    DigitNoQuote(s[p + 2], unit / 4096);
    DigitNoQuote(s[p + 3], unit / 256 % 16);
    DigitNoQuote(s[p + 4], unit / 16 % 16);
    DigitNoQuote(s[p + 5], unit % 16);
    SkipPair(s, p);
    SkipOne(s, p + 2);
    SkipOne(s, p + 3);
    SkipOne(s, p + 4);
    SkipOne(s, p + 5);
  }

  lemma DigitNoQuote(c: char, d: nat)
    requires DigitIs(c, d)
    ensures c != '"' && c != '\\'
  {
    assert '"' !in UPPER && '\\' !in UPPER && '"' !in LOWER && '\\' !in LOWER;
  }

  lemma SkipPair(s: string, p: nat)
    requires p + 1 < |s| && s[p] == '\\'
    ensures StringEnd(s, p) == StringEnd(s, p + 2)
  {
  }

  lemma SkipOne(s: string, p: nat)
    requires p < |s| && s[p] != '\\' && s[p] != '"'
    ensures StringEnd(s, p) == StringEnd(s, p + 1)
  {
  }

  lemma EndBehindPiece(s: string, p: nat, piece: Piece)
    requires Means(piece) && IsTextAt(s, p, piece.text)
    ensures StringEnd(s, p) == StringEnd(s, p + |piece.text|)
  {
    hide StringEnd, UnitAt, IsTextAt;
    var t := piece.text;
    if Plain(t, piece.meaning) {
      PieceAt(s, p, t, 0);
      SkipOne(s, p);
    } else if ShortEscape(t, piece.meaning) {
      PieceAt(s, p, t, 0);
      PieceAt(s, p, t, 1);
      SkipPair(s, p);
    } else {
      var cp: nat :| CodePoint(cp) && |t| == (if cp < 0x1_0000 then 6 else 12) && EscapeOf(t, 0, cp)
        && piece.meaning == Utf8(cp);
      if cp < 0x1_0000 {
        UnitThere(s, p, t, 0, cp);
        OverUnit(s, p, cp);
      } else {
        UnitThere(s, p, t, 0, 0xD800 + (cp - 0x1_0000) / 1024);
        UnitThere(s, p, t, 6, 0xDC00 + (cp - 0x1_0000) % 1024);
        OverUnit(s, p, 0xD800 + (cp - 0x1_0000) / 1024);
        OverUnit(s, p + 6, 0xDC00 + (cp - 0x1_0000) % 1024);
      }
    }
  }

  lemma ShortMeans(c: char, k: nat)
    requires k < 8 && c == LETTERS[k]
    ensures c != 'u' && Unescaped(c) == Some(VALUES[k] as char)
  {
  }

  /** The second pass decodes it. */
  lemma DecodesPiece(s: string, p: nat, piece: Piece, end: nat)
    requires Means(piece) && IsTextAt(s, p, piece.text) && p + |piece.text| <= end < |s|
    ensures Unescape(s, p, end) == Prepend(piece.meaning, Unescape(s, p + |piece.text|, end))
  {
    hide UnitAt, IsTextAt, Unescaped;
    var t := piece.text;
    PieceAt(s, p, t, 0);
    if Plain(t, piece.meaning) {
      assert [s[p]] == t;
    } else if ShortEscape(t, piece.meaning) {
      PieceAt(s, p, t, 1);
      var k: nat :| k < 8 && t[1] == LETTERS[k] && piece.meaning == [VALUES[k] as char];
      ShortMeans(t[1], k);
      UnescapePair(s, p, VALUES[k] as char, end);
    } else {
      LongDecodes(s, p, piece, end);
    }
  }

  lemma LongDecodes(s: string, p: nat, piece: Piece, end: nat)
    requires LongEscape(piece.text, piece.meaning) && IsTextAt(s, p, piece.text) && p + |piece.text| <= end < |s|
    ensures Unescape(s, p, end) == Prepend(piece.meaning, Unescape(s, p + |piece.text|, end))
  {
    hide UnitAt, IsTextAt, Unescaped, Utf16, Utf8;
    var t := piece.text;
    var cp: nat :| CodePoint(cp) && |t| == (if cp < 0x1_0000 then 6 else 12) && EscapeOf(t, 0, cp)
      && piece.meaning == Utf8(cp);
    if cp < 0x1_0000 {
      UnitThere(s, p, t, 0, cp);
    } else {
      UnitThere(s, p, t, 0, 0xD800 + (cp - 0x1_0000) / 1024);
      UnitThere(s, p, t, 6, 0xDC00 + (cp - 0x1_0000) % 1024);
    }
    EscapeDecodes(s, p, end, cp);
    UnitStarts(s, p);
  }

  lemma UnitStarts(s: string, p: nat)
    ensures forall unit :: UnitAt(s, p, unit) ==> s[p] == '\\' && s[p + 1] == 'u'
  {
  }

  // ---------------------------------------------------------------------------
  // A literal

  lemma {:induction false} EndOfPieces(s: string, p: nat, ps: seq<Piece>)
    requires (forall i :: 0 <= i < |ps| ==> Means(ps[i])) && IsTextAt(s, p, TextOf(ps) + "\"")
    ensures StringEnd(s, p) == Some(p + |TextOf(ps)|)
    decreases |ps|
  {
    hide Means, IsTextAt;
    if ps == [] {
      assert "" + "\"" == "\"";
      PieceAt(s, p, "\"", 0);
    } else {
      assert TextOf(ps) + "\"" == ps[0].text + (TextOf(ps[1..]) + "\"");
      TextAtSplit(s, p, ps[0].text, TextOf(ps[1..]) + "\"");
      EndBehindPiece(s, p, ps[0]);
      EndOfPieces(s, p + |ps[0].text|, ps[1..]);
    }
  }

  lemma {:induction false} DecodesPieces(s: string, p: nat, ps: seq<Piece>, end: nat)
    requires (forall i :: 0 <= i < |ps| ==> Means(ps[i])) && IsTextAt(s, p, TextOf(ps)) && end == p + |TextOf(ps)| < |s|
    ensures Unescape(s, p, end) == Ok(MeaningOf(ps), end)
    decreases |ps|
  {
    hide Means, IsTextAt;
    if ps != [] {
      TextAtSplit(s, p, ps[0].text, TextOf(ps[1..]));
      DecodesPieces(s, p + |ps[0].text|, ps[1..], end);
      DecodesPiece(s, p, ps[0], end);
    }
  }

  /** Every literal is read as what its pieces mean, up to the first NUL, and to its closing quote. */
  lemma LiteralMeans(s: string, i: nat, ps: seq<Piece>)
    requires (forall k :: 0 <= k < |ps| ==> Means(ps[k])) && IsTextAt(s, i, "\"" + TextOf(ps) + "\"")
    ensures i < |s| && ParseString(s, i) == Ok(CString(MeaningOf(ps)), i + |TextOf(ps)| + 2)
  {
    hide Means, IsTextAt, StringEnd, Unescape;
    assert "\"" + TextOf(ps) + "\"" == "\"" + (TextOf(ps) + "\"");
    TextAtSplit(s, i, "\"", TextOf(ps) + "\"");
    PieceAt(s, i, "\"", 0);
    EndOfPieces(s, i + 1, ps);
    TextAtSplit(s, i + 1, TextOf(ps), "\"");
    PieceAt(s, i + 1 + |TextOf(ps)|, "\"", 0);
    DecodesPieces(s, i + 1, ps, i + 1 + |TextOf(ps)|);
  }

  /** A backslash with any other letter is refused. */
  lemma RefusedEscape(s: string, p: nat, end: nat)
    requires p + 1 < end < |s| && s[p] == '\\' && s[p + 1] != 'u' && s[p + 1] !in LETTERS
    ensures Unescape(s, p, end) == Fail(p)
  {
    var c := s[p + 1];
    assert LETTERS[0] == '"' && LETTERS[1] == '\\' && LETTERS[2] == '/' && LETTERS[3] == 'b' && LETTERS[4] == 'f';
    assert LETTERS[5] == 'n' && LETTERS[6] == 'r' && LETTERS[7] == 't';
  }

  /** Half a surrogate pair is refused: the second half alone, or the first one without the second
      behind it. */
  lemma HalfPairRefused(s: string, p: nat, end: nat, unit: nat, low: nat)
    requires UnitAt(s, p, unit) && p + 6 <= end < |s| && 0xD800 <= unit <= 0xDFFF
    requires unit >= 0xDC00 || end < p + 12 || s[p + 6] != '\\' || s[p + 7] != 'u'
          || (UnitAt(s, p + 6, low) && !(0xDC00 <= low <= 0xDFFF))
    ensures Unescape(s, p, end) == Fail(p)
  {
    hide ParseHex4, Hex4Is;
    HexReads(s, p + 2, unit);
    if unit < 0xDC00 && end >= p + 12 && s[p + 6] == '\\' && s[p + 7] == 'u' {
      HexReads(s, p + 8, low);
    }
  }

  // ---------------------------------------------------------------------------
  // What is printed

  /** Every byte is written as a piece that means it, in visible characters: what RFC 8259 wants
      escaped is, and nothing else. */
  lemma EscapedIsPiece(c: char)
    requires c < '\U{0100}'
    ensures Means(Piece(EscapedChar(c), [c]))
    ensures c >= ' ' && c != '"' && c != '\\' ==> EscapedChar(c) == [c]
    ensures forall k :: 0 <= k < |EscapedChar(c)| ==> EscapedChar(c)[k] >= ' '
  {
    var e := EscapedChar(c);
    if Shorthand(c).Some? {
      ShortIsPiece(c);
    } else if c < ' ' {
      ControlIsPiece(c);
    }
  }

  lemma ShortIsPiece(c: char)
    requires Shorthand(c).Some?
    ensures ShortEscape(EscapedChar(c), [c]) && Shorthand(c).value >= ' '
  {
    var k: nat := match c
      case '"' => 0
      case '\\' => 1
      case '\U{0008}' => 3
      case '\U{000C}' => 4
      case '\n' => 5
      case '\r' => 6
      case _ => 7;
    assert EscapedChar(c)[1] == LETTERS[k] && c == VALUES[k] as char;
  }

  lemma ControlIsPiece(c: char)
    requires c < ' ' && Shorthand(c).None?
    ensures LongEscape(EscapedChar(c), [c]) && forall k :: 0 <= k < 6 ==> EscapedChar(c)[k] >= ' '
  {
    var e, cp := EscapedChar(c), c as nat;
    assert e == Hex(c) && Utf8(cp) == [c];
    assert cp / 4096 == 0 && cp / 256 % 16 == 0;
    HexCharIs(cp / 16 % 16);
    HexCharIs(cp % 16);
    assert EscapeOf(e, 0, cp);
  }

  lemma HexCharIs(d: nat)
    requires d < 16
    ensures HexChar(d) == LOWER[d] && DigitIs(HexChar(d), d) && HexChar(d) >= ' '
  {
  }

  // ---------------------------------------------------------------------------
  // The examples of the standards

  /** RFC 3629 section 7: "A<NOT IDENTICAL TO><ALPHA>." and a character beyond the basic plane. */
  lemma EncodedExamples()
    ensures Utf8(0x41) == "\U{41}" && Utf8(0x2262) == "\U{E2}\U{89}\U{A2}" && Utf8(0x391) == "\U{CE}\U{91}"
    ensures Utf8(0x233B4) == "\U{F0}\U{A3}\U{8E}\U{B4}"
  {
  }

  lemma DigitExample(c: char, d: nat)
    requires d < 16 && (c == UPPER[d] || c == LOWER[d])
    ensures DigitIs(c, d)
  {
  }

  lemma ClefExample()
    ensures LongEscape("\\uD834\\uDD1E", "\U{F0}\U{9D}\U{84}\U{9E}")
  {
    hide DigitIs;
    var t := "\\uD834\\uDD1E";
    DigitExample('D', 13);
    DigitExample('8', 8);
    DigitExample('3', 3);
    DigitExample('4', 4);
    DigitExample('1', 1);
    DigitExample('E', 14);
    assert UnitAt(t, 0, 0xD834) && UnitAt(t, 6, 0xDD1E);
    assert EscapeOf(t, 0, 0x1D11E) && Utf8(0x1D11E) == "\U{F0}\U{9D}\U{84}\U{9E}";
  }

  lemma AccentExample(t: string)
    requires t == "\\u00E9" || t == "\\u00e9"
    ensures LongEscape(t, "\U{C3}\U{A9}")
  {
    hide DigitIs;
    DigitExample('0', 0);
    DigitExample('9', 9);
    DigitExample('E', 14);
    DigitExample('e', 14);
    assert UnitAt(t, 0, 0xE9);
    assert EscapeOf(t, 0, 0xE9) && Utf8(0xE9) == "\U{C3}\U{A9}";
  }

  /** RFC 8259 section 7: the G clef is the pair D834 DD1E.  Digits may be of either case, and a slash
      may be escaped. */
  lemma EscapedExamples()
    ensures Means(Piece("\\uD834\\uDD1E", "\U{F0}\U{9D}\U{84}\U{9E}"))
    ensures Means(Piece("\\u00E9", "\U{C3}\U{A9}")) && Means(Piece("\\u00e9", "\U{C3}\U{A9}"))
    ensures Means(Piece("\\/", "/"))
  {
    hide LongEscape;
    ClefExample();
    AccentExample("\\u00E9");
    AccentExample("\\u00e9");
    assert LETTERS[2] == '/' && VALUES[2] == 0x2f && "/" == [VALUES[2] as char];
    assert ShortEscape("\\/", "/");
  }
}
