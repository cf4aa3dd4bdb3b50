/** String literals of JSON text: how cJSON escapes a string, how it decodes one.

    A byte of the text is a `char` below 256; strings in memory end before their NUL. */
module JsonStrings {
  import opened Options
  import opened Json

  predicate IsTextAt(s: string, i: nat, t: string) {
    i + |t| <= |s| && forall k :: 0 <= k < |t| ==> s[i + k] == t[k]
  }

  lemma TextAtSplit(s: string, i: nat, a: string, b: string)
    requires IsTextAt(s, i, a + b)
    ensures IsTextAt(s, i, a) && IsTextAt(s, i + |a|, b)
  {
    assert forall k :: 0 <= k < |a| ==> (a + b)[k] == a[k];
    forall k | 0 <= k < |b| ensures s[i + |a| + k] == b[k] {
      assert (a + b)[|a| + k] == b[k];
    }
  }

  lemma TextAtCons(s: string, i: nat, c: char, t: string)
    requires IsTextAt(s, i, [c] + t)
    ensures i < |s| && s[i] == c && IsTextAt(s, i + 1, t)
  {
    TextAtSplit(s, i, [c], t);
    assert s[i + 0] == [c][0];
  }

  /** What a C string with this content in memory stands for. */
  function CString(s: string): (r: string)
    ensures NulFree(r)
    ensures NulFree(s) ==> r == s
  {
    if s == [] || s[0] == '\0' then [] else [s[0]] + CString(s[1..])
  }

  predicate NulFree(s: string) {
    forall i :: 0 <= i < |s| ==> s[i] != '\0'
  }

  // ---------------------------------------------------------------------------
  // UTF-8 (RFC 3629) and the UTF-16 escapes (RFC 8259 section 7)

  predicate CodePoint(cp: nat) {
    cp < 0x11_0000 && !(0xD800 <= cp < 0xE000)
  }

  function Byte(n: nat): char
    requires n < 256
  {
    n as char
  }

  /** The bytes `utf16_literal_to_utf8` writes. */
  function Utf8(cp: nat): (r: string)
    requires cp < 0x11_0000
    ensures 1 <= |r| <= 4
  {
    if cp < 0x80 then [Byte(cp)]
    else if cp < 0x800 then [Byte(0xC0 + cp / 64), Byte(0x80 + cp % 64)]
    else if cp < 0x1_0000 then [Byte(0xE0 + cp / 4096), Byte(0x80 + cp / 64 % 64), Byte(0x80 + cp % 64)]
    else [Byte(0xF0 + cp / 262144), Byte(0x80 + cp / 4096 % 64), Byte(0x80 + cp / 64 % 64), Byte(0x80 + cp % 64)]
  }

  predicate Trail(c: char) {
    0x80 as char <= c <= 0xBF as char
  }

  function Low(c: char): nat {
    c as nat % 64
  }

  /** RFC 3629 sections 3 and 4: the code point a byte sequence encodes; neither longer
      forms than necessary nor surrogates are accepted. */
  function DecodeUtf8(s: string): Option<nat> {
    if |s| == 1 && s[0] < 0x80 as char then Some(s[0] as nat)
    else if |s| == 2 && 0xC2 as char <= s[0] <= 0xDF as char && Trail(s[1]) then
      Some((s[0] as nat - 0xC0) * 64 + Low(s[1]))
    else if |s| == 3 && 0xE0 as char <= s[0] <= 0xEF as char && Trail(s[1]) && Trail(s[2]) then
      var cp := (s[0] as nat - 0xE0) * 4096 + Low(s[1]) * 64 + Low(s[2]);
      if cp >= 0x800 && CodePoint(cp) then Some(cp) else None
    else if |s| == 4 && 0xF0 as char <= s[0] <= 0xF4 as char && Trail(s[1]) && Trail(s[2]) && Trail(s[3]) then
      var cp := (s[0] as nat - 0xF0) * 262144 + Low(s[1]) * 4096 + Low(s[2]) * 64 + Low(s[3]);
      if cp >= 0x1_0000 && cp < 0x11_0000 then Some(cp) else None
    else None
  }

  lemma Digits(cp: nat)
    ensures cp == cp / 4096 * 4096 + cp / 64 % 64 * 64 + cp % 64
    ensures cp / 4096 == cp / 262144 * 64 + cp / 4096 % 64
    ensures cp / 64 == cp / 4096 * 64 + cp / 64 % 64
  {
  }

  lemma ShortUtf8(cp: nat)
    requires cp < 0x800
    ensures DecodeUtf8(Utf8(cp)) == Some(cp)
  {
  }

  lemma ThreeByteUtf8(cp: nat)
    requires 0x800 <= cp < 0x1_0000 && CodePoint(cp)
    ensures DecodeUtf8(Utf8(cp)) == Some(cp)
  {
    Digits(cp);
  }

  lemma FourByteUtf8(cp: nat)
    requires 0x1_0000 <= cp < 0x11_0000
    ensures DecodeUtf8(Utf8(cp)) == Some(cp)
  {
    hide DecodeUtf8, Byte;
    Digits(cp);
    FourBytes(cp / 262144, cp / 4096 % 64, cp / 64 % 64, cp % 64);
  }

  lemma FourBytes(a: nat, b: nat, c: nat, d: nat)
    requires a <= 4 && b < 64 && c < 64 && d < 64
    ensures
      var cp := a * 262144 + b * 4096 + c * 64 + d;
      0x1_0000 <= cp < 0x11_0000 ==>
        DecodeUtf8([Byte(0xF0 + a), Byte(0x80 + b), Byte(0x80 + c), Byte(0x80 + d)]) == Some(cp)
  {
  }

  /** The bytes written are the encoding of the code point. */
  lemma Utf8IsEncoding(cp: nat)
    requires CodePoint(cp)
    ensures DecodeUtf8(Utf8(cp)) == Some(cp)
  {
    if cp < 0x800 {
      ShortUtf8(cp);
    } else if cp < 0x1_0000 {
      ThreeByteUtf8(cp);
    } else {
      FourByteUtf8(cp);
    }
  }

  function HexDigit(c: char): Option<nat> {
    if '0' <= c <= '9' then Some(c as nat - '0' as nat)
    else if 'A' <= c <= 'F' then Some(10 + c as nat - 'A' as nat)
    else if 'a' <= c <= 'f' then Some(10 + c as nat - 'a' as nat)
    else None
  }

  predicate IsHex4(s: string, p: nat) {
    p + 4 <= |s| && HexDigit(s[p]).Some? && HexDigit(s[p + 1]).Some? && HexDigit(s[p + 2]).Some?
      && HexDigit(s[p + 3]).Some?
  }

  /** `parse_hex4`: anything that is not four hexadecimal digits reads as 0. */
  function ParseHex4(s: string, p: nat): (h: nat)
    requires p + 4 <= |s|
    ensures h < 0x1_0000
  {
    if IsHex4(s, p) then
      HexDigit(s[p]).value * 4096 + HexDigit(s[p + 1]).value * 256 + HexDigit(s[p + 2]).value * 16
        + HexDigit(s[p + 3]).value
    else 0
  }

  /** The characters used up, none when the sequence is refused, and the code point. */
  function Utf16(s: string, p: nat, end: nat): (r: (nat, nat))
    requires p <= end <= |s|
    ensures r.0 in {0, 6, 12} && p + r.0 <= end && r.1 < 0x11_0000
    ensures r.0 > 0 ==> CodePoint(r.1) && |Utf8(r.1)| <= r.0 / 2 && (r.0 == 12 ==> |Utf8(r.1)| == 4)
  {
    if end - p < 6 then (0, 0)
    else
      var first := ParseHex4(s, p + 2);
      if 0xDC00 <= first <= 0xDFFF then (0, 0)
      else if 0xD800 <= first <= 0xDBFF then
        if end - p < 12 || s[p + 6] != '\\' || s[p + 7] != 'u' then (0, 0)
        else
          var second := ParseHex4(s, p + 8);
          if second < 0xDC00 || second > 0xDFFF then (0, 0)
          else (12, 0x1_0000 + (first - 0xD800) * 1024 + (second - 0xDC00))
      else (6, first)
  }

  const UPPER := "0123456789ABCDEF"
  const LOWER := "0123456789abcdef"

  /** A hexadecimal digit of this value, in either case. */
  predicate DigitIs(c: char, d: nat) {
    d < 16 && (c == UPPER[d] || c == LOWER[d])
  }

  /** Four hexadecimal digits, each in either case, that write `n`. */
  predicate Hex4Is(s: string, p: nat, n: nat) {
    && n < 0x1_0000 && p + 4 <= |s|
    && DigitIs(s[p], n / 4096) && DigitIs(s[p + 1], n / 256 % 16)
    && DigitIs(s[p + 2], n / 16 % 16) && DigitIs(s[p + 3], n % 16)
  }

  lemma DigitReads(c: char, d: nat)
    requires DigitIs(c, d)
    ensures HexDigit(c) == Some(d)
  {
  }

  lemma FourDigits(n: nat)
    requires n < 0x1_0000
    ensures n / 4096 * 4096 + n / 256 % 16 * 256 + n / 16 % 16 * 16 + n % 16 == n
  {
    var a, b := n / 16, n / 256;
    assert n == a * 16 + n % 16 && a == b * 16 + a % 16 && b == n / 4096 * 16 + b % 16;
  }

  /** They read as that number. */
  lemma HexReads(s: string, p: nat, n: nat)
    requires Hex4Is(s, p, n)
    ensures IsHex4(s, p) && ParseHex4(s, p) == n
  {
    hide HexDigit, DigitIs;
    DigitReads(s[p], n / 4096);
    DigitReads(s[p + 1], n / 256 % 16);
    DigitReads(s[p + 2], n / 16 % 16);
    DigitReads(s[p + 3], n % 16);
    FourDigits(n);
  }

  /** Four characters of which one is no such digit read as 0. */
  lemma NoHexReads(s: string, p: nat, i: nat)
    requires p + 4 <= |s| && i < 4 && s[p + i] !in UPPER && s[p + i] !in LOWER
    ensures ParseHex4(s, p) == 0
  {
    NoDigit(s[p + i]);
  }

  lemma NoDigit(c: char)
    requires c !in UPPER && c !in LOWER
    ensures HexDigit(c).None?
  {
  }

  /** `\uXXXX` with four hexadecimal digits of this value. */
  predicate UnitAt(s: string, p: nat, unit: nat) {
    p + 6 <= |s| && s[p] == '\\' && s[p + 1] == 'u' && Hex4Is(s, p + 2, unit)
  }

  /** A code point written as RFC 8259 section 7 has it: one escape, or beyond the basic
      plane the two escapes of its UTF-16 surrogate pair. */
  predicate EscapeOf(s: string, p: nat, cp: nat) {
    if cp < 0x1_0000 then UnitAt(s, p, cp)
    else UnitAt(s, p, 0xD800 + (cp - 0x1_0000) / 1024) && UnitAt(s, p + 6, 0xDC00 + (cp - 0x1_0000) % 1024)
  }

  lemma EscapeDecodes(s: string, p: nat, end: nat, cp: nat)
    requires CodePoint(cp) && EscapeOf(s, p, cp) && p + (if cp < 0x1_0000 then 6 else 12) <= end <= |s|
    ensures Utf16(s, p, end) == (if cp < 0x1_0000 then 6 else 12, cp)
    ensures DecodeUtf8(Utf8(cp)) == Some(cp)
  {
    hide Hex4Is, ParseHex4, Utf8, DecodeUtf8;
    Utf8IsEncoding(cp);
    if cp < 0x1_0000 {
      HexReads(s, p + 2, cp);
    } else {
      HexReads(s, p + 2, 0xD800 + (cp - 0x1_0000) / 1024);
      HexReads(s, p + 8, 0xDC00 + (cp - 0x1_0000) % 1024);
    }
  }

  // ---------------------------------------------------------------------------
  // parse_string

  datatype Parsed<+T> = Ok(value: T, next: nat) | Fail(at: nat)

  /** The first pass: where the literal ends, skipping every character behind a backslash. */
  function StringEnd(s: string, i: nat): (r: Option<nat>)
    ensures r.Some? ==> i <= r.value < |s| && s[r.value] == '"'
    decreases |s| - i
  {
    if i >= |s| then None
    else if s[i] == '"' then Some(i)
    else if s[i] == '\\' then if i + 1 >= |s| then None else StringEnd(s, i + 2)
    else StringEnd(s, i + 1)
  }

  function Unescaped(c: char): Option<char> {
    match c
    case 'b' => Some('\U{0008}')
    case 'f' => Some('\U{000C}')
    case 'n' => Some('\n')
    case 'r' => Some('\r')
    case 't' => Some('\t')
    case '"' => Some(c)
    case '\\' => Some(c)
    case '/' => Some(c)
    case _ => None
  }

  /** The second pass over the literal in `s[..end]`.  A `\u` with anything but hexadecimal
      digits behind it reads as the code point 0, so the passes may see the backslashes
      differently, and the last escape may reach over the closing quote. */
  function Unescape(s: string, p: nat, end: nat): (r: Parsed<string>)
    requires end < |s| && p <= end + 1
    ensures r.Ok? ==> end <= r.next <= end + 1
    ensures r.Fail? ==> p <= r.at < end
    decreases end + 1 - p
  {
    if p >= end then Ok("", p)
    else if s[p] != '\\' then Prepend([s[p]], Unescape(s, p + 1, end))
    else if s[p + 1] == 'u' then
      var (used, cp) := Utf16(s, p, end);
      if used == 0 then Fail(p) else Prepend(Utf8(cp), Unescape(s, p + used, end))
    else
      match Unescaped(s[p + 1])
      case None => Fail(p)
      case Some(c) => Prepend([c], Unescape(s, p + 2, end))
  }

  function Prepend(t: string, r: Parsed<string>): Parsed<string> {
    match r
    case Ok(u, next) => Ok(t + u, next)
    case Fail(at) => r
  }

  /** `parse_string` at `i`.  A failure is reported where the input pointer stopped: behind
      the first character, or at the refused escape. */
  function ParseString(s: string, i: nat): (r: Parsed<string>)
    requires i < |s|
    ensures r.Ok? ==> i + 1 < r.next <= |s| && s[r.next - 1] == '"' && NulFree(r.value)
    ensures r.Fail? ==> i < r.at <= |s|
  {
    if s[i] != '"' then Fail(i + 1)
    else
      match StringEnd(s, i + 1)
      case None => Fail(i + 1)
      case Some(end) =>
        match Unescape(s, i + 1, end)
        case Fail(at) => Fail(at)
        case Ok(t, _) => Ok(CString(t), end + 1)
  }

  // ---------------------------------------------------------------------------
  // The estimate of the first pass

  /** The backslashes the first pass skips from `i` on. */
  function Skipped(s: string, i: nat): nat
    decreases |s| - i
  {
    if i >= |s| || s[i] == '"' then 0
    else if s[i] == '\\' then 1 + Skipped(s, i + 2)
    else Skipped(s, i + 1)
  }

  /** From `p` on, room for what the second pass may still write, seen from `q`, the place
      at or next to `p` where the first pass looked for a backslash. */
  ghost predicate InStep(s: string, p: nat, q: nat, end: nat) {
    (q == p || q == p + 1) && StringEnd(s, q) == Some(end)
  }

  function Room(s: string, p: nat, q: nat, end: nat): int {
    end - p - Skipped(s, q)
  }

  /** Wherever the second pass goes next, the first pass looked there or one further, and
      of the characters in between at most every other one was skipped. */
  lemma {:induction false} Catch(s: string, q: nat, end: nat, t: nat) returns (q': nat)
    requires StringEnd(s, q) == Some(end) && q <= t + 1 && t <= end
    ensures InStep(s, t, q', end) && q <= q'
    ensures 2 * (Skipped(s, q) - Skipped(s, q')) <= q' - q
    decreases |s| - q
  {
    if q >= t {
      q' := q;
    } else if s[q] == '\\' {
      q' := Catch(s, q + 2, end, t);
    } else {
      q' := Catch(s, q + 1, end, t);
    }
  }

  lemma {:induction false} RoomLeft(s: string, q: nat, end: nat)
    requires StringEnd(s, q) == Some(end)
    ensures 2 * Skipped(s, q) <= end - q
    decreases |s| - q
  {
    if s[q] == '\\' {
      RoomLeft(s, q + 2, end);
    } else if s[q] != '"' {
      RoomLeft(s, q + 1, end);
    }
  }

  /** What one step of the second pass writes is covered by the room it uses up. */
  lemma StepFits(s: string, p: nat, q: nat, end: nat, used: nat, written: nat) returns (q': nat)
    requires p < end && InStep(s, p, q, end) && p + used <= end
    requires (used == 1 && written == 1 && s[p] != '\\') || (used == 2 && written == 1)
          || (used == 6 && written <= 3) || (used == 12 && written <= 4)
    ensures InStep(s, p + used, q', end) && written + Room(s, p + used, q', end) <= Room(s, p, q, end)
  {
    q' := Catch(s, q, end, p + used);
    if used == 1 && q == p {
      assert Skipped(s, q) == Skipped(s, p + 1);
      q' := p + 1;
    }
  }

  /** Never more is written than the first pass allocates for, however the two passes differ. */
  lemma {:induction false} EstimateSuffices(s: string, p: nat, q: nat, end: nat)
    requires p <= end < |s| && InStep(s, p, q, end)
    ensures Unescape(s, p, end).Ok? ==> |Unescape(s, p, end).value| <= Room(s, p, q, end)
    decreases end - p
  {
    hide Utf8, Utf16, Unescaped;
    if p == end {
      RoomLeft(s, q, end);
    } else if s[p] != '\\' {
      var q' := StepFits(s, p, q, end, 1, 1);
      EstimateSuffices(s, p + 1, q', end);
    } else if s[p + 1] == 'u' {
      var (used, cp) := Utf16(s, p, end);
      if used > 0 {
        var q' := StepFits(s, p, q, end, used, |Utf8(cp)|);
        EstimateSuffices(s, p + used, q', end);
      }
    } else if p + 1 < end {
      var q' := StepFits(s, p, q, end, 2, 1);
      EstimateSuffices(s, p + 2, q', end);
    } else {
      assert q == end;
    }
  }

  /** The first pass sees 7 characters with one pair `\"`, the second a `\u` taking six of
      them: the escape that is left reaches over the closing quote. */
  lemma PassesDiffer()
    ensures
      var s := "\"\\u000\\\\\"";
      && StringEnd(s, 1) == Some(8) && Skipped(s, 1) == 2
      && ParseString(s, 0) == Ok("", 9) && Unescape(s, 1, 8) == Ok([Byte(0), '"'], 9)
  {
    var s := "\"\\u000\\\\\"";
    assert |s| == 9;
    assert StringEnd(s, 8) == Some(8) && StringEnd(s, 6) == Some(8) && StringEnd(s, 5) == Some(8)
      && StringEnd(s, 4) == Some(8);
    assert StringEnd(s, 3) == Some(8) && StringEnd(s, 1) == Some(8);
    assert Skipped(s, 8) == 0 && Skipped(s, 6) == 1 && Skipped(s, 5) == 1 && Skipped(s, 4) == 1 && Skipped(s, 3) == 1;
    assert Unescape(s, 9, 8) == Ok("", 9) && ['"'] + "" == ['"'];
    assert s[7] == '\\' && s[8] == '"' && Unescaped('"') == Some('"');
    assert Unescape(s, 7, 8) == Ok(['"'], 9);
    assert Utf16(s, 1, 8) == (6, 0);
    assert Unescape(s, 1, 8) == Prepend([Byte(0)], Unescape(s, 7, 8));
    assert [Byte(0)] + ['"'] == [Byte(0), '"'];
    assert CString([Byte(0), '"']) == "";
  }

  // ---------------------------------------------------------------------------
  // print_string_ptr

  function HexChar(d: nat): char
    requires d < 16
  {
    if d < 10 then '0' + d as char else 'a' + (d - 10) as char
  }

  /** The letter of a one character escape sequence. */
  function Shorthand(c: char): (r: Option<char>)
    ensures r.Some? ==> r.value != 'u' && Unescaped(r.value) == Some(c)
    ensures c == '"' || c == '\\' ==> r.Some?
  {
    match c
    case '"' => Some(c)
    case '\\' => Some(c)
    case '\U{0008}' => Some('b')
    case '\U{000C}' => Some('f')
    case '\n' => Some('n')
    case '\r' => Some('r')
    case '\t' => Some('t')
    case _ => None
  }

  function Hex(c: char): string
    requires c < ' '
  {
    "\\u00" + [HexChar(c as nat / 16), HexChar(c as nat % 16)]
  }

  function EscapedChar(c: char): (r: string)
    ensures 1 <= |r| <= 6
  {
    if Shorthand(c).Some? then ['\\', Shorthand(c).value]
    else if c < ' ' then Hex(c)
    else [c]
  }

  function Escaped(s: string): string {
    if s == [] then "" else EscapedChar(s[0]) + Escaped(s[1..])
  }

  lemma EndBehind(s: string, p: nat, c: char)
    requires IsTextAt(s, p, EscapedChar(c))
    ensures StringEnd(s, p) == StringEnd(s, p + |EscapedChar(c)|)
  {
    var e := EscapedChar(c);
    FirstChar(s, p, e);
    if |e| == 6 {
      HexAt(s, p, c);
      assert StringEnd(s, p) == StringEnd(s, p + 2);
      assert StringEnd(s, p + 2) == StringEnd(s, p + 3);
      assert StringEnd(s, p + 3) == StringEnd(s, p + 4);
      assert StringEnd(s, p + 4) == StringEnd(s, p + 5);
      assert StringEnd(s, p + 5) == StringEnd(s, p + 6);
    }
  }

  /** The first pass finds the closing quote behind an escaped string. */
  lemma {:induction false} EndOfEscaped(s: string, p: nat, t: string)
    requires IsTextAt(s, p, Escaped(t)) && p + |Escaped(t)| < |s| && s[p + |Escaped(t)|] == '"'
    ensures StringEnd(s, p) == Some(p + |Escaped(t)|)
    decreases t
  {
    hide EscapedChar, IsTextAt;
    if t != [] {
      var e := EscapedChar(t[0]);
      TextAtSplit(s, p, e, Escaped(t[1..]));
      EndOfEscaped(s, p + |e|, t[1..]);
      EndBehind(s, p, t[0]);
    }
  }

  lemma FirstChar(s: string, i: nat, t: string)
    requires IsTextAt(s, i, t) && t != ""
    ensures i < |s| && s[i] == t[0]
  {
    assert s[i + 0] == t[0];
  }

  lemma UnescapeOne(s: string, p: nat, c: char, end: nat)
    requires c != '\0' && IsTextAt(s, p, EscapedChar(c)) && p + |EscapedChar(c)| <= end < |s|
    ensures Unescape(s, p, end) == Prepend([c], Unescape(s, p + |EscapedChar(c)|, end))
  {
    FirstChar(s, p, EscapedChar(c));
    if Shorthand(c).Some? {
      assert s[p + 1] == EscapedChar(c)[1];
      UnescapePair(s, p, c, end);
    } else if c < ' ' {
      ControlHex(s, p, c);
      UnescapeControl(s, p, c, end);
    }
  }

  lemma UnescapePair(s: string, p: nat, c: char, end: nat)
    requires p + 2 <= end < |s| && s[p] == '\\' && s[p + 1] != 'u' && Unescaped(s[p + 1]) == Some(c)
    ensures Unescape(s, p, end) == Prepend([c], Unescape(s, p + 2, end))
  {
  }

  lemma UnescapeControl(s: string, p: nat, c: char, end: nat)
    requires p + 6 <= end < |s| && s[p] == '\\' && s[p + 1] == 'u' && ParseHex4(s, p + 2) == c as nat < 0x80
    ensures Unescape(s, p, end) == Prepend([c], Unescape(s, p + 6, end))
  {
    assert Utf16(s, p, end) == (6, c as nat);
  }

  /** Decoding undoes escaping: for every string without NUL, whatever follows it. */
  lemma {:induction false} UnescapeEscaped(s: string, p: nat, t: string, end: nat)
    requires NulFree(t) && IsTextAt(s, p, Escaped(t)) && end == p + |Escaped(t)| < |s|
    ensures Unescape(s, p, end) == Ok(t, end)
    decreases t
  {
    hide EscapedChar, IsTextAt;
    if t != [] {
      var e := EscapedChar(t[0]);
      TextAtSplit(s, p, e, Escaped(t[1..]));
      UnescapeEscaped(s, p + |e|, t[1..], end);
      UnescapeOne(s, p, t[0], end);
      assert [t[0]] + t[1..] == t;
    }
  }

  lemma HexAt(s: string, p: nat, c: char)
    requires c < ' ' && IsTextAt(s, p, Hex(c))
    ensures s[p] == '\\' && s[p + 1] == 'u' && s[p + 2] == '0' && s[p + 3] == '0'
    ensures s[p + 4] == HexChar(c as nat / 16) && s[p + 5] == HexChar(c as nat % 16)
  {
    var h := Hex(c);
    assert s[p + 0] == h[0] && s[p + 1] == h[1] && s[p + 2] == h[2];
    assert s[p + 3] == h[3] && s[p + 4] == h[4] && s[p + 5] == h[5];
  }

  lemma ControlHex(s: string, p: nat, c: char)
    requires c < ' ' && IsTextAt(s, p, Hex(c))
    ensures s[p + 1] == 'u' && ParseHex4(s, p + 2) == c as nat && Utf8(c as nat) == [c]
  {
    HexAt(s, p, c);
  }

  function Quoted(t: string): string {
    "\"" + Escaped(t) + "\""
  }

  lemma ParseQuoted(s: string, i: nat, t: string)
    requires NulFree(t) && IsTextAt(s, i, Quoted(t))
    ensures i < |s| && s[i] == '"' && ParseString(s, i) == Ok(t, i + |Quoted(t)|)
  {
    TextAtSplit(s, i, "\"" + Escaped(t), "\"");
    TextAtSplit(s, i, "\"", Escaped(t));
    FirstChar(s, i, "\"");
    FirstChar(s, i + 1 + |Escaped(t)|, "\"");
    EndOfEscaped(s, i + 1, t);
    UnescapeEscaped(s, i + 1, t, i + 1 + |Escaped(t)|);
  }

  lemma {:induction false} EscapedNulFree(t: string)
    requires NulFree(t)
    ensures NulFree(Escaped(t))
  {
    if t != [] {
      EscapedNulFree(t[1..]);
      assert NulFree(EscapedChar(t[0]));
    }
  }
}
