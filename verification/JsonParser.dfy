/** The recursive descent parser over one buffer with a moving offset. */
module JsonParser {
  import opened Options
  import opened Json
  import opened JsonStrings
  import T = JsonText

  /** `parse_hex4`. */
  method ParseHex4(s: string, p: nat) returns (h: nat)
    requires p + 4 <= |s|
    ensures h == JsonStrings.ParseHex4(s, p)
  {
    h := 0;
    for i := 0 to 4
      invariant i >= 1 ==> HexDigit(s[p]).Some?
      invariant i >= 2 ==> HexDigit(s[p + 1]).Some?
      invariant i >= 3 ==> HexDigit(s[p + 2]).Some?
      invariant i >= 4 ==> HexDigit(s[p + 3]).Some?
      invariant i == 0 ==> h == 0
      invariant i == 1 ==> h == HexDigit(s[p]).value * 16
      invariant i == 2 ==> h == HexDigit(s[p]).value * 256 + HexDigit(s[p + 1]).value * 16
      invariant i == 3 ==>
        h == HexDigit(s[p]).value * 4096 + HexDigit(s[p + 1]).value * 256 + HexDigit(s[p + 2]).value * 16
      invariant i == 4 ==> h == JsonStrings.ParseHex4(s, p)
    {
      assert i == 0 || i == 1 || i == 2 || i == 3;
      if HexDigit(s[p + i]).None? {
        return 0;
      }
      h := h + HexDigit(s[p + i]).value;
      if i < 3 {
        h := h * 16;
      }
    }
  }

  /** `cp` shifted right by 6 bits a number of times. */
  function Shifted(cp: nat, times: nat): nat {
    if times == 0 then cp else Shifted(cp, times - 1) / 64
  }

  function Mark(length: nat): nat {
    if length == 4 then 0xF0 else if length == 3 then 0xE0 else if length == 2 then 0xC0 else 0
  }

  /** The bytes of the encoding, seen from the back. */
  lemma Utf8Bytes(cp: nat, i: nat)
    requires cp < 0x11_0000 && i < |Utf8(cp)|
    ensures
      var rest := Shifted(cp, |Utf8(cp)| - 1 - i);
      && (i == 0 ==> Mark(|Utf8(cp)|) + rest < 256 && Utf8(cp)[0] == Byte(Mark(|Utf8(cp)|) + rest))
      && (i > 0 ==> Utf8(cp)[i] == Byte(0x80 + rest % 64))
  {
    assert Shifted(cp, 0) == cp && Shifted(cp, 1) == cp / 64;
    assert Shifted(cp, 2) == cp / 4096 && Shifted(cp, 3) == cp / 262144;
  }

  lemma ShiftedSteps(cp: nat)
    ensures Shifted(cp, 0) == cp && Shifted(cp, 1) == Shifted(cp, 0) / 64
    ensures Shifted(cp, 2) == Shifted(cp, 1) / 64 && Shifted(cp, 3) == Shifted(cp, 2) / 64
  {
  }

  lemma Utf8Length(cp: nat)
    requires cp < 0x11_0000
    ensures |Utf8(cp)| == if cp >= 0x1_0000 then 4 else if cp >= 0x800 then 3 else if cp >= 0x80 then 2 else 1
  {
  }

  /** The last part of `utf16_literal_to_utf8`: the bytes are written back to front, the
      marks or-ed into bits that are clear. */
  method EncodeUtf8(cp: nat, output: array<char>, at: nat) returns (next: nat)
    requires cp < 0x11_0000 && at + |Utf8(cp)| <= output.Length
    modifies output
    ensures next == at + |Utf8(cp)| && output[..next] == old(output[..at]) + Utf8(cp)
  {
    hide Utf8, Shifted, Byte;
    Utf8Length(cp);
    ShiftedSteps(cp);
    var length, mark := 1, 0;
    if cp >= 0x1_0000 {
      length, mark := 4, 0xF0;
    } else if cp >= 0x800 {
      length, mark := 3, 0xE0;
    } else if cp >= 0x80 {
      length, mark := 2, 0xC0;
    }
    var rest, position := cp, length - 1;
    while position > 0
      invariant 0 <= position < length && rest == Shifted(cp, length - 1 - position)
      invariant forall k :: position < k < length ==> output[at + k] == Utf8(cp)[k]
      invariant forall k :: 0 <= k < at ==> output[k] == old(output[k])
    {
      Utf8Bytes(cp, position);
      output[at + position] := Byte(0x80 + rest % 64);
      rest := rest / 64;
      position := position - 1;
    }
    Utf8Bytes(cp, 0);
    output[at] := Byte(mark + rest);
    next := at + length;
    Filled(old(output[..]), output[..], at, Utf8(cp));
  }

  lemma Filled(before: string, after: string, at: nat, t: string)
    requires at + |t| <= |before| == |after|
    requires forall k :: 0 <= k < at ==> after[k] == before[k]
    requires forall k :: 0 <= k < |t| ==> after[at + k] == t[k]
    ensures after[..at + |t|] == before[..at] + t
  {
  }

  /** `utf16_literal_to_utf8`. */
  method Utf16ToUtf8(s: string, p: nat, end: nat, output: array<char>, at: nat) returns (used: nat, next: nat)
    requires p <= end <= |s| && at + |Utf8(Utf16(s, p, end).1)| <= output.Length
    modifies output
    ensures used == Utf16(s, p, end).0
    ensures used > 0 ==>
      next == at + |Utf8(Utf16(s, p, end).1)| && output[..next] == old(output[..at]) + Utf8(Utf16(s, p, end).1)
  {
    hide Utf8, JsonStrings.ParseHex4, CodePoint;
    next := at;
    if end - p < 6 {
      return 0, next;
    }
    var first := ParseHex4(s, p + 2);
    var cp := first;
    used := 6;
    if 0xDC00 <= first <= 0xDFFF {
      return 0, next;
    }
    if 0xD800 <= first <= 0xDBFF {
      used := 12;
      if end - p < 12 || s[p + 6] != '\\' || s[p + 7] != 'u' {
        return 0, next;
      }
      var second := ParseHex4(s, p + 8);
      if second < 0xDC00 || second > 0xDFFF {
        return 0, next;
      }
      cp := 0x1_0000 + (first - 0xD800) * 1024 + (second - 0xDC00);
    }
    next := EncodeUtf8(cp, output, at);
  }

  /** The first loop of `parse_string`: the closing quote, and the size of the estimate. */
  method Measure(s: string, start: nat) returns (end: Option<nat>, skipped: nat)
    requires start <= |s|
    ensures end == StringEnd(s, start)
    ensures end.Some? ==> skipped == Skipped(s, start)
  {
    var inputEnd := start;
    skipped := 0;
    while inputEnd < |s| && s[inputEnd] != '"'
      invariant start <= inputEnd <= |s|
      invariant StringEnd(s, inputEnd) == StringEnd(s, start)
      invariant Skipped(s, start) == skipped + Skipped(s, inputEnd)
    {
      if s[inputEnd] == '\\' {
        if inputEnd + 1 >= |s| {
          return None, skipped;
        }
        skipped := skipped + 1;
        inputEnd := inputEnd + 1;
      }
      inputEnd := inputEnd + 1;
    }
    if inputEnd >= |s| || s[inputEnd] != '"' {
      return None, skipped;
    }
    end := Some(inputEnd);
  }

  lemma PrependTwice(a: string, b: string, r: Parsed<string>)
    ensures Prepend(a, Prepend(b, r)) == Prepend(a + b, r)
  {
    if r.Ok? {
      assert a + (b + r.value) == (a + b) + r.value;
    }
  }

  /** One round of the second loop of `parse_string`, which writes `piece`.  The ghost `q`
      keeps step with the first loop and shows that the output array is long enough. */
  method DecodeOne(s: string, p: nat, end: nat, output: array<char>, at: nat, ghost q: nat, ghost limit: nat)
    returns (ok: bool, p': nat, at': nat, ghost q': nat, ghost piece: string)
    requires p < end < |s| && InStep(s, p, q, end) && at + Room(s, p, q, end) <= limit <= output.Length
    modifies output
    ensures ok ==> p < p' <= end + 1 && at' == at + |piece| <= limit
    ensures ok ==> output[..at'] == old(output[..at]) + piece
    ensures ok ==> Unescape(s, p, end) == Prepend(piece, Unescape(s, p', end))
    ensures ok && p' <= end ==> InStep(s, p', q', end) && at' + Room(s, p', q', end) <= limit
    ensures !ok ==> Unescape(s, p, end) == Fail(p)
  {
    hide Utf8, Utf16, Unescaped, Room, Skipped, StringEnd, InStep;
    EstimateAt(s, p, q, end);
    ok, p', at', q', piece := true, p, at, q, "";
    if s[p] != '\\' {
      q' := StepFits(s, p, q, end, 1, 1);
      piece := [s[p]];
      output[at] := s[p];
      p', at' := p + 1, at + 1;
      assert output[..at] == old(output[..at]);
    } else if s[p + 1] == 'u' {
      var (used, cp) := Utf16(s, p, end);
      if used == 0 {
        return false, p, at, q, "";
      }
      piece := Utf8(cp);
      q' := StepFits(s, p, q, end, used, |piece|);
      RoomIsLeft(s, p + used, q', end);
      used, at' := Utf16ToUtf8(s, p, end, output, at);
      p' := p + used;
    } else if Unescaped(s[p + 1]).Some? {
      if p + 1 < end {
        q' := StepFits(s, p, q, end, 2, 1);
      }
      piece := [Unescaped(s[p + 1]).value];
      output[at] := Unescaped(s[p + 1]).value;
      p', at' := p + 2, at + 1;
      assert output[..at] == old(output[..at]);
    } else {
      ok := false;
    }
  }

  lemma RoomIsLeft(s: string, p: nat, q: nat, end: nat)
    requires InStep(s, p, q, end) && p <= end
    ensures Room(s, p, q, end) >= 0
  {
    RoomLeft(s, q, end);
  }

  /** There is room for at least one character. */
  lemma EstimateAt(s: string, p: nat, q: nat, end: nat)
    requires p < end < |s| && InStep(s, p, q, end)
    ensures Room(s, p, q, end) >= 1
  {
    RoomLeft(s, q, end);
  }

  /** `parse_string` decodes into an array of the estimated size. */
  method DecodeLiteral(s: string, start: nat, end: nat, skipped: nat) returns (ok: bool, text: string, stop: nat)
    requires start <= end < |s| && StringEnd(s, start) == Some(end) && skipped == Skipped(s, start)
    ensures ok <==> Unescape(s, start, end).Ok?
    ensures ok ==> text == Unescape(s, start, end).value
    ensures !ok ==> stop == Unescape(s, start, end).at
  {
    hide Unescape, Room, Skipped, StringEnd;
    assert Room(s, start, start, end) == end - start - skipped >= 0 by {
      RoomNow(s, start, end);
    }
    // The opening quote is counted, and room for the NUL is added.
    var length := end - (start - 1) - skipped;
    var output := new char[length + 1];
    var p: nat, at: nat := start, 0;
    ghost var q := start;
    PrependNothing(Unescape(s, p, end));
    while p < end
      invariant start <= p <= end + 1 && at <= output.Length - 2
      invariant Unescape(s, start, end) == Prepend(output[..at], Unescape(s, p, end))
      invariant p <= end ==> InStep(s, p, q, end) && at + Room(s, p, q, end) <= output.Length - 2
      decreases end + 1 - p
    {
      ghost var before, piece := output[..at], "";
      var p', at';
      ok, p', at', q, piece := DecodeOne(s, p, end, output, at, q, output.Length - 2);
      if !ok {
        return false, "", p;
      }
      PrependTwice(before, piece, Unescape(s, p', end));
      p, at := p', at';
    }
    NothingLeft(s, p, end);
    output[at] := '\0';
    text := output[..at];
    ok, stop := true, p;
  }

  lemma RoomNow(s: string, start: nat, end: nat)
    requires start <= end && StringEnd(s, start) == Some(end)
    ensures InStep(s, start, start, end) && Room(s, start, start, end) == end - start - Skipped(s, start) >= 0
  {
    RoomLeft(s, start, end);
  }

  lemma PrependNothing(r: Parsed<string>)
    ensures Prepend([], r) == r
  {
    assert r.Ok? ==> [] + r.value == r.value;
  }

  lemma NothingLeft(s: string, p: nat, end: nat)
    requires end < |s| && end <= p <= end + 1
    ensures Unescape(s, p, end) == Ok("", p)
  {
  }

  function Extend<X>(items: seq<X>, r: Parsed<seq<X>>): Parsed<seq<X>> {
    match r
    case Ok(more, next) => Ok(items + more, next)
    case Fail(at) => r
  }

  lemma ExtendNothing<X>(r: Parsed<seq<X>>)
    ensures Extend([], r) == r
  {
    assert r.Ok? ==> [] + r.value == r.value;
  }

  lemma ExtendOne<X>(items: seq<X>, item: X, r: Parsed<seq<X>>)
    ensures Extend(items, T.PrependItem(item, r)) == Extend(items + [item], r)
  {
    if r.Ok? {
      assert items + ([item] + r.value) == (items + [item]) + r.value;
    }
  }

  /** What the loop of `parse_array` has read so far, one item later. */
  lemma ItemRound(s: T.Content, k: nat, depth: nat, items: seq<Json>, item: Json, next: nat)
    requires k < |s| && next < |s| && T.ParseValue(s, T.SkipWhitespace(s, k), depth) == Ok(item, next)
    ensures
      var e := T.SkipWhitespace(s, next);
      && (s[e] == ',' ==> e + 1 < |s|)
      && Extend(items, T.ParseItems(s, k, depth)) ==
           (if s[e] == ',' then Extend(items + [item], T.ParseItems(s, e + 1, depth))
            else if s[e] == ']' then Ok(items + [item], e + 1)
            else Fail(e))
  {
    hide T.ParseValue;
    var e := T.SkipWhitespace(s, next);
    if s[e] == ',' {
      ExtendOne(items, item, T.ParseItems(s, e + 1, depth));
    }
  }

  lemma ItemFails(s: T.Content, k: nat, depth: nat, items: seq<Json>, at: nat)
    requires k < |s| && T.ParseValue(s, T.SkipWhitespace(s, k), depth) == Fail(at)
    ensures Extend(items, T.ParseItems(s, k, depth)) == Fail(at)
  {
    hide T.ParseValue;
  }

  lemma MemberFails(s: T.Content, k: nat, depth: nat, ms: seq<Member>, at: nat)
    requires k < |s| && T.ParseMember(s, k, depth) == Fail(at)
    ensures Extend(ms, T.ParseMembers(s, k, depth)) == Fail(at)
  {
    hide T.ParseMember;
  }

  lemma MemberRound(s: T.Content, k: nat, depth: nat, ms: seq<Member>, m: Member, next: nat)
    requires k < |s| && next < |s| && T.ParseMember(s, k, depth) == Ok(m, next)
    ensures
      var e := T.SkipWhitespace(s, next);
      && (s[e] == ',' ==> e + 1 < |s|)
      && Extend(ms, T.ParseMembers(s, k, depth)) ==
           (if s[e] == ',' then Extend(ms + [m], T.ParseMembers(s, e + 1, depth))
            else if s[e] == '}' then Ok(ms + [m], e + 1)
            else Fail(e))
  {
    hide T.ParseMember;
    var e := T.SkipWhitespace(s, next);
    if s[e] == ',' {
      ExtendOne(ms, m, T.ParseMembers(s, e + 1, depth));
    }
  }

  lemma TokenGrows(s: string, i: nat, room: nat, number: string)
    requires room > 0 && i < |s| && T.NumberChar(s[i])
    ensures number + T.NumberToken(s, i, room) == (number + [s[i]]) + T.NumberToken(s, i + 1, room - 1)
  {
    var rest := T.NumberToken(s, i + 1, room - 1);
    assert number + ([s[i]] + rest) == (number + [s[i]]) + rest;
  }

  lemma TokenStops(s: string, i: nat, room: nat, number: string)
    requires room == 0 || i >= |s| || !T.NumberChar(s[i])
    ensures number + T.NumberToken(s, i, room) == number
  {
  }

  class ParseBuffer {
    const content: T.Content
    var offset: nat
    var depth: nat

    constructor (content: T.Content)
      ensures this.content == content && offset == 0 && depth == 0
    {
      this.content, offset, depth := content, 0, 0;
    }

    ghost predicate Ready()
      reads this
    {
      offset < |content| && depth <= T.NESTING_LIMIT
    }

    /** The outcome of a method is that of the specification from the old position on; after
        a success the depth is what it was. */
    ghost predicate Follows<X>(ok: bool, value: X, r: Parsed<X>, oldDepth: nat)
      reads this
    {
      && (match r
          case Ok(v, next) => ok && value == v && offset == next < |content| && depth == oldDepth
          case Fail(at) => !ok && offset == at)
      && depth <= T.NESTING_LIMIT
    }

    /** `buffer_skip_whitespace`. */
    method SkipWhitespace()
      requires offset < |content|
      modifies this`offset
      ensures offset == T.SkipWhitespace(content, old(offset))
    {
      while offset < |content| && content[offset] <= ' '
        invariant old(offset) <= offset <= |content|
        invariant offset < |content| ==> T.SkipWhitespace(content, offset) == T.SkipWhitespace(content, old(offset))
        invariant offset == |content| ==> T.SkipWhitespace(content, old(offset)) == |content| - 1
      {
        offset := offset + 1;
      }
      if offset == |content| {
        offset := offset - 1;
      }
    }

    method ParseString() returns (ok: bool, text: string)
      requires Ready()
      modifies this`offset
      ensures Follows(ok, text, JsonStrings.ParseString(content, old(offset)), old(depth))
    {
      text := "";
      if content[offset] != '"' {
        offset := offset + 1;
        return false, text;
      }
      var end, skipped := Measure(content, offset + 1);
      if end.None? {
        offset := offset + 1;
        return false, text;
      }
      var decoded, stop;
      ok, decoded, stop := DecodeLiteral(content, offset + 1, end.value, skipped);
      if !ok {
        offset := stop;
        return;
      }
      text := CString(decoded);
      T.StringWithin(content, offset);
      offset := end.value + 1;
    }

    /** `parse_number` copies at most 63 characters for `strtod`. */
    method CopyNumber() returns (number: string)
      requires offset < |content|
      ensures number == T.NumberToken(content, offset, 63)
    {
      hide T.NumberToken, T.NumberChar;
      number := "";
      assert number + T.NumberToken(content, offset, 63) == T.NumberToken(content, offset, 63);
      var i := 0;
      while i < 63 && offset + i < |content| && T.NumberChar(content[offset + i])
        invariant 0 <= i <= 63 && offset + i <= |content|
        invariant number + T.NumberToken(content, offset + i, 63 - i) == T.NumberToken(content, offset, 63)
      {
        TokenGrows(content, offset + i, 63 - i, number);
        number := number + [content[offset + i]];
        i := i + 1;
      }
      TokenStops(content, offset + i, 63 - i, number);
    }

    method ParseNumber() returns (ok: bool, item: Json)
      requires Ready()
      modifies this`offset
      ensures Follows(ok, item, T.ParseNumber(content, old(offset)), old(depth))
    {
      hide T.Strtod;
      var number := CopyNumber();
      var (used, n) := T.Strtod(number);
      T.NumberWithin(content, offset);
      ok, item := used != 0, Number(n);
      offset := offset + used;
    }

    /** `strncmp` on what can be read. */
    method LooksAt(word: string) returns (same: bool)
      ensures same == IsTextAt(content, offset, word)
    {
      same := offset + |word| <= |content| && content[offset..offset + |word|] == word;
      if same {
        forall k | 0 <= k < |word| ensures content[offset + k] == word[k] {
          assert content[offset..offset + |word|][k] == word[k];
        }
      }
    }

    method ParseValue() returns (ok: bool, item: Json)
      requires Ready()
      modifies this
      ensures Follows(ok, item, T.ParseValue(content, old(offset), old(depth)), old(depth))
      decreases |content| - offset, 2
    {
      T.NulOnlyAtEnd(content, offset);
      ok, item := true, Null;
      var same := LooksAt("null");
      if same {
        offset := offset + 4;
        return;
      }
      same := LooksAt("false");
      if same {
        offset := offset + 5;
        return true, False;
      }
      same := LooksAt("true");
      if same {
        offset := offset + 4;
        return true, True;
      }
      if content[offset] == '"' {
        var text;
        ok, text := ParseString();
        return ok, String(text);
      }
      if T.StartsNumber(content[offset]) {
        ok, item := ParseNumber();
        return;
      }
      if content[offset] == '[' {
        ok, item := ParseArray();
        return;
      }
      if content[offset] == '{' {
        ok, item := ParseObject();
        return;
      }
      ok := false;
    }

    method ParseArray() returns (ok: bool, item: Json)
      requires Ready() && content[offset] == '['
      modifies this
      ensures Follows(ok, item, T.ParseArray(content, old(offset), old(depth)), old(depth))
      decreases |content| - offset, 1
    {
      item := Null;
      if depth >= T.NESTING_LIMIT {
        return false, item;
      }
      depth := depth + 1;
      offset := offset + 1;
      SkipWhitespace();
      if content[offset] == ']' {
        depth := depth - 1;
        offset := offset + 1;
        return true, Array([]);
      }
      var items;
      ok, items := ParseItems();
      if ok {
        depth := depth - 1;
        item := Array(items);
      }
    }

    /** The loop of `parse_array`; it starts one step back and moves on with each round. */
    method ParseItems() returns (ok: bool, items: seq<Json>)
      requires Ready() && offset > 0
      modifies this
      ensures Follows(ok, items, T.ParseItems(content, old(offset), old(depth)), old(depth))
      decreases |content| - offset, 3
    {
      hide T.ParseValue, T.ParseItems, T.SkipWhitespace;
      items := [];
      ExtendNothing(T.ParseItems(content, offset, depth));
      offset := offset - 1;
      var more := true;
      while more
        invariant old(offset) - 1 <= offset < |content| && depth == old(depth)
        invariant more ==> offset + 1 < |content|
        invariant more ==>
          T.ParseItems(content, old(offset), depth) == Extend(items, T.ParseItems(content, offset + 1, depth))
        invariant !more ==>
          T.ParseItems(content, old(offset), depth) ==
            (if content[offset] == ']' then Ok(items, offset + 1) else Fail(offset))
        decreases |content| - offset, more
      {
        ghost var start, depthNow := offset + 1, depth;
        offset := offset + 1;
        SkipWhitespace();
        var item;
        ok, item := ParseValue();
        if !ok {
          ItemFails(content, start, depthNow, items, offset);
          return;
        }
        ItemRound(content, start, depth, items, item, offset);
        SkipWhitespace();
        more := content[offset] == ',';
        items := items + [item];
      }
      ok := content[offset] == ']';
      if ok {
        offset := offset + 1;
      }
    }

    method ParseObject() returns (ok: bool, item: Json)
      requires Ready() && content[offset] == '{'
      modifies this
      ensures Follows(ok, item, T.ParseObject(content, old(offset), old(depth)), old(depth))
      decreases |content| - offset, 1
    {
      item := Null;
      if depth >= T.NESTING_LIMIT {
        return false, item;
      }
      depth := depth + 1;
      offset := offset + 1;
      SkipWhitespace();
      if content[offset] == '}' {
        depth := depth - 1;
        offset := offset + 1;
        return true, Object([]);
      }
      var members;
      ok, members := ParseMembers();
      if ok {
        depth := depth - 1;
        item := Object(members);
      }
    }

    /** Name, colon and value. */
    method ParseMember() returns (ok: bool, m: Member)
      requires Ready()
      modifies this
      ensures Follows(ok, m, T.ParseMember(content, old(offset), old(depth)), old(depth))
      decreases |content| - offset, 3
    {
      hide T.ParseValue, T.ParseArray, T.ParseObject, JsonStrings.ParseString, T.SkipWhitespace;
      m := Member("", Null);
      SkipWhitespace();
      T.StringWithin(content, offset);
      var key;
      ok, key := ParseString();
      if !ok {
        return;
      }
      SkipWhitespace();
      if content[offset] != ':' {
        return false, m;
      }
      offset := offset + 1;
      SkipWhitespace();
      var item;
      ok, item := ParseValue();
      m := Member(key, item);
    }

    /** The loop of `parse_object`. */
    method ParseMembers() returns (ok: bool, members: seq<Member>)
      requires Ready() && offset > 0
      modifies this
      ensures Follows(ok, members, T.ParseMembers(content, old(offset), old(depth)), old(depth))
      decreases |content| - offset, 4
    {
      hide T.ParseMember, T.ParseMembers, T.SkipWhitespace;
      members := [];
      ExtendNothing(T.ParseMembers(content, offset, depth));
      offset := offset - 1;
      var more := true;
      while more
        invariant old(offset) - 1 <= offset < |content| && depth == old(depth)
        invariant more ==> offset + 1 < |content|
        invariant more ==>
          T.ParseMembers(content, old(offset), depth) == Extend(members, T.ParseMembers(content, offset + 1, depth))
        invariant !more ==>
          T.ParseMembers(content, old(offset), depth) ==
            (if content[offset] == '}' then Ok(members, offset + 1) else Fail(offset))
        decreases |content| - offset, more
      {
        ghost var start, depthNow := offset + 1, depth;
        offset := offset + 1;
        var m;
        ok, m := ParseMember();
        if !ok {
          MemberFails(content, start, depthNow, members, offset);
          return;
        }
        MemberRound(content, start, depth, members, m, offset);
        SkipWhitespace();
        more := content[offset] == ',';
        members := members + [m];
      }
      ok := content[offset] == '}';
      if ok {
        offset := offset + 1;
      }
    }
  }

  /** `cJSON_ParseWithOpts`: the tree and where the parse ended, or the place of the error. */
  method ParseWithOpts(text: string, requireNullTerminated: bool) returns (ok: bool, item: Json, end: nat)
    ensures
      match T.Parse(text, requireNullTerminated)
      case Ok(j, next) => ok && item == j && end == next
      case Fail(at) => !ok && end == at
  {
    hide T.ParseValue, T.SkipWhitespace;
    var buffer := new ParseBuffer(text + "\0");
    buffer.offset := T.SkipBom(buffer.content);
    buffer.SkipWhitespace();
    ok, item := buffer.ParseValue();
    if !ok {
      end := if buffer.offset < |buffer.content| then buffer.offset else |buffer.content| - 1;
      return;
    }
    if requireNullTerminated {
      buffer.SkipWhitespace();
      ok := buffer.content[buffer.offset] == '\0';
    }
    end := buffer.offset;
  }
}
