/** JSON text: what the printer writes and what the parser makes of a text, as functions. */
module JsonText {
  import opened Json
  import opened JsonStrings
  import JsonPointer

  /** `CJSON_NESTING_LIMIT`. */
  const NESTING_LIMIT := 1000

  /** Integers of smaller magnitude survive `%1.15g`. */
  const EXACT := 1000_000_000_000_000

  function Integer(n: int): string {
    if n < 0 then "-" + JsonPointer.Decimal(-n) else JsonPointer.Decimal(n)
  }

  // ---------------------------------------------------------------------------
  // Printing

  /** `print_value` can render the tree: there is no invalid node in it, and every number
      fits the 26 byte buffer. */
  predicate Printable(j: Json)
    decreases j
  {
    match j
    case Invalid => false
    case Number(n) => |Integer(n)| <= 25
    case Array(items) => forall i :: 0 <= i < |items| ==> Printable(items[i])
    case Object(ms) => forall i :: 0 <= i < |ms| ==> Printable(ms[i].value)
    case _ => true
  }

  /** Every C string of the tree ends where the model says. */
  predicate CStrings(j: Json)
    decreases j
  {
    match j
    case String(s) => NulFree(s)
    case Raw(s) => NulFree(s)
    case Array(items) => forall i :: 0 <= i < |items| ==> CStrings(items[i])
    case Object(ms) => forall i :: 0 <= i < |ms| ==> NulFree(ms[i].key) && CStrings(ms[i].value)
    case _ => true
  }

  function Repeat(c: char, n: nat): (r: string)
    ensures |r| == n && forall i :: 0 <= i < n ==> r[i] == c
  {
    seq(n, i => c)
  }

  function Tabs(fmt: bool, depth: nat): string {
    if fmt then Repeat('\t', depth) else ""
  }

  /** The text of a value; `depth` counts the arrays and objects around it. */
  function Text(fmt: bool, depth: nat, j: Json): string
    decreases j, 2
  {
    match j
    case Invalid => ""
    case Null => "null"
    case False => "false"
    case True => "true"
    case Number(n) => Integer(n)
    case String(s) => Quoted(s)
    case Raw(s) => s
    case Array(items) => ArrayText(fmt, depth, items)
    case Object(ms) => ObjectText(fmt, depth, ms)
  }

  function ArrayText(fmt: bool, depth: nat, items: seq<Json>): string
    decreases items, 2
  {
    "[" + ItemsText(fmt, depth + 1, items) + "]"
  }

  function ObjectText(fmt: bool, depth: nat, ms: seq<Member>): string
    decreases ms, 5
  {
    ObjectOpen(fmt) + MembersText(fmt, depth + 1, ms) + (Tabs(fmt, depth) + "}")
  }

  function ObjectOpen(fmt: bool): string {
    if fmt then "{\n" else "{"
  }

  function ItemSeparator(fmt: bool, last: bool): string {
    if last then "" else if fmt then ", " else ","
  }

  function ItemsText(fmt: bool, depth: nat, items: seq<Json>): string
    decreases items, 1
  {
    if items == [] then ""
    else Text(fmt, depth, items[0]) + (ItemSeparator(fmt, |items| == 1) + ItemsText(fmt, depth, items[1..]))
  }

  function Colon(fmt: bool): string {
    if fmt then ":\t" else ":"
  }

  function MemberEnd(fmt: bool, last: bool): string {
    (if last then "" else ",") + (if fmt then "\n" else "")
  }

  function MemberText(fmt: bool, depth: nat, m: Member, last: bool): string
    decreases m, 3
  {
    Tabs(fmt, depth) + (Quoted(m.key) + (Colon(fmt) + (Text(fmt, depth, m.value) + MemberEnd(fmt, last))))
  }

  function MembersText(fmt: bool, depth: nat, ms: seq<Member>): string
    decreases ms, 4
  {
    if ms == [] then ""
    else MemberText(fmt, depth, ms[0], |ms| == 1) + MembersText(fmt, depth, ms[1..])
  }

  // ---------------------------------------------------------------------------
  // Parsing

  /** The content of a parse buffer: the text and the NUL that ends it. */
  type Content = s: string | s != [] && s[|s| - 1] == '\0' witness "\0"

  /** `buffer_skip_whitespace`: everything up to the space is skipped, the NUL too; at the
      end one step back is taken. */
  function SkipWhitespace(s: string, i: nat): (r: nat)
    requires i < |s|
    ensures i <= r < |s|
    ensures s[r] > ' ' || r == |s| - 1
    decreases |s| - i
  {
    if s[i] > ' ' || i == |s| - 1 then i else SkipWhitespace(s, i + 1)
  }

  predicate NumberChar(c: char) {
    '0' <= c <= '9' || c == '+' || c == '-' || c == 'e' || c == 'E' || c == '.'
  }

  /** What `parse_number` copies for `strtod`: at most 63 characters. */
  function NumberToken(s: string, i: nat, room: nat): (r: string)
    ensures |r| <= room && (i <= |s| ==> i + |r| <= |s|)
    ensures forall k :: 0 <= k < |r| ==> NumberChar(r[k])
    ensures i < |s| && NumberChar(s[i]) && room > 0 ==> |r| > 0
    ensures i <= |s| ==> r == s[i..i + |r|]
    decreases |s| - i
  {
    if room == 0 || i >= |s| || !NumberChar(s[i]) then ""
    else [s[i]] + NumberToken(s, i + 1, room - 1)
  }

  function DigitsEnd(t: string, i: nat): (r: nat)
    requires i <= |t|
    ensures i <= r <= |t| && forall k :: i <= k < r ==> '0' <= t[k] <= '9'
    ensures r < |t| ==> !('0' <= t[r] <= '9')
    decreases |t| - i
  {
    if i < |t| && '0' <= t[i] <= '9' then DigitsEnd(t, i + 1) else i
  }

  predicate At(t: string, i: nat, a: char, b: char) {
    i < |t| && (t[i] == a || t[i] == b)
  }

  /** `strtod` on the copied characters: how many it uses, none if there is no number, and
      the number.  A fraction or an exponent is used up but does not change the value. */
  function Strtod(t: string): (r: (nat, int))
    ensures r.0 <= |t|
  {
    var start := if At(t, 0, '+', '-') then 1 else 0;
    var point := DigitsEnd(t, start);
    var end := if At(t, point, '.', '.') then DigitsEnd(t, point + 1) else point;
    if point == start && end <= point + 1 then (0, 0)
    else
      var n: int := JsonPointer.NumberOf(t[start..point]);
      (ExponentEnd(t, end), if At(t, 0, '-', '-') then -n else n)
  }

  function ExponentEnd(t: string, i: nat): (r: nat)
    requires i <= |t|
    ensures i <= r <= |t|
  {
    if !At(t, i, 'e', 'E') then i
    else
      var first := if At(t, i + 1, '+', '-') then i + 2 else i + 1;
      var r := DigitsEnd(t, first);
      if r > first then r else i
  }

  function ParseNumber(s: string, i: nat): Parsed<Json> {
    var (used, n) := Strtod(NumberToken(s, i, 63));
    if used == 0 then Fail(i) else Ok(Number(n), i + used)
  }

  predicate StartsNumber(c: char) {
    c == '-' || '0' <= c <= '9'
  }

  /** A parse from `i` succeeded and stopped behind what it used, before the final NUL; or it
      failed with an error position in the text or at its end. */
  predicate Within<T>(s: string, i: nat, r: Parsed<T>) {
    match r
    case Ok(_, next) => i < next < |s|
    case Fail(at) => i <= at <= |s|
  }

  lemma StringWithin(s: Content, i: nat)
    requires i < |s|
    ensures Within(s, i, ParseString(s, i))
  {
  }

  lemma NumberWithin(s: Content, i: nat)
    requires i < |s|
    ensures Within(s, i, ParseNumber(s, i))
  {
    var t := NumberToken(s, i, 63);
    assert i + |t| < |s| by {
      assert t != "" ==> NumberChar(t[|t| - 1]) && t[|t| - 1] == s[i + |t| - 1];
    }
  }

  lemma NulOnlyAtEnd(s: Content, i: nat)
    ensures IsTextAt(s, i, "null") ==> i + 4 < |s|
    ensures IsTextAt(s, i, "false") ==> i + 5 < |s|
    ensures IsTextAt(s, i, "true") ==> i + 4 < |s|
  {
    if IsTextAt(s, i, "null") { assert s[i + 3] == "null"[3]; }
    if IsTextAt(s, i, "false") { assert s[i + 4] == "false"[4]; }
    if IsTextAt(s, i, "true") { assert s[i + 3] == "true"[3]; }
  }

  /** `parse_value`, `parse_array` and `parse_object`; `depth` counts the arrays and objects
      around position `i`. */
  ghost function ParseValue(s: Content, i: nat, depth: nat): (r: Parsed<Json>)
    requires i < |s|
    ensures Within(s, i, r)
    decreases |s| - i, 2
  {
    NulOnlyAtEnd(s, i);
    if IsTextAt(s, i, "null") then Ok(Null, i + 4)
    else if IsTextAt(s, i, "false") then Ok(False, i + 5)
    else if IsTextAt(s, i, "true") then Ok(True, i + 4)
    else if s[i] == '"' then
      StringWithin(s, i);
      match ParseString(s, i)
      case Ok(t, next) => Ok(String(t), next)
      case Fail(at) => Fail(at)
    else if StartsNumber(s[i]) then
      NumberWithin(s, i);
      ParseNumber(s, i)
    else if s[i] == '[' then ParseArray(s, i, depth)
    else if s[i] == '{' then ParseObject(s, i, depth)
    else Fail(i)
  }

  ghost function ParseArray(s: Content, i: nat, depth: nat): (r: Parsed<Json>)
    requires i < |s| && s[i] == '['
    ensures Within(s, i, r)
    decreases |s| - i, 1
  {
    if depth >= NESTING_LIMIT then Fail(i)
    else
      var first := SkipWhitespace(s, i + 1);
      if s[first] == ']' then Ok(Array([]), first + 1)
      else
        match ParseItems(s, first, depth + 1)
        case Ok(items, next) => Ok(Array(items), next)
        case Fail(at) => Fail(at)
  }

  /** The loop of `parse_array`, from behind the bracket or comma on. */
  ghost function ParseItems(s: Content, i: nat, depth: nat): (r: Parsed<seq<Json>>)
    requires i < |s|
    ensures Within(s, i, r)
    decreases |s| - i, 3
  {
    match ParseValue(s, SkipWhitespace(s, i), depth)
    case Fail(at) => Fail(at)
    case Ok(item, next) =>
      var e := SkipWhitespace(s, next);
      if s[e] == ',' then PrependItem(item, ParseItems(s, e + 1, depth))
      else if s[e] == ']' then Ok([item], e + 1)
      else Fail(e)
  }

  function PrependItem<T>(item: T, r: Parsed<seq<T>>): Parsed<seq<T>> {
    match r
    case Ok(items, next) => Ok([item] + items, next)
    case Fail(at) => Fail(at)
  }

  ghost function ParseObject(s: Content, i: nat, depth: nat): (r: Parsed<Json>)
    requires i < |s| && s[i] == '{'
    ensures Within(s, i, r)
    decreases |s| - i, 1
  {
    if depth >= NESTING_LIMIT then Fail(i)
    else
      var first := SkipWhitespace(s, i + 1);
      if s[first] == '}' then Ok(Object([]), first + 1)
      else
        match ParseMembers(s, first, depth + 1)
        case Ok(ms, next) => Ok(Object(ms), next)
        case Fail(at) => Fail(at)
  }

  /** A member: name, colon, value. */
  ghost function ParseMember(s: Content, i: nat, depth: nat): (r: Parsed<Member>)
    requires i < |s|
    ensures Within(s, i, r)
    decreases |s| - i, 3
  {
    StringWithin(s, SkipWhitespace(s, i));
    match ParseString(s, SkipWhitespace(s, i))
    case Fail(at) => Fail(at)
    case Ok(key, next) =>
      var c := SkipWhitespace(s, next);
      if s[c] != ':' then Fail(c)
      else
        match ParseValue(s, SkipWhitespace(s, c + 1), depth)
        case Fail(at) => Fail(at)
        case Ok(v, next) => Ok(Member(key, v), next)
  }

  /** The loop of `parse_object`, from behind the brace or comma on. */
  ghost function ParseMembers(s: Content, i: nat, depth: nat): (r: Parsed<seq<Member>>)
    requires i < |s|
    ensures Within(s, i, r)
    decreases |s| - i, 4
  {
    match ParseMember(s, i, depth)
    case Fail(at) => Fail(at)
    case Ok(m, next) =>
      var e := SkipWhitespace(s, next);
      if s[e] == ',' then PrependItem(m, ParseMembers(s, e + 1, depth))
      else if s[e] == '}' then Ok([m], e + 1)
      else Fail(e)
  }

  const BOM := "\U{00EF}\U{00BB}\U{00BF}"

  /** `skip_utf8_bom`. */
  function SkipBom(s: string): nat {
    if |s| > 4 && s[..3] == BOM then 3 else 0
  }

  /** `cJSON_ParseWithOpts` on a C string. */
  ghost function Parse(text: string, requireNullTerminated: bool): Parsed<Json>
  {
    var s: Content := text + "\0";
    match ParseValue(s, SkipWhitespace(s, SkipBom(s)), 0)
    case Fail(at) => Fail(if at < |s| then at else |s| - 1)
    case Ok(j, next) =>
      if requireNullTerminated then
        var e := SkipWhitespace(s, next);
        if s[e] == '\0' then Ok(j, e) else Fail(e)
      else Ok(j, next)
  }

  // ---------------------------------------------------------------------------
  // Parsing undoes printing

  /** Trees of the kinds RFC 8259 has, with integers short enough to be printed exactly. */
  predicate Plain(j: Json)
    decreases j
  {
    match j
    case Invalid => false
    case Raw(_) => false
    case Number(n) => -EXACT < n < EXACT
    case String(s) => NulFree(s)
    case Array(items) => forall i :: 0 <= i < |items| ==> Plain(items[i])
    case Object(ms) => forall i :: 0 <= i < |ms| ==> NulFree(ms[i].key) && Plain(ms[i].value)
    case _ => true
  }

  function Max(a: nat, b: nat): nat {
    if a < b then b else a
  }

  /** How deeply arrays and objects are nested. */
  function Nesting(j: Json): nat
    decreases j, 2
  {
    match j
    case Array(items) => 1 + NestingOfItems(items)
    case Object(ms) => 1 + NestingOfMembers(ms)
    case _ => 0
  }

  function NestingOfItems(items: seq<Json>): nat
    decreases items, 1
  {
    if items == [] then 0 else Max(Nesting(items[0]), NestingOfItems(items[1..]))
  }

  function NestingOfMembers(ms: seq<Member>): nat
    decreases ms, 4
  {
    if ms == [] then 0 else Max(Nesting(ms[0].value), NestingOfMembers(ms[1..]))
  }

  /** The parse found `value` and stopped at `end`, unless the nesting was too deep. */
  ghost predicate Reads<T>(r: Parsed<T>, value: T, end: nat, deep: bool) {
    if deep then r.Fail? else r == Ok(value, end)
  }

  lemma {:induction false} SkipRun(s: string, i: nat, n: nat)
    requires i + n < |s| && s[i + n] > ' '
    requires forall k :: i <= k < i + n ==> s[k] <= ' '
    ensures SkipWhitespace(s, i) == i + n
    decreases n
  {
    if n > 0 {
      SkipRun(s, i + 1, n - 1);
    }
  }

  /** Whitespace in the text at `i`, then something else. */
  lemma SkipText(s: string, i: nat, w: string)
    requires IsTextAt(s, i, w) && i + |w| < |s| && s[i + |w|] > ' '
    requires forall k :: 0 <= k < |w| ==> w[k] <= ' '
    ensures SkipWhitespace(s, i) == i + |w|
  {
    forall k | i <= k < i + |w| ensures s[k] <= ' ' {
      assert s[i + (k - i)] == w[k - i];
    }
    SkipRun(s, i, |w|);
  }

  function Pow10(k: nat): nat {
    if k == 0 then 1 else 10 * Pow10(k - 1)
  }

  lemma {:induction false} DecimalLength(n: nat, k: nat)
    requires n < Pow10(k) && k > 0
    ensures |JsonPointer.Decimal(n)| <= k
  {
    if n >= 10 {
      DecimalLength(n / 10, k - 1);
    }
  }

  lemma IntegerShape(n: int)
    requires -EXACT < n < EXACT
    ensures 0 < |Integer(n)| <= 16 && StartsNumber(Integer(n)[0])
    ensures forall k :: 0 <= k < |Integer(n)| ==> NumberChar(Integer(n)[k])
  {
    assert Pow10(5) == 100_000;
    assert Pow10(10) == 10_000_000_000;
    assert Pow10(15) == EXACT;
    DecimalLength(if n < 0 then -n else n, 15);
  }

  lemma {:induction false} TokenIs(s: string, i: nat, t: string, room: nat)
    requires IsTextAt(s, i, t) && |t| <= room && i + |t| < |s| && !NumberChar(s[i + |t|])
    requires forall k :: 0 <= k < |t| ==> NumberChar(t[k])
    ensures NumberToken(s, i, room) == t
    decreases |t|
  {
    if t != "" {
      assert t == [t[0]] + t[1..];
      TextAtCons(s, i, t[0], t[1..]);
      TokenIs(s, i + 1, t[1..], room - 1);
    }
  }

  lemma KeywordStart(s: string, i: nat, t: string)
    requires i < |s| && t != "" && s[i] != t[0]
    ensures !IsTextAt(s, i, t)
  {
    if IsTextAt(s, i, t) { FirstChar(s, i, t); }
  }

  lemma NoKeyword(s: string, i: nat)
    requires i < |s| && s[i] != 'n' && s[i] != 'f' && s[i] != 't'
    ensures !IsTextAt(s, i, "null") && !IsTextAt(s, i, "false") && !IsTextAt(s, i, "true")
  {
    KeywordStart(s, i, "null");
    KeywordStart(s, i, "false");
    KeywordStart(s, i, "true");
  }

  /** Text is never empty and starts with something visible. */
  lemma TextStart(fmt: bool, depth: nat, j: Json)
    requires Plain(j)
    ensures Text(fmt, depth, j) != "" && ' ' < Text(fmt, depth, j)[0] <= '~'
  {
    if j.Number? {
      IntegerShape(j.n);
    }
  }

  lemma DigitsRun(t: string, i: nat)
    requires i <= |t| && forall k :: i <= k < |t| ==> '0' <= t[k] <= '9'
    ensures DigitsEnd(t, i) == |t|
  {
  }

  lemma StrtodDigits(t: string, start: nat)
    requires start < |t| && (forall k :: start <= k < |t| ==> '0' <= t[k] <= '9')
    requires start == if At(t, 0, '+', '-') then 1 else 0
    ensures
      var n: int := JsonPointer.NumberOf(t[start..]);
      Strtod(t) == (|t|, if At(t, 0, '-', '-') then -n else n)
  {
    hide JsonPointer.NumberOf;
    DigitsRun(t, start);
    assert t[start..|t|] == t[start..];
  }

  lemma StrtodInteger(n: int)
    ensures Strtod(Integer(n)) == (|Integer(n)|, n)
  {
    hide Strtod, JsonPointer.Decimal;
    var t := Integer(n);
    if n < 0 {
      JsonPointer.NumberOfDecimal(-n);
      assert t[1..] == JsonPointer.Decimal(-n);
      assert forall k :: 1 <= k < |t| ==> t[k] == t[1..][k - 1];
      StrtodDigits(t, 1);
    } else {
      JsonPointer.NumberOfDecimal(n);
      assert t[0..] == t;
      StrtodDigits(t, 0);
    }
  }

  lemma ParseNumberText(s: Content, i: nat, depth: nat, n: int)
    requires -EXACT < n < EXACT
    requires IsTextAt(s, i, Integer(n)) && i + |Integer(n)| < |s| && !NumberChar(s[i + |Integer(n)|])
    ensures ParseValue(s, i, depth) == Ok(Number(n), i + |Integer(n)|)
  {
    hide Strtod, Integer;
    IntegerShape(n);
    FirstChar(s, i, Integer(n));
    TokenIs(s, i, Integer(n), 63);
    StrtodInteger(n);
    NoKeyword(s, i);
  }

  lemma ParseKeyword(s: Content, i: nat, depth: nat, j: Json)
    requires (j.Null? || j.False? || j.True?)
    requires IsTextAt(s, i, Text(false, 0, j)) && i < |s|
    ensures ParseValue(s, i, depth) == Ok(j, i + |Text(false, 0, j)|)
  {
    var t := Text(false, 0, j);
    FirstChar(s, i, t);
    if s[i] != 'n' { KeywordStart(s, i, "null"); }
    if s[i] != 'f' { KeywordStart(s, i, "false"); }
  }

  lemma ParseStringText(s: Content, i: nat, depth: nat, t: string)
    requires NulFree(t) && IsTextAt(s, i, Quoted(t)) && i < |s|
    ensures ParseValue(s, i, depth) == Ok(String(t), i + |Quoted(t)|)
  {
    ParseQuoted(s, i, t);
    NoKeyword(s, i);
  }

  /** Parsing text where it stands: the value comes back, with the position behind its text,
      exactly when the nesting limit is kept. */
  lemma {:induction false} ParseText(fmt: bool, indent: nat, j: Json, t: string, s: Content, i: nat, depth: nat)
    requires Plain(j) && depth <= NESTING_LIMIT
    requires t == Text(fmt, indent, j) && IsTextAt(s, i, t)
    requires i + |t| < |s| && !NumberChar(s[i + |t|])
    ensures Reads(ParseValue(s, i, depth), j, i + |t|, depth + Nesting(j) > NESTING_LIMIT)
    decreases j, 2
  {
    hide ItemsText, MembersText;
    match j
    case Number(n) => ParseNumberText(s, i, depth, n);
    case String(_) => ParseStringText(s, i, depth, j.s);
    case Array(_) =>
      ParseArrayText(fmt, indent, j.items, ItemsText(fmt, indent + 1, j.items), s, i, depth);
    case Object(_) =>
      ParseObjectText(fmt, indent, j.members, MembersText(fmt, indent + 1, j.members), s, i, depth);
    case _ => ParseKeyword(s, i, depth, j);
  }

  lemma {:induction false} ParseArrayText(fmt: bool, indent: nat, items: seq<Json>, t: string, s: Content, i: nat,
                                          depth: nat)
    requires Plain(Array(items)) && depth <= NESTING_LIMIT
    requires t == ItemsText(fmt, indent + 1, items) && IsTextAt(s, i, "[" + t + "]")
    requires i + |t| + 2 < |s|
    ensures Reads(ParseValue(s, i, depth), Array(items), i + |t| + 2, depth + Nesting(Array(items)) > NESTING_LIMIT)
    decreases items, 2
  {
    hide Text, ParseItems, ParseValue;
    BracketsAt(s, i, "[", t, "]");
    if items == [] {
      SkipRun(s, i + 1, 0);
      NoItems(s, i, depth);
    } else {
      ItemsStart(fmt, indent + 1, items, s, i + 1);
      SkipRun(s, i + 1, 0);
      if depth < NESTING_LIMIT {
        ParseItemsText(fmt, indent + 1, items, t, s, i + 1, i + 1, depth + 1);
      }
      ArrayOf(s, i, items, i + |t| + 2, depth);
    }
  }

  lemma NoItems(s: Content, i: nat, depth: nat)
    requires i + 1 < |s| && s[i] == '[' && s[i + 1] == ']' && SkipWhitespace(s, i + 1) == i + 1
    ensures Reads(ParseValue(s, i, depth), Array([]), i + 2, depth + 1 > NESTING_LIMIT)
    ensures Nesting(Array([])) == 1
  {
    ArrayAt(s, i, depth);
  }

  lemma ArrayOf(s: Content, i: nat, items: seq<Json>, end: nat, depth: nat)
    requires i + 1 < |s| && s[i] == '[' && s[i + 1] != ']' && SkipWhitespace(s, i + 1) == i + 1
    requires depth < NESTING_LIMIT ==>
      Reads(ParseItems(s, i + 1, depth + 1), items, end, depth + 1 + NestingOfItems(items) > NESTING_LIMIT)
    ensures Reads(ParseValue(s, i, depth), Array(items), end, depth + Nesting(Array(items)) > NESTING_LIMIT)
  {
    ArrayAt(s, i, depth);
  }

  lemma BracketsAt(s: string, i: nat, open: string, t: string, close: string)
    requires IsTextAt(s, i, open + t + close) && open != "" && close != ""
    ensures i + |open| + |t| < |s| && s[i] == open[0] && s[i + |open| + |t|] == close[0]
    ensures IsTextAt(s, i, open) && IsTextAt(s, i + |open|, t) && IsTextAt(s, i + |open| + |t|, close)
  {
    TextAtSplit(s, i, open + t, close);
    TextAtSplit(s, i, open, t);
    FirstChar(s, i, open);
    FirstChar(s, i + |open| + |t|, close);
  }

  lemma ArrayAt(s: Content, i: nat, depth: nat)
    requires i < |s| && s[i] == '['
    ensures ParseValue(s, i, depth) == ParseArray(s, i, depth)
  {
    NoKeyword(s, i);
  }

  lemma ObjectAt(s: Content, i: nat, depth: nat)
    requires i < |s| && s[i] == '{'
    ensures ParseValue(s, i, depth) == ParseObject(s, i, depth)
  {
    NoKeyword(s, i);
  }

  lemma ItemsStart(fmt: bool, indent: nat, items: seq<Json>, s: string, i: nat)
    requires items != [] && Plain(items[0])
    requires IsTextAt(s, i, ItemsText(fmt, indent, items))
    ensures i < |s| && ' ' < s[i] && s[i] != ']'
  {
    var t := Text(fmt, indent, items[0]);
    TextStart(fmt, indent, items[0]);
    TextAtSplit(s, i, t, ItemSeparator(fmt, |items| == 1) + ItemsText(fmt, indent, items[1..]));
    FirstChar(s, i, t);
    if items[0].Number? {
      IntegerShape(items[0].n);
    }
  }

  lemma {:induction false} ParseItemsText(fmt: bool, indent: nat, items: seq<Json>, t: string, s: Content, k: nat,
                                          i: nat, depth: nat)
    requires items != [] && Plain(Array(items)) && depth <= NESTING_LIMIT
    requires t == ItemsText(fmt, indent, items) && IsTextAt(s, i, t)
    requires i + |t| < |s| && s[i + |t|] == ']' && k < |s| && SkipWhitespace(s, k) == i
    ensures Reads(ParseItems(s, k, depth), items, i + |t| + 1, depth + NestingOfItems(items) > NESTING_LIMIT)
    decreases items, 1
  {
    hide Text, ItemsText, ParseValue, ParseItems;
    var e, next := ItemParts(fmt, indent, items, t, s, i);
    ParseText(fmt, indent, items[0], Text(fmt, indent, items[0]), s, i, depth);
    if |items| == 1 {
      assert items == [items[0]];
      LastItem(s, k, items[0], e, depth);
    } else {
      PlainTail(items);
      ParseItemsText(fmt, indent, items[1..], ItemsText(fmt, indent, items[1..]), s, e + 1, next, depth);
      MoreItems(s, k, items, e, i + |t| + 1, depth);
    }
  }

  lemma PlainTail(items: seq<Json>)
    requires items != [] && Plain(Array(items))
    ensures Plain(Array(items[1..]))
  {
  }

  /** Where the first item ends and the next one starts. */
  lemma ItemParts(fmt: bool, indent: nat, items: seq<Json>, t: string, s: string, i: nat) returns (e: nat, next: nat)
    requires items != [] && Plain(Array(items))
    requires t == ItemsText(fmt, indent, items) && IsTextAt(s, i, t)
    requires i + |t| < |s| && s[i + |t|] == ']'
    ensures IsTextAt(s, i, Text(fmt, indent, items[0])) && e == i + |Text(fmt, indent, items[0])|
    ensures e < |s| && SkipWhitespace(s, e) == e
    ensures s[e] == if |items| == 1 then ']' else ','
    ensures |items| == 1 ==> e == i + |t|
    ensures |items| > 1 ==>
      && e + 1 < |s| && SkipWhitespace(s, e + 1) == next
      && IsTextAt(s, next, ItemsText(fmt, indent, items[1..]))
      && next + |ItemsText(fmt, indent, items[1..])| == i + |t|
  {
    hide Text;
    var first := Text(fmt, indent, items[0]);
    var sep := ItemSeparator(fmt, |items| == 1);
    var rest := ItemsText(fmt, indent, items[1..]);
    e, next := i + |first|, i + |first| + |sep|;
    TextAtSplit(s, i, first, sep + rest);
    TextAtSplit(s, e, sep, rest);
    if |items| > 1 {
      FirstChar(s, e, sep);
      ItemsStart(fmt, indent, items[1..], s, next);
      assert fmt ==> s[e + 1] == sep[1];
      SkipRun(s, e + 1, |sep| - 1);
    }
    SkipRun(s, e, 0);
  }

  lemma MoreItems(s: Content, k: nat, items: seq<Json>, e: nat, end: nat, depth: nat)
    requires items != [] && k < |s| && e < |s| - 1 && s[e] == ',' && SkipWhitespace(s, e) == e
    requires Reads(ParseValue(s, SkipWhitespace(s, k), depth), items[0], e, depth + Nesting(items[0]) > NESTING_LIMIT)
    requires Reads(ParseItems(s, e + 1, depth), items[1..], end, depth + NestingOfItems(items[1..]) > NESTING_LIMIT)
    ensures Reads(ParseItems(s, k, depth), items, end, depth + NestingOfItems(items) > NESTING_LIMIT)
  {
    hide ParseValue;
    assert [items[0]] + items[1..] == items;
  }

  lemma LastItem(s: Content, k: nat, item: Json, e: nat, depth: nat)
    requires k < |s| && e < |s| - 1 && s[e] == ']' && SkipWhitespace(s, e) == e
    requires Reads(ParseValue(s, SkipWhitespace(s, k), depth), item, e, depth + Nesting(item) > NESTING_LIMIT)
    ensures Reads(ParseItems(s, k, depth), [item], e + 1, depth + NestingOfItems([item]) > NESTING_LIMIT)
  {
    hide ParseValue;
    assert [item][1..] == [];
    assert NestingOfItems([item]) == Nesting(item);
  }

  /** An indented closing brace. */
  lemma SkipToBrace(fmt: bool, depth: nat, lead: string, s: string, i: nat)
    requires IsTextAt(s, i, lead + (Tabs(fmt, depth) + "}")) && (lead == "" || lead == "\n")
    ensures SkipWhitespace(s, i) == i + |lead| + |Tabs(fmt, depth)|
    ensures s[i + |lead| + |Tabs(fmt, depth)|] == '}'
  {
    var w := Tabs(fmt, depth);
    assert lead + (w + "}") == (lead + w) + "}";
    TextAtSplit(s, i, lead + w, "}");
    FirstChar(s, i + |lead + w|, "}");
    SkipText(s, i, lead + w);
  }

  lemma {:induction false} ParseObjectText(fmt: bool, indent: nat, ms: seq<Member>, t: string, s: Content, i: nat,
                                           depth: nat)
    requires Plain(Object(ms)) && depth <= NESTING_LIMIT
    requires t == MembersText(fmt, indent + 1, ms) && IsTextAt(s, i, ObjectOpen(fmt) + t + (Tabs(fmt, indent) + "}"))
    requires i + |ObjectOpen(fmt)| + |t| + |Tabs(fmt, indent)| + 1 < |s|
    ensures Reads(ParseValue(s, i, depth), Object(ms), i + |ObjectOpen(fmt)| + |t| + |Tabs(fmt, indent)| + 1,
                  depth + Nesting(Object(ms)) > NESTING_LIMIT)
    decreases ms, 6
  {
    hide Text, ParseMembers, ParseValue;
    BracketsAt(s, i, ObjectOpen(fmt), t, Tabs(fmt, indent) + "}");
    var start := i + |ObjectOpen(fmt)|;
    if ms == [] {
      EmptyBody(fmt, indent, s, i);
      NoMembers(s, i, start + |Tabs(fmt, indent)|, depth);
    } else {
      ParseBodyText(fmt, indent, ms, t, s, i, start, depth);
    }
  }

  lemma {:induction false} ParseBodyText(fmt: bool, indent: nat, ms: seq<Member>, t: string, s: Content, i: nat,
                                         start: nat, depth: nat)
    requires ms != [] && Plain(Object(ms)) && depth <= NESTING_LIMIT && start == i + |ObjectOpen(fmt)|
    requires IsTextAt(s, i, ObjectOpen(fmt)) && s[i] == '{'
    requires t == MembersText(fmt, indent + 1, ms) && IsTextAt(s, start, t)
    requires IsTextAt(s, start + |t|, Tabs(fmt, indent) + "}") && start + |t| + |Tabs(fmt, indent)| + 1 < |s|
    ensures Reads(ParseValue(s, i, depth), Object(ms), start + |t| + |Tabs(fmt, indent)| + 1,
                  depth + Nesting(Object(ms)) > NESTING_LIMIT)
    decreases ms, 5
  {
    hide Text, MembersText, ParseMembers, ParseValue;
    var q := BodyStart(fmt, indent, ms, t, s, i);
    if depth < NESTING_LIMIT {
      ParseMembersText(fmt, indent, ms, t, s, q, start, depth + 1);
    }
    ObjectOf(s, i, q, ms, start + |t| + |Tabs(fmt, indent)| + 1, depth);
  }

  lemma BodyStart(fmt: bool, indent: nat, ms: seq<Member>, t: string, s: string, i: nat) returns (q: nat)
    requires ms != [] && NulFree(ms[0].key) && t == MembersText(fmt, indent + 1, ms)
    requires IsTextAt(s, i, ObjectOpen(fmt)) && IsTextAt(s, i + |ObjectOpen(fmt)|, t)
    ensures i + 1 < |s| && q == i + |ObjectOpen(fmt)| + |Tabs(fmt, indent + 1)| < |s|
    ensures SkipWhitespace(s, i + 1) == q && s[q] == '"' && SkipWhitespace(s, q) == q
  {
    hide MembersText;
    var start := i + |ObjectOpen(fmt)|;
    assert fmt ==> s[i + 1] == ObjectOpen(fmt)[1];
    FirstMember(fmt, indent + 1, ms, s, start);
    q := start + |Tabs(fmt, indent + 1)|;
    SkipFrom(s, i + 1, start, q);
    SkipRun(s, q, 0);
  }

  lemma NoMembers(s: Content, i: nat, close: nat, depth: nat)
    requires i + 1 < |s| && s[i] == '{' && SkipWhitespace(s, i + 1) == close && s[close] == '}'
    ensures Reads(ParseValue(s, i, depth), Object([]), close + 1, depth + 1 > NESTING_LIMIT)
    ensures Nesting(Object([])) == 1
  {
    ObjectAt(s, i, depth);
  }

  lemma ObjectOf(s: Content, i: nat, q: nat, ms: seq<Member>, end: nat, depth: nat)
    requires i + 1 < |s| && s[i] == '{' && SkipWhitespace(s, i + 1) == q && s[q] != '}'
    requires depth < NESTING_LIMIT ==>
      Reads(ParseMembers(s, q, depth + 1), ms, end, depth + 1 + NestingOfMembers(ms) > NESTING_LIMIT)
    ensures Reads(ParseValue(s, i, depth), Object(ms), end, depth + Nesting(Object(ms)) > NESTING_LIMIT)
  {
    ObjectAt(s, i, depth);
  }

  lemma EmptyBody(fmt: bool, indent: nat, s: string, i: nat)
    requires IsTextAt(s, i + |ObjectOpen(fmt)|, Tabs(fmt, indent) + "}") && IsTextAt(s, i, ObjectOpen(fmt))
    ensures i + 1 < |s|
    ensures SkipWhitespace(s, i + 1) == i + |ObjectOpen(fmt)| + |Tabs(fmt, indent)|
    ensures s[i + |ObjectOpen(fmt)| + |Tabs(fmt, indent)|] == '}'
  {
    var start := i + |ObjectOpen(fmt)|;
    assert "" + (Tabs(fmt, indent) + "}") == Tabs(fmt, indent) + "}";
    SkipToBrace(fmt, indent, "", s, start);
    assert fmt ==> s[i + 1] == ObjectOpen(fmt)[1];
  }

  /** A newline more or less in front changes nothing. */
  lemma SkipFrom(s: string, i: nat, start: nat, q: nat)
    requires start < |s| && (i == start || (i + 1 == start && s[i] <= ' ')) && SkipWhitespace(s, start) == q
    ensures SkipWhitespace(s, i) == q
  {
  }

  lemma FirstMemberAt(fmt: bool, indent: nat, ms: seq<Member>, s: string, i: nat)
    requires ms != [] && IsTextAt(s, i, MembersText(fmt, indent, ms))
    ensures IsTextAt(s, i, MemberText(fmt, indent, ms[0], |ms| == 1))
    ensures IsTextAt(s, i + |MemberText(fmt, indent, ms[0], |ms| == 1)|, MembersText(fmt, indent, ms[1..]))
    ensures |MembersText(fmt, indent, ms)| == |MemberText(fmt, indent, ms[0], |ms| == 1)|
      + |MembersText(fmt, indent, ms[1..])|
    ensures |ms| == 1 ==> MembersText(fmt, indent, ms) == MemberText(fmt, indent, ms[0], true)
  {
    hide MemberText;
    TextAtSplit(s, i, MemberText(fmt, indent, ms[0], |ms| == 1), MembersText(fmt, indent, ms[1..]));
  }

  lemma FirstMember(fmt: bool, indent: nat, ms: seq<Member>, s: string, i: nat)
    requires ms != [] && IsTextAt(s, i, MembersText(fmt, indent, ms)) && NulFree(ms[0].key)
    ensures i < |s| && SkipWhitespace(s, i) == i + |Tabs(fmt, indent)|
    ensures s[i + |Tabs(fmt, indent)|] == '"'
  {
    hide Text, MembersText;
    FirstMemberAt(fmt, indent, ms, s, i);
    var m, w := ms[0], Tabs(fmt, indent);
    var r := Colon(fmt) + (Text(fmt, indent, m.value) + MemberEnd(fmt, |ms| == 1));
    TextAtSplit(s, i, w, Quoted(m.key) + r);
    TextAtSplit(s, i + |w|, Quoted(m.key), r);
    ParseQuoted(s, i + |w|, m.key);
    SkipText(s, i, w);
  }

  /** One member, from anywhere in the whitespace before its name; `e` is where its value
      ends. */
  lemma {:induction false} ParseMemberText(fmt: bool, indent: nat, m: Member, last: bool, s: Content, k: nat, i: nat,
                                           e: nat, depth: nat)
    requires Plain(m.value) && NulFree(m.key) && depth <= NESTING_LIMIT
    requires IsTextAt(s, i, MemberText(fmt, indent, m, last)) && k < |s|
      && SkipWhitespace(s, k) == i + |Tabs(fmt, indent)|
    requires e == i + |MemberText(fmt, indent, m, last)| - |MemberEnd(fmt, last)| < |s| && !NumberChar(s[e])
    ensures Reads(ParseMember(s, k, depth), m, e, depth + Nesting(m.value) > NESTING_LIMIT)
    decreases m, 3
  {
    hide Text, MemberText, ParseMember, ParseValue;
    var q, c, v := MemberParts(fmt, indent, m, last, s, i);
    ParseText(fmt, indent, m.value, Text(fmt, indent, m.value), s, v, depth);
    MemberAt(s, k, q, m, c, v, e, depth);
  }

  /** Where name, colon and value of a member stand. */
  lemma MemberParts(fmt: bool, indent: nat, m: Member, last: bool, s: string, i: nat) returns (q: nat, c: nat, v: nat)
    requires Plain(m.value) && NulFree(m.key)
    requires IsTextAt(s, i, MemberText(fmt, indent, m, last))
    ensures q == i + |Tabs(fmt, indent)| < |s| && ParseString(s, q) == Ok(m.key, c) && c < |s|
    ensures s[c] == ':' && SkipWhitespace(s, c) == c && c + 1 < |s| && SkipWhitespace(s, c + 1) == v
    ensures IsTextAt(s, v, Text(fmt, indent, m.value))
    ensures v + |Text(fmt, indent, m.value)| == i + |MemberText(fmt, indent, m, last)| - |MemberEnd(fmt, last)|
  {
    hide Text;
    var w, t, end := Tabs(fmt, indent), Text(fmt, indent, m.value), MemberEnd(fmt, last);
    TextAtSplit(s, i, w, Quoted(m.key) + (Colon(fmt) + (t + end)));
    q := i + |w|;
    TextAtSplit(s, q, Quoted(m.key), Colon(fmt) + (t + end));
    c := q + |Quoted(m.key)|;
    TextAtSplit(s, c, Colon(fmt), t + end);
    v := c + |Colon(fmt)|;
    TextAtSplit(s, v, t, end);
    ParseQuoted(s, q, m.key);
    ColonBetween(fmt, s, c);
    ValueStart(fmt, indent, m.value, s, v);
    SkipRun(s, c + 1, |Colon(fmt)| - 1);
  }

  lemma ValueStart(fmt: bool, indent: nat, j: Json, s: string, v: nat)
    requires Plain(j) && IsTextAt(s, v, Text(fmt, indent, j))
    ensures v < |s| && s[v] > ' '
  {
    TextStart(fmt, indent, j);
    FirstChar(s, v, Text(fmt, indent, j));
  }

  lemma MemberAt(s: Content, k: nat, q: nat, m: Member, c: nat, v: nat, e: nat, depth: nat)
    requires k < |s| && SkipWhitespace(s, k) == q && ParseString(s, q) == Ok(m.key, c)
    requires c + 1 < |s| && SkipWhitespace(s, c) == c && s[c] == ':' && SkipWhitespace(s, c + 1) == v
    requires Reads(ParseValue(s, v, depth), m.value, e, depth + Nesting(m.value) > NESTING_LIMIT)
    ensures Reads(ParseMember(s, k, depth), m, e, depth + Nesting(m.value) > NESTING_LIMIT)
  {
  }

  lemma ColonBetween(fmt: bool, s: string, c: nat)
    requires IsTextAt(s, c, Colon(fmt))
    ensures c < |s| && s[c] == ':' && SkipWhitespace(s, c) == c && (fmt ==> s[c + 1] == '\t')
  {
    FirstChar(s, c, Colon(fmt));
    assert fmt ==> s[c + 1] == Colon(fmt)[1];
    SkipRun(s, c, 0);
  }

  lemma {:induction false} ParseMembersText(fmt: bool, indent: nat, ms: seq<Member>, t: string, s: Content, k: nat,
                                            i: nat, depth: nat)
    requires ms != [] && Plain(Object(ms)) && depth <= NESTING_LIMIT
    requires t == MembersText(fmt, indent + 1, ms) && IsTextAt(s, i, t)
    requires k < |s| && SkipWhitespace(s, k) == i + |Tabs(fmt, indent + 1)|
    requires IsTextAt(s, i + |t|, Tabs(fmt, indent) + "}") && i + |t| + |Tabs(fmt, indent)| + 1 < |s|
    ensures Reads(ParseMembers(s, k, depth), ms, i + |t| + |Tabs(fmt, indent)| + 1,
                  depth + NestingOfMembers(ms) > NESTING_LIMIT)
    decreases ms, 4
  {
    hide Text, MemberText, MembersText, ParseMember, ParseMembers, Plain, NulFree, SkipWhitespace, Nesting,
      NestingOfMembers, Tabs, MemberEnd;
    FirstMemberAt(fmt, indent + 1, ms, s, i);
    PlainMembers(ms);
    if |ms| == 1 {
      assert ms == [ms[0]];
      var e := LastParts(fmt, indent, ms[0], t, s, i);
      ParseMemberText(fmt, indent + 1, ms[0], true, s, k, i, e, depth);
      LastMember(s, k, ms[0], e, i + |t| + |Tabs(fmt, indent)|, depth);
    } else {
      var e, next := FirstParts(fmt, indent + 1, ms[0], ms[1..], s, i);
      ParseMemberText(fmt, indent + 1, ms[0], false, s, k, i, e, depth);
      ParseMembersText(fmt, indent, ms[1..], MembersText(fmt, indent + 1, ms[1..]), s, e + 1, next, depth);
      MoreMembers(s, k, ms, e, i + |t| + |Tabs(fmt, indent)| + 1, depth);
    }
  }

  lemma PlainMembers(ms: seq<Member>)
    requires ms != [] && Plain(Object(ms))
    ensures NulFree(ms[0].key) && Plain(ms[0].value) && Plain(Object(ms[1..]))
    ensures |ms| > 1 ==> NulFree(ms[1..][0].key)
  {
  }

  /** Where the only value ends, and what is found behind it. */
  lemma LastParts(fmt: bool, indent: nat, m: Member, t: string, s: string, i: nat) returns (e: nat)
    requires t == MemberText(fmt, indent + 1, m, true) && IsTextAt(s, i, t)
    requires IsTextAt(s, i + |t|, Tabs(fmt, indent) + "}") && i + |t| + |Tabs(fmt, indent)| + 1 < |s|
    ensures e == i + |t| - |MemberEnd(fmt, true)| < |s| - 1 && !NumberChar(s[e])
    ensures SkipWhitespace(s, e) == i + |t| + |Tabs(fmt, indent)| && s[i + |t| + |Tabs(fmt, indent)|] == '}'
  {
    e := i + |t| - |MemberEnd(fmt, true)|;
    MemberTail(fmt, indent + 1, m, true, s, i);
    SkipToEnd(fmt, indent, s, e);
  }

  /** Where the first of several values ends, and where the next member starts. */
  lemma FirstParts(fmt: bool, indent: nat, m: Member, rest: seq<Member>, s: string, i: nat) returns (e: nat, next: nat)
    requires rest != [] && NulFree(rest[0].key) && IsTextAt(s, i, MemberText(fmt, indent, m, false))
    requires IsTextAt(s, i + |MemberText(fmt, indent, m, false)|, MembersText(fmt, indent, rest))
    ensures next == i + |MemberText(fmt, indent, m, false)| && e == next - |MemberEnd(fmt, false)| < |s| - 1
    ensures s[e] == ',' && SkipWhitespace(s, e) == e && SkipWhitespace(s, e + 1) == next + |Tabs(fmt, indent)|
  {
    hide Text, MembersText;
    next := i + |MemberText(fmt, indent, m, false)|;
    e := next - |MemberEnd(fmt, false)|;
    MemberTail(fmt, indent, m, false, s, i);
    CommaEnd(fmt, s, e);
    FirstMember(fmt, indent, rest, s, next);
    SkipFrom(s, e + 1, next, next + |Tabs(fmt, indent)|);
  }

  lemma MoreMembers(s: Content, k: nat, ms: seq<Member>, e: nat, end: nat, depth: nat)
    requires ms != [] && k < |s| && e < |s| - 1 && s[e] == ',' && SkipWhitespace(s, e) == e
    requires Reads(ParseMember(s, k, depth), ms[0], e, depth + Nesting(ms[0].value) > NESTING_LIMIT)
    requires Reads(ParseMembers(s, e + 1, depth), ms[1..], end, depth + NestingOfMembers(ms[1..]) > NESTING_LIMIT)
    ensures Reads(ParseMembers(s, k, depth), ms, end, depth + NestingOfMembers(ms) > NESTING_LIMIT)
  {
    hide ParseMember, ParseValue, SkipWhitespace, ParseMembers, Nesting;
    MembersUnfold(s, k, depth);
    assert [ms[0]] + ms[1..] == ms;
  }

  /** A member with a comma behind it. */
  lemma MembersUnfold(s: Content, k: nat, depth: nat)
    requires k < |s|
    ensures ParseMember(s, k, depth).Fail? ==> ParseMembers(s, k, depth).Fail?
    ensures ParseMember(s, k, depth).Ok? ==>
      var e := SkipWhitespace(s, ParseMember(s, k, depth).next);
      s[e] == ',' ==>
        ParseMembers(s, k, depth) == PrependItem(ParseMember(s, k, depth).value, ParseMembers(s, e + 1, depth))
  {
    hide ParseMember, SkipWhitespace;
  }

  lemma LastMember(s: Content, k: nat, m: Member, e: nat, close: nat, depth: nat)
    requires k < |s| && e < |s| - 1 && SkipWhitespace(s, e) == close && s[close] == '}'
    requires Reads(ParseMember(s, k, depth), m, e, depth + Nesting(m.value) > NESTING_LIMIT)
    ensures Reads(ParseMembers(s, k, depth), [m], close + 1, depth + NestingOfMembers([m]) > NESTING_LIMIT)
  {
    hide ParseMember, ParseValue;
    assert [m][1..] == [];
    assert NestingOfMembers([m]) == Nesting(m.value);
  }

  lemma TextAtJoin(s: string, i: nat, a: string, b: string)
    requires IsTextAt(s, i, a) && IsTextAt(s, i + |a|, b)
    ensures IsTextAt(s, i, a + b)
  {
    forall k | 0 <= k < |a + b| ensures s[i + k] == (a + b)[k] {
      if k >= |a| { assert s[i + |a| + (k - |a|)] == b[k - |a|]; }
    }
  }

  /** Behind the last member there is a newline and the indented brace, or just the brace. */
  lemma SkipToEnd(fmt: bool, indent: nat, s: string, e: nat)
    requires IsTextAt(s, e, MemberEnd(fmt, true)) && IsTextAt(s, e + |MemberEnd(fmt, true)|, Tabs(fmt, indent) + "}")
    ensures e < |s| && !NumberChar(s[e])
    ensures SkipWhitespace(s, e) == e + |MemberEnd(fmt, true)| + |Tabs(fmt, indent)|
    ensures s[e + |MemberEnd(fmt, true)| + |Tabs(fmt, indent)|] == '}'
  {
    var lead, tail := MemberEnd(fmt, true), Tabs(fmt, indent) + "}";
    TextAtJoin(s, e, lead, tail);
    SkipToBrace(fmt, indent, lead, s, e);
    FirstChar(s, e, lead + tail);
  }

  lemma MemberTail(fmt: bool, indent: nat, m: Member, last: bool, s: string, i: nat)
    requires IsTextAt(s, i, MemberText(fmt, indent, m, last))
    ensures IsTextAt(s, i + |MemberText(fmt, indent, m, last)| - |MemberEnd(fmt, last)|, MemberEnd(fmt, last))
  {
    hide Text;
    var w, t, end := Tabs(fmt, indent), Text(fmt, indent, m.value), MemberEnd(fmt, last);
    TextAtSplit(s, i, w, Quoted(m.key) + (Colon(fmt) + (t + end)));
    TextAtSplit(s, i + |w|, Quoted(m.key), Colon(fmt) + (t + end));
    TextAtSplit(s, i + |w| + |Quoted(m.key)|, Colon(fmt), t + end);
    TextAtSplit(s, i + |w| + |Quoted(m.key)| + |Colon(fmt)|, t, end);
  }

  lemma CommaEnd(fmt: bool, s: string, e: nat)
    requires IsTextAt(s, e, MemberEnd(fmt, false))
    ensures e < |s| && s[e] == ',' && SkipWhitespace(s, e) == e && (fmt ==> s[e + 1] <= ' ')
  {
    FirstChar(s, e, MemberEnd(fmt, false));
    assert fmt ==> s[e + 1] == MemberEnd(fmt, false)[1];
    SkipRun(s, e, 0);
  }

  lemma NoBom(s: Content)
    requires s[0] <= '~'
    ensures SkipBom(s) == 0
  {
    if |s| > 4 {
      assert s[..3][0] != BOM[0];
    }
  }

  /** Parsing the text of a tree, formatted or not, gives the tree back and uses the whole
      text, exactly when arrays and objects are nested no deeper than the limit. */
  lemma RoundTrip(fmt: bool, j: Json, requireNullTerminated: bool)
    requires Plain(j)
    ensures
      var text := Text(fmt, 0, j);
      && (Parse(text, requireNullTerminated) == Ok(j, |text|) <==> Nesting(j) <= NESTING_LIMIT)
      && (Parse(text, requireNullTerminated).Fail? <==> Nesting(j) > NESTING_LIMIT)
  {
    var text := Text(fmt, 0, j);
    var s: Content := text + "\0";
    assert s[..|text|] == text;
    TextStart(fmt, 0, j);
    assert s[0] == text[0];
    NoBom(s);
    SkipRun(s, 0, 0);
    ParseText(fmt, 0, j, text, s, 0, 0);
  }
}
