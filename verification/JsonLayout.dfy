/** How formatted and unformatted JSON text differ: by blanks outside strings, put where the
    brackets say. */
module JsonLayout {
  import opened Json
  import opened JsonStrings
  import opened JsonText

  // ---------------------------------------------------------------------------
  // Reading a text character by character

  /** Outside the strings of the text, in one, or behind a backslash in one. */
  datatype Mode = Outside | InString | InEscape

  function Switch(c: char, m: Mode): Mode {
    match m
    case InEscape => InString
    case InString => if c == '"' then Outside else if c == '\\' then InEscape else InString
    case Outside => if c == '"' then InString else Outside
  }

  predicate Blank(c: char) {
    c == ' ' || c == '\t' || c == '\n'
  }

  /** The text without the blanks outside its strings. */
  function Stripped(t: string, m: Mode): string {
    if t == "" then ""
    else (if m == Outside && Blank(t[0]) then "" else [t[0]]) + Stripped(t[1..], Switch(t[0], m))
  }

  function Behind(t: string, m: Mode): Mode {
    if t == "" then m else Behind(t[1..], Switch(t[0], m))
  }

  /** The place in a text: the brackets that are open, and whether a brace has just been opened. */
  datatype Place = Place(mode: Mode, open: string, first: bool)

  function Advance(c: char, z: Place): Place {
    if z.mode != Outside then z.(mode := Switch(c, z.mode))
    else if c == '{' || c == '[' then Place(Outside, z.open + [c], c == '{')
    else if c == '}' || c == ']' then Place(Outside, if z.open == "" then "" else z.open[..|z.open| - 1], false)
    else Place(Switch(c, Outside), z.open, false)
  }

  function Line(depth: nat): string {
    "\n" + Indent(depth)
  }

  function Indent(depth: nat): (r: string)
    ensures |r| == depth && forall i :: 0 <= i < depth ==> r[i] == '\t'
  {
    if depth == 0 then "" else Indent(depth - 1) + "\t"
  }

  /** What a character becomes when the text is laid out: members stand on lines of their own, with
      a tab for each open bracket, elements on one line with a space between. */
  function LaidOut(c: char, z: Place): string {
    if z.mode != Outside then [c]
    else if c == '}' then (if z.first then "" else "\n") + Indent(if z.open == "" then 0 else |z.open| - 1) + "}"
    else
      (if z.first then Indent(|z.open|) else "")
      + if c == '{' then "{\n"
        else if c == ',' then (if z.open != "" && z.open[|z.open| - 1] == '{' then "," + Line(|z.open|) else ", ")
        else if c == ':' then ":\t"
        else [c]
  }

  function Layout(t: string, z: Place): string {
    if t == "" then "" else LaidOut(t[0], z) + Layout(t[1..], Advance(t[0], z))
  }

  function Reached(t: string, z: Place): Place {
    if t == "" then z else Reached(t[1..], Advance(t[0], z))
  }

  const Start := Place(Outside, "", false)

  // ---------------------------------------------------------------------------
  // Texts in a row

  lemma {:induction false} StrippedConcat(a: string, b: string, m: Mode)
    ensures Stripped(a + b, m) == Stripped(a, m) + Stripped(b, Behind(a, m))
    ensures Behind(a + b, m) == Behind(b, Behind(a, m))
  {
    hide Blank, Switch;
    if a == "" {
      assert a + b == b;
    } else {
      assert (a + b)[0] == a[0] && (a + b)[1..] == a[1..] + b;
      StrippedConcat(a[1..], b, Switch(a[0], m));
      Regrouped(if m == Outside && Blank(a[0]) then "" else [a[0]], Stripped(a[1..], Switch(a[0], m)),
        Stripped(b, Behind(a, m)));
    }
  }

  lemma Regrouped(a: string, b: string, c: string)
    ensures a + (b + c) == (a + b) + c
  {
  }

  lemma {:induction false} LayoutConcat(a: string, b: string, z: Place)
    ensures Layout(a + b, z) == Layout(a, z) + Layout(b, Reached(a, z))
    ensures Reached(a + b, z) == Reached(b, Reached(a, z))
  {
    hide LaidOut, Advance;
    if a == "" {
      assert a + b == b;
    } else {
      assert (a + b)[0] == a[0] && (a + b)[1..] == a[1..] + b;
      LayoutConcat(a[1..], b, Advance(a[0], z));
    }
  }

  lemma OneStripped(c: char, m: Mode)
    ensures Stripped([c], m) == if m == Outside && Blank(c) then "" else [c]
    ensures Behind([c], m) == Switch(c, m)
  {
    assert [c][1..] == "";
  }

  lemma OneLaidOut(c: char, z: Place)
    ensures Layout([c], z) == LaidOut(c, z) && Reached([c], z) == Advance(c, z)
  {
    assert [c][1..] == "";
  }

  // ---------------------------------------------------------------------------
  // Strings, numbers and keywords

  /** Inside a string nothing is changed. */
  lemma {:induction false} InsideStays(t: string, m: Mode, z: Place)
    requires m != Outside && z.mode == m && KeepsInside(t, m)
    ensures Stripped(t, m) == t && Layout(t, z) == t
    ensures Reached(t, z) == z.(mode := Behind(t, m))
  {
    if t != "" {
      var next := Switch(t[0], m);
      if next != Outside { InsideStays(t[1..], next, z.(mode := next)); }
    }
  }

  /** The string does not end before the text does. */
  predicate KeepsInside(t: string, m: Mode) {
    t == "" || m == Outside || (Switch(t[0], m) != Outside && KeepsInside(t[1..], Switch(t[0], m)))
  }

  lemma {:induction false} InsideConcat(a: string, b: string, m: Mode)
    requires m != Outside && KeepsInside(a, m) && KeepsInside(b, Behind(a, m))
    ensures KeepsInside(a + b, m) && Behind(a + b, m) == Behind(b, Behind(a, m))
    decreases |a|
  {
    if a == "" {
      assert a + b == b;
    } else {
      assert (a + b)[0] == a[0] && (a + b)[1..] == a[1..] + b;
      InsideConcat(a[1..], b, Switch(a[0], m));
    }
  }

  lemma EscapedCharInside(c: char)
    ensures KeepsInside(EscapedChar(c), InString) && Behind(EscapedChar(c), InString) == InString
  {
    var e := EscapedChar(c);
    if Shorthand(c).Some? {
      PairInside(e);
    } else if c < ' ' {
      PlainInside(e[2..]);
      PairInside(e[..2]);
      assert e == e[..2] + e[2..];
      InsideConcat(e[..2], e[2..], InString);
    } else {
      PlainInside(e);
    }
  }

  lemma PairInside(e: string)
    requires |e| == 2 && e[0] == '\\'
    ensures KeepsInside(e, InString) && Behind(e, InString) == InString
  {
    assert e[1..] == [e[1]] && e[1..][1..] == "";
    assert KeepsInside(e[1..][1..], InString) && Behind(e[1..][1..], InString) == InString;
    assert KeepsInside(e[1..], InEscape) && Behind(e[1..], InEscape) == InString;
  }

  lemma {:induction false} PlainInside(t: string)
    requires '"' !in t && '\\' !in t
    ensures KeepsInside(t, InString) && Behind(t, InString) == InString
  {
    if t != "" { PlainInside(t[1..]); }
  }

  lemma {:induction false} EscapedInside(s: string)
    ensures KeepsInside(Escaped(s), InString) && Behind(Escaped(s), InString) == InString
  {
    hide EscapedChar;
    if s != "" {
      EscapedCharInside(s[0]);
      EscapedInside(s[1..]);
      InsideConcat(EscapedChar(s[0]), Escaped(s[1..]), InString);
    }
  }

  /** A printed string stands as it is. */
  lemma QuotedStays(s: string, z: Place)
    requires z.mode == Outside
    ensures Stripped(Quoted(s), Outside) == Quoted(s) && Behind(Quoted(s), Outside) == Outside
    ensures Layout(Quoted(s), z) == (if z.first then Indent(|z.open|) else "") + Quoted(s)
    ensures Reached(Quoted(s), z) == z.(first := false)
  {
    hide Escaped, Stripped, Behind, Layout, Reached;
    var e, inside := Escaped(s), z.(mode := InString, first := false);
    EscapedInside(s);
    InsideStays(e, InString, inside);
    OneStripped('"', Outside);
    OneStripped('"', InString);
    OneLaidOut('"', z);
    OneLaidOut('"', inside);
    StrippedConcat("\"" + e, "\"", Outside);
    StrippedConcat("\"", e, Outside);
    LayoutConcat("\"" + e, "\"", z);
    LayoutConcat("\"", e, z);
  }

  /** So does a word without blanks, quotes, brackets, commas and colons. */
  predicate Ordinary(c: char) {
    && !Blank(c) && c != '"' && c != '{' && c != '}' && c != '[' && c != ']' && c != ',' && c != ':'
  }

  predicate Word(t: string) {
    forall i :: 0 <= i < |t| ==> Ordinary(t[i])
  }

  lemma {:induction false} RestOfWord(t: string, z: Place)
    requires Word(t) && z.mode == Outside && !z.first
    ensures Stripped(t, Outside) == t && Behind(t, Outside) == Outside && Layout(t, z) == t && Reached(t, z) == z
  {
    hide Ordinary, LaidOut, Advance, Switch;
    if t != "" {
      OrdinaryStays(t[0], z);
      RestOfWord(t[1..], z);
    }
  }

  lemma OrdinaryStays(c: char, z: Place)
    requires Ordinary(c) && z.mode == Outside
    ensures !Blank(c) && Switch(c, Outside) == Outside
    ensures LaidOut(c, z) == (if z.first then Indent(|z.open|) else "") + [c] && Advance(c, z) == z.(first := false)
  {
  }

  lemma WordStays(t: string, z: Place)
    requires Word(t) && t != "" && z.mode == Outside
    ensures Stripped(t, Outside) == t && Behind(t, Outside) == Outside
    ensures Layout(t, z) == (if z.first then Indent(|z.open|) else "") + t && Reached(t, z) == z.(first := false)
  {
    hide Ordinary, LaidOut, Advance, Switch, Layout, Reached, Stripped, Behind, Blank, Indent;
    var next := z.(first := false);
    OrdinaryStays(t[0], z);
    RestOfWord(t[1..], next);
    FirstOfWord(t, z, next);
    Regroup(if z.first then Indent(|z.open|) else "", t);
  }

  lemma FirstOfWord(t: string, z: Place, next: Place)
    requires t != "" && Advance(t[0], z) == next && !Blank(t[0]) && Switch(t[0], Outside) == Outside
    ensures Layout(t, z) == LaidOut(t[0], z) + Layout(t[1..], next) && Reached(t, z) == Reached(t[1..], next)
    ensures Stripped(t, Outside) == [t[0]] + Stripped(t[1..], Outside) && Behind(t, Outside) == Behind(t[1..], Outside)
  {
  }

  lemma Regroup(a: string, t: string)
    requires t != ""
    ensures a + [t[0]] + t[1..] == a + t && [t[0]] + t[1..] == t
  {
  }

  lemma IntegerWord(n: int)
    ensures Word(Integer(n)) && Integer(n) != ""
  {
    var t := Integer(n);
    forall i | 0 <= i < |t| ensures Ordinary(t[i]) {
      assert t[i] == '-' || '0' <= t[i] <= '9';
    }
  }

  lemma IndentIs(depth: nat)
    ensures Tabs(true, depth) == Indent(depth) && Tabs(false, depth) == ""
  {
  }

  // ---------------------------------------------------------------------------
  // The formatted text without its blanks

  predicate Clean(t: string, r: string) {
    Stripped(t, Outside) == r && Behind(t, Outside) == Outside
  }

  lemma CleanConcat(a: string, x: string, b: string, y: string)
    requires Clean(a, x) && Clean(b, y)
    ensures Clean(a + b, x + y)
  {
    StrippedConcat(a, b, Outside);
  }

  lemma {:induction false} CleanBlanks(t: string)
    requires forall i :: 0 <= i < |t| ==> Blank(t[i])
    ensures Clean(t, "")
  {
    if t != "" { CleanBlanks(t[1..]); }
  }

  /** The marks between the values. */
  lemma CleanMarks(fmt: bool, depth: nat, last: bool)
    ensures Clean("[", "[") && Clean("]", "]") && Clean(ObjectOpen(fmt), "{") && Clean(Tabs(fmt, depth) + "}", "}")
    ensures Clean(Tabs(fmt, depth), "") && Clean(ItemSeparator(fmt, last), ItemSeparator(false, last))
    ensures Clean(Colon(fmt), ":") && Clean(MemberEnd(fmt, last), MemberEnd(false, last))
  {
    hide Stripped, Behind;
    CleanBlanks(Tabs(fmt, depth));
    CleanBlanks("\n");
    CleanBlanks(" ");
    CleanBlanks("\t");
    CleanBlanks("");
    assert Clean("[", "[") && Clean("]", "]") && Clean("{", "{") && Clean("}", "}") && Clean(",", ",")
      && Clean(":", ":") by {
      OneClean('[');
      OneClean(']');
      OneClean('{');
      OneClean('}');
      OneClean(',');
      OneClean(':');
    }
    CleanConcat("{", "{", "\n", "");
    CleanConcat(Tabs(fmt, depth), "", "}", "}");
    CleanConcat(",", ",", " ", "");
    CleanConcat(":", ":", "\t", "");
    CleanConcat(",", ",", "\n", "");
    assert "" + "}" == "}" && "{" + "" == "{" && "," + "" == "," && ":" + "" == ":" && "" + "\n" == "\n";
    assert "{" + "\n" == "{\n" && "," + " " == ", " && ":" + "\t" == ":\t" && "," + "\n" == ",\n";
  }

  lemma OneClean(c: char)
    requires c != '"' && !Blank(c)
    ensures Clean([c], [c])
  {
    OneStripped(c, Outside);
  }

  lemma {:induction false} TextStripped(fmt: bool, depth: nat, deep: nat, j: Json)
    requires Plain(j)
    ensures Clean(Text(fmt, depth, j), Text(false, deep, j))
    decreases j, 2
  {
    hide Clean, Integer, Quoted, ItemsText, MembersText, Tabs, ObjectOpen;
    CleanMarks(fmt, depth, true);
    CleanMarks(false, deep, true);
    match j {
      case Number(n) => CleanInteger(n);
      case String(t) => CleanQuoted(t);
      case Array(items) =>
        var a, b := ItemsText(fmt, depth + 1, items), ItemsText(false, deep + 1, items);
        ItemsStripped(fmt, depth + 1, deep + 1, items);
        CleanConcat("[", "[", a, b);
        CleanConcat("[" + a, "[" + b, "]", "]");
      case Object(ms) =>
        var a, b := MembersText(fmt, depth + 1, ms), MembersText(false, deep + 1, ms);
        MembersStripped(fmt, depth + 1, deep + 1, ms);
        CleanConcat(ObjectOpen(fmt), "{", a, b);
        CleanConcat(ObjectOpen(fmt) + a, "{" + b, Tabs(fmt, depth) + "}", "}");
        Unindented(deep);
      case _ => CleanKeywords();
    }
  }

  lemma Unindented(depth: nat)
    ensures ObjectOpen(false) == "{" && Tabs(false, depth) == "" && Tabs(false, depth) + "}" == "}"
  {
  }

  lemma CleanInteger(n: int)
    ensures Clean(Integer(n), Integer(n))
  {
    IntegerWord(n);
    WordStays(Integer(n), Start);
  }

  lemma CleanQuoted(t: string)
    ensures Clean(Quoted(t), Quoted(t))
  {
    QuotedStays(t, Start);
  }

  lemma CleanKeywords()
    ensures Clean("null", "null") && Clean("true", "true") && Clean("false", "false")
  {
    hide Stripped, Behind, Layout, Reached;
    KeywordsAreWords();
    WordStays("null", Start);
    WordStays("true", Start);
    WordStays("false", Start);
  }

  lemma KeywordsAreWords()
    ensures Word("null") && Word("true") && Word("false")
  {
  }

  lemma {:induction false} ItemsStripped(fmt: bool, depth: nat, deep: nat, items: seq<Json>)
    requires forall i :: 0 <= i < |items| ==> Plain(items[i])
    ensures Clean(ItemsText(fmt, depth, items), ItemsText(false, deep, items))
    decreases items, 1
  {
    hide Clean, Text, ItemSeparator, Plain;
    if items == [] {
      CleanBlanks("");
    } else {
      var last := |items| == 1;
      var a, x, b, y := Text(fmt, depth, items[0]), Text(false, deep, items[0]),
        ItemsText(fmt, depth, items[1..]), ItemsText(false, deep, items[1..]);
      TextStripped(fmt, depth, deep, items[0]);
      ItemsStripped(fmt, depth, deep, items[1..]);
      CleanMarks(fmt, depth, last);
      CleanConcat(ItemSeparator(fmt, last), ItemSeparator(false, last), b, y);
      CleanConcat(a, x, ItemSeparator(fmt, last) + b, ItemSeparator(false, last) + y);
    }
  }

  lemma {:induction false} MemberStripped(fmt: bool, depth: nat, deep: nat, m: Member, last: bool)
    requires Plain(m.value)
    ensures Clean(MemberText(fmt, depth, m, last), MemberText(false, deep, m, last))
    decreases m, 3
  {
    hide Clean, Text, Quoted, MemberEnd, Colon, Tabs;
    var k, v, w, e, f := Quoted(m.key), Text(fmt, depth, m.value), Text(false, deep, m.value), MemberEnd(fmt, last),
      MemberEnd(false, last);
    TextStripped(fmt, depth, deep, m.value);
    CleanMarks(fmt, depth, last);
    Unindented(deep);
    CleanQuoted(m.key);
    assert Colon(false) == ":" by { PlainColon(); }
    CleanConcat(v, w, e, f);
    CleanConcat(Colon(fmt), ":", v + e, w + f);
    CleanConcat(k, k, Colon(fmt) + (v + e), ":" + (w + f));
    CleanConcat(Tabs(fmt, depth), "", k + (Colon(fmt) + (v + e)), k + (":" + (w + f)));
  }

  lemma PlainColon()
    ensures Colon(false) == ":"
  {
  }

  lemma {:induction false} MembersStripped(fmt: bool, depth: nat, deep: nat, ms: seq<Member>)
    requires forall i :: 0 <= i < |ms| ==> Plain(ms[i].value)
    ensures Clean(MembersText(fmt, depth, ms), MembersText(false, deep, ms))
    decreases ms, 4
  {
    hide Clean, MemberText, Plain;
    if ms == [] {
      CleanBlanks("");
    } else {
      var last := |ms| == 1;
      MemberStripped(fmt, depth, deep, ms[0], last);
      MembersStripped(fmt, depth, deep, ms[1..]);
      CleanConcat(MemberText(fmt, depth, ms[0], last), MemberText(false, deep, ms[0], last),
        MembersText(fmt, depth, ms[1..]), MembersText(false, deep, ms[1..]));
    }
  }

  /** Formatted or not: without the blanks outside strings, the text of a tree is its unformatted text,
      which so has none. */
  lemma OnlyBlanksDiffer(fmt: bool, j: Json)
    requires Plain(j)
    ensures Stripped(Text(fmt, 0, j), Outside) == Text(false, 0, j)
  {
    hide Text;
    TextStripped(fmt, 0, 0, j);
  }

  // ---------------------------------------------------------------------------
  // The unformatted text laid out

  /** From a place on, the text is laid out as `r`, and ends at another place. */
  predicate Lays(t: string, z: Place, r: string, z': Place) {
    Layout(t, z) == r && Reached(t, z) == z'
  }

  lemma LaysConcat(a: string, z: Place, x: string, z': Place, b: string, y: string, z'': Place)
    requires Lays(a, z, x, z') && Lays(b, z', y, z'')
    ensures Lays(a + b, z, x + y, z'')
  {
    LayoutConcat(a, b, z);
  }

  /** The indentation in front of the first member. */
  function Lead(z: Place): string {
    if z.first then Indent(|z.open|) else ""
  }

  function After(z: Place): Place {
    z.(first := false)
  }

  lemma ScalarLaid(j: Json, depth: nat, z: Place)
    requires z.mode == Outside && Plain(j) && !j.Array? && !j.Object?
    ensures Lays(Text(false, depth, j), z, Lead(z) + Text(true, |z.open|, j), After(z))
  {
    hide Layout, Reached, Stripped, Behind, Word, Integer, Quoted;
    match j {
      case Number(n) =>
        IntegerWord(n);
        WordStays(Integer(n), z);
      case String(t) => QuotedStays(t, z);
      case Null =>
        KeywordsAreWords();
        WordStays("null", z);
      case True =>
        KeywordsAreWords();
        WordStays("true", z);
      case False =>
        KeywordsAreWords();
        WordStays("false", z);
    }
  }

  lemma BracketLaid(z: Place)
    requires z.mode == Outside
    ensures Lays("[", z, Lead(z) + "[", Place(Outside, z.open + "[", false))
    ensures Lays("]", Place(Outside, z.open + "[", false), "]", After(z))
    ensures Lays("{", z, Lead(z) + "{\n", Place(Outside, z.open + "{", true))
    ensures Lays("}", Place(Outside, z.open + "{", true), Indent(|z.open|) + "}", After(z))
    ensures Lays("}", Place(Outside, z.open + "{", false), Line(|z.open|) + "}", After(z))
  {
    OneLaidOut('[', z);
    OneLaidOut(']', Place(Outside, z.open + "[", false));
    OneLaidOut('{', z);
    OneLaidOut('}', Place(Outside, z.open + "{", true));
    OneLaidOut('}', Place(Outside, z.open + "{", false));
    assert (z.open + "[")[..|z.open|] == z.open && (z.open + "{")[..|z.open|] == z.open;
  }

  lemma MarkLaid(z: Place)
    requires z.mode == Outside && !z.first && z.open != ""
    ensures z.open[|z.open| - 1] == '[' ==> Lays(",", z, ", ", z)
    ensures z.open[|z.open| - 1] == '{' ==> Lays(",", z, "," + Line(|z.open|), z)
    ensures Lays(":", z, ":\t", z)
  {
    OneLaidOut(',', z);
    OneLaidOut(':', z);
  }

  lemma {:induction false} TextLaid(j: Json, depth: nat, z: Place)
    requires z.mode == Outside && Plain(j)
    ensures Lays(Text(false, depth, j), z, Lead(z) + Text(true, |z.open|, j), After(z))
    decreases j, 2
  {
    hide Lays, Lead, ItemsText, MembersText, Indent, Layout, Reached;
    match j {
      case Array(items) =>
        var in_ := Place(Outside, z.open + "[", false);
        var a, b := ItemsText(false, depth + 1, items), ItemsText(true, |z.open| + 1, items);
        BracketLaid(z);
        ItemsLaid(items, depth + 1, in_);
        LaysConcat("[", z, Lead(z) + "[", in_, a, b, in_);
        LaysConcat("[" + a, z, Lead(z) + "[" + b, in_, "]", "]", After(z));
        assert Lead(z) + "[" + b + "]" == Lead(z) + ("[" + b + "]");
      case Object(ms) => ObjectLaid(ms, depth, z);
      case _ => ScalarLaid(j, depth, z);
    }
  }

  lemma NoItems(depth: nat, z: Place)
    ensures ItemsText(false, depth, []) == "" && ItemsText(true, |z.open|, []) == "" && Lays("", z, "", z)
    ensures MembersText(false, depth, []) == "" && MembersText(true, |z.open|, []) == ""
  {
  }

  lemma {:induction false} ItemsLaid(items: seq<Json>, depth: nat, z: Place)
    requires forall i :: 0 <= i < |items| ==> Plain(items[i])
    requires z.mode == Outside && !z.first && z.open != "" && z.open[|z.open| - 1] == '['
    ensures Lays(ItemsText(false, depth, items), z, ItemsText(true, |z.open|, items), z)
    decreases items, 1
  {
    hide Lays, Text, Plain, Layout, Reached;
    NoItems(depth, z);
    if items != [] {
      var a, x, b, y := Text(false, depth, items[0]), Text(true, |z.open|, items[0]),
        ItemsText(false, depth, items[1..]), ItemsText(true, |z.open|, items[1..]);
      TextLaid(items[0], depth, z);
      assert Lead(z) + x == x && After(z) == z;
      ItemsLaid(items[1..], depth, z);
      MarkLaid(z);
      if |items| == 1 {
        assert items[1..] == [];
        LaysConcat(a, z, x, z, "" + b, "" + y, z);
      } else {
        LaysConcat(",", z, ", ", z, b, y, z);
        LaysConcat(a, z, x, z, "," + b, ", " + y, z);
      }
    }
  }

  /** A member up to where its value ends. */
  lemma {:induction false} FieldLaid(m: Member, depth: nat, z: Place)
    requires Plain(m.value) && z.mode == Outside && z.open != "" && z.open[|z.open| - 1] == '{'
    ensures Lays(Quoted(m.key) + (":" + Text(false, depth, m.value)), z,
      Lead(z) + (Quoted(m.key) + (":\t" + Text(true, |z.open|, m.value))), After(z))
    decreases m, 3
  {
    hide Lays, Text, Plain, Layout, Reached, Quoted, Indent;
    var k, v, w, n := Quoted(m.key), Text(false, depth, m.value), Text(true, |z.open|, m.value), After(z);
    assert Lays(k, z, Lead(z) + k, n) by { KeyLaid(m.key, z); }
    MarkLaid(n);
    TextLaid(m.value, depth, n);
    assert Lead(n) + w == w && After(n) == n;
    LaysConcat(":", n, ":\t", n, v, w, n);
    LaysConcat(k, z, Lead(z) + k, n, ":" + v, ":\t" + w, n);
    assert Lead(z) + k + (":\t" + w) == Lead(z) + (k + (":\t" + w));
  }

  lemma KeyLaid(key: string, z: Place)
    requires z.mode == Outside
    ensures Lays(Quoted(key), z, Lead(z) + Quoted(key), After(z))
  {
    QuotedStays(key, z);
  }

  /** The members as they are laid out: what the formatted text has between the indentation of the
      first and the line feed behind the last. */
  function Rows(depth: nat, ms: seq<Member>): string
    requires ms != []
    decreases ms, 4
  {
    var row := Quoted(ms[0].key) + (":\t" + Text(true, depth, ms[0].value));
    if |ms| == 1 then row else row + (("," + Line(depth)) + Rows(depth, ms[1..]))
  }

  lemma {:induction false} RowsFormatted(depth: nat, ms: seq<Member>)
    requires ms != []
    ensures MembersText(true, depth, ms) == Indent(depth) + Rows(depth, ms) + "\n"
    decreases |ms|
  {
    hide Text, Quoted, Indent;
    IndentIs(depth);
    var k, v := Quoted(ms[0].key), Text(true, depth, ms[0].value);
    var row := k + (":\t" + v);
    if |ms| == 1 {
      assert ms[1..] == [];
      assert MembersText(true, depth, ms) == MemberText(true, depth, ms[0], true);
      assert MemberText(true, depth, ms[0], true) == Indent(depth) + (k + (":\t" + (v + ("" + "\n"))));
      assert Indent(depth) + (k + (":\t" + (v + ("" + "\n")))) == Indent(depth) + row + "\n";
    } else {
      RowsFormatted(depth, ms[1..]);
      var rest := Rows(depth, ms[1..]);
      assert MemberText(true, depth, ms[0], false) == Indent(depth) + (k + (":\t" + (v + ("," + "\n"))));
      RowsJoin(Indent(depth), k, v, rest);
    }
  }

  lemma RowsJoin(indent: string, k: string, v: string, rest: string)
    ensures (indent + (k + (":\t" + (v + ("," + "\n"))))) + (indent + rest + "\n")
         == indent + (k + (":\t" + v) + (("," + ("\n" + indent)) + rest)) + "\n"
  {
  }

  lemma {:induction false} RowsUnformatted(depth: nat, ms: seq<Member>)
    requires ms != []
    ensures MembersText(false, depth, ms) ==
      var row := Quoted(ms[0].key) + (":" + Text(false, depth, ms[0].value));
      if |ms| == 1 then row else row + ("," + MembersText(false, depth, ms[1..]))
  {
    hide Text, Quoted;
    var k, v := Quoted(ms[0].key), Text(false, depth, ms[0].value);
    if |ms| == 1 {
      assert ms[1..] == [];
      assert MembersText(false, depth, ms) == MemberText(false, depth, ms[0], true) + "";
      assert "" + (k + (":" + (v + ("" + "")))) + "" == k + (":" + v);
    } else {
      assert MemberText(false, depth, ms[0], false) == "" + (k + (":" + (v + ("," + ""))));
      var rest := MembersText(false, depth, ms[1..]);
      assert "" + (k + (":" + (v + ("," + "")))) + rest == k + (":" + v) + ("," + rest);
    }
  }

  lemma {:induction false} MembersLaid(ms: seq<Member>, depth: nat, z: Place)
    requires ms != [] && forall i :: 0 <= i < |ms| ==> Plain(ms[i].value)
    requires z.mode == Outside && z.open != "" && z.open[|z.open| - 1] == '{'
    ensures Lays(MembersText(false, depth, ms), z, Lead(z) + Rows(|z.open|, ms), After(z))
    decreases ms, 4
  {
    hide Lays, Text, Plain, Layout, Reached, Quoted, Indent, MembersText;
    var n, row, laid := After(z), Quoted(ms[0].key) + (":" + Text(false, depth, ms[0].value)),
      Quoted(ms[0].key) + (":\t" + Text(true, |z.open|, ms[0].value));
    FieldLaid(ms[0], depth, z);
    RowsUnformatted(depth, ms);
    if |ms| > 1 {
      var rest, rows := MembersText(false, depth, ms[1..]), Rows(|z.open|, ms[1..]);
      MembersLaid(ms[1..], depth, n);
      assert Lead(n) + rows == rows && After(n) == n;
      MarkLaid(n);
      LaysConcat(",", n, "," + Line(|z.open|), n, rest, rows, n);
      LaysConcat(row, z, Lead(z) + laid, n, "," + rest, ("," + Line(|z.open|)) + rows, n);
      assert Lead(z) + laid + (("," + Line(|z.open|)) + rows) == Lead(z) + (laid + (("," + Line(|z.open|)) + rows));
    }
  }

  lemma {:induction false} ObjectLaid(ms: seq<Member>, depth: nat, z: Place)
    requires z.mode == Outside && forall i :: 0 <= i < |ms| ==> Plain(ms[i].value)
    ensures Lays(ObjectText(false, depth, ms), z, Lead(z) + ObjectText(true, |z.open|, ms), After(z))
    decreases ms, 5
  {
    hide Lays, Text, Plain, Layout, Reached, Indent, MembersText, Tabs, Rows;
    var in_, n := Place(Outside, z.open + "{", true), |z.open|;
    BracketLaid(z);
    IndentIs(n);
    IndentIs(depth);
    var a := MembersText(false, depth + 1, ms);
    if ms == [] {
      NoItems(depth + 1, in_);
      NoItems(n + 1, in_);
      assert MembersText(true, n + 1, ms) == "" && "{" + a + ("" + "}") == "{" + "}";
      LaysConcat("{", z, Lead(z) + "{\n", in_, "}", Indent(n) + "}", After(z));
      assert Lead(z) + "{\n" + (Indent(n) + "}") == Lead(z) + ("{\n" + "" + (Indent(n) + "}"));
    } else {
      var rows := Rows(n + 1, ms);
      MembersLaid(ms, depth + 1, in_);
      RowsFormatted(n + 1, ms);
      assert Lead(in_) == Indent(n + 1) && After(in_) == Place(Outside, z.open + "{", false);
      LaysConcat("{", z, Lead(z) + "{\n", in_, a, Indent(n + 1) + rows, After(in_));
      LaysConcat("{" + a, z, Lead(z) + "{\n" + (Indent(n + 1) + rows), After(in_), "}", Line(n) + "}", After(z));
      assert "{" + a + ("" + "}") == "{" + a + "}";
      ObjectJoin(Lead(z), Indent(n + 1) + rows, Indent(n));
    }
  }

  lemma ObjectJoin(lead: string, rows: string, indent: string)
    ensures lead + "{\n" + rows + ("\n" + indent + "}") == lead + ("{\n" + (rows + "\n") + (indent + "}"))
  {
  }

  /** The formatted text is the unformatted one laid out: a line for every member, indented by the
      brackets that are open, a tab behind every colon and a space behind the commas of an array. */
  lemma FormattedIsLaidOut(j: Json)
    requires Plain(j)
    ensures Text(true, 0, j) == Layout(Text(false, 0, j), Start)
  {
    hide Text, Layout, Reached;
    TextLaid(j, 0, Start);
    assert Lead(Start) + Text(true, 0, j) == Text(true, 0, j);
  }
}
