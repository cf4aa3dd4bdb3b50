/** JSON texts by the grammar of RFC 8259, with any escapes in strings and any blanks between the
    tokens, and what they mean.  Numbers are integers. */
module JsonGrammar {
  import opened Json
  import opened JsonStrings
  import opened JsonLiterals
  import opened JsonText

  datatype Syntax =
    | Atom(j: Json)
    | Literal(pieces: seq<Piece>)
    | ListOf(slots: seq<Slot>, blank: string)
    | TableOf(entries: seq<Entry>, blank: string)

  /** An element with the blanks around it. */
  datatype Slot = Slot(before: string, item: Syntax, after: string)

  /** A member with the blanks around its name and value. */
  datatype Entry = Entry(before: string, name: seq<Piece>, between: string, value: Slot)

  predicate Blanks(w: string) {
    forall i :: 0 <= i < |w| ==> w[i] == ' ' || w[i] == '\t' || w[i] == '\n' || w[i] == '\r'
  }

  ghost predicate AllMean(pieces: seq<Piece>) {
    forall i :: 0 <= i < |pieces| ==> Means(pieces[i])
  }

  /** The text is one of the grammar. */
  ghost predicate Correct(c: Syntax)
    decreases c, 0
  {
    match c
    case Atom(j) => j.Null? || j.True? || j.False? || (j.Number? && -EXACT < j.n < EXACT)
    case Literal(pieces) => AllMean(pieces)
    case ListOf(slots, blank) => Blanks(blank) && forall i :: 0 <= i < |slots| ==> CorrectSlot(slots[i])
    case TableOf(entries, blank) => Blanks(blank) && forall i :: 0 <= i < |entries| ==> CorrectEntry(entries[i])
  }

  ghost predicate CorrectSlot(slot: Slot)
    decreases slot, 0
  {
    Blanks(slot.before) && Correct(slot.item) && Blanks(slot.after)
  }

  ghost predicate CorrectEntry(e: Entry)
    decreases e, 0
  {
    Blanks(e.before) && AllMean(e.name) && Blanks(e.between) && CorrectSlot(e.value)
  }

  function Spelled(pieces: seq<Piece>): string {
    "\"" + TextOf(pieces) + "\""
  }

  function Source(c: Syntax): string
    decreases c, 0
  {
    match c
    case Atom(j) => Text(false, 0, j)
    case Literal(pieces) => Spelled(pieces)
    case ListOf(slots, blank) => "[" + (if slots == [] then blank else SlotsSource(slots)) + "]"
    case TableOf(entries, blank) => "{" + (if entries == [] then blank else EntriesSource(entries)) + "}"
  }

  function SlotSource(slot: Slot): string
    decreases slot, 0
  {
    slot.before + (Source(slot.item) + slot.after)
  }

  /** Commas between the elements. */
  function SlotsSource(slots: seq<Slot>): string
    requires slots != []
    decreases slots, 0
  {
    SlotSource(slots[0]) + if |slots| == 1 then "" else "," + SlotsSource(slots[1..])
  }

  function EntrySource(e: Entry): string
    decreases e, 0
  {
    e.before + (Spelled(e.name) + (e.between + (":" + SlotSource(e.value))))
  }

  function EntriesSource(entries: seq<Entry>): string
    requires entries != []
    decreases entries, 0
  {
    EntrySource(entries[0]) + if |entries| == 1 then "" else "," + EntriesSource(entries[1..])
  }

  /** The tree a text stands for; a string ends at its first NUL. */
  function Meaning(c: Syntax): Json
    decreases c, 0
  {
    match c
    case Atom(j) => j
    case Literal(pieces) => String(CString(MeaningOf(pieces)))
    case ListOf(slots, _) => Array(Items(slots))
    case TableOf(entries, _) => Object(MembersMeant(entries))
  }

  function Items(slots: seq<Slot>): (r: seq<Json>)
    ensures |r| == |slots|
    decreases slots, 0
  {
    if slots == [] then [] else [Meaning(slots[0].item)] + Items(slots[1..])
  }

  function MemberMeant(e: Entry): Member
    decreases e, 0
  {
    Member(CString(MeaningOf(e.name)), Meaning(e.value.item))
  }

  function MembersMeant(entries: seq<Entry>): (r: seq<Member>)
    ensures |r| == |entries|
    decreases entries, 0
  {
    if entries == [] then [] else [MemberMeant(entries[0])] + MembersMeant(entries[1..])
  }

  // ---------------------------------------------------------------------------
  // Blanks and first characters

  lemma SkipBlanks(s: string, i: nat, w: string)
    requires Blanks(w) && IsTextAt(s, i, w) && i + |w| < |s| && s[i + |w|] > ' '
    ensures SkipWhitespace(s, i) == i + |w|
  {
    SkipText(s, i, w);
  }

  lemma Starts(c: Syntax)
    requires Correct(c)
    ensures Source(c) != "" && Source(c)[0] > ' ' && Source(c)[0] != ']' && Source(c)[0] != '}'
  {
    if c.Atom? && c.j.Number? { IntegerShape(c.j.n); }
  }

  /** Where the parts of an element stand; what follows it is a comma or bracket. */
  lemma SlotParts(s: string, i: nat, slot: Slot)
    requires CorrectSlot(slot) && IsTextAt(s, i, SlotSource(slot)) && i + |SlotSource(slot)| < |s|
    requires s[i + |SlotSource(slot)|] > ' ' && !NumberChar(s[i + |SlotSource(slot)|])
    ensures
      var v := i + |slot.before|;
      var end := v + |Source(slot.item)|;
      && IsTextAt(s, v, Source(slot.item)) && SkipWhitespace(s, i) == v
      && end + |slot.after| == i + |SlotSource(slot)| && end < |s|
      && !NumberChar(s[end]) && SkipWhitespace(s, end) == end + |slot.after|
  {
    hide Source, Correct;
    var t := Source(slot.item);
    TextAtSplit(s, i, slot.before, t + slot.after);
    TextAtSplit(s, i + |slot.before|, t, slot.after);
    Starts(slot.item);
    FirstChar(s, i + |slot.before|, t);
    SkipBlanks(s, i, slot.before);
    var end := i + |slot.before| + |t|;
    SkipBlanks(s, end, slot.after);
    if slot.after != "" { FirstChar(s, end, slot.after); }
  }

  // ---------------------------------------------------------------------------
  // Reading

  lemma ReadsAtom(c: Syntax, s: Content, i: nat, depth: nat)
    requires Correct(c) && c.Atom? && IsTextAt(s, i, Source(c)) && i + |Source(c)| < |s|
    requires !NumberChar(s[i + |Source(c)|])
    ensures ParseValue(s, i, depth) == Ok(c.j, i + |Source(c)|) && Nesting(c.j) == 0
  {
    hide ParseValue, IsTextAt;
    if c.j.Number? { ParseNumberText(s, i, depth, c.j.n); } else { ParseKeyword(s, i, depth, c.j); }
  }

  lemma ReadsScalar(c: Syntax, s: Content, i: nat, depth: nat)
    requires Correct(c) && (c.Atom? || c.Literal?) && depth <= NESTING_LIMIT
    requires IsTextAt(s, i, Source(c)) && i + |Source(c)| < |s| && !NumberChar(s[i + |Source(c)|])
    ensures Reads(ParseValue(s, i, depth), Meaning(c), i + |Source(c)|,
                  depth + Nesting(Meaning(c)) > NESTING_LIMIT)
  {
    hide ParseValue, IsTextAt, Text, Spelled, CString, MeaningOf, AllMean;
    if c.Atom? { ReadsAtom(c, s, i, depth); } else { ReadsLiteral(c.pieces, s, i, depth); }
  }

  lemma ReadsLiteral(pieces: seq<Piece>, s: Content, i: nat, depth: nat)
    requires AllMean(pieces) && IsTextAt(s, i, Spelled(pieces)) && i < |s|
    ensures ParseString(s, i) == Ok(CString(MeaningOf(pieces)), i + |Spelled(pieces)|) && s[i] == '"'
    ensures ParseValue(s, i, depth) == Ok(String(CString(MeaningOf(pieces))), i + |Spelled(pieces)|)
  {
    hide Means, StringEnd, Unescape;
    LiteralMeans(s, i, pieces);
    FirstChar(s, i, Spelled(pieces));
    NoKeyword(s, i);
  }

  /** The text of every tree of the grammar, standing anywhere, is parsed to that tree, and parsing stops behind
      it, exactly if the nesting limit is kept. */
  lemma {:induction false} ReadsSource(c: Syntax, s: Content, i: nat, depth: nat)
    requires Correct(c) && depth <= NESTING_LIMIT && IsTextAt(s, i, Source(c)) && i + |Source(c)| < |s|
    requires !NumberChar(s[i + |Source(c)|])
    ensures Reads(ParseValue(s, i, depth), Meaning(c), i + |Source(c)|,
                  depth + Nesting(Meaning(c)) > NESTING_LIMIT)
    decreases c, 1
  {
    hide ParseValue, IsTextAt, SlotsSource, EntriesSource, Blanks, Text, Spelled, CString, MeaningOf, Nesting, Reads,
      NumberChar, AllMean, CorrectSlot, CorrectEntry;
    match c
    case Atom(_) => ReadsScalar(c, s, i, depth);
    case Literal(_) => ReadsScalar(c, s, i, depth);
    case ListOf(slots, blank) =>
      if slots == [] { ReadsEmptyList(blank, s, i, depth); } else { ReadsList(slots, s, i, depth); }
    case TableOf(entries, blank) =>
      if entries == [] { ReadsEmptyTable(blank, s, i, depth); } else { ReadsTable(entries, s, i, depth); }
  }

  lemma ReadsEmptyList(blank: string, s: Content, i: nat, depth: nat)
    requires Blanks(blank) && IsTextAt(s, i, "[" + blank + "]") && i + |blank| + 2 < |s|
    ensures Reads(ParseValue(s, i, depth), Array([]), i + |blank| + 2, depth + Nesting(Array([])) > NESTING_LIMIT)
  {
    hide ParseValue;
    BracketsAt(s, i, "[", blank, "]");
    SkipBlanks(s, i + 1, blank);
    ArrayAt(s, i, depth);
  }

  lemma ReadsEmptyTable(blank: string, s: Content, i: nat, depth: nat)
    requires Blanks(blank) && IsTextAt(s, i, "{" + blank + "}") && i + |blank| + 2 < |s|
    ensures Reads(ParseValue(s, i, depth), Object([]), i + |blank| + 2, depth + Nesting(Object([])) > NESTING_LIMIT)
  {
    hide ParseValue;
    BracketsAt(s, i, "{", blank, "}");
    SkipBlanks(s, i + 1, blank);
    ObjectAt(s, i, depth);
  }

  /** From blanks on, and from behind them, the same is read. */
  lemma FromBlanks(s: Content, i: nat, depth: nat)
    requires i < |s|
    ensures
      var k := SkipWhitespace(s, i);
      && SkipWhitespace(s, k) == k && ParseItems(s, k, depth) == ParseItems(s, i, depth)
      && ParseMembers(s, k, depth) == ParseMembers(s, i, depth)
  {
    hide ParseValue, ParseString;
  }

  lemma {:induction false} ReadsList(slots: seq<Slot>, s: Content, i: nat, depth: nat)
    requires slots != [] && (forall k :: 0 <= k < |slots| ==> CorrectSlot(slots[k])) && depth <= NESTING_LIMIT
    requires IsTextAt(s, i, "[" + SlotsSource(slots) + "]") && i + |SlotsSource(slots)| + 2 < |s|
    ensures Reads(ParseValue(s, i, depth), Array(Items(slots)), i + |SlotsSource(slots)| + 2,
                  depth + Nesting(Array(Items(slots))) > NESTING_LIMIT)
    decreases slots, 2
  {
    hide ParseValue, ParseItems, SlotsSource, Source, Correct, IsTextAt;
    var t := SlotsSource(slots);
    BracketsAt(s, i, "[", t, "]");
    FirstOfSlots(slots, s, i + 1);
    FromBlanks(s, i + 1, depth + 1);
    if depth < NESTING_LIMIT { ReadsSlots(slots, s, i + 1, depth + 1); }
    ArrayAt(s, i, depth);
  }

  lemma FirstOfSlots(slots: seq<Slot>, s: string, i: nat)
    requires slots != [] && CorrectSlot(slots[0]) && IsTextAt(s, i, SlotsSource(slots))
    ensures i < |s| && SkipWhitespace(s, i) < |s| && s[SkipWhitespace(s, i)] != ']'
  {
    hide Source, Correct;
    var slot := slots[0];
    var t, more := Source(slot.item), if |slots| == 1 then "" else "," + SlotsSource(slots[1..]);
    TextAtSplit(s, i, SlotSource(slot), more);
    TextAtSplit(s, i, slot.before, t + slot.after);
    TextAtSplit(s, i + |slot.before|, t, slot.after);
    Starts(slot.item);
    FirstChar(s, i + |slot.before|, t);
    SkipBlanks(s, i, slot.before);
  }

  /** Where the first element ends. */
  lemma SlotsSplit(slots: seq<Slot>, s: string, i: nat)
    requires slots != [] && IsTextAt(s, i, SlotsSource(slots)) && i + |SlotsSource(slots)| < |s|
    requires s[i + |SlotsSource(slots)|] == ']'
    ensures
      var e := i + |SlotSource(slots[0])|;
      && IsTextAt(s, i, SlotSource(slots[0])) && e < |s|
      && (|slots| == 1 ==> e == i + |SlotsSource(slots)|)
      && (|slots| > 1 ==>
           && s[e] == ',' && IsTextAt(s, e + 1, SlotsSource(slots[1..]))
           && e + 1 + |SlotsSource(slots[1..])| == i + |SlotsSource(slots)|)
  {
    hide SlotSource;
    var more := if |slots| == 1 then "" else "," + SlotsSource(slots[1..]);
    TextAtSplit(s, i, SlotSource(slots[0]), more);
    if |slots| > 1 {
      FirstChar(s, i + |SlotSource(slots[0])|, more);
      TextAtSplit(s, i + |SlotSource(slots[0])|, ",", SlotsSource(slots[1..]));
    }
  }

  lemma {:induction false} ReadsSlots(slots: seq<Slot>, s: Content, i: nat, depth: nat)
    requires slots != [] && (forall k :: 0 <= k < |slots| ==> CorrectSlot(slots[k])) && depth <= NESTING_LIMIT
    requires IsTextAt(s, i, SlotsSource(slots)) && i + |SlotsSource(slots)| + 1 < |s|
    requires s[i + |SlotsSource(slots)|] == ']'
    ensures Reads(ParseItems(s, i, depth), Items(slots), i + |SlotsSource(slots)| + 1,
                  depth + NestingOfItems(Items(slots)) > NESTING_LIMIT)
    decreases slots, 1
  {
    hide ParseValue, ParseItems, SlotsSource, SlotSource, Source, Correct, IsTextAt, Meaning, Items;
    var slot, e := slots[0], i + |SlotSource(slots[0])|;
    SlotsSplit(slots, s, i);
    SlotParts(s, i, slot);
    var v := i + |slot.before|;
    ReadsSource(slot.item, s, v, depth);
    ItemsUnfold(slots);
    if |slots| == 1 {
      OneItemRead(s, i, Meaning(slot.item), v + |Source(slot.item)|, e, depth);
    } else {
      ReadsSlots(slots[1..], s, e + 1, depth);
      ItemAndMore(s, i, Meaning(slot.item), Items(slots[1..]), v + |Source(slot.item)|, e,
        i + |SlotsSource(slots)| + 1, depth);
    }
  }

  lemma ItemsUnfold(slots: seq<Slot>)
    requires slots != []
    ensures Items(slots) == [Meaning(slots[0].item)] + Items(slots[1..])
    ensures |slots| == 1 ==> Items(slots) == [Meaning(slots[0].item)]
  {
    hide Meaning;
    if |slots| == 1 { assert slots[1..] == []; }
  }

  lemma OneItemRead(s: Content, i: nat, item: Json, next: nat, e: nat, depth: nat)
    requires i < |s| && next < |s| && SkipWhitespace(s, next) == e && s[e] == ']' && e + 1 < |s|
    requires Reads(ParseValue(s, SkipWhitespace(s, i), depth), item, next, depth + Nesting(item) > NESTING_LIMIT)
    ensures Reads(ParseItems(s, i, depth), [item], e + 1, depth + NestingOfItems([item]) > NESTING_LIMIT)
  {
    hide ParseValue;
    assert [item][1..] == [];
    assert NestingOfItems([item]) == Nesting(item);
  }

  lemma ItemAndMore(s: Content, i: nat, item: Json, rest: seq<Json>, next: nat, e: nat, end: nat, depth: nat)
    requires i < |s| && next < |s| && SkipWhitespace(s, next) == e && e + 1 < |s| && s[e] == ','
    requires Reads(ParseValue(s, SkipWhitespace(s, i), depth), item, next, depth + Nesting(item) > NESTING_LIMIT)
    requires Reads(ParseItems(s, e + 1, depth), rest, end, depth + NestingOfItems(rest) > NESTING_LIMIT)
    ensures Reads(ParseItems(s, i, depth), [item] + rest, end, depth + NestingOfItems([item] + rest) > NESTING_LIMIT)
  {
    hide ParseValue, ParseItems, Nesting, NestingOfItems;
    DeeperOf(item, rest);
    ItemsAfter(s, i, item, next, e, depth);
  }

  lemma DeeperOf(item: Json, rest: seq<Json>)
    ensures NestingOfItems([item] + rest) == Max(Nesting(item), NestingOfItems(rest))
  {
    hide Nesting;
    assert ([item] + rest)[1..] == rest;
  }

  lemma ItemsAfter(s: Content, i: nat, item: Json, next: nat, e: nat, depth: nat)
    requires i < |s| && next < |s| && SkipWhitespace(s, next) == e && e + 1 < |s| && s[e] == ','
    ensures ParseValue(s, SkipWhitespace(s, i), depth).Fail? ==> ParseItems(s, i, depth).Fail?
    ensures ParseValue(s, SkipWhitespace(s, i), depth) == Ok(item, next) ==>
      ParseItems(s, i, depth) == PrependItem(item, ParseItems(s, e + 1, depth))
  {
    hide ParseValue;
  }

  // Members

  lemma {:induction false} ReadsTable(entries: seq<Entry>, s: Content, i: nat, depth: nat)
    requires entries != [] && (forall k :: 0 <= k < |entries| ==> CorrectEntry(entries[k])) && depth <= NESTING_LIMIT
    requires IsTextAt(s, i, "{" + EntriesSource(entries) + "}") && i + |EntriesSource(entries)| + 2 < |s|
    ensures Reads(ParseValue(s, i, depth), Object(MembersMeant(entries)), i + |EntriesSource(entries)| + 2,
                  depth + Nesting(Object(MembersMeant(entries))) > NESTING_LIMIT)
    decreases entries, 2
  {
    hide ParseValue, ParseMembers, EntriesSource, Source, Correct, CorrectEntry, IsTextAt;
    var t := EntriesSource(entries);
    BracketsAt(s, i, "{", t, "}");
    FirstOfEntries(entries, s, i + 1);
    FromBlanks(s, i + 1, depth + 1);
    if depth < NESTING_LIMIT { ReadsEntries(entries, s, i + 1, depth + 1); }
    ObjectAt(s, i, depth);
  }

  lemma FirstOfEntries(entries: seq<Entry>, s: string, i: nat)
    requires entries != [] && CorrectEntry(entries[0]) && IsTextAt(s, i, EntriesSource(entries))
    ensures i < |s| && SkipWhitespace(s, i) < |s| && s[SkipWhitespace(s, i)] != '}'
  {
    hide SlotSource, CorrectSlot;
    var e := entries[0];
    var more := if |entries| == 1 then "" else "," + EntriesSource(entries[1..]);
    TextAtSplit(s, i, EntrySource(e), more);
    NameParts(s, i, e);
  }

  /** Where the parts of a member stand. */
  lemma NameParts(s: string, i: nat, e: Entry)
    requires CorrectEntry(e) && IsTextAt(s, i, EntrySource(e))
    ensures
      var q := i + |e.before|;
      var c := q + |Spelled(e.name)| + |e.between|;
      && q < |s| && SkipWhitespace(s, i) == q && IsTextAt(s, q, Spelled(e.name)) && s[q] == '"'
      && c + 1 <= |s| && s[c] == ':' && SkipWhitespace(s, q + |Spelled(e.name)|) == c
      && IsTextAt(s, c + 1, SlotSource(e.value)) && c + 1 + |SlotSource(e.value)| == i + |EntrySource(e)|
  {
    hide SlotSource, CorrectSlot;
    var n, v := Spelled(e.name), SlotSource(e.value);
    var q := i + |e.before|;
    TextAtSplit(s, i, e.before, n + (e.between + (":" + v)));
    TextAtSplit(s, q, n, e.between + (":" + v));
    TextAtSplit(s, q + |n|, e.between, ":" + v);
    TextAtSplit(s, q + |n| + |e.between|, ":", v);
    FirstChar(s, q, n);
    FirstChar(s, q + |n| + |e.between|, ":");
    SkipBlanks(s, i, e.before);
    SkipBlanks(s, q + |n|, e.between);
  }

  lemma EntriesSplit(entries: seq<Entry>, s: string, i: nat)
    requires entries != [] && IsTextAt(s, i, EntriesSource(entries)) && i + |EntriesSource(entries)| < |s|
    requires s[i + |EntriesSource(entries)|] == '}'
    ensures
      var e := i + |EntrySource(entries[0])|;
      && IsTextAt(s, i, EntrySource(entries[0])) && e < |s|
      && (|entries| == 1 ==> e == i + |EntriesSource(entries)|)
      && (|entries| > 1 ==>
           && s[e] == ',' && IsTextAt(s, e + 1, EntriesSource(entries[1..]))
           && e + 1 + |EntriesSource(entries[1..])| == i + |EntriesSource(entries)|)
  {
    hide EntrySource;
    var more := if |entries| == 1 then "" else "," + EntriesSource(entries[1..]);
    TextAtSplit(s, i, EntrySource(entries[0]), more);
    if |entries| > 1 {
      FirstChar(s, i + |EntrySource(entries[0])|, more);
      TextAtSplit(s, i + |EntrySource(entries[0])|, ",", EntriesSource(entries[1..]));
    }
  }

  /** A member and the blanks behind it; `e` is where the comma or brace stands. */
  lemma {:induction false} ReadsEntry(entry: Entry, s: Content, i: nat, e: nat, depth: nat)
    requires CorrectEntry(entry) && depth <= NESTING_LIMIT && IsTextAt(s, i, EntrySource(entry))
    requires e == i + |EntrySource(entry)| < |s| && (s[e] == ',' || s[e] == '}')
    ensures i < |s| && e >= |entry.value.after|
    ensures
      var next: nat := e - |entry.value.after|;
      && next < |s| && SkipWhitespace(s, next) == e
      && Reads(ParseMember(s, i, depth), MemberMeant(entry), next,
               depth + Nesting(MemberMeant(entry).value) > NESTING_LIMIT)
    decreases entry, 1
  {
    hide ParseValue, SlotSource, Source, Correct, IsTextAt, Meaning, EntrySource, Spelled, AllMean, CString, MeaningOf,
      Blanks, Nesting, ParseMember, ParseString, SkipWhitespace, Reads;
    NameParts(s, i, entry);
    var q := i + |entry.before|;
    var c := q + |Spelled(entry.name)| + |entry.between|;
    ReadsLiteral(entry.name, s, q, depth);
    SlotParts(s, c + 1, entry.value);
    ReadsSource(entry.value.item, s, c + 1 + |entry.value.before|, depth);
    NameAndValue(s, i, q, CString(MeaningOf(entry.name)), q + |Spelled(entry.name)|, c, Meaning(entry.value.item),
      e - |entry.value.after|, depth);
  }

  lemma NameAndValue(s: Content, i: nat, q: nat, key: string, next: nat, c: nat, value: Json, end: nat, depth: nat)
    requires i < |s| && SkipWhitespace(s, i) == q && ParseString(s, q) == Ok(key, next)
    requires next < |s| && SkipWhitespace(s, next) == c && c + 1 < |s| && s[c] == ':'
    requires Reads(ParseValue(s, SkipWhitespace(s, c + 1), depth), value, end, depth + Nesting(value) > NESTING_LIMIT)
    ensures Reads(ParseMember(s, i, depth), Member(key, value), end, depth + Nesting(value) > NESTING_LIMIT)
  {
    hide ParseValue, ParseString, SkipWhitespace, Nesting;
  }

  lemma {:induction false} ReadsEntries(entries: seq<Entry>, s: Content, i: nat, depth: nat)
    requires entries != [] && (forall k :: 0 <= k < |entries| ==> CorrectEntry(entries[k])) && depth <= NESTING_LIMIT
    requires IsTextAt(s, i, EntriesSource(entries)) && i + |EntriesSource(entries)| + 1 < |s|
    requires s[i + |EntriesSource(entries)|] == '}'
    ensures Reads(ParseMembers(s, i, depth), MembersMeant(entries), i + |EntriesSource(entries)| + 1,
                  depth + NestingOfMembers(MembersMeant(entries)) > NESTING_LIMIT)
    decreases entries, 1
  {
    hide ParseValue, ParseMembers, ParseMember, EntriesSource, EntrySource, CorrectEntry, IsTextAt, MemberMeant,
      MembersMeant;
    var m, e := entries[0], i + |EntrySource(entries[0])|;
    EntriesSplit(entries, s, i);
    ReadsEntry(m, s, i, e, depth);
    MembersUnfold(entries);
    if |entries| == 1 {
      OneMemberRead(s, i, MemberMeant(m), e - |m.value.after|, e, depth);
    } else {
      ReadsEntries(entries[1..], s, e + 1, depth);
      MemberAndMore(s, i, MemberMeant(m), MembersMeant(entries[1..]), e - |m.value.after|, e,
        i + |EntriesSource(entries)| + 1, depth);
    }
  }

  lemma MembersUnfold(entries: seq<Entry>)
    requires entries != []
    ensures MembersMeant(entries) == [MemberMeant(entries[0])] + MembersMeant(entries[1..])
    ensures |entries| == 1 ==> MembersMeant(entries) == [MemberMeant(entries[0])]
  {
    hide MemberMeant;
    if |entries| == 1 { assert entries[1..] == []; }
  }

  lemma OneMemberRead(s: Content, i: nat, m: Member, next: nat, e: nat, depth: nat)
    requires i < |s| && next < |s| && SkipWhitespace(s, next) == e && s[e] == '}' && e + 1 < |s|
    requires Reads(ParseMember(s, i, depth), m, next, depth + Nesting(m.value) > NESTING_LIMIT)
    ensures Reads(ParseMembers(s, i, depth), [m], e + 1, depth + NestingOfMembers([m]) > NESTING_LIMIT)
  {
    hide ParseMember;
    assert [m][1..] == [];
    assert NestingOfMembers([m]) == Nesting(m.value);
  }

  lemma MemberAndMore(s: Content, i: nat, m: Member, rest: seq<Member>, next: nat, e: nat, end: nat, depth: nat)
    requires i < |s| && next < |s| && SkipWhitespace(s, next) == e && e + 1 < |s| && s[e] == ','
    requires Reads(ParseMember(s, i, depth), m, next, depth + Nesting(m.value) > NESTING_LIMIT)
    requires Reads(ParseMembers(s, e + 1, depth), rest, end, depth + NestingOfMembers(rest) > NESTING_LIMIT)
    ensures Reads(ParseMembers(s, i, depth), [m] + rest, end, depth + NestingOfMembers([m] + rest) > NESTING_LIMIT)
  {
    hide ParseMember;
    assert ([m] + rest)[1..] == rest;
  }

  // ---------------------------------------------------------------------------
  // Whole texts

  /** Blanks, or a byte order mark and blanks. */
  ghost predicate Lead(lead: string) {
    Blanks(lead) || (|lead| >= 3 && lead[..3] == "\U{00EF}\U{00BB}\U{00BF}" && Blanks(lead[3..]))
  }

  /** Every JSON text is parsed to the tree it stands for, exactly if arrays and objects nest at most 1000 deep.
      With `require_null_terminated` the end is that of the text, blanks included. */
  lemma GrammarIsParsed(lead: string, c: Syntax, after: string)
    requires Correct(c) && Lead(lead) && Blanks(after) && '\0' !in lead + Source(c) + after
    ensures
      var text, n := lead + Source(c) + after, |lead| + |Source(c)|;
      var deep := Nesting(Meaning(c)) > 1000;
      && Reads(Parse(text, false), Meaning(c), n, deep)
      && Reads(Parse(text, true), Meaning(c), |text|, deep)
  {
    hide ParseValue, Source, Correct, IsTextAt, Meaning, Blanks, SkipWhitespace, SkipBom;
    var text := lead + Source(c) + after;
    var s: Content := text + "\0";
    var n := |lead| + |Source(c)|;
    LeadSkipped(lead, c, after);
    SourceThere(lead, c, after);
    ReadsSource(c, s, |lead|, 0);
    AfterSkipped(s, n, after);
  }

  lemma SourceThere(lead: string, c: Syntax, after: string)
    requires Blanks(after)
    ensures
      var s, n := lead + Source(c) + after + "\0", |lead| + |Source(c)|;
      IsTextAt(s, |lead|, Source(c)) && n < |s| && !NumberChar(s[n]) && IsTextAt(s, n, after) && s[|s| - 1] == '\0'
  {
    hide Source;
    var s, n := lead + Source(c) + after + "\0", |lead| + |Source(c)|;
    assert s[n] == if after == "" then '\0' else after[0];
  }

  lemma AfterSkipped(s: Content, n: nat, after: string)
    requires Blanks(after) && IsTextAt(s, n, after) && n + |after| == |s| - 1
    ensures SkipWhitespace(s, n) == |s| - 1
    decreases |after|
  {
    if after != "" {
      assert s[n + 0] == after[0];
      forall k | 0 <= k < |after| - 1 ensures s[n + 1 + k] == after[1..][k] { assert s[n + (k + 1)] == after[k + 1]; }
      AfterSkipped(s, n + 1, after[1..]);
    }
  }

  lemma LeadSkipped(lead: string, c: Syntax, after: string)
    requires Correct(c) && Lead(lead)
    ensures
      var s := lead + Source(c) + after + "\0";
      SkipWhitespace(s, SkipBom(s)) == |lead| && |lead| < |s|
  {
    hide Source, Correct;
    var s := lead + Source(c) + after + "\0";
    Starts(c);
    assert s[|lead|] == Source(c)[0];
    if Blanks(lead) {
      assert s[0] == if lead == "" then Source(c)[0] else lead[0];
      SourceIsAscii(c);
      SkipRun(s, 0, |lead|);
    } else {
      assert s[..3] == lead[..3];
      assert |s| > 4;
      forall k | 3 <= k < |lead| ensures s[k] <= ' ' { assert s[k] == lead[3..][k - 3]; }
      SkipRun(s, 3, |lead| - 3);
    }
  }

  lemma SourceIsAscii(c: Syntax)
    requires Correct(c)
    ensures Source(c) != "" && Source(c)[0] <= '~'
  {
    if c.Atom? && c.j.Number? { IntegerShape(c.j.n); }
  }
}
