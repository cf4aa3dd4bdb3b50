/** The printer: `print_value` and its parts over a growing buffer.

    Some of them move `offset` behind what they print, some leave it in front or in between
    and rely on `update_offset`, which looks for the NUL. */
module JsonPrinter {
  import opened Json
  import opened JsonStrings
  import opened JsonText

  const INT_MAX := 0x7fff_ffff

  // ---------------------------------------------------------------------------
  // Printed text holds no NUL

  lemma IntegerNulFree(n: int)
    ensures NulFree(Integer(n))
  {
  }

  lemma QuotedNulFree(t: string)
    requires NulFree(t)
    ensures NulFree(Quoted(t))
  {
    EscapedNulFree(t);
  }

  lemma {:induction false} TextNulFree(fmt: bool, depth: nat, j: Json)
    requires CStrings(j)
    ensures NulFree(Text(fmt, depth, j))
    decreases j, 2
  {
    hide Quoted, Integer, ItemsText, MembersText;
    match j
    case Number(n) => IntegerNulFree(n);
    case String(t) => QuotedNulFree(t);
    case Array(items) => ItemsNulFree(fmt, depth + 1, items);
    case Object(ms) => MembersNulFree(fmt, depth + 1, ms);
    case _ =>
  }

  lemma {:induction false} ItemsNulFree(fmt: bool, depth: nat, items: seq<Json>)
    requires forall i :: 0 <= i < |items| ==> CStrings(items[i])
    ensures NulFree(ItemsText(fmt, depth, items))
    decreases items, 1
  {
    if items != [] {
      TextNulFree(fmt, depth, items[0]);
      ItemsNulFree(fmt, depth, items[1..]);
    }
  }

  lemma {:induction false} MembersNulFree(fmt: bool, depth: nat, ms: seq<Member>)
    requires forall i :: 0 <= i < |ms| ==> NulFree(ms[i].key) && CStrings(ms[i].value)
    ensures NulFree(MembersText(fmt, depth, ms))
    decreases ms, 4
  {
    hide Quoted;
    if ms != [] {
      var m := ms[0];
      TextNulFree(fmt, depth, m.value);
      QuotedNulFree(m.key);
      MembersNulFree(fmt, depth, ms[1..]);
    }
  }

  // ---------------------------------------------------------------------------

  class PrintBuffer {
    /** `buffer` and `length`. */
    var buffer: array<char>
    var offset: nat
    var depth: nat
    const noalloc: bool
    /** There is a `realloc`; without one a bigger buffer is filled with `memcpy`. */
    const realloc: bool
    const format: bool

    constructor (buffer: array<char>, noalloc: bool, realloc: bool, format: bool)
      ensures this.buffer == buffer && offset == 0 && depth == 0
      ensures this.noalloc == noalloc && this.realloc == realloc && this.format == format
    {
      this.buffer, this.offset, this.depth := buffer, 0, 0;
      this.noalloc, this.realloc, this.format := noalloc, realloc, format;
    }

    /** An empty buffer can grow with `realloc` only: `memcpy` takes `offset` + 1 characters. */
    ghost predicate Ready()
      reads this
    {
      && buffer.Length <= INT_MAX && (offset < buffer.Length || offset == 0)
      && (buffer.Length > 0 || noalloc || realloc)
    }

    /** The size up to which there is, or can be made, room. */
    function Limit(): int
      reads this
    {
      if noalloc then buffer.Length else INT_MAX
    }

    /** `ensure`: room for `needed` characters and one more.  If the buffer grows, what was
        printed before `offset` moves with it. */
    method Ensure(needed: nat) returns (ok: bool)
      requires Ready()
      modifies this`buffer
      ensures ok <==> offset + needed + 1 <= old(Limit())
      ensures ok ==> offset + needed + 1 <= buffer.Length <= INT_MAX && offset <= old(buffer.Length)
      ensures ok ==> buffer[..offset] == old(buffer[..offset])
      ensures buffer == old(buffer) || fresh(buffer)
      ensures !ok || noalloc ==> buffer == old(buffer)
    {
      if buffer.Length > 0 && offset >= buffer.Length {
        return false;
      }
      if needed > INT_MAX {
        return false;
      }
      var size := needed + offset + 1;
      if size <= buffer.Length {
        return true;
      }
      if noalloc {
        return false;
      }
      var newsize;
      if size > INT_MAX / 2 {
        if size <= INT_MAX {
          newsize := INT_MAX;
        } else {
          return false;
        }
      } else {
        newsize := size * 2;
      }
      var newbuffer := new char[newsize];
      var copied := if realloc then buffer.Length else offset + 1;
      forall i | 0 <= i < copied {
        newbuffer[i] := buffer[i];
      }
      assert newbuffer[..offset] == buffer[..offset];
      buffer := newbuffer;
      return true;
    }

    /** Characters written through a pointer into the buffer. */
    method Store(at: nat, t: string)
      requires at + |t| <= buffer.Length
      modifies buffer
      ensures buffer[..at + |t|] == old(buffer[..at]) + t
    {
      forall i | 0 <= i < |t| {
        buffer[at + i] := t[i];
      }
      assert buffer[..at] == old(buffer[..at]);
      assert buffer[at..at + |t|] == t;
    }

    /** Characters written through the pointer `ensure` returned. */
    method Put(t: string, terminated: bool)
      requires offset + |t| < buffer.Length || (offset + |t| == buffer.Length && !terminated)
      modifies buffer
      ensures buffer[..offset + |t|] == old(buffer[..offset]) + t
      ensures terminated ==> buffer[offset + |t|] == '\0'
    {
      Store(offset, t);
      if terminated {
        ghost var text := buffer[..offset + |t|];
        buffer[offset + |t|] := '\0';
        assert buffer[..offset + |t|] == text;
      }
    }

    /** `update_offset`; the ghost argument is where the NUL is. */
    method UpdateOffset(ghost end: nat)
      requires offset <= end < buffer.Length && buffer[end] == '\0'
      requires forall k :: offset <= k < end ==> buffer[k] != '\0'
      modifies this`offset
      ensures offset == end
    {
      while buffer[offset] != '\0'
        invariant offset <= end < buffer.Length && buffer[end] == '\0'
        invariant forall k :: offset <= k < end ==> buffer[k] != '\0'
        decreases end - offset
      {
        offset := offset + 1;
      }
    }

    /** The text before `offset` has grown by `t`. */
    ghost predicate Appended(before: string, t: string)
      reads this, buffer
    {
      offset == |before| + |t| < buffer.Length <= INT_MAX && buffer[..offset] == before + t
    }

    /** The buffer holds `t` behind what was printed before, ended by a NUL, and `offset` is
        somewhere on it. */
    ghost predicate Shows(before: string, t: string)
      reads this, buffer
    {
      && |before| <= offset <= |before| + |t| < buffer.Length <= INT_MAX
      && buffer[..|before| + |t|] == before + t && buffer[|before| + |t|] == '\0'
    }

    /** One piece of punctuation: room is made, it is written, and `offset` moves on. */
    method Append(t: string, needed: nat, terminated: bool) returns (ok: bool)
      requires Ready() && |t| <= needed && (terminated ==> |t| < needed)
      modifies this`buffer, this`offset, buffer
      ensures ok <==> old(offset) + needed + 1 <= old(Limit())
      ensures ok ==> Appended(old(buffer[..offset]), t)
      ensures buffer == old(buffer) || fresh(buffer)
      ensures noalloc ==> buffer == old(buffer)
    {
      ok := Ensure(needed);
      if ok {
        Put(t, terminated);
        offset := offset + |t|;
      }
    }

    /** The last piece: it is written with its NUL and `offset` stays. */
    method Close(t: string) returns (ok: bool)
      requires Ready()
      modifies this`buffer, buffer
      ensures ok <==> offset + |t| + 2 <= old(Limit())
      ensures ok ==> Shows(old(buffer[..offset]), t)
      ensures buffer == old(buffer) || fresh(buffer)
      ensures noalloc ==> buffer == old(buffer)
    {
      ok := Ensure(|t| + 1);
      if ok {
        Put(t, true);
      }
    }

    /** The last piece of an array or object. */
    method Finish(ghost before: string, ghost printed: string, t: string) returns (ok: bool)
      requires Ready() && buffer[..offset] == before + printed
      modifies this`buffer, buffer
      ensures ok <==> offset + |t| + 2 <= old(Limit())
      ensures ok ==> Shows(before, printed + t)
      ensures buffer == old(buffer) || fresh(buffer)
      ensures noalloc ==> buffer == old(buffer)
    {
      ok := Close(t);
      assert (before + printed) + t == before + (printed + t);
    }

    /** Behind a value: `update_offset` finds its end. */
    method Catch(ghost before: string, ghost t: string)
      requires Shows(before, t) && NulFree(t)
      modifies this`offset
      ensures Appended(before, t)
    {
      ghost var end := |before| + |t|;
      forall k | offset <= k < end ensures buffer[k] != '\0' {
        assert buffer[k] == buffer[..end][k] == t[k - |before|];
      }
      UpdateOffset(end);
    }

    // -------------------------------------------------------------------------
    // Values

    /** `print_number`; the text of the number has been made by `sprintf`. */
    method PrintNumber(n: int) returns (ok: bool)
      requires Ready()
      modifies this, buffer
      ensures ok <==> |Integer(n)| <= 25 && old(offset) + |Integer(n)| + 2 <= old(Limit())
      ensures ok ==> Shows(old(buffer[..offset]), Integer(n)) && depth == old(depth)
      ensures buffer == old(buffer) || fresh(buffer)
      ensures noalloc ==> buffer == old(buffer)
    {
      var number := Integer(n);
      if |number| > 25 {
        return false;
      }
      ok := Ensure(|number| + 1);
      if ok {
        Put(number, true);
        offset := offset + |number|;
      }
    }

    /** The first loop of `print_string_ptr`: the length with all escapes. */
    method EscapedLength(input: string) returns (length: nat)
      ensures length == |Escaped(input)|
    {
      var escapes := 0;
      for i := 0 to |input|
        invariant i + escapes == |Escaped(input[..i])|
      {
        EscapedSnoc(input, i);
        if Shorthand(input[i]).Some? {
          escapes := escapes + 1;
        } else if input[i] < ' ' {
          escapes := escapes + 5;
        }
      }
      assert input[..|input|] == input;
      length := |input| + escapes;
    }

    /** A character behind its backslash. */
    method WriteSequence(c: char, p: nat) returns (next: nat)
      requires (Shorthand(c).Some? || c < ' ') && p + |EscapedChar(c)| <= buffer.Length + 1
      modifies buffer
      ensures next == p + |EscapedChar(c)| - 1 && buffer[..next] == old(buffer[..p]) + EscapedChar(c)[1..]
    {
      if Shorthand(c).Some? {
        Store(p, [Shorthand(c).value]);
        next := p + 1;
      } else {
        var hex := "u00" + [HexChar(c as nat / 16), HexChar(c as nat % 16)];
        assert Hex(c)[1..] == hex;
        Store(p, hex);
        next := p + 5;
      }
    }

    /** One character of the loop of `print_string_ptr` that escapes. */
    method WriteChar(c: char, p: nat) returns (next: nat)
      requires p + |EscapedChar(c)| <= buffer.Length
      modifies buffer
      ensures next == p + |EscapedChar(c)| && buffer[..next] == old(buffer[..p]) + EscapedChar(c)
    {
      if c > '\U{001F}' && c != '"' && c != '\\' {
        Store(p, [c]);
        next := p + 1;
      } else {
        ghost var before := buffer[..p];
        Store(p, "\\");
        next := WriteSequence(c, p + 1);
        assert before + "\\" + EscapedChar(c)[1..] == before + EscapedChar(c);
      }
    }

    method WriteEscaped(input: string, start: nat)
      requires start + |Escaped(input)| <= buffer.Length
      modifies buffer
      ensures buffer[..start + |Escaped(input)|] == old(buffer[..start]) + Escaped(input)
    {
      hide EscapedChar;
      var p := start;
      ghost var before := buffer[..start];
      assert before + Escaped(input[..0]) == before;
      for i := 0 to |input|
        invariant p == start + |Escaped(input[..i])| && p + |Escaped(input[i..])| == start + |Escaped(input)|
        invariant buffer[..p] == before + Escaped(input[..i])
      {
        EscapedSnoc(input, i);
        assert input[i..][1..] == input[i + 1..];
        p := WriteChar(input[i], p);
        assert buffer[..p] == before + (Escaped(input[..i]) + EscapedChar(input[i]));
      }
      assert input[..|input|] == input;
    }

    /** What stands between the quotes: copied at once if there is nothing to escape. */
    method WriteBody(input: string, length: nat, start: nat)
      requires length == |Escaped(input)| && start + length <= buffer.Length
      modifies buffer
      ensures buffer[..start + length] == old(buffer[..start]) + Escaped(input)
    {
      if length == |input| {
        NothingEscaped(input);
        forall i | 0 <= i < length {
          buffer[start + i] := input[i];
        }
        assert buffer[..start] == old(buffer[..start]) && buffer[start..start + length] == input;
      } else {
        WriteEscaped(input, start);
      }
    }

    method WriteQuoted(input: string, length: nat)
      requires length == |Escaped(input)| && offset + length + 2 < buffer.Length
      modifies buffer
      ensures buffer[..offset + |Quoted(input)|] == old(buffer[..offset]) + Quoted(input)
      ensures buffer[offset + |Quoted(input)|] == '\0'
    {
      hide Escaped;
      ghost var before := buffer[..offset];
      Store(offset, "\"");
      WriteBody(input, length, offset + 1);
      Store(offset + length + 1, "\"");
      ghost var text := buffer[..offset + length + 2];
      buffer[offset + length + 2] := '\0';
      assert buffer[..offset + length + 2] == text;
      assert before + "\"" + Escaped(input) + "\"" == before + Quoted(input);
    }

    /** `print_string_ptr`: `offset` does not move. */
    method PrintString(input: string) returns (ok: bool)
      requires Ready()
      modifies this, buffer
      ensures ok <==> old(offset) + |Quoted(input)| + 2 <= old(Limit())
      ensures ok ==> Shows(old(buffer[..offset]), Quoted(input)) && depth == old(depth)
      ensures buffer == old(buffer) || fresh(buffer)
      ensures noalloc ==> buffer == old(buffer)
    {
      hide Escaped;
      var length := EscapedLength(input);
      ok := Ensure(length + 3);
      if ok {
        WriteQuoted(input, length);
      }
    }

    /** A literal copied with `strcpy` or `memcpy`. */
    method PrintLiteral(t: string) returns (ok: bool)
      requires Ready()
      modifies this, buffer
      ensures ok <==> old(offset) + |t| + 2 <= old(Limit())
      ensures ok ==> Shows(old(buffer[..offset]), t) && depth == old(depth)
      ensures buffer == old(buffer) || fresh(buffer)
      ensures noalloc ==> buffer == old(buffer)
    {
      ok := Close(t);
    }

    /** `print_value`: it succeeds exactly when the tree can be printed and its text, the NUL
        and one more character fit; then the buffer shows the text. */
    method PrintValue(j: Json) returns (ok: bool)
      requires Ready() && CStrings(j)
      modifies this, buffer
      ensures ok <==> Printable(j) && old(offset) + |Text(format, old(depth), j)| + 2 <= old(Limit())
      ensures ok ==> Shows(old(buffer[..offset]), Text(format, old(depth), j)) && depth == old(depth)
      ensures buffer == old(buffer) || fresh(buffer)
      ensures noalloc ==> buffer == old(buffer)
      decreases j, 2
    {
      match j
      case Null => ok := PrintLiteral("null");
      case False => ok := PrintLiteral("false");
      case True => ok := PrintLiteral("true");
      case Number(n) => ok := PrintNumber(n);
      case Raw(s) => ok := PrintLiteral(s);
      case String(s) => ok := PrintString(s);
      case Array(items) => ok := PrintArray(items);
      case Object(ms) => ok := PrintObject(ms);
      case Invalid => ok := false;
    }

    /** One round of the loop of `print_array`. */
    method PrintItem(item: Json, last: bool) returns (ok: bool)
      requires Ready() && CStrings(item)
      modifies this, buffer
      ensures
        var t := Text(format, old(depth), item) + ItemSeparator(format, last);
        && (ok <==> Printable(item) && old(offset) + |t| + 2 <= old(Limit()))
        && (ok ==> Appended(old(buffer[..offset]), t) && depth == old(depth))
      ensures buffer == old(buffer) || fresh(buffer)
      ensures noalloc ==> buffer == old(buffer)
      decreases item, 3
    {
      hide Text, Printable, CStrings;
      ghost var before, t := buffer[..offset], Text(format, depth, item);
      TextNulFree(format, depth, item);
      ok := PrintValue(item);
      if ok {
        Catch(before, t);
        if !last {
          var separator := ItemSeparator(format, false);
          ok := Append(separator, |separator| + 1, true);
        }
        assert before + t + ItemSeparator(format, last) == before + (t + ItemSeparator(format, last));
      }
    }

    /** The loop of `print_array`. */
    method PrintItems(items: seq<Json>) returns (ok: bool)
      requires offset < buffer.Length <= INT_MAX && CStrings(Array(items))
      modifies this, buffer
      ensures ok ==>
        Printable(Array(items)) && Appended(old(buffer[..offset]), ItemsText(format, depth, items))
        && depth == old(depth)
      ensures !ok ==>
        !Printable(Array(items)) || old(offset) + |ItemsText(format, old(depth), items)| + 2 > old(Limit())
      ensures buffer == old(buffer) || fresh(buffer)
      ensures noalloc ==> buffer == old(buffer)
      decreases items, 4
    {
      hide Text, ItemsText;
      ghost var before, printed := buffer[..offset], "";
      assert items[0..] == items && before + printed == before;
      assert printed + ItemsText(format, depth, items) == ItemsText(format, depth, items);
      for k := 0 to |items|
        invariant Appended(before, printed) && depth == old(depth)
        invariant printed + ItemsText(format, depth, items[k..]) == ItemsText(format, depth, items)
        invariant forall x :: 0 <= x < k ==> Printable(items[x])
        invariant buffer == old(buffer) || fresh(buffer)
        invariant noalloc ==> buffer == old(buffer)
      {
        ghost var t := Text(format, depth, items[k]) + ItemSeparator(format, k + 1 == |items|);
        ItemsStep(format, depth, items, k, printed);
        ok := PrintItem(items[k], k + 1 == |items|);
        if !ok {
          return;
        }
        Joined(before, printed, t);
        printed := printed + t;
      }
      NoItemsLeft(format, depth, items[|items|..], printed);
      ok := true;
    }

    method PrintArray(items: seq<Json>) returns (ok: bool)
      requires Ready() && CStrings(Array(items))
      modifies this, buffer
      ensures ok <==>
        Printable(Array(items)) && old(offset) + |ArrayText(format, old(depth), items)| + 2 <= old(Limit())
      ensures ok ==> Shows(old(buffer[..offset]), ArrayText(format, old(depth), items)) && depth == old(depth)
      ensures buffer == old(buffer) || fresh(buffer)
      ensures noalloc ==> buffer == old(buffer)
      decreases items, 5
    {
      hide ItemsText, Printable, CStrings;
      ghost var before := buffer[..offset];
      ok := Append("[", 1, false);
      if !ok {
        return;
      }
      depth := depth + 1;
      ghost var t := ItemsText(format, depth, items);
      ok := PrintItems(items);
      if !ok {
        return;
      }
      assert before + "[" + t == before + ("[" + t);
      ok := Finish(before, "[" + t, "]");
      depth := depth - 1;
    }

    /** One round of the loop of `print_object`. */
    method PrintMember(m: Member, last: bool) returns (ok: bool)
      requires offset < buffer.Length <= INT_MAX && NulFree(m.key) && CStrings(m.value)
      modifies this, buffer
      ensures
        var t := MemberText(format, old(depth), m, last);
        && (ok <==> Printable(m.value) && old(offset) + |t| + 2 <= old(Limit()))
        && (ok ==> Appended(old(buffer[..offset]), t) && depth == old(depth))
      ensures buffer == old(buffer) || fresh(buffer)
      ensures noalloc ==> buffer == old(buffer)
      decreases m, 3
    {
      hide Text, Printable, CStrings, Quoted, Tabs, Colon, MemberEnd;
      ghost var before := buffer[..offset];
      ghost var name := Tabs(format, depth) + Quoted(m.key) + Colon(format);
      ok := PrintName(m.key);
      if !ok {
        return;
      }
      ghost var t := Text(format, depth, m.value);
      TextNulFree(format, depth, m.value);
      ok := PrintValue(m.value);
      if !ok {
        return;
      }
      Catch(before + name, t);
      ok := Append(MemberEnd(format, last), |MemberEnd(format, last)| + 1, true);
      Regroup(before, Tabs(format, depth), Quoted(m.key), Colon(format), t, MemberEnd(format, last));
    }

    method Indent() returns (ok: bool)
      requires offset < buffer.Length <= INT_MAX
      modifies this`buffer, this`offset, buffer
      ensures ok ==> Appended(old(buffer[..offset]), Tabs(format, depth))
      ensures !ok ==> old(offset) + |Tabs(format, depth)| + 1 > old(Limit())
      ensures buffer == old(buffer) || fresh(buffer)
      ensures noalloc ==> buffer == old(buffer)
    {
      ok := true;
      if format {
        ok := Append(Tabs(true, depth), depth, false);
      }
    }

    /** Indentation, name and colon. */
    method PrintName(key: string) returns (ok: bool)
      requires offset < buffer.Length <= INT_MAX && NulFree(key)
      modifies this, buffer
      ensures
        var t := Tabs(format, old(depth)) + Quoted(key) + Colon(format);
        && (ok ==> Appended(old(buffer[..offset]), t) && depth == old(depth))
        && (!ok ==> old(offset) + |t| + 2 > old(Limit()))
      ensures buffer == old(buffer) || fresh(buffer)
      ensures noalloc ==> buffer == old(buffer)
    {
      hide Quoted, Tabs;
      ghost var before, w, t := buffer[..offset], Tabs(format, depth), Quoted(key);
      ok := Indent();
      if !ok {
        return;
      }
      QuotedNulFree(key);
      ok := PrintString(key);
      if ok {
        Catch(before + w, t);
        ok := Append(Colon(format), |Colon(format)|, false);
        Joined(before, w, t);
        Joined(before, w + t, Colon(format));
      }
    }

    /** The loop of `print_object`. */
    method PrintMembers(ms: seq<Member>) returns (ok: bool)
      requires offset < buffer.Length <= INT_MAX && CStrings(Object(ms))
      modifies this, buffer
      ensures ok ==>
        Printable(Object(ms)) && Appended(old(buffer[..offset]), MembersText(format, depth, ms)) && depth == old(depth)
      ensures !ok ==> !Printable(Object(ms)) || old(offset) + |MembersText(format, old(depth), ms)| + 2 > old(Limit())
      ensures buffer == old(buffer) || fresh(buffer)
      ensures noalloc ==> buffer == old(buffer)
      decreases ms, 4
    {
      hide MemberText, MembersText;
      ghost var before, printed := buffer[..offset], "";
      assert ms[0..] == ms && before + printed == before;
      assert printed + MembersText(format, depth, ms) == MembersText(format, depth, ms);
      for k := 0 to |ms|
        invariant Appended(before, printed) && depth == old(depth)
        invariant printed + MembersText(format, depth, ms[k..]) == MembersText(format, depth, ms)
        invariant forall x :: 0 <= x < k ==> Printable(ms[x].value)
        invariant buffer == old(buffer) || fresh(buffer)
        invariant noalloc ==> buffer == old(buffer)
      {
        ghost var t := MemberText(format, depth, ms[k], k + 1 == |ms|);
        MembersStep(format, depth, ms, k, printed);
        ok := PrintMember(ms[k], k + 1 == |ms|);
        if !ok {
          return;
        }
        Joined(before, printed, t);
        printed := printed + t;
      }
      NoMembersLeft(format, depth, ms[|ms|..], printed);
      ok := true;
    }

    method PrintObject(ms: seq<Member>) returns (ok: bool)
      requires Ready() && CStrings(Object(ms))
      modifies this, buffer
      ensures ok <==> Printable(Object(ms)) && old(offset) + |ObjectText(format, old(depth), ms)| + 2 <= old(Limit())
      ensures ok ==> Shows(old(buffer[..offset]), ObjectText(format, old(depth), ms)) && depth == old(depth)
      ensures buffer == old(buffer) || fresh(buffer)
      ensures noalloc ==> buffer == old(buffer)
      decreases ms, 5
    {
      hide MembersText, Printable, CStrings, ObjectOpen, Tabs, ObjectText;
      ghost var before, open := buffer[..offset], ObjectOpen(format);
      ObjectParts(format, depth, ms);
      ok := Append(ObjectOpen(format), |ObjectOpen(format)| + 1, false);
      if !ok {
        return;
      }
      depth := depth + 1;
      ghost var t := MembersText(format, depth, ms);
      ok := PrintMembers(ms);
      if !ok {
        return;
      }
      Joined(before, open, t);
      ok := Finish(before, open + t, Tabs(format, depth - 1) + "}");
      depth := depth - 1;
    }
  }

  // ---------------------------------------------------------------------------
  // cJSON_Print, cJSON_PrintBuffered, cJSON_PrintPreallocated

  /** `t` and its NUL are at the start of the buffer. */
  ghost predicate Holds(buffer: array<char>, t: string)
    reads buffer
  {
    |t| < buffer.Length && buffer[..|t|] == t && buffer[|t|] == '\0'
  }

  /** `cJSON_PrintPreallocated`.  Two characters more than the text has are enough, and
      needed; `cJSON.h` asks for five. */
  method PrintPreallocated(j: Json, buffer: array<char>, format: bool) returns (ok: bool)
    requires CStrings(j) && buffer.Length <= INT_MAX
    modifies buffer
    ensures ok <==> Printable(j) && |Text(format, 0, j)| + 2 <= buffer.Length
    ensures ok ==> Holds(buffer, Text(format, 0, j))
  {
    hide Text, Printable, CStrings;
    var p := new PrintBuffer(buffer, true, false, format);
    ok := p.PrintValue(j);
    assert buffer[..0] + Text(format, 0, j) == Text(format, 0, j);
  }

  /** `cJSON_PrintBuffered`: the size to start with, as long as it is none below zero, makes
      no difference.  Without a `realloc` it must not be 0: the code reads the first character of
      the block it grows. */
  method PrintBuffered(j: Json, prebuffer: int, realloc: bool, format: bool) returns (ok: bool, text: array<char>)
    requires CStrings(j) && prebuffer <= INT_MAX && (prebuffer == 0 ==> realloc)
    ensures ok <==> prebuffer >= 0 && Printable(j) && |Text(format, 0, j)| + 2 <= INT_MAX
    ensures ok ==> Holds(text, Text(format, 0, j))
  {
    hide Text, Printable, CStrings;
    if prebuffer < 0 {
      text := new char[0];
      return false, text;
    }
    var buffer := new char[prebuffer];
    var p := new PrintBuffer(buffer, false, realloc, format);
    ok := p.PrintValue(j);
    text := p.buffer;
    assert buffer[..0] + Text(format, 0, j) == Text(format, 0, j);
  }

  /** `cJSON_Print` and `cJSON_PrintUnformatted`: the result is as long as the text. */
  method Print(j: Json, realloc: bool, format: bool) returns (ok: bool, printed: array<char>)
    requires CStrings(j)
    ensures ok <==> Printable(j) && |Text(format, 0, j)| + 2 <= INT_MAX
    ensures ok ==> printed[..] == Text(format, 0, j) + "\0"
  {
    hide Text, Printable, CStrings;
    var buffer := new char[256];
    var p := new PrintBuffer(buffer, false, realloc, format);
    ghost var t := Text(format, 0, j);
    ok := p.PrintValue(j);
    if !ok {
      printed := new char[0];
      return;
    }
    TextNulFree(format, 0, j);
    p.Catch("", t);
    printed := Shrink(p.buffer, p.offset + 1);
    assert "" + t == t;
    assert p.buffer[..p.offset + 1] == p.buffer[..p.offset] + [p.buffer[p.offset]];
  }

  /** `realloc` to a smaller size. */
  method Shrink(buffer: array<char>, size: nat) returns (r: array<char>)
    requires size <= buffer.Length
    ensures fresh(r) && r[..] == buffer[..size]
  {
    r := new char[size];
    forall i | 0 <= i < size {
      r[i] := buffer[i];
    }
  }

  lemma NoItemsLeft(fmt: bool, depth: nat, rest: seq<Json>, printed: string)
    requires rest == []
    ensures printed + ItemsText(fmt, depth, rest) == printed
  {
  }

  lemma NoMembersLeft(fmt: bool, depth: nat, rest: seq<Member>, printed: string)
    requires rest == []
    ensures printed + MembersText(fmt, depth, rest) == printed
  {
  }

  lemma ItemsStep(fmt: bool, depth: nat, items: seq<Json>, k: nat, printed: string)
    requires k < |items|
    ensures
      var t := Text(fmt, depth, items[k]) + ItemSeparator(fmt, k + 1 == |items|);
      printed + ItemsText(fmt, depth, items[k..]) == (printed + t) + ItemsText(fmt, depth, items[k + 1..])
  {
    hide Text;
    assert items[k..][1..] == items[k + 1..];
    var a, b, c := Text(fmt, depth, items[k]), ItemSeparator(fmt, k + 1 == |items|),
      ItemsText(fmt, depth, items[k + 1..]);
    assert printed + (a + (b + c)) == (printed + (a + b)) + c;
  }

  lemma MembersStep(fmt: bool, depth: nat, ms: seq<Member>, k: nat, printed: string)
    requires k < |ms|
    ensures
      var t := MemberText(fmt, depth, ms[k], k + 1 == |ms|);
      printed + MembersText(fmt, depth, ms[k..]) == (printed + t) + MembersText(fmt, depth, ms[k + 1..])
  {
    hide MemberText;
    assert ms[k..][1..] == ms[k + 1..];
    var a, c := MemberText(fmt, depth, ms[k], k + 1 == |ms|), MembersText(fmt, depth, ms[k + 1..]);
    assert printed + (a + c) == (printed + a) + c;
  }

  lemma Joined(a: string, b: string, c: string)
    ensures (a + b) + c == a + (b + c)
  {
  }

  lemma ObjectParts(fmt: bool, depth: nat, ms: seq<Member>)
    ensures ObjectText(fmt, depth, ms) == (ObjectOpen(fmt) + MembersText(fmt, depth + 1, ms)) + (Tabs(fmt, depth) + "}")
  {
    hide MembersText, ObjectOpen, Tabs;
  }

  lemma Regroup(a: string, b: string, c: string, d: string, e: string, f: string)
    ensures ((a + (b + c + d)) + e) + f == a + (b + (c + (d + (e + f))))
  {
  }

  lemma {:induction false} EscapedSnoc(s: string, i: nat)
    requires i < |s|
    ensures Escaped(s[..i + 1]) == Escaped(s[..i]) + EscapedChar(s[i])
    decreases i
  {
    if i == 0 {
      assert s[..1][1..] == [] && s[..0] == [];
      assert Escaped(s[..1]) == EscapedChar(s[0]) + Escaped([]);
    } else {
      EscapedSnoc(s[1..], i - 1);
      assert s[..i + 1][1..] == s[1..][..i] && s[..i][1..] == s[1..][..i - 1];
      assert EscapedChar(s[0]) + (Escaped(s[1..][..i - 1]) + EscapedChar(s[i]))
          == (EscapedChar(s[0]) + Escaped(s[1..][..i - 1])) + EscapedChar(s[i]);
    }
  }

  lemma {:induction false} NothingEscaped(s: string)
    ensures |Escaped(s)| >= |s|
    ensures |Escaped(s)| == |s| ==> Escaped(s) == s
  {
    if s != [] {
      NothingEscaped(s[1..]);
      assert [s[0]] + s[1..] == s;
    }
  }
}
