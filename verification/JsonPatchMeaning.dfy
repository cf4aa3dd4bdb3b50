/** What each operation of a JSON Patch means: over the values documents stand for and paths cut
    into their elements, in the words of RFC 6902 section 4.  Paths are plain: their elements have
    nothing to escape. */
module JsonPatchMeaning {
  import opened Options
  import opened Strings
  import opened Sort
  import opened Json
  import opened JsonEquality
  import opened JsonPointer
  import opened JsonPatch
  import opened JsonPatchPaths

  // ---------------------------------------------------------------------------
  // Paths

  ghost predicate PlainPath(path: seq<string>) {
    forall i :: 0 <= i < |path| ==> Plain(path[i]) && '\0' !in path[i]
  }

  /** The text of a path. */
  function Written(path: seq<string>): string {
    if path == [] then [] else "/" + path[0] + Written(path[1..])
  }

  /** Decimal digits; the code takes the characters behind '9' for digits, too. */
  function Weighed(token: string): nat
    requires forall i :: 0 <= i < |token| ==> token[i] >= '0'
  {
    if token == [] then 0
    else 10 * Weighed(token[..|token| - 1]) + (token[|token| - 1] as nat - '0' as nat)
  }

  /** The array index a path element is: a number without leading zeros.  The code reads the empty
      element as 0, and characters behind '9' after the first. */
  function IndexNamed(token: string): Option<nat> {
    if token == [] then Some(0)
    else if |token| > 1 && token[0] == '0' then None
    else if token[0] > '9' || exists i | 0 <= i < |token| :: token[i] < '0' then None
    else Some(Weighed(token))
  }

  /** The child of a value that a path element names. */
  function Inner(cs: bool, v: Value, token: string): Option<Value> {
    match v
    case VObject(m) => if FoldString(cs, token) in m then Some(m[FoldString(cs, token)]) else None
    case VArray(xs) =>
      var k := IndexNamed(token);
      if k.Some? && k.value < |xs| then Some(xs[k.value]) else None
    case VScalar(_) => None
  }

  function WithInner(cs: bool, v: Value, token: string, w: Value): Value
    requires Inner(cs, v, token).Some?
  {
    if v.VObject? then VObject(v.fields[FoldString(cs, token) := w])
    else VArray(v.elements[IndexNamed(token).value := w])
  }

  /** What is at a path. */
  function Look(cs: bool, v: Value, path: seq<string>): Option<Value>
    decreases |path|
  {
    if path == [] then Some(v)
    else match Inner(cs, v, path[0])
      case None => None
      case Some(c) => Look(cs, c, path[1..])
  }

  /** The value with what is at a path replaced. */
  function Changed(cs: bool, v: Value, path: seq<string>, w: Value): Value
    requires Look(cs, v, path).Some?
    decreases |path|
  {
    if path == [] then w
    else WithInner(cs, v, path[0], Changed(cs, Inner(cs, v, path[0]).value, path[1..], w))
  }

  // ---------------------------------------------------------------------------
  // The operations

  /** A refusal with its status, or the value there is then. */
  datatype Sum = Refused(status: int) | Gives(value: Value)

  /** A value with a child added under a name. */
  function Joined(cs: bool, parent: Option<Value>, token: string, x: Value): Sum {
    match parent
    case Some(VObject(m)) => Gives(VObject(m[FoldString(cs, token) := x]))
    case Some(VArray(xs)) =>
      if token == "-" then Gives(VArray(xs + [x]))
      else
        (match IndexNamed(token)
         case None => Refused(11)
         case Some(k) => if k > |xs| then Refused(10) else Gives(VArray(xs[..k] + [x] + xs[k..])))
    case _ => Refused(9)
  }

  function Front(path: seq<string>): seq<string>
    requires path != []
  {
    path[..|path| - 1]
  }

  function Final(path: seq<string>): string
    requires path != []
  {
    path[|path| - 1]
  }

  /** A value with `x` added at a path. */
  function Added(cs: bool, v: Value, path: seq<string>, x: Value): Sum {
    if path == [] then Refused(9)
    else match Joined(cs, Look(cs, v, Front(path)), Final(path), x)
      case Refused(status) => Refused(status)
      case Gives(w) => Gives(Changed(cs, v, Front(path), w))
  }

  /** A child of a value. */
  datatype Part = AtKey(key: string) | AtIndex(index: nat)

  predicate HasPart(v: Value, p: Part) {
    match p
    case AtKey(key) => v.VObject? && key in v.fields
    case AtIndex(i) => v.VArray? && i < |v.elements|
  }

  function PartOf(v: Value, p: Part): Value
    requires HasPart(v, p)
  {
    match p
    case AtKey(key) => v.fields[key]
    case AtIndex(i) => v.elements[i]
  }

  function Without(v: Value, p: Part): Value
    requires HasPart(v, p)
  {
    match p
    case AtKey(key) => VObject(v.fields - {key})
    case AtIndex(i) => VArray(v.elements[..i] + v.elements[i + 1..])
  }

  /** The child of a node that an operation takes out under a name.  Of an object it is the first
      member with that key, ignoring case in both modes. */
  function Picks(cs: bool, parent: Json, token: string): Option<Part> {
    match parent
    case Object(ms) =>
      (match Find(false, ms, token)
       case None => None
       case Some(i) => Some(AtKey(FoldString(cs, ms[i].key))))
    case Array(items) =>
      var k := IndexNamed(token);
      if k.Some? && k.value < |items| then Some(AtIndex(k.value)) else None
    case _ => None
  }

  /** The child of the node at the front of a path that an operation takes out there. */
  function Takes(cs: bool, doc: Json, path: seq<string>): Option<Part> {
    if path == [] || GetItem(cs, doc, Written(Front(path))).None? then None
    else Picks(cs, GetItem(cs, doc, Written(Front(path))).value, Final(path))
  }

  /** The value without it. */
  function Removed(cs: bool, v: Value, path: seq<string>, p: Part): Value
    requires path != [] && Look(cs, v, Front(path)).Some? && HasPart(Look(cs, v, Front(path)).value, p)
  {
    Changed(cs, v, Front(path), Without(Look(cs, v, Front(path)).value, p))
  }

  datatype Request =
    | ToAdd(path: seq<string>, value: Option<Json>)
    | ToRemove(path: seq<string>)
    | ToReplace(path: seq<string>, value: Option<Json>)
    | ToMove(from: seq<string>, path: seq<string>)
    | ToCopy(from: seq<string>, path: seq<string>)
    | ToTest(path: seq<string>, value: Option<Json>)

  /** The patch is the JSON object of the request. */
  ghost predicate Asks(cs: bool, patch: Json, q: Request) {
    && GetObjectItem(cs, patch, "path") == Some(String(Written(q.path)))
    && match q
       case ToAdd(_, value) =>
         GetObjectItem(cs, patch, "op") == Some(String("add")) && GetObjectItem(cs, patch, "value") == value
       case ToRemove(_) => GetObjectItem(cs, patch, "op") == Some(String("remove"))
       case ToReplace(_, value) =>
         GetObjectItem(cs, patch, "op") == Some(String("replace")) && GetObjectItem(cs, patch, "value") == value
       case ToMove(from, _) =>
         && GetObjectItem(cs, patch, "op") == Some(String("move"))
         && GetObjectItem(cs, patch, "from") == Some(String(Written(from)))
       case ToCopy(from, _) =>
         && GetObjectItem(cs, patch, "op") == Some(String("copy"))
         && GetObjectItem(cs, patch, "from") == Some(String(Written(from)))
       case ToTest(_, value) =>
         GetObjectItem(cs, patch, "op") == Some(String("test")) && GetObjectItem(cs, patch, "value") == value
  }

  ghost predicate Proper(cs: bool, q: Request) {
    && PlainPath(q.path) && (q.ToMove? || q.ToCopy? ==> PlainPath(q.from))
    && (q.ToAdd? || q.ToReplace? || q.ToTest? ==> q.value.Some? ==> WellFormed(cs, q.value.value))
  }

  /** The part that is taken out is there. */
  lemma TakesPart(cs: bool, doc: Json, path: seq<string>)
    requires WellFormed(cs, doc) && Takes(cs, doc, path).Some? && PlainPath(path)
    ensures Look(cs, Norm(cs, doc), Front(path)).Some?
    ensures HasPart(Look(cs, Norm(cs, doc), Front(path)).value, Takes(cs, doc, path).value)
  {
    hide Norm, Look, GetItem;
    LookIs(cs, doc, Front(path));
    PickedPart(cs, GetItem(cs, doc, Written(Front(path))).value, Final(path));
  }

  lemma PickedPart(cs: bool, parent: Json, token: string)
    requires Picks(cs, parent, token).Some?
    ensures HasPart(Norm(cs, parent), Picks(cs, parent, token).value)
  {
    if parent.Object? {
      NormMembersKeys(cs, parent.members);
    }
  }

  // ---------------------------------------------------------------------------
  // Following a path

  lemma {:induction false} DigitsRead(token: string, position: nat)
    requires position <= |token| && token != [] && token[0] <= '9'
    requires forall i :: 0 <= i < position ==> token[i] >= '0'
    ensures
      var (q, n) := DecodeDigits(token, position, Weighed(token[..position]));
      && q <= |token| && (forall i :: 0 <= i < q ==> token[i] >= '0') && n == Weighed(token[..q])
      && (q < |token| ==> token[q] < '0')
    decreases |token| - position
  {
    if position < |token| && token[position] >= '0' {
      var next := token[..position + 1];
      assert next[..position] == token[..position] && next[position] == token[position];
      DigitsRead(token, position + 1);
    }
  }

  /** The code reads the index a path element names. */
  lemma IndexRead(token: string)
    requires Plain(token) && '\0' !in token
    ensures DecodeArrayIndex(token) == IndexNamed(token)
  {
    if token != [] && token[0] <= '9' {
      DigitsRead(token, 0);
      assert token[..0] == [] && token[..|token|] == token;
      var q := DecodeDigits(token, 0, 0).0;
      if q < |token| { assert token[q] in token; }
      if |token| > 1 { assert token[1] in token; }
    } else if token != [] {
      assert token[0] in token;
    }
  }

  lemma {:induction false} WrittenEnds(path: seq<string>)
    ensures TokenEnd(Written(path)) && (path != [] ==> Written(path) != [])
  {
  }

  lemma PlainRest(path: seq<string>)
    requires PlainPath(path) && path != []
    ensures PlainPath(path[1..]) && PlainPath(Front(path))
  {
  }

  /** The child a step leads to is the one the value has under that name. */
  lemma SlotIs(cs: bool, doc: Json, token: string)
    requires Plain(token) && '\0' !in token
    ensures Slot(cs, doc, token).Some? <==> Inner(cs, Norm(cs, doc), token).Some?
    ensures Slot(cs, doc, token).Some? ==>
      Norm(cs, Child(doc, Slot(cs, doc, token).value)) == Inner(cs, Norm(cs, doc), token).value
  {
    match doc {
      case Object(ms) => NormMembersFind(cs, ms, token);
      case Array(_) => IndexRead(token);
      case _ =>
    }
  }

  /** Following the text of a path leads to what is there. */
  lemma {:induction false} LookIs(cs: bool, doc: Json, path: seq<string>)
    requires PlainPath(path)
    ensures GetItem(cs, doc, Written(path)).Some? <==> Look(cs, Norm(cs, doc), path).Some?
    ensures GetItem(cs, doc, Written(path)).Some? ==>
      Norm(cs, GetItem(cs, doc, Written(path)).value) == Look(cs, Norm(cs, doc), path).value
    decreases |path|
  {
    hide Norm, Slot, Inner;
    if path != [] {
      var rest := Written(path[1..]);
      PlainRest(path);
      WrittenEnds(path[1..]);
      SlotIs(cs, doc, path[0]);
      StepPlain(cs, doc, path[0], rest);
      if Slot(cs, doc, path[0]).Some? {
        LookIs(cs, Child(doc, Slot(cs, doc, path[0]).value), path[1..]);
      }
    }
  }

  lemma SetChildIs(cs: bool, doc: Json, token: string, c: Json)
    requires Plain(token) && '\0' !in token && WellFormed(cs, doc) && WellFormed(cs, c)
    requires Slot(cs, doc, token).Some?
    ensures
      var d := SetChild(doc, Slot(cs, doc, token).value, c);
      && Inner(cs, Norm(cs, doc), token).Some?
      && WellFormed(cs, d) && Norm(cs, d) == WithInner(cs, Norm(cs, doc), token, Norm(cs, c))
  {
    SlotIs(cs, doc, token);
    var i := Slot(cs, doc, token).value;
    match doc {
      case Object(ms) =>
        SameKey(cs, token, ms[i].key);
        NormUpdate(cs, ms, i, Member(ms[i].key, c));
      case Array(items) =>
        IndexRead(token);
        assert NormItems(cs, items[i := c]) == NormItems(cs, items)[i := Norm(cs, c)];
    }
  }

  /** Changing the item at the text of a path changes what is there. */
  lemma {:induction false} PutIs(cs: bool, doc: Json, path: seq<string>, w: Json)
    requires PlainPath(path) && WellFormed(cs, doc) && WellFormed(cs, w) && GetItem(cs, doc, Written(path)).Some?
    ensures
      var d := PutItem(cs, doc, Written(path), w);
      && Look(cs, Norm(cs, doc), path).Some?
      && WellFormed(cs, d) && Norm(cs, d) == Changed(cs, Norm(cs, doc), path, Norm(cs, w))
    decreases |path|
  {
    hide Norm, Slot, Inner, WellFormed, WithInner;
    LookIs(cs, doc, path);
    if path != [] {
      var rest := Written(path[1..]);
      PlainRest(path);
      WrittenEnds(path[1..]);
      SlotIs(cs, doc, path[0]);
      StepPlain(cs, doc, path[0], rest);
      var i := Slot(cs, doc, path[0]).value;
      ChildWellFormed(cs, doc, i);
      PutIs(cs, Child(doc, i), path[1..], w);
      SetChildIs(cs, doc, path[0], PutItem(cs, Child(doc, i), rest, w));
    }
  }

  lemma ChildWellFormed(cs: bool, doc: Json, i: nat)
    requires WellFormed(cs, doc) && ((doc.Array? && i < |doc.items|) || (doc.Object? && i < |doc.members|))
    ensures WellFormed(cs, Child(doc, i))
  {
  }

  lemma {:induction false} WrittenSplit(path: seq<string>)
    requires path != [] && PlainPath(path)
    ensures Written(path) == Written(Front(path)) + ("/" + Final(path))
    decreases |path|
  {
    hide Plain, PlainPath, Front, Final;
    if |path| == 1 {
      OnlyOne(path);
    } else {
      var rest := path[1..];
      PlainRest(path);
      WrittenSplit(rest);
      FrontOf(path);
      Regrouped("/" + path[0], Written(Front(rest)), "/" + Final(path));
    }
  }

  lemma OnlyOne(path: seq<string>)
    requires |path| == 1
    ensures Front(path) == [] && Final(path) == path[0]
    ensures Written(path) == Written([]) + ("/" + path[0]) && Written([]) == ""
  {
    assert path[1..] == [];
  }

  lemma FrontOf(path: seq<string>)
    requires |path| > 1
    ensures Front(path) != [] && Front(path)[0] == path[0] && Front(path)[1..] == Front(path[1..])
    ensures Final(path[1..]) == Final(path)
    ensures Written(Front(path)) == "/" + path[0] + Written(Front(path[1..]))
  {
  }

  lemma Regrouped(a: string, b: string, c: string)
    ensures a + (b + c) == a + b + c
  {
  }

  /** Where the text of a path splits, and what its last element is decoded to. */
  lemma PathSplits(path: seq<string>)
    requires path != [] && PlainPath(path)
    ensures LastSlash(Written(path)).Some?
    ensures
      var i := LastSlash(Written(path)).value;
      && Written(path)[..i] == Written(Front(path))
      && DecodePointerInplace(Written(path)[i + 1..]) == Final(path)
  {
    var a, t := Written(Front(path)), Final(path);
    WrittenSplit(path);
    HerePath(t);
    LastSlashConcat(a, "/" + t);
    var p := a + ("/" + t);
    assert p[..|a|] == a && p[|a| + 1..] == t;
  }

  // ---------------------------------------------------------------------------
  // Adding and taking out

  lemma {:induction false} JoinedIs(cs: bool, parent: Json, token: string, x: Json)
    requires WellFormed(cs, parent) && WellFormed(cs, x) && Plain(token) && '\0' !in token
    ensures
      var r := AddIn(cs, parent, token, x);
      match Joined(cs, Some(Norm(cs, parent)), token, Norm(cs, x))
      case Refused(status) => r.status == status && status != 0
      case Gives(w) => Leaves(cs, r, 0, w)
  {
    hide SetMember, NormMembers, NormItems, DecodeArrayIndex, IndexNamed, WellFormed;
    match parent {
      case Object(ms) => SetMemberIs(cs, ms, token, x);
      case Array(items) =>
        IndexRead(token);
        InsertedIs(cs, items, |items|, x);
        assert items[..|items|] + [x] + items[|items|..] == items + [x];
        var xs := NormItems(cs, items);
        assert |xs| == |items|;
        assert xs[..|xs|] + [Norm(cs, x)] + xs[|xs|..] == xs + [Norm(cs, x)];
        var k := IndexNamed(token);
        if k.Some? && k.value <= |items| { InsertedIs(cs, items, k.value, x); }
      case _ =>
    }
  }

  lemma InsertedIs(cs: bool, items: seq<Json>, k: nat, x: Json)
    requires k <= |items| && WellFormed(cs, Array(items)) && WellFormed(cs, x)
    ensures
      var (r, xs) := (items[..k] + [x] + items[k..], NormItems(cs, items));
      WellFormed(cs, Array(r)) && NormItems(cs, r) == xs[..k] + [Norm(cs, x)] + xs[k..]
  {
    hide Norm, NormItems;
    InsertedWell(cs, items, k, x);
    NormConcat(cs, items[..k] + [x], items[k..]);
    NormConcat(cs, items[..k], [x]);
    NormConcat(cs, items[..k], items[k..]);
    assert items[..k] + items[k..] == items;
    var xs := NormItems(cs, items);
    assert xs[..k] == NormItems(cs, items[..k]) && xs[k..] == NormItems(cs, items[k..]);
    assert NormItems(cs, [x]) == [Norm(cs, x)];
  }

  lemma NormConcat(cs: bool, a: seq<Json>, b: seq<Json>)
    ensures NormItems(cs, a + b) == NormItems(cs, a) + NormItems(cs, b)
  {
    hide Norm;
  }

  lemma InsertedWell(cs: bool, items: seq<Json>, k: nat, x: Json)
    requires k <= |items| && WellFormed(cs, Array(items)) && WellFormed(cs, x)
    ensures WellFormed(cs, Array(items[..k] + [x] + items[k..]))
  {
    var r := items[..k] + [x] + items[k..];
    forall i | 0 <= i < |r| ensures WellFormed(cs, r[i]) {
      if i != k { assert r[i] == items[if i < k then i else i - 1]; }
    }
  }

  lemma SetMemberIs(cs: bool, ms: seq<Member>, token: string, x: Json)
    requires WellFormed(cs, Object(ms)) && WellFormed(cs, x)
    ensures
      var r := Object(SetMember(cs, ms, token, x));
      WellFormed(cs, r) && Norm(cs, r) == VObject(NormMembers(cs, ms)[FoldString(cs, token) := Norm(cs, x)])
  {
    hide NormMembers, FoldString, Compare;
    var m := Member(token, x);
    NormMembersFind(cs, ms, token);
    match Find(cs, ms, token) {
      case None => NormAppend(cs, ms, m);
      case Some(k) =>
        SameKey(cs, token, ms[k].key);
        NormRemove(cs, ms, k);
        NormAppend(cs, RemoveAt(ms, k), m);
        MapSetTwice(NormMembers(cs, ms), FoldString(cs, token), Norm(cs, x));
    }
  }

  lemma MapSetTwice(m: map<string, Value>, k: string, x: Value)
    ensures (m - {k})[k := x] == m[k := x]
  {
  }

  lemma AddSplits(cs: bool, doc: Json, path: seq<string>, x: Json)
    requires path != [] && PlainPath(path)
    ensures
      var parent := GetItem(cs, doc, Written(Front(path)));
      AddAt(cs, doc, Written(path), x) ==
        if parent.None? then Applied(9, doc)
        else
          var r := AddIn(cs, parent.value, Final(path), x);
          if r.status != 0 then Applied(r.status, doc) else Applied(0, PutItem(cs, doc, Written(Front(path)), r.doc))
  {
    hide AddIn, GetItem, PutItem, Written, LastSlash, DecodePointerInplace, PlainPath, Front, Final;
    PathSplits(path);
  }

  lemma AddIs(cs: bool, doc: Json, path: seq<string>, x: Json)
    requires WellFormed(cs, doc) && WellFormed(cs, x) && PlainPath(path)
    ensures LeavesSum(cs, AddAt(cs, doc, Written(path), x), Norm(cs, doc), path, Norm(cs, x))
  {
    hide AddIn, AddAt, Joined, Norm, WellFormed, GetItem, PutItem, Look, Changed, Plain, Front, Final, PlainPath,
      Written;
    if path != [] {
      var front, final := Front(path), Final(path);
      AddSplits(cs, doc, path, x);
      PlainRest(path);
      LookIs(cs, doc, front);
      if GetItem(cs, doc, Written(front)).Some? {
        AddThere(cs, doc, front, final, x) by { FinalPlain(path); }
      } else {
        NothingJoins(cs, final, Norm(cs, x));
      }
    } else {
      EmptyAdd(cs, doc, x);
    }
  }

  lemma EmptyAdd(cs: bool, doc: Json, x: Json)
    ensures AddAt(cs, doc, Written([]), x) == Applied(9, doc)
  {
  }

  lemma AddThere(cs: bool, doc: Json, front: seq<string>, final: string, x: Json)
    requires WellFormed(cs, doc) && WellFormed(cs, x) && PlainPath(front) && Plain(final) && '\0' !in final
    requires GetItem(cs, doc, Written(front)).Some?
    ensures
      var r, v := AddIn(cs, GetItem(cs, doc, Written(front)).value, final, x), Norm(cs, doc);
      match Joined(cs, Look(cs, v, front), final, Norm(cs, x))
      case Refused(status) => r.status == status && status != 0
      case Gives(w) =>
        && Look(cs, v, front).Some? && r.status == 0
        && Leaves(cs, Applied(0, PutItem(cs, doc, Written(front), r.doc)), 0, Changed(cs, v, front, w))
  {
    hide AddIn, Joined, Norm, WellFormed, GetItem, PutItem, Look, Changed, Written, Plain;
    var parent := GetItem(cs, doc, Written(front)).value;
    LookIs(cs, doc, front);
    assert Look(cs, Norm(cs, doc), front) == Some(Norm(cs, parent));
    ItemWellFormed(cs, doc, Written(front));
    JoinedIs(cs, parent, final, x);
    var r := AddIn(cs, parent, final, x);
    if r.status == 0 { PutIs(cs, doc, front, r.doc); }
  }

  lemma FinalPlain(path: seq<string>)
    requires path != [] && PlainPath(path)
    ensures Plain(Final(path)) && '\0' !in Final(path)
  {
  }

  lemma NothingJoins(cs: bool, token: string, x: Value)
    ensures Joined(cs, None, token, x) == Refused(9)
  {
  }

  lemma TakenIs(cs: bool, parent: Json, token: string)
    requires WellFormed(cs, parent) && Plain(token) && '\0' !in token
    ensures DetachIn(parent, token).None? <==> Picks(cs, parent, token).None?
    ensures DetachIn(parent, token).Some? ==>
      var (item, rest) := DetachIn(parent, token).value;
      var v, p := Norm(cs, parent), Picks(cs, parent, token).value;
      && HasPart(v, p) && WellFormed(cs, item) && Norm(cs, item) == PartOf(v, p)
      && WellFormed(cs, rest) && Norm(cs, rest) == Without(v, p)
  {
    hide NormMembers, NormItems, DecodeArrayIndex, IndexNamed, FoldString, WellFormed, RemoveAt, Compare, Find, Plain;
    match parent {
      case Object(ms) =>
        var f := Find(false, ms, token);
        if f.Some? { MemberTaken(cs, ms, f.value); }
      case Array(items) =>
        IndexRead(token);
        var k := IndexNamed(token);
        if k.Some? && k.value < |items| { ItemTaken(cs, items, k.value); }
      case _ =>
    }
  }

  lemma MemberTaken(cs: bool, ms: seq<Member>, i: nat)
    requires i < |ms| && WellFormed(cs, Object(ms))
    ensures
      var (m, k) := (NormMembers(cs, ms), FoldString(cs, ms[i].key));
      && k in m && m[k] == Norm(cs, ms[i].value) && WellFormed(cs, ms[i].value)
      && WellFormed(cs, Object(RemoveAt(ms, i))) && NormMembers(cs, RemoveAt(ms, i)) == m - {k}
  {
    hide Norm, NormMembers, FoldString, Distinct;
    NormMembersAt(cs, ms, i);
    NormRemove(cs, ms, i);
  }

  lemma ItemTaken(cs: bool, items: seq<Json>, k: nat)
    requires k < |items| && WellFormed(cs, Array(items))
    ensures
      var xs := NormItems(cs, items);
      && WellFormed(cs, items[k]) && xs[k] == Norm(cs, items[k])
      && WellFormed(cs, Array(RemoveAt(items, k))) && NormItems(cs, RemoveAt(items, k)) == xs[..k] + xs[k + 1..]
  {
    hide Norm;
  }

  lemma DetachIs(cs: bool, doc: Json, path: seq<string>)
    requires WellFormed(cs, doc) && PlainPath(path)
    ensures
      var (item, rest) := DetachPath(cs, doc, Written(path));
      match Takes(cs, doc, path)
      case None => item.None? && rest == doc
      case Some(p) =>
        (TakesPart(cs, doc, path);
         && item.Some? && WellFormed(cs, item.value)
         && Norm(cs, item.value) == PartOf(Look(cs, Norm(cs, doc), Front(path)).value, p)
         && WellFormed(cs, rest) && Norm(cs, rest) == Removed(cs, Norm(cs, doc), path, p))
  {
    hide DetachIn, Picks, Norm, WellFormed, GetItem, PutItem, Look, Changed, Without, PartOf, HasPart;
    if path != [] {
      PathSplits(path);
      PlainRest(path);
      LookIs(cs, doc, Front(path));
      if GetItem(cs, doc, Written(Front(path))).Some? {
        var parent := GetItem(cs, doc, Written(Front(path))).value;
        ItemWellFormed(cs, doc, Written(Front(path)));
        TakenIs(cs, parent, Final(path));
        if DetachIn(parent, Final(path)).Some? {
          PutIs(cs, doc, Front(path), DetachIn(parent, Final(path)).value.1);
        }
      }
    }
  }

  /** The status and value an operation leaves. */
  ghost predicate Leaves(cs: bool, r: Applied, status: int, v: Value) {
    r.status == status && WellFormed(cs, r.doc) && Norm(cs, r.doc) == v
  }

  /** ... when it adds `x` to `v`; a refusal leaves `v`. */
  ghost predicate LeavesSum(cs: bool, r: Applied, v: Value, path: seq<string>, x: Value) {
    match Added(cs, v, path, x)
    case Refused(status) => Leaves(cs, r, status, v)
    case Gives(w) => Leaves(cs, r, 0, w)
  }

  ghost predicate LeavesValue(cs: bool, r: Applied, v: Value, path: seq<string>, value: Option<Json>) {
    if value.None? then Leaves(cs, r, 7, v)
    else if path == [] then Leaves(cs, r, 0, Norm(cs, value.value))
    else LeavesSum(cs, r, v, path, Norm(cs, value.value))
  }

  /** What `r` has to be for the request to have been carried out on the document. */
  ghost predicate CarriedOut(cs: bool, doc: Json, q: Request, r: Applied)
    requires WellFormed(cs, doc) && Proper(cs, q)
  {
    var v := Norm(cs, doc);
    match q
    case ToAdd(path, value) => LeavesValue(cs, r, v, path, value)
    case ToRemove(path) =>
      if path == [] then r == Applied(0, Invalid)
      else
        (match Takes(cs, doc, path)
         case None => Leaves(cs, r, 13, v)
         case Some(p) => (TakesPart(cs, doc, path); Leaves(cs, r, 0, Removed(cs, v, path, p))))
    case ToReplace(path, value) =>
      if path == [] then LeavesValue(cs, r, v, path, value)
      else
        (match Takes(cs, doc, path)
         case None => Leaves(cs, r, 13, v)
         case Some(p) => (TakesPart(cs, doc, path); LeavesValue(cs, r, Removed(cs, v, path, p), path, value)))
    case ToMove(from, path) =>
      (match Takes(cs, doc, from)
       case None => Leaves(cs, r, 5, v)
       case Some(p) =>
         (TakesPart(cs, doc, from);
          LeavesSum(cs, r, Removed(cs, v, from, p), path, PartOf(Look(cs, v, Front(from)).value, p))))
    case ToCopy(from, path) =>
      (match Look(cs, v, from)
       case None => Leaves(cs, r, 5, v)
       case Some(x) => LeavesSum(cs, r, v, path, x))
    case ToTest(path, value) =>
      Leaves(cs, r, if value.Some? && Look(cs, v, path) == Some(Norm(cs, value.value)) then 0 else 1, v)
  }

  // ---------------------------------------------------------------------------
  // Carrying out a request

  lemma ValueIs(cs: bool, doc: Json, path: seq<string>, value: Option<Json>)
    requires WellFormed(cs, doc) && PlainPath(path) && (value.Some? ==> WellFormed(cs, value.value))
    ensures LeavesValue(cs, AddValue(cs, doc, Written(path), value), Norm(cs, doc), path, value)
  {
    hide AddAt, Norm, WellFormed;
    WrittenEnds(path);
    if value.Some? {
      AddIs(cs, doc, path, value.value);
    }
  }

  /** `apply_patch` carries out what the patch asks for: the status, and the value of the document
      afterwards. */
  lemma PatchMeans(cs: bool, doc: Json, patch: Json, q: Request)
    requires WellFormed(cs, doc) && Asks(cs, patch, q) && Proper(cs, q)
    ensures CarriedOut(cs, doc, q, ApplyPatch(cs, doc, patch))
  {
    hide AddAt, AddValue, DetachPath, TestAt, Norm, WellFormed, GetItem, LeavesSum, LeavesValue, Takes, Removed, Look,
      PlainPath, GetObjectItem, PartOf;
    WrittenEnds(q.path);
    match q {
      case ToAdd(path, value) => ValueIs(cs, doc, path, value);
      case ToRemove(path) => RemoveMeans(cs, doc, path);
      case ToReplace(path, value) => ReplaceMeans(cs, doc, path, value);
      case ToMove(from, path) => MoveMeans(cs, doc, from, path);
      case ToCopy(from, path) => CopyMeans(cs, doc, from, path);
      case ToTest(path, value) => TestMeans(cs, doc, path, value);
    }
  }

  lemma RemoveMeans(cs: bool, doc: Json, path: seq<string>)
    requires WellFormed(cs, doc) && PlainPath(path)
    ensures CarriedOut(cs, doc, ToRemove(path), Perform(cs, doc, REMOVE, Written(path), None, None))
  {
    hide DetachPath, Norm, WellFormed, GetItem, Takes, Removed, Look, PlainPath, PartOf;
    WrittenEnds(path);
    DetachIs(cs, doc, path);
  }

  lemma ReplaceMeans(cs: bool, doc: Json, path: seq<string>, value: Option<Json>)
    requires WellFormed(cs, doc) && PlainPath(path) && (value.Some? ==> WellFormed(cs, value.value))
    ensures CarriedOut(cs, doc, ToReplace(path, value), Perform(cs, doc, REPLACE, Written(path), value, None))
  {
    hide DetachPath, Norm, WellFormed, GetItem, Takes, Removed, Look, PlainPath, PartOf, AddValue, LeavesValue;
    WrittenEnds(path);
    DetachIs(cs, doc, path);
    ValueIs(cs, doc, path, value);
    if Takes(cs, doc, path).Some? { ValueIs(cs, DetachPath(cs, doc, Written(path)).1, path, value); }
  }

  lemma MoveMeans(cs: bool, doc: Json, from: seq<string>, path: seq<string>)
    requires WellFormed(cs, doc) && PlainPath(from) && PlainPath(path)
    ensures CarriedOut(cs, doc, ToMove(from, path),
      Perform(cs, doc, MOVE, Written(path), None, Some(String(Written(from)))))
  {
    hide DetachPath, Norm, WellFormed, GetItem, Takes, Removed, Look, PlainPath, PartOf, AddAt, LeavesSum;
    DetachIs(cs, doc, from);
    var (item, rest) := DetachPath(cs, doc, Written(from));
    if item.Some? { AddIs(cs, rest, path, item.value); }
  }

  lemma CopyMeans(cs: bool, doc: Json, from: seq<string>, path: seq<string>)
    requires WellFormed(cs, doc) && PlainPath(from) && PlainPath(path)
    ensures CarriedOut(cs, doc, ToCopy(from, path),
      Perform(cs, doc, COPY, Written(path), None, Some(String(Written(from)))))
  {
    hide Norm, WellFormed, GetItem, Look, PlainPath, AddAt, LeavesSum;
    LookIs(cs, doc, from);
    var item := GetItem(cs, doc, Written(from));
    if item.Some? {
      ItemWellFormed(cs, doc, Written(from));
      AddIs(cs, doc, path, item.value);
    }
  }

  lemma TestMeans(cs: bool, doc: Json, path: seq<string>, value: Option<Json>)
    requires WellFormed(cs, doc) && PlainPath(path) && (value.Some? ==> WellFormed(cs, value.value))
    ensures CarriedOut(cs, doc, ToTest(path, value), TestAt(cs, doc, Written(path), value))
  {
    hide Norm, WellFormed, GetItem, Look, PlainPath, TestAt;
    LookIs(cs, doc, path);
    TestKeepsValue(cs, doc, Written(path), value);
    TestStatus(cs, doc, Written(path), value);
  }

  lemma TestStatus(cs: bool, doc: Json, path: string, value: Option<Json>)
    ensures TestAt(cs, doc, path, value).status in {0, 1}
  {
  }
}
