/** JSON Patch (RFC 6902): `create_patches` writes the list, `apply_patch` carries it out. */
module JsonPatch {
  import opened Options
  import opened Strings
  import opened Sort
  import opened Json
  import opened JsonEquality
  import opened JsonPointer

  // ---------------------------------------------------------------------------
  // Applying a patch

  /** The status an operation returns and the document it leaves behind. */
  datatype Applied = Applied(status: int, doc: Json)

  datatype Operation = INVALID | ADD | REMOVE | REPLACE | MOVE | COPY | TEST

  function DecodePatchOperation(cs: bool, patch: Json): Operation {
    match GetObjectItem(cs, patch, "op")
    case Some(String(s)) =>
      if s == "add" then ADD
      else if s == "remove" then REMOVE
      else if s == "replace" then REPLACE
      else if s == "move" then MOVE
      else if s == "copy" then COPY
      else if s == "test" then TEST
      else INVALID
    case _ => INVALID
  }

  /** `strrchr(path, '/')`. */
  function LastSlash(path: string): (r: Option<nat>)
    ensures r.Some? ==> r.value < |path| && path[r.value] == '/'
  {
    if path == [] then None
    else if path[|path| - 1] == '/' then Some(|path| - 1)
    else LastSlash(path[..|path| - 1])
  }

  /** Taking a child out of its parent.  The member of an object is looked up ignoring
      case whatever mode the patch is applied in. */
  function DetachIn(parent: Json, child: string): (r: Option<(Json, Json)>) {
    match parent
    case Array(items) =>
      (match DecodeArrayIndex(child)
       case None => None
       case Some(k) => if k < |items| then Some((items[k], Array(RemoveAt(items, k)))) else None)
    case Object(ms) =>
      (match Find(false, ms, child)
       case None => None
       case Some(k) => Some((ms[k].value, Object(RemoveAt(ms, k)))))
    case _ => None
  }

  /** `detach_path`: the item taken out, if any, and what is left. */
  function DetachPath(cs: bool, doc: Json, path: string): (Option<Json>, Json) {
    match LastSlash(path)
    case None => (None, doc)
    case Some(i) =>
      match GetItem(cs, doc, path[..i])
      case None => (None, doc)
      case Some(parent) =>
        match DetachIn(parent, DecodePointerInplace(path[i + 1..]))
        case None => (None, doc)
        case Some((item, parent')) => (Some(item), PutItem(cs, doc, path[..i], parent'))
  }

  /** Deleting a member and adding it again at the end of the list. */
  function SetMember(cs: bool, ms: seq<Member>, key: string, v: Json): seq<Member> {
    match Find(cs, ms, key)
    case None => ms + [Member(key, v)]
    case Some(k) => RemoveAt(ms, k) + [Member(key, v)]
  }

  /** Adding a child to its parent. */
  function AddIn(cs: bool, parent: Json, child: string, v: Json): Applied {
    match parent
    case Array(items) =>
      if child == "-" then Applied(0, Array(items + [v]))
      else
        (match DecodeArrayIndex(child)
         case None => Applied(11, parent)
         case Some(k) =>
           if k > |items| then Applied(10, parent)
           else Applied(0, Array(items[..k] + [v] + items[k..])))
    case Object(ms) => Applied(0, Object(SetMember(cs, ms, child, v)))
    case _ => Applied(9, parent)
  }

  /** The last part of `apply_patch`: add `v` at `path`. */
  function AddAt(cs: bool, doc: Json, path: string, v: Json): Applied {
    match LastSlash(path)
    case None => Applied(9, doc)
    case Some(i) =>
      match GetItem(cs, doc, path[..i])
      case None => Applied(9, doc)
      case Some(parent) =>
        var r := AddIn(cs, parent, DecodePointerInplace(path[i + 1..]), v);
        if r.status != 0 then Applied(r.status, doc) else Applied(0, PutItem(cs, doc, path[..i], r.doc))
  }

  function StringOf(j: Option<Json>): Option<string> {
    match j
    case Some(String(s)) => Some(s)
    case _ => None
  }

  /** `apply_patch` behind the decoding of its arguments. */
  function Perform(cs: bool, doc: Json, opcode: Operation, path: string, value: Option<Json>,
                   from: Option<Json>): Applied {
    match opcode
    case INVALID => Applied(3, doc)
    case TEST => TestAt(cs, doc, path, value)
    case REMOVE =>
      if path == [] then Applied(0, Invalid)
      else
        var (old_item, rest) := DetachPath(cs, doc, path);
        Applied(if old_item.None? then 13 else 0, rest)
    case REPLACE =>
      if path == [] then AddValue(cs, doc, path, value)
      else
        var (old_item, rest) := DetachPath(cs, doc, path);
        if old_item.None? then Applied(13, rest) else AddValue(cs, rest, path, value)
    case ADD => AddValue(cs, doc, path, value)
    case _ =>
      if from.None? then Applied(4, doc)
      else match StringOf(from)
        case None => Applied(5, doc)
        case Some(source) =>
          var (item, rest) := if opcode == MOVE then DetachPath(cs, doc, source) else (GetItem(cs, doc, source), doc);
          if item.None? then Applied(5, rest) else AddAt(cs, rest, path, item.value)
  }

  /** "test"; `compare_json` sorts the item in place. */
  function TestAt(cs: bool, doc: Json, path: string, value: Option<Json>): Applied {
    match GetItem(cs, doc, path)
    case None => Applied(1, doc)
    case Some(item) =>
      if value.None? then Applied(1, doc)
      else
        Applied(if CompareJson(cs, item, value.value) then 0 else 1,
          PutItem(cs, doc, path, Left(cs, item, value.value)))
  }

  /** Adding or replacing with the member "value"; the empty path is the whole document. */
  function AddValue(cs: bool, doc: Json, path: string, value: Option<Json>): Applied {
    if value.None? then Applied(7, doc)
    else if path == [] then Applied(0, value.value)
    else AddAt(cs, doc, path, value.value)
  }

  /** `apply_patch`. */
  function ApplyPatch(cs: bool, doc: Json, patch: Json): Applied {
    match StringOf(GetObjectItem(cs, patch, "path"))
    case None => Applied(2, doc)
    case Some(path) =>
      Perform(cs, doc, DecodePatchOperation(cs, patch), path,
              GetObjectItem(cs, patch, "value"), GetObjectItem(cs, patch, "from"))
  }

  /** The loop of `cJSONUtils_ApplyPatches`. */
  function ApplyPatches(cs: bool, doc: Json, patches: seq<Json>): Applied
    decreases |patches|
  {
    if patches == [] then Applied(0, doc)
    else
      var r := ApplyPatch(cs, doc, patches[0]);
      if r.status != 0 then r else ApplyPatches(cs, r.doc, patches[1..])
  }

  lemma SameChild(cs: bool, j: Json, i: nat, c: Json)
    requires (j.Array? && i < |j.items|) || (j.Object? && i < |j.members|)
    requires WellFormed(cs, j) && WellFormed(cs, c) && Norm(cs, c) == Norm(cs, Child(j, i))
    ensures WellFormed(cs, SetChild(j, i, c)) && Norm(cs, SetChild(j, i, c)) == Norm(cs, j)
  {
    match j {
      case Array(xs) =>
        assert NormItems(cs, xs[i := c]) == NormItems(cs, xs);
      case Object(ms) =>
        SameNorms(cs, ms, ms[i := ms[i].(value := c)]);
    }
  }

  /** Putting an equal item in its place leaves the value. */
  lemma {:induction false} PutKeeps(cs: bool, j: Json, pointer: string, v: Json)
    requires WellFormed(cs, j) && GetItem(cs, j, pointer).Some?
    requires WellFormed(cs, v) && Norm(cs, v) == Norm(cs, GetItem(cs, j, pointer).value)
    ensures WellFormed(cs, PutItem(cs, j, pointer, v)) && Norm(cs, PutItem(cs, j, pointer, v)) == Norm(cs, j)
    decreases |pointer|
  {
    if JsonPointer.At(pointer, 0) == '/' {
      var i, rest := Step(cs, j, pointer[1..]).value, SkipToken(pointer[1..]);
      PutKeeps(cs, Child(j, i), rest, v);
      SameChild(cs, j, i, PutItem(cs, Child(j, i), rest, v));
    }
  }

  lemma {:induction false} ItemWellFormed(cs: bool, j: Json, pointer: string)
    requires WellFormed(cs, j) && GetItem(cs, j, pointer).Some?
    ensures WellFormed(cs, GetItem(cs, j, pointer).value)
    decreases |pointer|
  {
    if JsonPointer.At(pointer, 0) == '/' {
      ItemWellFormed(cs, Child(j, Step(cs, j, pointer[1..]).value), SkipToken(pointer[1..]));
    }
  }

  /** A test sorts, but leaves the value of the document; it passes exactly when the item is
      there and equal to the value. */
  lemma TestKeepsValue(cs: bool, doc: Json, path: string, value: Option<Json>)
    requires WellFormed(cs, doc) && (value.Some? ==> WellFormed(cs, value.value))
    ensures
      var r, item := TestAt(cs, doc, path, value), GetItem(cs, doc, path);
      && WellFormed(cs, r.doc) && Norm(cs, r.doc) == Norm(cs, doc)
      && (r.status == 0 <==> item.Some? && value.Some? && Norm(cs, item.value) == Norm(cs, value.value))
  {
    hide Left, CompareJson, Norm, WellFormed;
    var item := GetItem(cs, doc, path);
    if item.Some? && value.Some? {
      ItemWellFormed(cs, doc, path);
      LeftKeeps(cs, cs, item.value, value.value);
      CompareJsonDecides(cs, item.value, value.value);
      PutKeeps(cs, doc, path, Left(cs, item.value, value.value));
    }
  }

  // ---------------------------------------------------------------------------
  // Writing the patch list

  /** What `create_patches` asks `compose_patch` to write. */
  datatype Op = Op(operation: string, path: string, value: Option<Json>)

  /** `compose_patch`: the JSON object of one operation. */
  function ComposePatch(op: Op): Json {
    Object([Member("op", String(op.operation)), Member("path", String(op.path))]
           + if op.value.Some? then [Member("value", op.value.value)] else [])
  }

  /** What a reader finds in it, in either mode. */
  lemma FindCompose(cs: bool, op: Op)
    ensures GetObjectItem(cs, ComposePatch(op), "op") == Some(String(op.operation))
    ensures GetObjectItem(cs, ComposePatch(op), "path") == Some(String(op.path))
    ensures GetObjectItem(cs, ComposePatch(op), "value") == op.value
    ensures GetObjectItem(cs, ComposePatch(op), "from") == None
  {
    var m0, m1 := Member("op", String(op.operation)), Member("path", String(op.path));
    var ms := ComposePatch(op).members;
    assert ms[0] == m0 && ms[1] == m1;
    assert op.value.Some? ==> ms[2] == Member("value", op.value.value);
    assert ms[1..][0] == m1;
    assert op.value.Some? ==> ms[1..][1..] == [ms[2]];
    assert op.value.None? ==> ms[1..][1..] == [];
    assert Compare(cs, "op", "op") == 0 && Compare(cs, "path", "path") == 0 && Compare(cs, "value", "value") == 0
    by {
      CompareZero(cs, "op", "op");
      CompareZero(cs, "path", "path");
      CompareZero(cs, "value", "value");
    }
    assert Compare(cs, "path", "op") != 0 && Compare(cs, "value", "op") != 0 && Compare(cs, "value", "path") != 0;
    assert Compare(cs, "from", "op") != 0 && Compare(cs, "from", "path") != 0 && Compare(cs, "from", "value") != 0;
  }

  /** The path `compose_patch` writes: with a suffix, the member it names below `path`. */
  function FullPath(path: string, suffix: Option<string>, stale: char): string {
    match suffix
    case None => path
    case Some(s) => path + "/" + EncodeStringAsPointer(s, stale)
  }

  function ComposeAll(ops: seq<Op>): (r: seq<Json>)
    ensures |r| == |ops|
  {
    if ops == [] then [] else [ComposePatch(ops[0])] + ComposeAll(ops[1..])
  }

  /** `create_patches`; `stale` is the byte the allocator left in fresh path buffers. */
  function Diff(cs: bool, path: string, from: Json, to: Json, stale: char): seq<Op>
    decreases from, 1, 0
  {
    if Tag(from) != Tag(to) then [Op("replace", path, Some(to))]
    else match from
      case Number(n) => if n != to.n then [Op("replace", path, Some(to))] else []
      case String(s) => if s != to.s then [Op("replace", path, Some(to))] else []
      case Array(xs) => DiffItems(cs, path, xs, to.items, 0, stale, from)
      case Object(ms) =>
        SortedBelow(cs, from);
        DiffMembers(cs, path, SortMembers(cs, ms), SortMembers(cs, to.members), stale, from)
      case _ => []
  }

  function DiffItems(cs: bool, path: string, xs: seq<Json>, ys: seq<Json>, index: nat, stale: char,
                     ghost parent: Json): seq<Op>
    requires forall i :: 0 <= i < |xs| ==> xs[i] < parent
    decreases parent, 0, |xs| + |ys|
  {
    if xs != [] && ys != [] then
      Diff(cs, path + "/" + Decimal(index), xs[0], ys[0], stale)
      + DiffItems(cs, path, xs[1..], ys[1..], index + 1, stale, parent)
    else if xs != [] then
      [Op("remove", path + "/" + EncodeStringAsPointer(Decimal(index), stale), None)]
      + DiffItems(cs, path, xs[1..], ys, index, stale, parent)
    else if ys != [] then
      [Op("add", path + "/" + EncodeStringAsPointer("-", stale), Some(ys[0]))]
      + DiffItems(cs, path, xs, ys[1..], index + 1, stale, parent)
    else []
  }

  function KeyOrder(cs: bool, xs: seq<Member>, ys: seq<Member>): int {
    if xs == [] then 1
    else if ys == [] then -1
    else Compare(cs, xs[0].key, ys[0].key)
  }

  function DiffMembers(cs: bool, path: string, xs: seq<Member>, ys: seq<Member>, stale: char,
                       ghost parent: Json): seq<Op>
    requires Below(xs, parent)
    decreases parent, 0, |xs| + |ys|
  {
    if xs == [] && ys == [] then []
    else
      var diff := KeyOrder(cs, xs, ys);
      if diff == 0 then
        Diff(cs, path + "/" + EncodeStringAsPointer(xs[0].key, stale), xs[0].value, ys[0].value, stale)
        + DiffMembers(cs, path, xs[1..], ys[1..], stale, parent)
      else if diff < 0 then
        [Op("remove", path + "/" + EncodeStringAsPointer(xs[0].key, stale), None)]
        + DiffMembers(cs, path, xs[1..], ys, stale, parent)
      else
        [Op("add", path + "/" + EncodeStringAsPointer(ys[0].key, stale), Some(ys[0].value))]
        + DiffMembers(cs, path, xs, ys[1..], stale, parent)
  }

  lemma {:induction false} ComposeConcat(a: seq<Op>, b: seq<Op>)
    ensures ComposeAll(a + b) == ComposeAll(a) + ComposeAll(b)
  {
    if a == [] {
      assert a + b == b;
    } else {
      assert (a + b)[0] == a[0] && (a + b)[1..] == a[1..] + b;
      ComposeConcat(a[1..], b);
    }
  }

  lemma Advance(base: seq<Json>, a: seq<Op>, b: seq<Op>)
    ensures base + ComposeAll(a + b) == (base + ComposeAll(a)) + ComposeAll(b)
  {
    ComposeConcat(a, b);
  }

  lemma OneSided(cs: bool, path: string, xs: seq<Json>, ys: seq<Json>, index: nat, stale: char, parent: Json)
    requires xs == [] || ys == []
    requires forall i :: 0 <= i < |xs| ==> xs[i] < parent
    ensures ComposeAll(DiffItems(cs, path, xs, ys, index, stale, parent))
         == ComposeAll(DiffItems(cs, path, xs, [], index, stale, parent))
          + ComposeAll(DiffItems(cs, path, [], ys, index, stale, parent))
  {
  }

  lemma OneComposed(op: Op)
    ensures ComposeAll([op]) == [ComposePatch(op)]
  {
    assert |[op][1..]| == 0;
  }

  lemma Nested(base: seq<Json>, a: seq<Json>, b: seq<Json>)
    ensures (base + a) + b == base + (a + b)
  {
  }

  // What the list starts with, loop by loop

  lemma BothItems(cs: bool, path: string, xs: seq<Json>, ys: seq<Json>, index: nat, stale: char, parent: Json)
    requires xs != [] && ys != [] && forall i :: 0 <= i < |xs| ==> xs[i] < parent
    ensures DiffItems(cs, path, xs, ys, index, stale, parent)
         == Diff(cs, path + "/" + Decimal(index), xs[0], ys[0], stale)
           + DiffItems(cs, path, xs[1..], ys[1..], index + 1, stale, parent)
  {
  }

  lemma ItemLeft(cs: bool, path: string, xs: seq<Json>, index: nat, stale: char, parent: Json)
    requires xs != [] && forall i :: 0 <= i < |xs| ==> xs[i] < parent
    ensures DiffItems(cs, path, xs, [], index, stale, parent)
         == [Op("remove", FullPath(path, Some(Decimal(index)), stale), None)]
           + DiffItems(cs, path, xs[1..], [], index, stale, parent)
  {
  }

  lemma ItemNew(cs: bool, path: string, ys: seq<Json>, index: nat, stale: char, parent: Json)
    requires ys != []
    ensures DiffItems(cs, path, [], ys, index, stale, parent)
         == [Op("add", FullPath(path, Some("-"), stale), Some(ys[0]))]
           + DiffItems(cs, path, [], ys[1..], index + 1, stale, parent)
  {
  }

  lemma NoItems(cs: bool, path: string, index: nat, stale: char, parent: Json, base: seq<Json>)
    ensures base + ComposeAll(DiffItems(cs, path, [], [], index, stale, parent)) == base
  {
  }

  lemma MembersUnfold(cs: bool, path: string, xs: seq<Member>, ys: seq<Member>, stale: char, parent: Json)
    requires Below(xs, parent) && (xs != [] || ys != [])
    ensures
      var diff := KeyOrder(cs, xs, ys);
      DiffMembers(cs, path, xs, ys, stale, parent) ==
        (if diff == 0 then Diff(cs, path + "/" + EncodeStringAsPointer(xs[0].key, stale), xs[0].value, ys[0].value,
          stale)
         else if diff < 0 then [Op("remove", FullPath(path, Some(xs[0].key), stale), None)]
         else [Op("add", FullPath(path, Some(ys[0].key), stale), Some(ys[0].value))])
        + DiffMembers(cs, path, if diff <= 0 then xs[1..] else xs, if diff >= 0 then ys[1..] else ys, stale, parent)
  {
  }

  lemma NoMembers(cs: bool, path: string, stale: char, parent: Json, base: seq<Json>)
    ensures base + ComposeAll(DiffMembers(cs, path, [], [], stale, parent)) == base
  {
  }

  /** The array `create_patches` appends to, with the loops of the C code. */
  class PatchArray {
    var patches: seq<Json>

    constructor ()
      ensures patches == []
    {
      patches := [];
    }

    /** `compose_patch`: one more patch, in which a reader finds the operation, the whole path and
        the value. */
    method Compose(operation: string, path: string, suffix: Option<string>, value: Option<Json>, stale: char)
      modifies this
      ensures patches == old(patches) + ComposeAll([Op(operation, FullPath(path, suffix, stale), value)])
      ensures |patches| == |old(patches)| + 1 && patches[..|old(patches)|] == old(patches)
      ensures forall cs ::
        var p := patches[|old(patches)|];
        && StringOf(GetObjectItem(cs, p, "op")) == Some(operation)
        && StringOf(GetObjectItem(cs, p, "path")) == Some(FullPath(path, suffix, stale))
        && GetObjectItem(cs, p, "value") == value && GetObjectItem(cs, p, "from") == None
    {
      var full := path;
      if suffix.Some? {
        full := path + "/" + EncodeStringAsPointer(suffix.value, stale);
      }
      var op := Op(operation, full, value);
      FindCompose(true, op);
      FindCompose(false, op);
      OneComposed(op);
      patches := patches + [ComposePatch(op)];
    }

    method Create(cs: bool, path: string, from: Json, to: Json, stale: char)
      modifies this
      ensures patches == old(patches) + ComposeAll(Diff(cs, path, from, to, stale))
      decreases from, 1
    {
      if Tag(from) != Tag(to) {
        Compose("replace", path, None, Some(to), stale);
        return;
      }
      match from {
        case Number(n) =>
          if n != to.n {
            Compose("replace", path, None, Some(to), stale);
          }
        case String(s) =>
          if s != to.s {
            Compose("replace", path, None, Some(to), stale);
          }
        case Array(_) => CreateItems(cs, path, from, to, stale);
        case Object(_) => CreateMembers(cs, path, from, to, stale);
        case _ =>
      }
    }

    method CreateItems(cs: bool, path: string, from: Json, to: Json, stale: char)
      requires from.Array? && to.Array?
      modifies this
      ensures patches == old(patches) + ComposeAll(DiffItems(cs, path, from.items, to.items, 0, stale, from))
      decreases from, 0
    {
      hide Diff, DiffItems, ComposeAll, FullPath, GetObjectItem;
      var xs, ys, index := from.items, to.items, 0;
      ghost var all := old(patches) + ComposeAll(DiffItems(cs, path, xs, ys, 0, stale, from));
      while xs != [] && ys != []
        invariant forall i :: 0 <= i < |xs| ==> xs[i] < from
        invariant all == patches + ComposeAll(DiffItems(cs, path, xs, ys, index, stale, from))
        decreases |xs|
      {
        var new_path := path + "/" + Decimal(index);
        BothItems(cs, path, xs, ys, index, stale, from);
        Advance(patches, Diff(cs, new_path, xs[0], ys[0], stale),
          DiffItems(cs, path, xs[1..], ys[1..], index + 1, stale, from));
        Create(cs, new_path, xs[0], ys[0], stale);
        xs, ys, index := xs[1..], ys[1..], index + 1;
      }
      OneSided(cs, path, xs, ys, index, stale, from);
      CreateRemoves(cs, path, xs, index, stale, from);
      CreateAdds(cs, path, ys, index, stale, from);
      Nested(old(patches), ComposeAll(DiffItems(cs, path, xs, [], index, stale, from)),
        ComposeAll(DiffItems(cs, path, [], ys, index, stale, from)));
    }

    /** Leftover elements of `from`: all removed at the same index. */
    method CreateRemoves(cs: bool, path: string, from: seq<Json>, index: nat, stale: char, ghost parent: Json)
      requires forall i :: 0 <= i < |from| ==> from[i] < parent
      modifies this
      ensures patches == old(patches) + ComposeAll(DiffItems(cs, path, from, [], index, stale, parent))
    {
      hide Diff, DiffItems, ComposeAll, FullPath, GetObjectItem;
      var xs := from;
      NoItems(cs, path, index, stale, parent, old(patches));
      ghost var all := old(patches) + ComposeAll(DiffItems(cs, path, xs, [], index, stale, parent));
      while xs != []
        invariant forall i :: 0 <= i < |xs| ==> xs[i] < parent
        invariant all == patches + ComposeAll(DiffItems(cs, path, xs, [], index, stale, parent))
        decreases |xs|
      {
        ItemLeft(cs, path, xs, index, stale, parent);
        Advance(patches, [Op("remove", FullPath(path, Some(Decimal(index)), stale), None)],
          DiffItems(cs, path, xs[1..], [], index, stale, parent));
        Compose("remove", path, Some(Decimal(index)), None, stale);
        xs := xs[1..];
      }
      NoItems(cs, path, index, stale, parent, patches);
    }

    /** Leftover elements of `to`: appended with `-`. */
    method CreateAdds(cs: bool, path: string, to: seq<Json>, start: nat, stale: char, ghost parent: Json)
      modifies this
      ensures patches == old(patches) + ComposeAll(DiffItems(cs, path, [], to, start, stale, parent))
    {
      hide Diff, DiffItems, ComposeAll, FullPath, GetObjectItem;
      var ys, index := to, start;
      ghost var all := old(patches) + ComposeAll(DiffItems(cs, path, [], ys, index, stale, parent));
      while ys != []
        invariant all == patches + ComposeAll(DiffItems(cs, path, [], ys, index, stale, parent))
        decreases |ys|
      {
        ItemNew(cs, path, ys, index, stale, parent);
        Advance(patches, [Op("add", FullPath(path, Some("-"), stale), Some(ys[0]))],
          DiffItems(cs, path, [], ys[1..], index + 1, stale, parent));
        Compose("add", path, Some("-"), Some(ys[0]), stale);
        ys, index := ys[1..], index + 1;
      }
      NoItems(cs, path, index, stale, parent, patches);
    }

    method CreateMembers(cs: bool, path: string, from: Json, to: Json, stale: char)
      requires from.Object? && to.Object?
      modifies this
      ensures Below(SortMembers(cs, from.members), from)
      ensures patches == old(patches) + ComposeAll(
        DiffMembers(cs, path, SortMembers(cs, from.members), SortMembers(cs, to.members), stale, from))
      decreases from, 0
    {
      hide Diff, DiffMembers, ComposeAll, GetObjectItem;
      SortedBelow(cs, from);
      var xs, ys := SortMembers(cs, from.members), SortMembers(cs, to.members);
      ghost var all := old(patches) + ComposeAll(DiffMembers(cs, path, xs, ys, stale, from));
      while xs != [] || ys != []
        invariant Below(xs, from)
        invariant all == patches + ComposeAll(DiffMembers(cs, path, xs, ys, stale, from))
        decreases |xs| + |ys|
      {
        var diff := KeyOrder(cs, xs, ys);
        MembersUnfold(cs, path, xs, ys, stale, from);
        if diff == 0 {
          var new_path := path + "/" + EncodeStringAsPointer(xs[0].key, stale);
          Advance(patches, Diff(cs, new_path, xs[0].value, ys[0].value, stale),
            DiffMembers(cs, path, xs[1..], ys[1..], stale, from));
          Create(cs, new_path, xs[0].value, ys[0].value, stale);
          xs, ys := xs[1..], ys[1..];
        } else if diff < 0 {
          Advance(patches, [Op("remove", FullPath(path, Some(xs[0].key), stale), None)],
            DiffMembers(cs, path, xs[1..], ys, stale, from));
          Compose("remove", path, Some(xs[0].key), None, stale);
          xs := xs[1..];
        } else {
          Advance(patches, [Op("add", FullPath(path, Some(ys[0].key), stale), Some(ys[0].value))],
            DiffMembers(cs, path, xs, ys[1..], stale, from));
          Compose("add", path, Some(ys[0].key), Some(ys[0].value), stale);
          ys := ys[1..];
        }
      }
      NoMembers(cs, path, stale, from, patches);
    }
  }
}
