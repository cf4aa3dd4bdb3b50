/** How an operation of a JSON Patch acts along its path: below a child it changes that child,
    and at a child it takes out or adds one. */
module JsonPatchPaths {
  import opened Options
  import opened Strings
  import opened Sort
  import opened Json
  import opened JsonEquality
  import opened JsonPointer
  import opened JsonPatch

  // ---------------------------------------------------------------------------
  // Operations instead of their JSON form

  function Opcode(operation: string): Operation {
    if operation == "add" then ADD
    else if operation == "remove" then REMOVE
    else if operation == "replace" then REPLACE
    else INVALID
  }

  function ApplyOp(cs: bool, doc: Json, op: Op): Applied {
    Perform(cs, doc, Opcode(op.operation), op.path, op.value, None)
  }

  function ApplyOps(cs: bool, doc: Json, ops: seq<Op>): Applied
    decreases |ops|
  {
    if ops == [] then Applied(0, doc)
    else
      var r := ApplyOp(cs, doc, ops[0]);
      if r.status != 0 then r else ApplyOps(cs, r.doc, ops[1..])
  }

  lemma ApplyComposed(cs: bool, doc: Json, op: Op)
    requires op.operation in ["add", "remove", "replace"]
    ensures ApplyPatch(cs, doc, ComposePatch(op)) == ApplyOp(cs, doc, op)
  {
    FindCompose(cs, op);
  }

  ghost predicate Known(ops: seq<Op>) {
    forall i :: 0 <= i < |ops| ==> ops[i].operation in ["add", "remove", "replace"]
  }

  lemma {:induction false} ApplyAllComposed(cs: bool, doc: Json, ops: seq<Op>)
    requires Known(ops)
    ensures ApplyPatches(cs, doc, ComposeAll(ops)) == ApplyOps(cs, doc, ops)
    decreases |ops|
  {
    if ops != [] {
      ApplyComposed(cs, doc, ops[0]);
      var r := ApplyOp(cs, doc, ops[0]);
      assert ComposeAll(ops)[1..] == ComposeAll(ops[1..]);
      ApplyAllComposed(cs, r.doc, ops[1..]);
    }
  }

  lemma ApplyOne(cs: bool, doc: Json, op: Op)
    ensures ApplyOps(cs, doc, [op]) == ApplyOp(cs, doc, op)
  {
    var r := ApplyOp(cs, doc, op);
    assert [op][1..] == [];
    assert ApplyOps(cs, r.doc, []) == Applied(0, r.doc);
  }

  lemma {:induction false} ApplyConcat(cs: bool, doc: Json, a: seq<Op>, b: seq<Op>)
    ensures
      var r := ApplyOps(cs, doc, a);
      ApplyOps(cs, doc, a + b) == if r.status == 0 then ApplyOps(cs, r.doc, b) else r
    decreases |a|
  {
    if a == [] {
      assert a + b == b;
    } else {
      assert (a + b)[0] == a[0] && (a + b)[1..] == a[1..] + b;
      ApplyConcat(cs, ApplyOp(cs, doc, a[0]).doc, a[1..], b);
    }
  }

  // ---------------------------------------------------------------------------
  // Paths below a prefix

  function Under(prefix: string, ops: seq<Op>): (r: seq<Op>)
    ensures |r| == |ops|
    ensures forall i :: 0 <= i < |ops| ==> r[i] == ops[i].(path := prefix + ops[i].path)
  {
    seq(|ops|, i requires 0 <= i < |ops| => ops[i].(path := prefix + ops[i].path))
  }

  lemma UnderConcat(prefix: string, a: seq<Op>, b: seq<Op>)
    ensures Under(prefix, a + b) == Under(prefix, a) + Under(prefix, b)
  {
  }

  lemma Cons3(p: string, q: string, r: string)
    ensures (p + q) + "/" + r == p + (q + "/" + r)
  {
  }

  /** The patches of a subtree are those made at the root, moved under its path. */
  lemma {:induction false} DiffUnder(cs: bool, p: string, q: string, from: Json, to: Json, stale: char)
    ensures Diff(cs, p + q, from, to, stale) == Under(p, Diff(cs, q, from, to, stale))
    decreases from, 1, 0
  {
    if Tag(from) == Tag(to) {
      match from {
        case Array(xs) => DiffItemsUnder(cs, p, q, xs, to.items, 0, stale, from);
        case Object(ms) =>
          SortedBelow(cs, from);
          DiffMembersUnder(cs, p, q, SortMembers(cs, ms), SortMembers(cs, to.members), stale, from);
        case _ =>
      }
    }
  }

  lemma {:induction false} DiffItemsUnder(cs: bool, p: string, q: string, xs: seq<Json>, ys: seq<Json>, index: nat,
                                          stale: char, parent: Json)
    requires forall i :: 0 <= i < |xs| ==> xs[i] < parent
    ensures DiffItems(cs, p + q, xs, ys, index, stale, parent) ==
      Under(p, DiffItems(cs, q, xs, ys, index, stale, parent))
    decreases parent, 0, |xs| + |ys|
  {
    if xs != [] && ys != [] {
      var d := Decimal(index);
      Cons3(p, q, d);
      DiffUnder(cs, p, q + "/" + d, xs[0], ys[0], stale);
      DiffItemsUnder(cs, p, q, xs[1..], ys[1..], index + 1, stale, parent);
      UnderConcat(p, Diff(cs, q + "/" + d, xs[0], ys[0], stale),
        DiffItems(cs, q, xs[1..], ys[1..], index + 1, stale, parent));
    } else if xs != [] {
      var d := EncodeStringAsPointer(Decimal(index), stale);
      Cons3(p, q, d);
      DiffItemsUnder(cs, p, q, xs[1..], ys, index, stale, parent);
      UnderConcat(p, [Op("remove", q + "/" + d, None)], DiffItems(cs, q, xs[1..], ys, index, stale, parent));
    } else if ys != [] {
      var d := EncodeStringAsPointer("-", stale);
      Cons3(p, q, d);
      DiffItemsUnder(cs, p, q, xs, ys[1..], index + 1, stale, parent);
      UnderConcat(p, [Op("add", q + "/" + d, Some(ys[0]))], DiffItems(cs, q, xs, ys[1..], index + 1, stale, parent));
    }
  }

  lemma {:induction false} DiffMembersUnder(cs: bool, p: string, q: string, xs: seq<Member>, ys: seq<Member>,
                                            stale: char, parent: Json)
    requires Below(xs, parent)
    ensures DiffMembers(cs, p + q, xs, ys, stale, parent) == Under(p, DiffMembers(cs, q, xs, ys, stale, parent))
    decreases parent, 0, |xs| + |ys|
  {
    if xs != [] || ys != [] {
      var diff := KeyOrder(cs, xs, ys);
      var k := EncodeStringAsPointer(if diff <= 0 then xs[0].key else ys[0].key, stale);
      Cons3(p, q, k);
      var xs', ys' := if diff <= 0 then xs[1..] else xs, if diff >= 0 then ys[1..] else ys;
      var rest := DiffMembers(cs, q, xs', ys', stale, parent);
      DiffMembersUnder(cs, p, q, xs', ys', stale, parent);
      if diff == 0 {
        DiffUnder(cs, p, q + "/" + k, xs[0].value, ys[0].value, stale);
      }
      var first := if diff == 0 then Diff(cs, q + "/" + k, xs[0].value, ys[0].value, stale)
                   else if diff < 0 then [Op("remove", q + "/" + k, None)]
                   else [Op("add", q + "/" + k, Some(ys[0].value))];
      UnderConcat(p, first, rest);
      assert Under(p, first) == if diff == 0 then Diff(cs, (p + q) + "/" + k, xs[0].value, ys[0].value, stale)
                                else if diff < 0 then [Op("remove", (p + q) + "/" + k, None)]
                                else [Op("add", (p + q) + "/" + k, Some(ys[0].value))];
      assert DiffMembers(cs, p + q, xs, ys, stale, parent) == Under(p, first) + Under(p, rest);
      assert DiffMembers(cs, q, xs, ys, stale, parent) == first + rest;
    }
  }

  // ---------------------------------------------------------------------------
  // Operations below a child change only that child

  lemma {:induction false} LastSlashConcat(a: string, b: string)
    requires LastSlash(b).Some?
    ensures LastSlash(a + b) == Some(|a| + LastSlash(b).value)
  {
    var s := a + b;
    assert s[|s| - 1] == b[|b| - 1];
    if b[|b| - 1] != '/' {
      assert s[..|s| - 1] == a + b[..|b| - 1];
      LastSlashConcat(a, b[..|b| - 1]);
    }
  }

  lemma {:induction false} LastSlashSome(s: string, i: nat)
    requires i < |s| && s[i] == '/'
    ensures LastSlash(s).Some? && LastSlash(s).value >= i
  {
    if s[|s| - 1] != '/' {
      assert s[..|s| - 1][i] == '/';
      LastSlashSome(s[..|s| - 1], i);
    }
  }

  lemma {:induction false} LastSlashNone(s: string)
    requires '/' !in s
    ensures LastSlash(s) == None
  {
    if s != [] {
      LastSlashNone(s[..|s| - 1]);
    }
  }

  ghost predicate Deep(op: Op) {
    op.path != [] && op.path[0] == '/' && op.operation in ["add", "remove", "replace"]
  }

  /** How a path below `/key` splits at its last slash. */
  lemma SplitDeep(key: string, q: string)
    requires q != [] && q[0] == '/'
    ensures LastSlash(q).Some? && LastSlash("/" + key + q).Some?
    ensures
      var i, k := LastSlash("/" + key + q).value, LastSlash(q).value;
      ("/" + key + q)[..i] == "/" + key + q[..k] && ("/" + key + q)[i + 1..] == q[k + 1..] && TokenEnd(q[..k])
  {
    LastSlashSome(q, 0);
    LastSlashConcat("/" + key, q);
    var p := "/" + key + q;
    var i, k := LastSlash(p).value, LastSlash(q).value;
    assert i == 1 + |key| + k;
    assert p[..i] == "/" + key + q[..k];
    assert p[i + 1..] == q[k + 1..];
  }

  /** Where the parent of a path below `/key` is found. */
  lemma ParentBelow(cs: bool, j: Json, key: string, q: string)
    requires Plain(key) && Slot(cs, j, key).Some? && q != [] && q[0] == '/'
    ensures LastSlash(q).Some? && LastSlash("/" + key + q).Some?
    ensures
      var i, k := LastSlash("/" + key + q).value, LastSlash(q).value;
      var f := Slot(cs, j, key).value;
      && ("/" + key + q)[i + 1..] == q[k + 1..]
      && GetItem(cs, j, ("/" + key + q)[..i]) == GetItem(cs, Child(j, f), q[..k])
      && (GetItem(cs, Child(j, f), q[..k]).Some? ==> forall v ::
           PutItem(cs, j, ("/" + key + q)[..i], v) == SetChild(j, f, PutItem(cs, Child(j, f), q[..k], v)))
  {
    SplitDeep(key, q);
    StepPlain(cs, j, key, q[..LastSlash(q).value]);
  }

  lemma DetachBelow(cs: bool, j: Json, key: string, q: string)
    requires Plain(key) && Slot(cs, j, key).Some? && q != [] && q[0] == '/'
    ensures
      var i := Slot(cs, j, key).value;
      var r := DetachPath(cs, Child(j, i), q);
      DetachPath(cs, j, "/" + key + q) == if r.0.Some? then (r.0, SetChild(j, i, r.1)) else (None, j)
  {
    ParentBelow(cs, j, key, q);
  }

  lemma AddBelow(cs: bool, j: Json, key: string, q: string, v: Json)
    requires Plain(key) && Slot(cs, j, key).Some? && q != [] && q[0] == '/'
    ensures
      var i := Slot(cs, j, key).value;
      var r := AddAt(cs, Child(j, i), q, v);
      AddAt(cs, j, "/" + key + q, v) == if r.status == 0 then Applied(0, SetChild(j, i, r.doc))
        else Applied(r.status, j)
  {
    ParentBelow(cs, j, key, q);
  }

  lemma SlotAfterSet(cs: bool, j: Json, key: string, i: nat, v: Json)
    requires Slot(cs, j, key) == Some(i)
    ensures Slot(cs, SetChild(j, i, v), key) == Some(i)
    ensures Child(SetChild(j, i, v), i) == v
    ensures forall w :: SetChild(SetChild(j, i, v), i, w) == SetChild(j, i, w)
  {
    if j.Object? {
      FindSameKeys(cs, j.members, j.members[i := j.members[i].(value := v)], key);
    }
  }

  /** An operation whose path goes through a child is that operation on the child. */
  lemma ApplyBelow(cs: bool, j: Json, key: string, op: Op)
    requires Plain(key) && Slot(cs, j, key).Some? && Deep(op)
    ensures
      var i := Slot(cs, j, key).value;
      var r := ApplyOp(cs, Child(j, i), op);
      ApplyOp(cs, j, op.(path := "/" + key + op.path)) == Applied(r.status, SetChild(j, i, r.doc))
  {
    hide DetachPath, AddAt;
    var i, q := Slot(cs, j, key).value, op.path;
    var c := Child(j, i);
    assert SetChild(j, i, c) == j;
    DetachBelow(cs, j, key, q);
    DetachKeeps(cs, c, q);
    var rest := DetachPath(cs, c, q).1;
    SlotAfterSet(cs, j, key, i, rest);
    if op.value.Some? {
      AddBelow(cs, j, key, q, op.value.value);
      AddKeeps(cs, c, q, op.value.value);
      AddBelow(cs, SetChild(j, i, rest), key, q, op.value.value);
      AddKeeps(cs, rest, q, op.value.value);
    }
  }

  lemma DetachKeeps(cs: bool, j: Json, q: string)
    ensures DetachPath(cs, j, q).0.None? ==> DetachPath(cs, j, q).1 == j
  {
  }

  lemma AddKeeps(cs: bool, j: Json, q: string, v: Json)
    ensures AddAt(cs, j, q, v).status != 0 ==> AddAt(cs, j, q, v).doc == j
  {
  }

  /** Without that child it fails. */
  lemma ApplyBelowMissing(cs: bool, j: Json, key: string, op: Op)
    requires Plain(key) && Slot(cs, j, key).None? && Deep(op)
    ensures ApplyOp(cs, j, op.(path := "/" + key + op.path)).status != 0
  {
    hide GetItem, PutItem, DetachIn, AddIn, Slot;
    var p := "/" + key + op.path;
    SplitDeep(key, op.path);
    NotThere(cs, j, key, op.path[..LastSlash(op.path).value]);
    assert GetItem(cs, j, p[..LastSlash(p).value]).None?;
  }

  lemma NotThere(cs: bool, j: Json, key: string, rest: string)
    requires Plain(key) && Slot(cs, j, key).None? && TokenEnd(rest)
    ensures GetItem(cs, j, "/" + key + rest).None?
  {
    StepPlain(cs, j, key, rest);
  }

  lemma {:induction false} ApplyAllBelow(cs: bool, j: Json, key: string, ops: seq<Op>)
    requires Plain(key) && Slot(cs, j, key).Some?
    requires forall k :: 0 <= k < |ops| ==> Deep(ops[k])
    ensures
      var i := Slot(cs, j, key).value;
      var r := ApplyOps(cs, Child(j, i), ops);
      ApplyOps(cs, j, Under("/" + key, ops)) == Applied(r.status, SetChild(j, i, r.doc))
    decreases |ops|
  {
    var i := Slot(cs, j, key).value;
    var u := Under("/" + key, ops);
    if ops == [] {
      assert SetChild(j, i, Child(j, i)) == j;
    } else {
      ApplyBelow(cs, j, key, ops[0]);
      var v := ApplyOp(cs, Child(j, i), ops[0]).doc;
      SlotAfterSet(cs, j, key, i, v);
      if ApplyOp(cs, Child(j, i), ops[0]).status == 0 {
        ApplyAllBelow(cs, SetChild(j, i, v), key, ops[1..]);
        assert u[1..] == Under("/" + key, ops[1..]);
      }
    }
  }

  // ---------------------------------------------------------------------------
  // Operations on a child itself

  lemma HerePath(key: string)
    requires Plain(key)
    ensures LastSlash("/" + key) == Some(0)
    ensures ("/" + key)[..0] == [] && ("/" + key)[1..] == key && DecodePointerInplace(key) == key
  {
    LastSlashNone(key);
    LastSlashSome("/" + key, 0);
    DecodePlain(key, 0);
    var p := "/" + key;
    forall i | 0 < i < |p| ensures p[i] != '/' { assert p[i] == key[i - 1]; }
  }

  lemma ApplyHere(cs: bool, j: Json, key: string, op: Op)
    requires Plain(key) && op.path == "/" + key
    requires op.operation == "add" || op.operation == "replace" ==> op.value.Some?
    ensures op.operation == "add" ==> ApplyOp(cs, j, op) == AddIn(cs, j, key, op.value.value)
    ensures op.operation == "remove" && DetachIn(j, key).Some? ==>
      ApplyOp(cs, j, op) == Applied(0, DetachIn(j, key).value.1)
    ensures op.operation == "remove" || op.operation == "replace" ==>
      DetachIn(j, key).None? ==> ApplyOp(cs, j, op).status == 13
    ensures op.operation == "replace" && DetachIn(j, key).Some? ==>
      ApplyOp(cs, j, op) == AddIn(cs, DetachIn(j, key).value.1, key, op.value.value)
  {
    HerePath(key);
    AddInKeeps(cs, j, key, op);
    if op.operation == "replace" && DetachIn(j, key).Some? {
      AddInKeeps(cs, DetachIn(j, key).value.1, key, op);
    }
  }

  lemma AddInKeeps(cs: bool, j: Json, key: string, op: Op)
    requires Plain(key) && op.path == "/" + key
    ensures op.value.Some? ==> AddAt(cs, j, op.path, op.value.value) == AddIn(cs, j, key, op.value.value)
  {
    HerePath(key);
  }
}
