/** How an operation of a JSON Patch acts along its path on a tree as it stands in memory. */
module LinkedPatchPaths {
  import opened Options
  import opened Strings
  import opened Json
  import opened JsonEquality
  import opened JsonPointer
  import opened JsonPatch
  import opened JsonPatchPaths
  import opened ChildList
  import opened LinkedJson
  import opened LinkedPatch

  // ---------------------------------------------------------------------------
  // Operations instead of their JSON form

  function OpLinked(cs: bool, t: Tree, op: Op): Outcome {
    Carry(cs, t, Opcode(op.operation), op.path, op.value, None)
  }

  function OpsLinked(cs: bool, t: Tree, ops: seq<Op>): Outcome
    decreases |ops|
  {
    if ops == [] then Done(0, t)
    else match OpLinked(cs, t, ops[0])
      case Damaged => Damaged
      case Lost(status, t') => if status != 0 then Lost(status, t') else WithLoss(OpsLinked(cs, t', ops[1..]))
      case Done(status, t') => if status != 0 then Done(status, t') else OpsLinked(cs, t', ops[1..])
  }

  lemma OpErased(cs: bool, t: Tree, op: Op)
    ensures Agrees(OpLinked(cs, t, op), ApplyOp(cs, Erase(t), op))
  {
    CarryErased(cs, t, Opcode(op.operation), op.path, op.value, None);
  }

  lemma {:induction false} OpsErased(cs: bool, t: Tree, ops: seq<Op>)
    ensures Agrees(OpsLinked(cs, t, ops), ApplyOps(cs, Erase(t), ops))
    decreases |ops|
  {
    hide OpLinked, ApplyOp;
    if ops != [] {
      OpErased(cs, t, ops[0]);
      var r := OpLinked(cs, t, ops[0]);
      if r.Done? {
        OpsErased(cs, r.tree, ops[1..]);
      }
    }
  }

  lemma ComposedLinked(cs: bool, t: Tree, op: Op)
    requires op.operation in ["add", "remove", "replace"]
    ensures ApplyLinked(cs, t, ComposePatch(op)) == OpLinked(cs, t, op)
  {
    hide Carry;
    FindCompose(cs, op);
  }

  lemma {:induction false} AllComposedLinked(cs: bool, t: Tree, ops: seq<Op>)
    requires Known(ops)
    ensures ApplyAllLinked(cs, t, ComposeAll(ops)) == OpsLinked(cs, t, ops)
    decreases |ops|
  {
    hide OpLinked, ApplyLinked, ComposePatch;
    if ops != [] {
      ComposedLinked(cs, t, ops[0]);
      var r := OpLinked(cs, t, ops[0]);
      assert ComposeAll(ops)[1..] == ComposeAll(ops[1..]);
      if !r.Damaged? {
        AllComposedLinked(cs, r.tree, ops[1..]);
      }
    }
  }

  function Then(cs: bool, o: Outcome, ops: seq<Op>): Outcome {
    match o
    case Damaged => Damaged
    case Lost(status, t) => if status != 0 then o else WithLoss(OpsLinked(cs, t, ops))
    case Done(status, t) => if status != 0 then o else OpsLinked(cs, t, ops)
  }

  lemma {:induction false} OpsConcat(cs: bool, t: Tree, a: seq<Op>, b: seq<Op>)
    ensures OpsLinked(cs, t, a + b) == Then(cs, OpsLinked(cs, t, a), b)
    decreases |a|
  {
    hide OpLinked;
    if a == [] {
      assert a + b == b;
    } else {
      assert (a + b)[0] == a[0] && (a + b)[1..] == a[1..] + b;
      var r := OpLinked(cs, t, a[0]);
      if !r.Damaged? {
        OpsConcat(cs, r.tree, a[1..], b);
      }
    }
  }

  lemma OneLinked(cs: bool, t: Tree, op: Op)
    ensures OpsLinked(cs, t, [op]) == OpLinked(cs, t, op)
  {
    var r := OpLinked(cs, t, op);
    assert [op][1..] == [];
    if !r.Damaged? { assert OpsLinked(cs, r.tree, []) == Done(0, r.tree); }
  }

  // ---------------------------------------------------------------------------
  // Below a child

  /** What an outcome for a child means for its parent. */
  function Lift(t: Tree, i: nat, o: Outcome): Outcome
    requires HasChild(t, i)
  {
    match o
    case Damaged => Damaged
    case Lost(status, c) => Lost(status, WithChild(t, i, c))
    case Done(status, c) => Done(status, WithChild(t, i, c))
  }

  lemma GetStep(cs: bool, t: Tree, p: string, v: Tree)
    requires p != [] && p[0] == '/' && Step(cs, Erase(t), p[1..]).Some?
    ensures
      var i := Step(cs, Erase(t), p[1..]).value;
      && HasChild(t, i)
      && GetTree(cs, t, p) == GetTree(cs, ChildOf(t, i), SkipToken(p[1..]))
      && (GetTree(cs, t, p).Some? ==>
            PutTree(cs, t, p, v) == WithChild(t, i, PutTree(cs, ChildOf(t, i), SkipToken(p[1..]), v)))
  {
  }

  /** A path through a child leads where its rest leads from the child. */
  lemma ThroughChild(cs: bool, t: Tree, key: string, rest: string, v: Tree)
    requires Plain(key) && Slot(cs, Erase(t), key).Some? && TokenEnd(rest)
    ensures
      var f := Slot(cs, Erase(t), key).value;
      && HasChild(t, f)
      && GetTree(cs, t, "/" + key + rest) == GetTree(cs, ChildOf(t, f), rest)
      && (GetTree(cs, ChildOf(t, f), rest).Some? ==>
            PutTree(cs, t, "/" + key + rest, v) == WithChild(t, f, PutTree(cs, ChildOf(t, f), rest, v)))
  {
    hide GetTree, PutTree, Slot, ChildOf, WithChild;
    StepPlain(cs, Erase(t), key, rest);
    SkipTokenPlain(key, rest);
    var p := "/" + key + rest;
    assert p[1..] == key + rest && p[0] == '/';
    GetStep(cs, t, p, v);
  }

  lemma SetTwice(t: Tree, i: nat, c: Tree, d: Tree)
    requires HasChild(t, i)
    ensures HasChild(WithChild(t, i, c), i) && ChildOf(WithChild(t, i, c), i) == c
    ensures WithChild(WithChild(t, i, c), i, d) == WithChild(t, i, d)
    ensures WithChild(t, i, ChildOf(t, i)) == t
  {
    hide Erase, SetChild, Child;
    assert t.ObjectNode? ==> t.fields[i := t.fields[i].(tree := ChildOf(t, i))] == t.fields;
    assert t.ArrayNode? ==> t.elements[i := ChildOf(t, i)] == t.elements;
  }

  lemma SlotStays(cs: bool, t: Tree, key: string, i: nat, c: Tree, d: Tree)
    requires Slot(cs, Erase(t), key) == Some(i)
    ensures HasChild(t, i) && HasChild(WithChild(t, i, c), i) && Slot(cs, Erase(WithChild(t, i, c)), key) == Some(i)
    ensures ChildOf(WithChild(t, i, c), i) == c
    ensures WithChild(WithChild(t, i, c), i, d) == WithChild(t, i, d)
    ensures WithChild(t, i, ChildOf(t, i)) == t
  {
    hide WithChild, ChildOf, SetChild, Child;
    SlotAfterSet(cs, Erase(t), key, i, Erase(c));
    SetTwice(t, i, c, d);
  }

  /** `TakePath` and `AddTree` when the path has been split. */
  function TakeSplit(cs: bool, t: Tree, rest: string, child: string): Removal {
    match GetTree(cs, t, rest)
    case None => Missing
    case Some(parent) =>
      var r := TakeFrom(parent, child);
      if r.Taken? then Taken(r.item, PutTree(cs, t, rest, r.rest)) else r
  }

  function AddSplit(cs: bool, t: Tree, rest: string, child: string, v: Tree): Outcome {
    match GetTree(cs, t, rest)
    case None => Done(9, t)
    case Some(parent) =>
      match AddTo(cs, parent, child, v, false)
      case Damaged => Damaged
      case Lost(_, parent') => Lost(0, PutTree(cs, t, rest, parent'))
      case Done(status, parent') => if status != 0 then Done(status, t) else Done(0, PutTree(cs, t, rest, parent'))
  }

  lemma Splits(cs: bool, t: Tree, path: string, v: Tree)
    requires LastSlash(path).Some?
    ensures
      var i := LastSlash(path).value;
      && TakePath(cs, t, path) == TakeSplit(cs, t, path[..i], DecodePointerInplace(path[i + 1..]))
      && AddTree(cs, t, path, v, false) == AddSplit(cs, t, path[..i], DecodePointerInplace(path[i + 1..]), v)
  {
    hide TakeFrom, AddTo, GetTree, PutTree;
  }

  lemma TakeSplitBelow(cs: bool, t: Tree, key: string, rest: string, child: string)
    requires Plain(key) && Slot(cs, Erase(t), key).Some? && TokenEnd(rest)
    ensures
      var i := Slot(cs, Erase(t), key).value;
      && HasChild(t, i)
      && var r := TakeSplit(cs, ChildOf(t, i), rest, child);
         TakeSplit(cs, t, "/" + key + rest, child) == if r.Taken? then Taken(r.item, WithChild(t, i, r.rest)) else r
  {
    hide TakeFrom, GetTree, PutTree, Slot, ChildOf, WithChild;
    var i := Slot(cs, Erase(t), key).value;
    ThroughChild(cs, t, key, rest, t);
    var parent := GetTree(cs, ChildOf(t, i), rest);
    if parent.Some? {
      var r := TakeFrom(parent.value, child);
      if r.Taken? { ThroughChild(cs, t, key, rest, r.rest); }
    }
  }

  lemma AddSplitBelow(cs: bool, t: Tree, key: string, rest: string, child: string, v: Tree)
    requires Plain(key) && Slot(cs, Erase(t), key).Some? && TokenEnd(rest)
    ensures
      var i := Slot(cs, Erase(t), key).value;
      HasChild(t, i)
        && AddSplit(cs, t, "/" + key + rest, child, v) == Lift(t, i, AddSplit(cs, ChildOf(t, i), rest, child, v))
  {
    hide AddTo, GetTree, PutTree, Slot, ChildOf, WithChild, Erase;
    var i := Slot(cs, Erase(t), key).value;
    ThroughChild(cs, t, key, rest, t);
    SlotStays(cs, t, key, i, t, t);
    var parent := GetTree(cs, ChildOf(t, i), rest);
    if parent.Some? {
      var o := AddTo(cs, parent.value, child, v, false);
      if !o.Damaged? { ThroughChild(cs, t, key, rest, o.tree); }
    }
  }

  /** An operation whose path goes through a child is that operation on the child. */
  lemma BothBelow(cs: bool, t: Tree, key: string, q: string, v: Tree)
    requires Plain(key) && Slot(cs, Erase(t), key).Some? && q != [] && q[0] == '/'
    ensures
      var i := Slot(cs, Erase(t), key).value;
      && HasChild(t, i)
      && var r := TakePath(cs, ChildOf(t, i), q);
         TakePath(cs, t, "/" + key + q) == if r.Taken? then Taken(r.item, WithChild(t, i, r.rest)) else r
    ensures
      var i := Slot(cs, Erase(t), key).value;
      HasChild(t, i) && AddTree(cs, t, "/" + key + q, v, false) == Lift(t, i, AddTree(cs, ChildOf(t, i), q, v, false))
  {
    hide TakePath, AddTree, TakeSplit, AddSplit, Slot, ChildOf, WithChild;
    SplitDeep(key, q);
    var k := LastSlash(q).value;
    TakeSplitBelow(cs, t, key, q[..k], DecodePointerInplace(q[k + 1..]));
    AddSplitBelow(cs, t, key, q[..k], DecodePointerInplace(q[k + 1..]), v);
    Splits(cs, t, "/" + key + q, v);
    Splits(cs, ChildOf(t, Slot(cs, Erase(t), key).value), q, v);
  }

  lemma AddCopyBelow(cs: bool, t: Tree, key: string, q: string, value: Option<Json>)
    requires Plain(key) && Slot(cs, Erase(t), key).Some? && q != [] && q[0] == '/'
    ensures
      var i := Slot(cs, Erase(t), key).value;
      HasChild(t, i) && AddCopy(cs, t, "/" + key + q, value) == Lift(t, i, AddCopy(cs, ChildOf(t, i), q, value))
  {
    hide AddTree, Slot, ChildOf, WithChild;
    SlotStays(cs, t, key, Slot(cs, Erase(t), key).value, t, t);
    if value.Some? { BothBelow(cs, t, key, q, Fresh(value.value)); }
  }

  /** The three operations `create_patches` writes, away from the root. */
  lemma OpIs(cs: bool, t: Tree, op: Op)
    requires Deep(op)
    ensures
      var r := TakePath(cs, t, op.path);
      OpLinked(cs, t, op) ==
        if op.operation == "add" then AddCopy(cs, t, op.path, op.value)
        else if r.Broken? then Damaged
        else if r.Missing? then Done(13, t)
        else if op.operation == "remove" then Done(0, r.rest)
        else AddCopy(cs, r.rest, op.path, op.value)
  {
    hide TakePath, AddCopy, Transfer, TestTree;
  }

  lemma OpBelow(cs: bool, t: Tree, key: string, op: Op)
    requires Plain(key) && Slot(cs, Erase(t), key).Some? && Deep(op)
    ensures
      var i := Slot(cs, Erase(t), key).value;
      HasChild(t, i) && OpLinked(cs, t, op.(path := "/" + key + op.path)) == Lift(t, i, OpLinked(cs, ChildOf(t, i), op))
  {
    hide TakePath, AddCopy, Slot, ChildOf, WithChild, OpLinked;
    var i, q := Slot(cs, Erase(t), key).value, op.path;
    SlotStays(cs, t, key, i, t, t);
    OpIs(cs, ChildOf(t, i), op);
    OpIs(cs, t, op.(path := "/" + key + q));
    BothBelow(cs, t, key, q, t);
    AddCopyBelow(cs, t, key, q, op.value);
    var r := TakePath(cs, ChildOf(t, i), q);
    if r.Taken? {
      var o := AddCopy(cs, r.rest, q, op.value);
      SlotStays(cs, t, key, i, r.rest, if o.Damaged? then t else o.tree);
      AddCopyBelow(cs, WithChild(t, i, r.rest), key, q, op.value);
    }
  }

  lemma {:induction false} OpsBelow(cs: bool, t: Tree, key: string, ops: seq<Op>)
    requires Plain(key) && Slot(cs, Erase(t), key).Some?
    requires forall k :: 0 <= k < |ops| ==> Deep(ops[k])
    ensures
      var i := Slot(cs, Erase(t), key).value;
      HasChild(t, i) && OpsLinked(cs, t, Under("/" + key, ops)) == Lift(t, i, OpsLinked(cs, ChildOf(t, i), ops))
    decreases |ops|
  {
    hide OpLinked, Slot, ChildOf, WithChild, Deep;
    var i, u := Slot(cs, Erase(t), key).value, Under("/" + key, ops);
    SlotStays(cs, t, key, i, t, t);
    if ops != [] {
      OpBelow(cs, t, key, ops[0]);
      var r := OpLinked(cs, ChildOf(t, i), ops[0]);
      assert u[1..] == Under("/" + key, ops[1..]);
      if !r.Damaged? && r.status == 0 {
        var o := OpsLinked(cs, r.tree, ops[1..]);
        SlotStays(cs, t, key, i, r.tree, if o.Damaged? then t else o.tree);
        OpsBelow(cs, WithChild(t, i, r.tree), key, ops[1..]);
      }
    }
  }

  // ---------------------------------------------------------------------------
  // At a child

  /** What adding to the root leaves. */
  function AtRoot(t: Tree, o: Outcome): Outcome {
    match o
    case Damaged => Damaged
    case Lost(_, r) => Lost(0, r)
    case Done(status, r) => if status != 0 then Done(status, t) else Done(0, r)
  }

  lemma Here(cs: bool, t: Tree, key: string, v: Tree)
    requires Plain(key)
    ensures TakePath(cs, t, "/" + key) == TakeFrom(t, key)
    ensures
      var o := AddTo(cs, t, key, v, false);
      AddTree(cs, t, "/" + key, v, false) == AtRoot(t, o)
  {
    hide TakeFrom, AddTo;
    HerePath(key);
  }

  lemma RemoveLinked(cs: bool, t: Tree, key: string)
    requires Plain(key)
    ensures
      var r := TakeFrom(t, key);
      OpsLinked(cs, t, [Op("remove", "/" + key, None)]) ==
        if r.Broken? then Damaged else if r.Missing? then Done(13, t) else Done(0, r.rest)
  {
    hide TakeFrom, TakePath;
    Here(cs, t, key, t);
    OneLinked(cs, t, Op("remove", "/" + key, None));
  }

  lemma AddLinked(cs: bool, t: Tree, key: string, v: Json)
    requires Plain(key)
    ensures
      OpsLinked(cs, t, [Op("add", "/" + key, Some(v))]) == AtRoot(t, AddTo(cs, t, key, Fresh(v), false))
  {
    hide AddTo, AddTree;
    Here(cs, t, key, Fresh(v));
    OneLinked(cs, t, Op("add", "/" + key, Some(v)));
  }

  lemma ReplaceLinked(cs: bool, t: Tree, key: string, v: Json)
    requires Plain(key)
    ensures
      var r := TakeFrom(t, key);
      OpsLinked(cs, t, [Op("replace", "/" + key, Some(v))]) ==
        if r.Broken? then Damaged else if r.Missing? then Done(13, t)
        else OpsLinked(cs, r.rest, [Op("add", "/" + key, Some(v))])
  {
    hide TakeFrom, TakePath, AddTree;
    Here(cs, t, key, t);
    OneLinked(cs, t, Op("replace", "/" + key, Some(v)));
    if TakeFrom(t, key).Taken? {
      OneLinked(cs, TakeFrom(t, key).rest, Op("add", "/" + key, Some(v)));
    }
  }
}
