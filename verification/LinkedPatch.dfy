/** `apply_patch` on trees as they stand in memory. */
module LinkedPatch {
  import opened Options
  import opened Strings
  import opened Json
  import opened JsonEquality
  import opened JsonPointer
  import opened JsonPatch
  import opened ChildList
  import opened LinkedJson

  /** A list of children is a ring by now, or a child that is gone has been written to; or a
      status and the tree left behind, with children lost on the way or not. */
  datatype Outcome = Damaged | Lost(status: int, tree: Tree) | Done(status: int, tree: Tree)

  datatype Removal = Broken | Missing | Taken(item: Tree, rest: Tree)

  function Elements(t: Tree): List<Tree>
    requires t.ArrayNode?
  {
    List(t.elements, t.tail)
  }

  function ArrayOf(l: List<Tree>): Tree {
    ArrayNode(l.items, l.tail)
  }

  /** Taking a child out of its parent. */
  function TakeFrom(parent: Tree, child: string): Removal {
    match parent
    case Leaf(_) => Missing
    case ArrayNode(es, _) =>
      (match DecodeArrayIndex(child)
       case None => Missing
       case Some(k) =>
         if k >= |es| then Missing
         else match Detach(Elements(parent), k)
           case None => Broken
           case Some(l) => Taken(es[k], ArrayOf(l)))
    case ObjectNode(fs, _) =>
      match Find(false, EraseFields(fs), child)
      case None => Missing
      case Some(k) =>
        match Detach(FieldList(parent), k)
        case None => Broken
        case Some(l) => Taken(fs[k].tree, ObjectOf(l))
  }

  /** `detach_path`. */
  function TakePath(cs: bool, t: Tree, path: string): Removal {
    match LastSlash(path)
    case None => Missing
    case Some(i) =>
      match GetTree(cs, t, path[..i])
      case None => Missing
      case Some(parent) =>
        match TakeFrom(parent, DecodePointerInplace(path[i + 1..]))
        case Taken(item, rest) => Taken(item, PutTree(cs, t, path[..i], rest))
        case other => other
  }

  /** Deleting a member, if there is one, and adding it again at the end of the list. */
  function SetField(cs: bool, l: List<Field>, key: string, v: Tree): Growth<Field> {
    var rest := match Find(cs, EraseFields(l.items), key) case None => Some(l) case Some(k) => Detach(l, k);
    match rest
    case None => Ruined
    case Some(r) => Grow(r, Field(key, v))
  }

  /** Adding a child to its parent; `back` says that the parent still caches this very child. */
  function AddTo(cs: bool, parent: Tree, child: string, v: Tree, back: bool): Outcome {
    match parent
    case Leaf(_) => Done(9, parent)
    case ArrayNode(es, _) =>
      if child == "-" then Grown(Grow(Elements(parent), v))
      else
        (match DecodeArrayIndex(child)
         case None => Done(11, parent)
         case Some(k) =>
           if k > |es| then Done(10, parent)
           else if k == |es| then Grown(Grow(Elements(parent), v))
           else Done(0, ArrayOf(Insert(Elements(parent), k, v, back).value)))
    case ObjectNode(_, _) =>
      match SetField(cs, FieldList(parent), child, v)
      case Ruined => Damaged
      case Short(l) => Lost(0, ObjectOf(l))
      case Whole(l) => Done(0, ObjectOf(l))
  }

  function Grown(g: Growth<Tree>): Outcome {
    match g
    case Ruined => Damaged
    case Short(l) => Lost(0, ArrayOf(l))
    case Whole(l) => Done(0, ArrayOf(l))
  }

  /** The last part of `apply_patch`. */
  function AddTree(cs: bool, t: Tree, path: string, v: Tree, back: bool): Outcome {
    match LastSlash(path)
    case None => Done(9, t)
    case Some(i) =>
      match GetTree(cs, t, path[..i])
      case None => Done(9, t)
      case Some(parent) =>
        match AddTo(cs, parent, DecodePointerInplace(path[i + 1..]), v, back)
        case Damaged => Damaged
        case Lost(_, parent') => Lost(0, PutTree(cs, t, path[..i], parent'))
        case Done(status, parent') => if status != 0 then Done(status, t)
          else Done(0, PutTree(cs, t, path[..i], parent'))
  }

  /** Adding or replacing with a copy of the member "value". */
  function AddCopy(cs: bool, t: Tree, path: string, value: Option<Json>): Outcome {
    if value.None? then Done(7, t)
    else if path == [] then Done(0, Fresh(value.value))
    else AddTree(cs, t, path, Fresh(value.value), false)
  }

  function Carry(cs: bool, t: Tree, opcode: Operation, path: string, value: Option<Json>, from: Option<Json>): Outcome {
    match opcode
    case INVALID => Done(3, t)
    case TEST => TestTree(cs, t, path, value)
    case REMOVE =>
      if path == [] then Done(0, Leaf(Invalid))
      else (match TakePath(cs, t, path) case Broken => Damaged case Missing => Done(13, t) case Taken(_,
        rest) => Done(0, rest))
    case REPLACE =>
      if path == [] then AddCopy(cs, t, path, value)
      else
        (match TakePath(cs, t, path)
         case Broken => Damaged
         case Missing => Done(13, t)
         case Taken(_, rest) => AddCopy(cs, rest, path, value))
    case ADD => AddCopy(cs, t, path, value)
    case COPY => Transfer(cs, t, path, from, false)
    case MOVE => Transfer(cs, t, path, from, true)
  }

  /** "test" sorts the item in place. */
  function TestTree(cs: bool, t: Tree, path: string, value: Option<Json>): Outcome {
    match GetTree(cs, t, path)
    case None => Done(1, t)
    case Some(item) =>
      if value.None? then Done(1, t)
      else
        Done(if CompareJson(cs, Erase(item), value.value) then 0 else 1,
             PutTree(cs, t, path, LeftTree(cs, item, value.value)))
  }

  /** The element that was taken from `source` goes back to its array, which still caches it. */
  predicate GoesBack(cs: bool, t: Tree, source: string, rest: Tree, path: string) {
    && LastSlash(source).Some? && LastSlash(path).Some?
    && var (i, j) := (LastSlash(source).value, LastSlash(path).value);
       && GetTree(cs, t, source[..i]).Some? && GetTree(cs, rest, path[..j]).Some?
       && Route(cs, t, source[..i]) == Route(cs, rest, path[..j])
       && var parent, k := GetTree(cs, t, source[..i]).value, DecodeArrayIndex(DecodePointerInplace(source[i + 1..]));
          parent.ArrayNode? && k.Some? && parent.tail == Cached(k.value)
  }

  /** "copy" and "move". */
  function Transfer(cs: bool, t: Tree, path: string, from: Option<Json>, move: bool): Outcome {
    if from.None? then Done(4, t)
    else match StringOf(from)
      case None => Done(5, t)
      case Some(source) =>
        if move then
          match TakePath(cs, t, source)
          case Broken => Damaged
          case Missing => Done(5, t)
          case Taken(item, rest) => AddTree(cs, rest, path, item, GoesBack(cs, t, source, rest, path))
        else
          match GetTree(cs, t, source)
          case None => Done(5, t)
          case Some(item) => AddTree(cs, t, path, Duplicate(item), false)
  }

  /** `apply_patch`. */
  function ApplyLinked(cs: bool, t: Tree, patch: Json): Outcome {
    match StringOf(GetObjectItem(cs, patch, "path"))
    case None => Done(2, t)
    case Some(path) =>
      Carry(cs, t, DecodePatchOperation(cs, patch), path, GetObjectItem(cs, patch, "value"),
        GetObjectItem(cs, patch, "from"))
  }

  /** The loop of `cJSONUtils_ApplyPatches`. */
  function ApplyAllLinked(cs: bool, t: Tree, patches: seq<Json>): Outcome
    decreases |patches|
  {
    if patches == [] then Done(0, t)
    else match ApplyLinked(cs, t, patches[0])
      case Damaged => Damaged
      case Lost(status, t') => if status != 0 then Lost(status, t') else WithLoss(ApplyAllLinked(cs, t', patches[1..]))
      case Done(status, t') => if status != 0 then Done(status, t') else ApplyAllLinked(cs, t', patches[1..])
  }

  /** What comes after children have been lost. */
  function WithLoss(o: Outcome): Outcome {
    match o
    case Done(status, t) => Lost(status, t)
    case other => other
  }

  /** The document the patches are applied to. */
  class Document {
    var root: Tree

    constructor (root: Tree)
      ensures this.root == root
    {
      this.root := root;
    }

    /** `cJSONUtils_ApplyPatches`; it goes no further when a list is damaged.  `lost` says that
        children have been lost; the code does not know. */
    method Apply(cs: bool, patches: Json) returns (damaged: bool, status: int, ghost lost: bool)
      modifies this
      ensures !patches.Array? ==> !damaged && !lost && status == 1 && root == old(root)
      ensures patches.Array? ==>
        match ApplyAllLinked(cs, old(root), patches.items)
        case Damaged => damaged
        case Lost(s, t) => !damaged && lost && status == s && root == t
        case Done(s, t) => !damaged && !lost && status == s && root == t
    {
      hide ApplyLinked;
      damaged, status, lost := false, 0, false;
      if !patches.Array? {
        status := 1;
        return;
      }
      var current := patches.items;
      while current != []
        invariant ApplyAllLinked(cs, old(root), patches.items) ==
          if lost then WithLoss(ApplyAllLinked(cs, root, current)) else ApplyAllLinked(cs, root, current)
        decreases |current|
      {
        var outcome := ApplyLinked(cs, root, current[0]);
        if outcome.Damaged? {
          damaged := true;
          return;
        }
        root := outcome.tree;
        lost := lost || outcome.Lost?;
        if outcome.status != 0 {
          status := outcome.status;
          return;
        }
        current := current[1..];
      }
    }
  }

  // ---------------------------------------------------------------------------
  // With every list whole, it is what the patch does to the value

  ghost predicate Agrees(o: Outcome, a: Applied) {
    o.Done? ==> o.status == a.status && Erase(o.tree) == a.doc
  }

  lemma DetachErased(es: List<Tree>, fs: List<Field>, k: nat)
    ensures k < |es.items| && Detach(es, k).Some? ==>
      EraseAll(Detach(es, k).value.items) == RemoveAt(EraseAll(es.items), k)
    ensures k < |fs.items| && Detach(fs, k).Some? ==>
      EraseFields(Detach(fs, k).value.items) == RemoveAt(EraseFields(fs.items), k)
  {
  }

  lemma TakeFromErased(parent: Tree, child: string)
    ensures
      match TakeFrom(parent, child)
      case Broken => true
      case Missing => DetachIn(Erase(parent), child).None?
      case Taken(item, rest) => DetachIn(Erase(parent), child) == Some((Erase(item), Erase(rest)))
  {
    hide Detach;
    match parent {
      case Leaf(_) =>
      case ArrayNode(es, _) =>
        if DecodeArrayIndex(child).Some?
          { DetachErased(Elements(parent), List([], Unset), DecodeArrayIndex(child).value); }
      case ObjectNode(fs, _) =>
        if Find(false, EraseFields(fs), child).Some? {
          DetachErased(List([], Unset), FieldList(parent), Find(false, EraseFields(fs), child).value);
        }
    }
  }

  lemma TakePathErased(cs: bool, t: Tree, path: string)
    ensures
      match TakePath(cs, t, path)
      case Broken => true
      case Missing => DetachPath(cs, Erase(t), path) == (None, Erase(t))
      case Taken(item, rest) => DetachPath(cs, Erase(t), path) == (Some(Erase(item)), Erase(rest))
  {
    hide TakeFrom, DetachIn;
    if LastSlash(path).Some? {
      var i := LastSlash(path).value;
      if GetTree(cs, t, path[..i]).Some? {
        TakeFromErased(GetTree(cs, t, path[..i]).value, DecodePointerInplace(path[i + 1..]));
      }
    }
  }

  lemma SetFieldErased(cs: bool, l: List<Field>, key: string, v: Tree)
    ensures SetField(cs, l, key, v).Whole? ==>
      EraseFields(SetField(cs, l, key, v).l.items) == SetMember(cs, EraseFields(l.items), key, Erase(v))
  {
    hide Detach;
    var f := Find(cs, EraseFields(l.items), key);
    if f.Some? { DetachErased(List([], Unset), l, f.value); }
    var rest := match f case None => Some(l) case Some(k) => Detach(l, k);
    if rest.Some? {
      assert EraseFields(rest.value.items + [Field(key, v)]) == EraseFields(rest.value.items) + [Member(key, Erase(v))];
    }
  }

  lemma AppendErased(l: List<Tree>, v: Tree)
    ensures ChildList.Append(l, v).Some? ==>
      EraseAll(ChildList.Append(l, v).value.items) == EraseAll(l.items) + [Erase(v)]
  {
    hide Erase;
  }

  lemma InsertErased(l: List<Tree>, k: nat, v: Tree, back: bool)
    requires k < |l.items|
    ensures
      EraseAll(Insert(l, k, v, back).value.items) == EraseAll(l.items)[..k] + [Erase(v)] + EraseAll(l.items)[k..]
  {
    hide Erase;
    assert Insert(l, k, v, back).value.items == l.items[..k] + [v] + l.items[k..];
  }

  lemma AddToErased(cs: bool, parent: Tree, child: string, v: Tree, back: bool)
    ensures Agrees(AddTo(cs, parent, child, v, back), AddIn(cs, Erase(parent), child, Erase(v)))
  {
    hide SetField, SetMember, Insert, ChildList.Append;
    match parent {
      case Leaf(_) =>
      case ArrayNode(es, _) =>
        AppendErased(Elements(parent), v);
        if DecodeArrayIndex(child).Some? && DecodeArrayIndex(child).value < |es| {
          InsertErased(Elements(parent), DecodeArrayIndex(child).value, v, back);
        }
      case ObjectNode(_, _) => SetFieldErased(cs, FieldList(parent), child, v);
    }
  }

  lemma AddTreeErased(cs: bool, t: Tree, path: string, v: Tree, back: bool)
    ensures Agrees(AddTree(cs, t, path, v, back), AddAt(cs, Erase(t), path, Erase(v)))
  {
    hide AddTo, AddIn;
    if LastSlash(path).Some? {
      var i := LastSlash(path).value;
      if GetTree(cs, t, path[..i]).Some? {
        AddToErased(cs, GetTree(cs, t, path[..i]).value, DecodePointerInplace(path[i + 1..]), v, back);
      }
    }
  }

  lemma AddCopyErased(cs: bool, t: Tree, path: string, value: Option<Json>)
    ensures Agrees(AddCopy(cs, t, path, value), AddValue(cs, Erase(t), path, value))
  {
    hide AddTree, AddAt;
    if value.Some? {
      EraseFresh(value.value);
      AddTreeErased(cs, t, path, Fresh(value.value), false);
    }
  }

  lemma TransferErased(cs: bool, t: Tree, path: string, from: Option<Json>, move: bool)
    ensures Agrees(Transfer(cs, t, path, from, move),
                   Perform(cs, Erase(t), if move then MOVE else COPY, path, None, from))
  {
    hide AddTree, AddAt, TakePath, DetachPath;
    if StringOf(from).Some? {
      var source := StringOf(from).value;
      TakePathErased(cs, t, source);
      if move {
        if TakePath(cs, t, source).Taken? {
          var rest := TakePath(cs, t, source).rest;
          AddTreeErased(cs, rest, path, TakePath(cs, t, source).item, GoesBack(cs, t, source, rest, path));
        }
      } else if GetTree(cs, t, source).Some? {
        var item := GetTree(cs, t, source).value;
        DuplicateIsFresh(item);
        AddTreeErased(cs, t, path, Duplicate(item), false);
      }
    }
  }

  lemma TestErased(cs: bool, t: Tree, path: string, value: Option<Json>)
    ensures Agrees(TestTree(cs, t, path, value), TestAt(cs, Erase(t), path, value))
  {
    hide Left, LeftTree, CompareJson;
    if GetTree(cs, t, path).Some? && value.Some? {
      LeftTreeErased(cs, GetTree(cs, t, path).value, value.value);
    }
  }

  lemma CarryErased(cs: bool, t: Tree, opcode: Operation, path: string, value: Option<Json>, from: Option<Json>)
    ensures Agrees(Carry(cs, t, opcode, path, value, from), Perform(cs, Erase(t), opcode, path, value, from))
  {
    hide TakePath, DetachPath, AddCopy, AddValue, Transfer, TestTree, TestAt;
    TestErased(cs, t, path, value);
    TakePathErased(cs, t, path);
    AddCopyErased(cs, t, path, value);
    if opcode == REPLACE && TakePath(cs, t, path).Taken? {
      AddCopyErased(cs, TakePath(cs, t, path).rest, path, value);
    }
    TransferErased(cs, t, path, from, opcode == MOVE);
    EmptyReplace(cs, t, value);
  }

  lemma EmptyReplace(cs: bool, t: Tree, value: Option<Json>)
    ensures Agrees(AddCopy(cs, t, [], value), AddValue(cs, Erase(t), [], value))
  {
    AddCopyErased(cs, t, [], value);
  }

  /** An operation that damages no list and loses no child has the status, and leaves the value,
      of the operation on values. */
  lemma ApplyErased(cs: bool, t: Tree, patch: Json)
    ensures Agrees(ApplyLinked(cs, t, patch), ApplyPatch(cs, Erase(t), patch))
  {
    hide Carry, Perform;
    if StringOf(GetObjectItem(cs, patch, "path")).Some? {
      CarryErased(cs, t, DecodePatchOperation(cs, patch), StringOf(GetObjectItem(cs, patch, "path")).value,
                  GetObjectItem(cs, patch, "value"), GetObjectItem(cs, patch, "from"));
    }
  }

  /** So does a list of them. */
  lemma {:induction false} ApplyAllErased(cs: bool, t: Tree, patches: seq<Json>)
    ensures Agrees(ApplyAllLinked(cs, t, patches), ApplyPatches(cs, Erase(t), patches))
    decreases |patches|
  {
    hide ApplyLinked, ApplyPatch, Erase;
    if patches != [] {
      ApplyErased(cs, t, patches[0]);
      var r := ApplyLinked(cs, t, patches[0]);
      if r.Done? {
        ApplyAllErased(cs, r.tree, patches[1..]);
      }
    }
  }
}
