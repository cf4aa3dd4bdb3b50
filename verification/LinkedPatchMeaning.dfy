/** The meaning of the operations of a JSON Patch for trees as they stand in memory. */
module LinkedPatchMeaning {
  import opened Options
  import opened Strings
  import opened Json
  import opened JsonPointer
  import opened JsonPatch
  import opened JsonPatchMeaning
  import opened ChildList
  import opened LinkedJson
  import opened LinkedPatch
  import opened LinkedPatchPaths

  /** A request that damages no list and loses no child has been carried out as it is meant. */
  lemma TreeMeans(cs: bool, t: Tree, patch: Json, q: Request)
    requires WellFormed(cs, Erase(t)) && Asks(cs, patch, q) && Proper(cs, q)
    ensures
      var o := ApplyLinked(cs, t, patch);
      o.Done? ==> CarriedOut(cs, Erase(t), q, Applied(o.status, Erase(o.tree)))
  {
    hide ApplyLinked, ApplyPatch, CarriedOut, Asks, Proper;
    ApplyErased(cs, t, patch);
    PatchMeans(cs, Erase(t), patch, q);
  }

  // ---------------------------------------------------------------------------
  // A tree that caches nothing

  predicate Bare(t: Tree)
    decreases t
  {
    match t
    case Leaf(_) => true
    case ArrayNode(es, tail) => tail == Unset && forall i :: 0 <= i < |es| ==> Bare(es[i])
    case ObjectNode(fs, tail) => tail == Unset && forall i :: 0 <= i < |fs| ==> Bare(fs[i].tree)
  }

  lemma {:induction false} BareFresh(j: Json)
    ensures Bare(Fresh(j))
    decreases j
  {
    match j {
      case Array(items) =>
        forall i | 0 <= i < |items| ensures Bare(Fresh(items[i])) { BareFresh(items[i]); }
      case Object(ms) =>
        forall i | 0 <= i < |ms| ensures Bare(Fresh(ms[i].value)) { BareFresh(ms[i].value); }
      case _ =>
    }
  }

  lemma BareChild(t: Tree, i: nat, c: Tree)
    requires Bare(t) && HasChild(t, i)
    ensures Bare(ChildOf(t, i)) && (Bare(c) ==> Bare(WithChild(t, i, c)))
  {
    hide Erase;
  }

  lemma {:induction false} BareAt(cs: bool, t: Tree, pointer: string, v: Tree)
    requires Bare(t) && GetTree(cs, t, pointer).Some?
    ensures Bare(GetTree(cs, t, pointer).value) && (Bare(v) ==> Bare(PutTree(cs, t, pointer, v)))
    decreases |pointer|
  {
    hide Bare, ChildOf, WithChild;
    if JsonPointer.At(pointer, 0) == '/' {
      GetStep(cs, t, pointer, v);
      var i, rest := Step(cs, Erase(t), pointer[1..]).value, SkipToken(pointer[1..]);
      BareChild(t, i, t);
      BareAt(cs, ChildOf(t, i), rest, v);
      BareChild(t, i, PutTree(cs, ChildOf(t, i), rest, v));
    }
  }

  lemma BareLists<T>(l: List<T>, i: nat, x: T)
    requires l.tail == Unset
    ensures i < |l.items| ==> Detach(l, i) == Some(List(RemoveAt(l.items, i), Unset))
    ensures Grow(l, x).Whole?
  {
  }

  lemma BareTake(parent: Tree, child: string)
    requires Bare(parent)
    ensures var r := TakeFrom(parent, child); !r.Broken? && (r.Taken? ==> Bare(r.item) && Bare(r.rest))
  {
    hide Detach, Erase;
    match parent {
      case Leaf(_) =>
      case ArrayNode(es, tail) =>
        var k := DecodeArrayIndex(child);
        if k.Some? && k.value < |es| { BareLists(Elements(parent), k.value, parent); }
      case ObjectNode(fs, tail) =>
        var k := Find(false, EraseFields(fs), child);
        if k.Some? { BareLists(FieldList(parent), k.value, fs[k.value]); }
    }
  }

  lemma BareTakePath(cs: bool, t: Tree, path: string)
    requires Bare(t)
    ensures var r := TakePath(cs, t, path); !r.Broken? && (r.Taken? ==> Bare(r.rest))
  {
    hide TakeFrom, Bare, GetTree, PutTree;
    if LastSlash(path).Some? {
      var i := LastSlash(path).value;
      if GetTree(cs, t, path[..i]).Some? {
        BareAt(cs, t, path[..i], t);
        var r := TakeFrom(GetTree(cs, t, path[..i]).value, DecodePointerInplace(path[i + 1..]));
        BareTake(GetTree(cs, t, path[..i]).value, DecodePointerInplace(path[i + 1..]));
        if r.Taken? { BareAt(cs, t, path[..i], r.rest); }
      }
    }
  }

  lemma BareInsert(l: List<Tree>, k: nat, v: Tree, back: bool)
    requires k < |l.items|
    ensures Insert(l, k, v, back).Some?
  {
  }

  lemma BareGrown(l: List<Tree>, v: Tree)
    requires l.tail == Unset
    ensures Grown(Grow(l, v)).Done?
  {
    BareLists(l, 0, v);
  }

  lemma BareSet(cs: bool, l: List<Field>, key: string, v: Tree)
    requires l.tail == Unset
    ensures SetField(cs, l, key, v).Whole?
  {
    hide Detach, Grow, Find, RemoveAt, Erase, EraseFields;
    var m, k := Field(key, v), Find(cs, EraseFields(l.items), key);
    if k.Some? {
      BareLists(l, k.value, m);
      BareLists(Detach(l, k.value).value, 0, m);
    } else {
      BareLists(l, 0, m);
    }
  }

  lemma BareAdd(cs: bool, parent: Tree, child: string, v: Tree, back: bool)
    requires Bare(parent)
    ensures AddTo(cs, parent, child, v, back).Done?
  {
    hide SetField, Insert, Grow, Grown, Erase;
    match parent {
      case Leaf(_) =>
      case ArrayNode(es, tail) =>
        BareGrown(Elements(parent), v);
        var k := DecodeArrayIndex(child);
        if k.Some? && k.value < |es| { BareInsert(Elements(parent), k.value, v, back); }
      case ObjectNode(fs, tail) => BareSet(cs, FieldList(parent), child, v);
    }
  }

  lemma BareAddTree(cs: bool, t: Tree, path: string, v: Tree, back: bool)
    requires Bare(t)
    ensures AddTree(cs, t, path, v, back).Done?
  {
    hide AddTo, Bare, GetTree, PutTree;
    if LastSlash(path).Some? {
      var i := LastSlash(path).value;
      if GetTree(cs, t, path[..i]).Some? {
        BareAt(cs, t, path[..i], t);
        BareAdd(cs, GetTree(cs, t, path[..i]).value, DecodePointerInplace(path[i + 1..]), v, back);
      }
    }
  }

  lemma BareAddCopy(cs: bool, t: Tree, path: string, value: Option<Json>)
    requires Bare(t)
    ensures AddCopy(cs, t, path, value).Done?
  {
    hide AddTree, Bare;
    if value.Some? { BareAddTree(cs, t, path, Fresh(value.value), false); }
  }

  lemma BareTransfer(cs: bool, t: Tree, path: string, from: Option<Json>, move: bool)
    requires Bare(t)
    ensures Transfer(cs, t, path, from, move).Done?
  {
    hide AddTree, TakePath, Bare, GetTree, Duplicate, GoesBack;
    if StringOf(from).Some? {
      var source := StringOf(from).value;
      BareTakePath(cs, t, source);
      if move {
        var r := TakePath(cs, t, source);
        if r.Taken? { BareAddTree(cs, r.rest, path, r.item, GoesBack(cs, t, source, r.rest, path)); }
      } else if GetTree(cs, t, source).Some? {
        BareAddTree(cs, t, path, Duplicate(GetTree(cs, t, source).value), false);
      }
    }
  }

  /** No single operation harms a tree that caches nothing. */
  lemma BareUnharmed(cs: bool, t: Tree, patch: Json)
    requires Bare(t)
    ensures ApplyLinked(cs, t, patch).Done?
  {
    hide AddCopy, TakePath, Transfer, TestTree, Bare, DecodePatchOperation, GetObjectItem;
    var p, value, from := StringOf(GetObjectItem(cs, patch, "path")), GetObjectItem(cs, patch, "value"),
      GetObjectItem(cs, patch, "from");
    if p.Some? {
      BareTakePath(cs, t, p.value);
      BareAddCopy(cs, t, p.value, value);
      if TakePath(cs, t, p.value).Taken? { BareAddCopy(cs, TakePath(cs, t, p.value).rest, p.value, value); }
      BareTransfer(cs, t, p.value, from, false);
      BareTransfer(cs, t, p.value, from, true);
      TestDone(cs, t, p.value, value);
    }
  }

  lemma TestDone(cs: bool, t: Tree, path: string, value: Option<Json>)
    ensures TestTree(cs, t, path, value).Done?
  {
  }

  /** One operation on a parsed document is carried out as it is meant. */
  lemma ParsedMeans(cs: bool, doc: Json, patch: Json, q: Request)
    requires WellFormed(cs, doc) && Asks(cs, patch, q) && Proper(cs, q)
    ensures
      var o := ApplyLinked(cs, Fresh(doc), patch);
      o.Done? && CarriedOut(cs, doc, q, Applied(o.status, Erase(o.tree)))
  {
    hide ApplyLinked, CarriedOut, Asks, Proper, Fresh, Bare;
    EraseFresh(doc);
    BareFresh(doc);
    BareUnharmed(cs, Fresh(doc), patch);
    TreeMeans(cs, Fresh(doc), patch, q);
  }

  // ---------------------------------------------------------------------------
  // Any tree

  /** Whatever the lists cache: a copy has the outcome of adding the value that is at `from`. */
  lemma CopyIsAdd(cs: bool, t: Tree, copy: Json, add: Json, from: string, path: string)
    requires path != [] && GetTree(cs, t, from).Some?
    requires GetObjectItem(cs, copy, "op") == Some(String("copy"))
    requires GetObjectItem(cs, copy, "path") == GetObjectItem(cs, add, "path") == Some(String(path))
    requires GetObjectItem(cs, copy, "from") == Some(String(from))
    requires GetObjectItem(cs, add, "op") == Some(String("add"))
    requires GetObjectItem(cs, add, "value") == GetItem(cs, Erase(t), from)
    ensures ApplyLinked(cs, t, copy) == ApplyLinked(cs, t, add)
  {
    hide AddTree, GetTree, Erase, GetObjectItem, Duplicate, Fresh;
    DuplicateIsFresh(GetTree(cs, t, from).value);
  }

  /** The same harm, status and value. */
  predicate Alike(a: Outcome, b: Outcome) {
    match a
    case Damaged => b.Damaged?
    case Lost(status, t) => b.Lost? && b.status == status && Erase(b.tree) == Erase(t)
    case Done(status, t) => b.Done? && b.status == status && Erase(b.tree) == Erase(t)
  }

  lemma GrowAlike(l: List<Tree>, v: Tree, w: Tree)
    requires Erase(v) == Erase(w)
    ensures Alike(Grown(Grow(l, v)), Grown(Grow(l, w)))
  {
  }

  lemma InsertAlike(l: List<Tree>, k: nat, v: Tree, w: Tree)
    requires Erase(v) == Erase(w) && k < |l.items|
    ensures Alike(Done(0, ArrayOf(Insert(l, k, v, false).value)), Done(0, ArrayOf(Insert(l, k, w, false).value)))
  {
    InsertErased(l, k, v, false);
    InsertErased(l, k, w, false);
  }

  function Set(g: Growth<Field>): Outcome {
    match g
    case Ruined => Damaged
    case Short(l) => Lost(0, ObjectOf(l))
    case Whole(l) => Done(0, ObjectOf(l))
  }

  lemma SetAlike(l: List<Field>, key: string, v: Tree, w: Tree)
    requires Erase(v) == Erase(w)
    ensures Alike(Set(Grow(l, Field(key, v))), Set(Grow(l, Field(key, w))))
  {
  }

  lemma AddToAlike(cs: bool, parent: Tree, child: string, v: Tree, w: Tree)
    requires Erase(v) == Erase(w)
    ensures Alike(AddTo(cs, parent, child, v, false), AddTo(cs, parent, child, w, false))
  {
    hide Grow, Insert, Erase, Detach;
    match parent {
      case Leaf(_) =>
      case ArrayNode(es, _) =>
        GrowAlike(Elements(parent), v, w);
        var k := DecodeArrayIndex(child);
        if k.Some? && k.value < |es| { InsertAlike(Elements(parent), k.value, v, w); }
      case ObjectNode(_, _) =>
        var l := FieldList(parent);
        var rest := match Find(cs, EraseFields(l.items), child) case None => Some(l) case Some(k) => Detach(l, k);
        if rest.Some? { SetAlike(rest.value, child, v, w); }
    }
  }

  lemma AddTreeAlike(cs: bool, t: Tree, path: string, v: Tree, w: Tree)
    requires Erase(v) == Erase(w)
    ensures Alike(AddTree(cs, t, path, v, false), AddTree(cs, t, path, w, false))
  {
    hide AddTo, Erase;
    if LastSlash(path).Some? {
      var i := LastSlash(path).value;
      if GetTree(cs, t, path[..i]).Some? {
        AddToAlike(cs, GetTree(cs, t, path[..i]).value, DecodePointerInplace(path[i + 1..]), v, w);
      }
    }
  }

  lemma RemoveApplied(cs: bool, t: Tree, remove: Json, from: string)
    requires from != []
    requires GetObjectItem(cs, remove, "op") == Some(String("remove"))
    requires GetObjectItem(cs, remove, "path") == Some(String(from))
    ensures ApplyLinked(cs, t, remove) ==
      match TakePath(cs, t, from) case Broken => Damaged case Missing => Done(13, t) case Taken(_, rest) => Done(0,
        rest)
  {
    hide AddTree, GetTree, Erase, GetObjectItem, Fresh, TakePath;
  }

  lemma AddApplied(cs: bool, t: Tree, add: Json, path: string)
    requires path != [] && GetObjectItem(cs, add, "op") == Some(String("add"))
    requires GetObjectItem(cs, add, "path") == Some(String(path)) && GetObjectItem(cs, add, "value").Some?
    ensures ApplyLinked(cs, t, add) == AddTree(cs, t, path, Fresh(GetObjectItem(cs, add, "value").value), false)
  {
    hide AddTree, GetTree, Erase, GetObjectItem, Fresh, TakePath;
  }

  lemma MoveApplied(cs: bool, t: Tree, move: Json, from: string, path: string)
    requires GetObjectItem(cs, move, "op") == Some(String("move"))
    requires GetObjectItem(cs, move, "path") == Some(String(path))
    requires GetObjectItem(cs, move, "from") == Some(String(from))
    ensures ApplyLinked(cs, t, move) == match TakePath(cs, t, from)
      case Broken => Damaged
      case Missing => Done(5, t)
      case Taken(item, rest) => AddTree(cs, rest, path, item, GoesBack(cs, t, from, rest, path))
  {
    hide AddTree, GetTree, Erase, GetObjectItem, Fresh, TakePath, GoesBack;
  }

  /** A move has the outcome of removing the item and adding its value, unless the item goes back to
      an array that still caches it. */
  lemma MoveIsRemoveThenAdd(cs: bool, t: Tree, move: Json, remove: Json, add: Json, from: string, path: string)
    requires path != [] && from != [] && GetTree(cs, t, from).Some?
    requires GetObjectItem(cs, move, "op") == Some(String("move"))
    requires GetObjectItem(cs, move, "path") == GetObjectItem(cs, add, "path") == Some(String(path))
    requires GetObjectItem(cs, move, "from") == Some(String(from)) == GetObjectItem(cs, remove, "path")
    requires GetObjectItem(cs, remove, "op") == Some(String("remove"))
    requires GetObjectItem(cs, add, "op") == Some(String("add"))
    requires GetObjectItem(cs, add, "value") == DetachPath(cs, Erase(t), from).0
    ensures
      var r := ApplyLinked(cs, t, remove);
      if !r.Done? then ApplyLinked(cs, t, move).Damaged?
      else if r.status != 0 then ApplyLinked(cs, t, move) == Done(5, t)
      else !GoesBack(cs, t, from, r.tree, path) ==> Alike(ApplyLinked(cs, t, move), ApplyLinked(cs, r.tree, add))
  {
    hide AddTree, GetTree, Erase, GetObjectItem, Fresh, TakePath, DetachPath, Alike, GoesBack, ApplyLinked;
    RemoveApplied(cs, t, remove, from);
    MoveApplied(cs, t, move, from, path);
    TakePathErased(cs, t, from);
    var r := TakePath(cs, t, from);
    if r.Taken? {
      AddApplied(cs, r.rest, add, path);
      EraseFresh(Erase(r.item));
      AddTreeAlike(cs, r.rest, path, r.item, Fresh(Erase(r.item)));
    }
  }
}
