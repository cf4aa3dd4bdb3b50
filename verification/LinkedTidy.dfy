/** Trees whose lists cache nothing, or the last child, or one that is gone: what the parser makes
    is of this kind.  Adding, removing and replacing keep to it, and then no child is ever lost. */
module LinkedTidy {
  import opened Options
  import opened Strings
  import opened Json
  import opened JsonPointer
  import opened JsonPatch
  import opened JsonPatchPaths
  import opened ChildList
  import opened LinkedJson
  import opened LinkedPatch
  import opened LinkedPatchPaths

  predicate TidyList<T>(l: List<T>) {
    l.items == [] || l.tail == Unset || l.tail == Gone || CachesLast(l)
  }

  predicate Tidy(t: Tree)
    decreases t
  {
    match t
    case Leaf(_) => true
    case ArrayNode(es, tail) => TidyList(List(es, tail)) && forall i :: 0 <= i < |es| ==> Tidy(es[i])
    case ObjectNode(fs, tail) => TidyList(List(fs, tail)) && forall i :: 0 <= i < |fs| ==> Tidy(fs[i].tree)
  }

  lemma TidyLists<T>(l: List<T>, i: nat, x: T)
    requires TidyList(l)
    ensures i < |l.items| && Detach(l, i).Some? ==> TidyList(Detach(l, i).value)
    ensures !Grow(l, x).Short? && (Grow(l, x).Whole? ==> TidyList(Grow(l, x).l))
    ensures i < |l.items| ==> TidyList(Insert(l, i, x, false).value)
  {
  }

  lemma {:induction false} TidyFresh(j: Json)
    ensures Tidy(Fresh(j))
    decreases j
  {
    match j {
      case Array(items) =>
        forall i | 0 <= i < |items| ensures Tidy(Fresh(items[i])) { TidyFresh(items[i]); }
      case Object(ms) =>
        forall i | 0 <= i < |ms| ensures Tidy(Fresh(ms[i].value)) { TidyFresh(ms[i].value); }
      case _ =>
    }
  }

  lemma TidyChild(t: Tree, i: nat, c: Tree)
    requires Tidy(t) && HasChild(t, i)
    ensures Tidy(ChildOf(t, i)) && (Tidy(c) ==> Tidy(WithChild(t, i, c)))
  {
    hide Erase;
  }

  lemma {:induction false} TidyAt(cs: bool, t: Tree, pointer: string, v: Tree)
    requires Tidy(t) && GetTree(cs, t, pointer).Some?
    ensures Tidy(GetTree(cs, t, pointer).value) && (Tidy(v) ==> Tidy(PutTree(cs, t, pointer, v)))
    decreases |pointer|
  {
    hide Tidy, ChildOf, WithChild;
    if JsonPointer.At(pointer, 0) == '/' {
      GetStep(cs, t, pointer, v);
      var i, rest := Step(cs, Erase(t), pointer[1..]).value, SkipToken(pointer[1..]);
      TidyChild(t, i, t);
      TidyAt(cs, ChildOf(t, i), rest, v);
      TidyChild(t, i, PutTree(cs, ChildOf(t, i), rest, v));
    }
  }

  lemma TidyTakeFrom(parent: Tree, child: string)
    requires Tidy(parent)
    ensures var r := TakeFrom(parent, child); r.Taken? ==> Tidy(r.rest)
  {
    hide Detach;
    match parent {
      case Leaf(_) =>
      case ArrayNode(es, tail) =>
        var k := DecodeArrayIndex(child);
        if k.Some? && k.value < |es| {
          TidyLists(Elements(parent), k.value, parent);
          DetachItems(Elements(parent), k.value);
        }
      case ObjectNode(fs, tail) =>
        var k := Find(false, EraseFields(fs), child);
        if k.Some? {
          TidyLists(FieldList(parent), k.value, fs[k.value]);
          DetachItems(FieldList(parent), k.value);
        }
    }
  }

  lemma DetachItems<T>(l: List<T>, i: nat)
    requires i < |l.items|
    ensures Detach(l, i).Some? ==> Detach(l, i).value.items == RemoveAt(l.items, i)
  {
  }

  lemma GrowItems<T>(l: List<T>, x: T)
    ensures Grow(l, x).Whole? ==> Grow(l, x).l.items == l.items + [x]
  {
  }

  lemma TidyAddTo(cs: bool, parent: Tree, child: string, v: Tree)
    requires Tidy(parent) && Tidy(v)
    ensures var o := AddTo(cs, parent, child, v, false); !o.Lost? && (o.Done? ==> Tidy(o.tree))
  {
    hide Detach, Grow, Erase, Find, Tidy, SetField;
    match parent {
      case Leaf(_) =>
      case ArrayNode(es, tail) =>
        TidyElements(Elements(parent), v);
        var k := DecodeArrayIndex(child);
        if k.Some? && k.value < |es| { TidyInserted(Elements(parent), k.value, v); }
      case ObjectNode(fs, tail) =>
        TidySet(cs, FieldList(parent), child, v);
    }
  }

  lemma TidyElements(l: List<Tree>, v: Tree)
    requires Tidy(ArrayOf(l)) && Tidy(v)
    ensures var g := Grow(l, v); !g.Short? && (g.Whole? ==> Tidy(ArrayOf(g.l)))
  {
    hide Grow;
    TidyLists(l, 0, v);
    GrowItems(l, v);
  }

  lemma TidyInserted(l: List<Tree>, k: nat, v: Tree)
    requires Tidy(ArrayOf(l)) && Tidy(v) && k < |l.items|
    ensures Tidy(ArrayOf(Insert(l, k, v, false).value))
  {
    TidyLists(l, k, v);
  }

  lemma TidyGrown(l: List<Field>, m: Field)
    requires Tidy(ObjectOf(l)) && Tidy(m.tree)
    ensures var g := Grow(l, m); !g.Short? && (g.Whole? ==> Tidy(ObjectOf(g.l)))
  {
    hide Grow;
    TidyLists(l, 0, m);
    GrowItems(l, m);
  }

  lemma TidyDetached(l: List<Field>, k: nat)
    requires Tidy(ObjectOf(l)) && k < |l.items|
    ensures Detach(l, k).Some? ==> Tidy(ObjectOf(Detach(l, k).value))
  {
    hide Detach;
    TidyLists(l, k, l.items[k]);
    DetachItems(l, k);
  }

  lemma TidySet(cs: bool, l: List<Field>, key: string, v: Tree)
    requires Tidy(ObjectOf(l)) && Tidy(v)
    ensures var g := SetField(cs, l, key, v); !g.Short? && (g.Whole? ==> Tidy(ObjectOf(g.l)))
  {
    hide Detach, Grow, Erase, Find, Tidy;
    var k := Find(cs, EraseFields(l.items), key);
    if k.Some? { TidyDetached(l, k.value); }
    var rest := if k.None? then Some(l) else Detach(l, k.value);
    if rest.Some? { TidyGrown(rest.value, Field(key, v)); }
  }

  lemma TidyTakePath(cs: bool, t: Tree, path: string)
    requires Tidy(t)
    ensures var r := TakePath(cs, t, path); r.Taken? ==> Tidy(r.rest)
  {
    hide TakeFrom, Tidy, GetTree, PutTree;
    if LastSlash(path).Some? {
      var i := LastSlash(path).value;
      if GetTree(cs, t, path[..i]).Some? {
        TidyAt(cs, t, path[..i], t);
        var r := TakeFrom(GetTree(cs, t, path[..i]).value, DecodePointerInplace(path[i + 1..]));
        TidyTakeFrom(GetTree(cs, t, path[..i]).value, DecodePointerInplace(path[i + 1..]));
        if r.Taken? { TidyAt(cs, t, path[..i], r.rest); }
      }
    }
  }

  lemma TidyAddTree(cs: bool, t: Tree, path: string, v: Tree)
    requires Tidy(t) && Tidy(v)
    ensures var o := AddTree(cs, t, path, v, false); !o.Lost? && (o.Done? ==> Tidy(o.tree))
  {
    hide AddTo, Tidy, GetTree, PutTree;
    if LastSlash(path).Some? {
      var i := LastSlash(path).value;
      if GetTree(cs, t, path[..i]).Some? {
        TidyAt(cs, t, path[..i], t);
        var o := AddTo(cs, GetTree(cs, t, path[..i]).value, DecodePointerInplace(path[i + 1..]), v, false);
        TidyAddTo(cs, GetTree(cs, t, path[..i]).value, DecodePointerInplace(path[i + 1..]), v);
        if o.Done? { TidyAt(cs, t, path[..i], o.tree); }
      }
    }
  }

  lemma TidyAddCopy(cs: bool, t: Tree, path: string, value: Option<Json>)
    requires Tidy(t)
    ensures var o := AddCopy(cs, t, path, value); !o.Lost? && (o.Done? ==> Tidy(o.tree))
  {
    hide AddTree, Tidy;
    if value.Some? {
      TidyFresh(value.value);
      TidyAddTree(cs, t, path, Fresh(value.value));
    }
  }

  lemma TidyOp(cs: bool, t: Tree, op: Op)
    requires Tidy(t)
    ensures var o := OpLinked(cs, t, op); !o.Lost? && (o.Done? ==> Tidy(o.tree))
  {
    hide AddCopy, TakePath, Transfer, TestTree;
    TidyTakePath(cs, t, op.path);
    TidyAddCopy(cs, t, op.path, op.value);
    if TakePath(cs, t, op.path).Taken? { TidyAddCopy(cs, TakePath(cs, t, op.path).rest, op.path, op.value); }
  }

  /** A list of such operations damages a list or leaves all of them whole. */
  lemma {:induction false} TidyOps(cs: bool, t: Tree, ops: seq<Op>)
    requires Tidy(t)
    ensures var o := OpsLinked(cs, t, ops); !o.Lost? && (o.Done? ==> Tidy(o.tree))
    decreases |ops|
  {
    hide OpLinked, Tidy;
    if ops != [] {
      TidyOp(cs, t, ops[0]);
      var r := OpLinked(cs, t, ops[0]);
      if r.Done? { TidyOps(cs, r.tree, ops[1..]); }
    }
  }
}
