/** What `create_patches` and `generate_merge_patch` leave of the trees they read: objects that are
    met in both are sorted in place, and what their lists cache is not kept up. */
module LinkedCreate {
  import opened Options
  import opened Strings
  import opened Sort
  import opened Json
  import opened JsonEquality
  import opened JsonPatch
  import opened ChildList
  import opened LinkedJson

  function Created(cs: bool, t: Tree, to: Json): (r: Tree)
    decreases t, 1, 0
  {
    match t
    case Leaf(_) => t
    case ArrayNode(es, tail) => if to.Array? then ArrayNode(CreatedItems(cs, es, to.items, t), tail) else t
    case ObjectNode(fs, tail) =>
      if !to.Object? then t
      else
        var l := SortFields(cs, List(fs, tail));
        SortedInside(cs, t);
        ObjectNode(CreatedFields(cs, l.items, SortMembers(cs, to.members), t), l.tail)
  }

  function CreatedItems(cs: bool, es: seq<Tree>, ys: seq<Json>, ghost parent: Tree): (r: seq<Tree>)
    requires forall i :: 0 <= i < |es| ==> es[i] < parent
    ensures |r| == |es|
    decreases parent, 0, |es|
  {
    if es == [] || ys == [] then es
    else [Created(cs, es[0], ys[0])] + CreatedItems(cs, es[1..], ys[1..], parent)
  }

  function CreatedFields(cs: bool, fs: seq<Field>, ys: seq<Member>, ghost parent: Tree): (r: seq<Field>)
    requires Inside(fs, parent)
    ensures |r| == |fs| && forall i :: 0 <= i < |fs| ==> r[i].key == fs[i].key
    decreases parent, 0, |fs| + |ys|
  {
    if fs == [] || ys == [] then fs
    else
      var diff := Compare(cs, fs[0].key, ys[0].key);
      if diff > 0 then CreatedFields(cs, fs, ys[1..], parent)
      else
        [if diff < 0 then fs[0] else Field(fs[0].key, Created(cs, fs[0].tree, ys[0].value))]
        + CreatedFields(cs, fs[1..], if diff < 0 then ys else ys[1..], parent)
  }

  /** The trees keep their values. */
  lemma {:induction false} CreatedKeeps(cs: bool, t: Tree, to: Json)
    requires WellFormed(cs, Erase(t))
    ensures WellFormed(cs, Erase(Created(cs, t, to))) && Norm(cs, Erase(Created(cs, t, to))) == Norm(cs, Erase(t))
    decreases t, 1, 0
  {
    match t {
      case Leaf(_) =>
      case ArrayNode(es, _) => if to.Array? { CreatedArrayKeeps(cs, t, to); }
      case ObjectNode(_, _) => if to.Object? { CreatedObjectKeeps(cs, t, to); }
    }
  }

  lemma {:induction false} CreatedArrayKeeps(cs: bool, t: Tree, to: Json)
    requires WellFormed(cs, Erase(t)) && t.ArrayNode? && to.Array?
    ensures WellFormed(cs, Erase(Created(cs, t, to))) && Norm(cs, Erase(Created(cs, t, to))) == Norm(cs, Erase(t))
    decreases t, 0, |t.elements| + 1
  {
    var es := t.elements;
    assert forall i :: 0 <= i < |es| ==> EraseAll(es)[i] == Erase(es[i]);
    CreatedItemsKeep(cs, es, to.items, t);
    assert NormItems(cs, EraseAll(CreatedItems(cs, es, to.items, t))) == NormItems(cs, EraseAll(es));
  }

  lemma {:induction false} CreatedObjectKeeps(cs: bool, t: Tree, to: Json)
    requires WellFormed(cs, Erase(t)) && t.ObjectNode? && to.Object?
    ensures WellFormed(cs, Erase(Created(cs, t, to))) && Norm(cs, Erase(Created(cs, t, to))) == Norm(cs, Erase(t))
    decreases t, 0, |t.fields| + |to.members| + 1
  {
    hide SortFields, SortMembers, CreatedFields, CreatedItems, Created;
    var l, ys := SortFields(cs, List(t.fields, t.tail)), SortMembers(cs, to.members);
    SortedInside(cs, t);
    SourceSorted(cs, cs, List(t.fields, t.tail));
    CreatedFieldsKeep(cs, l.items, ys, t);
    SameNorms(cs, EraseFields(l.items), EraseFields(CreatedFields(cs, l.items, ys, t)));
    CreatedObject(cs, t, to);
  }

  lemma CreatedObject(cs: bool, t: Tree, to: Json)
    requires t.ObjectNode? && to.Object?
    ensures
      var l := SortFields(cs, List(t.fields, t.tail));
      Inside(l.items, t)
      && Erase(Created(cs, t, to)) == Object(EraseFields(CreatedFields(cs, l.items, SortMembers(cs, to.members), t)))
  {
    hide CreatedFields, SortFields, SortMembers;
    SortedInside(cs, t);
  }

  lemma {:induction false} CreatedItemsKeep(cs: bool, es: seq<Tree>, ys: seq<Json>, parent: Tree)
    requires forall i :: 0 <= i < |es| ==> es[i] < parent && WellFormed(cs, Erase(es[i]))
    ensures
      var r := CreatedItems(cs, es, ys, parent);
      forall i :: 0 <= i < |es| ==> WellFormed(cs, Erase(r[i])) && Norm(cs, Erase(r[i])) == Norm(cs, Erase(es[i]))
    decreases parent, 0, |es|
  {
    hide WellFormed, Norm, Erase, Created;
    if es != [] && ys != [] {
      CreatedKeeps(cs, es[0], ys[0]);
      CreatedItemsKeep(cs, es[1..], ys[1..], parent);
      assert forall i :: 1 <= i < |es| ==> es[i] == es[1..][i - 1];
    }
  }

  lemma {:induction false} CreatedFieldsKeep(cs: bool, fs: seq<Field>, ys: seq<Member>, parent: Tree)
    requires Inside(fs, parent) && forall i :: 0 <= i < |fs| ==> WellFormed(cs, Erase(fs[i].tree))
    ensures
      var r := CreatedFields(cs, fs, ys, parent);
      forall i :: 0 <= i < |fs| ==>
        WellFormed(cs, Erase(r[i].tree)) && Norm(cs, Erase(r[i].tree)) == Norm(cs, Erase(fs[i].tree))
    decreases parent, 0, |fs| + |ys|
  {
    hide WellFormed, Norm, Erase, Created, Compare;
    if fs != [] && ys != [] {
      var diff := Compare(cs, fs[0].key, ys[0].key);
      if diff > 0 {
        CreatedFieldsKeep(cs, fs, ys[1..], parent);
      } else {
        if diff == 0 { CreatedKeeps(cs, fs[0].tree, ys[0].value); }
        CreatedFieldsKeep(cs, fs[1..], if diff < 0 then ys else ys[1..], parent);
        assert forall i :: 1 <= i < |fs| ==> fs[i] == fs[1..][i - 1];
      }
    }
  }

  // ---------------------------------------------------------------------------
  // generate_merge_patch

  function MadeFrom(g: bool, t: Tree, to: Json): (r: Tree)
    decreases Height(Erase(t)), 1, 0
  {
    if !t.ObjectNode? || !to.Object? then t
    else
      var l := SortFields(g, List(t.fields, t.tail));
      SortFieldsErased(g, List(t.fields, t.tail));
      SortedBounded(g, Erase(t));
      ObjectNode(MadeFields(g, l.items, SortMembers(g, to.members), Height(Erase(t))), l.tail)
  }

  /** The walk by `strcmp`; members met are compared, and those that differ are walked themselves. */
  function MadeFields(g: bool, fs: seq<Field>, ys: seq<Member>, ghost h: nat): (r: seq<Field>)
    requires Bounded(EraseFields(fs), h)
    ensures |r| == |fs| && forall i :: 0 <= i < |fs| ==> r[i].key == fs[i].key
    decreases h, 0, |fs| + |ys|
  {
    if fs == [] || ys == [] then fs
    else
      var diff := Compare(true, fs[0].key, ys[0].key);
      assert EraseFields(fs)[1..] == EraseFields(fs[1..]);
      assert Height(EraseFields(fs)[0].value) < h;
      if diff > 0 then MadeFields(g, fs, ys[1..], h)
      else if diff < 0 then [fs[0]] + MadeFields(g, fs[1..], ys, h)
      else [Field(fs[0].key, MadeChild(g, fs[0].tree, ys[0].value))] + MadeFields(g, fs[1..], ys[1..], h)
  }

  function MadeChild(g: bool, t: Tree, y: Json): Tree
    decreases Height(Erase(t)), 2, 0
  {
    LeftTreeErased(g, t, y);
    LeftHeight(g, Erase(t), y);
    if CompareJson(g, Erase(t), y) then LeftTree(g, t, y)
    else MadeFrom(false, LeftTree(g, t, y), Left(g, y, Erase(t)))
  }

  lemma {:induction false} MadeKeeps(cs: bool, g: bool, t: Tree, to: Json)
    requires WellFormed(cs, Erase(t))
    ensures WellFormed(cs, Erase(MadeFrom(g, t, to))) && Norm(cs, Erase(MadeFrom(g, t, to))) == Norm(cs, Erase(t))
    decreases Height(Erase(t)), 1, 0
  {
    hide SortFields, SortMembers, MadeFields;
    if t.ObjectNode? && to.Object? {
      var l, ys := SortFields(g, List(t.fields, t.tail)), SortMembers(g, to.members);
      SortFieldsErased(g, List(t.fields, t.tail));
      SortedBounded(g, Erase(t));
      SourceSorted(cs, g, List(t.fields, t.tail));
      MadeFieldsKeep(cs, g, l.items, ys, Height(Erase(t)));
      SameNorms(cs, EraseFields(l.items), EraseFields(MadeFields(g, l.items, ys, Height(Erase(t)))));
    }
  }

  lemma SourceSorted(cs: bool, g: bool, l: List<Field>)
    requires WellFormed(cs, Object(EraseFields(l.items)))
    ensures
      var fs, ms := SortFields(g, l).items, EraseFields(l.items);
      && DistinctKeys(cs, EraseFields(fs)) && NormMembers(cs, EraseFields(fs)) == NormMembers(cs, ms)
      && forall i :: 0 <= i < |fs| ==> WellFormed(cs, Erase(fs[i].tree))
  {
    hide SortFields, SortMembers;
    var fs, ms := SortFields(g, l).items, EraseFields(l.items);
    SortFieldsErased(g, l);
    SortKeepsMap(cs, g, ms);
    forall i | 0 <= i < |fs| ensures WellFormed(cs, Erase(fs[i].tree)) {
      assert EraseFields(fs)[i] in ms;
    }
  }

  ghost predicate SameValues(cs: bool, fs: seq<Field>, fs': seq<Field>) {
    |fs| == |fs'| && forall i :: 0 <= i < |fs| ==>
      WellFormed(cs, Erase(fs'[i].tree)) && Norm(cs, Erase(fs'[i].tree)) == Norm(cs, Erase(fs[i].tree))
  }

  lemma SameValuesCons(cs: bool, fs: seq<Field>, f: Field, rest: seq<Field>)
    requires fs != [] && SameValues(cs, fs[1..], rest)
    requires WellFormed(cs, Erase(f.tree)) && Norm(cs, Erase(f.tree)) == Norm(cs, Erase(fs[0].tree))
    ensures SameValues(cs, fs, [f] + rest)
  {
    hide WellFormed, Norm, Erase;
    assert forall i :: 1 <= i < |fs| ==> fs[i] == fs[1..][i - 1];
  }

  lemma SameSelf(cs: bool, fs: seq<Field>)
    requires forall i :: 0 <= i < |fs| ==> WellFormed(cs, Erase(fs[i].tree))
    ensures SameValues(cs, fs, fs)
  {
  }

  lemma {:induction false} MadeFieldsKeep(cs: bool, g: bool, fs: seq<Field>, ys: seq<Member>, h: nat)
    requires Bounded(EraseFields(fs), h) && forall i :: 0 <= i < |fs| ==> WellFormed(cs, Erase(fs[i].tree))
    ensures SameValues(cs, fs, MadeFields(g, fs, ys, h))
    decreases h, 0, |fs| + |ys|
  {
    hide WellFormed, Norm, Erase, MadeChild, Compare, SameValues;
    SameSelf(cs, fs);
    if fs != [] && ys != [] {
      var diff := Compare(true, fs[0].key, ys[0].key);
      assert EraseFields(fs)[1..] == EraseFields(fs[1..]);
      assert Height(EraseFields(fs)[0].value) < h;
      if diff > 0 {
        MadeFieldsKeep(cs, g, fs, ys[1..], h);
      } else if diff < 0 {
        MadeFieldsKeep(cs, g, fs[1..], ys, h);
        SameValuesCons(cs, fs, fs[0], MadeFields(g, fs[1..], ys, h));
      } else {
        MadeChildKeeps(cs, g, fs[0].tree, ys[0].value);
        MadeFieldsKeep(cs, g, fs[1..], ys[1..], h);
        SameValuesCons(cs, fs, Field(fs[0].key, MadeChild(g, fs[0].tree, ys[0].value)),
          MadeFields(g, fs[1..], ys[1..], h));
      }
    }
  }

  lemma {:induction false} MadeChildKeeps(cs: bool, g: bool, t: Tree, y: Json)
    requires WellFormed(cs, Erase(t))
    ensures WellFormed(cs, Erase(MadeChild(g, t, y))) && Norm(cs, Erase(MadeChild(g, t, y))) == Norm(cs, Erase(t))
    decreases Height(Erase(t)), 2, 0
  {
    hide WellFormed, Norm, LeftTree, Left;
    LeftTreeErased(g, t, y);
    LeftHeight(g, Erase(t), y);
    LeftKeeps(cs, g, Erase(t), y);
    MadeKeeps(cs, false, LeftTree(g, t, y), Left(g, y, Erase(t)));
  }
}
