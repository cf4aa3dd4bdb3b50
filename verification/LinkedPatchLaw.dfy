/** The law of JSON Patch for the lists the code has: what the patches made from `from` and `to`
    do to a tree in memory. */
module LinkedPatchLaw {
  import opened Options
  import opened Strings
  import opened Sort
  import opened Json
  import opened JsonEquality
  import opened JsonPointer
  import opened JsonPatch
  import opened JsonPatchPaths
  import opened JsonTargets
  import opened JsonPatchRoundTrip
  import opened ChildList
  import opened Touches
  import opened LinkedJson
  import opened LinkedFields
  import opened LinkedPatch
  import opened LinkedPatchPaths
  import opened LinkedTidy
  import opened LinkedCreate
  import opened LinkedLoss

  // ---------------------------------------------------------------------------
  // When no list is damaged

  /** What the patches do to the list of an object itself: a member that is removed is taken
      out, one that is added is appended, one that is replaced is both. */
  function TouchWalk(cs: bool, xs: seq<Member>, ys: seq<Member>): seq<Touch>
    decreases |xs| + |ys|
  {
    if xs == [] && ys == [] then []
    else
      var diff := KeyOrder(cs, xs, ys);
      HeadTouches(cs, xs, ys) + TouchWalk(cs, if diff <= 0 then xs[1..] else xs, if diff >= 0 then ys[1..] else ys)
  }

  function HeadTouches(cs: bool, xs: seq<Member>, ys: seq<Member>): seq<Touch>
    requires xs != [] || ys != []
  {
    var diff := KeyOrder(cs, xs, ys);
    if diff < 0 then [Touch(FoldString(cs, xs[0].key), false)]
    else if diff > 0 then [Touch(FoldString(cs, ys[0].key), true)]
    else if Replaced(xs[0].value, ys[0].value) then [Touch(FoldString(cs, xs[0].key), true)]
    else []
  }

  predicate ReplacedAt(xs: seq<Json>, ys: seq<Json>, i: nat) {
    i < |xs| && i < |ys| && Replaced(xs[i], ys[i])
  }

  /** Something is appended: more elements, or the last one anew. */
  predicate Appends(xs: seq<Json>, ys: seq<Json>) {
    |ys| > |xs| || (xs != [] && ReplacedAt(xs, ys, |xs| - 1))
  }

  /** The list of an array stays whole.  Nothing is cached; or the first element is not taken out,
      unless it is the one cached and some others stay, and where something is appended the child
      cached is the last one by then, still in its place. */
  predicate ArrayStays(tail: Tail, xs: seq<Json>, ys: seq<Json>) {
    xs == [] ||
    match tail
    case Unset => true
    case Gone => ys != [] && !ReplacedAt(xs, ys, 0) && !Appends(xs, ys)
    case Cached(p) =>
      || (|xs| == 1 && p == 0)
      || (&& ys != [] && (ReplacedAt(xs, ys, 0) ==> p == 0)
          && (Appends(xs, ys) ==>
                if ReplacedAt(xs, ys, |xs| - 1) then p + 2 == |xs| && !ReplacedAt(xs, ys, p) else p + 1 == |xs|))
  }

  /** No list of the tree is damaged, and no child lost, by the patches made from `from` and `to`. */
  ghost predicate Unharmed(cs: bool, t: Tree, from: Json, to: Json)
    decreases from, 1, 0
  {
    Replaced(from, to) ||
    match from
    case Array(xs) => t.ArrayNode? ==>
      ArrayStays(t.tail, xs, to.items) && ItemsUnharmed(cs, t.elements, xs, to.items, from)
    case Object(ms) =>
      SortedBelow(cs, from);
      var xs, ys := SortMembers(cs, ms), SortMembers(cs, to.members);
      t.ObjectNode? ==>
        TouchAll(KeyList(cs, FieldList(t)), TouchWalk(cs, xs, ys)).Some? && WalkUnharmed(cs, t.fields, xs, ys, from)
    case _ => true
  }

  ghost predicate ItemsUnharmed(cs: bool, es: seq<Tree>, xs: seq<Json>, ys: seq<Json>, parent: Json)
    requires forall i :: 0 <= i < |xs| ==> xs[i] < parent
    decreases parent, 0, 0
  {
    forall i :: 0 <= i < |es| && i < |xs| && i < |ys| ==> Unharmed(cs, es[i], xs[i], ys[i])
  }

  /** Neither is any below a member that `from` and `to` both have. */
  ghost predicate WalkUnharmed(cs: bool, fs: seq<Field>, xs: seq<Member>, ys: seq<Member>, parent: Json)
    requires Below(xs, parent)
    decreases parent, 0, |xs| + |ys|
  {
    (xs != [] || ys != []) ==>
      var diff := KeyOrder(cs, xs, ys);
      && (diff == 0 ==> MemberUnharmed(cs, fs, xs[0], ys[0], parent))
      && WalkUnharmed(cs, fs, if diff <= 0 then xs[1..] else xs, if diff >= 0 then ys[1..] else ys, parent)
  }

  ghost predicate MemberUnharmed(cs: bool, fs: seq<Field>, x: Member, y: Member, parent: Json)
    requires x.value < parent
    decreases parent, 0, 0
  {
    var t := TreeAt(cs, fs, x.key);
    t.Some? ==> Unharmed(cs, t.value, x.value, y.value)
  }

  lemma NoWalk(cs: bool, fs: seq<Field>, parent: Json)
    ensures WalkUnharmed(cs, fs, [], [], parent)
  {
  }

  lemma WalkHead(cs: bool, fs: seq<Field>, xs: seq<Member>, ys: seq<Member>, parent: Json)
    requires Below(xs, parent) && (xs != [] || ys != [])
    ensures
      var diff := KeyOrder(cs, xs, ys);
      WalkUnharmed(cs, fs, xs, ys, parent) <==>
        && (diff == 0 ==> MemberUnharmed(cs, fs, xs[0], ys[0], parent))
        && WalkUnharmed(cs, fs, if diff <= 0 then xs[1..] else xs, if diff >= 0 then ys[1..] else ys, parent)
  {
    hide MemberUnharmed;
  }

  lemma {:induction false} WalkSame(cs: bool, fs: seq<Field>, fs': seq<Field>, xs: seq<Member>, ys: seq<Member>,
                                    parent: Json)
    requires Below(xs, parent) && SameTrees(cs, fs, fs', xs)
    ensures WalkUnharmed(cs, fs, xs, ys, parent) <==> WalkUnharmed(cs, fs', xs, ys, parent)
    decreases |xs| + |ys|
  {
    hide Unharmed, WalkUnharmed;
    if xs == [] && ys == [] {
      NoWalk(cs, fs, parent);
      NoWalk(cs, fs', parent);
    } else {
      WalkHead(cs, fs, xs, ys, parent);
      WalkHead(cs, fs', xs, ys, parent);
      var diff := KeyOrder(cs, xs, ys);
      var xs' := if diff <= 0 then xs[1..] else xs;
      assert SameTrees(cs, fs, fs', xs') by {
        forall i | 0 <= i < |xs'| ensures TreeAt(cs, fs, xs'[i].key) == TreeAt(cs, fs', xs'[i].key) {
          assert xs'[i] == xs[if diff <= 0 then i + 1 else i];
        }
      }
      WalkSame(cs, fs, fs', xs', if diff >= 0 then ys[1..] else ys, parent);
    }
  }

  // ---------------------------------------------------------------------------
  // One operation on an object

  /** How an outcome goes with the changes to the list: it is damaged when they damage it, and
      otherwise the list `l'` is left, with the members of `xs` as they were. */
  ghost predicate Matches(cs: bool, l: List<Field>, o: Outcome, us: seq<Touch>, inside: bool, l': List<Field>,
                          xs: seq<Member>) {
    && (o.Done? <==> inside && TouchAll(KeyList(cs, l), us).Some?)
    && (o.Done? && o.status == 0 ==>
          o.tree == ObjectOf(l') && TouchAll(KeyList(cs, l), us) == Some(KeyList(cs, l'))
            && SameTrees(cs, l.items, l'.items, xs))
  }

  lemma AddField(cs: bool, l: List<Field>, key: string, v: Json, xs: seq<Member>) returns (l': List<Field>)
    requires Plain(key) && Find(cs, EraseFields(l.items), key).None? && OtherKeys(cs, key, xs)
    ensures Matches(cs, l, OpsLinked(cs, ObjectOf(l), [Op("add", "/" + key, Some(v))]),
      [Touch(FoldString(cs, key), true)], true, l', xs)
  {
    hide OpsLinked, SameTrees, Append, Find;
    var m := Field(key, Fresh(v));
    AddLinked(cs, ObjectOf(l), key, v);
    KeyIndexIsFind(cs, l.items, key);
    OneTouch(KeyList(cs, l), Touch(FoldString(cs, key), true));
    AppendKeys(cs, l, m);
    l' := if Append(l, m).Some? then Append(l, m).value else l;
    AppendedItems(l, m);
    SameWhenAppended(cs, l.items, m, xs);
  }

  lemma TakeField(cs: bool, l: List<Field>, key: string, xs: seq<Member>) returns (l': List<Field>)
    requires DistinctKeys(cs, EraseFields(l.items))
    requires Find(cs, EraseFields(l.items), key).Some? && Clear(cs, EraseFields(l.items), key)
    requires OtherKeys(cs, key, xs)
    ensures
      var r := TakeFrom(ObjectOf(l), key);
      && TouchOne(KeyList(cs, l), Touch(FoldString(cs, key), false)) ==
        (if r.Taken? then Some(KeyList(cs, l')) else None)
      && !r.Missing?
      && (r.Taken? ==>
        r.rest == ObjectOf(l') && SameTrees(cs, l.items, l'.items, xs) && Find(cs, EraseFields(l'.items), key).None?)
  {
    hide SameTrees, Detach, Find;
    var f := Find(cs, EraseFields(l.items), key).value;
    KeyIndexIsFind(cs, l.items, key);
    DetachKeys(cs, l, f);
    l' := if Detach(l, f).Some? then Detach(l, f).value else l;
    SameWhenTaken(cs, l.items, key, xs);
    DetachedItems(l, f);
    TakenIsGone(cs, EraseFields(l.items), key);
  }

  lemma RemoveField(cs: bool, l: List<Field>, key: string, xs: seq<Member>) returns (l': List<Field>)
    requires DistinctKeys(cs, EraseFields(l.items)) && Plain(key)
    requires Find(cs, EraseFields(l.items), key).Some? && Clear(cs, EraseFields(l.items), key)
    requires OtherKeys(cs, key, xs)
    ensures Matches(cs, l, OpsLinked(cs, ObjectOf(l), [Op("remove", "/" + key, None)]),
      [Touch(FoldString(cs, key), false)], true, l', xs)
  {
    hide OpsLinked, SameTrees, TakeFrom, TouchOne;
    l' := TakeField(cs, l, key, xs);
    RemoveLinked(cs, ObjectOf(l), key);
    OneTouch(KeyList(cs, l), Touch(FoldString(cs, key), false));
  }

  lemma ReplaceField(cs: bool, l: List<Field>, key: string, v: Json, xs: seq<Member>) returns (l': List<Field>)
    requires DistinctKeys(cs, EraseFields(l.items)) && Plain(key)
    requires Find(cs, EraseFields(l.items), key).Some? && Clear(cs, EraseFields(l.items), key)
    requires OtherKeys(cs, key, xs)
    ensures Matches(cs, l, OpsLinked(cs, ObjectOf(l), [Op("replace", "/" + key, Some(v))]),
      [Touch(FoldString(cs, key), true)], true, l', xs)
  {
    hide OpsLinked, SameTrees, TakeFrom, TouchOne;
    var rest := TakeField(cs, l, key, xs);
    l' := rest;
    ReplaceLinked(cs, ObjectOf(l), key, v);
    OneTouch(KeyList(cs, l), Touch(FoldString(cs, key), true));
    if TakeFrom(ObjectOf(l), key).Taken? {
      l' := AddField(cs, rest, key, v, xs);
      OneTouch(KeyList(cs, rest), Touch(FoldString(cs, key), true));
      KeyIndexIsFind(cs, rest.items, key);
      TwoTouches(KeyList(cs, l), KeyList(cs, rest), FoldString(cs, key));
      if TouchOne(KeyList(cs, rest), Touch(FoldString(cs, key), true)).Some?
        { SameTwice(cs, l.items, rest.items, l'.items, xs); }
    } else {
      BrokenTouch(KeyList(cs, l), FoldString(cs, key));
    }
  }

  lemma ChangeField(cs: bool, l: List<Field>, key: string, ops: seq<Op>, xs: seq<Member>) returns (l': List<Field>)
    requires Plain(key) && Find(cs, EraseFields(l.items), key).Some?
    requires forall k :: 0 <= k < |ops| ==> Deep(ops[k])
    requires OtherKeys(cs, key, xs)
    ensures
      var c := l.items[Find(cs, EraseFields(l.items), key).value].tree;
      Matches(cs, l, OpsLinked(cs, ObjectOf(l), Under("/" + key, ops)), [], OpsLinked(cs, c, ops).Done?, l', xs)
  {
    hide OpsLinked, SameTrees, Deep;
    var f := Find(cs, EraseFields(l.items), key).value;
    OpsBelow(cs, ObjectOf(l), key, ops);
    var o := OpsLinked(cs, l.items[f].tree, ops);
    l' := l;
    if o.Done? {
      l' := List(l.items[f := l.items[f].(tree := o.tree)], l.tail);
      SameWhenSet(cs, l.items, key, o.tree, xs);
    }
  }

  // ---------------------------------------------------------------------------
  // The walk over two sorted member lists

  lemma HeadLinked(cs: bool, l: List<Field>, xs: seq<Member>, ys: seq<Member>, stale: char, parent: Json)
      returns (l': List<Field>)
    requires Walkable(cs, EraseFields(l.items), xs, ys, parent) && Below(xs, parent) && (xs != [] || ys != [])
    requires PlainMembers(xs) && PlainMembers(ys)
    requires PresentHead(cs, EraseFields(l.items), xs) && HeadClear(cs, EraseFields(l.items), xs, ys)
    requires KeyOrder(cs, xs, ys) == 0 ==>
      var c := l.items[Find(cs, EraseFields(l.items), xs[0].key).value].tree;
      OpsLinked(cs, c, Diff(cs, [], xs[0].value, ys[0].value, stale)).Done? <==>
        Unharmed(cs, c, xs[0].value, ys[0].value)
    ensures
      var diff := KeyOrder(cs, xs, ys);
      Matches(cs, l, OpsLinked(cs, ObjectOf(l), FirstOps(cs, xs, ys, stale, parent)), HeadTouches(cs, xs, ys),
              diff == 0 ==> MemberUnharmed(cs, l.items, xs[0], ys[0], parent), l', if diff <= 0 then xs[1..] else xs)
  {
    hide Walkable, OpsLinked, Matches, TwinsClear, Clear, Diff, Unharmed, Find;
    var cur, diff := EraseFields(l.items), KeyOrder(cs, xs, ys);
    WalkFacts(cs, cur, xs, ys, parent);
    if diff > 0 {
      NewKey(cs, cur, xs, ys);
      if xs != [] { CompareFlip(cs, xs[0].key, ys[0].key); }
      HeadBelowAll(cs, ys[0].key, xs);
      NormMembersFind(cs, cur, ys[0].key);
      l' := AddField(cs, l, ys[0].key, ys[0].value, xs);
    } else {
      TailAbove(cs, xs);
      if diff < 0 {
        l' := RemoveField(cs, l, xs[0].key, xs[1..]);
      } else {
        ReplacedOps(cs, xs, ys, stale, parent);
        if Replaced(xs[0].value, ys[0].value) {
          l' := ReplaceField(cs, l, xs[0].key, ys[0].value, xs[1..]);
          ReplacedUnharmed(cs, l.items[Find(cs, cur, xs[0].key).value].tree, xs[0].value, ys[0].value);
        } else {
          DiffShape(cs, xs[0].value, ys[0].value, stale);
          l' := ChangeField(cs, l, xs[0].key, Diff(cs, [], xs[0].value, ys[0].value, stale), xs[1..]);
        }
      }
    }
  }

  lemma ReplacedUnharmed(cs: bool, t: Tree, x: Json, y: Json)
    requires Replaced(x, y)
    ensures Unharmed(cs, t, x, y)
  {
  }

  lemma NoOps(cs: bool, t: Tree, stale: char, parent: Json)
    ensures OpsLinked(cs, t, DiffMembers(cs, [], [], [], stale, parent)) == Done(0, t)
    ensures TouchWalk(cs, [], []) == []
  {
  }

  /** What the operations for the lesser head key do to the value. */
  lemma HeadStep(cs: bool, cur: seq<Member>, xs: seq<Member>, ys: seq<Member>, stale: char, parent: Json)
      returns (cur': seq<Member>)
    requires Walkable(cs, cur, xs, ys, parent) && Below(xs, parent) && (xs != [] || ys != [])
    requires AllClear(cs, cur, xs, ys, parent) && PlainMembers(xs) && PlainMembers(ys) && PresentHead(cs, cur, xs)
    ensures HeadClear(cs, cur, xs, ys)
    ensures
      var diff := KeyOrder(cs, xs, ys);
      var xs', ys' := if diff <= 0 then xs[1..] else xs, if diff >= 0 then ys[1..] else ys;
      && ApplyOps(cs, Object(cur), FirstOps(cs, xs, ys, stale, parent)) == Applied(0, Object(cur'))
      && Walkable(cs, cur', xs', ys', parent) && AllClear(cs, cur', xs', ys', parent)
  {
    hide Walkable, AllClear, AllFew, MakesObject, Goal, HeadClear, HeadGood, ApplyOps, TwinsClear, FewTwins, KeyStep;
    WalkFacts(cs, cur, xs, ys, parent);
    if KeyOrder(cs, xs, ys) == 0 {
      DiffTransforms(cs, cur[Find(cs, cur, xs[0].key).value].value, xs[0].value, ys[0].value, stale);
    }
    HeadConditions(cs, cur, xs, ys, stale, parent);
    var x;
    cur', x := GoodHead(cs, cur, xs, ys, stale, parent);
    LedOn(cs, cur, xs, ys, stale, parent, cur', x);
  }

  lemma NoTouches(l: List<string>)
    ensures TouchAll(l, []) == Some(l)
  {
  }

  lemma {:induction false} BelowLinked(cs: bool, l: List<Field>, xs: seq<Member>, ys: seq<Member>, stale: char,
                                       parent: Json)
    requires Walkable(cs, EraseFields(l.items), xs, ys, parent) && Below(xs, parent) && xs != [] && ys != []
    requires AllClear(cs, EraseFields(l.items), xs, ys, parent) && KeyOrder(cs, xs, ys) == 0
    requires PresentHead(cs, EraseFields(l.items), xs)
    ensures
      var c := l.items[Find(cs, EraseFields(l.items), xs[0].key).value].tree;
      OpsLinked(cs, c, Diff(cs, [], xs[0].value, ys[0].value, stale)).Done? <==>
        Unharmed(cs, c, xs[0].value, ys[0].value)
    decreases parent, 0, 0
  {
    hide Walkable, OpsLinked, TwinsClear, Unharmed, Diff, WellFormed, PlainKeys;
    var cur := EraseFields(l.items);
    WalkFacts(cs, cur, xs, ys, parent);
    assert PairClear(cs, cur, xs[0], ys[0], parent);
    DiffLinked(cs, l.items[Find(cs, cur, xs[0].key).value].tree, xs[0].value, ys[0].value, stale);
  }

  /** The patches damage a list exactly when the changes to this one do, or those below a
      member that stays. */
  ghost predicate WalkIs(cs: bool, l: List<Field>, xs: seq<Member>, ys: seq<Member>, stale: char, parent: Json)
    requires Below(xs, parent)
  {
    OpsLinked(cs, ObjectOf(l), DiffMembers(cs, [], xs, ys, stale, parent)).Done? <==>
      TouchAll(KeyList(cs, l), TouchWalk(cs, xs, ys)).Some? && WalkUnharmed(cs, l.items, xs, ys, parent)
  }

  lemma NothingLinked(cs: bool, l: List<Field>, stale: char, parent: Json)
    ensures WalkIs(cs, l, [], [], stale, parent)
  {
    NoOps(cs, ObjectOf(l), stale, parent);
    NoWalk(cs, l.items, parent);
    NoTouches(KeyList(cs, l));
  }

  lemma {:induction false} WalkLinked(cs: bool, l: List<Field>, xs: seq<Member>, ys: seq<Member>, stale: char,
                                      parent: Json)
    requires Walkable(cs, EraseFields(l.items), xs, ys, parent) && Below(xs, parent)
    requires AllClear(cs, EraseFields(l.items), xs, ys, parent)
    ensures WalkIs(cs, l, xs, ys, stale, parent)
    decreases parent, 0, |xs| + |ys|
  {
    hide WalkIs, Walkable, AllClear, OpsLinked, Matches, WalkUnharmed, TouchAll, KeyList, ApplyOps, FirstOps,
      HeadTouches, MemberUnharmed, HeadClear, HeadGood, Goal, KeyStep, Clear,
      DiffMembers, Unharmed, TwinsClear, Reaches;
    var cur, diff := EraseFields(l.items), KeyOrder(cs, xs, ys);
    WalkFacts(cs, cur, xs, ys, parent);
    if xs == [] && ys == [] {
      NothingLinked(cs, l, stale, parent);
    } else {
      if diff == 0 { BelowLinked(cs, l, xs, ys, stale, parent); }
      var cur' := HeadStep(cs, cur, xs, ys, stale, parent);
      var l' := HeadLinked(cs, l, xs, ys, stale, parent);
      var xs', ys' := if diff <= 0 then xs[1..] else xs, if diff >= 0 then ys[1..] else ys;
      HeadErased(cs, l, xs, ys, stale, parent, cur', l');
      if OpsLinked(cs, ObjectOf(l), FirstOps(cs, xs, ys, stale, parent)).Done? {
        WalkLinked(cs, l', xs', ys', stale, parent);
      }
      WalkStep(cs, l, xs, ys, stale, parent, l', xs', ys');
    }
  }

  lemma HeadErased(cs: bool, l: List<Field>, xs: seq<Member>, ys: seq<Member>, stale: char, parent: Json,
                   cur': seq<Member>, l': List<Field>)
    requires Below(xs, parent) && (xs != [] || ys != []) && PlainMembers(xs) && PlainMembers(ys)
    requires ApplyOps(cs, Object(EraseFields(l.items)), FirstOps(cs, xs, ys, stale, parent)) == Applied(0, Object(cur'))
    requires
      var diff := KeyOrder(cs, xs, ys);
      Matches(cs, l, OpsLinked(cs, ObjectOf(l), FirstOps(cs, xs, ys, stale, parent)), HeadTouches(cs, xs, ys),
              diff == 0 ==> MemberUnharmed(cs, l.items, xs[0], ys[0], parent), l', if diff <= 0 then xs[1..] else xs)
    ensures
      var o := OpsLinked(cs, ObjectOf(l), FirstOps(cs, xs, ys, stale, parent));
      o.Done? ==> o.status == 0 && EraseFields(l'.items) == cur'
  {
    hide OpsLinked, ApplyOps, FirstOps, HeadTouches, TouchAll, MemberUnharmed, SameTrees;
    OpsErased(cs, ObjectOf(l), FirstOps(cs, xs, ys, stale, parent));
  }

  /** From the rest of the walk to the whole. */
  lemma WalkStep(cs: bool, l: List<Field>, xs: seq<Member>, ys: seq<Member>, stale: char, parent: Json, l': List<Field>,
                 xs': seq<Member>, ys': seq<Member>)
    requires Below(xs, parent) && (xs != [] || ys != []) && PlainMembers(xs) && PlainMembers(ys)
    requires xs' == (if KeyOrder(cs, xs, ys) <= 0 then xs[1..] else xs)
      && ys' == (if KeyOrder(cs, xs, ys) >= 0 then ys[1..] else ys)
    requires
      var o := OpsLinked(cs, ObjectOf(l), FirstOps(cs, xs, ys, stale, parent));
      && Matches(cs, l, o, HeadTouches(cs, xs, ys),
        KeyOrder(cs, xs, ys) == 0 ==> MemberUnharmed(cs, l.items, xs[0], ys[0], parent), l', xs')
      && (o.Done? ==> o.status == 0 && WalkIs(cs, l', xs', ys', stale, parent))
    ensures WalkIs(cs, l, xs, ys, stale, parent)
  {
    hide OpsLinked, WalkUnharmed, MemberUnharmed, TouchAll, KeyList, DiffMembers, HeadTouches, FirstOps, SameTrees,
      PlainMembers;
    var first, rest := FirstOps(cs, xs, ys, stale, parent), DiffMembers(cs, [], xs', ys', stale, parent);
    WalkHead(cs, l.items, xs, ys, parent);
    OpsConcat(cs, ObjectOf(l), first, rest);
    TouchConcat(KeyList(cs, l), HeadTouches(cs, xs, ys), TouchWalk(cs, xs', ys'));
    if OpsLinked(cs, ObjectOf(l), first).Done? {
      WalkSame(cs, l.items, l'.items, xs', ys', parent);
    }
  }

  lemma {:induction false} ObjectLinked(cs: bool, t: Tree, from: Json, to: Json, stale: char)
    requires Fits(cs, t, from, to) && from.Object? && to.Object?
    ensures OpsLinked(cs, t, Diff(cs, [], from, to, stale)).Done? <==> Unharmed(cs, t, from, to)
    decreases from, 0, |from.members| + |to.members| + 1
  {
    hide ClearMembers, NestedClear, Walkable, DiffMembers, OpsLinked, TouchAll, WalkUnharmed;
    var ms, ns := from.members, to.members;
    var xs, ys := SortMembers(cs, ms), SortMembers(cs, ns);
    SortMembersNorm(cs, ms);
    SortMembersNorm(cs, ns);
    SortedBelow(cs, from);
    assert t.ObjectNode?;
    SortedConditions(cs, EraseFields(t.fields), ms, ns, xs, ys, from);
    StartWalk(cs, Erase(t), from, to);
    WalkLinked(cs, FieldList(t), xs, ys, stale, from);
  }

  // ---------------------------------------------------------------------------
  // Arrays

  /** `ArrayStays` when the first `n` elements of the list have been dealt with. */
  predicate Survives(tail: Tail, n: nat, xs: seq<Json>, ys: seq<Json>) {
    if xs == [] then ys == [] || n == 0 || tail == Unset || tail == Cached(n - 1)
    else
      match tail
      case Unset => true
      case Gone => !(n == 0 && (ys == [] || ReplacedAt(xs, ys, 0))) && !Appends(xs, ys)
      case Cached(p) =>
        || (n == 0 && |xs| == 1 && p == 0)
        || (&& !(n == 0 && (ys == [] || (ReplacedAt(xs, ys, 0) && p != 0)))
            && (Appends(xs, ys) ==>
                  if ReplacedAt(xs, ys, |xs| - 1) then p + 2 == n + |xs| && !(p >= n && ReplacedAt(xs, ys, p - n))
                  else p + 1 == n + |xs|))
  }

  /** What the operations for the first elements left do to the cache. */
  function StepTail(tail: Tail, n: nat, xs: seq<Json>, ys: seq<Json>): Option<Tail> {
    if xs == [] then
      if ys == [] then Some(tail)
      else if n > 0 && tail != Unset && tail != Cached(n - 1) then None
      else Some(Cached(n))
    else if ys != [] && !Replaced(xs[0], ys[0]) then Some(tail)
    else if n == 0 && tail != Unset && tail != Cached(0) then None
    else
      var after := TailAfter(tail, n, |xs|);
      if ys == [] then Some(after)
      else if |xs| > 1 then Some(TailWith(after, n, false))
      else if n > 0 && after != Unset && after != Cached(n - 1) then None
      else Some(Cached(n))
  }

  function TailAfter(tail: Tail, n: nat, left: nat): Tail {
    if n == 0 && left == 1 then Unset
    else match tail
      case Cached(p) => if p == n then Gone else if p > n then Cached(p - 1) else Cached(p)
      case other => other
  }

  lemma SurvivesStep(tail: Tail, n: nat, xs: seq<Json>, ys: seq<Json>)
    requires xs != [] || ys != []
    ensures
      var r := StepTail(tail, n, xs, ys);
      Survives(tail, n, xs, ys) <==>
        && r.Some?
        && Survives(r.value, if ys != [] then n + 1 else n, if xs != [] then xs[1..] else xs,
          if ys != [] then ys[1..] else ys)
  {
    hide Replaced;
    var xs', ys' := if xs != [] then xs[1..] else xs, if ys != [] then ys[1..] else ys;
    if xs != [] && ys != [] {
      forall i: nat ensures ReplacedAt(xs', ys', i) <==> ReplacedAt(xs, ys, i + 1) {
      }
      assert Appends(xs', ys') <==> |ys| > |xs| || (|xs| > 1 && ReplacedAt(xs, ys, |xs| - 1));
    }
  }

  lemma DecimalChild(t: Tree, n: nat)
    requires t.ArrayNode? && n < |t.elements|
    ensures Plain(Decimal(n)) && Decimal(n) != "-" && DecodeArrayIndex(Decimal(n)) == Some(n)
    ensures forall cs :: Slot(cs, Erase(t), Decimal(n)) == Some(n)
  {
    DecodeDecimal(n, []);
    assert Decimal(n) + [] == Decimal(n);
    PlainNotDash(n);
  }

  lemma RemoveElementLinked(cs: bool, l: List<Tree>, n: nat)
    requires n < |l.items|
    ensures
      var d := Detach(l, n);
      OpsLinked(cs, ArrayOf(l), [Op("remove", "/" + Decimal(n), None)]) == if d.None? then Damaged
        else Done(0, ArrayOf(d.value))
  {
    hide Detach, OpsLinked;
    DecimalChild(ArrayOf(l), n);
    RemoveLinked(cs, ArrayOf(l), Decimal(n));
  }

  lemma ReplaceElementLinked(cs: bool, l: List<Tree>, n: nat, v: Json)
    requires n < |l.items|
    ensures
      var d := Detach(l, n);
      OpsLinked(cs, ArrayOf(l), [Op("replace", "/" + Decimal(n), Some(v))]) ==
        if d.None? then Damaged
        else if n == |d.value.items| then Grown(Grow(d.value, Fresh(v)))
        else Done(0, ArrayOf(Insert(d.value, n, Fresh(v), false).value))
  {
    hide OpsLinked, Insert;
    DecimalChild(ArrayOf(l), n);
    ReplaceLinked(cs, ArrayOf(l), Decimal(n), v);
    if Detach(l, n).Some? {
      AddLinked(cs, ArrayOf(Detach(l, n).value), Decimal(n), v);
    }
  }

  lemma AppendElementLinked(cs: bool, l: List<Tree>, v: Json)
    ensures
      OpsLinked(cs, ArrayOf(l), [Op("add", "/-", Some(v))]) == Grown(Grow(l, Fresh(v)))
  {
    hide OpsLinked, Grow;
    AddLinked(cs, ArrayOf(l), "-", v);
    assert "/" + "-" == "/-";
  }

  /** The operations for the first elements left: whether the list survives, and what is left. */
  lemma ItemsHead(cs: bool, n: nat, l: List<Tree>, xs: seq<Json>, ys: seq<Json>, stale: char, parent: Json)
      returns (l': List<Tree>)
    requires |l.items| == n + |xs| && (xs != [] || ys != []) && forall i :: 0 <= i < |xs| ==> xs[i] < parent
    ensures
      var o, both := OpsLinked(cs, ArrayOf(l), FirstItemOps(cs, xs, ys, n, stale, parent)), xs != [] && ys != [];
      var inside := both ==> OpsLinked(cs, l.items[n], Diff(cs, [], xs[0], ys[0], stale)).Done?;
      && (o.Done? <==> inside && StepTail(l.tail, n, xs, ys).Some?)
      && (o.Done? && o.status == 0 ==>
            && o.tree == ArrayOf(l') && l'.tail == StepTail(l.tail, n, xs, ys).value
            && |l'.items| == (if xs != [] then n + |xs| - 1 else n) + (if ys != [] then 1 else 0)
            && l'.items[if ys != [] then n + 1 else n..] == l.items[if xs != [] then n + 1 else n..])
  {
    hide OpsLinked, Diff, Replaced;
    l' := l;
    if xs != [] && ys != [] {
      BelowShape(cs, Decimal(n), xs[0], ys[0], stale);
      DiffShape(cs, xs[0], ys[0], stale);
      if Replaced(xs[0], ys[0]) {
        l' := ItemReplaced(cs, n, l, xs, ys, stale);
      } else {
        l' := ItemChanged(cs, n, l, Diff(cs, [], xs[0], ys[0], stale));
      }
    } else if xs != [] {
      RemoveElementLinked(cs, l, n);
      if Detach(l, n).Some? { l' := Detach(l, n).value; }
    } else {
      AppendElementLinked(cs, l, ys[0]);
      if Append(l, Fresh(ys[0])).Some? { l' := Append(l, Fresh(ys[0])).value; }
    }
  }

  lemma ItemReplaced(cs: bool, n: nat, l: List<Tree>, xs: seq<Json>, ys: seq<Json>, stale: char)
      returns (l': List<Tree>)
    requires |l.items| == n + |xs| && xs != [] && ys != [] && Replaced(xs[0], ys[0])
    ensures
      var o := OpsLinked(cs, ArrayOf(l), Under("/" + Decimal(n), Diff(cs, [], xs[0], ys[0], stale)));
      && OpsLinked(cs, l.items[n], Diff(cs, [], xs[0], ys[0], stale)).Done?
      && (o.Done? <==> StepTail(l.tail, n, xs, ys).Some?)
      && (o.Done? ==> o.tree == ArrayOf(l') && l'.tail == StepTail(l.tail, n, xs, ys).value
                      && |l'.items| == |l.items| && l'.items[n + 1..] == l.items[n + 1..])
  {
    hide OpsLinked, Diff;
    var y := ys[0];
    DiffShape(cs, xs[0], y, stale);
    assert Under("/" + Decimal(n), [Op("replace", [], Some(y))]) == [Op("replace", "/" + Decimal(n), Some(y))]
    by { assert "/" + Decimal(n) + [] == "/" + Decimal(n); }
    ReplaceElementLinked(cs, l, n, y);
    ReplaceRootLinked(cs, l.items[n], y);
    l' := ReplacedList(l, n, Fresh(y));
  }

  lemma ReplaceRootLinked(cs: bool, t: Tree, y: Json)
    ensures OpsLinked(cs, t, [Op("replace", [], Some(y))]) == Done(0, Fresh(y))
  {
    OneLinked(cs, t, Op("replace", [], Some(y)));
  }

  lemma ReplacedList<T>(l: List<T>, n: nat, v: T) returns (l': List<T>)
    requires n < |l.items|
    ensures
      var d := Detach(l, n);
      && (d.Some? ==> |d.value.items| == |l.items| - 1)
      && (d.Some? && Insert(d.value, n, v, false).Some? ==>
            l' == Insert(d.value, n, v, false).value && |l'.items| == |l.items|
              && l'.items[n + 1..] == l.items[n + 1..])
  {
    var d := Detach(l, n);
    l' := l;
    if d.Some? && Insert(d.value, n, v, false).Some? {
      l' := Insert(d.value, n, v, false).value;
      assert l'.items == l.items[..n] + [v] + l.items[n + 1..];
    }
  }

  lemma ItemChanged(cs: bool, n: nat, l: List<Tree>, ops: seq<Op>) returns (l': List<Tree>)
    requires n < |l.items| && forall k :: 0 <= k < |ops| ==> Deep(ops[k])
    ensures
      var o := OpsLinked(cs, ArrayOf(l), Under("/" + Decimal(n), ops));
      && (o.Done? <==> OpsLinked(cs, l.items[n], ops).Done?)
      && (o.Done? ==>
        o.tree == ArrayOf(l') && l'.tail == l.tail && |l'.items| == |l.items| && l'.items[n + 1..] == l.items[n + 1..])
  {
    hide OpsLinked, Deep;
    DecimalChild(ArrayOf(l), n);
    OpsBelow(cs, ArrayOf(l), Decimal(n), ops);
    var o := OpsLinked(cs, l.items[n], ops);
    l' := if o.Done? then List(l.items[n := o.tree], l.tail) else l;
  }

  /** The elements left fit the ones they stand for. */
  ghost predicate ItemsFit(cs: bool, es: seq<Tree>, xs: seq<Json>, ys: seq<Json>, parent: Json) {
    && (forall i :: 0 <= i < |xs| ==> xs[i] < parent && WellFormed(cs, xs[i]) && PlainKeys(xs[i]))
    && (forall i :: 0 <= i < |ys| ==> WellFormed(cs, ys[i]) && PlainKeys(ys[i]))
    && |es| == |xs|
      && (forall i :: 0 <= i < |es| ==> WellFormed(cs, Erase(es[i])) && Norm(cs, Erase(es[i])) == Norm(cs, xs[i]))
    && (forall i :: 0 <= i < |es| && i < |ys| ==> TwinsClear(cs, Erase(es[i]), xs[i], ys[i]))
  }

  lemma ItemsFitTail(cs: bool, es: seq<Tree>, xs: seq<Json>, ys: seq<Json>, parent: Json)
    requires ItemsFit(cs, es, xs, ys, parent) && (xs != [] || ys != [])
    ensures ItemsFit(cs, if xs != [] then es[1..] else es, if xs != [] then xs[1..] else xs,
      if ys != [] then ys[1..] else ys, parent)
  {
    hide WellFormed, PlainKeys, Norm, TwinsClear, Erase;
  }

  lemma ItemsUnharmedTail(cs: bool, es: seq<Tree>, xs: seq<Json>, ys: seq<Json>, parent: Json)
    requires |es| == |xs| && (xs != [] || ys != []) && forall i :: 0 <= i < |xs| ==> xs[i] < parent
    ensures
      var es', xs', ys' := if xs != [] then es[1..] else es, if xs != [] then xs[1..] else xs,
        if ys != [] then ys[1..] else ys;
      ItemsUnharmed(cs, es, xs, ys, parent) <==>
        && ItemsUnharmed(cs, es', xs', ys', parent)
        && (xs != [] && ys != [] ==> Unharmed(cs, es[0], xs[0], ys[0]))
  {
    hide Unharmed;
    var es', xs', ys' := if xs != [] then es[1..] else es, if xs != [] then xs[1..] else xs,
      if ys != [] then ys[1..] else ys;
    if xs != [] && ys != [] && ItemsUnharmed(cs, es', xs', ys', parent) && Unharmed(cs, es[0], xs[0], ys[0]) {
      forall i | 0 <= i < |es| && i < |xs| && i < |ys| ensures Unharmed(cs, es[i], xs[i], ys[i]) {
        if i > 0 { assert Unharmed(cs, es'[i - 1], xs'[i - 1], ys'[i - 1]); }
      }
    }
  }

  lemma NoItems(cs: bool, l: List<Tree>, stale: char, parent: Json)
    ensures OpsLinked(cs, ArrayOf(l), DiffItems(cs, [], [], [], |l.items|, stale, parent)).Done?
  {
  }

  lemma {:induction false} ItemsLinked(cs: bool, n: nat, l: List<Tree>, xs: seq<Json>, ys: seq<Json>, stale: char,
                                       parent: Json)
    requires |l.items| == n + |xs| && ItemsFit(cs, l.items[n..], xs, ys, parent)
    ensures OpsLinked(cs, ArrayOf(l), DiffItems(cs, [], xs, ys, n, stale, parent)).Done? <==>
      Survives(l.tail, n, xs, ys) && ItemsUnharmed(cs, l.items[n..], xs, ys, parent)
    decreases parent, 0, |xs| + |ys|
  {
    hide OpsLinked, DiffItems, FirstItemOps, Survives, StepTail, Unharmed, ItemsUnharmed, Diff, ItemsFit, Fits, Erase;
    var es := l.items[n..];
    FitBelow(cs, es, xs, ys, parent);
    if xs == [] && ys == [] {
      NoItems(cs, l, stale, parent);
      NothingLeft(cs, l.tail, n, es, parent);
    } else {
      var xs', ys' := if xs != [] then xs[1..] else xs, if ys != [] then ys[1..] else ys;
      var n' := if ys != [] then n + 1 else n;
      var first, rest := FirstItemOps(cs, xs, ys, n, stale, parent), DiffItems(cs, [], xs', ys', n', stale, parent);
      if xs != [] && ys != [] { DiffLinked(cs, es[0], xs[0], ys[0], stale); }
      var l' := HeadOfItems(cs, n, l, xs, ys, stale, parent);
      ItemsUnharmedTail(cs, es, xs, ys, parent);
      SurvivesStep(l.tail, n, xs, ys);
      DoneInTurn(cs, ArrayOf(l), first, rest);
      if OpsLinked(cs, ArrayOf(l), first).Done? {
        ItemsLinked(cs, n', l', xs', ys', stale, parent);
      }
    }
  }

  lemma DoneInTurn(cs: bool, t: Tree, a: seq<Op>, b: seq<Op>)
    ensures
      var o := OpsLinked(cs, t, a);
      OpsLinked(cs, t, a + b).Done? <==> o.Done? && (o.status == 0 ==> OpsLinked(cs, o.tree, b).Done?)
  {
    hide OpsLinked;
    OpsConcat(cs, t, a, b);
  }

  lemma FitBelow(cs: bool, es: seq<Tree>, xs: seq<Json>, ys: seq<Json>, parent: Json)
    requires ItemsFit(cs, es, xs, ys, parent)
    ensures |es| == |xs| && forall i :: 0 <= i < |xs| ==> xs[i] < parent
    ensures xs != [] && ys != [] ==> Fits(cs, es[0], xs[0], ys[0])
  {
    hide WellFormed, PlainKeys, Norm, TwinsClear, Erase;
  }

  /** The operations for the first elements left: their outcome, and what is left for the others. */
  lemma HeadOfItems(cs: bool, n: nat, l: List<Tree>, xs: seq<Json>, ys: seq<Json>, stale: char, parent: Json)
      returns (l': List<Tree>)
    requires |l.items| == n + |xs| && ItemsFit(cs, l.items[n..], xs, ys, parent) && (xs != [] || ys != [])
    requires forall i :: 0 <= i < |xs| ==> xs[i] < parent
    ensures
      var o, both := OpsLinked(cs, ArrayOf(l), FirstItemOps(cs, xs, ys, n, stale, parent)), xs != [] && ys != [];
      var inside := both ==> OpsLinked(cs, l.items[n..][0], Diff(cs, [], xs[0], ys[0], stale)).Done?;
      var es, xs' := if xs != [] then l.items[n..][1..] else l.items[n..], if xs != [] then xs[1..] else xs;
      var ys', n' := if ys != [] then ys[1..] else ys, if ys != [] then n + 1 else n;
      && (o.Done? <==> inside && StepTail(l.tail, n, xs, ys).Some?)
      && (o.Done? ==>
            && o.status == 0 && o.tree == ArrayOf(l') && l'.tail == StepTail(l.tail, n, xs, ys).value
            && |l'.items| == n' + |xs'| && l'.items[n'..] == es && ItemsFit(cs, es, xs', ys', parent))
  {
    hide OpsLinked, FirstItemOps, StepTail, Diff, ItemsFit;
    var es := l.items[n..];
    ItemStatus(cs, n, l, xs, ys, stale, parent);
    ItemsFitTail(cs, es, xs, ys, parent);
    l' := ItemsHead(cs, n, l, xs, ys, stale, parent);
    if xs != [] { assert es[0] == l.items[n] && es[1..] == l.items[n + 1..]; }
  }

  lemma NothingLeft(cs: bool, tail: Tail, n: nat, es: seq<Tree>, parent: Json)
    ensures Survives(tail, n, [], []) && ItemsUnharmed(cs, es, [], [], parent)
  {
  }

  /** They end with status 0, if they end. */
  lemma ItemStatus(cs: bool, n: nat, l: List<Tree>, xs: seq<Json>, ys: seq<Json>, stale: char, parent: Json)
    requires |l.items| == n + |xs| && ItemsFit(cs, l.items[n..], xs, ys, parent) && (xs != [] || ys != [])
    ensures
      var o := OpsLinked(cs, ArrayOf(l), FirstItemOps(cs, xs, ys, n, stale, parent));
      o.Done? ==> o.status == 0
  {
    hide OpsLinked, FirstItemOps, Diff, ApplyOps, WellFormed, PlainKeys, Norm, TwinsClear, Erase;
    var done, cur := EraseAll(l.items[..n]), EraseAll(l.items[n..]);
    var first := FirstItemOps(cs, xs, ys, n, stale, parent);
    ArrayErased(l, n);
    OpsErased(cs, ArrayOf(l), first);
    if xs != [] && ys != [] { DiffTransforms(cs, cur[0], xs[0], ys[0], stale); }
    var done', cur', status := ItemStep(cs, done, cur, xs, ys, stale, parent);
  }

  lemma ArrayErased(l: List<Tree>, n: nat)
    requires n <= |l.items|
    ensures Erase(ArrayOf(l)) == Array(EraseAll(l.items[..n]) + EraseAll(l.items[n..]))
  {
    assert EraseAll(l.items) == EraseAll(l.items[..n]) + EraseAll(l.items[n..]);
  }

  lemma {:induction false} ArrayLinked(cs: bool, t: Tree, from: Json, to: Json, stale: char)
    requires Fits(cs, t, from, to) && from.Array? && to.Array?
    ensures OpsLinked(cs, t, Diff(cs, [], from, to, stale)).Done? <==> Unharmed(cs, t, from, to)
    decreases from, 0, |from.items| + |to.items| + 1
  {
    hide OpsLinked, DiffItems, ItemsUnharmed;
    assert t.ArrayNode?;
    var es := t.elements;
    assert es[0..] == es;
    ArrayFits(cs, es, from, to);
    assert Diff(cs, [], from, to, stale) == DiffItems(cs, [], from.items, to.items, 0, stale, from);
    ItemsLinked(cs, 0, Elements(t), from.items, to.items, stale, from);
    assert Survives(t.tail, 0, from.items, to.items) <==> ArrayStays(t.tail, from.items, to.items);
  }

  lemma ArrayFits(cs: bool, es: seq<Tree>, from: Json, to: Json)
    requires from.Array? && to.Array? && Fits(cs, ArrayNode(es, Unset), from, to)
    ensures ItemsFit(cs, es, from.items, to.items, from)
  {
    hide TwinsClear, ItemsClear;
    var ds := EraseAll(es);
    assert Erase(ArrayNode(es, Unset)) == Array(ds);
    ArrayNorm(cs, ds, from.items);
    ArrayClear(cs, ds, from, to);
    forall i | 0 <= i < |es| ensures WellFormed(cs, Erase(es[i])) { assert WellFormed(cs, ds[i]); }
    forall i | 0 <= i < |es| && i < |to.items| ensures TwinsClear(cs, Erase(es[i]), from.items[i], to.items[i]) {
      assert TwinsClear(cs, ds[i], from.items[i], to.items[i]);
    }
  }

  lemma ArrayNorm(cs: bool, ds: seq<Json>, xs: seq<Json>)
    requires Norm(cs, Array(ds)) == Norm(cs, Array(xs))
    ensures |ds| == |xs| && forall i :: 0 <= i < |ds| ==> Norm(cs, ds[i]) == Norm(cs, xs[i])
  {
    assert NormItems(cs, ds) == NormItems(cs, xs);
    forall i | 0 <= i < |ds| ensures Norm(cs, ds[i]) == Norm(cs, xs[i]) {
      assert NormItems(cs, ds)[i] == NormItems(cs, xs)[i];
    }
  }

  lemma ArrayClear(cs: bool, ds: seq<Json>, from: Json, to: Json)
    requires from.Array? && to.Array? && TwinsClear(cs, Array(ds), from, to)
    ensures forall i :: 0 <= i < |ds| && i < |from.items| && i < |to.items| ==>
      TwinsClear(cs, ds[i], from.items[i], to.items[i])
  {
  }

  // ---------------------------------------------------------------------------
  // The law

  /** `from` and `to` as the law needs them, and a tree that is `from` as a value. */
  ghost predicate Fits(cs: bool, t: Tree, from: Json, to: Json) {
    && WellFormed(cs, from) && PlainKeys(from) && WellFormed(cs, to) && PlainKeys(to)
    && WellFormed(cs, Erase(t)) && Norm(cs, Erase(t)) == Norm(cs, from) && TwinsClear(cs, Erase(t), from, to)
  }

  lemma {:induction false} DiffLinked(cs: bool, t: Tree, from: Json, to: Json, stale: char)
    requires Fits(cs, t, from, to)
    ensures OpsLinked(cs, t, Diff(cs, [], from, to, stale)).Done? <==> Unharmed(cs, t, from, to)
    decreases from, 1, 0
  {
    if Replaced(from, to) {
      DiffShape(cs, from, to, stale);
      ReplaceRootLinked(cs, t, to);
    } else if from.Array? {
      ArrayLinked(cs, t, from, to, stale);
    } else if from.Object? {
      ObjectLinked(cs, t, from, to, stale);
    } else {
      assert OpsLinked(cs, t, []) == Done(0, t);
    }
  }

  /** The list has been applied without an error and has left a value equal to `to`, with every
      list whole or not. */
  ghost predicate Reached(cs: bool, o: Outcome, to: Json) {
    !o.Damaged? && o.status == 0 && Norm(cs, Erase(o.tree)) == Norm(cs, to)
  }

  /** For every tree equal to `from` as a value, whatever its lists cache: if no member that is
      removed or replaced has a twin in front of it, the patches made from `from` and `to` leave a
      tree equal to `to`, with status 0, exactly when no list is harmed, and all lists are whole
      then.  With few twins they never leave one in any other case. */
  lemma PatchesReachTargetInMemory(cs: bool, t: Tree, from: Json, to: Json, stale: char)
    requires WellFormed(cs, from) && PlainKeys(from)
    requires WellFormed(cs, to) && PlainKeys(to)
    requires WellFormed(cs, Erase(t)) && Norm(cs, Erase(t)) == Norm(cs, from)
    ensures
      var o := ApplyAllLinked(cs, t, ComposeAll(Diff(cs, [], from, to, stale)));
      && (TwinsClear(cs, Erase(t), from, to) ==> (Reached(cs, o, to) <==> Unharmed(cs, t, from, to)))
      && (FewTwins(cs, from, to) && Reached(cs, o, to) ==> TwinsClear(cs, Erase(t), from, to))
      && (Reached(cs, o, to) ==> o.Done?)
  {
    hide ApplyAllLinked, OpsLinked, Diff, ApplyPatches, ApplyOps, TwinsClear, FewTwins, Unharmed;
    var ops := Diff(cs, [], from, to, stale);
    DiffShape(cs, from, to, stale);
    AllComposedLinked(cs, t, ops);
    ApplyAllErased(cs, t, ComposeAll(ops));
    PatchesReachTarget(cs, Erase(t), from, to, stale);
    LossMisses(cs, t, from, to, stale);
    if TwinsClear(cs, Erase(t), from, to) { DiffLinked(cs, t, from, to, stale); }
  }

  /** The tree the patches were made from is the document itself: it has been sorted by then. */
  lemma SourceReachesTarget(cs: bool, t: Tree, to: Json, stale: char)
    requires WellFormed(cs, Erase(t)) && PlainKeys(Erase(t))
    requires WellFormed(cs, to) && PlainKeys(to)
    ensures
      var from, s := Erase(t), Created(cs, t, to);
      var o := ApplyAllLinked(cs, s, ComposeAll(Diff(cs, [], from, to, stale)));
      && (TwinsClear(cs, Erase(s), from, to) ==> (Reached(cs, o, to) <==> Unharmed(cs, s, from, to)))
      && (FewTwins(cs, from, to) && Reached(cs, o, to) ==> TwinsClear(cs, Erase(s), from, to))
      && (Reached(cs, o, to) ==> o.Done?)
  {
    hide ApplyAllLinked, Diff, TwinsClear, FewTwins, Unharmed, Reached, Created;
    CreatedKeeps(cs, t, to);
    PatchesReachTargetInMemory(cs, Created(cs, t, to), Erase(t), to, stale);
  }

  // ---------------------------------------------------------------------------
  // Documents as the parser or cJSON_Duplicate made them

  lemma {:induction false} TouchesOnce(cs: bool, xs: seq<Member>, ys: seq<Member>)
    requires StrictlyOrdered(cs, xs, MemberKey) && StrictlyOrdered(cs, ys, MemberKey)
    ensures OneEach(TouchWalk(cs, xs, ys))
    ensures forall u :: u in TouchWalk(cs, xs, ys) ==> KeyOf(cs, u.key, xs) || KeyOf(cs, u.key, ys)
    decreases |xs| + |ys|
  {
    hide StrictlyOrdered, KeyOf, OneEach, Compare;
    if xs != [] || ys != [] {
      var diff := KeyOrder(cs, xs, ys);
      var xs', ys' := if diff <= 0 then xs[1..] else xs, if diff >= 0 then ys[1..] else ys;
      TailsOrdered(cs, xs, ys);
      TouchesOnce(cs, xs', ys');
      var us, rest := HeadTouches(cs, xs, ys), TouchWalk(cs, xs', ys');
      KeyOfTail(cs, xs, ys);
      if us != [] { OneMore(us[0], rest); } else { assert us + rest == rest; }
    } else {
      NothingTwice();
    }
  }

  lemma NothingTwice()
    ensures OneEach([])
  {
  }

  lemma OneMore(u: Touch, rest: seq<Touch>)
    requires OneEach(rest) && forall v :: v in rest ==> v.key != u.key
    ensures OneEach([u] + rest)
  {
    var all := [u] + rest;
    forall i, j | 0 <= i < j < |all| ensures all[i].key != all[j].key {
      assert all[j] == rest[j - 1] && rest[j - 1] in rest;
      if i > 0 { assert all[i] == rest[i - 1]; }
    }
  }

  ghost predicate KeyOf(cs: bool, k: string, ms: seq<Member>) {
    exists i :: 0 <= i < |ms| && FoldString(cs, ms[i].key) == k
  }

  lemma KeyOfTail(cs: bool, xs: seq<Member>, ys: seq<Member>)
    requires StrictlyOrdered(cs, xs, MemberKey) && StrictlyOrdered(cs, ys, MemberKey) && (xs != [] || ys != [])
    ensures
      var diff := KeyOrder(cs, xs, ys);
      var xs', ys' := if diff <= 0 then xs[1..] else xs, if diff >= 0 then ys[1..] else ys;
      && (forall k :: KeyOf(cs, k, xs') ==> KeyOf(cs, k, xs)) && (forall k :: KeyOf(cs, k, ys') ==> KeyOf(cs, k, ys))
      && (forall u :: u in HeadTouches(cs, xs, ys) ==>
            !KeyOf(cs, u.key, xs') && !KeyOf(cs, u.key, ys') && (KeyOf(cs, u.key, xs) || KeyOf(cs, u.key, ys)))
  {
    hide Compare, StrictlyOrdered;
    HeadsApart(cs, xs, ys);
    if xs != [] { KeyOfRest(cs, xs); }
    if ys != [] { KeyOfRest(cs, ys); }
  }

  lemma KeyOfRest(cs: bool, ms: seq<Member>)
    requires ms != []
    ensures forall k :: KeyOf(cs, k, ms) <==> FoldString(cs, ms[0].key) == k || KeyOf(cs, k, ms[1..])
  {
    forall k ensures KeyOf(cs, k, ms) <==> FoldString(cs, ms[0].key) == k || KeyOf(cs, k, ms[1..]) {
      if KeyOf(cs, k, ms) && FoldString(cs, ms[0].key) != k {
        var i :| 0 <= i < |ms| && FoldString(cs, ms[i].key) == k;
        assert ms[1..][i - 1] == ms[i];
      }
      if KeyOf(cs, k, ms[1..]) {
        var i :| 0 <= i < |ms[1..]| && FoldString(cs, ms[1..][i].key) == k;
        assert ms[i + 1] == ms[1..][i];
      }
    }
  }

  /** An array that caches nothing is never harmed itself.  An object that caches nothing is,
      exactly when a member is removed or replaced that is first in the list by then, behind
      a change that appended. */
  lemma ParsedUnharmed(cs: bool, t: Tree, from: Json, to: Json)
    requires WellFormed(cs, from) && WellFormed(cs, to) && WellFormed(cs, Erase(t)) && !Replaced(from, to)
    requires (t.ArrayNode? && from.Array?) || (t.ObjectNode? && from.Object?)
    requires t.tail == Unset
    ensures from.Array? ==> (Unharmed(cs, t, from, to) <==> ItemsUnharmed(cs, t.elements, from.items, to.items, from))
    ensures from.Object? ==>
      var xs, ys := SortMembers(cs, from.members), SortMembers(cs, to.members);
      && Below(xs, from)
      && (Unharmed(cs, t, from, to) <==>
            !HeadHit(KeysOf(cs, t.fields), TouchWalk(cs, xs, ys)) && WalkUnharmed(cs, t.fields, xs, ys, from))
  {
    hide ItemsUnharmed, WalkUnharmed, TouchAll, HeadHit, TouchWalk;
    if from.Object? {
      var xs, ys := SortMembers(cs, from.members), SortMembers(cs, to.members);
      SortedBelow(cs, from);
      SortMembersNorm(cs, from.members);
      SortMembersNorm(cs, to.members);
      TouchesOnce(cs, xs, ys);
      DistinctFolded(cs, t.fields);
      DamageIsHeadHit(KeysOf(cs, t.fields), TouchWalk(cs, xs, ys));
    }
  }

  /** A parsed document: a list that is harmed is damaged, no child is lost. */
  lemma ParsedReachTarget(cs: bool, d: Json, from: Json, to: Json, stale: char)
    requires WellFormed(cs, from) && PlainKeys(from)
    requires WellFormed(cs, to) && PlainKeys(to)
    requires WellFormed(cs, d) && Norm(cs, d) == Norm(cs, from) && TwinsClear(cs, d, from, to)
    ensures
      var o := ApplyAllLinked(cs, Fresh(d), ComposeAll(Diff(cs, [], from, to, stale)));
      if Unharmed(cs, Fresh(d), from, to) then o.Done? && Reached(cs, o, to) else o.Damaged?
  {
    hide ApplyAllLinked, OpsLinked, Diff, TwinsClear, FewTwins, Unharmed, Fresh, Tidy;
    var ops := Diff(cs, [], from, to, stale);
    EraseFresh(d);
    TidyFresh(d);
    DiffShape(cs, from, to, stale);
    AllComposedLinked(cs, Fresh(d), ops);
    TidyOps(cs, Fresh(d), ops);
    DiffLinked(cs, Fresh(d), from, to, stale);
    PatchesReachTargetInMemory(cs, Fresh(d), from, to, stale);
  }

  // ---------------------------------------------------------------------------
  // Both parts together

  /** `create_patches` on two trees in memory, which it sorts. */
  method CreatePatches(cs: bool, from: Document, to: Document, stale: char) returns (patches: seq<Json>)
    modifies from, to
    ensures patches == ComposeAll(Diff(cs, [], Erase(old(from.root)), Erase(old(to.root)), stale))
    ensures from.root == Created(cs, old(from.root), Erase(old(to.root)))
    ensures to.root == Created(cs, old(to.root), Erase(old(from.root)))
  {
    var list := new PatchArray();
    list.Create(cs, [], Erase(from.root), Erase(to.root), stale);
    patches := list.patches;
    from.root, to.root := Created(cs, from.root, Erase(to.root)), Created(cs, to.root, Erase(from.root));
  }

  /** Patches are made from `from` and `to` and applied to a document equal to `from`: another one,
      or `from` itself as it is then. */
  method Synchronize(cs: bool, document: Document, from: Document, to: Document, stale: char)
      returns (damaged: bool, status: int)
    requires document != to && from != to
    requires WellFormed(cs, Erase(from.root)) && PlainKeys(Erase(from.root))
    requires WellFormed(cs, Erase(to.root)) && PlainKeys(Erase(to.root))
    requires WellFormed(cs, Erase(document.root)) && Norm(cs, Erase(document.root)) == Norm(cs, Erase(from.root))
    modifies document, from, to
    ensures
      var f, g := Erase(old(from.root)), Erase(old(to.root));
      var t := if document == from then Created(cs, old(from.root), g) else old(document.root);
      var reached := !damaged && status == 0 && Norm(cs, Erase(document.root)) == Norm(cs, g);
      && (TwinsClear(cs, Erase(t), f, g) ==> (reached <==> Unharmed(cs, t, f, g)))
      && (FewTwins(cs, f, g) && reached ==> TwinsClear(cs, Erase(t), f, g))
  {
    hide ApplyAllLinked, Diff, TwinsClear, FewTwins, Unharmed, Created;
    ghost var f, g := Erase(from.root), Erase(to.root);
    CreatedKeeps(cs, from.root, g);
    var patches := CreatePatches(cs, from, to, stale);
    PatchesReachTargetInMemory(cs, document.root, f, g, stale);
    ghost var lost;
    damaged, status, lost := document.Apply(cs, Array(patches));
  }
}
