/** Children that have been lost are not made up for: patches made from `from` and `to` that lose a
    child of a tree equal to `from` never lead to `to`, whatever comes later in the list. */
module LinkedLoss {
  import opened Options
  import opened Strings
  import opened Sort
  import opened Json
  import opened JsonEquality
  import opened JsonPointer
  import opened JsonPatch
  import opened JsonPatchPaths
  import opened JsonPatchRoundTrip
  import opened ChildList
  import opened LinkedJson
  import opened LinkedFields
  import opened LinkedPatch
  import opened LinkedPatchPaths

  // ---------------------------------------------------------------------------
  // One operation on an object

  /** No members are new but those with this key. */
  ghost predicate Shrinks(cs: bool, fs: seq<Field>, fs': seq<Field>, key: string) {
    && DistinctKeys(cs, EraseFields(fs'))
    && forall i :: 0 <= i < |fs'| ==> fs'[i] in fs || FoldString(cs, fs'[i].key) == key
  }

  /** What an operation that succeeds leaves: `n` members, or fewer, and always fewer when
      children have been lost. */
  ghost predicate Leaves(cs: bool, fs: seq<Field>, o: Outcome, key: string, n: int) {
    !o.Damaged? && o.status == 0 ==>
      && o.tree.ObjectNode? && Shrinks(cs, fs, o.tree.fields, key)
      && |o.tree.fields| <= n && (o.Lost? ==> |o.tree.fields| < n)
  }

  lemma ShrinksAgain(cs: bool, a: seq<Field>, b: seq<Field>, c: seq<Field>, key: string)
    requires Shrinks(cs, a, b, key) && Shrinks(cs, b, c, key)
    ensures Shrinks(cs, a, c, key)
  {
  }

  lemma RemovedShrinks(cs: bool, fs: seq<Field>, f: nat, key: string)
    requires DistinctKeys(cs, EraseFields(fs)) && f < |fs|
    ensures Shrinks(cs, fs, RemoveAt(fs, f), key)
  {
    EraseRemoved(fs, f);
    DistinctRemove(cs, EraseFields(fs), f);
  }

  lemma TakeLeaves(cs: bool, l: List<Field>, child: string, key: string)
    requires DistinctKeys(cs, EraseFields(l.items))
    ensures
      var r := TakeFrom(ObjectOf(l), child);
      r.Taken? ==> r.rest.ObjectNode? && Shrinks(cs, l.items, r.rest.fields, key) && |r.rest.fields| == |l.items| - 1
  {
    hide Detach, Shrinks;
    var f := Find(false, EraseFields(l.items), child);
    if f.Some? {
      DetachedItems(l, f.value);
      RemovedShrinks(cs, l.items, f.value, key);
    }
  }

  /** A new member behind others, or behind some of them. */
  lemma GrownShrinks(cs: bool, l: List<Field>, m: Field)
    requires DistinctKeys(cs, EraseFields(l.items)) && Find(cs, EraseFields(l.items), m.key).None?
    ensures
      var g := Grow(l, m);
      !g.Ruined? ==>
        && Shrinks(cs, l.items, g.l.items, FoldString(cs, m.key)) && |g.l.items| <= |l.items| + 1
        && (g.Short? ==> |g.l.items| < |l.items| + 1)
  {
    hide Erase, Compare, Find, DistinctKeys, Norm;
    var ms, x := EraseFields(l.items), Member(m.key, Erase(m.tree));
    NormMembersFind(cs, ms, m.key);
    NormAppend(cs, ms, x);
    assert EraseFields(l.items + [m]) == ms + [x];
    if l.tail.Cached? && l.tail.place < |l.items| {
      var n := l.tail.place + 1;
      FrontDistinct(cs, ms, n, x);
      assert EraseFields(l.items[..n] + [m]) == ms[..n] + [x];
    }
  }

  lemma FrontDistinct(cs: bool, ms: seq<Member>, n: nat, x: Member)
    requires DistinctKeys(cs, ms + [x]) && n <= |ms|
    ensures DistinctKeys(cs, ms[..n] + [x])
  {
    hide DistinctKeys;
    var all, some := ms + [x], ms[..n] + [x];
    forall i, j | 0 <= i < j < |some| ensures FoldString(cs, some[i].key) != FoldString(cs, some[j].key) {
      DistinctFolds(cs, all, i, if j < n then j else |ms|);
    }
    FoldsDistinct(cs, some);
  }

  lemma FoldsDistinct(cs: bool, ms: seq<Member>)
    requires forall i, j :: 0 <= i < j < |ms| ==> FoldString(cs, ms[i].key) != FoldString(cs, ms[j].key)
    ensures DistinctKeys(cs, ms)
  {
    forall i, j | 0 <= i < j < |ms| ensures Compare(cs, MemberKey(ms[i]), MemberKey(ms[j])) != 0 {
      SameKey(cs, ms[i].key, ms[j].key);
    }
  }

  lemma SetLeaves(cs: bool, l: List<Field>, key: string, v: Tree)
    requires DistinctKeys(cs, EraseFields(l.items))
    ensures Leaves(cs, l.items, AddTo(cs, ObjectOf(l), key, v, false), FoldString(cs, key), |l.items| + 1)
    ensures var o := AddTo(cs, ObjectOf(l), key, v, false); !o.Damaged? ==> o.status == 0
  {
    hide Detach, Grow, Shrinks, Find;
    var f, k := Find(cs, EraseFields(l.items), key), FoldString(cs, key);
    if f.None? {
      GrownShrinks(cs, l, Field(key, v));
    } else if Detach(l, f.value).Some? {
      var rest := Detach(l, f.value).value;
      DetachedItems(l, f.value);
      EraseRemoved(l.items, f.value);
      RemovedShrinks(cs, l.items, f.value, k);
      assert Shrinks(cs, l.items, rest.items, k);
      assert DistinctKeys(cs, EraseFields(rest.items)) by { ShrunkDistinct(cs, l.items, rest.items, k); }
      TakenIsGone(cs, EraseFields(l.items), key);
      GrownShrinks(cs, rest, Field(key, v));
      var g := Grow(rest, Field(key, v));
      if !g.Ruined? { ShrinksAgain(cs, l.items, rest.items, g.l.items, k); }
    }
  }

  lemma ShrunkDistinct(cs: bool, fs: seq<Field>, fs': seq<Field>, key: string)
    requires Shrinks(cs, fs, fs', key)
    ensures DistinctKeys(cs, EraseFields(fs'))
  {
  }

  lemma RemoveLeaves(cs: bool, l: List<Field>, key: string)
    requires DistinctKeys(cs, EraseFields(l.items)) && Plain(key)
    ensures
      Leaves(cs, l.items, OpsLinked(cs, ObjectOf(l), [Op("remove", "/" + key, None)]), FoldString(cs, key),
        |l.items| - 1)
  {
    hide OpsLinked, TakeFrom, Shrinks;
    RemoveLinked(cs, ObjectOf(l), key);
    TakeLeaves(cs, l, key, FoldString(cs, key));
  }

  lemma AddLeaves(cs: bool, l: List<Field>, key: string, v: Json)
    requires DistinctKeys(cs, EraseFields(l.items)) && Plain(key)
    ensures
      Leaves(cs, l.items, OpsLinked(cs, ObjectOf(l), [Op("add", "/" + key, Some(v))]), FoldString(cs, key),
        |l.items| + 1)
  {
    hide OpsLinked, AddTo, Shrinks;
    AddLinked(cs, ObjectOf(l), key, v);
    SetLeaves(cs, l, key, Fresh(v));
  }

  lemma ReplaceLeaves(cs: bool, l: List<Field>, key: string, v: Json)
    requires DistinctKeys(cs, EraseFields(l.items)) && Plain(key)
    ensures
      Leaves(cs, l.items, OpsLinked(cs, ObjectOf(l), [Op("replace", "/" + key, Some(v))]), FoldString(cs, key),
        |l.items|)
  {
    hide OpsLinked, TakeFrom, Shrinks;
    var k := FoldString(cs, key);
    ReplaceLinked(cs, ObjectOf(l), key, v);
    TakeLeaves(cs, l, key, k);
    var r := TakeFrom(ObjectOf(l), key);
    if r.Taken? {
      ShrunkDistinct(cs, l.items, r.rest.fields, k);
      AddLeaves(cs, FieldList(r.rest), key, v);
      var o := OpsLinked(cs, r.rest, [Op("add", "/" + key, Some(v))]);
      if !o.Damaged? && o.status == 0 { ShrinksAgain(cs, l.items, r.rest.fields, o.tree.fields, k); }
    }
  }

  lemma NoParent(cs: bool, t: Tree, path: string, v: Tree)
    requires LastSlash(path).Some? && GetTree(cs, t, path[..LastSlash(path).value]).None?
    ensures TakePath(cs, t, path).Missing? && AddTree(cs, t, path, v, false) == Done(9, t)
  {
    hide GetTree, PutTree, TakeFrom, AddTo;
  }

  /** A path through a child that is not there. */
  lemma MissingOp(cs: bool, t: Tree, key: string, op: Op)
    requires Plain(key) && Slot(cs, Erase(t), key).None? && Deep(op)
    ensures var o := OpLinked(cs, t, op.(path := "/" + key + op.path)); o.Done? && o.status != 0
  {
    hide GetTree, TakePath, AddTree, Slot, Transfer, TestTree;
    var p := "/" + key + op.path;
    SplitDeep(key, op.path);
    NotThere(cs, Erase(t), key, op.path[..LastSlash(op.path).value]);
    assert GetTree(cs, t, p[..LastSlash(p).value]).None?;
    NoParent(cs, t, p, if op.value.Some? then Fresh(op.value.value) else t);
  }

  lemma MissingOps(cs: bool, t: Tree, key: string, ops: seq<Op>)
    requires Plain(key) && Slot(cs, Erase(t), key).None? && forall k :: 0 <= k < |ops| ==> Deep(ops[k])
    ensures
      var o := OpsLinked(cs, t, Under("/" + key, ops));
      o.Done? && (o.status == 0 ==> o.tree == t)
  {
    hide OpLinked, Slot, Deep;
    if ops != [] {
      MissingOp(cs, t, key, ops[0]);
      assert Under("/" + key, ops)[0] == ops[0].(path := "/" + key + ops[0].path);
    }
  }

  /** Children lost below one member, and the members as they are then. */
  ghost predicate LostBelow(cs: bool, fs: seq<Field>, fs': seq<Field>, key: string, ops: seq<Op>) {
    var f := Find(cs, EraseFields(fs), key);
    && f.Some?
    && var o := OpsLinked(cs, fs[f.value].tree, ops);
       o.Lost? && o.status == 0 && fs' == fs[f.value := fs[f.value].(tree := o.tree)]
  }

  lemma UnderLeaves(cs: bool, l: List<Field>, key: string, ops: seq<Op>)
    requires DistinctKeys(cs, EraseFields(l.items)) && Plain(key) && forall k :: 0 <= k < |ops| ==> Deep(ops[k])
    ensures
      var o := OpsLinked(cs, ObjectOf(l), Under("/" + key, ops));
      !o.Damaged? && o.status == 0 ==>
        && o.tree.ObjectNode? && Shrinks(cs, l.items, o.tree.fields, FoldString(cs, key))
          && |o.tree.fields| == |l.items|
        && (o.Lost? ==> LostBelow(cs, l.items, o.tree.fields, key, ops))
  {
    hide OpsLinked, Deep;
    var f := Find(cs, EraseFields(l.items), key);
    if f.None? {
      MissingOps(cs, ObjectOf(l), key, ops);
    } else {
      OpsBelow(cs, ObjectOf(l), key, ops);
      var o := OpsLinked(cs, l.items[f.value].tree, ops);
      if !o.Damaged? {
        var fs' := l.items[f.value := l.items[f.value].(tree := o.tree)];
        SetDistinct(cs, l.items, f.value, o.tree);
        SameKey(cs, key, l.items[f.value].key);
      }
    }
  }

  lemma SetDistinct(cs: bool, fs: seq<Field>, f: nat, c: Tree)
    requires DistinctKeys(cs, EraseFields(fs)) && f < |fs|
    ensures DistinctKeys(cs, EraseFields(fs[f := fs[f].(tree := c)]))
  {
    hide Erase;
    var fs' := fs[f := fs[f].(tree := c)];
    var ms, ms' := EraseFields(fs), EraseFields(fs');
    forall i, j | 0 <= i < j < |fs'| ensures Compare(cs, MemberKey(ms'[i]), MemberKey(ms'[j])) != 0 {
      assert Compare(cs, MemberKey(ms[i]), MemberKey(ms[j])) != 0;
    }
  }

  // ---------------------------------------------------------------------------
  // The walk over two member lists

  function HeadName(cs: bool, xs: seq<Member>, ys: seq<Member>): string
    requires xs != [] || ys != []
  {
    FoldString(cs, if KeyOrder(cs, xs, ys) <= 0 then xs[0].key else ys[0].key)
  }

  /** What the operations for the lesser head key leave, if they succeed. */
  ghost predicate HeadLeaves(cs: bool, fs: seq<Field>, xs: seq<Member>, ys: seq<Member>, stale: char, o: Outcome)
    requires xs != [] || ys != []
  {
    !o.Damaged? && o.status == 0 ==>
      var diff := KeyOrder(cs, xs, ys);
      var n := |fs| + (if diff >= 0 then 1 else 0) - (if diff <= 0 then 1 else 0);
      && o.tree.ObjectNode? && Shrinks(cs, fs, o.tree.fields, HeadName(cs, xs, ys)) && |o.tree.fields| <= n
      && (o.Lost? ==>
            || |o.tree.fields| < n
            || (diff == 0
              && LostBelow(cs, fs, o.tree.fields, xs[0].key, Diff(cs, [], xs[0].value, ys[0].value, stale))))
  }

  lemma HeadOps(cs: bool, l: List<Field>, xs: seq<Member>, ys: seq<Member>, stale: char, parent: Json)
    requires Below(xs, parent) && (xs != [] || ys != []) && PlainMembers(xs) && PlainMembers(ys)
    requires DistinctKeys(cs, EraseFields(l.items))
    ensures HeadLeaves(cs, l.items, xs, ys, stale, OpsLinked(cs, ObjectOf(l), FirstOps(cs, xs, ys, stale, parent)))
  {
    hide OpsLinked, Shrinks, LostBelow, Diff, Replaced;
    var diff := KeyOrder(cs, xs, ys);
    if diff > 0 {
      AddLeaves(cs, l, ys[0].key, ys[0].value);
    } else if diff < 0 {
      RemoveLeaves(cs, l, xs[0].key);
    } else {
      ReplacedOps(cs, xs, ys, stale, parent);
      if Replaced(xs[0].value, ys[0].value) {
        ReplaceLeaves(cs, l, xs[0].key, ys[0].value);
      } else {
        DiffShape(cs, xs[0].value, ys[0].value, stale);
        UnderLeaves(cs, l, xs[0].key, Diff(cs, [], xs[0].value, ys[0].value, stale));
      }
    }
  }

  ghost predicate NoKey(cs: bool, ms: seq<Member>, k: string) {
    forall i :: 0 <= i < |ms| ==> FoldString(cs, ms[i].key) != k
  }

  lemma ShrunkWithout(cs: bool, fs: seq<Field>, fs': seq<Field>, key: string, k: string, w: Option<Value>)
    requires Without(cs, EraseFields(fs), k, w) && Shrinks(cs, fs, fs', key) && key != k
    ensures Without(cs, EraseFields(fs'), k, w)
  {
    hide Norm, Erase;
    var ms, ms' := EraseFields(fs), EraseFields(fs');
    NormMembersKeys(cs, ms');
    if k in NormMembers(cs, ms') {
      var i :| 0 <= i < |ms'| && FoldString(cs, ms'[i].key) == k;
      NormMembersAt(cs, ms', i);
      assert fs'[i] in fs;
      var j :| 0 <= j < |fs| && fs[j] == fs'[i];
      assert ms[j] == ms'[i];
      NormMembersAt(cs, ms, j);
    }
  }

  /** What is left at the end, if the list succeeds: no more members than there ought to be, and a
      member that is missing or wrong stays so. */
  ghost predicate EndsWith(cs: bool, o: Outcome, n: int, wrong: bool, k: string, w: Option<Value>) {
    !o.Damaged? && o.status == 0 ==>
      && o.tree.ObjectNode? && DistinctKeys(cs, EraseFields(o.tree.fields)) && |o.tree.fields| <= n
      && (wrong ==> Without(cs, EraseFields(o.tree.fields), k, w))
  }

  lemma {:induction false} WalkEnds(cs: bool, l: List<Field>, xs: seq<Member>, ys: seq<Member>, stale: char,
                                    parent: Json,
                                    k: string, w: Option<Value>)
    requires Below(xs, parent) && PlainMembers(xs) && PlainMembers(ys) && DistinctKeys(cs, EraseFields(l.items))
    ensures
      EndsWith(cs, OpsLinked(cs, ObjectOf(l), DiffMembers(cs, [], xs, ys, stale, parent)), |l.items| + |ys| - |xs|,
               Without(cs, EraseFields(l.items), k, w) && NoKey(cs, xs, k) && NoKey(cs, ys, k), k, w)
    decreases |xs| + |ys|
  {
    hide OpsLinked, DiffMembers, FirstOps, HeadLeaves, EndsWith, DistinctKeys, Without, EraseFields, NoKey,
      PlainMembers;
    if xs == [] && ys == [] {
      NothingDone(cs, ObjectOf(l), stale, parent);
      NothingEnds(cs, l, Without(cs, EraseFields(l.items), k, w) && NoKey(cs, xs, k) && NoKey(cs, ys, k), k, w);
    } else {
      var diff := KeyOrder(cs, xs, ys);
      var xs', ys' := if diff <= 0 then xs[1..] else xs, if diff >= 0 then ys[1..] else ys;
      var first, rest := FirstOps(cs, xs, ys, stale, parent), DiffMembers(cs, [], xs', ys', stale, parent);
      TailsPlain(xs, ys);
      OpsConcat(cs, ObjectOf(l), first, rest);
      HeadOps(cs, l, xs, ys, stale, parent);
      var o := OpsLinked(cs, ObjectOf(l), first);
      if !o.Damaged? && o.status == 0 {
        AfterHead(cs, l.items, xs, ys, stale, o, k, w);
        WalkEnds(cs, FieldList(o.tree), xs', ys', stale, parent, k, w);
        StepEnds(cs, l.items, xs, ys, stale, o, OpsLinked(cs, o.tree, rest), k, w);
      } else {
        FailedEnds(cs, o, rest, |l.items| + |ys| - |xs|,
                   Without(cs, EraseFields(l.items), k, w) && NoKey(cs, xs, k) && NoKey(cs, ys, k), k, w);
      }
    }
  }

  lemma TailsPlain(xs: seq<Member>, ys: seq<Member>)
    requires PlainMembers(xs) && PlainMembers(ys)
    ensures xs != [] ==> PlainMembers(xs[1..])
    ensures ys != [] ==> PlainMembers(ys[1..])
  {
  }

  lemma NothingEnds(cs: bool, l: List<Field>, wrong: bool, k: string, w: Option<Value>)
    requires DistinctKeys(cs, EraseFields(l.items)) && (wrong ==> Without(cs, EraseFields(l.items), k, w))
    ensures EndsWith(cs, Done(0, ObjectOf(l)), |l.items|, wrong, k, w)
  {
    hide Without, DistinctKeys;
  }

  lemma FailedEnds(cs: bool, o: Outcome, ops: seq<Op>, n: int, wrong: bool, k: string, w: Option<Value>)
    requires o.Damaged? || o.status != 0
    ensures EndsWith(cs, Then(cs, o, ops), n, wrong, k, w)
  {
  }

  lemma AfterHead(cs: bool, fs: seq<Field>, xs: seq<Member>, ys: seq<Member>, stale: char, o: Outcome, k: string,
                  w: Option<Value>)
    requires (xs != [] || ys != []) && HeadLeaves(cs, fs, xs, ys, stale, o) && !o.Damaged? && o.status == 0
    ensures o.tree.ObjectNode? && DistinctKeys(cs, EraseFields(o.tree.fields))
    ensures Without(cs, EraseFields(fs), k, w) && NoKey(cs, xs, k) && NoKey(cs, ys, k) ==>
      Without(cs, EraseFields(o.tree.fields), k, w)
  {
    hide LostBelow, Diff, Without, Shrinks;
    ShrunkDistinct(cs, fs, o.tree.fields, HeadName(cs, xs, ys));
    if Without(cs, EraseFields(fs), k, w) && NoKey(cs, xs, k) && NoKey(cs, ys, k) {
      ShrunkWithout(cs, fs, o.tree.fields, HeadName(cs, xs, ys), k, w);
    }
  }

  lemma StepEnds(cs: bool, fs: seq<Field>, xs: seq<Member>, ys: seq<Member>, stale: char, o: Outcome, r: Outcome,
                 k: string, w: Option<Value>)
    requires (xs != [] || ys != []) && HeadLeaves(cs, fs, xs, ys, stale, o) && !o.Damaged? && o.status == 0
    requires
      var diff := KeyOrder(cs, xs, ys);
      var xs', ys' := if diff <= 0 then xs[1..] else xs, if diff >= 0 then ys[1..] else ys;
      EndsWith(cs, r, |o.tree.fields| + |ys'| - |xs'|,
               Without(cs, EraseFields(o.tree.fields), k, w) && NoKey(cs, xs', k) && NoKey(cs, ys', k), k, w)
    ensures
      EndsWith(cs, if o.Lost? then WithLoss(r) else r, |fs| + |ys| - |xs|,
               Without(cs, EraseFields(fs), k, w) && NoKey(cs, xs, k) && NoKey(cs, ys, k), k, w)
  {
    hide LostBelow, Diff, Without, Shrinks, WithLoss, DistinctKeys, Compare;
    AfterHead(cs, fs, xs, ys, stale, o, k, w);
    LossEnds(r);
  }

  lemma LossEnds(o: Outcome)
    ensures WithLoss(o).Damaged? <==> o.Damaged?
    ensures !o.Damaged? ==> WithLoss(o).tree == o.tree && WithLoss(o).status == o.status && WithLoss(o).Lost?
  {
  }

  lemma NothingDone(cs: bool, t: Tree, stale: char, parent: Json)
    ensures OpsLinked(cs, t, DiffMembers(cs, [], [], [], stale, parent)) == Done(0, t)
  {
  }

  // ---------------------------------------------------------------------------
  // A loss in an object, or below it

  /** The members with a key of `xs` are what `xs` says. */
  ghost predicate Right(cs: bool, fs: seq<Field>, xs: seq<Member>) {
    forall i, j :: 0 <= i < |fs| && 0 <= j < |xs| && FoldString(cs, fs[i].key) == FoldString(cs, xs[j].key) ==>
      WellFormed(cs, Erase(fs[i].tree)) && Norm(cs, Erase(fs[i].tree)) == Norm(cs, xs[j].value)
  }

  lemma StillRight(cs: bool, fs: seq<Field>, fs': seq<Field>, key: string, xs: seq<Member>, a: nat)
    requires Right(cs, fs, xs) && Shrinks(cs, fs, fs', key) && a <= |xs| && NoKey(cs, xs[a..], key)
    ensures Right(cs, fs', xs[a..])
  {
    hide WellFormed, Norm, Erase;
    forall i, j | 0 <= i < |fs'| && 0 <= j < |xs[a..]| && FoldString(cs, fs'[i].key) == FoldString(cs, xs[a..][j].key)
      ensures WellFormed(cs, Erase(fs'[i].tree)) && Norm(cs, Erase(fs'[i].tree)) == Norm(cs, xs[a..][j].value)
    {
      assert xs[a..][j] == xs[a + j];
      assert fs'[i] in fs;
      var q :| 0 <= q < |fs| && fs[q] == fs'[i];
    }
  }

  /** A list that loses children and succeeds leaves too few members, or a member of `ys` missing
      or wrong. */
  ghost predicate Misses(cs: bool, o: Outcome, n: int, ys: seq<Member>) {
    o.Lost? && o.status == 0 ==>
      && o.tree.ObjectNode? && DistinctKeys(cs, EraseFields(o.tree.fields))
      && (|o.tree.fields| < n || WrongIn(cs, o.tree.fields, ys))
  }

  ghost predicate WrongIn(cs: bool, fs: seq<Field>, ys: seq<Member>) {
    exists j :: 0 <= j < |ys| && Without(cs, EraseFields(fs), FoldString(cs, ys[j].key), Some(Norm(cs, ys[j].value)))
  }

  /** What the walk needs of the two lists. */
  ghost predicate Walks(cs: bool, xs: seq<Member>, ys: seq<Member>) {
    && WellFormedMembers(cs, xs) && PlainMembers(xs) && StrictlyOrdered(cs, xs, MemberKey)
    && WellFormedMembers(cs, ys) && PlainMembers(ys) && StrictlyOrdered(cs, ys, MemberKey)
  }

  lemma WalksOn(cs: bool, xs: seq<Member>, ys: seq<Member>)
    requires Walks(cs, xs, ys) && (xs != [] || ys != [])
    ensures
      var diff, k := KeyOrder(cs, xs, ys), HeadName(cs, xs, ys);
      var xs', ys' := if diff <= 0 then xs[1..] else xs, if diff >= 0 then ys[1..] else ys;
      Walks(cs, xs', ys') && NoKey(cs, xs', k) && NoKey(cs, ys', k)
  {
    hide WellFormed, Compare;
    HeadsApart(cs, xs, ys);
    TailsOrdered(cs, xs, ys);
    var diff := KeyOrder(cs, xs, ys);
    var xs', ys' := if diff <= 0 then xs[1..] else xs, if diff >= 0 then ys[1..] else ys;
    assert forall i :: 0 <= i < |xs'| ==> xs'[i] == xs[if diff <= 0 then i + 1 else i];
    assert forall i :: 0 <= i < |ys'| ==> ys'[i] == ys[if diff >= 0 then i + 1 else i];
  }

  /** A child that has lost children makes its member wrong. */
  lemma {:induction false} BelowWrong(cs: bool, fs: seq<Field>, fs': seq<Field>, x: Member, y: Member, stale: char)
    requires LostBelow(cs, fs, fs', x.key, Diff(cs, [], x.value, y.value, stale)) && DistinctKeys(cs, EraseFields(fs))
    requires DistinctKeys(cs, EraseFields(fs')) && Right(cs, fs, [x]) && FoldString(cs, x.key) == FoldString(cs, y.key)
    requires WellFormed(cs, x.value) && PlainKeys(x.value) && WellFormed(cs, y.value) && PlainKeys(y.value)
    ensures Without(cs, EraseFields(fs'), FoldString(cs, y.key), Some(Norm(cs, y.value)))
    decreases x.value, 2, 0
  {
    hide OpsLinked, Diff, WellFormed, PlainKeys, Norm, Erase;
    var f := Find(cs, EraseFields(fs), x.key).value;
    SameKey(cs, x.key, fs[f].key);
    assert FoldString(cs, fs[f].key) == FoldString(cs, [x][0].key);
    LossMisses(cs, fs[f].tree, x.value, y.value, stale);
    NormMembersAt(cs, EraseFields(fs'), f);
  }

  lemma NoneMissed(cs: bool, o: Outcome, n: int, ys: seq<Member>)
    requires o.Lost? ==> o.status != 0
    ensures Misses(cs, o, n, ys)
  {
  }

  lemma WalksPlain(cs: bool, xs: seq<Member>, ys: seq<Member>)
    requires Walks(cs, xs, ys)
    ensures PlainMembers(xs) && PlainMembers(ys)
  {
  }

  lemma HeadRight(cs: bool, fs: seq<Field>, xs: seq<Member>, ys: seq<Member>, stale: char, o: Outcome)
    requires (xs != [] || ys != []) && HeadLeaves(cs, fs, xs, ys, stale, o) && !o.Damaged? && o.status == 0
      && Right(cs, fs, xs)
    requires NoKey(cs, if KeyOrder(cs, xs, ys) <= 0 then xs[1..] else xs, HeadName(cs, xs, ys))
    ensures o.tree.ObjectNode? && Right(cs, o.tree.fields, if KeyOrder(cs, xs, ys) <= 0 then xs[1..] else xs)
  {
    hide Shrinks, Right, NoKey, LostBelow, Diff;
    assert xs[0..] == xs;
    StillRight(cs, fs, o.tree.fields, HeadName(cs, xs, ys), xs, if KeyOrder(cs, xs, ys) <= 0 then 1 else 0);
  }

  ghost predicate HeadShort(cs: bool, fs: seq<Field>, xs: seq<Member>, ys: seq<Member>, o: Outcome) {
    var diff := KeyOrder(cs, xs, ys);
    && !o.Damaged? && o.tree.ObjectNode?
    && |o.tree.fields| < |fs| + (if diff >= 0 then 1 else 0) - (if diff <= 0 then 1 else 0)
  }

  lemma MissesOn(cs: bool, fs: seq<Field>, xs: seq<Member>, ys: seq<Member>, stale: char, o: Outcome, r: Outcome)
    requires (xs != [] || ys != []) && HeadLeaves(cs, fs, xs, ys, stale, o) && o.Done? && o.status == 0
      && o.tree.ObjectNode?
    requires
      var diff := KeyOrder(cs, xs, ys);
      var xs', ys' := if diff <= 0 then xs[1..] else xs, if diff >= 0 then ys[1..] else ys;
      Misses(cs, r, |o.tree.fields| + |ys'| - |xs'|, ys')
    ensures Misses(cs, r, |fs| + |ys| - |xs|, ys)
  {
    hide Shrinks, Without, DistinctKeys, LostBelow, Diff, Norm;
    var ys' := if KeyOrder(cs, xs, ys) >= 0 then ys[1..] else ys;
    if r.Lost? && r.status == 0 && WrongIn(cs, r.tree.fields, ys') {
      var fs' := r.tree.fields;
      var j :| 0 <= j < |ys'|
        && Without(cs, EraseFields(fs'), FoldString(cs, ys'[j].key), Some(Norm(cs, ys'[j].value)));
      var j' := if KeyOrder(cs, xs, ys) >= 0 then j + 1 else j;
      assert ys[j'] == ys'[j];
    }
  }

  lemma ShortMisses(cs: bool, fs: seq<Field>, xs: seq<Member>, ys: seq<Member>, o: Outcome, r: Outcome,
                    wrong: bool, k: string)
    requires (xs != [] || ys != []) && HeadShort(cs, fs, xs, ys, o)
    requires
      var diff := KeyOrder(cs, xs, ys);
      var xs', ys' := if diff <= 0 then xs[1..] else xs, if diff >= 0 then ys[1..] else ys;
      EndsWith(cs, r, |o.tree.fields| + |ys'| - |xs'|, wrong, k, None)
    ensures Misses(cs, WithLoss(r), |fs| + |ys| - |xs|, ys)
  {
    hide Without, DistinctKeys;
  }

  lemma {:induction false} HeadWrong(cs: bool, fs: seq<Field>, xs: seq<Member>, ys: seq<Member>, stale: char,
                                     parent: Json, o: Outcome)
    requires Below(xs, parent) && Walks(cs, xs, ys) && (xs != [] || ys != []) && DistinctKeys(cs, EraseFields(fs))
    requires HeadLeaves(cs, fs, xs, ys, stale, o) && o.Lost? && o.status == 0 && !HeadShort(cs, fs, xs, ys, o)
      && Right(cs, fs, xs)
    ensures KeyOrder(cs, xs, ys) == 0 && HeadName(cs, xs, ys) == FoldString(cs, ys[0].key)
    ensures o.tree.ObjectNode?
      && Without(cs, EraseFields(o.tree.fields), FoldString(cs, ys[0].key), Some(Norm(cs, ys[0].value)))
    decreases parent, 0, 0
  {
    hide Shrinks, Without, LostBelow, Diff, Norm, WellFormed, PlainKeys, Erase, Compare;
    ShrunkDistinct(cs, fs, o.tree.fields, HeadName(cs, xs, ys));
    SameKey(cs, xs[0].key, ys[0].key);
    forall i | 0 <= i < |fs| && FoldString(cs, fs[i].key) == FoldString(cs, [xs[0]][0].key)
      ensures WellFormed(cs, Erase(fs[i].tree)) && Norm(cs, Erase(fs[i].tree)) == Norm(cs, [xs[0]][0].value)
    {
    }
    BelowWrong(cs, fs, o.tree.fields, xs[0], ys[0], stale);
  }

  lemma WrongMisses(cs: bool, r: Outcome, m: int, n: int, ys: seq<Member>, k: string)
    requires ys != [] && k == FoldString(cs, ys[0].key) && EndsWith(cs, r, m, true, k, Some(Norm(cs, ys[0].value)))
    ensures Misses(cs, WithLoss(r), n, ys)
  {
    hide Without, DistinctKeys, Norm;
  }

  lemma {:induction false} WalkMisses(cs: bool, l: List<Field>, xs: seq<Member>, ys: seq<Member>, stale: char,
                                      parent: Json)
    requires Below(xs, parent) && Walks(cs, xs, ys) && DistinctKeys(cs, EraseFields(l.items)) && Right(cs, l.items, xs)
    ensures
      Misses(cs, OpsLinked(cs, ObjectOf(l), DiffMembers(cs, [], xs, ys, stale, parent)), |l.items| + |ys| - |xs|, ys)
    decreases parent, 0, |xs| + |ys|
  {
    hide OpsLinked, DiffMembers, FirstOps, HeadLeaves, EndsWith, DistinctKeys, Without, EraseFields, NoKey,
      PlainMembers,
      Misses, Right, Walks, Shrinks, LostBelow, Diff;
    if xs == [] && ys == [] {
      NothingDone(cs, ObjectOf(l), stale, parent);
      NoneMissed(cs, Done(0, ObjectOf(l)), |l.items|, ys);
    } else {
      var diff, k := KeyOrder(cs, xs, ys), HeadName(cs, xs, ys);
      var xs', ys' := if diff <= 0 then xs[1..] else xs, if diff >= 0 then ys[1..] else ys;
      WalksPlain(cs, xs, ys);
      var first, rest := FirstOps(cs, xs, ys, stale, parent), DiffMembers(cs, [], xs', ys', stale, parent);
      WalksOn(cs, xs, ys);
      OpsConcat(cs, ObjectOf(l), first, rest);
      HeadOps(cs, l, xs, ys, stale, parent);
      var o := OpsLinked(cs, ObjectOf(l), first);
      if o.Damaged? || o.status != 0 {
        NoneMissed(cs, Then(cs, o, rest), |l.items| + |ys| - |xs|, ys);
      } else {
        AfterHead(cs, l.items, xs, ys, stale, o, k, None);
        var l' := FieldList(o.tree);
        if o.Done? {
          HeadRight(cs, l.items, xs, ys, stale, o);
          WalkMisses(cs, l', xs', ys', stale, parent);
          MissesOn(cs, l.items, xs, ys, stale, o, OpsLinked(cs, o.tree, rest));
        } else if HeadShort(cs, l.items, xs, ys, o) {
          WalksPlain(cs, xs', ys');
          WalkEnds(cs, l', xs', ys', stale, parent, k, None);
          ShortMisses(cs, l.items, xs, ys, o, OpsLinked(cs, o.tree, rest),
                      Without(cs, EraseFields(l'.items), k, None) && NoKey(cs, xs', k) && NoKey(cs, ys', k), k);
        } else {
          WalksPlain(cs, xs', ys');
          HeadWrong(cs, l.items, xs, ys, stale, parent, o);
          WalkEnds(cs, l', xs', ys', stale, parent, k, Some(Norm(cs, ys[0].value)));
          assert Without(cs, EraseFields(l'.items), k, Some(Norm(cs, ys[0].value))) && NoKey(cs, xs', k)
            && NoKey(cs, ys', k);
          WrongMisses(cs, OpsLinked(cs, o.tree, rest), |l'.items| + |ys'| - |xs'|, |l.items| + |ys| - |xs|, ys, k);
        }
      }
    }
  }

  lemma {:induction false} CountKeys(cs: bool, ms: seq<Member>)
    ensures |NormMembers(cs, ms).Keys| <= |ms|
    ensures DistinctKeys(cs, ms) ==> |NormMembers(cs, ms).Keys| == |ms|
  {
    if ms != [] {
      var rest, k := ms[1..], FoldString(cs, ms[0].key);
      CountKeys(cs, rest);
      assert NormMembers(cs, ms).Keys == NormMembers(cs, rest).Keys + {k};
      if DistinctKeys(cs, ms) {
        assert RemoveAt(ms, 0) == rest;
        NormRemove(cs, ms, 0);
        assert k !in NormMembers(cs, rest);
      }
    }
  }

  /** Too few members, or a wrong one, is not the object. */
  lemma MissedObject(cs: bool, fs: seq<Field>, tail: Tail, ns: seq<Member>, ys: seq<Member>)
    requires DistinctKeys(cs, EraseFields(fs)) && DistinctKeys(cs, ns) && DistinctKeys(cs, ys)
    requires NormMembers(cs, ys) == NormMembers(cs, ns) && |ys| == |ns|
    requires |fs| < |ns| || WrongIn(cs, fs, ys)
    ensures Norm(cs, Erase(ObjectNode(fs, tail))) != Norm(cs, Object(ns))
  {
    CountKeys(cs, EraseFields(fs));
    CountKeys(cs, ns);
    if WrongIn(cs, fs, ys) {
      var j :| 0 <= j < |ys| && Without(cs, EraseFields(fs), FoldString(cs, ys[j].key), Some(Norm(cs, ys[j].value)));
      NormMembersAt(cs, ys, j);
    }
  }

  lemma {:induction false} ObjectMisses(cs: bool, t: Tree, from: Json, to: Json, stale: char)
    requires Equal(cs, t, from, to) && from.Object? && to.Object?
    ensures
      var o := OpsLinked(cs, t, Diff(cs, [], from, to, stale));
      o.Lost? && o.status == 0 ==> Norm(cs, Erase(o.tree)) != Norm(cs, to)
    decreases from, 0, |from.members| + |to.members| + 1
  {
    hide OpsLinked, DiffMembers, Misses, SortMembers, Right, NormMembers;
    var ms, ns := from.members, to.members;
    var xs, ys := SortMembers(cs, ms), SortMembers(cs, ns);
    SortMembersNorm(cs, ms);
    SortMembersNorm(cs, ns);
    SortedBelow(cs, from);
    SortedParts(cs, ms);
    SortedParts(cs, ns);
    assert t.ObjectNode?;
    StartRight(cs, t.fields, ms, xs);
    WalkMisses(cs, FieldList(t), xs, ys, stale, from);
    var o := OpsLinked(cs, t, Diff(cs, [], from, to, stale));
    if o.Lost? && o.status == 0 { MissedBy(cs, o, ns, ys, |ns|); }
  }

  lemma MissedBy(cs: bool, o: Outcome, ns: seq<Member>, ys: seq<Member>, n: int)
    requires o.Lost? && o.status == 0 && Misses(cs, o, n, ys) && n == |ns| == |ys|
    requires DistinctKeys(cs, ns) && DistinctKeys(cs, ys) && NormMembers(cs, ys) == NormMembers(cs, ns)
    ensures Norm(cs, Erase(o.tree)) != Norm(cs, Object(ns))
  {
    hide Norm, WrongIn, DistinctKeys, Erase;
    MissedObject(cs, o.tree.fields, o.tree.tail, ns, ys);
  }

  lemma StartRight(cs: bool, fs: seq<Field>, ms: seq<Member>, xs: seq<Member>)
    requires DistinctKeys(cs, EraseFields(fs)) && NormMembers(cs, EraseFields(fs)) == NormMembers(cs, ms)
    requires forall i :: 0 <= i < |fs| ==> WellFormed(cs, EraseFields(fs)[i].value)
    requires DistinctKeys(cs, ms) && DistinctKeys(cs, xs) && NormMembers(cs, xs) == NormMembers(cs, ms) && |xs| == |ms|
    ensures Right(cs, fs, xs) && |fs| == |xs|
  {
    hide Norm, WellFormed, Erase;
    CountKeys(cs, EraseFields(fs));
    CountKeys(cs, ms);
    forall i, j | 0 <= i < |fs| && 0 <= j < |xs| && FoldString(cs, fs[i].key) == FoldString(cs, xs[j].key)
      ensures WellFormed(cs, Erase(fs[i].tree)) && Norm(cs, Erase(fs[i].tree)) == Norm(cs, xs[j].value)
    {
      assert EraseFields(fs)[i].value == Erase(fs[i].tree);
      NormMembersAt(cs, EraseFields(fs), i);
      NormMembersAt(cs, xs, j);
    }
  }

  // ---------------------------------------------------------------------------
  // A loss in an array, or below it

  /** What an operation that succeeds leaves of an array: `n` elements, or fewer; all of them when no
      child has been lost, and then the elements in front of `at` and behind `at` as they were. */
  ghost predicate LeavesItems(es: seq<Tree>, o: Outcome, n: int, at: nat, from: nat, to: nat) {
    !o.Damaged? && o.status == 0 ==>
      && o.tree.ArrayNode? && |o.tree.elements| <= n
      && (at + from <= |es| ==> |o.tree.elements| < n || SameAround(es, o.tree.elements, at, from, to))
      && (o.Lost? ==> |o.tree.elements| < n)
  }

  /** `from` elements at a place have made way for `to` others. */
  ghost predicate SameAround(es: seq<Tree>, es': seq<Tree>, at: nat, from: nat, to: nat) {
    && at + from <= |es| && at + to <= |es'|
    && es'[..at] == es[..at] && es'[at + to..] == es[at + from..]
  }

  lemma IndexIs(n: nat)
    ensures Plain(Decimal(n)) && Decimal(n) != "-" && DecodeArrayIndex(Decimal(n)) == Some(n)
  {
    DecodeDecimal(n, []);
    assert Decimal(n) + [] == Decimal(n);
    PlainNotDash(n);
  }

  lemma RemoveItem(cs: bool, l: List<Tree>, n: nat)
    ensures LeavesItems(l.items, OpsLinked(cs, ArrayOf(l), [Op("remove", "/" + Decimal(n), None)]), |l.items| - 1, n, 1,
      0)
  {
    hide Detach, OpsLinked;
    IndexIs(n);
    RemoveLinked(cs, ArrayOf(l), Decimal(n));
    if n < |l.items| { DetachedItems(l, n); }
  }

  lemma GrownItems(l: List<Tree>, v: Tree)
    ensures
      var g := Grow(l, v);
      !g.Ruined? ==>
        |g.l.items| <= |l.items| + 1 && (g.Short? ==> |g.l.items| < |l.items| + 1)
        && (g.Whole? ==> g.l.items == l.items + [v])
  {
  }

  lemma AddItemLeaves(cs: bool, l: List<Tree>, v: Json)
    ensures
      LeavesItems(l.items, OpsLinked(cs, ArrayOf(l), [Op("add", "/-", Some(v))]), |l.items| + 1, |l.items|, 0, 1)
  {
    hide OpsLinked, Grow;
    AddLinked(cs, ArrayOf(l), "-", v);
    assert "/" + "-" == "/-";
    GrownItems(l, Fresh(v));
  }

  lemma ReplaceItem(cs: bool, l: List<Tree>, n: nat, v: Json)
    ensures
      LeavesItems(l.items, OpsLinked(cs, ArrayOf(l), [Op("replace", "/" + Decimal(n), Some(v))]), |l.items|, n, 1, 1)
  {
    hide Detach, OpsLinked, Grow;
    IndexIs(n);
    ReplaceLinked(cs, ArrayOf(l), Decimal(n), v);
    if n < |l.items| && Detach(l, n).Some? {
      var rest := Detach(l, n).value;
      DetachedItems(l, n);
      AddLinked(cs, ArrayOf(rest), Decimal(n), v);
      GrownItems(rest, Fresh(v));
      assert n < |rest.items| ==>
        Insert(rest, n, Fresh(v), false).value.items == l.items[..n] + [Fresh(v)] + l.items[n + 1..];
    }
  }

  /** Children lost below one element, and the elements as they are then. */
  ghost predicate LostAt(cs: bool, es: seq<Tree>, es': seq<Tree>, n: nat, ops: seq<Op>) {
    && n < |es|
    && var o := OpsLinked(cs, es[n], ops);
       o.Lost? && o.status == 0 && es' == es[n := o.tree]
  }

  lemma UnderItem(cs: bool, l: List<Tree>, n: nat, ops: seq<Op>)
    requires forall k :: 0 <= k < |ops| ==> Deep(ops[k])
    ensures
      var o := OpsLinked(cs, ArrayOf(l), Under("/" + Decimal(n), ops));
      !o.Damaged? && o.status == 0 ==>
        && o.tree.ArrayNode? && |o.tree.elements| == |l.items|
        && (n + 1 <= |l.items| ==> SameAround(l.items, o.tree.elements, n, 1, 1))
        && (o.Lost? ==> LostAt(cs, l.items, o.tree.elements, n, ops))
  {
    hide OpsLinked, Deep;
    IndexIs(n);
    if n < |l.items| {
      OpsBelow(cs, ArrayOf(l), Decimal(n), ops);
    } else {
      MissingOps(cs, ArrayOf(l), Decimal(n), ops);
    }
  }

  /** What the operations for the first elements leave, if they succeed. */
  ghost predicate HeadItems(cs: bool, es: seq<Tree>, xs: seq<Json>, ys: seq<Json>, n: nat, stale: char, o: Outcome) {
    !o.Damaged? && o.status == 0 ==>
      var (a, b) := (if xs != [] then 1 else 0, if ys != [] then 1 else 0);
      && o.tree.ArrayNode? && |o.tree.elements| <= |es| + b - a
      && (|es| == n + |xs| ==> |o.tree.elements| < |es| + b - a || SameAround(es, o.tree.elements, n, a, b))
      && (o.Lost? ==>
            || |o.tree.elements| < |es| + b - a
            || (xs != [] && ys != [] && LostAt(cs, es, o.tree.elements, n, Diff(cs, [], xs[0], ys[0], stale))))
  }

  lemma HeadItemOps(cs: bool, l: List<Tree>, xs: seq<Json>, ys: seq<Json>, n: nat, stale: char, parent: Json)
    requires (xs != [] || ys != []) && forall i :: 0 <= i < |xs| ==> xs[i] < parent
    ensures HeadItems(cs, l.items, xs, ys, n, stale,
      OpsLinked(cs, ArrayOf(l), FirstItemOps(cs, xs, ys, n, stale, parent)))
  {
    hide OpsLinked, Diff, Replaced, LostAt, SameAround;
    if xs == [] {
      AddItemLeaves(cs, l, ys[0]);
    } else if ys == [] {
      RemoveItem(cs, l, n);
    } else {
      BelowShape(cs, Decimal(n), xs[0], ys[0], stale);
      DiffShape(cs, xs[0], ys[0], stale);
      if Replaced(xs[0], ys[0]) {
        assert Under("/" + Decimal(n), [Op("replace", [], Some(ys[0]))]) ==
          [Op("replace", "/" + Decimal(n), Some(ys[0]))]
        by { assert "/" + Decimal(n) + [] == "/" + Decimal(n); }
        ReplaceItem(cs, l, n, ys[0]);
      } else {
        UnderItem(cs, l, n, Diff(cs, [], xs[0], ys[0], stale));
      }
    }
  }

  /** What is left at the end: no more elements than there ought to be, and the first ones as they
      were, unless some are missing. */
  ghost predicate ItemsEnd(es: seq<Tree>, o: Outcome, n: int, exact: bool, kept: nat) {
    !o.Damaged? && o.status == 0 ==>
      && o.tree.ArrayNode? && |o.tree.elements| <= n
      && (exact ==>
        |o.tree.elements| < n || (kept <= |es| && kept <= |o.tree.elements| && o.tree.elements[..kept] == es[..kept]))
  }

  lemma NoItemsLeft(cs: bool, t: Tree, n: nat, stale: char, parent: Json)
    ensures OpsLinked(cs, t, DiffItems(cs, [], [], [], n, stale, parent)) == Done(0, t)
  {
  }

  lemma {:induction false} RestEnds(cs: bool, l: List<Tree>, xs: seq<Json>, ys: seq<Json>, n: nat, stale: char,
                                    parent: Json)
    requires forall i :: 0 <= i < |xs| ==> xs[i] < parent
    ensures ItemsEnd(l.items, OpsLinked(cs, ArrayOf(l), DiffItems(cs, [], xs, ys, n, stale, parent)),
      |l.items| + |ys| - |xs|,
                     |l.items| == n + |xs|, n)
    decreases |xs| + |ys|
  {
    hide OpsLinked, DiffItems, FirstItemOps, HeadItems, ItemsEnd;
    if xs == [] && ys == [] {
      NoItemsLeft(cs, ArrayOf(l), n, stale, parent);
      NoneTaken(l, |l.items| == n + |xs|, n);
    } else {
      var xs', ys' := if xs != [] then xs[1..] else xs, if ys != [] then ys[1..] else ys;
      var n' := if ys != [] then n + 1 else n;
      var first, rest := FirstItemOps(cs, xs, ys, n, stale, parent), DiffItems(cs, [], xs', ys', n', stale, parent);
      OpsConcat(cs, ArrayOf(l), first, rest);
      HeadItemOps(cs, l, xs, ys, n, stale, parent);
      var o := OpsLinked(cs, ArrayOf(l), first);
      if !o.Damaged? && o.status == 0 {
        AnArray(cs, l.items, xs, ys, n, stale, o);
        RestEnds(cs, Elements(o.tree), xs', ys', n', stale, parent);
        StepEndsItems(cs, l.items, xs, ys, n, stale, o, OpsLinked(cs, o.tree, rest));
      } else {
        FailedItems(cs, l.items, o, rest, |l.items| + |ys| - |xs|, |l.items| == n + |xs|, n);
      }
    }
  }

  lemma NoneTaken(l: List<Tree>, exact: bool, n: nat)
    requires exact ==> |l.items| == n
    ensures ItemsEnd(l.items, Done(0, ArrayOf(l)), |l.items|, exact, n)
  {
  }

  lemma AnArray(cs: bool, es: seq<Tree>, xs: seq<Json>, ys: seq<Json>, n: nat, stale: char, o: Outcome)
    requires HeadItems(cs, es, xs, ys, n, stale, o) && !o.Damaged? && o.status == 0
    ensures o.tree.ArrayNode?
  {
  }

  lemma FailedItems(cs: bool, es: seq<Tree>, o: Outcome, ops: seq<Op>, n: int, exact: bool, kept: nat)
    requires o.Damaged? || o.status != 0
    ensures ItemsEnd(es, Then(cs, o, ops), n, exact, kept)
  {
  }

  lemma StepEndsItems(cs: bool, es: seq<Tree>, xs: seq<Json>, ys: seq<Json>, n: nat, stale: char, o: Outcome,
                      r: Outcome)
    requires (xs != [] || ys != []) && HeadItems(cs, es, xs, ys, n, stale, o) && !o.Damaged? && o.status == 0
      && o.tree.ArrayNode?
    requires
      var xs', ys' := if xs != [] then xs[1..] else xs, if ys != [] then ys[1..] else ys;
      var n' := if ys != [] then n + 1 else n;
      ItemsEnd(o.tree.elements, r, |o.tree.elements| + |ys'| - |xs'|, |o.tree.elements| == n' + |xs'|, n')
    ensures ItemsEnd(es, if o.Lost? then WithLoss(r) else r, |es| + |ys| - |xs|, |es| == n + |xs|, n)
  {
    hide LostAt, Diff, WithLoss;
    LossEnds(r);
    if !r.Damaged? && r.status == 0 && |es| == n + |xs| && |r.tree.elements| == |es| + |ys| - |xs| {
      var es', es'' := o.tree.elements, r.tree.elements;
      assert es''[..n] == es''[..if ys != [] then n + 1 else n][..n] == es'[..n];
    }
  }

  /** The elements left are what `xs` says. */
  ghost predicate RightItems(cs: bool, es: seq<Tree>, xs: seq<Json>) {
    |es| == |xs| && forall i :: 0 <= i < |xs| ==>
      WellFormed(cs, Erase(es[i])) && Norm(cs, Erase(es[i])) == Norm(cs, xs[i])
  }

  ghost predicate Plains(cs: bool, xs: seq<Json>) {
    forall i :: 0 <= i < |xs| ==> WellFormed(cs, xs[i]) && PlainKeys(xs[i])
  }

  lemma ItemsOn(cs: bool, es: seq<Tree>, xs: seq<Json>, ys: seq<Json>)
    requires RightItems(cs, es, xs) && Plains(cs, xs) && Plains(cs, ys)
    ensures xs != [] ==> RightItems(cs, es[1..], xs[1..]) && Plains(cs, xs[1..])
    ensures ys != [] ==> Plains(cs, ys[1..])
  {
    hide WellFormed, Norm, PlainKeys, Erase;
  }

  /** A list that loses children and succeeds leaves too few elements, or a wrong one. */
  ghost predicate MissesItems(cs: bool, o: Outcome, n: int, at: nat, ys: seq<Json>) {
    o.Lost? && o.status == 0 ==> o.tree.ArrayNode? && (|o.tree.elements| < n || WrongAt(cs, o.tree.elements, at, ys))
  }

  ghost predicate WrongAt(cs: bool, es: seq<Tree>, at: nat, ys: seq<Json>) {
    exists j :: 0 <= j < |ys| && at + j < |es| && Norm(cs, Erase(es[at + j])) != Norm(cs, ys[j])
  }

  lemma {:induction false} ItemsMiss(cs: bool, l: List<Tree>, xs: seq<Json>, ys: seq<Json>, n: nat, stale: char,
                                     parent: Json)
    requires forall i :: 0 <= i < |xs| ==> xs[i] < parent
    requires |l.items| == n + |xs| && RightItems(cs, l.items[n..], xs) && Plains(cs, xs) && Plains(cs, ys)
    ensures
      MissesItems(cs, OpsLinked(cs, ArrayOf(l), DiffItems(cs, [], xs, ys, n, stale, parent)), |l.items| + |ys| - |xs|,
        n, ys)
    decreases parent, 0, |xs| + |ys|
  {
    hide OpsLinked, DiffItems, FirstItemOps, HeadItems, ItemsEnd, MissesItems, RightItems, Plains, Diff;
    if xs == [] && ys == [] {
      NoItemsLeft(cs, ArrayOf(l), n, stale, parent);
      NoItemMissed(cs, Done(0, ArrayOf(l)), |l.items|, n, ys);
    } else {
      var xs', ys' := if xs != [] then xs[1..] else xs, if ys != [] then ys[1..] else ys;
      var n' := if ys != [] then n + 1 else n;
      var first, rest := FirstItemOps(cs, xs, ys, n, stale, parent), DiffItems(cs, [], xs', ys', n', stale, parent);
      OpsConcat(cs, ArrayOf(l), first, rest);
      HeadItemOps(cs, l, xs, ys, n, stale, parent);
      ItemsOn(cs, l.items[n..], xs, ys);
      var o := OpsLinked(cs, ArrayOf(l), first);
      if o.Damaged? || o.status != 0 {
        NoItemMissed(cs, Then(cs, o, rest), |l.items| + |ys| - |xs|, n, ys);
      } else {
        AnArray(cs, l.items, xs, ys, n, stale, o);
        var l' := Elements(o.tree);
        if |l'.items| < |l.items| + |ys| - |ys'| - |xs| + |xs'| {
          RestEnds(cs, l', xs', ys', n', stale, parent);
          ShortItems(cs, l.items, xs, ys, n, o, OpsLinked(cs, o.tree, rest), |l'.items| == n' + |xs'|, n');
        } else if o.Done? {
          HeadExact(cs, l.items, xs, ys, n, stale, o);
          ItemsMiss(cs, l', xs', ys', n', stale, parent);
          MissesItemsOn(cs, OpsLinked(cs, o.tree, rest), |l.items| + |ys| - |xs|, n, ys);
        } else {
          HeadExact(cs, l.items, xs, ys, n, stale, o);
          HeadItemWrong(cs, l.items, xs, ys, n, stale, parent, o);
          RestEnds(cs, l', xs', ys', n', stale, parent);
          WrongStays(cs, l'.items, OpsLinked(cs, o.tree, rest), |l.items| + |ys| - |xs|, n, ys);
        }
      }
    }
  }

  lemma NoItemMissed(cs: bool, o: Outcome, n: int, at: nat, ys: seq<Json>)
    requires o.Lost? ==> o.status != 0
    ensures MissesItems(cs, o, n, at, ys)
  {
  }

  lemma ShortItems(cs: bool, es: seq<Tree>, xs: seq<Json>, ys: seq<Json>, n: nat, o: Outcome, r: Outcome, exact: bool,
                   kept: nat)
    requires !o.Damaged? && o.tree.ArrayNode?
    requires
      var xs', ys' := if xs != [] then xs[1..] else xs, if ys != [] then ys[1..] else ys;
      && |o.tree.elements| < |es| + |ys| - |ys'| - |xs| + |xs'|
      && ItemsEnd(o.tree.elements, r, |o.tree.elements| + |ys'| - |xs'|, exact, kept)
    ensures MissesItems(cs, r, |es| + |ys| - |xs|, n, ys) && MissesItems(cs, WithLoss(r), |es| + |ys| - |xs|, n, ys)
  {
    LossEnds(r);
  }

  /** The elements behind those dealt with. */
  lemma HeadExact(cs: bool, es: seq<Tree>, xs: seq<Json>, ys: seq<Json>, n: nat, stale: char, o: Outcome)
    requires HeadItems(cs, es, xs, ys, n, stale, o) && !o.Damaged? && o.status == 0 && o.tree.ArrayNode?
      && |es| == n + |xs|
    requires
      var xs', ys' := if xs != [] then xs[1..] else xs, if ys != [] then ys[1..] else ys;
      |o.tree.elements| >= |es| + |ys| - |ys'| - |xs| + |xs'|
    ensures
      var xs', n' := if xs != [] then xs[1..] else xs, if ys != [] then n + 1 else n;
      && |o.tree.elements| == n' + |xs'|
      && o.tree.elements[n'..] == if xs != [] then es[n..][1..] else es[n..]
    ensures o.Lost? ==> xs != [] && ys != [] && LostAt(cs, es, o.tree.elements, n, Diff(cs, [], xs[0], ys[0], stale))
  {
    hide LostAt, Diff;
    if xs != [] { assert es[n..][1..] == es[n + 1..]; }
  }

  lemma MissesItemsOn(cs: bool, r: Outcome, m: int, n: nat, ys: seq<Json>)
    requires MissesItems(cs, r, m, if ys != [] then n + 1 else n, if ys != [] then ys[1..] else ys)
    ensures MissesItems(cs, r, m, n, ys)
  {
    hide Norm, Erase;
    if r.Lost? && r.status == 0 && |r.tree.elements| >= m && ys != [] {
      var es := r.tree.elements;
      var j :| 0 <= j < |ys[1..]| && n + 1 + j < |es| && Norm(cs, Erase(es[n + 1 + j])) != Norm(cs, ys[1..][j]);
      assert ys[j + 1] == ys[1..][j];
      assert n + (j + 1) == n + 1 + j;
    }
  }

  lemma {:induction false} HeadItemWrong(cs: bool, es: seq<Tree>, xs: seq<Json>, ys: seq<Json>, n: nat, stale: char,
                                         parent: Json,
                                         o: Outcome)
    requires xs != [] && ys != [] && xs[0] < parent && |es| == n + |xs|
    requires o.Lost? && o.tree.ArrayNode? && LostAt(cs, es, o.tree.elements, n, Diff(cs, [], xs[0], ys[0], stale))
    requires RightItems(cs, es[n..], xs) && Plains(cs, xs) && Plains(cs, ys)
    ensures Norm(cs, Erase(o.tree.elements[n])) != Norm(cs, ys[0])
    decreases parent, 0, 0
  {
    hide OpsLinked, Diff, WellFormed, PlainKeys, Norm, Erase;
    assert es[n..][0] == es[n];
    LossMisses(cs, es[n], xs[0], ys[0], stale);
  }

  lemma WrongStays(cs: bool, es: seq<Tree>, r: Outcome, m: int, n: nat, ys: seq<Json>)
    requires n < |es| && ys != [] && Norm(cs, Erase(es[n])) != Norm(cs, ys[0]) && ItemsEnd(es, r, m, true, n + 1)
    ensures MissesItems(cs, WithLoss(r), m, n, ys)
  {
    hide Norm, Erase;
    LossEnds(r);
    if !r.Damaged? && r.status == 0 && |r.tree.elements| >= m {
      var es' := r.tree.elements;
      assert es'[n] == es'[..n + 1][n] == es[..n + 1][n] == es[n];
      assert n + 0 < |es'| && Norm(cs, Erase(es'[n + 0])) != Norm(cs, ys[0]);
    }
  }

  lemma {:induction false} ArrayMisses(cs: bool, t: Tree, from: Json, to: Json, stale: char)
    requires Equal(cs, t, from, to) && from.Array? && to.Array?
    ensures
      var o := OpsLinked(cs, t, Diff(cs, [], from, to, stale));
      o.Lost? && o.status == 0 ==> Norm(cs, Erase(o.tree)) != Norm(cs, to)
    decreases from, 0, |from.items| + |to.items| + 1
  {
    hide OpsLinked, DiffItems, MissesItems;
    assert t.ArrayNode?;
    var es, ys := t.elements, to.items;
    assert es[0..] == es;
    StartRightItems(cs, es, from.items);
    assert Diff(cs, [], from, to, stale) == DiffItems(cs, [], from.items, ys, 0, stale, from);
    ItemsMiss(cs, Elements(t), from.items, ys, 0, stale, from);
    var o := OpsLinked(cs, t, Diff(cs, [], from, to, stale));
    if o.Lost? && o.status == 0 { MissedArray(cs, o, ys); }
  }

  lemma StartRightItems(cs: bool, es: seq<Tree>, xs: seq<Json>)
    requires WellFormed(cs, Array(EraseAll(es))) && Norm(cs, Array(EraseAll(es))) == Norm(cs, Array(xs))
    ensures RightItems(cs, es, xs)
  {
    SameItems(cs, EraseAll(es), xs);
    forall i | 0 <= i < |es| ensures WellFormed(cs, Erase(es[i])) && Norm(cs, Erase(es[i])) == Norm(cs, xs[i]) {
      assert EraseAll(es)[i] == Erase(es[i]);
    }
  }

  lemma MissedArray(cs: bool, o: Outcome, ys: seq<Json>)
    requires o.Lost? && o.status == 0 && MissesItems(cs, o, |ys|, 0, ys)
    ensures Norm(cs, Erase(o.tree)) != Norm(cs, Array(ys))
  {
    var es := o.tree.elements;
    SameItems(cs, EraseAll(es), ys);
    if |es| >= |ys| {
      var j :| 0 <= j < |ys| && 0 + j < |es| && Norm(cs, Erase(es[0 + j])) != Norm(cs, ys[j]);
      assert EraseAll(es)[j] == Erase(es[j]);
    }
  }

  // ---------------------------------------------------------------------------
  // A loss anywhere

  /** The tree is `from` as a value. */
  ghost predicate Equal(cs: bool, t: Tree, from: Json, to: Json) {
    && WellFormed(cs, from) && PlainKeys(from) && WellFormed(cs, to) && PlainKeys(to)
    && WellFormed(cs, Erase(t)) && Norm(cs, Erase(t)) == Norm(cs, from)
  }

  /** For every tree equal to `from`, whatever its lists cache and with twins or without: patches
      that lose a child of it do not lead to `to`. */
  lemma {:induction false} LossMisses(cs: bool, t: Tree, from: Json, to: Json, stale: char)
    requires Equal(cs, t, from, to)
    ensures
      var o := OpsLinked(cs, t, Diff(cs, [], from, to, stale));
      o.Lost? && o.status == 0 ==> Norm(cs, Erase(o.tree)) != Norm(cs, to)
    decreases from, 1, 0
  {
    if Replaced(from, to) {
      DiffShape(cs, from, to, stale);
      OneLinked(cs, t, Op("replace", [], Some(to)));
    } else if from.Array? {
      ArrayMisses(cs, t, from, to, stale);
    } else if from.Object? {
      ObjectMisses(cs, t, from, to, stale);
    } else {
      assert OpsLinked(cs, t, []) == Done(0, t);
    }
  }
}
