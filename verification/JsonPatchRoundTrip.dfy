/** The law JSON Patch is for: applying the patches made from `from` and `to` to `from`
    gives `to`.  "Gives" means equal as a value (objects as maps, arrays in order).  Here
    children are sequences; `LinkedPatchLaw` is about the lists the code has. */
module JsonPatchRoundTrip {
  import opened Options
  import opened Strings
  import opened Sort
  import opened Json
  import opened JsonEquality
  import opened JsonPointer
  import opened JsonPatch
  import opened JsonPatchPaths
  import opened JsonTargets

  // ---------------------------------------------------------------------------
  // What the two trees must be like

  /** No key that pointer escaping would have to touch. */
  ghost predicate PlainKeys(j: Json) {
    match j
    case Array(items) => forall i :: 0 <= i < |items| ==> PlainKeys(items[i])
    case Object(ms) => forall i :: 0 <= i < |ms| ==> Plain(ms[i].key) && PlainKeys(ms[i].value)
    case _ => true
  }

  ghost predicate PlainMembers(ms: seq<Member>) {
    forall i :: 0 <= i < |ms| ==> Plain(ms[i].key) && PlainKeys(ms[i].value)
  }

  ghost predicate WellFormedMembers(cs: bool, ms: seq<Member>) {
    forall i :: 0 <= i < |ms| ==> WellFormed(cs, ms[i].value)
  }

  /** `create_patches` replaces the first value by the second as a whole. */
  predicate Replaced(from: Json, to: Json) {
    Tag(from) != Tag(to) || (from.Number? && from.n != to.n) || (from.String? && from.s != to.s)
  }

  /** A list made at the root replaces the whole value, or it works inside it. */
  lemma DiffShape(cs: bool, from: Json, to: Json, stale: char)
    ensures Replaced(from, to) ==> Diff(cs, [], from, to, stale) == [Op("replace", [], Some(to))]
    ensures !Replaced(from, to) ==> forall k :: 0 <= k < |Diff(cs, [], from, to, stale)| ==>
      Deep(Diff(cs, [], from, to, stale)[k])
    ensures Known(Diff(cs, [], from, to, stale))
    decreases from, 1, 0
  {
    if !Replaced(from, to) {
      if from.Array? {
        ItemsShape(cs, from.items, to.items, 0, stale, from);
      } else if from.Object? {
        SortedBelow(cs, from);
        MembersShape(cs, SortMembers(cs, from.members), SortMembers(cs, to.members), stale, from);
      }
    }
  }

  lemma {:induction false} ItemsShape(cs: bool, xs: seq<Json>, ys: seq<Json>, index: nat, stale: char, parent: Json)
    requires forall i :: 0 <= i < |xs| ==> xs[i] < parent
    ensures forall k :: 0 <= k < |DiffItems(cs, [], xs, ys, index, stale, parent)| ==>
      Deep(DiffItems(cs, [], xs, ys, index, stale, parent)[k])
    decreases parent, 0, |xs| + |ys|
  {
    hide Deep;
    if xs != [] && ys != [] {
      BelowShape(cs, Decimal(index), xs[0], ys[0], stale);
      assert [] + "/" + Decimal(index) == "/" + Decimal(index);
      ItemsShape(cs, xs[1..], ys[1..], index + 1, stale, parent);
    } else if xs != [] {
      OneDeep("remove", EncodeStringAsPointer(Decimal(index), stale), None);
      ItemsShape(cs, xs[1..], ys, index, stale, parent);
    } else if ys != [] {
      OneDeep("add", EncodeStringAsPointer("-", stale), Some(ys[0]));
      ItemsShape(cs, xs, ys[1..], index + 1, stale, parent);
    }
  }

  lemma OneDeep(operation: string, suffix: string, value: Option<Json>)
    requires operation in ["add", "remove", "replace"]
    ensures Deep(Op(operation, [] + "/" + suffix, value))
  {
  }

  lemma {:induction false} MembersShape(cs: bool, xs: seq<Member>, ys: seq<Member>, stale: char, parent: Json)
    requires Below(xs, parent)
    ensures forall k :: 0 <= k < |DiffMembers(cs, [], xs, ys, stale, parent)| ==>
      Deep(DiffMembers(cs, [], xs, ys, stale, parent)[k])
    decreases parent, 0, |xs| + |ys|
  {
    hide Deep;
    if xs != [] || ys != [] {
      var diff := KeyOrder(cs, xs, ys);
      if diff == 0 {
        var key := EncodeStringAsPointer(xs[0].key, stale);
        BelowShape(cs, key, xs[0].value, ys[0].value, stale);
        assert [] + "/" + key == "/" + key;
        MembersShape(cs, xs[1..], ys[1..], stale, parent);
      } else if diff < 0 {
        OneDeep("remove", EncodeStringAsPointer(xs[0].key, stale), None);
        MembersShape(cs, xs[1..], ys, stale, parent);
      } else {
        OneDeep("add", EncodeStringAsPointer(ys[0].key, stale), Some(ys[0].value));
        MembersShape(cs, xs, ys[1..], stale, parent);
      }
    }
  }

  /** Patches made for a child have paths inside the parent. */
  lemma {:induction false} BelowShape(cs: bool, key: string, x: Json, y: Json, stale: char)
    ensures Diff(cs, "/" + key, x, y, stale) == Under("/" + key, Diff(cs, [], x, y, stale))
    ensures forall k :: 0 <= k < |Diff(cs, "/" + key, x, y, stale)| ==> Deep(Diff(cs, "/" + key, x, y, stale)[k])
    decreases x, 2, 0
  {
    assert "/" + key + [] == "/" + key;
    DiffUnder(cs, "/" + key, [], x, y, stale);
    DiffShape(cs, x, y, stale);
  }

  /** The list turns the document into a value equal to `to`. */
  ghost predicate Reaches(cs: bool, d: Json, ops: seq<Op>, to: Json) {
    var r := ApplyOps(cs, d, ops);
    r.status == 0 && Norm(cs, r.doc) == Norm(cs, to)
  }

  // ---------------------------------------------------------------------------
  // Twins: keys that differ in case only

  /** A member that the patches take out: to remove it, or to replace it. */
  ghost predicate Outgoing(cs: bool, x: Member, ys: seq<Member>) {
    forall j :: 0 <= j < |ys| && Compare(cs, x.key, ys[j].key) == 0 ==> Replaced(x.value, ys[j].value)
  }

  /** No member of the document that is to be taken out has a twin in front of it. */
  ghost predicate ClearMembers(cs: bool, ds: seq<Member>, xs: seq<Member>, ys: seq<Member>) {
    forall i :: 0 <= i < |xs| ==> MemberClear(cs, ds, xs[i], ys)
  }

  ghost predicate MemberClear(cs: bool, ds: seq<Member>, x: Member, ys: seq<Member>) {
    Outgoing(cs, x, ys) ==> Clear(cs, ds, x.key)
  }

  /** `detach_path`, which ignores case, finds the member. */
  ghost predicate Clear(cs: bool, ds: seq<Member>, key: string) {
    Find(false, ds, key) == Find(cs, ds, key)
  }

  /** The same everywhere in the document. */
  ghost predicate TwinsClear(cs: bool, d: Json, from: Json, to: Json)
    decreases from, 2
  {
    Tag(d) == Tag(from) == Tag(to) ==>
      match from
      case Array(xs) => ItemsClear(cs, d.items, xs, to.items, from)
      case Object(xs) => ClearMembers(cs, d.members, xs, to.members) && NestedClear(cs, d.members, xs, to.members, from)
      case _ => true
  }

  ghost predicate ItemsClear(cs: bool, ds: seq<Json>, xs: seq<Json>, ys: seq<Json>, parent: Json)
    requires forall i :: 0 <= i < |xs| ==> xs[i] < parent
    decreases parent, 0
  {
    forall i :: 0 <= i < |ds| && i < |xs| && i < |ys| ==> TwinsClear(cs, ds[i], xs[i], ys[i])
  }

  ghost predicate NestedClear(cs: bool, ds: seq<Member>, xs: seq<Member>, ys: seq<Member>, parent: Json)
    requires Below(xs, parent)
    decreases parent, 1
  {
    forall i, j :: 0 <= i < |xs| && 0 <= j < |ys| ==> PairClear(cs, ds, xs[i], ys[j], parent)
  }

  ghost predicate PairClear(cs: bool, ds: seq<Member>, x: Member, y: Member, parent: Json)
    requires x.value < parent
    decreases parent, 0
  {
    Compare(cs, x.key, y.key) == 0 && Find(cs, ds, x.key).Some? ==>
      TwinsClear(cs, ds[Find(cs, ds, x.key).value].value, x.value, y.value)
  }

  /** At most one of a key and its twins is taken out, everywhere. */
  ghost predicate FewTwins(cs: bool, from: Json, to: Json)
    decreases from, 1
  {
    Tag(from) == Tag(to) ==>
      match from
      case Array(xs) => ItemsFew(cs, xs, to.items, from)
      case Object(xs) => FewOutgoing(cs, xs, to.members) && NestedFew(cs, xs, to.members, from)
      case _ => true
  }

  ghost predicate FewOutgoing(cs: bool, xs: seq<Member>, ys: seq<Member>) {
    forall i, j :: 0 <= i < |xs| && 0 <= j < |xs| && i != j ==> !BothOutgoing(cs, xs[i], xs[j], ys)
  }

  ghost predicate BothOutgoing(cs: bool, x: Member, x': Member, ys: seq<Member>) {
    Outgoing(cs, x, ys) && Outgoing(cs, x', ys) && Compare(false, x.key, x'.key) == 0
  }

  ghost predicate ItemsFew(cs: bool, xs: seq<Json>, ys: seq<Json>, parent: Json)
    requires forall i :: 0 <= i < |xs| ==> xs[i] < parent
    decreases parent, 0
  {
    forall i :: 0 <= i < |xs| && i < |ys| ==> FewTwins(cs, xs[i], ys[i])
  }

  ghost predicate NestedFew(cs: bool, xs: seq<Member>, ys: seq<Member>, parent: Json)
    requires Below(xs, parent)
    decreases parent, 0
  {
    forall i, j :: 0 <= i < |xs| && 0 <= j < |ys| && Compare(cs, xs[i].key, ys[j].key) == 0 ==>
      FewTwins(cs, xs[i].value, ys[j].value)
  }

  // ---------------------------------------------------------------------------
  // Objects

  /** How a change leaves a member it is not about: the same value, and as clear as before. */
  ghost predicate SameAt(cs: bool, cur: seq<Member>, cur': seq<Member>, key: string) {
    var a, b := Find(cs, cur, key), Find(cs, cur', key);
    && a.Some? && b.Some? && cur[a.value].value == cur'[b.value].value
    && (Clear(cs, cur, key) ==> Clear(cs, cur', key))
  }

  /** A match is a match ignoring case, at most as far behind. */
  lemma FindFolded(cs: bool, cur: seq<Member>, key: string)
    requires Find(cs, cur, key).Some?
    ensures Find(false, cur, key).Some? && Find(false, cur, key).value <= Find(cs, cur, key).value
  {
    MatchIgnoringCase(cs, key, cur[Find(cs, cur, key).value].key);
  }

  lemma SameAppended(cs: bool, cur: seq<Member>, m: Member, key: string)
    requires Find(cs, cur, key).Some?
    ensures SameAt(cs, cur, cur + [m], key) && (Clear(cs, cur + [m], key) ==> Clear(cs, cur, key))
  {
    FindFolded(cs, cur, key);
    FindAppended(cs, cur, m, key);
    FindAppended(false, cur, m, key);
  }

  lemma SameRemoved(cs: bool, cur: seq<Member>, f: nat, key: string)
    requires f < |cur| && Find(cs, cur, key).Some? && Compare(cs, key, cur[f].key) != 0
    ensures SameAt(cs, cur, RemoveAt(cur, f), key)
    ensures Compare(false, key, cur[f].key) != 0 ==> Clear(cs, RemoveAt(cur, f), key) ==> Clear(cs, cur, key)
  {
    hide RemoveAt, Find, Compare;
    FindFolded(cs, cur, key);
    FindRemoved(cs, cur, f, key);
    if Find(false, cur, key) != Some(f) {
      FindRemoved(false, cur, f, key);
    }
  }

  lemma SameSet(cs: bool, cur: seq<Member>, f: nat, v: Json, key: string)
    requires f < |cur| && Find(cs, cur, key).Some? && Compare(cs, key, cur[f].key) != 0
    ensures
      var cur' := cur[f := cur[f].(value := v)];
      SameAt(cs, cur, cur', key) && (Clear(cs, cur', key) ==> Clear(cs, cur, key))
  {
    var cur' := cur[f := cur[f].(value := v)];
    FindSameKeys(cs, cur, cur', key);
    FindSameKeys(false, cur, cur', key);
  }

  /** One operation: what becomes of the members still to come.  Taking out `x` may make a twin
      of `x` clear, nothing else is made clear. */
  ghost predicate KeyStep(cs: bool, cur: seq<Member>, cur': seq<Member>, x: Option<string>, xs: seq<Member>) {
    && DistinctKeys(cs, cur')
    && forall i :: 0 <= i < |xs| && Find(cs, cur, xs[i].key).Some? ==>
         SameAt(cs, cur, cur', xs[i].key)
           && (Twin(x, xs[i].key) || (Clear(cs, cur', xs[i].key) ==> Clear(cs, cur, xs[i].key)))
  }

  predicate Twin(x: Option<string>, key: string) {
    x.Some? && Compare(false, key, x.value) == 0
  }

  lemma DropMember(cs: bool, cur: seq<Member>, key: string, xs: seq<Member>)
    requires DistinctKeys(cs, cur) && Find(cs, cur, key).Some?
    requires forall i :: 0 <= i < |xs| ==> Compare(cs, key, xs[i].key) != 0
    ensures
      var cur' := RemoveAt(cur, Find(cs, cur, key).value);
      && KeyStep(cs, cur, cur', Some(key), xs)
      && NormMembers(cs, cur') == NormMembers(cs, cur) - {FoldString(cs, key)}
      && Find(cs, cur', key) == None
  {
    var f := Find(cs, cur, key).value;
    var cur' := RemoveAt(cur, f);
    SameKey(cs, key, cur[f].key);
    NormRemove(cs, cur, f);
    NormMembersFind(cs, cur', key);
    forall i | 0 <= i < |xs| && Find(cs, cur, xs[i].key).Some?
      ensures SameAt(cs, cur, cur', xs[i].key)
        && (Twin(Some(key), xs[i].key) || (Clear(cs, cur', xs[i].key) ==> Clear(cs, cur, xs[i].key)))
    {
      OtherKey(cs, key, cur[f].key, xs[i].key);
      SameRemoved(cs, cur, f, xs[i].key);
    }
  }

  lemma AddMember(cs: bool, cur: seq<Member>, m: Member, x: Option<string>, xs: seq<Member>)
    requires DistinctKeys(cs, cur) && FoldString(cs, m.key) !in NormMembers(cs, cur)
    ensures SetMember(cs, cur, m.key, m.value) == cur + [m]
    ensures KeyStep(cs, cur, cur + [m], x, xs)
    ensures NormMembers(cs, cur + [m]) == NormMembers(cs, cur)[FoldString(cs, m.key) := Norm(cs, m.value)]
  {
    NormMembersFind(cs, cur, m.key);
    NormAppend(cs, cur, m);
    forall i | 0 <= i < |xs| && Find(cs, cur, xs[i].key).Some?
      ensures SameAt(cs, cur, cur + [m], xs[i].key) && (Clear(cs, cur + [m], xs[i].key) ==> Clear(cs, cur, xs[i].key))
    {
      SameAppended(cs, cur, m, xs[i].key);
    }
  }

  lemma SetValue(cs: bool, cur: seq<Member>, key: string, v: Json, xs: seq<Member>)
    requires DistinctKeys(cs, cur) && Find(cs, cur, key).Some?
    requires forall i :: 0 <= i < |xs| ==> Compare(cs, key, xs[i].key) != 0
    ensures
      var f := Find(cs, cur, key).value;
      var cur' := cur[f := cur[f].(value := v)];
      && KeyStep(cs, cur, cur', None, xs)
      && NormMembers(cs, cur') == NormMembers(cs, cur)[FoldString(cs, key) := Norm(cs, v)]
  {
    var f := Find(cs, cur, key).value;
    SameKey(cs, key, cur[f].key);
    NormUpdate(cs, cur, f, cur[f].(value := v));
    forall i | 0 <= i < |xs| && Find(cs, cur, xs[i].key).Some?
      ensures
        var cur' := cur[f := cur[f].(value := v)];
        SameAt(cs, cur, cur', xs[i].key) && (Clear(cs, cur', xs[i].key) ==> Clear(cs, cur, xs[i].key))
    {
      OtherKey(cs, key, cur[f].key, xs[i].key);
      SameSet(cs, cur, f, v, xs[i].key);
    }
  }

  lemma StepTwice(cs: bool, a: seq<Member>, b: seq<Member>, c: seq<Member>, x: Option<string>, xs: seq<Member>)
    requires KeyStep(cs, a, b, x, xs) && KeyStep(cs, b, c, x, xs)
    ensures KeyStep(cs, a, c, x, xs)
  {
    forall i | 0 <= i < |xs| && Find(cs, a, xs[i].key).Some?
      ensures SameAt(cs, a, c, xs[i].key)
        && (Twin(x, xs[i].key) || (Clear(cs, c, xs[i].key) ==> Clear(cs, a, xs[i].key)))
    {
      assert SameAt(cs, a, b, xs[i].key) && SameAt(cs, b, c, xs[i].key);
    }
  }

  /** Replacing a member that is clear. */
  lemma ReplaceMember(cs: bool, cur: seq<Member>, key: string, v: Json, xs: seq<Member>) returns (cur': seq<Member>)
    requires DistinctKeys(cs, cur) && Find(cs, cur, key).Some? && Clear(cs, cur, key) && Plain(key)
    requires forall i :: 0 <= i < |xs| ==> Compare(cs, key, xs[i].key) != 0
    ensures cur' == RemoveAt(cur, Find(cs, cur, key).value) + [Member(key, v)]
    ensures ApplyOps(cs, Object(cur), [Op("replace", "/" + key, Some(v))]) == Applied(0, Object(cur'))
    ensures KeyStep(cs, cur, cur', Some(key), xs)
    ensures NormMembers(cs, cur') == NormMembers(cs, cur)[FoldString(cs, key) := Norm(cs, v)]
  {
    hide KeyStep;
    var op := Op("replace", "/" + key, Some(v));
    ApplyHere(cs, Object(cur), key, op);
    ApplyOne(cs, Object(cur), op);
    DropMember(cs, cur, key, xs);
    var rest := RemoveAt(cur, Find(cs, cur, key).value);
    cur' := rest + [Member(key, v)];
    StepDistinct(cs, cur, rest, Some(key), xs);
    AddMember(cs, rest, Member(key, v), Some(key), xs);
    StepTwice(cs, cur, rest, cur', Some(key), xs);
    DropThenSet(NormMembers(cs, cur), FoldString(cs, key), Norm(cs, v));
  }

  lemma StepDistinct(cs: bool, cur: seq<Member>, cur': seq<Member>, x: Option<string>, xs: seq<Member>)
    requires KeyStep(cs, cur, cur', x, xs)
    ensures DistinctKeys(cs, cur')
  {
  }

  lemma DropThenSet(m: map<string, Value>, k: string, v: Value)
    ensures (m - {k})[k := v] == m[k := v]
  {
  }

  lemma RemoveMember(cs: bool, cur: seq<Member>, key: string, xs: seq<Member>) returns (cur': seq<Member>)
    requires DistinctKeys(cs, cur) && Find(cs, cur, key).Some? && Clear(cs, cur, key) && Plain(key)
    requires forall i :: 0 <= i < |xs| ==> Compare(cs, key, xs[i].key) != 0
    ensures cur' == RemoveAt(cur, Find(cs, cur, key).value)
    ensures ApplyOps(cs, Object(cur), [Op("remove", "/" + key, None)]) == Applied(0, Object(cur'))
    ensures KeyStep(cs, cur, cur', Some(key), xs)
    ensures NormMembers(cs, cur') == NormMembers(cs, cur) - {FoldString(cs, key)}
  {
    hide KeyStep;
    var op := Op("remove", "/" + key, None);
    DropMember(cs, cur, key, xs);
    ApplyHere(cs, Object(cur), key, op);
    ApplyOne(cs, Object(cur), op);
    cur' := RemoveAt(cur, Find(cs, cur, key).value);
  }

  lemma AddMemberStep(cs: bool, cur: seq<Member>, y: Member)
    requires DistinctKeys(cs, cur) && Plain(y.key) && FoldString(cs, y.key) !in NormMembers(cs, cur)
    ensures ApplyOps(cs, Object(cur), [Op("add", "/" + y.key, Some(y.value))]) == Applied(0, Object(cur + [y]))
  {
    hide KeyStep;
    var op := Op("add", "/" + y.key, Some(y.value));
    AddMember(cs, cur, y, None, []);
    ApplyHere(cs, Object(cur), y.key, op);
    ApplyOne(cs, Object(cur), op);
  }

  /** The patches of a member that is not replaced: they are applied to its value. */
  lemma ChangeMember(cs: bool, cur: seq<Member>, key: string, ops: seq<Op>, xs: seq<Member>)
    requires DistinctKeys(cs, cur) && Find(cs, cur, key).Some? && Plain(key)
    requires forall k :: 0 <= k < |ops| ==> Deep(ops[k])
    requires forall i :: 0 <= i < |xs| ==> Compare(cs, key, xs[i].key) != 0
    ensures
      var f := Find(cs, cur, key).value;
      var r := ApplyOps(cs, cur[f].value, ops);
      var cur' := cur[f := cur[f].(value := r.doc)];
      && ApplyOps(cs, Object(cur), Under("/" + key, ops)) == Applied(r.status, Object(cur'))
      && KeyStep(cs, cur, cur', None, xs)
      && NormMembers(cs, cur') == NormMembers(cs, cur)[FoldString(cs, key) := Norm(cs, r.doc)]
  {
    hide KeyStep;
    var f := Find(cs, cur, key).value;
    ApplyAllBelow(cs, Object(cur), key, ops);
    SetValue(cs, cur, key, ApplyOps(cs, cur[f].value, ops).doc, xs);
  }

  /** The keys two sorted lists have in common are met together. */
  lemma HeadBelowAll(cs: bool, a: string, xs: seq<Member>)
    requires StrictlyOrdered(cs, xs, MemberKey)
    requires xs != [] ==> Less(cs, a, xs[0].key)
    ensures forall i :: 0 <= i < |xs| ==> Compare(cs, a, xs[i].key) != 0
    ensures FoldString(cs, a) !in NormMembers(cs, xs)
  {
    forall i | 0 <= i < |xs| ensures Compare(cs, a, xs[i].key) < 0 {
      if i > 0 {
        assert Less(cs, MemberKey(xs[0]), MemberKey(xs[i]));
        LessTrans(cs, a, xs[0].key, xs[i].key);
      }
    }
    NormMembersKeys(cs, xs);
    if FoldString(cs, a) in NormMembers(cs, xs) {
      var i :| 0 <= i < |xs| && FoldString(cs, xs[i].key) == FoldString(cs, a);
      SameKey(cs, a, xs[i].key);
    }
  }

  lemma TailAbove(cs: bool, xs: seq<Member>)
    requires StrictlyOrdered(cs, xs, MemberKey) && xs != []
    ensures StrictlyOrdered(cs, xs[1..], MemberKey)
    ensures forall i :: 0 <= i < |xs[1..]| ==> Compare(cs, xs[0].key, xs[1..][i].key) != 0
    ensures FoldString(cs, xs[0].key) !in NormMembers(cs, xs[1..])
  {
    if |xs| > 1 {
      assert Less(cs, MemberKey(xs[0]), MemberKey(xs[1]));
    }
    HeadBelowAll(cs, xs[0].key, xs[1..]);
  }

  // ---------------------------------------------------------------------------
  // What goes wrong stays wrong

  /** The object does not have this key, or not with this value. */
  ghost predicate Without(cs: bool, ms: seq<Member>, k: string, w: Option<Value>) {
    DistinctKeys(cs, ms) && (k in NormMembers(cs, ms) ==> w.Some? && NormMembers(cs, ms)[k] != w.value)
  }

  /** The same of what an operation leaves, if it succeeds. */
  ghost predicate StillWithout(cs: bool, r: Applied, k: string, w: Option<Value>) {
    r.status == 0 ==> r.doc.Object? && Without(cs, r.doc.members, k, w)
  }

  lemma RemoveWithout(cs: bool, cur: seq<Member>, f: nat, k: string, w: Option<Value>)
    requires Without(cs, cur, k, w) && f < |cur|
    ensures Without(cs, RemoveAt(cur, f), k, w)
  {
    NormRemove(cs, cur, f);
  }

  lemma SetWithout(cs: bool, cur: seq<Member>, key: string, v: Json, k: string, w: Option<Value>)
    requires Without(cs, cur, k, w) && FoldString(cs, key) != k
    ensures Without(cs, SetMember(cs, cur, key, v), k, w)
  {
    var f := Find(cs, cur, key);
    NormMembersFind(cs, cur, key);
    var rest := if f.Some? then RemoveAt(cur, f.value) else cur;
    if f.Some? {
      SameKey(cs, key, cur[f.value].key);
      NormRemove(cs, cur, f.value);
    }
    NormAppend(cs, rest, Member(key, v));
  }

  lemma RemoveOpWithout(cs: bool, cur: seq<Member>, key: string, k: string, w: Option<Value>)
    requires Without(cs, cur, k, w) && Plain(key)
    ensures StillWithout(cs, ApplyOps(cs, Object(cur), [Op("remove", "/" + key, None)]), k, w)
  {
    hide Without;
    var op := Op("remove", "/" + key, None);
    ApplyHere(cs, Object(cur), key, op);
    ApplyOne(cs, Object(cur), op);
    var f := Find(false, cur, key);
    if f.Some? {
      RemoveWithout(cs, cur, f.value, k, w);
    }
  }

  lemma SetOpWithout(cs: bool, cur: seq<Member>, key: string, v: Json, k: string, w: Option<Value>)
    requires Without(cs, cur, k, w) && Plain(key) && FoldString(cs, key) != k
    ensures StillWithout(cs, ApplyOps(cs, Object(cur), [Op("add", "/" + key, Some(v))]), k, w)
    ensures StillWithout(cs, ApplyOps(cs, Object(cur), [Op("replace", "/" + key, Some(v))]), k, w)
  {
    hide Without;
    var add, replace := Op("add", "/" + key, Some(v)), Op("replace", "/" + key, Some(v));
    ApplyHere(cs, Object(cur), key, add);
    ApplyHere(cs, Object(cur), key, replace);
    ApplyOne(cs, Object(cur), add);
    ApplyOne(cs, Object(cur), replace);
    SetWithout(cs, cur, key, v, k, w);
    var f := Find(false, cur, key);
    if f.Some? {
      RemoveWithout(cs, cur, f.value, k, w);
      SetWithout(cs, RemoveAt(cur, f.value), key, v, k, w);
    }
  }

  lemma NestedWithout(cs: bool, cur: seq<Member>, key: string, ops: seq<Op>, k: string, w: Option<Value>)
    requires Without(cs, cur, k, w) && Plain(key)
    requires FoldString(cs, key) == k ==> w.None?
    requires forall i :: 0 <= i < |ops| ==> Deep(ops[i])
    ensures StillWithout(cs, ApplyOps(cs, Object(cur), Under("/" + key, ops)), k, w)
  {
    NormMembersFind(cs, cur, key);
    if Find(cs, cur, key).Some? {
      ChangeMember(cs, cur, key, ops, []);
    } else if ops != [] {
      ApplyBelowMissing(cs, Object(cur), key, ops[0]);
      assert Under("/" + key, ops)[0] == ops[0].(path := "/" + key + ops[0].path);
    }
  }

  /** None of the operations to come adds this key, or gives it another value if it is there. */
  ghost predicate NotSet(cs: bool, xs: seq<Member>, ys: seq<Member>, k: string, absent: bool) {
    || (forall j :: 0 <= j < |ys| ==> FoldString(cs, ys[j].key) != k)
    || (absent && exists i, j :: 0 <= i < |xs| && 0 <= j < |ys| && KeptPair(cs, xs[i], ys[j], k))
  }

  /** A member that stays, perhaps changed inside. */
  predicate KeptPair(cs: bool, x: Member, y: Member, k: string) {
    FoldString(cs, x.key) == k && FoldString(cs, y.key) == k && !Replaced(x.value, y.value)
  }

  lemma {:induction false} StaysWithout(cs: bool, cur: seq<Member>, xs: seq<Member>, ys: seq<Member>, stale: char,
                                        parent: Json,
                                        k: string, w: Option<Value>)
    requires Below(xs, parent) && PlainMembers(xs) && PlainMembers(ys)
    requires StrictlyOrdered(cs, xs, MemberKey) && StrictlyOrdered(cs, ys, MemberKey)
    requires Without(cs, cur, k, w) && NotSet(cs, xs, ys, k, w.None?)
    ensures StillWithout(cs, ApplyOps(cs, Object(cur), DiffMembers(cs, [], xs, ys, stale, parent)), k, w)
    decreases |xs| + |ys|
  {
    if xs != [] || ys != [] {
      var diff := KeyOrder(cs, xs, ys);
      var xs', ys' := if diff <= 0 then xs[1..] else xs, if diff >= 0 then ys[1..] else ys;
      var first := FirstOps(cs, xs, ys, stale, parent);
      WithoutStep(cs, cur, xs, ys, stale, parent, k, w);
      var rest := DiffMembers(cs, [], xs', ys', stale, parent);
      ApplyConcat(cs, Object(cur), first, rest);
      var r := ApplyOps(cs, Object(cur), first);
      if r.status == 0 {
        TailsOrdered(cs, xs, ys);
        StaysWithout(cs, r.doc.members, xs', ys', stale, parent, k, w);
      }
    }
  }

  lemma TailsOrdered(cs: bool, xs: seq<Member>, ys: seq<Member>)
    requires StrictlyOrdered(cs, xs, MemberKey) && StrictlyOrdered(cs, ys, MemberKey)
    ensures xs != [] ==> StrictlyOrdered(cs, xs[1..], MemberKey)
    ensures ys != [] ==> StrictlyOrdered(cs, ys[1..], MemberKey)
  {
    if xs != [] { TailAbove(cs, xs); }
    if ys != [] { TailAbove(cs, ys); }
  }

  /** The operations for the lesser head key. */
  ghost function FirstOps(cs: bool, xs: seq<Member>, ys: seq<Member>, stale: char, parent: Json): (r: seq<Op>)
    requires Below(xs, parent) && (xs != [] || ys != []) && PlainMembers(xs) && PlainMembers(ys)
    ensures
      var diff := KeyOrder(cs, xs, ys);
      var xs', ys' := if diff <= 0 then xs[1..] else xs, if diff >= 0 then ys[1..] else ys;
      DiffMembers(cs, [], xs, ys, stale, parent) == r + DiffMembers(cs, [], xs', ys', stale, parent)
  {
    var diff := KeyOrder(cs, xs, ys);
    if diff <= 0 then
      EncodePlain(xs[0].key, stale);
      assert [] + "/" + xs[0].key == "/" + xs[0].key;
      if diff == 0 then
        Diff(cs, "/" + xs[0].key, xs[0].value, ys[0].value, stale)
      else
        [Op("remove", "/" + xs[0].key, None)]
    else
      EncodePlain(ys[0].key, stale);
      assert [] + "/" + ys[0].key == "/" + ys[0].key;
      [Op("add", "/" + ys[0].key, Some(ys[0].value))]
  }

  lemma WithoutStep(cs: bool, cur: seq<Member>, xs: seq<Member>, ys: seq<Member>, stale: char, parent: Json, k: string,
                    w: Option<Value>)
    requires Below(xs, parent) && PlainMembers(xs) && PlainMembers(ys) && (xs != [] || ys != [])
    requires StrictlyOrdered(cs, xs, MemberKey) && StrictlyOrdered(cs, ys, MemberKey)
    requires Without(cs, cur, k, w) && NotSet(cs, xs, ys, k, w.None?)
    ensures
      var diff := KeyOrder(cs, xs, ys);
      var xs', ys' := if diff <= 0 then xs[1..] else xs, if diff >= 0 then ys[1..] else ys;
      StillWithout(cs, ApplyOps(cs, Object(cur), FirstOps(cs, xs, ys, stale, parent)), k, w)
        && NotSet(cs, xs', ys', k, w.None?)
  {
    hide Without, ApplyOps, NotSet;
    NotSetStep(cs, xs, ys, k, w.None?);
    var diff := KeyOrder(cs, xs, ys);
    if diff < 0 {
      RemoveOpWithout(cs, cur, xs[0].key, k, w);
    } else if diff > 0 {
      SetOpWithout(cs, cur, ys[0].key, ys[0].value, k, w);
    } else {
      var x, y := xs[0], ys[0];
      BelowShape(cs, x.key, x.value, y.value, stale);
      DiffShape(cs, x.value, y.value, stale);
      if Replaced(x.value, y.value) {
        assert Under("/" + x.key, [Op("replace", [], Some(y.value))]) == [Op("replace", "/" + x.key, Some(y.value))]
        by { assert "/" + x.key + [] == "/" + x.key; }
        SetOpWithout(cs, cur, x.key, y.value, k, w);
      } else {
        NestedWithout(cs, cur, x.key, Diff(cs, [], x.value, y.value, stale), k, w);
      }
    }
  }

  lemma NotSetStep(cs: bool, xs: seq<Member>, ys: seq<Member>, k: string, absent: bool)
    requires StrictlyOrdered(cs, xs, MemberKey) && StrictlyOrdered(cs, ys, MemberKey) && (xs != [] || ys != [])
    requires NotSet(cs, xs, ys, k, absent)
    ensures
      var diff := KeyOrder(cs, xs, ys);
      var xs', ys' := if diff <= 0 then xs[1..] else xs, if diff >= 0 then ys[1..] else ys;
      && NotSet(cs, xs', ys', k, absent)
      && (diff > 0 ==> FoldString(cs, ys[0].key) != k)
      && (diff == 0 ==> FoldString(cs, xs[0].key) == FoldString(cs, ys[0].key))
      && (diff == 0 && FoldString(cs, xs[0].key) == k ==> absent && !Replaced(xs[0].value, ys[0].value))
  {
    var diff := KeyOrder(cs, xs, ys);
    var xs', ys' := if diff <= 0 then xs[1..] else xs, if diff >= 0 then ys[1..] else ys;
    HeadsApart(cs, xs, ys);
    if !(forall j :: 0 <= j < |ys| ==> FoldString(cs, ys[j].key) != k) {
      var i, j :| 0 <= i < |xs| && 0 <= j < |ys| && KeptPair(cs, xs[i], ys[j], k);
      if i > 0 || j > 0 || diff != 0 {
        var i', j' := if diff <= 0 then i - 1 else i, if diff >= 0 then j - 1 else j;
        assert KeptPair(cs, xs'[i'], ys'[j'], k);
      }
    }
  }

  /** A head key that is less than the other is nowhere in the other list; no key comes twice. */
  lemma HeadsApart(cs: bool, xs: seq<Member>, ys: seq<Member>)
    requires StrictlyOrdered(cs, xs, MemberKey) && StrictlyOrdered(cs, ys, MemberKey) && (xs != [] || ys != [])
    ensures
      var diff := KeyOrder(cs, xs, ys);
      && (diff < 0 ==> forall j :: 0 <= j < |ys| ==> FoldString(cs, ys[j].key) != FoldString(cs, xs[0].key))
      && (diff > 0 ==> forall i :: 0 <= i < |xs| ==> FoldString(cs, xs[i].key) != FoldString(cs, ys[0].key))
      && (diff == 0 ==> FoldString(cs, xs[0].key) == FoldString(cs, ys[0].key))
      && (xs != [] ==> forall i :: 0 < i < |xs| ==> FoldString(cs, xs[i].key) != FoldString(cs, xs[0].key))
      && (ys != [] ==> forall j :: 0 < j < |ys| ==> FoldString(cs, ys[j].key) != FoldString(cs, ys[0].key))
  {
    var diff := KeyOrder(cs, xs, ys);
    if xs != [] && ys != [] {
      CompareFlip(cs, xs[0].key, ys[0].key);
      SameKey(cs, xs[0].key, ys[0].key);
    }
    if xs != [] {
      OthersApart(cs, xs[0].key, xs, 1);
      if diff < 0 { OthersApart(cs, xs[0].key, ys, 0); }
    }
    if ys != [] {
      OthersApart(cs, ys[0].key, ys, 1);
      if diff > 0 { OthersApart(cs, ys[0].key, xs, 0); }
    }
  }

  lemma OthersApart(cs: bool, a: string, ms: seq<Member>, from: nat)
    requires from <= |ms| && StrictlyOrdered(cs, ms, MemberKey)
    requires if from == 0 then ms == [] || Less(cs, a, ms[0].key) else from == 1 && a == ms[0].key
    ensures forall i :: from <= i < |ms| ==> FoldString(cs, ms[i].key) != FoldString(cs, a)
  {
    forall i | from <= i < |ms| ensures FoldString(cs, ms[i].key) != FoldString(cs, a) {
      if i > 0 {
        assert Less(cs, MemberKey(ms[0]), MemberKey(ms[i]));
        if from == 0 { LessTrans(cs, a, ms[0].key, ms[i].key); }
      }
      SameKey(cs, a, ms[i].key);
    }
  }

  // ---------------------------------------------------------------------------
  // Arrays

  lemma ItemsSplit(cs: bool, a: seq<Json>, b: seq<Json>)
    ensures NormItems(cs, a + b) == NormItems(cs, a) + NormItems(cs, b)
  {
  }

  lemma ReplaceElement(cs: bool, done: seq<Json>, cur: seq<Json>, y: Json)
    requires cur != []
    ensures ApplyOp(cs, Array(done + cur), Op("replace", "/" + Decimal(|done|), Some(y)))
         == Applied(0, Array(done + [y] + cur[1..]))
  {
    var n, key, items := |done|, Decimal(|done|), done + cur;
    DecodeDecimal(n, []);
    assert key + [] == key;
    ApplyHere(cs, Array(items), key, Op("replace", "/" + key, Some(y)));
    PlainNotDash(n);
    var rest := RemoveAt(items, n);
    assert rest == done + cur[1..];
    assert DetachIn(Array(items), key) == Some((items[n], Array(rest)));
    assert rest[..n] == done && rest[n..] == cur[1..];
    assert AddIn(cs, Array(rest), key, y) == Applied(0, Array(rest[..n] + [y] + rest[n..]));
  }

  lemma PlainNotDash(n: nat)
    ensures Decimal(n) != "-"
  {
    assert '0' <= Decimal(n)[0] <= '9';
  }

  /** The patches of one element, applied to the array. */
  lemma ElementStep(cs: bool, done: seq<Json>, cur: seq<Json>, x: Json, y: Json, stale: char)
    requires cur != []
    ensures
      var r := ApplyOps(cs, cur[0], Diff(cs, [], x, y, stale));
      ApplyOps(cs, Array(done + cur), Diff(cs, "/" + Decimal(|done|), x, y, stale)) ==
        Applied(r.status, Array(done + [r.doc] + cur[1..]))
  {
    hide ApplyOps, ApplyOp, Diff, Replaced;
    var key := Decimal(|done|);
    BelowShape(cs, key, x, y, stale);
    DiffShape(cs, x, y, stale);
    if Replaced(x, y) {
      var op := Op("replace", "/" + key, Some(y));
      assert Under("/" + key, [Op("replace", [], Some(y))]) == [op] by { assert "/" + key + [] == "/" + key; }
      ReplaceElement(cs, done, cur, y);
      ApplyOne(cs, Array(done + cur), op);
      ReplaceRoot(cs, cur[0], y);
    } else {
      ChangeElement(cs, done, cur, Diff(cs, [], x, y, stale));
    }
  }

  lemma ReplaceRoot(cs: bool, d: Json, y: Json)
    ensures ApplyOps(cs, d, [Op("replace", [], Some(y))]) == Applied(0, y)
  {
    ApplyOne(cs, d, Op("replace", [], Some(y)));
  }

  lemma ChangeElement(cs: bool, done: seq<Json>, cur: seq<Json>, ops: seq<Op>)
    requires cur != [] && forall k :: 0 <= k < |ops| ==> Deep(ops[k])
    ensures
      var r := ApplyOps(cs, cur[0], ops);
      ApplyOps(cs, Array(done + cur), Under("/" + Decimal(|done|), ops)) ==
        Applied(r.status, Array(done + [r.doc] + cur[1..]))
  {
    hide ApplyOps;
    var key, j := Decimal(|done|), Array(done + cur);
    DecodeDecimal(|done|, []);
    assert key + [] == key;
    assert Slot(cs, j, key) == Some(|done|) && Child(j, |done|) == cur[0];
    var v := ApplyOps(cs, cur[0], ops).doc;
    assert (done + cur)[|done| := v] == done + [v] + cur[1..];
    ApplyAllBelow(cs, j, key, ops);
  }

  /** The list turns the document into this array. */
  ghost predicate MakesArray(cs: bool, doc: Json, ops: seq<Op>, target: seq<Value>) {
    var r := ApplyOps(cs, doc, ops);
    r.status == 0 && r.doc.Array? && NormItems(cs, r.doc.items) == target
  }

  lemma MakesArrayChain(cs: bool, doc: Json, first: seq<Op>, status: int, doc': Json, rest: seq<Op>, target: seq<Value>)
    requires ApplyOps(cs, doc, first) == Applied(status, doc')
    ensures MakesArray(cs, doc, first + rest, target) <==> status == 0 && MakesArray(cs, doc', rest, target)
  {
    ApplyConcat(cs, doc, first, rest);
  }

  lemma RemoveStep(cs: bool, done: seq<Json>, cur: seq<Json>)
    requires cur != []
    ensures ApplyOps(cs, Array(done + cur), [Op("remove", "/" + Decimal(|done|), None)]) ==
      Applied(0, Array(done + cur[1..]))
  {
    var n, j := |done|, Array(done + cur);
    DecodeDecimal(n, []);
    assert Decimal(n) + [] == Decimal(n);
    ApplyHere(cs, j, Decimal(n), Op("remove", "/" + Decimal(n), None));
    assert RemoveAt(j.items, n) == done + cur[1..];
  }

  lemma AppendStep(cs: bool, done: seq<Json>, y: Json)
    ensures ApplyOps(cs, Array(done + []), [Op("add", "/-", Some(y))]) == Applied(0, Array(done + [y] + []))
  {
    assert done + [] == done && done + [y] + [] == done + [y];
    ApplyHere(cs, Array(done), "-", Op("add", "/-", Some(y)));
  }

  lemma TargetShift(cs: bool, done: seq<Json>, v: Json, ys: seq<Json>)
    requires ys != [] && Norm(cs, v) == Norm(cs, ys[0])
    ensures NormItems(cs, done + [v]) + NormItems(cs, ys[1..]) == NormItems(cs, done) + NormItems(cs, ys)
  {
    ItemsSplit(cs, done, [v]);
    ItemsSplit(cs, [ys[0]], ys[1..]);
    assert ys == [ys[0]] + ys[1..];
    assert NormItems(cs, [v]) == NormItems(cs, [ys[0]]);
    Associative(NormItems(cs, done), NormItems(cs, [v]), NormItems(cs, ys[1..]));
  }

  lemma TailItems(cs: bool, cur: seq<Json>, xs: seq<Json>)
    requires cur != [] && xs != [] && NormItems(cs, cur) == NormItems(cs, xs)
    ensures NormItems(cs, cur[1..]) == NormItems(cs, xs[1..])
  {
    assert NormItems(cs, cur[1..]) == NormItems(cs, cur)[1..];
    assert NormItems(cs, xs[1..]) == NormItems(cs, xs)[1..];
  }

  /** The operations for the first elements left. */
  ghost function FirstItemOps(cs: bool, xs: seq<Json>, ys: seq<Json>, n: nat, stale: char, parent: Json): (r: seq<Op>)
    requires (xs != [] || ys != []) && forall i :: 0 <= i < |xs| ==> xs[i] < parent
    ensures
      DiffItems(cs, [], xs, ys, n, stale, parent) == r +
        DiffItems(cs, [], if xs != [] then xs[1..] else xs, if ys != [] then ys[1..] else ys,
                  if ys != [] then n + 1 else n, stale, parent)
  {
    assert [] + "/" + Decimal(n) == "/" + Decimal(n) && [] + "/" + "-" == "/-";
    if xs != [] && ys != [] then Diff(cs, "/" + Decimal(n), xs[0], ys[0], stale)
    else if xs != [] then
      DecodeDecimal(n, []);
      EncodePlain(Decimal(n), stale);
      [Op("remove", "/" + Decimal(n), None)]
    else
      EncodePlain("-", stale);
      [Op("add", "/-", Some(ys[0]))]
  }

  /** What they do: the status, and the array as far as it is done and what is left of it. */
  lemma ItemStep(cs: bool, done: seq<Json>, cur: seq<Json>, xs: seq<Json>, ys: seq<Json>, stale: char, parent: Json)
      returns (done': seq<Json>, cur': seq<Json>, status: int)
    requires |cur| == |xs| && (xs != [] || ys != []) && forall i :: 0 <= i < |xs| ==> xs[i] < parent
    ensures ApplyOps(cs, Array(done + cur), FirstItemOps(cs, xs, ys, |done|, stale, parent)) ==
      Applied(status, Array(done' + cur'))
    ensures cur' == if xs != [] then cur[1..] else cur
    ensures done' ==
      if ys == [] then done
      else if xs == [] then done + [ys[0]]
      else done + [ApplyOps(cs, cur[0], Diff(cs, [], xs[0], ys[0], stale)).doc]
    ensures status == if xs != [] && ys != [] then ApplyOps(cs, cur[0], Diff(cs, [], xs[0], ys[0], stale)).status else 0
  {
    cur' := if xs != [] then cur[1..] else cur;
    if xs != [] && ys != [] {
      var r := ApplyOps(cs, cur[0], Diff(cs, [], xs[0], ys[0], stale));
      ElementStep(cs, done, cur, xs[0], ys[0], stale);
      done', status := done + [r.doc], r.status;
    } else if xs != [] {
      RemoveStep(cs, done, cur);
      done', status := done, 0;
    } else {
      AppendStep(cs, done, ys[0]);
      done', status := done + [ys[0]], 0;
    }
  }

  lemma ItemsDone(cs: bool, done: seq<Json>, cur: seq<Json>, stale: char, parent: Json)
    requires cur == []
    ensures ApplyOps(cs, Array(done + cur), DiffItems(cs, [], [], [], |done|, stale, parent)) == Applied(0, Array(done))
  {
    assert done + cur == done;
  }

  /** What has been done is not touched again. */
  lemma {:induction false} PrefixKept(cs: bool, done: seq<Json>, cur: seq<Json>, xs: seq<Json>, ys: seq<Json>,
                                      stale: char, parent: Json)
    requires |cur| == |xs| && forall i :: 0 <= i < |xs| ==> xs[i] < parent
    ensures
      var r := ApplyOps(cs, Array(done + cur), DiffItems(cs, [], xs, ys, |done|, stale, parent));
      r.status == 0 ==> r.doc.Array? && done <= r.doc.items
    decreases |xs| + |ys|
  {
    hide ApplyOps, DiffItems, Diff;
    if xs == [] && ys == [] {
      ItemsDone(cs, done, cur, stale, parent);
    } else {
      var xs', ys' := if xs != [] then xs[1..] else xs, if ys != [] then ys[1..] else ys;
      var done', cur', status := ItemStep(cs, done, cur, xs, ys, stale, parent);
      ApplyConcat(cs, Array(done + cur), FirstItemOps(cs, xs, ys, |done|, stale, parent),
                  DiffItems(cs, [], xs', ys', |done'|, stale, parent));
      PrefixKept(cs, done', cur', xs', ys', stale, parent);
    }
  }

  /** The list makes the rest of the array right when nothing that is taken out has a twin in
      front, and only then, when there are few twins. */
  ghost predicate ItemsOutcome(cs: bool, done: seq<Json>, cur: seq<Json>, xs: seq<Json>, ys: seq<Json>, stale: char,
                               parent: Json)
    requires forall i :: 0 <= i < |xs| ==> xs[i] < parent
  {
    var made := MakesArray(cs, Array(done + cur), DiffItems(cs, [], xs, ys, |done|, stale, parent),
      NormItems(cs, done) + NormItems(cs, ys));
    && (ItemsClear(cs, cur, xs, ys, parent) ==> made)
    && (ItemsFew(cs, xs, ys, parent) && made ==> ItemsClear(cs, cur, xs, ys, parent))
  }

  /** From the rest of the array to the whole, when the first elements have come out right. */
  lemma ItemsGoOn(cs: bool, done: seq<Json>, cur: seq<Json>, xs: seq<Json>, ys: seq<Json>, stale: char, parent: Json,
                  done': seq<Json>, cur': seq<Json>, xs': seq<Json>, ys': seq<Json>)
    requires |cur| == |xs| && (xs != [] || ys != []) && forall i :: 0 <= i < |xs| ==> xs[i] < parent
    requires xs' == (if xs != [] then xs[1..] else xs) && ys' == (if ys != [] then ys[1..] else ys)
    requires cur' == (if xs != [] then cur[1..] else cur) && |done'| == if ys != [] then |done| + 1 else |done|
    requires ApplyOps(cs, Array(done + cur), FirstItemOps(cs, xs, ys, |done|, stale, parent)) ==
      Applied(0, Array(done' + cur'))
    requires NormItems(cs, done') + NormItems(cs, ys') == NormItems(cs, done) + NormItems(cs, ys)
    requires xs != [] && ys != [] && FewTwins(cs, xs[0], ys[0]) ==> TwinsClear(cs, cur[0], xs[0], ys[0])
    requires ItemsOutcome(cs, done', cur', xs', ys', stale, parent)
    ensures ItemsOutcome(cs, done, cur, xs, ys, stale, parent)
  {
    hide ApplyOps, DiffItems, TwinsClear, FewTwins, ItemsClear, ItemsFew, MakesArray, FirstItemOps;
    ClearTail(cs, cur, xs, ys, parent);
    MakesArrayChain(cs, Array(done + cur), FirstItemOps(cs, xs, ys, |done|, stale, parent), 0, Array(done' + cur'),
                    DiffItems(cs, [], xs', ys', |done'|, stale, parent), NormItems(cs, done) + NormItems(cs, ys));
  }

  /** When they have not, nothing behind them makes it right. */
  lemma ItemsWrong(cs: bool, done: seq<Json>, cur: seq<Json>, xs: seq<Json>, ys: seq<Json>, stale: char, parent: Json,
                   done': seq<Json>, cur': seq<Json>, status: int)
    requires |cur| == |xs| && xs != [] && ys != [] && forall i :: 0 <= i < |xs| ==> xs[i] < parent
    requires cur' == cur[1..] && |done'| == |done| + 1
    requires ApplyOps(cs, Array(done + cur), FirstItemOps(cs, xs, ys, |done|, stale, parent)) ==
      Applied(status, Array(done' + cur'))
    requires status != 0 || Norm(cs, done'[|done|]) != Norm(cs, ys[0])
    requires !TwinsClear(cs, cur[0], xs[0], ys[0])
    ensures ItemsOutcome(cs, done, cur, xs, ys, stale, parent)
  {
    hide ApplyOps, DiffItems, TwinsClear, FewTwins, ItemsClear, ItemsFew, MakesArray, FirstItemOps, Norm;
    ClearTail(cs, cur, xs, ys, parent);
    var rest, target := DiffItems(cs, [], xs[1..], ys[1..], |done'|, stale, parent),
      NormItems(cs, done) + NormItems(cs, ys);
    MakesArrayChain(cs, Array(done + cur), FirstItemOps(cs, xs, ys, |done|, stale, parent), status, Array(done' + cur'),
      rest, target);
    if status == 0 {
      PrefixKept(cs, done', cur', xs[1..], ys[1..], stale, parent);
      WrongElement(cs, done', Array(done' + cur'), rest, target, |done|);
    }
  }

  /** `done` is what the loop has made equal already, `cur` what is left of the document's
      array; the list brings `cur` to `ys`. */
  lemma {:induction false} DiffItemsApplies(cs: bool, done: seq<Json>, cur: seq<Json>, xs: seq<Json>, ys: seq<Json>,
                                            stale: char, parent: Json)
    requires forall i :: 0 <= i < |xs| ==> xs[i] < parent && WellFormed(cs, xs[i]) && PlainKeys(xs[i])
    requires forall i :: 0 <= i < |ys| ==> WellFormed(cs, ys[i]) && PlainKeys(ys[i])
    requires forall i :: 0 <= i < |cur| ==> WellFormed(cs, cur[i])
    requires NormItems(cs, cur) == NormItems(cs, xs)
    ensures ItemsOutcome(cs, done, cur, xs, ys, stale, parent)
    decreases parent, 0, |xs| + |ys|
  {
    hide ApplyOps, Diff, TwinsClear, FewTwins, WellFormed, PlainKeys, Norm, FirstItemOps, Reaches, ItemsOutcome;
    assert |cur| == |xs|;
    if xs == [] && ys == [] {
      NoItemsLeft(cs, done, cur, stale, parent);
    } else {
      var xs', ys' := if xs != [] then xs[1..] else xs, if ys != [] then ys[1..] else ys;
      var done', cur', status := ItemStep(cs, done, cur, xs, ys, stale, parent);
      if xs != [] { TailItems(cs, cur, xs); }
      if xs != [] && ys != [] {
        assert Norm(cs, cur[0]) == NormItems(cs, cur)[0] == NormItems(cs, xs)[0] == Norm(cs, xs[0]);
        DiffTransforms(cs, cur[0], xs[0], ys[0], stale);
        ItemReached(cs, cur[0], Diff(cs, [], xs[0], ys[0], stale), ys[0]);
      }
      if status == 0 && (ys == [] || Norm(cs, done'[|done|]) == Norm(cs, ys[0])) {
        DiffItemsApplies(cs, done', cur', xs', ys', stale, parent);
        if ys != [] { TargetShift(cs, done, done'[|done|], ys); }
        ItemsGoOn(cs, done, cur, xs, ys, stale, parent, done', cur', xs', ys');
      } else {
        ItemsWrong(cs, done, cur, xs, ys, stale, parent, done', cur', status);
      }
    }
  }

  lemma ItemReached(cs: bool, d: Json, ops: seq<Op>, to: Json)
    ensures Reaches(cs, d, ops, to)
      <==> ApplyOps(cs, d, ops).status == 0 && Norm(cs, ApplyOps(cs, d, ops).doc) == Norm(cs, to)
  {
  }

  lemma NoItemsLeft(cs: bool, done: seq<Json>, cur: seq<Json>, stale: char, parent: Json)
    requires cur == []
    ensures ItemsOutcome(cs, done, cur, [], [], stale, parent)
  {
    ItemsDone(cs, done, cur, stale, parent);
    assert NormItems(cs, done) + NormItems(cs, []) == NormItems(cs, done);
  }

  lemma ClearTail(cs: bool, cur: seq<Json>, xs: seq<Json>, ys: seq<Json>, parent: Json)
    requires |cur| == |xs| && (xs != [] || ys != []) && forall i :: 0 <= i < |xs| ==> xs[i] < parent
    ensures
      var xs', ys', cur' := if xs != [] then xs[1..] else xs, if ys != [] then ys[1..] else ys,
        if xs != [] then cur[1..] else cur;
      && (ItemsClear(cs, cur, xs, ys, parent) <==>
            (xs != [] && ys != [] ==> TwinsClear(cs, cur[0], xs[0], ys[0])) && ItemsClear(cs, cur', xs', ys', parent))
      && (ItemsFew(cs, xs, ys, parent) ==>
            (xs != [] && ys != [] ==> FewTwins(cs, xs[0], ys[0])) && ItemsFew(cs, xs', ys', parent))
  {
    var xs', ys', cur' := if xs != [] then xs[1..] else xs, if ys != [] then ys[1..] else ys,
      if xs != [] then cur[1..] else cur;
    if xs != [] && ys != [] && ItemsClear(cs, cur', xs', ys', parent) && TwinsClear(cs, cur[0], xs[0], ys[0]) {
      forall i | 0 <= i < |cur| && i < |xs| && i < |ys| ensures TwinsClear(cs, cur[i], xs[i], ys[i]) {
        if i > 0 { assert TwinsClear(cs, cur'[i - 1], xs'[i - 1], ys'[i - 1]); }
      }
    }
  }

  lemma WrongElement(cs: bool, done: seq<Json>, doc: Json, ops: seq<Op>, target: seq<Value>, i: nat)
    requires ApplyOps(cs, doc, ops).status == 0 ==>
      ApplyOps(cs, doc, ops).doc.Array? && done <= ApplyOps(cs, doc, ops).doc.items
    requires i < |done| && i < |target| && Norm(cs, done[i]) != target[i]
    ensures !MakesArray(cs, doc, ops, target)
  {
    var r := ApplyOps(cs, doc, ops);
    if r.status == 0 {
      assert NormItems(cs, r.doc.items)[i] == Norm(cs, done[i]);
    }
  }

  // ---------------------------------------------------------------------------
  // The walk over two sorted member lists

  /** The list turns the document into this object. */
  ghost predicate MakesObject(cs: bool, doc: Json, ops: seq<Op>, target: map<string, Value>) {
    var r := ApplyOps(cs, doc, ops);
    r.status == 0 && r.doc.Object? && NormMembers(cs, r.doc.members) == target
  }

  lemma MakesObjectChain(cs: bool, doc: Json, first: seq<Op>, r: Applied, rest: seq<Op>, target: map<string, Value>)
    requires ApplyOps(cs, doc, first) == r
    ensures MakesObject(cs, doc, first + rest, target) <==> r.status == 0 && MakesObject(cs, r.doc, rest, target)
  {
    ApplyConcat(cs, doc, first, rest);
  }

  /** What the walk over two sorted member lists needs. */
  ghost predicate Walkable(cs: bool, cur: seq<Member>, xs: seq<Member>, ys: seq<Member>, parent: Json) {
    && Below(xs, parent)
    && WellFormedMembers(cs, xs) && PlainMembers(xs) && StrictlyOrdered(cs, xs, MemberKey)
    && WellFormedMembers(cs, ys) && PlainMembers(ys) && StrictlyOrdered(cs, ys, MemberKey)
    && DistinctKeys(cs, cur) && OnlyFrom(cs, cur, xs, ys)
    && forall i :: 0 <= i < |xs| ==> Present(cs, cur, xs[i])
  }

  lemma WalkOn(cs: bool, cur: seq<Member>, xs: seq<Member>, ys: seq<Member>, parent: Json, a: nat, b: nat,
               cur': seq<Member>, x: Option<string>)
    requires Walkable(cs, cur, xs, ys, parent) && a <= 1 && b <= 1 && a <= |xs| && b <= |ys|
    requires KeyStep(cs, cur, cur', x, xs[a..]) && OnlyFrom(cs, cur', xs[a..], ys[b..])
    ensures Walkable(cs, cur', xs[a..], ys[b..], parent)
  {
    forall i | 0 <= i < |xs[a..]| ensures Present(cs, cur', xs[a..][i]) {
      assert Present(cs, cur, xs[a + i]);
      assert SameAt(cs, cur, cur', xs[a..][i].key);
    }
  }

  /** Nothing that is to be taken out has a twin in front of it, here and below. */
  ghost predicate AllClear(cs: bool, cur: seq<Member>, xs: seq<Member>, ys: seq<Member>, parent: Json)
    requires Below(xs, parent)
  {
    ClearMembers(cs, cur, xs, ys) && NestedClear(cs, cur, xs, ys, parent)
  }

  ghost predicate AllFew(cs: bool, xs: seq<Member>, ys: seq<Member>, parent: Json)
    requires Below(xs, parent)
  {
    FewOutgoing(cs, xs, ys) && NestedFew(cs, xs, ys, parent)
  }

  /** The condition for the lesser head key. */
  ghost predicate HeadClear(cs: bool, cur: seq<Member>, xs: seq<Member>, ys: seq<Member>)
    requires xs != [] || ys != []
    requires xs != [] ==> Find(cs, cur, xs[0].key).Some?
  {
    var diff := KeyOrder(cs, xs, ys);
    if diff > 0 then true
    else if diff < 0 || Replaced(xs[0].value, ys[0].value) then Clear(cs, cur, xs[0].key)
    else TwinsClear(cs, cur[Find(cs, cur, xs[0].key).value].value, xs[0].value, ys[0].value)
  }

  lemma OutgoingTail(cs: bool, x: Member, xs: seq<Member>, ys: seq<Member>)
    requires StrictlyOrdered(cs, xs, MemberKey) && StrictlyOrdered(cs, ys, MemberKey) && (xs != [] || ys != [])
    requires x in (if KeyOrder(cs, xs, ys) <= 0 then xs[1..] else xs)
    ensures Outgoing(cs, x, ys) <==> Outgoing(cs, x, if KeyOrder(cs, xs, ys) >= 0 then ys[1..] else ys)
  {
    var diff := KeyOrder(cs, xs, ys);
    HeadsApart(cs, xs, ys);
    if diff >= 0 {
      var i :| 0 <= i < |xs| && xs[i] == x && (diff == 0 ==> i > 0);
      SameKey(cs, x.key, ys[0].key);
      if Outgoing(cs, x, ys[1..]) {
        forall j | 0 <= j < |ys| && Compare(cs, x.key, ys[j].key) == 0 ensures Replaced(x.value, ys[j].value) {
          assert j > 0;
          assert ys[1..][j - 1] == ys[j];
        }
      }
    }
  }

  lemma HeadOutgoing(cs: bool, xs: seq<Member>, ys: seq<Member>)
    requires StrictlyOrdered(cs, xs, MemberKey) && StrictlyOrdered(cs, ys, MemberKey) && xs != []
    requires KeyOrder(cs, xs, ys) <= 0
    ensures Outgoing(cs, xs[0], ys) <==> KeyOrder(cs, xs, ys) < 0 || Replaced(xs[0].value, ys[0].value)
  {
    HeadsApart(cs, xs, ys);
    forall j | 0 <= j < |ys| ensures Compare(cs, xs[0].key, ys[j].key) == 0 <==> KeyOrder(cs, xs, ys) == 0 && j == 0 {
      SameKey(cs, xs[0].key, ys[j].key);
    }
  }

  lemma PairSame(cs: bool, cur: seq<Member>, cur': seq<Member>, x: Member, y: Member, parent: Json)
    requires x.value < parent && SameAt(cs, cur, cur', x.key)
    ensures PairClear(cs, cur, x, y, parent) <==> PairClear(cs, cur', x, y, parent)
  {
  }

  lemma MemberClearStep(cs: bool, cur: seq<Member>, cur': seq<Member>, xs: seq<Member>, ys: seq<Member>,
                        x: Option<string>, m: Member)
    requires StrictlyOrdered(cs, xs, MemberKey) && StrictlyOrdered(cs, ys, MemberKey) && (xs != [] || ys != [])
    requires
      var diff := KeyOrder(cs, xs, ys);
      var xs' := if diff <= 0 then xs[1..] else xs;
      m in xs' && KeyStep(cs, cur, cur', x, xs') && Find(cs, cur, m.key).Some?
    ensures
      var ys' := if KeyOrder(cs, xs, ys) >= 0 then ys[1..] else ys;
      && (MemberClear(cs, cur, m, ys) ==> MemberClear(cs, cur', m, ys'))
      && (!(Twin(x, m.key) && Outgoing(cs, m, ys)) && MemberClear(cs, cur', m, ys') ==> MemberClear(cs, cur, m, ys))
      && (Outgoing(cs, m, ys) <==> Outgoing(cs, m, ys'))
  {
    hide Outgoing, Clear, StrictlyOrdered;
    OutgoingTail(cs, m, xs, ys);
    StaysClear(cs, cur, cur', m.key);
  }

  lemma MembersClearStep(cs: bool, cur: seq<Member>, cur': seq<Member>, xs: seq<Member>, ys: seq<Member>,
                         x: Option<string>)
    requires StrictlyOrdered(cs, xs, MemberKey) && StrictlyOrdered(cs, ys, MemberKey) && (xs != [] || ys != [])
    requires forall i :: 0 <= i < |xs| ==> Find(cs, cur, xs[i].key).Some?
    requires KeyStep(cs, cur, cur', x, if KeyOrder(cs, xs, ys) <= 0 then xs[1..] else xs)
    requires x.Some? ==> KeyOrder(cs, xs, ys) <= 0 && xs[0].key == x.value && Outgoing(cs, xs[0], ys)
    ensures
      var diff := KeyOrder(cs, xs, ys);
      var xs', ys' := if diff <= 0 then xs[1..] else xs, if diff >= 0 then ys[1..] else ys;
      var head := diff <= 0 ==> MemberClear(cs, cur, xs[0], ys);
      && (ClearMembers(cs, cur, xs, ys) ==> ClearMembers(cs, cur', xs', ys') && head)
      && (FewOutgoing(cs, xs, ys) && ClearMembers(cs, cur', xs', ys') && head ==> ClearMembers(cs, cur, xs, ys))
      && (FewOutgoing(cs, xs, ys) ==> FewOutgoing(cs, xs', ys'))
  {
    hide Outgoing, Clear, SameAt, KeyStep, StrictlyOrdered, MemberClear;
    var diff := KeyOrder(cs, xs, ys);
    var xs', ys', a := if diff <= 0 then xs[1..] else xs, if diff >= 0 then ys[1..] else ys, if diff <= 0 then 1 else 0;
    forall i | 0 <= i < |xs'|
      ensures MemberClear(cs, cur, xs'[i], ys) ==> MemberClear(cs, cur', xs'[i], ys')
      ensures !(Twin(x, xs'[i].key) && Outgoing(cs, xs'[i], ys)) && MemberClear(cs, cur', xs'[i], ys') ==>
        MemberClear(cs, cur, xs'[i], ys)
      ensures Outgoing(cs, xs'[i], ys) <==> Outgoing(cs, xs'[i], ys')
    {
      assert xs'[i] == xs[i + a];
      MemberClearStep(cs, cur, cur', xs, ys, x, xs'[i]);
    }
    if FewOutgoing(cs, xs, ys) {
      FewTail(cs, xs, ys, xs', ys', a);
      forall i | 0 <= i < |xs| && i >= a ensures !(Twin(x, xs[i].key) && Outgoing(cs, xs[i], ys)) {
        if x.Some? { assert !BothOutgoing(cs, xs[i], xs[0], ys); }
      }
      if ClearMembers(cs, cur', xs', ys') && (diff <= 0 ==> MemberClear(cs, cur, xs[0], ys)) {
        forall i | 0 <= i < |xs| ensures MemberClear(cs, cur, xs[i], ys) {
          if i >= a { assert xs'[i - a] == xs[i] && MemberClear(cs, cur', xs'[i - a], ys'); }
        }
      }
    }
  }

  lemma FewTail(cs: bool, xs: seq<Member>, ys: seq<Member>, xs': seq<Member>, ys': seq<Member>, a: nat)
    requires FewOutgoing(cs, xs, ys) && a <= |xs| && xs' == xs[a..]
    requires forall i :: 0 <= i < |xs'| ==> (Outgoing(cs, xs'[i], ys) <==> Outgoing(cs, xs'[i], ys'))
    ensures FewOutgoing(cs, xs', ys')
  {
    hide Outgoing;
    forall i, j | 0 <= i < |xs'| && 0 <= j < |xs'| && i != j ensures !BothOutgoing(cs, xs'[i], xs'[j], ys') {
      assert !BothOutgoing(cs, xs[i + a], xs[j + a], ys);
    }
  }

  lemma StaysClear(cs: bool, cur: seq<Member>, cur': seq<Member>, key: string)
    ensures SameAt(cs, cur, cur', key) ==> Clear(cs, cur, key) ==> Clear(cs, cur', key)
  {
  }

  lemma NestedClearStep(cs: bool, cur: seq<Member>, cur': seq<Member>, xs: seq<Member>, ys: seq<Member>,
                        x: Option<string>, parent: Json)
    requires Below(xs, parent)
    requires StrictlyOrdered(cs, xs, MemberKey) && StrictlyOrdered(cs, ys, MemberKey) && (xs != [] || ys != [])
    requires forall i :: 0 <= i < |xs| ==> Find(cs, cur, xs[i].key).Some?
    requires KeyStep(cs, cur, cur', x, if KeyOrder(cs, xs, ys) <= 0 then xs[1..] else xs)
    ensures
      var diff := KeyOrder(cs, xs, ys);
      var xs', ys' := if diff <= 0 then xs[1..] else xs, if diff >= 0 then ys[1..] else ys;
      && (NestedClear(cs, cur, xs, ys, parent) <==>
            NestedClear(cs, cur', xs', ys', parent) && (diff == 0 ==> PairClear(cs, cur, xs[0], ys[0], parent)))
      && (NestedFew(cs, xs, ys, parent) ==>
            NestedFew(cs, xs', ys', parent) && (diff == 0 ==> FewTwins(cs, xs[0].value, ys[0].value)))
  {
    hide KeyStep, NestedClear, NestedFew, PairClear, StrictlyOrdered, FewTwins;
    var diff := KeyOrder(cs, xs, ys);
    var a: nat, b: nat := if diff <= 0 then 1 else 0, if diff >= 0 then 1 else 0;
    assert xs[0..] == xs && ys[0..] == ys;
    NestedTail(cs, cur, cur', xs, ys, x, a, b, parent);
    FewNestedTail(cs, xs, ys, a, b, parent);
  }

  lemma NestedTail(cs: bool, cur: seq<Member>, cur': seq<Member>, xs: seq<Member>, ys: seq<Member>, x: Option<string>,
                   a: nat, b: nat, parent: Json)
    requires Below(xs, parent) && a <= |xs| && b <= |ys|
    requires StrictlyOrdered(cs, xs, MemberKey) && StrictlyOrdered(cs, ys, MemberKey) && (xs != [] || ys != [])
    requires a == (if KeyOrder(cs, xs, ys) <= 0 then 1 else 0) && b == (if KeyOrder(cs, xs, ys) >= 0 then 1 else 0)
    requires forall i :: 0 <= i < |xs| ==> Find(cs, cur, xs[i].key).Some?
    requires KeyStep(cs, cur, cur', x, xs[a..])
    ensures NestedClear(cs, cur, xs, ys, parent) <==>
      NestedClear(cs, cur', xs[a..], ys[b..], parent) && (a == 1 && b == 1 ==> PairClear(cs, cur, xs[0], ys[0], parent))
  {
    hide PairClear, StrictlyOrdered, NestedClear, KeyStep, KeyOrder;
    TailPairs(cs, cur, cur', xs, ys, x, a, b, parent);
    if NestedClear(cs, cur, xs, ys, parent) {
      NestedForth(cs, cur, cur', xs, ys, a, b, parent);
    }
    if NestedClear(cs, cur', xs[a..], ys[b..], parent)
      && (a == 1 && b == 1 ==> PairClear(cs, cur, xs[0], ys[0], parent)) {
      NestedBack(cs, cur, cur', xs, ys, a, b, parent);
    }
  }

  ghost predicate TailsAgree(cs: bool, cur: seq<Member>, cur': seq<Member>, xs: seq<Member>, ys: seq<Member>, a: nat,
                             b: nat, parent: Json)
    requires Below(xs, parent)
  {
    forall i, j :: a <= i < |xs| && b <= j < |ys| ==>
      (PairClear(cs, cur', xs[i], ys[j], parent) <==> PairClear(cs, cur, xs[i], ys[j], parent))
  }

  lemma TailPairs(cs: bool, cur: seq<Member>, cur': seq<Member>, xs: seq<Member>, ys: seq<Member>, x: Option<string>,
                  a: nat, b: nat, parent: Json)
    requires Below(xs, parent) && a <= |xs| && b <= |ys|
    requires forall i :: 0 <= i < |xs| ==> Find(cs, cur, xs[i].key).Some?
    requires KeyStep(cs, cur, cur', x, xs[a..])
    ensures TailsAgree(cs, cur, cur', xs, ys, a, b, parent)
  {
    hide PairClear, SameAt;
    forall i, j | a <= i < |xs| && b <= j < |ys|
      ensures PairClear(cs, cur', xs[i], ys[j], parent) <==> PairClear(cs, cur, xs[i], ys[j], parent)
    {
      assert xs[a..][i - a] == xs[i];
      PairSame(cs, cur, cur', xs[i], ys[j], parent);
    }
  }

  lemma NestedForth(cs: bool, cur: seq<Member>, cur': seq<Member>, xs: seq<Member>, ys: seq<Member>, a: nat, b: nat,
                    parent: Json)
    requires Below(xs, parent) && a <= |xs| && b <= |ys|
    requires TailsAgree(cs, cur, cur', xs, ys, a, b, parent) && NestedClear(cs, cur, xs, ys, parent)
    ensures NestedClear(cs, cur', xs[a..], ys[b..], parent)
    ensures xs != [] && ys != [] ==> PairClear(cs, cur, xs[0], ys[0], parent)
  {
    hide PairClear;
    forall i, j | 0 <= i < |xs[a..]| && 0 <= j < |ys[b..]| ensures PairClear(cs, cur', xs[a..][i], ys[b..][j], parent) {
      assert PairClear(cs, cur, xs[i + a], ys[j + b], parent);
    }
  }

  lemma NestedBack(cs: bool, cur: seq<Member>, cur': seq<Member>, xs: seq<Member>, ys: seq<Member>, a: nat, b: nat,
                   parent: Json)
    requires Below(xs, parent) && a <= |xs| && b <= |ys|
    requires StrictlyOrdered(cs, xs, MemberKey) && StrictlyOrdered(cs, ys, MemberKey) && (xs != [] || ys != [])
    requires a == (if KeyOrder(cs, xs, ys) <= 0 then 1 else 0) && b == (if KeyOrder(cs, xs, ys) >= 0 then 1 else 0)
    requires TailsAgree(cs, cur, cur', xs, ys, a, b, parent) && NestedClear(cs, cur', xs[a..], ys[b..], parent)
    requires a == 1 && b == 1 ==> PairClear(cs, cur, xs[0], ys[0], parent)
    ensures NestedClear(cs, cur, xs, ys, parent)
  {
    hide PairClear, StrictlyOrdered, Compare;
    forall i, j | 0 <= i < |xs| && 0 <= j < |ys| ensures PairClear(cs, cur, xs[i], ys[j], parent) {
      if i >= a && j >= b {
        assert PairClear(cs, cur', xs[a..][i - a], ys[b..][j - b], parent);
      } else if !(a == 1 && b == 1 && i == 0 && j == 0) {
        NoPair(cs, cur, xs, ys, i, j, parent);
      }
    }
  }

  lemma FewNestedTail(cs: bool, xs: seq<Member>, ys: seq<Member>, a: nat, b: nat, parent: Json)
    requires Below(xs, parent) && a <= |xs| && b <= |ys|
    ensures NestedFew(cs, xs, ys, parent) ==> NestedFew(cs, xs[a..], ys[b..], parent)
    ensures NestedFew(cs, xs, ys, parent) && xs != [] && ys != [] && Compare(cs, xs[0].key, ys[0].key) == 0 ==>
      FewTwins(cs, xs[0].value, ys[0].value)
  {
    hide FewTwins, Compare;
  }

  /** A head key that is taken is met with its equal only. */
  lemma NoPair(cs: bool, cur: seq<Member>, xs: seq<Member>, ys: seq<Member>, i: nat, j: nat, parent: Json)
    requires Below(xs, parent) && i < |xs| && j < |ys|
    requires StrictlyOrdered(cs, xs, MemberKey) && StrictlyOrdered(cs, ys, MemberKey)
    requires
      var diff := KeyOrder(cs, xs, ys);
      (diff <= 0 && i == 0) || (diff >= 0 && j == 0)
    requires !(KeyOrder(cs, xs, ys) == 0 && i == 0 && j == 0)
    ensures PairClear(cs, cur, xs[i], ys[j], parent)
  {
    HeadsApart(cs, xs, ys);
    SameKey(cs, xs[i].key, ys[j].key);
  }

  /** What a step that goes well does to the conditions. */
  lemma ClearStep(cs: bool, cur: seq<Member>, cur': seq<Member>, xs: seq<Member>, ys: seq<Member>, x: Option<string>,
                  parent: Json)
    requires Below(xs, parent)
    requires StrictlyOrdered(cs, xs, MemberKey) && StrictlyOrdered(cs, ys, MemberKey) && (xs != [] || ys != [])
    requires forall i :: 0 <= i < |xs| ==> Find(cs, cur, xs[i].key).Some?
    requires
      var diff := KeyOrder(cs, xs, ys);
      && KeyStep(cs, cur, cur', x, if diff <= 0 then xs[1..] else xs)
      && (x.Some? ==> diff <= 0 && xs[0].key == x.value && Outgoing(cs, xs[0], ys))
    ensures
      var diff := KeyOrder(cs, xs, ys);
      var xs', ys' := if diff <= 0 then xs[1..] else xs, if diff >= 0 then ys[1..] else ys;
      && (AllClear(cs, cur, xs, ys, parent) ==> AllClear(cs, cur', xs', ys', parent) && HeadClear(cs, cur, xs, ys))
      && (AllFew(cs, xs, ys, parent) && AllClear(cs, cur', xs', ys', parent) && HeadClear(cs, cur, xs, ys) ==>
        AllClear(cs, cur, xs, ys, parent))
      && (AllFew(cs, xs, ys, parent) ==>
        AllFew(cs, xs', ys', parent) && (diff == 0 ==> FewTwins(cs, xs[0].value, ys[0].value)))
  {
    hide ClearMembers, NestedClear, FewOutgoing, NestedFew, KeyStep, Outgoing, Clear;
    MembersClearStep(cs, cur, cur', xs, ys, x);
    NestedClearStep(cs, cur, cur', xs, ys, x, parent);
    if KeyOrder(cs, xs, ys) <= 0 {
      HeadOutgoing(cs, xs, ys);
      if KeyOrder(cs, xs, ys) == 0
        { ReplacedClear(cs, cur[Find(cs, cur, xs[0].key).value].value, xs[0].value, ys[0].value); }
    }
  }

  lemma ReplacedClear(cs: bool, d: Json, x: Json, y: Json)
    ensures Replaced(x, y) ==> TwinsClear(cs, d, x, y)
  {
  }

  // ---------------------------------------------------------------------------
  // One step of the walk

  /** The operations for the lesser head key do what they should. */
  ghost predicate HeadGood(cs: bool, cur: seq<Member>, xs: seq<Member>, ys: seq<Member>, stale: char)
    requires xs != [] || ys != []
    requires xs != [] ==> Find(cs, cur, xs[0].key).Some?
  {
    var diff := KeyOrder(cs, xs, ys);
    if diff > 0 then true
    else if diff < 0 || Replaced(xs[0].value, ys[0].value) then Clear(cs, cur, xs[0].key)
    else Reaches(cs, cur[Find(cs, cur, xs[0].key).value].value, Diff(cs, [], xs[0].value, ys[0].value, stale),
      ys[0].value)
  }

  /** What a good step leads to. */
  ghost predicate Leads(cs: bool, cur: seq<Member>, xs: seq<Member>, ys: seq<Member>, stale: char, parent: Json,
                        cur': seq<Member>, x: Option<string>)
    requires Below(xs, parent) && (xs != [] || ys != []) && PlainMembers(xs) && PlainMembers(ys)
  {
    var diff := KeyOrder(cs, xs, ys);
    var xs', ys' := if diff <= 0 then xs[1..] else xs, if diff >= 0 then ys[1..] else ys;
    && ApplyOps(cs, Object(cur), FirstOps(cs, xs, ys, stale, parent)) == Applied(0, Object(cur'))
    && KeyStep(cs, cur, cur', x, xs') && Walkable(cs, cur', xs', ys', parent)
    && Goal(cs, cur', xs', ys') == Goal(cs, cur, xs, ys)
    && (x.Some? ==> diff <= 0 && xs[0].key == x.value && Outgoing(cs, xs[0], ys))
  }

  lemma GoodHead(cs: bool, cur: seq<Member>, xs: seq<Member>, ys: seq<Member>, stale: char, parent: Json)
      returns (cur': seq<Member>, x: Option<string>)
    requires Walkable(cs, cur, xs, ys, parent) && (xs != [] || ys != []) && PresentHead(cs, cur, xs)
    requires HeadGood(cs, cur, xs, ys, stale)
    ensures Leads(cs, cur, xs, ys, stale, parent, cur', x)
  {
    hide Leads, Walkable;
    var diff := KeyOrder(cs, xs, ys);
    if diff > 0 {
      cur' := GoodAdd(cs, cur, xs, ys, stale, parent);
      x := None;
    } else if diff < 0 {
      cur' := GoodRemove(cs, cur, xs, ys, stale, parent);
      x := Some(xs[0].key);
    } else if Replaced(xs[0].value, ys[0].value) {
      cur' := GoodReplace(cs, cur, xs, ys, stale, parent);
      x := Some(xs[0].key);
    } else {
      cur' := GoodChange(cs, cur, xs, ys, stale, parent);
      x := None;
    }
  }

  ghost predicate PresentHead(cs: bool, cur: seq<Member>, xs: seq<Member>) {
    xs != [] ==> Find(cs, cur, xs[0].key).Some?
  }

  lemma WalkFacts(cs: bool, cur: seq<Member>, xs: seq<Member>, ys: seq<Member>, parent: Json)
    requires Walkable(cs, cur, xs, ys, parent)
    ensures Below(xs, parent) && PlainMembers(xs) && PlainMembers(ys) && DistinctKeys(cs, cur)
      && OnlyFrom(cs, cur, xs, ys)
    ensures StrictlyOrdered(cs, xs, MemberKey) && StrictlyOrdered(cs, ys, MemberKey)
    ensures PresentHead(cs, cur, xs)
    ensures forall i :: 0 <= i < |xs| ==> Find(cs, cur, xs[i].key).Some?
    ensures xs != [] ==>
      Plain(xs[0].key) && Present(cs, cur, xs[0]) && WellFormed(cs, xs[0].value) && PlainKeys(xs[0].value)
    ensures ys != [] ==> Plain(ys[0].key) && WellFormed(cs, ys[0].value) && PlainKeys(ys[0].value)
  {
    forall i | 0 <= i < |xs| ensures Find(cs, cur, xs[i].key).Some? {
      assert Present(cs, cur, xs[i]);
    }
  }

  lemma GoodAdd(cs: bool, cur: seq<Member>, xs: seq<Member>, ys: seq<Member>, stale: char, parent: Json)
      returns (cur': seq<Member>)
    requires Walkable(cs, cur, xs, ys, parent) && ys != [] && KeyOrder(cs, xs, ys) > 0
    ensures Leads(cs, cur, xs, ys, stale, parent, cur', None)
  {
    hide Walkable, KeyStep, Goal, OnlyFrom, ApplyOps;
    WalkFacts(cs, cur, xs, ys, parent);
    NewKey(cs, cur, xs, ys);
    cur' := cur + [ys[0]];
    AddMember(cs, cur, ys[0], None, xs);
    AddMemberStep(cs, cur, ys[0]);
    GoalAdd(cs, cur, cur', xs, ys);
    assert xs[0..] == xs;
    WalkOn(cs, cur, xs, ys, parent, 0, 1, cur', None);
  }

  lemma NewKey(cs: bool, cur: seq<Member>, xs: seq<Member>, ys: seq<Member>)
    requires StrictlyOrdered(cs, xs, MemberKey) && StrictlyOrdered(cs, ys, MemberKey)
    requires OnlyFrom(cs, cur, xs, ys) && ys != [] && KeyOrder(cs, xs, ys) > 0
    ensures FoldString(cs, ys[0].key) !in NormMembers(cs, cur)
    ensures FoldString(cs, ys[0].key) !in NormMembers(cs, xs)
    ensures FoldString(cs, ys[0].key) !in NormMembers(cs, ys[1..])
  {
    TailAbove(cs, ys);
    if xs != [] { CompareFlip(cs, xs[0].key, ys[0].key); }
    HeadBelowAll(cs, ys[0].key, xs);
    assert FoldString(cs, ys[0].key) in NormMembers(cs, ys);
  }

  lemma GoodRemove(cs: bool, cur: seq<Member>, xs: seq<Member>, ys: seq<Member>, stale: char, parent: Json)
      returns (cur': seq<Member>)
    requires Walkable(cs, cur, xs, ys, parent) && xs != [] && KeyOrder(cs, xs, ys) < 0
    requires Find(cs, cur, xs[0].key).Some? && Clear(cs, cur, xs[0].key)
    ensures Leads(cs, cur, xs, ys, stale, parent, cur', Some(xs[0].key))
  {
    hide Walkable, KeyStep, Goal, OnlyFrom, ApplyOps, Outgoing, Clear;
    WalkFacts(cs, cur, xs, ys, parent);
    TailAbove(cs, xs);
    HeadBelowAll(cs, xs[0].key, ys);
    cur' := RemoveMember(cs, cur, xs[0].key, xs[1..]);
    GoalDrop(cs, cur, cur', xs, ys);
    assert ys[0..] == ys;
    WalkOn(cs, cur, xs, ys, parent, 1, 0, cur', Some(xs[0].key));
    HeadOutgoing(cs, xs, ys);
  }

  lemma GoodReplace(cs: bool, cur: seq<Member>, xs: seq<Member>, ys: seq<Member>, stale: char, parent: Json)
      returns (cur': seq<Member>)
    requires Walkable(cs, cur, xs, ys, parent) && xs != [] && ys != [] && KeyOrder(cs, xs, ys) == 0
    requires Replaced(xs[0].value, ys[0].value) && Find(cs, cur, xs[0].key).Some? && Clear(cs, cur, xs[0].key)
    ensures Leads(cs, cur, xs, ys, stale, parent, cur', Some(xs[0].key))
  {
    hide Walkable, KeyStep, Goal, OnlyFrom, ApplyOps, Outgoing, Clear, Replaced, Diff;
    WalkFacts(cs, cur, xs, ys, parent);
    TailAbove(cs, xs);
    TailAbove(cs, ys);
    SameKey(cs, xs[0].key, ys[0].key);
    ReplacedOps(cs, xs, ys, stale, parent);
    cur' := ReplaceMember(cs, cur, xs[0].key, ys[0].value, xs[1..]);
    GoalBoth(cs, cur, cur', xs, ys);
    WalkOn(cs, cur, xs, ys, parent, 1, 1, cur', Some(xs[0].key));
    HeadOutgoing(cs, xs, ys);
  }

  lemma ReplacedOps(cs: bool, xs: seq<Member>, ys: seq<Member>, stale: char, parent: Json)
    requires Below(xs, parent) && PlainMembers(xs) && PlainMembers(ys) && xs != [] && ys != []
      && KeyOrder(cs, xs, ys) == 0
    ensures FirstOps(cs, xs, ys, stale, parent) == Under("/" + xs[0].key, Diff(cs, [], xs[0].value, ys[0].value, stale))
    ensures Replaced(xs[0].value, ys[0].value) ==>
      FirstOps(cs, xs, ys, stale, parent) == [Op("replace", "/" + xs[0].key, Some(ys[0].value))]
  {
    hide Diff, Replaced;
    BelowShape(cs, xs[0].key, xs[0].value, ys[0].value, stale);
    DiffShape(cs, xs[0].value, ys[0].value, stale);
    assert "/" + xs[0].key + [] == "/" + xs[0].key;
    assert Under("/" + xs[0].key, [Op("replace", [], Some(ys[0].value))]) ==
      [Op("replace", "/" + xs[0].key, Some(ys[0].value))];
  }

  lemma GoodChange(cs: bool, cur: seq<Member>, xs: seq<Member>, ys: seq<Member>, stale: char, parent: Json)
      returns (cur': seq<Member>)
    requires Walkable(cs, cur, xs, ys, parent) && xs != [] && ys != [] && KeyOrder(cs, xs, ys) == 0
    requires !Replaced(xs[0].value, ys[0].value) && Find(cs, cur, xs[0].key).Some?
    requires Reaches(cs, cur[Find(cs, cur, xs[0].key).value].value, Diff(cs, [], xs[0].value, ys[0].value, stale),
      ys[0].value)
    ensures Leads(cs, cur, xs, ys, stale, parent, cur', None)
  {
    hide Walkable, KeyStep, Goal, OnlyFrom, ApplyOps, Outgoing, Clear, Replaced, Diff;
    WalkFacts(cs, cur, xs, ys, parent);
    TailAbove(cs, xs);
    TailAbove(cs, ys);
    SameKey(cs, xs[0].key, ys[0].key);
    var ops := Diff(cs, [], xs[0].value, ys[0].value, stale);
    ReplacedOps(cs, xs, ys, stale, parent);
    DiffShape(cs, xs[0].value, ys[0].value, stale);
    ChangeMember(cs, cur, xs[0].key, ops, xs[1..]);
    var f := Find(cs, cur, xs[0].key).value;
    cur' := cur[f := cur[f].(value := ApplyOps(cs, cur[f].value, ops).doc)];
    GoalBoth(cs, cur, cur', xs, ys);
    WalkOn(cs, cur, xs, ys, parent, 1, 1, cur', None);
  }

  // ---------------------------------------------------------------------------
  // A step that goes wrong

  /** The key is lost, or has the wrong value, when the operations behind the first begin. */
  lemma MissesGoal(cs: bool, cur: seq<Member>, xs: seq<Member>, ys: seq<Member>, stale: char, parent: Json, k: string,
                   w: Option<Value>)
    requires Below(xs, parent) && PlainMembers(xs) && PlainMembers(ys) && (xs != [] || ys != [])
    requires StrictlyOrdered(cs, xs, MemberKey) && StrictlyOrdered(cs, ys, MemberKey)
    requires k in Goal(cs, cur, xs, ys) && (w.Some? ==> Goal(cs, cur, xs, ys)[k] == w.value)
    requires
      var diff := KeyOrder(cs, xs, ys);
      var xs', ys' := if diff <= 0 then xs[1..] else xs, if diff >= 0 then ys[1..] else ys;
      NotSet(cs, xs', ys', k, w.None?)
    requires StillWithout(cs, ApplyOps(cs, Object(cur), FirstOps(cs, xs, ys, stale, parent)), k, w)
    ensures !MakesObject(cs, Object(cur), DiffMembers(cs, [], xs, ys, stale, parent), Goal(cs, cur, xs, ys))
  {
    hide ApplyOps, NotSet, Goal, Without;
    var diff := KeyOrder(cs, xs, ys);
    var xs', ys' := if diff <= 0 then xs[1..] else xs, if diff >= 0 then ys[1..] else ys;
    var first, rest := FirstOps(cs, xs, ys, stale, parent), DiffMembers(cs, [], xs', ys', stale, parent);
    var r, goal := ApplyOps(cs, Object(cur), first), Goal(cs, cur, xs, ys);
    MakesObjectChain(cs, Object(cur), first, r, rest, goal);
    if r.status == 0 {
      TailsOrdered(cs, xs, ys);
      StaysWithout(cs, r.doc.members, xs', ys', stale, parent, k, w);
      WithoutDiffers(cs, r.doc, rest, goal, k, w);
    }
  }

  lemma WithoutDiffers(cs: bool, doc: Json, ops: seq<Op>, goal: map<string, Value>, k: string, w: Option<Value>)
    requires StillWithout(cs, ApplyOps(cs, doc, ops), k, w) && k in goal && (w.Some? ==> goal[k] == w.value)
    ensures !MakesObject(cs, doc, ops, goal)
  {
  }

  /** A twin in front is taken out instead. */
  lemma TwinTaken(cs: bool, cur: seq<Member>, xs: seq<Member>, ys: seq<Member>, stale: char, parent: Json)
    requires Walkable(cs, cur, xs, ys, parent) && xs != [] && KeyOrder(cs, xs, ys) <= 0 && FewOutgoing(cs, xs, ys)
    requires Find(cs, cur, xs[0].key).Some? && !Clear(cs, cur, xs[0].key) && Outgoing(cs, xs[0], ys)
    ensures !MakesObject(cs, Object(cur), DiffMembers(cs, [], xs, ys, stale, parent), Goal(cs, cur, xs, ys))
  {
    hide Walkable, Goal, OnlyFrom, ApplyOps, FewOutgoing, Clear, Outgoing, Replaced, Diff, Without, NotSet, MakesObject;
    WalkFacts(cs, cur, xs, ys, parent);
    HeadOutgoing(cs, xs, ys);
    var t, k := LostTwin(cs, cur, xs, ys);
    TakesTwin(cs, cur, xs, ys, stale, parent, t, k);
    MissesGoal(cs, cur, xs, ys, stale, parent, k, None);
  }

  /** The twin: another key, which is to be there in the end and is not added again. */
  lemma LostTwin(cs: bool, cur: seq<Member>, xs: seq<Member>, ys: seq<Member>) returns (t: nat, k: string)
    requires StrictlyOrdered(cs, xs, MemberKey) && StrictlyOrdered(cs, ys, MemberKey) && DistinctKeys(cs, cur)
      && OnlyFrom(cs, cur, xs, ys)
    requires xs != [] && KeyOrder(cs, xs, ys) <= 0 && FewOutgoing(cs, xs, ys)
    requires Find(cs, cur, xs[0].key).Some? && !Clear(cs, cur, xs[0].key) && Outgoing(cs, xs[0], ys)
    ensures Find(false, cur, xs[0].key) == Some(t) && k == FoldString(cs, cur[t].key) && k != FoldString(cs, xs[0].key)
    ensures k in Goal(cs, cur, xs, ys)
    ensures NotSet(cs, xs[1..], if KeyOrder(cs, xs, ys) >= 0 then ys[1..] else ys, k, true)
  {
    FindFolded(cs, cur, xs[0].key);
    t := Find(false, cur, xs[0].key).value;
    k := FoldString(cs, cur[t].key);
    TwinApart(cs, cur, xs[0].key, t);
    NormMembersKeys(cs, cur);
    assert k in NormMembers(cs, cur);
    NormMembersKeys(cs, xs);
    if k in NormMembers(cs, xs) {
      var i :| 0 <= i < |xs| && FoldString(cs, xs[i].key) == k;
      var j := StayingPair(cs, xs, ys, i, cur[t].key);
      GoalHas(cs, cur, xs, ys, k);
      NormMembersKeys(cs, ys);
      KeptTail(cs, xs, ys, i, j, k);
    } else {
      GoalHas(cs, cur, xs, ys, k);
      assert k !in NormMembers(cs, ys);
      NormMembersKeys(cs, ys);
      NotAnyKey(cs, ys, k, if KeyOrder(cs, xs, ys) >= 0 then 1 else 0);
    }
  }

  lemma NotAnyKey(cs: bool, ys: seq<Member>, k: string, b: nat)
    requires b <= |ys| && forall j :: 0 <= j < |ys| ==> FoldString(cs, ys[j].key) != k
    ensures forall j :: 0 <= j < |ys[b..]| ==> FoldString(cs, ys[b..][j].key) != k
  {
  }

  lemma TwinApart(cs: bool, cur: seq<Member>, key: string, t: nat)
    requires Find(cs, cur, key).Some? && Find(false, cur, key) == Some(t) && !Clear(cs, cur, key)
    ensures FoldString(cs, cur[t].key) != FoldString(cs, key) && Compare(false, key, cur[t].key) == 0
  {
    FindFolded(cs, cur, key);
    SameKey(cs, key, cur[t].key);
  }

  /** A twin of a member that is taken out stays. */
  lemma StayingPair(cs: bool, xs: seq<Member>, ys: seq<Member>, i: nat, key: string) returns (j: nat)
    requires xs != [] && i < |xs| && FewOutgoing(cs, xs, ys) && Outgoing(cs, xs[0], ys)
    requires FoldString(cs, xs[i].key) == FoldString(cs, key) != FoldString(cs, xs[0].key)
      && Compare(false, xs[0].key, key) == 0
    ensures i > 0 && j < |ys| && KeptPair(cs, xs[i], ys[j], FoldString(cs, key))
  {
    SameKey(cs, xs[i].key, key);
    MatchIgnoringCase(cs, xs[i].key, key);
    SameKey(false, xs[i].key, key);
    SameKey(false, xs[0].key, key);
    SameKey(false, xs[i].key, xs[0].key);
    assert !BothOutgoing(cs, xs[i], xs[0], ys);
    j :| 0 <= j < |ys| && Compare(cs, xs[i].key, ys[j].key) == 0 && !Replaced(xs[i].value, ys[j].value);
    SameKey(cs, xs[i].key, ys[j].key);
  }

  lemma KeptTail(cs: bool, xs: seq<Member>, ys: seq<Member>, i: nat, j: nat, k: string)
    requires StrictlyOrdered(cs, xs, MemberKey) && StrictlyOrdered(cs, ys, MemberKey)
    requires KeyOrder(cs, xs, ys) <= 0 && 0 < i < |xs| && j < |ys| && KeptPair(cs, xs[i], ys[j], k)
      && k != FoldString(cs, xs[0].key)
    ensures NotSet(cs, xs[1..], if KeyOrder(cs, xs, ys) >= 0 then ys[1..] else ys, k, true)
    ensures k in NormMembers(cs, ys)
  {
    HeadsApart(cs, xs, ys);
    NormMembersKeys(cs, ys);
    var b := if KeyOrder(cs, xs, ys) >= 0 then 1 else 0;
    assert j >= b;
    assert ys[b..][j - b] == ys[j] && xs[1..][i - 1] == xs[i] && ys[0..] == ys;
    assert KeptPair(cs, xs[1..][i - 1], ys[b..][j - b], k);
  }

  lemma GoneAfter(cs: bool, cur: seq<Member>, t: nat)
    requires DistinctKeys(cs, cur) && t < |cur|
    ensures Without(cs, RemoveAt(cur, t), FoldString(cs, cur[t].key), None)
  {
    NormRemove(cs, cur, t);
  }

  lemma TakesTwin(cs: bool, cur: seq<Member>, xs: seq<Member>, ys: seq<Member>, stale: char, parent: Json, t: nat,
                  k: string)
    requires Below(xs, parent) && PlainMembers(xs) && PlainMembers(ys) && DistinctKeys(cs, cur) && xs != []
      && KeyOrder(cs, xs, ys) <= 0
    requires KeyOrder(cs, xs, ys) == 0 ==> Replaced(xs[0].value, ys[0].value)
    requires Find(false, cur, xs[0].key) == Some(t) && k == FoldString(cs, cur[t].key) && k != FoldString(cs, xs[0].key)
    ensures StillWithout(cs, ApplyOps(cs, Object(cur), FirstOps(cs, xs, ys, stale, parent)), k, None)
  {
    hide Without, Replaced, Diff, SetMember;
    var x := xs[0];
    GoneAfter(cs, cur, t);
    if KeyOrder(cs, xs, ys) < 0 {
      var op := Op("remove", "/" + x.key, None);
      ApplyHere(cs, Object(cur), x.key, op);
      ApplyOne(cs, Object(cur), op);
    } else {
      var op := Op("replace", "/" + x.key, Some(ys[0].value));
      ReplacedOps(cs, xs, ys, stale, parent);
      ApplyHere(cs, Object(cur), x.key, op);
      ApplyOne(cs, Object(cur), op);
      SetWithout(cs, RemoveAt(cur, t), x.key, ys[0].value, k, None);
    }
  }

  /** The value of a member did not become what it should, or the operations for it failed. */
  lemma ChangeFails(cs: bool, cur: seq<Member>, xs: seq<Member>, ys: seq<Member>, stale: char, parent: Json)
    requires Walkable(cs, cur, xs, ys, parent) && xs != [] && ys != [] && KeyOrder(cs, xs, ys) == 0
    requires !Replaced(xs[0].value, ys[0].value) && Find(cs, cur, xs[0].key).Some?
    requires !Reaches(cs, cur[Find(cs, cur, xs[0].key).value].value, Diff(cs, [], xs[0].value, ys[0].value, stale),
      ys[0].value)
    ensures !MakesObject(cs, Object(cur), DiffMembers(cs, [], xs, ys, stale, parent), Goal(cs, cur, xs, ys))
  {
    hide Walkable, Goal, OnlyFrom, ApplyOps, Replaced, Diff, NotSet, MakesObject, KeyStep;
    WalkFacts(cs, cur, xs, ys, parent);
    var k := FoldString(cs, xs[0].key);
    HeadsApart(cs, xs, ys);
    var ops := Diff(cs, [], xs[0].value, ys[0].value, stale);
    ReplacedOps(cs, xs, ys, stale, parent);
    DiffShape(cs, xs[0].value, ys[0].value, stale);
    ChangeMember(cs, cur, xs[0].key, ops, []);
    GoalHas(cs, cur, xs, ys, k);
    HeadValue(cs, ys);
    NoneLeft(cs, xs[1..], ys, k);
    MissesGoal(cs, cur, xs, ys, stale, parent, k, Some(Norm(cs, ys[0].value)));
  }

  lemma HeadValue(cs: bool, ys: seq<Member>)
    requires ys != []
    ensures
      var k := FoldString(cs, ys[0].key);
      k in NormMembers(cs, ys) && NormMembers(cs, ys)[k] == Norm(cs, ys[0].value)
  {
  }

  lemma NoneLeft(cs: bool, xs: seq<Member>, ys: seq<Member>, k: string)
    requires ys != [] && forall j :: 0 < j < |ys| ==> FoldString(cs, ys[j].key) != k
    ensures NotSet(cs, xs, ys[1..], k, false)
  {
    forall j | 0 <= j < |ys[1..]| ensures FoldString(cs, ys[1..][j].key) != k {
      assert ys[1..][j] == ys[j + 1];
    }
  }

  // ---------------------------------------------------------------------------
  // The whole walk

  /** From sorted lists `xs` and `ys` and an object in which the members `xs` are still what
      they were: the patches make it right if no member they take out has a twin in front, and
      only then, when there are few twins. */
  lemma {:induction false} DiffMembersApplies(cs: bool, cur: seq<Member>, xs: seq<Member>, ys: seq<Member>, stale: char,
                                              parent: Json)
    requires Walkable(cs, cur, xs, ys, parent) && Below(xs, parent)
    ensures
      var made := MakesObject(cs, Object(cur), DiffMembers(cs, [], xs, ys, stale, parent), Goal(cs, cur, xs, ys));
      && (AllClear(cs, cur, xs, ys, parent) ==> made)
      && (AllFew(cs, xs, ys, parent) && made ==> AllClear(cs, cur, xs, ys, parent))
    decreases parent, 0, |xs| + |ys|
  {
    hide Walkable, AllClear, AllFew, MakesObject, Goal, HeadClear, HeadGood, ApplyOps, TwinsClear, FewTwins, KeyStep;
    WalkFacts(cs, cur, xs, ys, parent);
    if xs == [] && ys == [] {
      NoMembersLeft(cs, cur, stale, parent);
    } else {
      var diff := KeyOrder(cs, xs, ys);
      var xs', ys' := if diff <= 0 then xs[1..] else xs, if diff >= 0 then ys[1..] else ys;
      if diff == 0 {
        DiffTransforms(cs, cur[Find(cs, cur, xs[0].key).value].value, xs[0].value, ys[0].value, stale);
      }
      HeadConditions(cs, cur, xs, ys, stale, parent);
      if HeadGood(cs, cur, xs, ys, stale) {
        var cur', x := GoodHead(cs, cur, xs, ys, stale, parent);
        LedOn(cs, cur, xs, ys, stale, parent, cur', x);
        DiffMembersApplies(cs, cur', xs', ys', stale, parent);
      } else if AllFew(cs, xs, ys, parent) {
        BadHead(cs, cur, xs, ys, stale, parent);
      }
    }
  }

  lemma NoMembersLeft(cs: bool, cur: seq<Member>, stale: char, parent: Json)
    ensures MakesObject(cs, Object(cur), DiffMembers(cs, [], [], [], stale, parent), Goal(cs, cur, [], []))
    ensures AllClear(cs, cur, [], [], parent)
  {
    assert Goal(cs, cur, [], []) == NormMembers(cs, cur);
  }

  /** How the conditions for the head and the outcome of its operations hang together. */
  lemma HeadConditions(cs: bool, cur: seq<Member>, xs: seq<Member>, ys: seq<Member>, stale: char, parent: Json)
    requires Walkable(cs, cur, xs, ys, parent) && Below(xs, parent) && (xs != [] || ys != [])
      && PresentHead(cs, cur, xs)
    requires KeyOrder(cs, xs, ys) == 0 ==>
      var c := cur[Find(cs, cur, xs[0].key).value].value;
      var reached := Reaches(cs, c, Diff(cs, [], xs[0].value, ys[0].value, stale), ys[0].value);
      && (TwinsClear(cs, c, xs[0].value, ys[0].value) ==> reached)
      && (FewTwins(cs, xs[0].value, ys[0].value) && reached ==> TwinsClear(cs, c, xs[0].value, ys[0].value))
    ensures AllClear(cs, cur, xs, ys, parent) ==> HeadClear(cs, cur, xs, ys)
    ensures HeadClear(cs, cur, xs, ys) ==> HeadGood(cs, cur, xs, ys, stale)
    ensures AllFew(cs, xs, ys, parent) && HeadGood(cs, cur, xs, ys, stale) ==> HeadClear(cs, cur, xs, ys)
  {
    hide Walkable, TwinsClear, FewTwins, Clear, Outgoing, Reaches, Diff, Replaced;
    WalkFacts(cs, cur, xs, ys, parent);
    if KeyOrder(cs, xs, ys) <= 0 {
      HeadOutgoing(cs, xs, ys);
      if AllClear(cs, cur, xs, ys, parent) {
        assert MemberClear(cs, cur, xs[0], ys);
        if KeyOrder(cs, xs, ys) == 0 { assert PairClear(cs, cur, xs[0], ys[0], parent); }
      }
      if AllFew(cs, xs, ys, parent) { FewNestedTail(cs, xs, ys, 0, 0, parent); }
    }
  }

  lemma LedOn(cs: bool, cur: seq<Member>, xs: seq<Member>, ys: seq<Member>, stale: char, parent: Json,
              cur': seq<Member>, x: Option<string>)
    requires Walkable(cs, cur, xs, ys, parent) && Below(xs, parent) && (xs != [] || ys != []) && PlainMembers(xs)
      && PlainMembers(ys)
    requires PresentHead(cs, cur, xs) && Leads(cs, cur, xs, ys, stale, parent, cur', x)
    ensures
      var diff := KeyOrder(cs, xs, ys);
      var xs', ys' := if diff <= 0 then xs[1..] else xs, if diff >= 0 then ys[1..] else ys;
      && Walkable(cs, cur', xs', ys', parent)
      && (MakesObject(cs, Object(cur), DiffMembers(cs, [], xs, ys, stale, parent), Goal(cs, cur, xs, ys)) <==>
            MakesObject(cs, Object(cur'), DiffMembers(cs, [], xs', ys', stale, parent), Goal(cs, cur', xs', ys')))
      && (AllClear(cs, cur, xs, ys, parent) ==> AllClear(cs, cur', xs', ys', parent))
      && (AllFew(cs, xs, ys, parent) && AllClear(cs, cur', xs', ys', parent) && HeadClear(cs, cur, xs, ys) ==>
        AllClear(cs, cur, xs, ys, parent))
      && (AllFew(cs, xs, ys, parent) ==> AllFew(cs, xs', ys', parent))
  {
    hide Walkable, AllClear, AllFew, MakesObject, HeadClear, ApplyOps, KeyStep, Outgoing, Goal;
    WalkFacts(cs, cur, xs, ys, parent);
    var diff := KeyOrder(cs, xs, ys);
    var xs', ys' := if diff <= 0 then xs[1..] else xs, if diff >= 0 then ys[1..] else ys;
    ClearStep(cs, cur, cur', xs, ys, x, parent);
    MakesObjectChain(cs, Object(cur), FirstOps(cs, xs, ys, stale, parent), Applied(0, Object(cur')),
                     DiffMembers(cs, [], xs', ys', stale, parent), Goal(cs, cur, xs, ys));
  }

  lemma BadHead(cs: bool, cur: seq<Member>, xs: seq<Member>, ys: seq<Member>, stale: char, parent: Json)
    requires Walkable(cs, cur, xs, ys, parent) && Below(xs, parent) && (xs != [] || ys != [])
      && PresentHead(cs, cur, xs)
    requires !HeadGood(cs, cur, xs, ys, stale) && AllFew(cs, xs, ys, parent)
    ensures !MakesObject(cs, Object(cur), DiffMembers(cs, [], xs, ys, stale, parent), Goal(cs, cur, xs, ys))
  {
    hide Walkable, MakesObject, Goal, Outgoing, Clear, Reaches, Replaced, Diff, NestedFew, FewOutgoing;
    WalkFacts(cs, cur, xs, ys, parent);
    HeadOutgoing(cs, xs, ys);
    if KeyOrder(cs, xs, ys) < 0 || Replaced(xs[0].value, ys[0].value) {
      TwinTaken(cs, cur, xs, ys, stale, parent);
    } else {
      ChangeFails(cs, cur, xs, ys, stale, parent);
    }
  }

  // ---------------------------------------------------------------------------
  // The law

  /** Every member of the document is the one its counterpart in `from` stands for. */
  lemma AllPresent(cs: bool, ds: seq<Member>, xs: seq<Member>)
    requires DistinctKeys(cs, ds) && WellFormedMembers(cs, ds) && NormMembers(cs, ds) == NormMembers(cs, xs)
      && DistinctKeys(cs, xs)
    ensures forall i :: 0 <= i < |xs| ==> Present(cs, ds, xs[i])
  {
    forall i | 0 <= i < |xs| ensures Present(cs, ds, xs[i]) {
      NormMembersAt(cs, xs, i);
      NormMembersFind(cs, ds, xs[i].key);
    }
  }

  /** Sorting changes none of the conditions. */
  lemma SortedConditions(cs: bool, ds: seq<Member>, ms: seq<Member>, ns: seq<Member>, xs: seq<Member>, ys: seq<Member>,
                         parent: Json)
    requires Below(ms, parent) && Below(xs, parent)
    requires (forall m :: m in ms <==> m in xs) && (forall m :: m in ns <==> m in ys)
    requires DistinctKeys(cs, ms) && DistinctKeys(cs, xs)
    ensures AllClear(cs, ds, ms, ns, parent) <==> AllClear(cs, ds, xs, ys, parent)
    ensures AllFew(cs, ms, ns, parent) ==> AllFew(cs, xs, ys, parent)
  {
    SameOutgoing(cs, ns, ys);
    ClearSubset(cs, ds, ms, ns, xs, ys, parent);
    ClearSubset(cs, ds, xs, ys, ms, ns, parent);
    FewSubset(cs, ms, ns, xs, ys, parent);
  }

  lemma SameOutgoing(cs: bool, ns: seq<Member>, ys: seq<Member>)
    requires forall m :: m in ns <==> m in ys
    ensures forall x: Member :: Outgoing(cs, x, ns) <==> Outgoing(cs, x, ys)
  {
    forall x: Member ensures Outgoing(cs, x, ns) <==> Outgoing(cs, x, ys) {
      OutgoingSubset(cs, x, ns, ys);
      OutgoingSubset(cs, x, ys, ns);
    }
  }

  lemma OutgoingSubset(cs: bool, x: Member, ns: seq<Member>, ys: seq<Member>)
    requires forall m :: m in ys ==> m in ns
    ensures Outgoing(cs, x, ns) ==> Outgoing(cs, x, ys)
  {
    hide Replaced, Compare;
    if Outgoing(cs, x, ns) {
      forall j | 0 <= j < |ys| && Compare(cs, x.key, ys[j].key) == 0 ensures Replaced(x.value, ys[j].value) {
        assert ys[j] in ns;
        var i :| 0 <= i < |ns| && ns[i] == ys[j];
      }
    }
  }

  lemma ClearSubset(cs: bool, ds: seq<Member>, ms: seq<Member>, ns: seq<Member>, xs: seq<Member>, ys: seq<Member>,
                    parent: Json)
    requires Below(ms, parent) && Below(xs, parent)
    requires (forall m :: m in xs ==> m in ms) && (forall m :: m in ys ==> m in ns)
    requires forall x: Member :: Outgoing(cs, x, ns) <==> Outgoing(cs, x, ys)
    ensures AllClear(cs, ds, ms, ns, parent) ==> AllClear(cs, ds, xs, ys, parent)
  {
    hide PairClear, Outgoing, Clear;
    if AllClear(cs, ds, ms, ns, parent) {
      forall i | 0 <= i < |xs| ensures MemberClear(cs, ds, xs[i], ys) {
        var a := IndexOf(xs[i], ms);
        assert MemberClear(cs, ds, ms[a], ns);
      }
      forall i, j | 0 <= i < |xs| && 0 <= j < |ys| ensures PairClear(cs, ds, xs[i], ys[j], parent) {
        var a := IndexOf(xs[i], ms);
        var b := IndexOf(ys[j], ns);
        assert PairClear(cs, ds, ms[a], ns[b], parent);
      }
    }
  }

  lemma IndexOf(m: Member, ms: seq<Member>) returns (i: nat)
    requires m in ms
    ensures i < |ms| && ms[i] == m
  {
    i :| 0 <= i < |ms| && ms[i] == m;
  }

  lemma FewSubset(cs: bool, ms: seq<Member>, ns: seq<Member>, xs: seq<Member>, ys: seq<Member>, parent: Json)
    requires Below(ms, parent) && Below(xs, parent) && DistinctKeys(cs, xs)
    requires (forall m :: m in xs ==> m in ms) && (forall m :: m in ys ==> m in ns)
    requires forall x: Member :: Outgoing(cs, x, ns) <==> Outgoing(cs, x, ys)
    ensures AllFew(cs, ms, ns, parent) ==> AllFew(cs, xs, ys, parent)
  {
    hide FewTwins, Outgoing, Compare;
    if AllFew(cs, ms, ns, parent) {
      forall i, j | 0 <= i < |xs| && 0 <= j < |xs| && i != j ensures !BothOutgoing(cs, xs[i], xs[j], ys) {
        var a := IndexOf(xs[i], ms);
        var b := IndexOf(xs[j], ms);
        DistinctFolds(cs, xs, i, j);
        assert a != b;
        assert !BothOutgoing(cs, ms[a], ms[b], ns);
      }
      forall i, j | 0 <= i < |xs| && 0 <= j < |ys|
        && Compare(cs, xs[i].key, ys[j].key) == 0 ensures FewTwins(cs, xs[i].value, ys[j].value) {
        var a := IndexOf(xs[i], ms);
        var b := IndexOf(ys[j], ns);
      }
    }
  }

  lemma {:induction false} DiffTransforms(cs: bool, d: Json, from: Json, to: Json, stale: char)
    requires WellFormed(cs, from) && PlainKeys(from)
    requires WellFormed(cs, to) && PlainKeys(to)
    requires WellFormed(cs, d) && Norm(cs, d) == Norm(cs, from)
    ensures
      var reached := Reaches(cs, d, Diff(cs, [], from, to, stale), to);
      && (TwinsClear(cs, d, from, to) ==> reached)
      && (FewTwins(cs, from, to) && reached ==> TwinsClear(cs, d, from, to))
    decreases from, 1, 0
  {
    if Tag(from) == Tag(to) && from.Array? {
      ArrayTransforms(cs, d, from, to, stale);
    } else if Tag(from) == Tag(to) && from.Object? {
      ObjectTransforms(cs, d, from, to, stale);
    } else {
      ScalarTransforms(cs, d, from, to, stale);
    }
  }

  lemma ScalarTransforms(cs: bool, d: Json, from: Json, to: Json, stale: char)
    requires WellFormed(cs, from) && Norm(cs, d) == Norm(cs, from)
    requires Tag(from) != Tag(to) || !(from.Array? || from.Object?)
    ensures Reaches(cs, d, Diff(cs, [], from, to, stale), to) && TwinsClear(cs, d, from, to)
  {
    DiffShape(cs, from, to, stale);
    if Replaced(from, to) {
      ReplaceRoot(cs, d, to);
    } else {
      assert ApplyOps(cs, d, []) == Applied(0, d);
      assert Norm(cs, from) == Norm(cs, to);
    }
  }

  lemma {:induction false} ArrayTransforms(cs: bool, d: Json, from: Json, to: Json, stale: char)
    requires WellFormed(cs, from) && PlainKeys(from) && from.Array?
    requires WellFormed(cs, to) && PlainKeys(to) && to.Array?
    requires WellFormed(cs, d) && Norm(cs, d) == Norm(cs, from)
    ensures
      var reached := Reaches(cs, d, Diff(cs, [], from, to, stale), to);
      && (TwinsClear(cs, d, from, to) ==> reached)
      && (FewTwins(cs, from, to) && reached ==> TwinsClear(cs, d, from, to))
    decreases from, 0, |from.items| + |to.items| + 1
  {
    hide ItemsClear, ItemsFew, ApplyOps;
    assert [] + d.items == d.items;
    assert NormItems(cs, []) + NormItems(cs, to.items) == NormItems(cs, to.items);
    assert Diff(cs, [], from, to, stale) == DiffItems(cs, [], from.items, to.items, 0, stale, from);
    DiffItemsApplies(cs, [], d.items, from.items, to.items, stale, from);
    ArrayReached(cs, d, Diff(cs, [], from, to, stale), to);
  }

  lemma ArrayReached(cs: bool, d: Json, ops: seq<Op>, to: Json)
    requires to.Array?
    ensures Reaches(cs, d, ops, to) <==> MakesArray(cs, d, ops, NormItems(cs, to.items))
  {
  }

  lemma ObjectReached(cs: bool, d: Json, ops: seq<Op>, to: Json)
    requires to.Object?
    ensures Reaches(cs, d, ops, to) <==> MakesObject(cs, d, ops, NormMembers(cs, to.members))
  {
  }

  lemma {:induction false} ObjectTransforms(cs: bool, d: Json, from: Json, to: Json, stale: char)
    requires WellFormed(cs, from) && PlainKeys(from) && from.Object?
    requires WellFormed(cs, to) && PlainKeys(to) && to.Object?
    requires WellFormed(cs, d) && Norm(cs, d) == Norm(cs, from)
    ensures
      var reached := Reaches(cs, d, Diff(cs, [], from, to, stale), to);
      && (TwinsClear(cs, d, from, to) ==> reached)
      && (FewTwins(cs, from, to) && reached ==> TwinsClear(cs, d, from, to))
    decreases from, 0, |from.members| + |to.members| + 1
  {
    hide ClearMembers, NestedClear, FewOutgoing, NestedFew, MakesObject, Reaches, Walkable, DiffMembers;
    var ms, ns := from.members, to.members;
    var xs, ys := SortMembers(cs, ms), SortMembers(cs, ns);
    SortMembersNorm(cs, ms);
    SortMembersNorm(cs, ns);
    SortedBelow(cs, from);
    SortedConditions(cs, d.members, ms, ns, xs, ys, from);
    var ops := Diff(cs, [], from, to, stale);
    assert ops == DiffMembers(cs, [], xs, ys, stale, from);
    StartWalk(cs, d, from, to);
    DiffMembersApplies(cs, d.members, xs, ys, stale, from);
    GoalStart(cs, d.members, xs, ys);
    ObjectReached(cs, d, ops, to);
  }

  lemma StartWalk(cs: bool, d: Json, from: Json, to: Json)
    requires WellFormed(cs, from) && PlainKeys(from) && from.Object?
    requires WellFormed(cs, to) && PlainKeys(to) && to.Object?
    requires WellFormed(cs, d) && d.Object? && Norm(cs, d) == Norm(cs, from)
    ensures Walkable(cs, d.members, SortMembers(cs, from.members), SortMembers(cs, to.members), from)
  {
    var xs, ys := SortMembers(cs, from.members), SortMembers(cs, to.members);
    SortMembersNorm(cs, from.members);
    SortMembersNorm(cs, to.members);
    SortedBelow(cs, from);
    SortedParts(cs, from.members);
    SortedParts(cs, to.members);
    AllPresent(cs, d.members, xs);
  }

  lemma GoalStart(cs: bool, cur: seq<Member>, xs: seq<Member>, ys: seq<Member>)
    requires NormMembers(cs, cur) == NormMembers(cs, xs)
    ensures Goal(cs, cur, xs, ys) == NormMembers(cs, ys)
  {
  }

  lemma SortedParts(cs: bool, ms: seq<Member>)
    requires WellFormedMembers(cs, ms) && PlainMembers(ms)
    ensures WellFormedMembers(cs, SortMembers(cs, ms)) && PlainMembers(SortMembers(cs, ms))
  {
    var r := SortMembers(cs, ms);
    forall i | 0 <= i < |r| ensures WellFormed(cs, r[i].value) && Plain(r[i].key) && PlainKeys(r[i].value) {
      assert r[i] in ms;
    }
  }

  /** For every document `d` equal to `from`, in any member order: if no member that is removed
      or replaced has a twin in front of it, the patches made from `from` and `to` apply without
      an error and leave a value equal to `to`.  With at most one member of each kind taken out
      that is also necessary.  (When case is ignored there are no twins.) */
  lemma PatchesReachTarget(cs: bool, d: Json, from: Json, to: Json, stale: char)
    requires WellFormed(cs, from) && PlainKeys(from)
    requires WellFormed(cs, to) && PlainKeys(to)
    requires WellFormed(cs, d) && Norm(cs, d) == Norm(cs, from)
    ensures
      var r := ApplyPatches(cs, d, ComposeAll(Diff(cs, [], from, to, stale)));
      var reached := r.status == 0 && Norm(cs, r.doc) == Norm(cs, to);
      && (TwinsClear(cs, d, from, to) ==> reached)
      && (FewTwins(cs, from, to) && reached ==> TwinsClear(cs, d, from, to))
  {
    DiffTransforms(cs, d, from, to, stale);
    DiffShape(cs, from, to, stale);
    ApplyAllComposed(cs, d, Diff(cs, [], from, to, stale));
  }

  /** No two keys of an object differ in case only: then nothing has a twin. */
  lemma {:induction false} NoTwins(cs: bool, d: Json, from: Json, to: Json)
    requires WellFormed(false, d) && WellFormed(cs, d) && WellFormed(cs, from) && Norm(cs, d) == Norm(cs, from)
    ensures TwinsClear(cs, d, from, to)
    decreases from
  {
    if Tag(from) == Tag(to) && from.Array? {
      forall i | 0 <= i < |d.items| && i < |from.items|
        && i < |to.items| ensures TwinsClear(cs, d.items[i], from.items[i], to.items[i]) {
        assert NormItems(cs, d.items)[i] == NormItems(cs, from.items)[i];
        NoTwins(cs, d.items[i], from.items[i], to.items[i]);
      }
    } else if Tag(from) == Tag(to) && from.Object? {
      var ds, xs, ys := d.members, from.members, to.members;
      AllPresent(cs, ds, xs);
      forall i | 0 <= i < |xs| ensures MemberClear(cs, ds, xs[i], ys) {
        assert Present(cs, ds, xs[i]);
        DistinctClear(cs, ds, xs[i].key);
      }
      forall i, j | 0 <= i < |xs| && 0 <= j < |ys| ensures PairClear(cs, ds, xs[i], ys[j], from) {
        var f := Find(cs, ds, xs[i].key);
        assert Present(cs, ds, xs[i]);
        NoTwins(cs, ds[f.value].value, xs[i].value, ys[j].value);
      }
    }
  }

  lemma DistinctClear(cs: bool, ds: seq<Member>, key: string)
    requires DistinctKeys(false, ds) && Find(cs, ds, key).Some?
    ensures Clear(cs, ds, key)
  {
    FindFolded(cs, ds, key);
    var t, f := Find(false, ds, key).value, Find(cs, ds, key).value;
    MatchIgnoringCase(cs, key, ds[f].key);
    SameKey(false, key, ds[t].key);
    SameKey(false, key, ds[f].key);
    if t < f { DistinctFolds(false, ds, t, f); }
  }

  /** Distinct keys are not enough in the case-sensitive mode: `detach_path` ignores case
      there too.  Of two keys that differ in case only, taking out the second one removes
      the first. */
  lemma CaseTwinsMissTarget(a: string, b: string, stale: char)
    requires Less(true, a, b) && Compare(false, a, b) == 0 && Plain(b)
    ensures
      var from, to := Object([Member(a, Null), Member(b, True)]), Object([Member(a, Null)]);
      && WellFormed(true, from) && WellFormed(true, to)
      && ApplyPatches(true, from, ComposeAll(Diff(true, [], from, to, stale))) == Applied(0, Object([Member(b, True)]))
  {
    hide Diff, ApplyOps, ApplyPatches;
    TwinDiff(a, b, stale);
    TwinApply(a, b);
    ApplyAllComposed(true, Object([Member(a, Null), Member(b, True)]), [Op("remove", "/" + b, None)]);
  }

  lemma TwinApply(a: string, b: string)
    requires Compare(false, a, b) == 0 && Plain(b)
    ensures ApplyOps(true, Object([Member(a, Null), Member(b, True)]), [Op("remove", "/" + b, None)])
         == Applied(0, Object([Member(b, True)]))
  {
    var ms, op := [Member(a, Null), Member(b, True)], Op("remove", "/" + b, None);
    SameKey(false, a, b);
    assert Find(false, ms, b) == Some(0);
    assert RemoveAt(ms, 0) == [Member(b, True)];
    ApplyHere(true, Object(ms), b, op);
    ApplyOne(true, Object(ms), op);
  }

  lemma TwinDiff(a: string, b: string, stale: char)
    requires Less(true, a, b) && Plain(b)
    ensures Diff(true, [], Object([Member(a, Null), Member(b, True)]), Object([Member(a, Null)]), stale)
         == [Op("remove", "/" + b, None)]
  {
    var xs, ys := [Member(a, Null), Member(b, True)], [Member(a, Null)];
    var from := Object(xs);
    assert Climbs(true, xs, MemberKey);
    assert SortMembers(true, xs) == xs && SortMembers(true, ys) == ys;
    SortedBelow(true, from);
    CompareZero(true, a, a);
    EncodePlain(b, stale);
    assert [] + "/" + b == "/" + b;
    assert xs[1..] == [Member(b, True)] && ys[1..] == [] && xs[1..][1..] == [];
    assert DiffMembers(true, [], xs[1..][1..], ys[1..], stale, from) == [];
    assert DiffMembers(true, [], xs[1..], ys[1..], stale, from) == [Op("remove", "/" + b, None)];
    assert Diff(true, [] + "/" + EncodeStringAsPointer(a, stale), Null, Null, stale) == [];
  }

  /** Where both of two such keys are taken out, each makes way for the other, and the target is
      reached all the same. */
  lemma BothTwinsReach(a: string, b: string, stale: char)
    requires Less(true, a, b) && Compare(false, a, b) == 0 && Plain(a) && Plain(b)
    ensures
      var from, to := Object([Member(b, True), Member(a, Null)]), Object([]);
      && ApplyPatches(true, from, ComposeAll(Diff(true, [], from, to, stale))) == Applied(0, to)
      && !TwinsClear(true, from, from, to) && !FewTwins(true, from, to)
  {
    hide Diff, ApplyOps, ApplyPatches;
    BothDiff(a, b, stale);
    BothApply(a, b);
    ApplyAllComposed(true, Object([Member(b, True), Member(a, Null)]),
      [Op("remove", "/" + a, None), Op("remove", "/" + b, None)]);
    BothInTheWay(a, b);
  }

  lemma BothInTheWay(a: string, b: string)
    requires Less(true, a, b) && Compare(false, a, b) == 0
    ensures
      var from, to := Object([Member(b, True), Member(a, Null)]), Object([]);
      !TwinsClear(true, from, from, to) && !FewTwins(true, from, to)
  {
    var ms := [Member(b, True), Member(a, Null)];
    CompareFlip(true, a, b);
    CompareZero(true, a, a);
    FindIs(true, ms, a, 1);
    FindIs(false, ms, a, 0);
    assert !Clear(true, ms, ms[1].key);
    assert Outgoing(true, ms[0], []) && Outgoing(true, ms[1], []);
    SameKey(false, a, b);
    assert BothOutgoing(true, ms[0], ms[1], []);
  }

  lemma BothApply(a: string, b: string)
    requires Compare(false, a, b) == 0 && Plain(a) && Plain(b)
    ensures
      ApplyOps(true, Object([Member(b, True), Member(a, Null)]),
        [Op("remove", "/" + a, None), Op("remove", "/" + b, None)])
        == Applied(0, Object([]))
  {
    hide ApplyOp;
    var ms, x, y := [Member(b, True), Member(a, Null)], Op("remove", "/" + a, None), Op("remove", "/" + b, None);
    SameKey(false, a, b);
    FindIs(false, ms, a, 0);
    FindIs(false, [Member(a, Null)], b, 0);
    assert RemoveAt(ms, 0) == [Member(a, Null)] && RemoveAt([Member(a, Null)], 0) == [];
    ApplyHere(true, Object(ms), a, x);
    ApplyHere(true, Object([Member(a, Null)]), b, y);
    ApplyOne(true, Object([Member(a, Null)]), y);
    assert [x, y][1..] == [y];
  }

  lemma BothDiff(a: string, b: string, stale: char)
    requires Less(true, a, b) && Plain(a) && Plain(b)
    ensures Diff(true, [], Object([Member(b, True), Member(a, Null)]), Object([]), stale)
         == [Op("remove", "/" + a, None), Op("remove", "/" + b, None)]
  {
    var ms, xs := [Member(b, True), Member(a, Null)], [Member(a, Null), Member(b, True)];
    var from := Object(ms);
    TwoSorted(a, b);
    SortedBelow(true, from);
    EncodePlain(a, stale);
    EncodePlain(b, stale);
    assert [] + "/" + a == "/" + a && [] + "/" + b == "/" + b;
    assert xs[1..] == [Member(b, True)] && xs[1..][1..] == [];
    assert DiffMembers(true, [], [], [], stale, from) == [];
    assert DiffMembers(true, [], xs[1..], [], stale, from) == [Op("remove", "/" + b, None)];
  }

  lemma TwoSorted(a: string, b: string)
    requires Less(true, a, b)
    ensures SortMembers(true, [Member(b, True), Member(a, Null)]) == [Member(a, Null), Member(b, True)]
    ensures SortMembers(true, []) == []
  {
    hide Compare;
    var x, y := Member(a, Null), Member(b, True);
    var ms := [y, x];
    CompareFlip(true, a, b);
    assert !Climbs(true, ms, MemberKey) by { assert !Less(true, MemberKey(ms[0]), MemberKey(ms[0 + 1])); }
    assert ms[..1] == [y] && ms[1..] == [x];
    assert SortList(true, [y], MemberKey) == [y] && SortList(true, [x], MemberKey) == [x];
    assert [x][1..] == [] && Merge(true, [y], [], MemberKey) == [y];
    assert Merge(true, [y], [x], MemberKey) == [x] + [y];
  }
}
