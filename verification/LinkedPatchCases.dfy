/** Patch lists made from small documents, and others, that damage a list or lose a child. */
module LinkedPatchCases {
  import opened Options
  import opened Strings
  import opened Sort
  import opened Json
  import opened JsonEquality
  import opened JsonPointer
  import opened JsonPatch
  import opened JsonPatchPaths
  import opened JsonPatchRoundTrip
  import opened ChildList
  import opened Touches
  import opened LinkedJson
  import opened LinkedFields
  import opened LinkedPatch
  import opened LinkedPatchPaths
  import opened LinkedCreate
  import opened LinkedLoss
  import opened LinkedPatchLaw

  lemma SortedPair(cs: bool, a: Member, b: Member)
    requires Less(cs, a.key, b.key)
    ensures SortMembers(cs, [a]) == [a] && SortMembers(cs, [a, b]) == [a, b]
    ensures FoldString(cs, a.key) != FoldString(cs, b.key) && DistinctKeys(cs, [a, b]) && DistinctKeys(cs, [a])
      && Compare(cs, b.key, a.key) > 0
    ensures Compare(cs, a.key, a.key) == 0 && Compare(cs, b.key, b.key) == 0
  {
    assert Climbs(cs, [a, b], MemberKey);
    SameKey(cs, a.key, b.key);
    SameKey(cs, a.key, a.key);
    SameKey(cs, b.key, b.key);
    CompareFlip(cs, a.key, b.key);
  }

  /** Two members in order, no twins, and as the law needs them. */
  ghost predicate Pair(cs: bool, a: Member, b: Member) {
    && Less(cs, a.key, b.key) && Compare(false, a.key, b.key) != 0 && Plain(a.key) && Plain(b.key)
    && WellFormed(cs, a.value) && PlainKeys(a.value) && WellFormed(cs, b.value) && PlainKeys(b.value)
  }

  lemma PairFits(cs: bool, a: Member, b: Member)
    requires Pair(cs, a, b)
    ensures WellFormed(cs, Object([a, b])) && PlainKeys(Object([a, b])) && WellFormed(cs, Object([a]))
      && PlainKeys(Object([a]))
    ensures WellFormed(cs, Object([b])) && PlainKeys(Object([b]))
    ensures Clear(cs, [a, b], a.key) && Clear(cs, [a, b], b.key) && Clear(cs, [b], b.key)
  {
    SortedPair(cs, a, b);
    MatchIgnoringCase(cs, a.key, a.key);
    MatchIgnoringCase(cs, b.key, b.key);
    SameKey(false, a.key, b.key);
    SameKey(cs, a.key, b.key);
    FindIs(cs, [a, b], a.key, 0);
    FindIs(cs, [a, b], b.key, 1);
    FindIs(false, [a, b], a.key, 0);
    FindIs(false, [a, b], b.key, 1);
    FindIs(cs, [b], b.key, 0);
    FindIs(false, [b], b.key, 0);
  }

  lemma RenameTouches(cs: bool, x: Member, y: Member, parent: Json, fs: seq<Field>)
    requires Compare(cs, x.key, y.key) != 0 && Below([x], parent)
    ensures
      var (out, back) := (Touch(FoldString(cs, x.key), false), Touch(FoldString(cs, y.key), true));
      TouchWalk(cs, [x], [y]) == if Less(cs, y.key, x.key) then [back, out] else [out, back]
    ensures WalkUnharmed(cs, fs, [x], [y], parent)
  {
    CompareFlip(cs, x.key, y.key);
    assert [x][1..] == [] && [y][1..] == [];
    assert TouchWalk(cs, [], []) == [];
    assert TouchWalk(cs, [x], []) == [Touch(FoldString(cs, x.key), false)];
    assert TouchWalk(cs, [], [y]) == [Touch(FoldString(cs, y.key), true)];
    NoWalk(cs, fs, parent);
    assert WalkUnharmed(cs, fs, [x], [], parent) && WalkUnharmed(cs, fs, [], [y], parent);
  }

  /** Renaming the only member of a parsed object damages its list exactly when the new name
      comes first. */
  lemma RenameDamages(cs: bool, x: Member, y: Member, stale: char)
    requires if Less(cs, y.key, x.key) then Pair(cs, y, x) else Pair(cs, x, y)
    ensures
      var from, to := Object([x]), Object([y]);
      ApplyAllLinked(cs, Fresh(from), ComposeAll(Diff(cs, [], from, to, stale))).Damaged? <==> Less(cs, y.key, x.key)
  {
    hide ApplyAllLinked, Diff, TouchAll, TouchWalk, WalkUnharmed, Unharmed, TwinsClear, TouchOne, SortMembers,
      WellFormed, PlainKeys;
    var from, to := Object([x]), Object([y]);
    if Less(cs, y.key, x.key) {
      PairFits(cs, y, x);
      SortedPair(cs, y, x);
    } else {
      PairFits(cs, x, y);
      SortedPair(cs, x, y);
    }
    OnlyOne(cs, x, y);
    ParsedReachTarget(cs, from, from, to, stale);
    var k, m := FoldString(cs, x.key), FoldString(cs, y.key);
    SortedBelow(cs, from);
    RenameTouches(cs, x, y, from, FreshFields([x]));
    assert KeysOf(cs, FreshFields([x])) == [k];
    TwoInTurn(List([k], Unset), Touch(m, true), Touch(k, false));
    TwoInTurn(List([k], Unset), Touch(k, false), Touch(m, true));
    RenameRun(k, m);
    ParsedObject(cs, [x], [y]);
  }

  lemma ParsedObject(cs: bool, ms: seq<Member>, ns: seq<Member>)
    ensures
      var xs, ys := SortMembers(cs, ms), SortMembers(cs, ns);
      && Below(xs, Object(ms))
      && (Unharmed(cs, Fresh(Object(ms)), Object(ms), Object(ns)) <==>
            TouchAll(List(KeysOf(cs, FreshFields(ms)), Unset), TouchWalk(cs, xs, ys)).Some?
              && WalkUnharmed(cs, FreshFields(ms), xs, ys, Object(ms)))
  {
    hide TouchAll, TouchWalk, SortMembers, WalkUnharmed;
    SortedBelow(cs, Object(ms));
  }

  lemma OnlyOne(cs: bool, x: Member, y: Member)
    requires Compare(cs, x.key, y.key) != 0
    ensures TwinsClear(cs, Object([x]), Object([x]), Object([y]))
    ensures SortMembers(cs, [x]) == [x] && SortMembers(cs, [y]) == [y]
  {
    SameKey(cs, x.key, x.key);
    SameKey(false, x.key, x.key);
    FindIs(cs, [x], x.key, 0);
    FindIs(false, [x], x.key, 0);
  }

  /** Giving both members of a parsed object new values damages its list, whatever they are. */
  lemma ReplacingBothDamages(cs: bool, a: Member, b: Member, v: Json, w: Json, stale: char)
    requires Pair(cs, a, b) && Replaced(a.value, v) && Replaced(b.value, w)
    requires WellFormed(cs, v) && PlainKeys(v) && WellFormed(cs, w) && PlainKeys(w)
    ensures
      var from, to := Object([a, b]), Object([Member(a.key, v), Member(b.key, w)]);
      ApplyAllLinked(cs, Fresh(from), ComposeAll(Diff(cs, [], from, to, stale))).Damaged?
  {
    hide ApplyAllLinked, Diff, TouchAll, TouchWalk, Unharmed, Replaced, TwinsClear, Clear, TouchOne, SortMembers,
      WellFormed, PlainKeys;
    var xs, ys := [a, b], [Member(a.key, v), Member(b.key, w)];
    var from, to := Object(xs), Object(ys);
    PairFits(cs, a, b);
    PairFits(cs, ys[0], ys[1]);
    SortedPair(cs, a, b);
    SortedPair(cs, ys[0], ys[1]);
    BothClear(cs, xs, ys);
    ParsedReachTarget(cs, from, from, to, stale);
    var k, m := FoldString(cs, a.key), FoldString(cs, b.key);
    BothTouches(cs, a, b, v, w);
    assert KeysOf(cs, FreshFields(xs)) == [k, m];
    TwoInTurn(List([k, m], Unset), Touch(k, true), Touch(m, true));
    BothRun(k, m);
    ParsedObject(cs, xs, ys);
  }

  /** Giving the only member a new value damages its list when a member comes in front of it. */
  lemma AddingInFrontDamages(cs: bool, a: Member, b: Member, w: Json, stale: char)
    requires Pair(cs, a, b) && Replaced(b.value, w) && WellFormed(cs, w) && PlainKeys(w)
    ensures
      var from, to := Object([b]), Object([a, Member(b.key, w)]);
      ApplyAllLinked(cs, Fresh(from), ComposeAll(Diff(cs, [], from, to, stale))).Damaged?
  {
    hide ApplyAllLinked, Diff, TouchAll, TouchWalk, Unharmed, Replaced, TwinsClear, Clear, TouchOne, SortMembers,
      WellFormed, PlainKeys;
    var y := Member(b.key, w);
    var from, to := Object([b]), Object([a, y]);
    PairFits(cs, a, b);
    PairFits(cs, a, y);
    SortedPair(cs, a, b);
    SortedPair(cs, a, y);
    FrontClear(cs, a, b, y);
    ParsedReachTarget(cs, from, from, to, stale);
    var k, m := FoldString(cs, a.key), FoldString(cs, b.key);
    FrontTouches(cs, a, b, y);
    assert KeysOf(cs, FreshFields([b])) == [m];
    TwoInTurn(List([m], Unset), Touch(k, true), Touch(m, true));
    RenameRun(m, k);
    BrokenTouch(List([m, k], Cached(1)), m);
    ParsedObject(cs, [b], [a, y]);
  }

  lemma FrontClear(cs: bool, a: Member, b: Member, y: Member)
    requires Clear(cs, [b], b.key) && b.key == y.key && Compare(cs, b.key, a.key) > 0 && Replaced(b.value, y.value)
    ensures TwinsClear(cs, Object([b]), Object([b]), Object([a, y])) && SortMembers(cs, [b]) == [b]
  {
    hide Replaced, Clear;
    var xs, ys := [b], [a, y];
    forall i, j | 0 <= i < |xs| && 0 <= j < |ys| ensures PairClear(cs, xs, xs[i], ys[j], Object(xs)) {
      if j == 1 && Find(cs, xs, b.key).Some? {
        ReplacedClear(cs, xs[Find(cs, xs, b.key).value].value, b.value, y.value);
      }
    }
  }

  lemma FrontTouches(cs: bool, a: Member, b: Member, y: Member)
    requires b.key == y.key && Compare(cs, b.key, a.key) > 0 && Replaced(b.value, y.value)
    ensures TouchWalk(cs, [b], [a, y]) == [Touch(FoldString(cs, a.key), true), Touch(FoldString(cs, b.key), true)]
  {
    hide Replaced;
    SameKey(cs, b.key, b.key);
    assert [a, y][1..] == [y] && [y][1..] == [] && [b][1..] == [];
    assert TouchWalk(cs, [], []) == [];
    assert TouchWalk(cs, [b], [y]) == [Touch(FoldString(cs, b.key), true)];
  }

  lemma BothClear(cs: bool, xs: seq<Member>, ys: seq<Member>)
    requires |xs| == 2 && |ys| == 2 && Clear(cs, xs, xs[0].key) && Clear(cs, xs, xs[1].key)
    requires xs[0].key == ys[0].key && xs[1].key == ys[1].key && Compare(cs, xs[0].key, xs[1].key) != 0
    requires Replaced(xs[0].value, ys[0].value) && Replaced(xs[1].value, ys[1].value)
    ensures TwinsClear(cs, Object(xs), Object(xs), Object(ys))
  {
    hide Replaced, Clear;
    SameKey(cs, xs[0].key, xs[1].key);
    forall i, j | 0 <= i < |xs| && 0 <= j < |ys| ensures PairClear(cs, xs, xs[i], ys[j], Object(xs)) {
      if i == j && Find(cs, xs, xs[i].key).Some? {
        ReplacedClear(cs, xs[Find(cs, xs, xs[i].key).value].value, xs[i].value, ys[i].value);
      }
    }
  }

  lemma BothTouches(cs: bool, a: Member, b: Member, v: Json, w: Json)
    requires Replaced(a.value, v) && Replaced(b.value, w)
    ensures TouchWalk(cs, [a, b], [Member(a.key, v), Member(b.key, w)])
         == [Touch(FoldString(cs, a.key), true), Touch(FoldString(cs, b.key), true)]
  {
    hide Replaced;
    SameKey(cs, a.key, a.key);
    SameKey(cs, b.key, b.key);
    assert [a, b][1..] == [b] && [Member(a.key, v), Member(b.key, w)][1..] == [Member(b.key, w)];
    assert [b][1..] == [] && [Member(b.key, w)][1..] == [];
    assert TouchWalk(cs, [], []) == [];
    assert TouchWalk(cs, [b], [Member(b.key, w)]) == [Touch(FoldString(cs, b.key), true)];
  }

  // ---------------------------------------------------------------------------
  // Sorting moves the child that is cached

  function Num(key: string, n: int): Field {
    Field(key, Leaf(Number(n)))
  }

  function NumMember(key: string, n: int): Member {
    Member(key, Number(n))
  }

  /** Four keys in order, and as the law needs them. */
  ghost predicate InOrder(cs: bool, a: string, b: string, c: string, d: string) {
    && Less(cs, a, b) && Less(cs, b, c) && Less(cs, c, d) && Less(cs, a, c) && Less(cs, a, d) && Less(cs, b, d)
    && Plain(a) && Plain(b) && Plain(c) && Plain(d)
  }

  lemma OrderOfThree(cs: bool, a: string, b: string, c: string)
    requires Less(cs, a, b) && Less(cs, b, c)
    ensures Order(cs, [a, c, b]) == [0, 2, 1]
  {
    hide Compare;
    CompareFlip(cs, b, c);
    var x, y, z := Numbered(0, a), Numbered(1, c), Numbered(2, b);
    var n, key := [x, y, z], NumberedKey;
    assert Numbers([a, c, b]) == n;
    assert !Climbs(cs, n, key) by { assert !Less(cs, key(n[1]), key(n[1 + 1])); }
    assert n[..2] == [x, y] && n[2..] == [z];
    LessTrans(cs, a, b, c);
    assert SortList(cs, [x, y], key) == [x, y] && SortList(cs, [z], key) == [z];
    assert [x, y][1..] == [y] && [z][1..] == [] && [y][1..] == [];
    assert Merge(cs, [y], [], key) == [y];
    assert Merge(cs, [y], [z], key) == [z, y];
    assert Merge(cs, [x, y], [z], key) == [x, z, y];
    assert SortedNumbers(cs, [a, c, b]) == [x, z, y];
  }

  /** Three members, the last one added in the middle of the order: sorting leaves the cache on it. */
  lemma CacheLeftBehind(cs: bool, x: Field, y: Field, z: Field)
    requires Less(cs, x.key, y.key) && Less(cs, y.key, z.key)
    ensures SortFields(cs, List([x, z, y], Cached(2))) == List([x, y, z], Cached(1))
  {
    hide Order;
    OrderOfThree(cs, x.key, y.key, z.key);
    assert NamesOf([x, z, y]) == [x.key, z.key, y.key];
    assert Picked([x, z, y], [0, 2, 1]) == [x, y, z];
    assert Place([0, 2, 1], 2) == 1;
  }

  lemma AddingLosesThird(cs: bool, x: Field, y: Field, z: Field, key: string, v: Json)
    requires InOrder(cs, x.key, y.key, z.key, key)
    ensures
      OpsLinked(cs, ObjectNode([x, y, z], Cached(1)), [Op("add", "/" + key, Some(v))])
        == Lost(0, ObjectNode([x, y, Field(key, Fresh(v))], Cached(2)))
  {
    var fs, m := [x, y, z], Field(key, Fresh(v));
    hide OpsLinked;
    AddLinked(cs, ObjectNode(fs, Cached(1)), key, v);
    CompareFlip(cs, x.key, key);
    CompareFlip(cs, y.key, key);
    CompareFlip(cs, z.key, key);
    var ms := EraseFields(fs);
    assert forall i :: 0 <= i < 3 ==> Compare(cs, key, ms[i].key) != 0;
    assert Find(cs, ms, key).None?;
    assert fs[..2] + [m] == [x, y, m];
  }

  /** Adding a member, testing the document and adding another one: the test sorts the document,
      and the last member in the order is lost.  The status is 0. */
  lemma TestThenAddLoses(cs: bool, a: string, b: string, c: string, d: string)
    requires InOrder(cs, a, b, c, d)
    ensures
      var all := Object([NumMember(a, 1), NumMember(b, 2), NumMember(c, 3)]);
      var patches := [ComposePatch(Op("add", "/" + b, Some(Number(2)))),
                      ComposePatch(Op("test", "", Some(all))),
                      ComposePatch(Op("add", "/" + d, Some(Number(4))))];
      ApplyAllLinked(cs, Fresh(Object([NumMember(a, 1), NumMember(c, 3)])), patches)
        == Lost(0, ObjectNode([Num(a, 1), Num(b, 2), Num(d, 4)], Cached(2)))
  {
    hide ApplyLinked, InOrder, Fresh;
    var all := Object([NumMember(a, 1), NumMember(b, 2), NumMember(c, 3)]);
    var p := ComposePatch(Op("add", "/" + b, Some(Number(2))));
    var q := ComposePatch(Op("test", "", Some(all)));
    var r := ComposePatch(Op("add", "/" + d, Some(Number(4))));
    var t0 := ObjectNode([Num(a, 1), Num(c, 3)], Unset);
    var t1 := ObjectNode([Num(a, 1), Num(c, 3), Num(b, 2)], Cached(2));
    var t2 := ObjectNode([Num(a, 1), Num(b, 2), Num(c, 3)], Cached(1));
    var t3 := ObjectNode([Num(a, 1), Num(b, 2), Num(d, 4)], Cached(2));
    FreshNumbers(a, c);
    FirstAdded(cs, a, b, c, d);
    Tested(cs, a, b, c, d);
    LastAdded(cs, a, b, c, d);
    assert [p, q, r][1..] == [q, r] && [q, r][1..] == [r] && [r][1..] == [];
    assert ApplyAllLinked(cs, t3, []) == Done(0, t3);
    assert ApplyAllLinked(cs, t2, [r]) == Lost(0, t3);
    assert ApplyAllLinked(cs, t1, [q, r]) == Lost(0, t3);
  }

  lemma FreshNumbers(a: string, c: string)
    ensures Fresh(Object([NumMember(a, 1), NumMember(c, 3)])) == ObjectNode([Num(a, 1), Num(c, 3)], Unset)
    ensures forall n :: Fresh(Number(n)) == Leaf(Number(n))
  {
  }

  lemma FirstAdded(cs: bool, a: string, b: string, c: string, d: string)
    requires InOrder(cs, a, b, c, d)
    ensures
      ApplyLinked(cs, ObjectNode([Num(a, 1), Num(c, 3)], Unset), ComposePatch(Op("add", "/" + b, Some(Number(2)))))
        == Done(0, ObjectNode([Num(a, 1), Num(c, 3), Num(b, 2)], Cached(2)))
  {
    hide OpLinked, OpsLinked, ApplyLinked, AddTo;
    var t, op := ObjectNode([Num(a, 1), Num(c, 3)], Unset), Op("add", "/" + b, Some(Number(2)));
    ComposedLinked(cs, t, op);
    OneLinked(cs, t, op);
    AddLinked(cs, t, b, Number(2));
    AddedBehind(cs, a, b, c, d);
  }

  lemma AddedBehind(cs: bool, a: string, b: string, c: string, d: string)
    requires InOrder(cs, a, b, c, d)
    ensures
      AddTo(cs, ObjectNode([Num(a, 1), Num(c, 3)], Unset), b, Fresh(Number(2)), false)
        == Done(0, ObjectNode([Num(a, 1), Num(c, 3), Num(b, 2)], Cached(2)))
  {
    var fs := [Num(a, 1), Num(c, 3)];
    CompareFlip(cs, a, b);
    var ms := EraseFields(fs);
    assert forall i :: 0 <= i < 2 ==> Compare(cs, b, ms[i].key) != 0;
    assert Find(cs, ms, b).None?;
    assert fs + [Num(b, 2)] == [Num(a, 1), Num(c, 3), Num(b, 2)];
  }

  lemma LastAdded(cs: bool, a: string, b: string, c: string, d: string)
    requires InOrder(cs, a, b, c, d)
    ensures
      ApplyLinked(cs, ObjectNode([Num(a, 1), Num(b, 2), Num(c, 3)], Cached(1)),
        ComposePatch(Op("add", "/" + d, Some(Number(4)))))
        == Lost(0, ObjectNode([Num(a, 1), Num(b, 2), Num(d, 4)], Cached(2)))
  {
    hide OpLinked, OpsLinked;
    var t, op := ObjectNode([Num(a, 1), Num(b, 2), Num(c, 3)], Cached(1)), Op("add", "/" + d, Some(Number(4)));
    ComposedLinked(cs, t, op);
    OneLinked(cs, t, op);
    AddingLosesThird(cs, Num(a, 1), Num(b, 2), Num(c, 3), d, Number(4));
  }

  lemma Tested(cs: bool, a: string, b: string, c: string, d: string)
    requires InOrder(cs, a, b, c, d)
    ensures
      var all := Object([NumMember(a, 1), NumMember(b, 2), NumMember(c, 3)]);
      ApplyLinked(cs, ObjectNode([Num(a, 1), Num(c, 3), Num(b, 2)], Cached(2)), ComposePatch(Op("test", "", Some(all))))
        == Done(0, ObjectNode([Num(a, 1), Num(b, 2), Num(c, 3)], Cached(1)))
  {
    hide TestTree, TakePath, AddCopy, Transfer, GetObjectItem;
    FindCompose(cs, Op("test", "", Some(Object([NumMember(a, 1), NumMember(b, 2), NumMember(c, 3)]))));
    TestedTree(cs, a, b, c, d);
  }

  lemma TestedTree(cs: bool, a: string, b: string, c: string, d: string)
    requires InOrder(cs, a, b, c, d)
    ensures
      var all := Object([NumMember(a, 1), NumMember(b, 2), NumMember(c, 3)]);
      TestTree(cs, ObjectNode([Num(a, 1), Num(c, 3), Num(b, 2)], Cached(2)), "", Some(all))
        == Done(0, ObjectNode([Num(a, 1), Num(b, 2), Num(c, 3)], Cached(1)))
  {
    hide SortFields, SortMembers, LeftFields, CompareMembers;
    var ms := [NumMember(a, 1), NumMember(b, 2), NumMember(c, 3)];
    var fs, unsorted := [Num(a, 1), Num(b, 2), Num(c, 3)], [Num(a, 1), Num(c, 3), Num(b, 2)];
    var t := ObjectNode(unsorted, Cached(2));
    CacheLeftBehind(cs, Num(a, 1), Num(b, 2), Num(c, 3));
    SortFieldsErased(cs, List(unsorted, Cached(2)));
    assert EraseFields(fs) == ms;
    SortedAlready(cs, a, b, c, d);
    SortedInside(cs, t);
    SortedBelow(cs, Erase(t));
    SameWalk(cs, fs, ms, t, Erase(t));
  }

  lemma SortedAlready(cs: bool, a: string, b: string, c: string, d: string)
    requires InOrder(cs, a, b, c, d)
    ensures SortMembers(cs, [NumMember(a, 1), NumMember(b, 2), NumMember(c, 3)]) ==
      [NumMember(a, 1), NumMember(b, 2), NumMember(c, 3)]
    ensures SortMembers(cs, [NumMember(a, 1), NumMember(b, 2), NumMember(c, 3), NumMember(d, 4)])
         == [NumMember(a, 1), NumMember(b, 2), NumMember(c, 3), NumMember(d, 4)]
  {
    hide Compare;
    var ms := [NumMember(a, 1), NumMember(b, 2), NumMember(c, 3), NumMember(d, 4)];
    assert Climbs(cs, ms, MemberKey);
    assert Climbs(cs, ms[..3], MemberKey);
    assert ms[..3] == [NumMember(a, 1), NumMember(b, 2), NumMember(c, 3)];
  }

  /** Numbers are compared with themselves. */
  lemma {:induction false} SameWalk(cs: bool, fs: seq<Field>, ms: seq<Member>, t: Tree, j: Json)
    requires ms == EraseFields(fs) && Inside(fs, t) && Below(ms, j)
    requires forall i :: 0 <= i < |fs| ==> fs[i].tree.Leaf? && fs[i].tree.scalar.Number?
    ensures LeftFields(cs, fs, ms, t) == fs && CompareMembers(cs, ms, ms, j)
    decreases |fs|
  {
    if fs != [] {
      CompareZero(cs, ms[0].key, ms[0].key);
      assert EraseFields(fs)[1..] == EraseFields(fs[1..]);
      SameWalk(cs, fs[1..], ms[1..], t, j);
      assert [fs[0]] + fs[1..] == fs;
    }
  }

  /** The last member of an object was added out of order.  Patches to the object with one more are
      made, which sorts it, and applied to it: a member is lost. */
  lemma SortedSourceLoses(cs: bool, a: string, b: string, c: string, d: string, stale: char)
    requires InOrder(cs, a, b, c, d)
    ensures
      var t := ObjectNode([Num(a, 1), Num(c, 3), Num(b, 2)], Cached(2));
      var to := Object([NumMember(a, 1), NumMember(b, 2), NumMember(c, 3), NumMember(d, 4)]);
      ApplyAllLinked(cs, Created(cs, t, to), ComposeAll(Diff(cs, [], Erase(t), to, stale)))
        == Lost(0, ObjectNode([Num(a, 1), Num(b, 2), Num(d, 4)], Cached(2)))
  {
    hide ApplyAllLinked, OpsLinked, Diff, Created;
    var t := ObjectNode([Num(a, 1), Num(c, 3), Num(b, 2)], Cached(2));
    OneAdded(cs, a, b, c, d, stale);
    SortedCreated(cs, a, b, c, d);
    var op := Op("add", "/" + d, Some(Number(4)));
    var sorted := ObjectNode([Num(a, 1), Num(b, 2), Num(c, 3)], Cached(1));
    AllComposedLinked(cs, sorted, [op]);
    AddingLosesThird(cs, Num(a, 1), Num(b, 2), Num(c, 3), d, Number(4));
  }

  lemma SortedCreated(cs: bool, a: string, b: string, c: string, d: string)
    requires InOrder(cs, a, b, c, d)
    ensures
      var to := Object([NumMember(a, 1), NumMember(b, 2), NumMember(c, 3), NumMember(d, 4)]);
      Created(cs, ObjectNode([Num(a, 1), Num(c, 3), Num(b, 2)], Cached(2)), to)
        == ObjectNode([Num(a, 1), Num(b, 2), Num(c, 3)], Cached(1))
  {
    hide SortFields, SortMembers, CreatedFields;
    var fs, t := [Num(a, 1), Num(b, 2), Num(c, 3)], ObjectNode([Num(a, 1), Num(c, 3), Num(b, 2)], Cached(2));
    var ns := [NumMember(a, 1), NumMember(b, 2), NumMember(c, 3), NumMember(d, 4)];
    CacheLeftBehind(cs, Num(a, 1), Num(b, 2), Num(c, 3));
    SortedAlready(cs, a, b, c, d);
    SortedInside(cs, t);
    SameCreated(cs, fs, ns, t);
  }

  lemma {:induction false} SameCreated(cs: bool, fs: seq<Field>, ys: seq<Member>, t: Tree)
    requires Inside(fs, t) && |fs| <= |ys|
    requires forall i :: 0 <= i < |fs| ==> fs[i].tree.Leaf? && fs[i].key == ys[i].key
    ensures CreatedFields(cs, fs, ys, t) == fs
    decreases |fs|
  {
    if fs != [] {
      CompareZero(cs, fs[0].key, fs[0].key);
      SameCreated(cs, fs[1..], ys[1..], t);
      assert [fs[0]] + fs[1..] == fs;
    }
  }

  lemma OneAdded(cs: bool, a: string, b: string, c: string, d: string, stale: char)
    requires InOrder(cs, a, b, c, d)
    ensures
      var from := Erase(ObjectNode([Num(a, 1), Num(c, 3), Num(b, 2)], Cached(2)));
      var to := Object([NumMember(a, 1), NumMember(b, 2), NumMember(c, 3), NumMember(d, 4)]);
      Diff(cs, [], from, to, stale) == [Op("add", "/" + d, Some(Number(4)))]
  {
    hide SortFields, SortMembers, DiffMembers;
    var unsorted := [Num(a, 1), Num(c, 3), Num(b, 2)];
    var xs := [NumMember(a, 1), NumMember(b, 2), NumMember(c, 3)];
    var ys := xs + [NumMember(d, 4)];
    var from := Erase(ObjectNode(unsorted, Cached(2)));
    CacheLeftBehind(cs, Num(a, 1), Num(b, 2), Num(c, 3));
    SortFieldsErased(cs, List(unsorted, Cached(2)));
    assert EraseFields([Num(a, 1), Num(b, 2), Num(c, 3)]) == xs;
    assert ys == [NumMember(a, 1), NumMember(b, 2), NumMember(c, 3), NumMember(d, 4)];
    SortedAlready(cs, a, b, c, d);
    SortedBelow(cs, from);
    CommonFirst(cs, xs, NumMember(d, 4), stale, from);
  }

  /** Numbers that stay, and one member more. */
  lemma {:induction false} CommonFirst(cs: bool, xs: seq<Member>, y: Member, stale: char, parent: Json)
    requires Below(xs, parent) && Plain(y.key) && forall i :: 0 <= i < |xs| ==> xs[i].value.Number?
    ensures DiffMembers(cs, [], xs, xs + [y], stale, parent) == [Op("add", "/" + y.key, Some(y.value))]
    decreases |xs|
  {
    var ys := xs + [y];
    if xs == [] {
      EncodePlain(y.key, stale);
      assert ys == [y] && ys[1..] == [] && [] + "/" + y.key == "/" + y.key;
      assert DiffMembers(cs, [], [], [], stale, parent) == [];
    } else {
      CompareZero(cs, xs[0].key, xs[0].key);
      assert ys[0] == xs[0] && ys[1..] == xs[1..] + [y];
      CommonFirst(cs, xs[1..], y, stale, parent);
    }
  }

  // ---------------------------------------------------------------------------
  // A child that comes back

  function MovePatch(from: string, path: string): Json {
    Object([Member("op", String("move")), Member("from", String(from)), Member("path", String(path))])
  }

  lemma FindMove(cs: bool, from: string, path: string)
    ensures GetObjectItem(cs, MovePatch(from, path), "op") == Some(String("move"))
    ensures GetObjectItem(cs, MovePatch(from, path), "from") == Some(String(from))
    ensures GetObjectItem(cs, MovePatch(from, path), "path") == Some(String(path))
  {
    var ms := MovePatch(from, path).members;
    CompareZero(cs, "op", "op");
    CompareZero(cs, "from", "from");
    CompareZero(cs, "path", "path");
    assert Compare(cs, "from", "op") != 0 && Compare(cs, "path", "op") != 0 && Compare(cs, "path", "from") != 0;
    FindIs(cs, ms, "op", 0);
    FindIs(cs, ms, "from", 1);
    FindIs(cs, ms, "path", 2);
  }

  /** The last element, which the array caches, is moved to the place `k`: the array still caches
      it, in its new place. */
  lemma MovedBack(cs: bool, es: seq<Tree>, k: nat)
    requires k + 1 < |es|
    ensures
      var n := |es| - 1;
      ApplyLinked(cs, ArrayNode(es, Cached(n)), MovePatch("/" + Decimal(n), "/" + Decimal(k)))
        == Done(0, ArrayNode(es[..k] + [es[n]] + es[k..n], Cached(k)))
  {
    hide TakePath, AddTree, GoesBack, AddCopy, TestTree, GetObjectItem;
    var n := |es| - 1;
    var t, rest := ArrayNode(es, Cached(n)), ArrayNode(es[..n], Gone);
    var p, q := "/" + Decimal(n), "/" + Decimal(k);
    FindMove(cs, p, q);
    MovedParts(cs, es, k);
  }

  lemma MovedParts(cs: bool, es: seq<Tree>, k: nat)
    requires k + 1 < |es|
    ensures
      var n := |es| - 1;
      var t, rest := ArrayNode(es, Cached(n)), ArrayNode(es[..n], Gone);
      && TakePath(cs, t, "/" + Decimal(n)) == Taken(es[n], rest)
      && GoesBack(cs, t, "/" + Decimal(n), rest, "/" + Decimal(k))
      && AddTree(cs, rest, "/" + Decimal(k), es[n], true) == Done(0, ArrayNode(es[..k] + [es[n]] + es[k..n], Cached(k)))
  {
    var n := |es| - 1;
    var t, rest := ArrayNode(es, Cached(n)), ArrayNode(es[..n], Gone);
    IndexIs(n);
    IndexIs(k);
    HerePath(Decimal(n));
    HerePath(Decimal(k));
    assert RemoveAt(es, n) == es[..n];
    assert es[..n][..k] == es[..k] && es[..n][k..] == es[k..n];
  }

  /** So the array can be appended to again when the elements behind it have been removed. */
  lemma MoveKeepsCache(cs: bool, e0: Tree, e1: Tree, e2: Tree, e3: Tree, v: Json)
    ensures
      var patches := [MovePatch("/3", "/1"), ComposePatch(Op("remove", "/3", None)),
                      ComposePatch(Op("remove", "/2", None)), ComposePatch(Op("add", "/-", Some(v)))];
      ApplyAllLinked(cs, ArrayNode([e0, e1, e2, e3], Cached(3)), patches)
        == Done(0, ArrayNode([e0, e3, Fresh(v)], Cached(2)))
  {
    hide ApplyLinked, OpLinked, OpsLinked, ApplyAllLinked;
    var es := [e0, e1, e2, e3];
    var ops := [Op("remove", "/3", None), Op("remove", "/2", None), Op("add", "/-", Some(v))];
    ThreeIndices();
    MovedBack(cs, es, 1);
    assert es[..1] + [es[3]] + es[1..3] == [e0, e3, e1, e2];
    assert ApplyLinked(cs, ArrayNode(es, Cached(3)), MovePatch("/3", "/1")) ==
      Done(0, ArrayNode([e0, e3, e1, e2], Cached(1)));
    RemovedBehind(cs, e0, e3, e1, e2, v);
    AllComposedLinked(cs, ArrayNode([e0, e3, e1, e2], Cached(1)), ops);
    FirstOfAll(cs, ArrayNode(es, Cached(3)), MovePatch("/3", "/1"), ComposeAll(ops));
    ThreeComposed(ops);
    assert [MovePatch("/3", "/1")] + ComposeAll(ops)
        == [MovePatch("/3", "/1"), ComposePatch(ops[0]), ComposePatch(ops[1]), ComposePatch(ops[2])];
  }

  lemma ThreeComposed(ops: seq<Op>)
    requires |ops| == 3
    ensures ComposeAll(ops) == [ComposePatch(ops[0]), ComposePatch(ops[1]), ComposePatch(ops[2])]
  {
    assert ops[1..][0] == ops[1] && ops[1..][1..][0] == ops[2];
    assert ComposeAll(ops[1..][1..][1..]) == [];
    assert ComposeAll(ops[1..][1..]) == [ComposePatch(ops[2])];
    assert ComposeAll(ops[1..]) == [ComposePatch(ops[1])] + [ComposePatch(ops[2])];
  }

  lemma ThreeIndices()
    ensures "/" + Decimal(1) == "/1" && "/" + Decimal(2) == "/2" && "/" + Decimal(3) == "/3"
  {
    assert Decimal(3) == "3" && Decimal(2) == "2" && Decimal(1) == "1";
  }

  lemma FirstOfAll(cs: bool, t: Tree, patch: Json, rest: seq<Json>)
    requires var o := ApplyLinked(cs, t, patch); o.Done? && o.status == 0
    ensures ApplyAllLinked(cs, t, [patch] + rest) == ApplyAllLinked(cs, ApplyLinked(cs, t, patch).tree, rest)
  {
    hide ApplyLinked;
    assert ([patch] + rest)[1..] == rest;
  }

  lemma RemovedBehind(cs: bool, a: Tree, b: Tree, c: Tree, d: Tree, v: Json)
    ensures
      OpsLinked(cs, ArrayNode([a, b, c, d], Cached(1)),
                [Op("remove", "/3", None), Op("remove", "/2", None), Op("add", "/-", Some(v))])
        == Done(0, ArrayNode([a, b, Fresh(v)], Cached(2)))
  {
    hide OpsLinked;
    var x, y, z := Op("remove", "/3", None), Op("remove", "/2", None), Op("add", "/-", Some(v));
    ThreeIndices();
    RemoveElementLinked(cs, List([a, b, c, d], Cached(1)), 3);
    RemoveElementLinked(cs, List([a, b, c], Cached(1)), 2);
    AppendElementLinked(cs, List([a, b], Cached(1)), v);
    assert RemoveAt([a, b, c, d], 3) == [a, b, c] && RemoveAt([a, b, c], 2) == [a, b]
      && [a, b] + [Fresh(v)] == [a, b, Fresh(v)];
    assert [x, y, z] == [x] + ([y] + [z]);
    OpsConcat(cs, ArrayNode([a, b, c, d], Cached(1)), [x], [y] + [z]);
    OpsConcat(cs, ArrayNode([a, b, c], Cached(1)), [y], [z]);
  }
}
