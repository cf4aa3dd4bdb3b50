/** The two equality tests: `compare_json` of cJSON_Utils, which sorts both objects in place and
    walks them in step, and `cJSON_Compare`, which looks every member up in the other
    object.  Both are proved to decide equality of the values the trees stand for. */
module JsonEquality {
  import opened Options
  import opened Strings
  import opened Sort
  import opened Json

  // ---------------------------------------------------------------------------
  // compare_json

  /** `parent` bounds the nesting of the members that are walked. */
  ghost predicate Below(ms: seq<Member>, parent: Json) {
    forall i :: 0 <= i < |ms| ==> ms[i].value < parent
  }

  lemma SortedBelow(cs: bool, j: Json)
    requires j.Object?
    ensures Below(SortMembers(cs, j.members), j)
  {
    var ms := SortMembers(cs, j.members);
    forall i | 0 <= i < |ms| ensures ms[i].value < j {
      assert ms[i] in j.members;
      assert ms[i] < j;
    }
  }

  predicate CompareJson(cs: bool, a: Json, b: Json)
    decreases a, 1, 0
  {
    if Tag(a) != Tag(b) then false
    else match a
      case Number(n) => n == b.n
      case String(s) => s == b.s
      case Array(xs) => CompareItems(cs, xs, b.items, a)
      case Object(ms) =>
        SortedBelow(cs, a);
        CompareMembers(cs, SortMembers(cs, ms), SortMembers(cs, b.members), a)
      case _ => true
  }

  predicate CompareItems(cs: bool, xs: seq<Json>, ys: seq<Json>, ghost parent: Json)
    requires forall i :: 0 <= i < |xs| ==> xs[i] < parent
    decreases parent, 0, |xs|
  {
    if xs == [] || ys == [] then xs == [] && ys == []
    else CompareJson(cs, xs[0], ys[0]) && CompareItems(cs, xs[1..], ys[1..], parent)
  }

  predicate CompareMembers(cs: bool, xs: seq<Member>, ys: seq<Member>, ghost parent: Json)
    requires Below(xs, parent)
    decreases parent, 0, |xs|
  {
    if xs == [] || ys == [] then xs == [] && ys == []
    else
      && Compare(cs, xs[0].key, ys[0].key) == 0
      && CompareJson(cs, xs[0].value, ys[0].value)
      && CompareMembers(cs, xs[1..], ys[1..], parent)
  }

  /** The first tree as the test leaves it: sorted as far as it has been walked.  The second one
      is left as it is when the two change places. */
  function Left(cs: bool, a: Json, b: Json): (r: Json)
    ensures Tag(r) == Tag(a)
    decreases a, 1, 0
  {
    if Tag(a) != Tag(b) then a
    else match a
      case Array(xs) => Array(LeftItems(cs, xs, b.items, a))
      case Object(ms) =>
        SortedBelow(cs, a);
        Object(LeftMembers(cs, SortMembers(cs, ms), SortMembers(cs, b.members), a))
      case _ => a
  }

  function LeftItems(cs: bool, xs: seq<Json>, ys: seq<Json>, ghost parent: Json): (r: seq<Json>)
    requires forall i :: 0 <= i < |xs| ==> xs[i] < parent
    ensures |r| == |xs|
    decreases parent, 0, |xs|
  {
    if xs == [] || ys == [] then xs
    else
      [Left(cs, xs[0], ys[0])]
      + if CompareJson(cs, xs[0], ys[0]) then LeftItems(cs, xs[1..], ys[1..], parent) else xs[1..]
  }

  function LeftMembers(cs: bool, xs: seq<Member>, ys: seq<Member>, ghost parent: Json): (r: seq<Member>)
    requires Below(xs, parent)
    ensures |r| == |xs| && forall i :: 0 <= i < |xs| ==> r[i].key == xs[i].key
    decreases parent, 0, |xs|
  {
    if xs == [] || ys == [] || Compare(cs, xs[0].key, ys[0].key) != 0 then xs
    else
      [Member(xs[0].key, Left(cs, xs[0].value, ys[0].value))]
      + if CompareJson(cs, xs[0].value, ys[0].value) then LeftMembers(cs, xs[1..], ys[1..], parent) else xs[1..]
  }

  /** The test is symmetric, on all trees. */
  lemma {:induction false} CompareSymmetric(cs: bool, a: Json, b: Json)
    ensures CompareJson(cs, a, b) == CompareJson(cs, b, a)
    decreases a, 1, 0
  {
    if Tag(a) == Tag(b) {
      match a {
        case Array(xs) => CompareItemsSymmetric(cs, xs, b.items, a, b);
        case Object(ms) =>
          SortedBelow(cs, a);
          SortedBelow(cs, b);
          CompareMembersSymmetric(cs, SortMembers(cs, ms), SortMembers(cs, b.members), a, b);
        case _ =>
      }
    }
  }

  lemma {:induction false} CompareItemsSymmetric(cs: bool, xs: seq<Json>, ys: seq<Json>, a: Json, b: Json)
    requires forall i :: 0 <= i < |xs| ==> xs[i] < a
    requires forall i :: 0 <= i < |ys| ==> ys[i] < b
    ensures CompareItems(cs, xs, ys, a) == CompareItems(cs, ys, xs, b)
    decreases a, 0, |xs|
  {
    if xs != [] && ys != [] {
      CompareSymmetric(cs, xs[0], ys[0]);
      CompareItemsSymmetric(cs, xs[1..], ys[1..], a, b);
    }
  }

  lemma {:induction false} CompareMembersSymmetric(cs: bool, xs: seq<Member>, ys: seq<Member>, a: Json, b: Json)
    requires Below(xs, a) && Below(ys, b)
    ensures CompareMembers(cs, xs, ys, a) == CompareMembers(cs, ys, xs, b)
    decreases a, 0, |xs|
  {
    if xs != [] && ys != [] {
      SameKey(cs, xs[0].key, ys[0].key);
      CompareSymmetric(cs, xs[0].value, ys[0].value);
      CompareMembersSymmetric(cs, xs[1..], ys[1..], a, b);
    }
  }

  /** The same test with the loops of the C code, and the trees it leaves behind. */
  method CompareTrees(cs: bool, a: Json, b: Json) returns (identical: bool, a': Json, b': Json)
    ensures identical == CompareJson(cs, a, b) && a' == Left(cs, a, b) && b' == Left(cs, b, a)
    decreases a
  {
    a', b' := a, b;
    if Tag(a) != Tag(b) {
      return false, a', b';
    }
    match a {
      case Number(n) => identical := n == b.n;
      case String(s) => identical := s == b.s;
      case Array(_) =>
        var xs, ys;
        identical, xs, ys := CompareArrays(cs, a.items, b.items, a, b);
        a', b' := Array(xs), Array(ys);
      case Object(_) =>
        SortedBelow(cs, a);
        SortedBelow(cs, b);
        var xs, ys;
        identical, xs, ys := CompareObjects(cs, SortMembers(cs, a.members), SortMembers(cs, b.members), a, b);
        a', b' := Object(xs), Object(ys);
      case _ => identical := true;
    }
  }

  method CompareArrays(cs: bool, items: seq<Json>, others: seq<Json>, ghost a: Json, ghost b: Json)
    returns (identical: bool, items': seq<Json>, others': seq<Json>)
    requires forall i :: 0 <= i < |items| ==> items[i] < a
    requires forall i :: 0 <= i < |others| ==> others[i] < b
    ensures identical == CompareItems(cs, items, others, a)
    ensures items' == LeftItems(cs, items, others, a) && others' == LeftItems(cs, others, items, b)
    decreases a, 0
  {
    var xs, ys := items, others;
    items', others' := [], [];
    while xs != [] && ys != []
      invariant forall i :: 0 <= i < |xs| ==> xs[i] < a
      invariant forall i :: 0 <= i < |ys| ==> ys[i] < b
      invariant CompareItems(cs, items, others, a) == CompareItems(cs, xs, ys, a)
      invariant LeftItems(cs, items, others, a) == items' + LeftItems(cs, xs, ys, a)
      invariant LeftItems(cs, others, items, b) == others' + LeftItems(cs, ys, xs, b)
      decreases |xs|
    {
      CompareSymmetric(cs, xs[0], ys[0]);
      var x, y;
      identical, x, y := CompareTrees(cs, xs[0], ys[0]);
      ghost var last := identical;
      Associative(items', [x], if last then LeftItems(cs, xs[1..], ys[1..], a) else xs[1..]);
      Associative(others', [y], if last then LeftItems(cs, ys[1..], xs[1..], b) else ys[1..]);
      items', others', xs, ys := items' + [x], others' + [y], xs[1..], ys[1..];
      if !identical {
        items', others' := items' + xs, others' + ys;
        return;
      }
    }
    identical, items', others' := xs == [] && ys == [], items' + xs, others' + ys;
  }

  lemma LeftStep(cs: bool, done: seq<Member>, xs: seq<Member>, ys: seq<Member>, parent: Json)
    requires Below(xs, parent) && xs != [] && ys != []
    ensures
      var same, next := CompareJson(cs, xs[0].value, ys[0].value),
        done + [Member(xs[0].key, Left(cs, xs[0].value, ys[0].value))];
      if Compare(cs, xs[0].key, ys[0].key) != 0 then
        !CompareMembers(cs, xs, ys, parent) && done + LeftMembers(cs, xs, ys, parent) == done + xs
      else
        && CompareMembers(cs, xs, ys, parent) == (same && CompareMembers(cs, xs[1..], ys[1..], parent))
        && done + LeftMembers(cs, xs, ys, parent) == next + if same then LeftMembers(cs, xs[1..], ys[1..], parent)
          else xs[1..]
  {
    hide Left, CompareJson, Compare;
    var x := Member(xs[0].key, Left(cs, xs[0].value, ys[0].value));
    Associative(done, [x], if CompareJson(cs, xs[0].value, ys[0].value) then LeftMembers(cs, xs[1..], ys[1..], parent)
      else xs[1..]);
  }

  lemma WalkEnds(cs: bool, xs: seq<Member>, ys: seq<Member>, parent: Json)
    requires Below(xs, parent) && (xs == [] || ys == [])
    ensures LeftMembers(cs, xs, ys, parent) == xs && (CompareMembers(cs, xs, ys, parent) <==> xs == [] && ys == [])
  {
  }

  method CompareObjects(cs: bool, members: seq<Member>, others: seq<Member>, ghost a: Json, ghost b: Json)
    returns (identical: bool, members': seq<Member>, others': seq<Member>)
    requires Below(members, a) && Below(others, b)
    ensures identical == CompareMembers(cs, members, others, a)
    ensures members' == LeftMembers(cs, members, others, a) && others' == LeftMembers(cs, others, members, b)
    decreases a, 0
  {
    hide Left, LeftMembers, CompareJson, CompareMembers, Compare;
    var xs, ys := members, others;
    members', others' := [], [];
    while xs != [] && ys != []
      invariant Below(xs, a) && Below(ys, b)
      invariant CompareMembers(cs, members, others, a) == CompareMembers(cs, xs, ys, a)
      invariant LeftMembers(cs, members, others, a) == members' + LeftMembers(cs, xs, ys, a)
      invariant LeftMembers(cs, others, members, b) == others' + LeftMembers(cs, ys, xs, b)
      decreases |xs|
    {
      SameKey(cs, xs[0].key, ys[0].key);
      LeftStep(cs, members', xs, ys, a);
      LeftStep(cs, others', ys, xs, b);
      if Compare(cs, xs[0].key, ys[0].key) != 0 {
        return false, members' + xs, others' + ys;
      }
      CompareSymmetric(cs, xs[0].value, ys[0].value);
      var v, w;
      identical, v, w := CompareTrees(cs, xs[0].value, ys[0].value);
      members', others' := members' + [Member(xs[0].key, v)], others' + [Member(ys[0].key, w)];
      xs, ys := xs[1..], ys[1..];
      if !identical {
        members', others' := members' + xs, others' + ys;
        return;
      }
    }
    WalkEnds(cs, xs, ys, a);
    WalkEnds(cs, ys, xs, b);
    identical, members', others' := xs == [] && ys == [], members' + xs, others' + ys;
  }

  /** On well-formed trees `compare_json` decides equality of values. */
  lemma {:induction false} CompareJsonDecides(cs: bool, a: Json, b: Json)
    requires WellFormed(cs, a) && WellFormed(cs, b)
    ensures CompareJson(cs, a, b) <==> Norm(cs, a) == Norm(cs, b)
    decreases a, 1, 0
  {
    if Tag(a) == Tag(b) {
      match a {
        case Array(xs) => CompareItemsDecides(cs, xs, b.items, a);
        case Object(ms) =>
          var xs, ys := SortMembers(cs, ms), SortMembers(cs, b.members);
          SortMembersNorm(cs, ms);
          SortMembersNorm(cs, b.members);
          SortedBelow(cs, a);
          forall i | 0 <= i < |xs| ensures WellFormed(cs, xs[i].value) { assert xs[i] in ms; }
          forall i | 0 <= i < |ys| ensures WellFormed(cs, ys[i].value) { assert ys[i] in b.members; }
          CompareMembersDecides(cs, xs, ys, a);
        case _ =>
      }
    }
  }

  lemma {:induction false} CompareItemsDecides(cs: bool, xs: seq<Json>, ys: seq<Json>, parent: Json)
    requires forall i :: 0 <= i < |xs| ==> xs[i] < parent && WellFormed(cs, xs[i])
    requires forall i :: 0 <= i < |ys| ==> WellFormed(cs, ys[i])
    ensures CompareItems(cs, xs, ys, parent) <==> NormItems(cs, xs) == NormItems(cs, ys)
    decreases parent, 0, |xs|
  {
    if xs != [] && ys != [] {
      CompareJsonDecides(cs, xs[0], ys[0]);
      CompareItemsDecides(cs, xs[1..], ys[1..], parent);
      assert NormItems(cs, xs) == [Norm(cs, xs[0])] + NormItems(cs, xs[1..]);
      assert NormItems(cs, ys) == [Norm(cs, ys[0])] + NormItems(cs, ys[1..]);
      if NormItems(cs, xs) == NormItems(cs, ys) {
        assert NormItems(cs, xs[1..]) == NormItems(cs, xs)[1..] == NormItems(cs, ys)[1..];
      }
    }
  }

  /** The head of a strictly ordered list has the least key of its map. */
  lemma LeastKey(cs: bool, xs: seq<Member>, ys: seq<Member>)
    requires StrictlyOrdered(cs, xs, MemberKey) && StrictlyOrdered(cs, ys, MemberKey)
    requires xs != [] && ys != [] && NormMembers(cs, xs) == NormMembers(cs, ys)
    ensures FoldString(cs, xs[0].key) == FoldString(cs, ys[0].key)
    ensures Norm(cs, xs[0].value) == Norm(cs, ys[0].value)
  {
    var x, y := FoldString(cs, xs[0].key), FoldString(cs, ys[0].key);
    NormMembersKeys(cs, xs);
    NormMembersKeys(cs, ys);
    assert x in NormMembers(cs, ys) && y in NormMembers(cs, xs);
    var i :| 0 <= i < |xs| && FoldString(cs, xs[i].key) == y;
    var j :| 0 <= j < |ys| && FoldString(cs, ys[j].key) == x;
    SameKey(cs, xs[i].key, ys[0].key);
    SameKey(cs, ys[j].key, xs[0].key);
    if i > 0 && j > 0 {
      assert Less(cs, MemberKey(xs[0]), MemberKey(xs[i]));
      LessTrans(cs, xs[0].key, xs[i].key, ys[0].key);
      assert Less(cs, MemberKey(ys[0]), MemberKey(ys[j]));
      LessTrans(cs, ys[0].key, ys[j].key, xs[0].key);
      CompareFlip(cs, xs[0].key, ys[0].key);
      assert false;
    }
  }

  lemma {:induction false} CompareMembersDecides(cs: bool, xs: seq<Member>, ys: seq<Member>, parent: Json)
    requires Below(xs, parent)
    requires StrictlyOrdered(cs, xs, MemberKey) && StrictlyOrdered(cs, ys, MemberKey)
    requires forall i :: 0 <= i < |xs| ==> WellFormed(cs, xs[i].value)
    requires forall i :: 0 <= i < |ys| ==> WellFormed(cs, ys[i].value)
    ensures CompareMembers(cs, xs, ys, parent) <==> NormMembers(cs, xs) == NormMembers(cs, ys)
    decreases parent, 0, |xs|
  {
    hide CompareJson, Norm, WellFormed;
    NormMembersKeys(cs, xs);
    NormMembersKeys(cs, ys);
    if xs == [] || ys == [] {
      if xs != [] { assert FoldString(cs, xs[0].key) in NormMembers(cs, xs); }
      if ys != [] { assert FoldString(cs, ys[0].key) in NormMembers(cs, ys); }
    } else {
      SameKey(cs, xs[0].key, ys[0].key);
      CompareJsonDecides(cs, xs[0].value, ys[0].value);
      CompareMembersDecides(cs, xs[1..], ys[1..], parent);
      TailNorm(cs, xs);
      TailNorm(cs, ys);
      if NormMembers(cs, xs) == NormMembers(cs, ys) {
        LeastKey(cs, xs, ys);
      }
    }
  }

  lemma TailNorm(cs: bool, xs: seq<Member>)
    requires xs != [] && StrictlyOrdered(cs, xs, MemberKey)
    ensures NormMembers(cs, xs[1..]) == NormMembers(cs, xs) - {FoldString(cs, xs[0].key)}
    ensures NormMembers(cs, xs) == NormMembers(cs, xs[1..])[FoldString(cs, xs[0].key) := Norm(cs, xs[0].value)]
  {
    assert RemoveAt(xs, 0) == xs[1..];
    NormRemove(cs, xs, 0);
  }

  // ---------------------------------------------------------------------------
  // What the test leaves behind

  /** Sorting in either mode leaves the object the same map. */
  lemma SortKeepsMap(cs: bool, g: bool, ms: seq<Member>)
    requires DistinctKeys(cs, ms)
    ensures DistinctKeys(cs, SortMembers(g, ms))
    ensures NormMembers(cs, SortMembers(g, ms)) == NormMembers(cs, ms)
    ensures forall m :: m in ms ==> m in SortMembers(g, ms)
  {
    var r := SortMembers(g, ms);
    SortPermutes(g, ms, MemberKey);
    forall m | m in ms ensures m in r {
      assert m in multiset(ms);
    }
    DistinctMultiset(cs, ms);
    forall i, j | 0 <= i < j < |r| ensures Compare(cs, MemberKey(r[i]), MemberKey(r[j])) != 0 {
      PermutedPair(cs, ms, r, i, j);
    }
    NormSamePool(cs, ms, r);
  }

  lemma {:induction false} SameNorms(cs: bool, xs: seq<Member>, ys: seq<Member>)
    requires |xs| == |ys| && DistinctKeys(cs, xs)
    requires forall i :: 0 <= i < |xs| ==> xs[i].key == ys[i].key && Norm(cs, xs[i].value) == Norm(cs, ys[i].value)
    ensures NormMembers(cs, xs) == NormMembers(cs, ys) && DistinctKeys(cs, ys)
  {
    SameNormsMap(cs, xs, ys);
    forall i, j | 0 <= i < j < |ys| ensures Compare(cs, MemberKey(ys[i]), MemberKey(ys[j])) != 0 {
      assert Compare(cs, MemberKey(xs[i]), MemberKey(xs[j])) != 0;
    }
  }

  lemma {:induction false} SameNormsMap(cs: bool, xs: seq<Member>, ys: seq<Member>)
    requires |xs| == |ys|
    requires forall i :: 0 <= i < |xs| ==> xs[i].key == ys[i].key && Norm(cs, xs[i].value) == Norm(cs, ys[i].value)
    ensures NormMembers(cs, xs) == NormMembers(cs, ys)
  {
    hide Norm;
    if xs != [] {
      assert xs[0].key == ys[0].key;
      forall i | 0 <= i < |xs[1..]|
        ensures xs[1..][i].key == ys[1..][i].key && Norm(cs, xs[1..][i].value) == Norm(cs, ys[1..][i].value)
      {
        assert xs[1..][i] == xs[i + 1] && ys[1..][i] == ys[i + 1];
      }
      SameNormsMap(cs, xs[1..], ys[1..]);
    }
  }

  /** The tree keeps its value, whatever mode the test was made in. */
  lemma {:induction false} LeftKeeps(cs: bool, g: bool, a: Json, b: Json)
    requires WellFormed(cs, a)
    ensures WellFormed(cs, Left(g, a, b)) && Norm(cs, Left(g, a, b)) == Norm(cs, a)
    decreases a, 1, 0
  {
    if Tag(a) == Tag(b) {
      match a {
        case Array(xs) =>
          LeftItemsKeep(cs, g, xs, b.items, a);
          var ys := LeftItems(g, xs, b.items, a);
          assert NormItems(cs, ys) == NormItems(cs, xs);
        case Object(ms) =>
          SortedBelow(g, a);
          var xs, ys := SortMembers(g, ms), SortMembers(g, b.members);
          SortKeepsMap(cs, g, ms);
          LeftMembersKeep(cs, g, xs, ys, a);
          SameNorms(cs, xs, LeftMembers(g, xs, ys, a));
        case _ =>
      }
    }
  }

  lemma {:induction false} LeftItemsKeep(cs: bool, g: bool, xs: seq<Json>, ys: seq<Json>, parent: Json)
    requires forall i :: 0 <= i < |xs| ==> xs[i] < parent && WellFormed(cs, xs[i])
    ensures
      var r := LeftItems(g, xs, ys, parent);
      forall i :: 0 <= i < |xs| ==> WellFormed(cs, r[i]) && Norm(cs, r[i]) == Norm(cs, xs[i])
    decreases parent, 0, |xs|
  {
    hide Left, CompareJson, WellFormed, Norm;
    if xs != [] && ys != [] {
      LeftKeeps(cs, g, xs[0], ys[0]);
      LeftItemsKeep(cs, g, xs[1..], ys[1..], parent);
      assert forall i :: 1 <= i < |xs| ==> xs[i] == xs[1..][i - 1];
    }
  }

  lemma {:induction false} LeftMembersKeep(cs: bool, g: bool, xs: seq<Member>, ys: seq<Member>, parent: Json)
    requires Below(xs, parent) && forall i :: 0 <= i < |xs| ==> WellFormed(cs, xs[i].value)
    ensures
      var r := LeftMembers(g, xs, ys, parent);
      forall i :: 0 <= i < |xs| ==> WellFormed(cs, r[i].value) && Norm(cs, r[i].value) == Norm(cs, xs[i].value)
    decreases parent, 0, |xs|
  {
    hide Left, CompareJson, WellFormed, Norm, Compare;
    if xs != [] && ys != [] {
      LeftKeeps(cs, g, xs[0].value, ys[0].value);
      LeftMembersKeep(cs, g, xs[1..], ys[1..], parent);
      assert forall i :: 1 <= i < |xs| ==> xs[i] == xs[1..][i - 1];
    }
  }

  // ---------------------------------------------------------------------------
  // cJSON_Compare

  function Height(j: Json): nat
    decreases j, 0
  {
    match j
    case Array(items) => 1 + ItemsHeight(items)
    case Object(ms) => 1 + MembersHeight(ms)
    case _ => 0
  }

  function ItemsHeight(items: seq<Json>): (h: nat)
    ensures forall i :: 0 <= i < |items| ==> Height(items[i]) <= h
    decreases items, 1
  {
    if items == [] then 0 else Max(Height(items[0]), ItemsHeight(items[1..]))
  }

  function MembersHeight(ms: seq<Member>): (h: nat)
    ensures forall i :: 0 <= i < |ms| ==> Height(ms[i].value) <= h
    decreases ms, 1
  {
    if ms == [] then 0 else Max(Height(ms[0].value), MembersHeight(ms[1..]))
  }

  function Max(a: nat, b: nat): nat {
    if a > b then a else b
  }

  /** `h` bounds the nesting of the members. */
  ghost predicate Bounded(ms: seq<Member>, h: nat) {
    forall i :: 0 <= i < |ms| ==> Height(ms[i].value) < h
  }

  lemma SortedBounded(cs: bool, j: Json)
    requires j.Object?
    ensures Bounded(SortMembers(cs, j.members), Height(j))
  {
    var ms := SortMembers(cs, j.members);
    forall i | 0 <= i < |ms| ensures Height(ms[i].value) < Height(j) {
      assert ms[i] in j.members;
    }
  }

  /** The test nests nothing deeper. */
  lemma {:induction false} LeftHeight(cs: bool, a: Json, b: Json)
    ensures Height(Left(cs, a, b)) <= Height(a)
    decreases a, 1, 0
  {
    if Tag(a) == Tag(b) {
      match a {
        case Array(xs) =>
          LeftItemsHeight(cs, xs, b.items, a, ItemsHeight(xs));
        case Object(ms) =>
          SortedBelow(cs, a);
          SortedBounded(cs, a);
          LeftMembersHeight(cs, SortMembers(cs, ms), SortMembers(cs, b.members), a, MembersHeight(ms));
        case _ =>
      }
    }
  }

  lemma {:induction false} LeftItemsHeight(cs: bool, xs: seq<Json>, ys: seq<Json>, parent: Json, h: nat)
    requires forall i :: 0 <= i < |xs| ==> xs[i] < parent && Height(xs[i]) <= h
    ensures ItemsHeight(LeftItems(cs, xs, ys, parent)) <= h
    decreases parent, 0, |xs|
  {
    hide Left, CompareJson;
    if xs == [] || ys == [] {
      NoHigherItems(xs, h);
    } else {
      LeftHeight(cs, xs[0], ys[0]);
      LeftItemsHeight(cs, xs[1..], ys[1..], parent, h);
      NoHigherItems(xs[1..], h);
      var x, rest := Left(cs, xs[0], ys[0]),
        if CompareJson(cs, xs[0], ys[0]) then LeftItems(cs, xs[1..], ys[1..], parent) else xs[1..];
      assert ([x] + rest)[1..] == rest;
    }
  }

  lemma {:induction false} LeftMembersHeight(cs: bool, xs: seq<Member>, ys: seq<Member>, parent: Json, h: nat)
    requires Below(xs, parent) && Bounded(xs, h + 1)
    ensures MembersHeight(LeftMembers(cs, xs, ys, parent)) <= h
    decreases parent, 0, |xs|
  {
    hide Left, CompareJson, Compare;
    if xs == [] || ys == [] || Compare(cs, xs[0].key, ys[0].key) != 0 {
      NoHigherMembers(xs, h);
    } else {
      LeftHeight(cs, xs[0].value, ys[0].value);
      LeftMembersHeight(cs, xs[1..], ys[1..], parent, h);
      NoHigherMembers(xs[1..], h);
      var x := Member(xs[0].key, Left(cs, xs[0].value, ys[0].value));
      var rest := if CompareJson(cs, xs[0].value, ys[0].value) then LeftMembers(cs, xs[1..], ys[1..], parent)
        else xs[1..];
      assert ([x] + rest)[1..] == rest;
    }
  }

  lemma {:induction false} NoHigherItems(xs: seq<Json>, h: nat)
    requires forall i :: 0 <= i < |xs| ==> Height(xs[i]) <= h
    ensures ItemsHeight(xs) <= h
  {
    if xs != [] { NoHigherItems(xs[1..], h); }
  }

  lemma {:induction false} NoHigherMembers(xs: seq<Member>, h: nat)
    requires Bounded(xs, h + 1)
    ensures MembersHeight(xs) <= h
  {
    if xs != [] { NoHigherMembers(xs[1..], h); }
  }

  /** `cJSON_Compare` on two different nodes (the same node is accepted at once unless Invalid). */
  predicate CJsonCompare(cs: bool, a: Json, b: Json)
    decreases Height(a) + Height(b), 1, 0
  {
    if Tag(a) != Tag(b) || a.Invalid? then false
    else match a
      case Number(n) => n == b.n
      case String(s) => s == b.s
      case Raw(s) => s == b.raw
      case Array(xs) =>
        && |xs| == |b.items|
        && forall i | 0 <= i < |xs| :: CJsonCompare(cs, xs[i], b.items[i])
      case Object(_) => Included(cs, a.members, b.members) && Included(cs, b.members, a.members)
      case _ => true
  }

  /** One of its two passes: every member of `xs` has an equal one in `ys`. */
  predicate Included(cs: bool, xs: seq<Member>, ys: seq<Member>)
    decreases MembersHeight(xs) + MembersHeight(ys), 3, 0
  {
    forall i | 0 <= i < |xs| :: Matched(cs, xs[i], ys)
  }

  lemma {:induction false} CJsonCompareDecides(cs: bool, a: Json, b: Json)
    requires WellFormed(cs, a) && WellFormed(cs, b)
    ensures CJsonCompare(cs, a, b) <==> Norm(cs, a) == Norm(cs, b)
    decreases Height(a) + Height(b), 1
  {
    if Tag(a) == Tag(b) {
      match a {
        case Array(xs) =>
          forall i | 0 <= i < |xs| && i < |b.items|
            ensures CJsonCompare(cs, xs[i], b.items[i]) <==> Norm(cs, xs[i]) == Norm(cs, b.items[i])
          {
            CJsonCompareDecides(cs, xs[i], b.items[i]);
          }
          SameItems(cs, xs, b.items);
        case Object(_) =>
          IncludedDecides(cs, a.members, b.members);
          IncludedDecides(cs, b.members, a.members);
          SameMap(NormMembers(cs, a.members), NormMembers(cs, b.members));
        case _ =>
      }
    }
  }

  lemma SameItems(cs: bool, xs: seq<Json>, ys: seq<Json>)
    ensures NormItems(cs, xs) == NormItems(cs, ys) <==>
      |xs| == |ys| && forall i :: 0 <= i < |xs| ==> Norm(cs, xs[i]) == Norm(cs, ys[i])
  {
    if NormItems(cs, xs) == NormItems(cs, ys) {
      assert |xs| == |ys|;
      forall i | 0 <= i < |xs| ensures Norm(cs, xs[i]) == Norm(cs, ys[i]) {
        assert NormItems(cs, xs)[i] == NormItems(cs, ys)[i];
      }
    }
  }

  ghost predicate Within(m: map<string, Value>, n: map<string, Value>) {
    forall k :: k in m ==> k in n && m[k] == n[k]
  }

  lemma SameMap(m: map<string, Value>, n: map<string, Value>)
    ensures m == n <==> Within(m, n) && Within(n, m)
  {
  }

  /** What the first pass finds for one member. */
  predicate Matched(cs: bool, x: Member, ys: seq<Member>)
    decreases Height(x.value) + MembersHeight(ys), 2, 0
  {
    var f := Find(cs, ys, x.key);
    f.Some? && CJsonCompare(cs, x.value, ys[f.value].value)
  }

  lemma {:induction false} MatchedDecides(cs: bool, x: Member, ys: seq<Member>)
    requires DistinctKeys(cs, ys) && WellFormed(cs, x.value)
    requires forall i :: 0 <= i < |ys| ==> WellFormed(cs, ys[i].value)
    ensures
      var k, n := FoldString(cs, x.key), NormMembers(cs, ys);
      Matched(cs, x, ys) <==> k in n && Norm(cs, x.value) == n[k]
    decreases Height(x.value) + MembersHeight(ys), 2
  {
    NormMembersFind(cs, ys, x.key);
    var f := Find(cs, ys, x.key);
    if f.Some? {
      CJsonCompareDecides(cs, x.value, ys[f.value].value);
    }
  }

  lemma {:induction false} IncludedDecides(cs: bool, xs: seq<Member>, ys: seq<Member>)
    requires DistinctKeys(cs, xs) && DistinctKeys(cs, ys)
    requires forall i :: 0 <= i < |xs| ==> WellFormed(cs, xs[i].value)
    requires forall i :: 0 <= i < |ys| ==> WellFormed(cs, ys[i].value)
    ensures Included(cs, xs, ys) <==> Within(NormMembers(cs, xs), NormMembers(cs, ys))
    decreases MembersHeight(xs) + MembersHeight(ys), 3
  {
    var m, n := NormMembers(cs, xs), NormMembers(cs, ys);
    forall i | 0 <= i < |xs|
      ensures FoldString(cs, xs[i].key) in m
      ensures Matched(cs, xs[i], ys) <==> (var k := FoldString(cs, xs[i].key); k in n && m[k] == n[k])
    {
      NormMembersAt(cs, xs, i);
      MatchedDecides(cs, xs[i], ys);
    }
    NormMembersKeys(cs, xs);
    if Included(cs, xs, ys) {
      forall k | k in m ensures k in n && m[k] == n[k] {
        var i :| 0 <= i < |xs| && FoldString(cs, xs[i].key) == k;
        assert Matched(cs, xs[i], ys);
      }
    }
  }

  // ---------------------------------------------------------------------------
  // What follows for both

  /** The sorted walk refines the quadratic test. */
  lemma FastAgreesWithSimple(cs: bool, a: Json, b: Json)
    requires WellFormed(cs, a) && WellFormed(cs, b)
    ensures CompareJson(cs, a, b) == CJsonCompare(cs, a, b)
  {
    CompareJsonDecides(cs, a, b);
    CJsonCompareDecides(cs, a, b);
  }

  /** Both tests are equivalence relations. */
  lemma CompareIsEquivalence(cs: bool, a: Json, b: Json, c: Json)
    requires WellFormed(cs, a) && WellFormed(cs, b) && WellFormed(cs, c)
    ensures CompareJson(cs, a, a) && CJsonCompare(cs, a, a)
    ensures CompareJson(cs, a, b) == CompareJson(cs, b, a) && CJsonCompare(cs, a, b) == CJsonCompare(cs, b, a)
    ensures CompareJson(cs, a, b) && CompareJson(cs, b, c) ==> CompareJson(cs, a, c)
    ensures CJsonCompare(cs, a, b) && CJsonCompare(cs, b, c) ==> CJsonCompare(cs, a, c)
  {
    hide CompareJson, CJsonCompare;
    FastAgreesWithSimple(cs, a, a);
    FastAgreesWithSimple(cs, a, b);
    FastAgreesWithSimple(cs, b, a);
    FastAgreesWithSimple(cs, b, c);
    FastAgreesWithSimple(cs, a, c);
    CompareJsonDecides(cs, a, a);
    CompareJsonDecides(cs, a, b);
    CompareJsonDecides(cs, b, a);
    CompareJsonDecides(cs, b, c);
    CompareJsonDecides(cs, a, c);
  }

  /** Distinct keys are needed: with a repeated key the two tests part. */
  lemma RepeatedKeyParts(cs: bool, key: string)
    ensures CJsonCompare(cs, Object([Member(key, Null), Member(key, Null)]), Object([Member(key, Null)]))
    ensures !CompareJson(cs, Object([Member(key, Null), Member(key, Null)]), Object([Member(key, Null)]))
  {
    var m := Member(key, Null);
    var a, b := Object([m, m]), Object([m]);
    CompareZero(cs, key, key);
    assert Find(cs, [m], key) == Some(0) && Find(cs, [m, m], key) == Some(0);
    assert Matched(cs, m, [m]) && Matched(cs, m, [m, m]);
    assert Included(cs, [m, m], [m]) && Included(cs, [m], [m, m]);
    SortedBelow(cs, a);
    LongerIsUnequal(cs, SortMembers(cs, [m, m]), SortMembers(cs, [m]), a);
  }

  lemma {:induction false} LongerIsUnequal(cs: bool, xs: seq<Member>, ys: seq<Member>, parent: Json)
    requires Below(xs, parent) && |xs| != |ys|
    ensures !CompareMembers(cs, xs, ys, parent)
  {
    if xs != [] && ys != [] {
      LongerIsUnequal(cs, xs[1..], ys[1..], parent);
    }
  }

  /** ... and so are the RFC node types: `cJSON_Compare` refuses Invalid nodes and reads
      Raw text, `compare_json` accepts any two nodes of either type. */
  lemma RawAndInvalidPart(s: string, t: string)
    requires s != t
    ensures CompareJson(true, Invalid, Invalid) && !CJsonCompare(true, Invalid, Invalid)
    ensures CompareJson(true, Raw(s), Raw(t)) && !CJsonCompare(true, Raw(s), Raw(t))
  {
  }
}
