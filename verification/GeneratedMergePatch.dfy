/** Where merging a generated merge patch leads: exactly when to the target. */
module GeneratedMergePatch {
  import opened Options
  import opened Strings
  import opened Sort
  import opened Json
  import opened JsonEquality
  import opened JsonTargets
  import opened JsonMergePatch

  // ---------------------------------------------------------------------------
  // Where the generated patch leads

  /** Merging what `generate_merge_patch` returned; with NULL there is nothing to merge. */
  function Patched(cs: bool, d: Json, patch: Option<Json>): Json {
    match patch
    case None => d
    case Some(p) => MergePatch(cs, Some(d), p)
  }

  /** The patch made in mode `g` and merged in mode `cs` leads from `from` to `to`. */
  ghost predicate Arrives(cs: bool, g: bool, from: Json, to: Json)
    decreases Height(from), 1, 0
  {
    if !to.Object? || !from.Object? then NullsKept(None, Norm(cs, to))
    else
      SortedBounded(g, from);
      WalkArrives(cs, g, SortMembers(g, from.members), SortMembers(g, to.members), Height(from))
  }

  /** The walk over the sorted members: a member that is added must not be deleted again behind
      it, nor hold a null; members met together must be told apart, or lead there themselves. */
  ghost predicate WalkArrives(cs: bool, g: bool, xs: seq<Member>, ys: seq<Member>, h: nat)
    requires Bounded(xs, h)
    decreases h, 0, |xs| + |ys|
  {
    (xs != [] || ys != []) ==>
      var diff := KeyOrder(xs, ys);
      && HeadArrives(cs, g, xs, ys, h)
      && WalkArrives(cs, g, if diff <= 0 then xs[1..] else xs, if diff >= 0 then ys[1..] else ys, h)
  }

  ghost predicate HeadArrives(cs: bool, g: bool, xs: seq<Member>, ys: seq<Member>, h: nat)
    requires Bounded(xs, h) && (xs != [] || ys != [])
    decreases h, 0, 0
  {
    var diff := KeyOrder(xs, ys);
    if diff < 0 then true
    else if diff > 0 then
      Find(cs, xs, ys[0].key).None? && !ys[0].value.Null? && NullsKept(None, Norm(cs, ys[0].value))
    else if CompareJson(g, xs[0].value, ys[0].value) then Norm(cs, xs[0].value) == Norm(cs, ys[0].value)
    else
      LeftHeight(g, xs[0].value, ys[0].value);
      !ys[0].value.Null? && Arrives(cs, false, Left(g, xs[0].value, ys[0].value), Left(g, ys[0].value, xs[0].value))
  }

  /** The part of the patch the loop writes for the lesser head key. */
  function HeadPatch(g: bool, xs: seq<Member>, ys: seq<Member>): seq<Member>
    requires xs != [] || ys != []
  {
    var diff := KeyOrder(xs, ys);
    if diff < 0 then [Member(xs[0].key, Null)]
    else if diff > 0 then [ys[0]]
    else ChangedMember(g, xs[0], ys[0])
  }

  lemma PatchUnfold(g: bool, xs: seq<Member>, ys: seq<Member>, h: nat)
    requires Bounded(xs, h)
    ensures
      if xs == [] && ys == [] then PatchMembers(g, xs, ys, h) == []
      else
        var diff := KeyOrder(xs, ys);
        var xs', ys' := if diff <= 0 then xs[1..] else xs, if diff >= 0 then ys[1..] else ys;
        PatchMembers(g, xs, ys, h) == HeadPatch(g, xs, ys) + PatchMembers(g, xs', ys', h)
  {
    hide ChangedMember;
  }

  lemma {:induction false} MergeConcat(cs: bool, ts: seq<Member>, a: seq<Member>, b: seq<Member>)
    ensures MergeMembers(cs, ts, a + b) == MergeMembers(cs, MergeMembers(cs, ts, a), b)
    decreases |a|
  {
    hide MergePatch, DeleteMember;
    if a == [] {
      assert a + b == b;
    } else {
      assert (a + b)[0] == a[0] && (a + b)[1..] == a[1..] + b;
      var ts' := DeleteMember(cs, ts, a[0].key);
      MergeConcat(cs, if a[0].value.Null? then ts' else
                        ts' + [Member(a[0].key, MergePatch(cs, ValueOf(ts, Find(cs, ts, a[0].key)), a[0].value))],
                          a[1..], b);
    }
  }

  /** One member of a patch: what it does to its own key; the others it leaves alone. */
  lemma MergeOne(cs: bool, ts: seq<Member>, p: Member)
    requires DistinctKeys(cs, ts)
    ensures
      var r, k := MergeMembers(cs, ts, [p]), FoldString(cs, p.key);
      var merged := MergePatch(cs, ValueOf(ts, Find(cs, ts, p.key)), p.value);
      && NormMembers(cs, r) ==
        (if p.value.Null? then NormMembers(cs, ts) - {k} else NormMembers(cs, ts)[k := Norm(cs, merged)])
      && DistinctKeys(cs, r)
      && r == DeleteMember(cs, ts, p.key) + (if p.value.Null? then [] else [Member(p.key, merged)])
  {
    hide MergePatch, DeleteMember;
    var m := Member(p.key, MergePatch(cs, ValueOf(ts, Find(cs, ts, p.key)), p.value));
    DeleteNorm(cs, ts, p.key);
    var rest := DeleteMember(cs, ts, p.key);
    assert [p][1..] == [];
    assert MergeMembers(cs, rest, []) == rest && MergeMembers(cs, rest + [m], []) == rest + [m];
    if !p.value.Null? {
      NormAppend(cs, rest, m);
      DropThenSet(NormMembers(cs, ts), FoldString(cs, p.key), Norm(cs, m.value));
    }
  }

  /** The object does not have this key, or has the value `v` there. */
  ghost predicate At(cs: bool, ts: seq<Member>, k: string, v: Option<Value>) {
    DistinctKeys(cs, ts) && Lookup(NormMembers(cs, ts), k) == v
  }

  lemma {:induction false} Untouched(cs: bool, ts: seq<Member>, ps: seq<Member>, k: string, v: Option<Value>)
    requires At(cs, ts, k, v) && forall i :: 0 <= i < |ps| ==> FoldString(cs, ps[i].key) != k
    ensures At(cs, MergeMembers(cs, ts, ps), k, v)
    decreases |ps|
  {
    hide MergeMembers, MergePatch;
    if ps == [] {
      assert MergeMembers(cs, ts, ps) == ts by { NothingMerged(cs, ts); }
    } else {
      assert ps == [ps[0]] + ps[1..];
      MergeConcat(cs, ts, [ps[0]], ps[1..]);
      MergeOne(cs, ts, ps[0]);
      Untouched(cs, MergeMembers(cs, ts, [ps[0]]), ps[1..], k, v);
    }
  }

  lemma NothingMerged(cs: bool, ts: seq<Member>)
    ensures MergeMembers(cs, ts, []) == ts
  {
  }

  ghost predicate NoKey(cs: bool, ms: seq<Member>, k: string) {
    forall i :: 0 <= i < |ms| ==> FoldString(cs, ms[i].key) != k
  }

  /** The patch speaks of keys of the two objects only. */
  lemma {:induction false} PatchKeys(cs: bool, g: bool, xs: seq<Member>, ys: seq<Member>, h: nat, k: string)
    requires Bounded(xs, h) && NoKey(cs, xs, k) && NoKey(cs, ys, k)
    ensures NoKey(cs, PatchMembers(g, xs, ys, h), k)
    decreases |xs| + |ys|
  {
    hide CompareJson, GenerateMergePatch, PatchMembers;
    PatchUnfold(g, xs, ys, h);
    if xs != [] || ys != [] {
      var diff := KeyOrder(xs, ys);
      PatchKeys(cs, g, if diff <= 0 then xs[1..] else xs, if diff >= 0 then ys[1..] else ys, h, k);
    }
  }

  lemma StaysAt(cs: bool, g: bool, ts: seq<Member>, xs: seq<Member>, ys: seq<Member>, h: nat, k: string,
                v: Option<Value>)
    requires Bounded(xs, h) && NoKey(cs, xs, k) && NoKey(cs, ys, k) && At(cs, ts, k, v)
    ensures At(cs, MergeMembers(cs, ts, PatchMembers(g, xs, ys, h)), k, v)
  {
    PatchKeys(cs, g, xs, ys, h, k);
    Untouched(cs, ts, PatchMembers(g, xs, ys, h), k, v);
  }

  lemma {:induction false} MergeKeepsDistinct(cs: bool, ts: seq<Member>, ps: seq<Member>)
    requires DistinctKeys(cs, ts)
    ensures DistinctKeys(cs, MergeMembers(cs, ts, ps))
    decreases |ps|
  {
    hide MergeMembers, MergePatch;
    if ps == [] {
      NothingMerged(cs, ts);
    } else {
      assert ps == [ps[0]] + ps[1..];
      MergeConcat(cs, ts, [ps[0]], ps[1..]);
      MergeOne(cs, ts, ps[0]);
      MergeKeepsDistinct(cs, MergeMembers(cs, ts, [ps[0]]), ps[1..]);
    }
  }

  /** A member of `from` that no member of `to` is left for is deleted when the walk comes to it. */
  lemma {:induction false} DeletedInTheEnd(cs: bool, g: bool, ts: seq<Member>, xs: seq<Member>, ys: seq<Member>, h: nat,
                                           i: nat)
    requires Bounded(xs, h) && DistinctKeys(cs, ts) && DistinctKeys(cs, xs) && i < |xs|
    requires NoKey(cs, ys, FoldString(cs, xs[i].key))
    ensures At(cs, MergeMembers(cs, ts, PatchMembers(g, xs, ys, h)), FoldString(cs, xs[i].key), None)
    decreases |xs| + |ys|
  {
    hide MergeMembers, PatchMembers, ChangedMember;
    var diff, k := KeyOrder(xs, ys), FoldString(cs, xs[i].key);
    var xs', ys' := if diff <= 0 then xs[1..] else xs, if diff >= 0 then ys[1..] else ys;
    var head, rest := HeadPatch(g, xs, ys), PatchMembers(g, xs', ys', h);
    PatchUnfold(g, xs, ys, h);
    MergeConcat(cs, ts, head, rest);
    MergeKeepsDistinct(cs, ts, head);
    var ts' := MergeMembers(cs, ts, head);
    if diff <= 0 && i == 0 {
      if diff == 0 { CompareZero(true, xs[0].key, ys[0].key); }
      MergeOne(cs, ts, head[0]);
      HeadKeyOnce(cs, xs);
      StaysAt(cs, g, ts', xs', ys', h, k, None);
    } else {
      DistinctTail(cs, xs);
      DeletedInTheEnd(cs, g, ts', xs', ys', h, if diff <= 0 then i - 1 else i);
    }
  }

  lemma DistinctTail(cs: bool, ms: seq<Member>)
    requires DistinctKeys(cs, ms)
    ensures ms != [] ==> DistinctKeys(cs, ms[1..])
  {
    if ms != [] {
      assert RemoveAt(ms, 0) == ms[1..];
      DistinctRemove(cs, ms, 0);
    }
  }

  lemma HeadKeyOnce(cs: bool, ms: seq<Member>)
    requires DistinctKeys(cs, ms) && ms != []
    ensures NoKey(cs, ms[1..], FoldString(cs, ms[0].key))
    ensures FoldString(cs, ms[0].key) !in NormMembers(cs, ms[1..])
  {
    forall i | 0 <= i < |ms[1..]| ensures FoldString(cs, ms[1..][i].key) != FoldString(cs, ms[0].key) {
      DistinctFolds(cs, ms, 0, i + 1);
    }
    NormMembersKeys(cs, ms[1..]);
  }

  /** What the walk needs: the members of `from` still to come are what they were. */
  ghost predicate Ready(cs: bool, cur: seq<Member>, xs: seq<Member>, ys: seq<Member>) {
    && DistinctKeys(cs, cur) && WellFormedMembers(cs, xs) && WellFormedMembers(cs, ys) && OnlyFrom(cs, cur, xs, ys)
    && forall i :: 0 <= i < |xs| ==> Present(cs, cur, xs[i])
  }

  lemma TailWellFormed(cs: bool, ms: seq<Member>)
    requires WellFormedMembers(cs, ms)
    ensures ms != [] ==> WellFormedMembers(cs, ms[1..])
  {
    DistinctTail(cs, ms);
    if ms != [] { assert forall i :: 0 <= i < |ms[1..]| ==> ms[1..][i] == ms[i + 1]; }
  }

  lemma StillPresent(cs: bool, cur: seq<Member>, p: Member, x: Member)
    requires DistinctKeys(cs, cur) && Present(cs, cur, x) && Compare(cs, p.key, x.key) != 0
    ensures Present(cs, MergeMembers(cs, cur, [p]), x)
  {
    hide MergePatch, MergeMembers, Present, DeleteMember;
    MergeOne(cs, cur, p);
    PresentDeleted(cs, cur, p.key, x);
    if !p.value.Null? {
      PresentAppended(cs, DeleteMember(cs, cur, p.key),
        Member(p.key, MergePatch(cs, ValueOf(cur, Find(cs, cur, p.key)), p.value)), x);
    } else {
      assert DeleteMember(cs, cur, p.key) + [] == DeleteMember(cs, cur, p.key);
    }
  }

  lemma PresentDeleted(cs: bool, cur: seq<Member>, key: string, x: Member)
    requires Present(cs, cur, x) && Compare(cs, key, x.key) != 0
    ensures Present(cs, DeleteMember(cs, cur, key), x)
  {
    hide Find, Compare, RemoveAt, Norm, WellFormed;
    SameKey(cs, key, x.key);
    var f := Find(cs, cur, key);
    if f.Some? {
      OtherKey(cs, key, cur[f.value].key, x.key);
      FindRemoved(cs, cur, f.value, x.key);
    }
  }

  lemma PresentAppended(cs: bool, cur: seq<Member>, m: Member, x: Member)
    requires Present(cs, cur, x)
    ensures Present(cs, cur + [m], x)
  {
    hide Find, Norm, WellFormed;
    FindAppended(cs, cur, m, x.key);
  }

  /** A step that merges one member. */
  lemma ReadyAfter(cs: bool, cur: seq<Member>, p: Member, xs: seq<Member>, ys: seq<Member>, a: nat, b: nat)
    requires Ready(cs, cur, xs, ys) && a <= 1 && b <= 1 && a <= |xs| && b <= |ys|
    requires forall i :: a <= i < |xs| ==> Compare(cs, p.key, xs[i].key) != 0
    requires OnlyFrom(cs, MergeMembers(cs, cur, [p]), xs[a..], ys[b..])
    ensures Ready(cs, MergeMembers(cs, cur, [p]), xs[a..], ys[b..])
  {
    hide MergeMembers, OnlyFrom, Present, Compare;
    TailWellFormed(cs, xs);
    TailWellFormed(cs, ys);
    assert xs[0..] == xs && ys[0..] == ys;
    MergeOne(cs, cur, p);
    forall i | 0 <= i < |xs[a..]| ensures Present(cs, MergeMembers(cs, cur, [p]), xs[a..][i]) {
      assert xs[a..][i] == xs[i + a];
      StillPresent(cs, cur, p, xs[i + a]);
    }
  }

  /** The key of the heads, and that it is in neither list again. */
  lemma HeadKey(cs: bool, xs: seq<Member>, ys: seq<Member>)
    requires DistinctKeys(cs, xs) && DistinctKeys(cs, ys) && (xs != [] || ys != [])
    ensures xs != [] ==>
      NoKey(cs, xs[1..], FoldString(cs, xs[0].key)) && FoldString(cs, xs[0].key) !in NormMembers(cs, xs[1..])
    ensures ys != [] ==>
      NoKey(cs, ys[1..], FoldString(cs, ys[0].key)) && FoldString(cs, ys[0].key) !in NormMembers(cs, ys[1..])
    ensures xs != [] ==> forall i :: 1 <= i < |xs| ==> Compare(cs, xs[0].key, xs[i].key) != 0
    ensures KeyOrder(xs, ys) == 0 ==> xs[0].key == ys[0].key
  {
    if xs != [] {
      HeadKeyOnce(cs, xs);
      forall i | 1 <= i < |xs| ensures Compare(cs, xs[0].key, xs[i].key) != 0 {
        DistinctFolds(cs, xs, 0, i);
        SameKey(cs, xs[0].key, xs[i].key);
      }
    }
    if ys != [] { HeadKeyOnce(cs, ys); }
    if xs != [] && ys != [] { CompareZero(true, xs[0].key, ys[0].key); }
  }

  /** Nobody in `xs` has the key. */
  lemma KeyNotThere(cs: bool, xs: seq<Member>, key: string)
    requires Find(cs, xs, key).None?
    ensures NoKey(cs, xs, FoldString(cs, key)) && FoldString(cs, key) !in NormMembers(cs, xs)
    ensures forall i :: 0 <= i < |xs| ==> Compare(cs, key, xs[i].key) != 0
  {
    NormMembersFind(cs, xs, key);
    forall i | 0 <= i < |xs| ensures FoldString(cs, xs[i].key) != FoldString(cs, key) { SameKey(cs, key, xs[i].key); }
  }

  /** The value merging the head of `to` gives, when it has no counterpart. */
  lemma AddedValue(cs: bool, cur: seq<Member>, y: Member)
    requires DistinctKeys(cs, cur) && FoldString(cs, y.key) !in NormMembers(cs, cur) && WellFormed(cs, y.value)
    ensures
      var v := MergePatch(cs, ValueOf(cur, Find(cs, cur, y.key)), y.value);
      Norm(cs, v) == Norm(cs, y.value) <==> NullsKept(None, Norm(cs, y.value))
  {
    NormMembersFind(cs, cur, y.key);
    MergePatchRefines(cs, None, y.value);
    MergeWhole(None, Norm(cs, y.value));
  }

  /** What the head of the patch makes of the object, and that the walk can go on. */
  lemma {:induction false} GoodStep(cs: bool, g: bool, cur: seq<Member>, xs: seq<Member>, ys: seq<Member>, h: nat)
    requires Bounded(xs, h) && Ready(cs, cur, xs, ys) && (xs != [] || ys != [])
    requires HeadArrives(cs, g, xs, ys, h) && PairLeads(cs, g, cur, xs, ys)
    ensures
      var diff := KeyOrder(xs, ys);
      var xs', ys', cur' := if diff <= 0 then xs[1..] else xs, if diff >= 0 then ys[1..] else ys,
        MergeMembers(cs, cur, HeadPatch(g, xs, ys));
      Ready(cs, cur', xs', ys') && Goal(cs, cur', xs', ys') == Goal(cs, cur, xs, ys)
  {
    hide MergeMembers, MergePatch, Goal, CompareJson, GenerateMergePatch, Arrives, Compare, NullsKept;
    var diff, head := KeyOrder(xs, ys), HeadPatch(g, xs, ys);
    HeadKey(cs, xs, ys);
    assert xs[0..] == xs && ys[0..] == ys;
    if head != [] { MergeOne(cs, cur, head[0]); }
    if diff < 0 {
      GoalDrop(cs, cur, MergeMembers(cs, cur, head), xs, ys);
      ReadyAfter(cs, cur, head[0], xs, ys, 1, 0);
    } else if diff > 0 {
      KeyNotThere(cs, xs, ys[0].key);
      NewHead(cs, cur, xs, ys);
      AddedValue(cs, cur, ys[0]);
      GoalAdd(cs, cur, MergeMembers(cs, cur, head), xs, ys);
      ReadyAfter(cs, cur, head[0], xs, ys, 0, 1);
    } else {
      PairStep(cs, g, cur, xs, ys, h);
    }
  }

  lemma NewHead(cs: bool, cur: seq<Member>, xs: seq<Member>, ys: seq<Member>)
    requires OnlyFrom(cs, cur, xs, ys) && ys != [] && FoldString(cs, ys[0].key) !in NormMembers(cs, xs)
    ensures FoldString(cs, ys[0].key) !in NormMembers(cs, cur)
  {
    assert FoldString(cs, ys[0].key) in NormMembers(cs, ys);
  }

  /** For heads met together: what the nested patch makes of the member of the object. */
  ghost predicate PairLeads(cs: bool, g: bool, cur: seq<Member>, xs: seq<Member>, ys: seq<Member>) {
    xs != [] && ys != [] && KeyOrder(xs, ys) == 0 && Find(cs, cur, xs[0].key).Some? ==>
      var c := cur[Find(cs, cur, xs[0].key).value].value;
      Norm(cs, Patched(cs, c, NestedPatch(g, xs[0].value, ys[0].value))) == Norm(cs, ys[0].value)
      <==> Arrives(cs, false, Left(g, xs[0].value, ys[0].value), Left(g, ys[0].value, xs[0].value))
  }

  /** The value of the head key behind the head of the patch. */
  lemma PairValue(cs: bool, g: bool, cur: seq<Member>, xs: seq<Member>, ys: seq<Member>)
    requires Ready(cs, cur, xs, ys) && xs != [] && ys != [] && KeyOrder(xs, ys) == 0 && xs[0].key == ys[0].key
    requires CompareJson(g, xs[0].value, ys[0].value) || !ys[0].value.Null?
    ensures Find(cs, cur, xs[0].key).Some?
    ensures
      var c, k := cur[Find(cs, cur, xs[0].key).value].value, FoldString(cs, xs[0].key);
      var v := if CompareJson(g, xs[0].value, ys[0].value) then c
        else Patched(cs, c, NestedPatch(g, xs[0].value, ys[0].value));
      && NormMembers(cs, MergeMembers(cs, cur, HeadPatch(g, xs, ys))) == NormMembers(cs, cur)[k := Norm(cs, v)]
      && Norm(cs, c) == Norm(cs, xs[0].value)
  {
    hide MergeMembers, MergePatch, CompareJson, GenerateMergePatch;
    assert Present(cs, cur, xs[0]);
    var head := HeadPatch(g, xs, ys);
    NormMembersFind(cs, cur, xs[0].key);
    SameAgain(NormMembers(cs, cur), FoldString(cs, xs[0].key));
    if head == [] {
      NothingMerged(cs, cur);
    } else {
      NotNullPatch(g, xs[0].value, ys[0].value);
      MergeOne(cs, cur, head[0]);
    }
  }

  lemma SameAgain(m: map<string, Value>, k: string)
    requires k in m
    ensures m[k := m[k]] == m
  {
  }

  lemma NotNullPatch(g: bool, x: Json, y: Json)
    ensures var p := NestedPatch(g, x, y); p.Some? && p.value.Null? ==> y.Null?
  {
  }

  lemma PairStep(cs: bool, g: bool, cur: seq<Member>, xs: seq<Member>, ys: seq<Member>, h: nat)
    requires Bounded(xs, h) && Ready(cs, cur, xs, ys) && xs != [] && ys != [] && KeyOrder(xs, ys) == 0
    requires HeadArrives(cs, g, xs, ys, h) && PairLeads(cs, g, cur, xs, ys)
    ensures
      var cur' := MergeMembers(cs, cur, HeadPatch(g, xs, ys));
      Ready(cs, cur', xs[1..], ys[1..]) && Goal(cs, cur', xs[1..], ys[1..]) == Goal(cs, cur, xs, ys)
  {
    hide MergeMembers, MergePatch, Goal, CompareJson, GenerateMergePatch, Arrives, Compare;
    HeadKey(cs, xs, ys);
    PairValue(cs, g, cur, xs, ys);
    var head := HeadPatch(g, xs, ys);
    var cur' := MergeMembers(cs, cur, head);
    GoalBoth(cs, cur, cur', xs, ys);
    if head == [] {
      NothingMerged(cs, cur);
      TailWellFormed(cs, xs);
      TailWellFormed(cs, ys);
      assert forall i :: 0 <= i < |xs[1..]| ==> xs[1..][i] == xs[i + 1];
    } else {
      ReadyAfter(cs, cur, head[0], xs, ys, 1, 1);
    }
  }

  /** A key that is wrong behind the head of the patch, and not spoken of again, stays wrong. */
  lemma WrongAt(cs: bool, g: bool, cur: seq<Member>, xs: seq<Member>, ys: seq<Member>, h: nat, k: string,
                v: Option<Value>)
    requires Bounded(xs, h) && (xs != [] || ys != [])
    requires
      var diff := KeyOrder(xs, ys);
      var xs', ys' := if diff <= 0 then xs[1..] else xs, if diff >= 0 then ys[1..] else ys;
      At(cs, MergeMembers(cs, cur, HeadPatch(g, xs, ys)), k, v) && NoKey(cs, xs', k) && NoKey(cs, ys', k)
    requires Lookup(Goal(cs, cur, xs, ys), k) != v
    ensures NormMembers(cs, MergeMembers(cs, cur, PatchMembers(g, xs, ys, h))) != Goal(cs, cur, xs, ys)
  {
    hide MergeMembers, PatchMembers, HeadPatch, Goal, NoKey;
    var diff, head := KeyOrder(xs, ys), HeadPatch(g, xs, ys);
    var xs', ys' := if diff <= 0 then xs[1..] else xs, if diff >= 0 then ys[1..] else ys;
    PatchUnfold(g, xs, ys, h);
    MergeConcat(cs, cur, head, PatchMembers(g, xs', ys', h));
    StaysAt(cs, g, MergeMembers(cs, cur, head), xs', ys', h, k, v);
  }

  lemma GoalAtHead(cs: bool, cur: seq<Member>, xs: seq<Member>, ys: seq<Member>)
    requires ys != []
    ensures Lookup(Goal(cs, cur, xs, ys), FoldString(cs, ys[0].key)) == Some(Norm(cs, ys[0].value))
  {
  }

  /** A head that does not lead there leaves its key wrong to the end: added ... */
  lemma {:induction false} BadAdd(cs: bool, g: bool, cur: seq<Member>, xs: seq<Member>, ys: seq<Member>, h: nat)
    requires Bounded(xs, h) && Ready(cs, cur, xs, ys) && ys != [] && KeyOrder(xs, ys) > 0
    requires !HeadArrives(cs, g, xs, ys, h)
    ensures NormMembers(cs, MergeMembers(cs, cur, PatchMembers(g, xs, ys, h))) != Goal(cs, cur, xs, ys)
  {
    hide MergeMembers, MergePatch, Compare, PatchMembers, NullsKept, Goal, Find, NoKey;
    var y, head := ys[0], [ys[0]];
    var k, cur' := FoldString(cs, y.key), MergeMembers(cs, cur, head);
    HeadKey(cs, xs, ys);
    GoalAtHead(cs, cur, xs, ys);
    MergeOne(cs, cur, y);
    if Find(cs, xs, y.key).Some? {
      var i := Find(cs, xs, y.key).value;
      SameKey(cs, y.key, xs[i].key);
      PatchUnfold(g, xs, ys, h);
      MergeConcat(cs, cur, head, PatchMembers(g, xs, ys[1..], h));
      DeletedInTheEnd(cs, g, cur', xs, ys[1..], h, i);
    } else {
      KeyNotThere(cs, xs, y.key);
      NewHead(cs, cur, xs, ys);
      AddedValue(cs, cur, y);
      WrongAt(cs, g, cur, xs, ys, h, k, Lookup(NormMembers(cs, cur'), k));
    }
  }

  /** ... or met with its counterpart. */
  lemma {:induction false} BadPair(cs: bool, g: bool, cur: seq<Member>, xs: seq<Member>, ys: seq<Member>, h: nat)
    requires Bounded(xs, h) && Ready(cs, cur, xs, ys) && xs != [] && ys != [] && KeyOrder(xs, ys) == 0
    requires !HeadArrives(cs, g, xs, ys, h) && PairLeads(cs, g, cur, xs, ys)
    ensures NormMembers(cs, MergeMembers(cs, cur, PatchMembers(g, xs, ys, h))) != Goal(cs, cur, xs, ys)
  {
    hide MergeMembers, MergePatch, Compare, PatchMembers, Goal, Find, NoKey, CompareJson, Arrives;
    var k, cur' := FoldString(cs, xs[0].key), MergeMembers(cs, cur, HeadPatch(g, xs, ys));
    HeadKey(cs, xs, ys);
    GoalAtHead(cs, cur, xs, ys);
    if CompareJson(g, xs[0].value, ys[0].value) || !ys[0].value.Null? {
      PairValue(cs, g, cur, xs, ys);
    } else {
      assert NestedPatch(g, xs[0].value, ys[0].value) == Some(Null);
      assert HeadPatch(g, xs, ys) == [Member(ys[0].key, Null)];
      MergeOne(cs, cur, Member(ys[0].key, Null));
    }
    MergeKeepsDistinct(cs, cur, HeadPatch(g, xs, ys));
    WrongAt(cs, g, cur, xs, ys, h, k, Lookup(NormMembers(cs, cur'), k));
  }

  /** The patch makes the object what it should be exactly when every head leads there. */
  lemma {:induction false} WalkLeads(cs: bool, g: bool, cur: seq<Member>, xs: seq<Member>, ys: seq<Member>, h: nat)
    requires Bounded(xs, h) && Ready(cs, cur, xs, ys)
    ensures NormMembers(cs, MergeMembers(cs, cur, PatchMembers(g, xs, ys, h))) == Goal(cs, cur, xs, ys)
       <==> WalkArrives(cs, g, xs, ys, h)
    decreases h, 0, |xs| + |ys|
  {
    hide MergeMembers, PatchMembers, Goal, Ready, HeadArrives, WalkArrives, PairLeads, HeadPatch;
    PatchUnfold(g, xs, ys, h);
    WalkUnfold(cs, g, xs, ys, h);
    if xs == [] && ys == [] {
      NothingMerged(cs, cur);
      NoGoal(cs, cur);
    } else {
      var diff, head := KeyOrder(xs, ys), HeadPatch(g, xs, ys);
      var xs', ys' := if diff <= 0 then xs[1..] else xs, if diff >= 0 then ys[1..] else ys;
      HeadPair(cs, g, cur, xs, ys, h);
      if HeadArrives(cs, g, xs, ys, h) {
        GoodStep(cs, g, cur, xs, ys, h);
        MergeConcat(cs, cur, head, PatchMembers(g, xs', ys', h));
        WalkLeads(cs, g, MergeMembers(cs, cur, head), xs', ys', h);
      } else if diff > 0 {
        BadAdd(cs, g, cur, xs, ys, h);
      } else {
        NeverBad(cs, g, xs, ys, h);
        BadPair(cs, g, cur, xs, ys, h);
      }
    }
  }

  lemma NoGoal(cs: bool, cur: seq<Member>)
    ensures Goal(cs, cur, [], []) == NormMembers(cs, cur)
  {
  }

  lemma NeverBad(cs: bool, g: bool, xs: seq<Member>, ys: seq<Member>, h: nat)
    requires Bounded(xs, h) && (xs != [] || ys != [])
    ensures KeyOrder(xs, ys) < 0 ==> HeadArrives(cs, g, xs, ys, h)
  {
  }

  lemma WalkUnfold(cs: bool, g: bool, xs: seq<Member>, ys: seq<Member>, h: nat)
    requires Bounded(xs, h)
    ensures
      var diff := KeyOrder(xs, ys);
      WalkArrives(cs, g, xs, ys, h) <==> ((xs != [] || ys != []) ==>
        && HeadArrives(cs, g, xs, ys, h)
        && WalkArrives(cs, g, if diff <= 0 then xs[1..] else xs, if diff >= 0 then ys[1..] else ys, h))
  {
    hide HeadArrives;
  }

  lemma {:induction false} HeadPair(cs: bool, g: bool, cur: seq<Member>, xs: seq<Member>, ys: seq<Member>, h: nat)
    requires Bounded(xs, h) && Ready(cs, cur, xs, ys) && (xs != [] || ys != [])
    ensures PairLeads(cs, g, cur, xs, ys)
    decreases h, 0, 0
  {
    hide GenerateMergePatch, Arrives, WellFormed, MergePatch, Find;
    if xs != [] && ys != [] && KeyOrder(xs, ys) == 0 {
      assert Present(cs, cur, xs[0]);
      var x, y := xs[0].value, ys[0].value;
      LeftKeeps(cs, g, x, y);
      LeftKeeps(cs, g, y, x);
      LeftHeight(g, x, y);
      GeneratedPatchWorks(cs, false, cur[Find(cs, cur, xs[0].key).value].value, Left(g, x, y), Left(g, y, x));
    }
  }

  /** Sorting in any mode leaves the object the same map. */
  lemma SortKeeps(cs: bool, g: bool, ms: seq<Member>)
    requires WellFormedMembers(cs, ms)
    ensures WellFormedMembers(cs, SortMembers(g, ms)) && NormMembers(cs, SortMembers(g, ms)) == NormMembers(cs, ms)
  {
    hide WellFormed;
    var r := SortMembers(g, ms);
    SortPermutes(g, ms, MemberKey);
    DistinctMultiset(cs, ms);
    forall m | m in ms ensures m in r { assert m in multiset(ms); }
    forall i, j | 0 <= i < j < |r| ensures Compare(cs, MemberKey(r[i]), MemberKey(r[j])) != 0 {
      PermutedPair(cs, ms, r, i, j);
    }
    NormSamePool(cs, ms, r);
    forall i | 0 <= i < |r| ensures WellFormed(cs, r[i].value) { assert r[i] in ms; }
  }

  lemma ReadyStart(cs: bool, g: bool, d: Json, from: Json, to: Json)
    requires WellFormed(cs, from) && WellFormed(cs, to) && WellFormed(cs, d) && Norm(cs, d) == Norm(cs, from)
    requires from.Object? && to.Object?
    ensures d.Object?
    ensures
      var xs, ys := SortMembers(g, from.members), SortMembers(g, to.members);
      Ready(cs, d.members, xs, ys) && Goal(cs, d.members, xs, ys) == NormMembers(cs, to.members)
  {
    hide SortMembers, NormMembers;
    var xs, ys := SortMembers(g, from.members), SortMembers(g, to.members);
    SortKeeps(cs, g, from.members);
    SortKeeps(cs, g, to.members);
    AllPresent(cs, d.members, xs);
    GoalOfAll(cs, d.members, xs, ys);
  }

  lemma AllPresent(cs: bool, ds: seq<Member>, xs: seq<Member>)
    requires WellFormedMembers(cs, ds) && DistinctKeys(cs, xs) && NormMembers(cs, ds) == NormMembers(cs, xs)
    ensures forall i :: 0 <= i < |xs| ==> Present(cs, ds, xs[i])
  {
    hide NormMembers, WellFormed, Norm;
    forall i | 0 <= i < |xs| ensures Present(cs, ds, xs[i]) {
      NormMembersAt(cs, xs, i);
      NormMembersFind(cs, ds, xs[i].key);
    }
  }

  lemma GoalOfAll(cs: bool, ds: seq<Member>, xs: seq<Member>, ys: seq<Member>)
    requires NormMembers(cs, ds) == NormMembers(cs, xs)
    ensures Goal(cs, ds, xs, ys) == NormMembers(cs, ys) && OnlyFrom(cs, ds, xs, ys)
  {
  }

  /** For every document `d` equal to `from`: merging what `generate_merge_patch` returned makes it
      equal to `to` exactly when the walk leads there. */
  lemma {:induction false} GeneratedPatchWorks(cs: bool, g: bool, d: Json, from: Json, to: Json)
    requires WellFormed(cs, from) && WellFormed(cs, to)
    requires WellFormed(cs, d) && Norm(cs, d) == Norm(cs, from)
    ensures Norm(cs, Patched(cs, d, GenerateMergePatch(g, from, to))) == Norm(cs, to) <==> Arrives(cs, g, from, to)
    decreases Height(from), 1, 0
  {
    if to.Object? && from.Object? {
      BothObjects(cs, g, d, from, to);
    } else {
      MergePatchRefines(cs, Some(d), to);
      if to.Object? {
        MergeWhole(Some(Norm(cs, d)), Norm(cs, to));
        NothingThere(Some(Norm(cs, d)), Norm(cs, to));
      }
    }
  }

  lemma NothingThere(f: Option<Value>, t: Value)
    requires Fields(f) == map[]
    ensures NullsKept(f, t) <==> NullsKept(None, t)
  {
  }

  lemma {:induction false} BothObjects(cs: bool, g: bool, d: Json, from: Json, to: Json)
    requires WellFormed(cs, from) && WellFormed(cs, to) && from.Object? && to.Object?
    requires WellFormed(cs, d) && Norm(cs, d) == Norm(cs, from)
    ensures Norm(cs, Patched(cs, d, GenerateMergePatch(g, from, to))) == Norm(cs, to) <==> Arrives(cs, g, from, to)
    decreases Height(from), 0, |from.members| + |to.members| + 1
  {
    hide PatchMembers, MergeMembers, SortMembers, Ready, Goal, WalkArrives;
    var xs, ys := SortMembers(g, from.members), SortMembers(g, to.members);
    ReadyStart(cs, g, d, from, to);
    SortedBounded(g, from);
    WalkLeads(cs, g, d.members, xs, ys, Height(from));
    var ps := PatchMembers(g, xs, ys, Height(from));
    if ps == [] { NothingMerged(cs, d.members); }
  }

  // ---------------------------------------------------------------------------
  // When the order of the sort agrees with strcmp

  /** Keys both objects have are met together, and members met are told apart rightly, here and
      below. */
  ghost predicate Agrees(cs: bool, g: bool, from: Json, to: Json)
    decreases Height(from), 1, 0
  {
    if !from.Object? || !to.Object? then true
    else
      SortedBounded(g, from);
      WalkAgrees(cs, SortMembers(g, from.members), SortMembers(g, to.members), g, Height(from))
  }

  ghost predicate WalkAgrees(cs: bool, xs: seq<Member>, ys: seq<Member>, g: bool, h: nat)
    requires Bounded(xs, h)
    decreases h, 0, |xs| + |ys|
  {
    (xs != [] || ys != []) ==>
      var diff := KeyOrder(xs, ys);
      && (diff < 0 ==> Find(cs, ys, xs[0].key).None?)
      && (diff > 0 ==> Find(cs, xs, ys[0].key).None?)
      && (diff == 0 ==> PairAgrees(cs, xs[0], ys[0], g, h))
      && WalkAgrees(cs, if diff <= 0 then xs[1..] else xs, if diff >= 0 then ys[1..] else ys, g, h)
  }

  ghost predicate PairAgrees(cs: bool, x: Member, y: Member, g: bool, h: nat)
    requires Height(x.value) < h
    decreases h, 0, 0
  {
    LeftHeight(g, x.value, y.value);
    ToldApart(cs, g, x.value, y.value) && Agrees(cs, false, Left(g, x.value, y.value), Left(g, y.value, x.value))
  }

  /** The test in mode `g` finds two values equal exactly when they are in mode `cs`. */
  ghost predicate ToldApart(cs: bool, g: bool, x: Json, y: Json) {
    CompareJson(g, x, y) <==> Norm(cs, x) == Norm(cs, y)
  }

  /** The value-level patch of two member maps. */
  ghost function MapPatch(f: map<string, Value>, t: map<string, Value>): map<string, Value> {
    PatchFor(VObject(f), VObject(t)).fields
  }

  /** What the head of the patch is for the key `k`. */
  ghost predicate HeadIs(cs: bool, head: seq<Member>, k: string, x: Option<Value>, y: Option<Value>) {
    if x == y then head == []
    else
      && |head| == 1 && FoldString(cs, head[0].key) == k && WellFormed(cs, head[0].value)
      && Norm(cs, head[0].value) ==
           match (x, y) case (_, None) => VNull case (None, Some(t)) => t case (Some(f), Some(t)) => PatchFor(f, t)
  }

  lemma MapPatchStep(x: map<string, Value>, y: map<string, Value>, x': map<string, Value>, y': map<string, Value>,
                     k: string)
    requires k !in x' && k !in y'
    requires forall q :: q != k ==> Lookup(x, q) == Lookup(x', q) && Lookup(y, q) == Lookup(y', q)
    ensures k !in MapPatch(x', y')
    ensures Lookup(x, k) == Lookup(y, k) ==> MapPatch(x, y) == MapPatch(x', y')
    ensures Lookup(x, k) != Lookup(y, k) ==>
      MapPatch(x, y) == MapPatch(x', y')[k := if k !in y then VNull else if k !in x then y[k] else PatchFor(x[k], y[k])]
  {
    var p, p' := MapPatch(x, y), MapPatch(x', y');
    forall q | q != k ensures Lookup(p, q) == Lookup(p', q) {
      assert Lookup(x, q) == Lookup(x', q) && Lookup(y, q) == Lookup(y', q);
    }
    assert k !in p';
    if Lookup(x, k) == Lookup(y, k) {
      SameLookups(p, p');
    } else {
      SameLookups(p, p'[k := p[k]]);
    }
  }

  lemma PrependHead(cs: bool, head: seq<Member>, rest: seq<Member>, k: string, x: Option<Value>, y: Option<Value>)
    requires HeadIs(cs, head, k, x, y) && WellFormedMembers(cs, rest) && k !in NormMembers(cs, rest)
    ensures WellFormedMembers(cs, head + rest)
    ensures NormMembers(cs, head + rest) ==
      if x == y then NormMembers(cs, rest) else NormMembers(cs, rest)[k := Norm(cs, head[0].value)]
  {
    if x == y {
      assert head + rest == rest;
    } else {
      var r := head + rest;
      assert r[1..] == rest && r[0] == head[0];
      NormMembersKeys(cs, rest);
      forall i, j | 0 <= i < j < |r| ensures Compare(cs, MemberKey(r[i]), MemberKey(r[j])) != 0 {
        assert r[j] == rest[j - 1];
        SameKey(cs, r[0].key, r[j].key);
        if i > 0 { assert Compare(cs, MemberKey(rest[i - 1]), MemberKey(rest[j - 1])) != 0; }
      }
    }
  }

  /** The heads of the two lists, as maps. */
  lemma SplitHeads(cs: bool, xs: seq<Member>, ys: seq<Member>, g: bool, h: nat) returns (k: string)
    requires Bounded(xs, h) && WellFormedMembers(cs, xs) && WellFormedMembers(cs, ys) && (xs != [] || ys != [])
    requires WalkAgrees(cs, xs, ys, g, h)
    ensures
      var diff := KeyOrder(xs, ys);
      var xs', ys' := if diff <= 0 then xs[1..] else xs, if diff >= 0 then ys[1..] else ys;
      && k == FoldString(cs, if diff <= 0 then xs[0].key else ys[0].key)
      && WellFormedMembers(cs, xs') && WellFormedMembers(cs, ys') && WalkAgrees(cs, xs', ys', g, h)
      && k !in NormMembers(cs, xs') && k !in NormMembers(cs, ys')
      && Lookup(NormMembers(cs, xs), k) == (if diff <= 0 then Some(Norm(cs, xs[0].value)) else None)
      && Lookup(NormMembers(cs, ys), k) == (if diff >= 0 then Some(Norm(cs, ys[0].value)) else None)
      && (forall q :: q != k ==> Lookup(NormMembers(cs, xs), q) == Lookup(NormMembers(cs, xs'), q))
      && (forall q :: q != k ==> Lookup(NormMembers(cs, ys), q) == Lookup(NormMembers(cs, ys'), q))
      && (diff == 0 ==> xs[0].key == ys[0].key && PairAgrees(cs, xs[0], ys[0], g, h))
  {
    hide PairAgrees, WellFormed;
    var diff := KeyOrder(xs, ys);
    HeadKey(cs, xs, ys);
    TailWellFormed(cs, xs);
    TailWellFormed(cs, ys);
    k := FoldString(cs, if diff <= 0 then xs[0].key else ys[0].key);
    if diff < 0 { KeyNotThere(cs, ys, xs[0].key); }
    if diff > 0 { KeyNotThere(cs, xs, ys[0].key); }
  }

  lemma {:induction false} HeadRefines(cs: bool, xs: seq<Member>, ys: seq<Member>, g: bool, h: nat, k: string)
    requires Bounded(xs, h) && WellFormedMembers(cs, xs) && WellFormedMembers(cs, ys) && (xs != [] || ys != [])
    requires k == FoldString(cs, if KeyOrder(xs, ys) <= 0 then xs[0].key else ys[0].key)
    requires KeyOrder(xs, ys) == 0 ==> xs[0].key == ys[0].key && PairAgrees(cs, xs[0], ys[0], g, h)
    ensures
      var diff := KeyOrder(xs, ys);
      HeadIs(cs, HeadPatch(g, xs, ys), k,
             if diff <= 0 then Some(Norm(cs, xs[0].value)) else None,
             if diff >= 0 then Some(Norm(cs, ys[0].value)) else None)
    decreases h, 0, |xs| + |ys|, 0
  {
    hide GenerateMergePatch, CompareJson, PatchFor, Agrees;
    if KeyOrder(xs, ys) == 0 {
      var x, y := xs[0].value, ys[0].value;
      LeftKeeps(cs, g, x, y);
      LeftKeeps(cs, g, y, x);
      LeftHeight(g, x, y);
      GenerateRefines(cs, false, Left(g, x, y), Left(g, y, x));
      assert HeadPatch(g, xs, ys) == ChangedMember(g, xs[0], ys[0]);
      var p := NestedPatch(g, x, y);
      assert p.None? <==> x.Object? && y.Object? && Norm(cs, x) == Norm(cs, y);
      assert p.Some? ==> Norm(cs, p.value) == PatchFor(Norm(cs, x), Norm(cs, y)) && WellFormed(cs, p.value);
    }
  }

  lemma {:induction false} PatchMembersRefines(cs: bool, xs: seq<Member>, ys: seq<Member>, g: bool, h: nat)
    requires Bounded(xs, h) && WellFormedMembers(cs, xs) && WellFormedMembers(cs, ys) && WalkAgrees(cs, xs, ys, g, h)
    ensures NormMembers(cs, PatchMembers(g, xs, ys, h)) == MapPatch(NormMembers(cs, xs), NormMembers(cs, ys))
    ensures WellFormedMembers(cs, PatchMembers(g, xs, ys, h))
    decreases h, 0, |xs| + |ys|
  {
    hide PatchMembers, MapPatch, HeadPatch, HeadIs, WellFormedMembers, WalkAgrees, PairAgrees;
    PatchUnfold(g, xs, ys, h);
    if xs == [] && ys == [] {
      EmptyPatch(cs);
    } else {
      var diff := KeyOrder(xs, ys);
      var xs', ys' := if diff <= 0 then xs[1..] else xs, if diff >= 0 then ys[1..] else ys;
      var k := SplitHeads(cs, xs, ys, g, h);
      HeadRefines(cs, xs, ys, g, h, k);
      PatchMembersRefines(cs, xs', ys', g, h);
      MapPatchStep(NormMembers(cs, xs), NormMembers(cs, ys), NormMembers(cs, xs'), NormMembers(cs, ys'), k);
      PrependHead(cs, HeadPatch(g, xs, ys), PatchMembers(g, xs', ys', h), k,
                  Lookup(NormMembers(cs, xs), k), Lookup(NormMembers(cs, ys), k));
      HeadValueIs(cs, HeadPatch(g, xs, ys), k, NormMembers(cs, xs), NormMembers(cs, ys));
    }
  }

  lemma HeadValueIs(cs: bool, head: seq<Member>, k: string, x: map<string, Value>, y: map<string, Value>)
    requires HeadIs(cs, head, k, Lookup(x, k), Lookup(y, k))
    ensures Lookup(x, k) != Lookup(y, k) ==>
      head != [] && Norm(cs, head[0].value) == if k !in y then VNull else if k !in x then y[k] else PatchFor(x[k], y[k])
  {
  }

  lemma EmptyPatch(cs: bool)
    ensures NormMembers(cs, []) == map[] && MapPatch(map[], map[]) == map[] && WellFormedMembers(cs, [])
  {
  }

  lemma NoPatch(f: map<string, Value>, t: map<string, Value>)
    ensures MapPatch(f, t) == map[] <==> f == t
  {
    SameLookups(f, t);
    if MapPatch(f, t) == map[] {
      forall k ensures Lookup(f, k) == Lookup(t, k) { assert k !in MapPatch(f, t); }
    }
  }

  /** Where they agree, `generate_merge_patch` returns NULL exactly for two equal objects, and
      otherwise the patch between the two values. */
  lemma {:induction false} GenerateRefines(cs: bool, g: bool, from: Json, to: Json)
    requires WellFormed(cs, from) && WellFormed(cs, to) && Agrees(cs, g, from, to)
    ensures
      var p := GenerateMergePatch(g, from, to);
      && (p.None? <==> from.Object? && to.Object? && Norm(cs, from) == Norm(cs, to))
      && (p.Some? ==> Norm(cs, p.value) == PatchFor(Norm(cs, from), Norm(cs, to)) && WellFormed(cs, p.value))
    decreases Height(from), 1, 0
  {
    if from.Object? && to.Object? {
      ObjectsRefine(cs, g, from, to);
    }
  }

  lemma {:induction false} ObjectsRefine(cs: bool, g: bool, from: Json, to: Json)
    requires WellFormed(cs, from) && WellFormed(cs, to) && Agrees(cs, g, from, to) && from.Object? && to.Object?
    ensures
      var p := GenerateMergePatch(g, from, to);
      && (p.None? <==> Norm(cs, from) == Norm(cs, to))
      && (p.Some? ==> Norm(cs, p.value) == PatchFor(Norm(cs, from), Norm(cs, to)) && WellFormed(cs, p.value))
    decreases Height(from), 0, |from.members| + |to.members| + 1
  {
    hide PatchMembers, MapPatch, WalkAgrees, SortMembers, PatchFor, NormMembers;
    var f, t := NormMembers(cs, from.members), NormMembers(cs, to.members);
    SortKeeps(cs, g, from.members);
    SortKeeps(cs, g, to.members);
    SortedBounded(g, from);
    var xs, ys := SortMembers(g, from.members), SortMembers(g, to.members);
    PatchMembersRefines(cs, xs, ys, g, Height(from));
    var ps := PatchMembers(g, xs, ys, Height(from));
    NoPatch(f, t);
    EmptyNorm(cs, ps);
    MapPatchIs(f, t);
  }

  lemma EmptyNorm(cs: bool, ps: seq<Member>)
    ensures NormMembers(cs, ps) == map[] <==> ps == []
  {
    NormMembersKeys(cs, ps);
    assert ps != [] ==> FoldString(cs, ps[0].key) in NormMembers(cs, ps);
  }

  lemma MapPatchIs(f: map<string, Value>, t: map<string, Value>)
    ensures PatchFor(VObject(f), VObject(t)) == VObject(MapPatch(f, t))
  {
  }

  /** There the patch leads to `to` exactly when every null-valued member of `to` was in `from`
      already. */
  lemma AgreedPatchWorks(cs: bool, g: bool, from: Json, to: Json)
    requires WellFormed(cs, from) && WellFormed(cs, to) && Agrees(cs, g, from, to)
    ensures Arrives(cs, g, from, to) <==> NullsKept(Some(Norm(cs, from)), Norm(cs, to))
  {
    hide Arrives, Agrees, GenerateMergePatch, PatchFor, NullsKept, JsonMergePatch.Merge;
    var p := GenerateMergePatch(g, from, to);
    GeneratedPatchWorks(cs, g, from, from, to);
    GenerateRefines(cs, g, from, to);
    if p.Some? {
      MergePatchRefines(cs, Some(from), p.value);
      PatchForWorks(Norm(cs, from), Norm(cs, to));
    } else {
      NullsKeptSelf(Norm(cs, to));
    }
  }

  // ---------------------------------------------------------------------------
  // Objects on which they agree

  /** On these keys the sort and `strcmp` agree, and keys that are one to the library are spelled
      alike. */
  ghost predicate SameOrder(cs: bool, g: bool, ms: seq<Member>) {
    forall i, j :: 0 <= i < |ms| && 0 <= j < |ms| ==> KeysAgree(cs, g, ms[i].key, ms[j].key)
  }

  predicate KeysAgree(cs: bool, g: bool, a: string, b: string) {
    (Less(g, a, b) <==> Less(true, a, b)) && (Compare(cs, a, b) == 0 ==> a == b)
  }

  /** Members of the two objects under one key are told apart rightly. */
  ghost predicate MembersAgree(cs: bool, ms: seq<Member>, ns: seq<Member>, g: bool) {
    forall x, y :: x in ms && y in ns && Compare(cs, x.key, y.key) == 0 ==>
      PairsAgree(cs, g, x.value, y.value)
  }

  ghost predicate PairsAgree(cs: bool, g: bool, x: Json, y: Json) {
    ToldApart(cs, g, x, y) && Agrees(cs, false, Left(g, x, y), Left(g, y, x))
  }

  lemma SortedByStrcmp(cs: bool, g: bool, ms: seq<Member>)
    requires WellFormedMembers(cs, ms) && SameOrder(cs, g, ms)
    ensures StrictlyOrdered(true, SortMembers(g, ms), MemberKey)
  {
    var r := SortMembers(g, ms);
    SortOrdered(g, ms, MemberKey);
    SortKeeps(cs, g, ms);
    forall i, j | 0 <= i < j < |r| ensures Less(true, MemberKey(r[i]), MemberKey(r[j])) {
      assert r[i] in ms && r[j] in ms;
      var a :| 0 <= a < |ms| && ms[a] == r[i];
      var b :| 0 <= b < |ms| && ms[b] == r[j];
      assert KeysAgree(cs, g, ms[a].key, ms[b].key) && KeysAgree(cs, g, ms[b].key, ms[a].key);
      assert Compare(g, MemberKey(r[i]), MemberKey(r[j])) <= 0;
      CompareFlip(g, r[i].key, r[j].key);
      CompareFlip(true, r[i].key, r[j].key);
      CompareZero(true, r[i].key, r[j].key);
      DistinctFolds(cs, r, i, j);
    }
  }

  lemma LesserIsMissing(cs: bool, a: string, ms: seq<Member>)
    requires StrictlyOrdered(true, ms, MemberKey) && (ms != [] ==> Less(true, a, ms[0].key))
    requires forall i :: 0 <= i < |ms| ==> Compare(cs, a, ms[i].key) == 0 ==> a == ms[i].key
    ensures Find(cs, ms, a).None?
  {
    var f := Find(cs, ms, a);
    if f.Some? {
      if f.value > 0 {
        assert Less(true, MemberKey(ms[0]), MemberKey(ms[f.value]));
        LessTrans(true, a, ms[0].key, ms[f.value].key);
      }
      CompareZero(true, a, a);
    }
  }

  lemma {:induction false} OrderedWalkAgrees(cs: bool, xs: seq<Member>, ys: seq<Member>, g: bool, h: nat)
    requires Bounded(xs, h) && StrictlyOrdered(true, xs, MemberKey) && StrictlyOrdered(true, ys, MemberKey)
    requires SpelledAlike(cs, xs, ys) && MembersAgree(cs, xs, ys, g)
    ensures WalkAgrees(cs, xs, ys, g, h)
    decreases |xs| + |ys|
  {
    hide CompareJson, Agrees, WalkAgrees, StrictlyOrdered, MembersAgree, SpelledAlike, Compare;
    AgreesUnfold(cs, xs, ys, g, h);
    if xs != [] || ys != [] {
      var diff := KeyOrder(xs, ys);
      var xs', ys' := if diff <= 0 then xs[1..] else xs, if diff >= 0 then ys[1..] else ys;
      OrderedHeads(cs, xs, ys, g);
      OrderedTails(xs);
      OrderedTails(ys);
      TailsAgree(cs, xs, ys, xs', ys', g);
      OrderedWalkAgrees(cs, xs', ys', g, h);
    }
  }

  lemma AgreesUnfold(cs: bool, xs: seq<Member>, ys: seq<Member>, g: bool, h: nat)
    requires Bounded(xs, h)
    ensures
      var diff := KeyOrder(xs, ys);
      WalkAgrees(cs, xs, ys, g, h) <==> ((xs != [] || ys != []) ==>
        && (diff < 0 ==> Find(cs, ys, xs[0].key).None?)
        && (diff > 0 ==> Find(cs, xs, ys[0].key).None?)
        && (diff == 0 ==> PairAgrees(cs, xs[0], ys[0], g, h))
        && WalkAgrees(cs, if diff <= 0 then xs[1..] else xs, if diff >= 0 then ys[1..] else ys, g, h))
  {
    hide PairAgrees;
  }

  ghost predicate SpelledAlike(cs: bool, xs: seq<Member>, ys: seq<Member>) {
    forall x, y :: x in xs && y in ys && Compare(cs, x.key, y.key) == 0 ==> x.key == y.key
  }

  lemma TailsAgree(cs: bool, xs: seq<Member>, ys: seq<Member>, xs': seq<Member>, ys': seq<Member>, g: bool)
    requires SpelledAlike(cs, xs, ys) && MembersAgree(cs, xs, ys, g)
    requires (forall x :: x in xs' ==> x in xs) && (forall y :: y in ys' ==> y in ys)
    ensures SpelledAlike(cs, xs', ys') && MembersAgree(cs, xs', ys', g)
  {
    hide CompareJson, Agrees, Compare;
  }

  lemma OrderedHeads(cs: bool, xs: seq<Member>, ys: seq<Member>, g: bool)
    requires StrictlyOrdered(true, xs, MemberKey) && StrictlyOrdered(true, ys, MemberKey) && (xs != [] || ys != [])
    requires SpelledAlike(cs, xs, ys) && MembersAgree(cs, xs, ys, g)
    ensures
      var diff := KeyOrder(xs, ys);
      && (diff < 0 ==> Find(cs, ys, xs[0].key).None?)
      && (diff > 0 ==> Find(cs, xs, ys[0].key).None?)
      && (diff == 0 ==> PairsAgree(cs, g, xs[0].value, ys[0].value))
  {
    hide CompareJson, Agrees, StrictlyOrdered, MembersAgree;
    var diff := KeyOrder(xs, ys);
    if diff < 0 {
      forall i | 0 <= i < |ys| ensures Compare(cs, xs[0].key, ys[i].key) == 0 ==> xs[0].key == ys[i].key {
        assert xs[0] in xs && ys[i] in ys;
      }
      LesserIsMissing(cs, xs[0].key, ys);
    } else if diff > 0 {
      if xs != [] { CompareFlip(true, xs[0].key, ys[0].key); }
      forall i | 0 <= i < |xs| ensures Compare(cs, ys[0].key, xs[i].key) == 0 ==> ys[0].key == xs[i].key {
        SameKey(cs, ys[0].key, xs[i].key);
        assert xs[i] in xs && ys[0] in ys;
      }
      LesserIsMissing(cs, ys[0].key, xs);
    } else {
      HeadsAgree(cs, xs, ys, g);
    }
  }

  lemma HeadsAgree(cs: bool, xs: seq<Member>, ys: seq<Member>, g: bool)
    requires xs != [] && ys != [] && KeyOrder(xs, ys) == 0 && MembersAgree(cs, xs, ys, g)
    ensures PairsAgree(cs, g, xs[0].value, ys[0].value)
  {
    hide CompareJson, Agrees;
    CompareZero(true, xs[0].key, ys[0].key);
    CompareZero(cs, xs[0].key, ys[0].key);
    assert xs[0] in xs && ys[0] in ys;
  }

  lemma OrderedTails(ms: seq<Member>)
    requires StrictlyOrdered(true, ms, MemberKey)
    ensures ms != [] ==> StrictlyOrdered(true, ms[1..], MemberKey) && forall m :: m in ms[1..] ==> m in ms
  {
    if ms != [] {
      var r := ms[1..];
      forall i, j | 0 <= i < j < |r| ensures Less(true, MemberKey(r[i]), MemberKey(r[j])) {
        assert Less(true, MemberKey(ms[i + 1]), MemberKey(ms[j + 1]));
      }
    }
  }

  lemma OrdersAgree(cs: bool, g: bool, from: Json, to: Json)
    requires from.Object? && to.Object? && WellFormed(cs, from) && WellFormed(cs, to)
    requires SameOrder(cs, g, from.members + to.members) && MembersAgree(cs, from.members, to.members, g)
    ensures Agrees(cs, g, from, to)
  {
    hide CompareJson, WalkAgrees, SortMembers, SpelledAlike, MembersAgree, SameOrder, StrictlyOrdered;
    var ms, ns := from.members, to.members;
    var xs, ys := SortMembers(g, ms), SortMembers(g, ns);
    OrderOfParts(cs, g, ms, ns);
    SortedByStrcmp(cs, g, ms);
    SortedByStrcmp(cs, g, ns);
    SortedBounded(g, from);
    AlikeAll(cs, g, ms, ns);
    TailsAgree(cs, ms, ns, xs, ys, g);
    OrderedWalkAgrees(cs, xs, ys, g, Height(from));
  }

  lemma AlikeAll(cs: bool, g: bool, ms: seq<Member>, ns: seq<Member>)
    requires SameOrder(cs, g, ms + ns)
    ensures SpelledAlike(cs, ms, ns)
  {
    var all := ms + ns;
    forall x, y | x in ms && y in ns && Compare(cs, x.key, y.key) == 0 ensures x.key == y.key {
      var i :| 0 <= i < |ms| && ms[i] == x;
      var j :| 0 <= j < |ns| && ns[j] == y;
      assert KeysAgree(cs, g, all[i].key, all[|ms| + j].key);
    }
  }

  lemma OrderOfParts(cs: bool, g: bool, ms: seq<Member>, ns: seq<Member>)
    requires SameOrder(cs, g, ms + ns)
    ensures SameOrder(cs, g, ms) && SameOrder(cs, g, ns)
  {
    hide KeysAgree;
    var all := ms + ns;
    forall i, j | 0 <= i < |ms| && 0 <= j < |ms| ensures KeysAgree(cs, g, ms[i].key, ms[j].key) {
      assert KeysAgree(cs, g, all[i].key, all[j].key);
    }
    forall i, j | 0 <= i < |ns| && 0 <= j < |ns| ensures KeysAgree(cs, g, ns[i].key, ns[j].key) {
      assert KeysAgree(cs, g, all[|ms| + i].key, all[|ms| + j].key);
    }
  }

  /** Case-sensitive objects agree whatever their keys, if no member of both is an object in both. */
  lemma FlatAgrees(from: Json, to: Json)
    requires WellFormed(true, from) && WellFormed(true, to) && from.Object? && to.Object?
    requires forall x, y :: x in from.members && y in to.members && x.key == y.key ==>
      !x.value.Object? || !y.value.Object?
    ensures Agrees(true, true, from, to)
  {
    var ms, ns := from.members, to.members;
    var all := ms + ns;
    forall i, j | 0 <= i < |all| && 0 <= j < |all| ensures KeysAgree(true, true, all[i].key, all[j].key) {
      CompareZero(true, all[i].key, all[j].key);
    }
    forall x, y | x in ms && y in ns && Compare(true, x.key, y.key) == 0
      ensures PairsAgree(true, true, x.value, y.value)
    {
      CompareZero(true, x.key, y.key);
      CompareJsonDecides(true, x.value, y.value);
    }
    OrdersAgree(true, true, from, to);
  }

  /** Keys on which sorting with `tolower` and walking with `strcmp` agree. */
  ghost predicate LowerKeys(j: Json) {
    match j
    case Array(items) => forall i :: 0 <= i < |items| ==> LowerKeys(items[i])
    case Object(ms) => LowerMembers(ms)
    case _ => true
  }

  ghost predicate LowerMembers(ms: seq<Member>) {
    forall i :: 0 <= i < |ms| ==> Lower(ms[i].key) && LowerKeys(ms[i].value)
  }

  ghost predicate Lower(key: string) {
    forall i :: 0 <= i < |key| ==> !('A' <= key[i] <= 'Z')
  }

  lemma {:induction false} LowerCompare(cs: bool, a: string, b: string)
    requires Lower(a) && Lower(b)
    ensures Compare(cs, a, b) == Compare(true, a, b)
    ensures FoldString(cs, a) == a
  {
    if a != [] && b != [] {
      LowerCompare(cs, a[1..], b[1..]);
    }
  }

  /** On such trees the two modes mean the same. */
  lemma {:induction false} LowerNorm(cs: bool, j: Json)
    requires LowerKeys(j)
    ensures Norm(cs, j) == Norm(true, j)
    ensures WellFormed(cs, j) == WellFormed(true, j)
    decreases j, 0
  {
    match j {
      case Array(items) =>
        forall i | 0 <= i < |items|
          ensures Norm(cs, items[i]) == Norm(true, items[i]) && WellFormed(cs, items[i]) == WellFormed(true, items[i])
        {
          LowerNorm(cs, items[i]);
        }
        assert NormItems(cs, items) == NormItems(true, items);
      case Object(ms) => LowerNormMembers(cs, ms);
      case _ =>
    }
  }

  lemma {:induction false} LowerNormMembers(cs: bool, ms: seq<Member>)
    requires LowerMembers(ms)
    ensures NormMembers(cs, ms) == NormMembers(true, ms)
    ensures WellFormedMembers(cs, ms) == WellFormedMembers(true, ms)
    decreases ms, 1
  {
    LowerNormAll(cs, ms);
    forall i, j | 0 <= i < j < |ms|
      ensures Compare(cs, MemberKey(ms[i]), MemberKey(ms[j])) == Compare(true, MemberKey(ms[i]), MemberKey(ms[j]))
    {
      LowerCompare(cs, ms[i].key, ms[j].key);
    }
  }

  lemma {:induction false} LowerNormAll(cs: bool, ms: seq<Member>)
    requires LowerMembers(ms)
    ensures NormMembers(cs, ms) == NormMembers(true, ms)
    ensures forall i :: 0 <= i < |ms| ==> WellFormed(cs, ms[i].value) == WellFormed(true, ms[i].value)
    decreases ms, 0
  {
    if ms != [] {
      LowerNorm(cs, ms[0].value);
      LowerCompare(cs, ms[0].key, ms[0].key);
      LowerNormAll(cs, ms[1..]);
      forall i | 0 <= i < |ms| ensures WellFormed(cs, ms[i].value) == WellFormed(true, ms[i].value) {
        if i > 0 { assert ms[i] == ms[1..][i - 1]; }
      }
    }
  }

  lemma {:induction false} LowerLeft(g: bool, a: Json, b: Json)
    requires LowerKeys(a)
    ensures LowerKeys(Left(g, a, b))
    decreases a, 1, 0
  {
    if Tag(a) == Tag(b) {
      match a {
        case Array(xs) => LowerLeftItems(g, xs, b.items, a);
        case Object(ms) =>
          SortedBelow(g, a);
          var xs := SortMembers(g, ms);
          forall i | 0 <= i < |xs| ensures Lower(xs[i].key) && LowerKeys(xs[i].value) { assert xs[i] in ms; }
          LowerLeftMembers(g, xs, SortMembers(g, b.members), a);
        case _ =>
      }
    }
  }

  lemma {:induction false} LowerLeftItems(g: bool, xs: seq<Json>, ys: seq<Json>, parent: Json)
    requires forall i :: 0 <= i < |xs| ==> xs[i] < parent && LowerKeys(xs[i])
    ensures forall i :: 0 <= i < |xs| ==> LowerKeys(LeftItems(g, xs, ys, parent)[i])
    decreases parent, 0, |xs|
  {
    hide Left, CompareJson, LowerKeys;
    if xs != [] && ys != [] {
      LowerLeft(g, xs[0], ys[0]);
      LowerLeftItems(g, xs[1..], ys[1..], parent);
      assert forall i :: 1 <= i < |xs| ==> xs[i] == xs[1..][i - 1];
    }
  }

  lemma {:induction false} LowerLeftMembers(g: bool, xs: seq<Member>, ys: seq<Member>, parent: Json)
    requires Below(xs, parent) && LowerMembers(xs)
    ensures LowerMembers(LeftMembers(g, xs, ys, parent))
    decreases parent, 0, |xs|
  {
    hide Left, CompareJson, LowerKeys, Lower, Compare;
    if xs != [] && ys != [] {
      LowerLeft(g, xs[0].value, ys[0].value);
      LowerLeftMembers(g, xs[1..], ys[1..], parent);
      assert forall i :: 1 <= i < |xs| ==> xs[i] == xs[1..][i - 1];
    }
  }

  /** So do objects whose keys hold no upper-case letter, in both modes and whatever their members. */
  lemma {:induction false} LowerAgrees(cs: bool, g: bool, from: Json, to: Json)
    requires WellFormed(true, from) && LowerKeys(from)
    requires WellFormed(true, to) && LowerKeys(to)
    ensures Agrees(cs, g, from, to)
    decreases Height(from)
  {
    LowerNorm(cs, from);
    LowerNorm(cs, to);
    if from.Object? && to.Object? {
      var ms, ns := from.members, to.members;
      var all := ms + ns;
      forall i, j | 0 <= i < |all| && 0 <= j < |all| ensures KeysAgree(cs, g, all[i].key, all[j].key) {
        LowerCompare(g, all[i].key, all[j].key);
        LowerCompare(cs, all[i].key, all[j].key);
        CompareZero(true, all[i].key, all[j].key);
      }
      forall x, y | x in ms && y in ns && Compare(cs, x.key, y.key) == 0
        ensures PairsAgree(cs, g, x.value, y.value)
      {
        LowerPair(cs, g, x.value, y.value);
        LeftKeeps(true, g, x.value, y.value);
        LeftKeeps(true, g, y.value, x.value);
        LowerLeft(g, x.value, y.value);
        LowerLeft(g, y.value, x.value);
        LeftHeight(g, x.value, y.value);
        LowerAgrees(cs, false, Left(g, x.value, y.value), Left(g, y.value, x.value));
      }
      OrdersAgree(cs, g, from, to);
    }
  }

  lemma LowerPair(cs: bool, g: bool, x: Json, y: Json)
    requires WellFormed(true, x) && LowerKeys(x) && WellFormed(true, y) && LowerKeys(y)
    ensures CompareJson(g, x, y) <==> Norm(cs, x) == Norm(cs, y)
  {
    LowerNorm(cs, x);
    LowerNorm(cs, y);
    LowerNorm(g, x);
    LowerNorm(g, y);
    CompareJsonDecides(g, x, y);
  }

  /** An upper-case key can break it: the walk by `strcmp` does not meet a key the sort by
      `tolower` has put behind a lower-case one, and the patch deletes what it should keep. */
  lemma UpperCaseKeyLost()
    ensures
      var a, b := Member("a", True), Member("B", True);
      var p := Object([b, Member("a", Null), Member("B", Null)]);
      && GenerateMergePatch(false, Object([a, b]), Object([b])) == Some(p)
      && MergePatch(false, Some(Object([a, b])), p) == Object([])
  {
    UpperCasePatch();
    UpperCaseMerge();
  }

  lemma UpperCasePatch()
    ensures
      var a, b := Member("a", True), Member("B", True);
      GenerateMergePatch(false, Object([a, b]), Object([b])) == Some(Object([b, Member("a", Null), Member("B", Null)]))
  {
    var a, b := Member("a", True), Member("B", True);
    var from := Object([a, b]);
    assert Less(false, "a", "B") && Climbs(false, [a, b], MemberKey);
    assert SortMembers(false, [a, b]) == [a, b] && SortMembers(false, [b]) == [b];
    SortedBounded(false, from);
    var h := Height(from);
    assert Compare(true, "a", "B") > 0;
    assert [a, b][1..] == [b] && [b][1..] == [];
    assert PatchMembers(false, [b], [], h) == [Member("B", Null)];
    assert PatchMembers(false, [a, b], [], h) == [Member("a", Null), Member("B", Null)];
    assert PatchMembers(false, [a, b], [b], h) == [b, Member("a", Null), Member("B", Null)];
  }

  lemma UpperCaseMerge()
    ensures
      var a, b := Member("a", True), Member("B", True);
      MergePatch(false, Some(Object([a, b])), Object([b, Member("a", Null), Member("B", Null)])) == Object([])
  {
    var a, b := Member("a", True), Member("B", True);
    var p1, p2 := Member("a", Null), Member("B", Null);
    CompareZero(false, "a", "a");
    CompareZero(false, "B", "B");
    assert Compare(false, "B", "a") != 0 && Compare(false, "a", "B") != 0;
    assert Find(false, [a, b], "B") == Some(1) && RemoveAt([a, b], 1) == [a];
    assert Find(false, [a, b], "a") == Some(0) && RemoveAt([a, b], 0) == [b];
    assert Find(false, [b], "B") == Some(0) && RemoveAt([b], 0) == [];
    assert [b, p1, p2][1..] == [p1, p2] && [p1, p2][1..] == [p2] && [p2][1..] == [];
    assert MergeMembers(false, [b], [p2]) == [];
    assert MergeMembers(false, [a, b], [p1, p2]) == [];
    assert [a] + [b] == [a, b];
    assert MergeMembers(false, [a, b], [b, p1, p2]) == [];
  }

  // ---------------------------------------------------------------------------
  // Two keys below the top that differ only in case

  const LowerA: Member := Member("a", Number(1))
  const UpperA: Member := Member("A", Number(2))

  /** The test for equality sorts the two objects first; the sort that ignores case then turns the
      two keys around, and the patch deletes the member it ought to keep. */
  lemma NestedTwinLost()
    ensures
      var inner := Object([UpperA, Member("a", Null), Member("A", Null)]);
      var from, to := Object([Member("k", Object([LowerA, UpperA]))]), Object([Member("k", Object([UpperA]))]);
      && GenerateMergePatch(true, from, to) == Some(Object([Member("k", inner)]))
      && MergePatch(true, Some(from), Object([Member("k", inner)])) == Object([Member("k", Object([]))])
  {
    hide GenerateMergePatch, PatchMembers, MergePatch, NestedPatch, CompareJson;
    TwinsCompared();
    TwinsNested();
    TwinsMerged();
    OnlyMember("k", Object([LowerA, UpperA]), Object([UpperA]));
    OnlyMerged("k", Object([LowerA, UpperA]), Object([UpperA, Member("a", Null), Member("A", Null)]));
  }

  lemma TwinOrder()
    ensures Compare(true, "a", "A") > 0 && Compare(true, "A", "a") < 0
    ensures Compare(false, "a", "A") == 0 && Compare(false, "A", "a") == 0
    ensures Compare(true, "a", "a") == 0 && Compare(true, "A", "A") == 0 && Compare(true, "k", "k") == 0
    ensures SortMembers(true, [LowerA, UpperA]) == [UpperA, LowerA]
      && SortMembers(false, [UpperA, LowerA]) == [LowerA, UpperA]
    ensures forall cs :: SortMembers(cs, [UpperA]) == [UpperA]
  {
    var a, b := [LowerA, UpperA], [UpperA, LowerA];
    CompareZero(true, "a", "a");
    CompareZero(true, "A", "A");
    CompareZero(true, "k", "k");
    assert !Climbs(true, a, MemberKey) by { assert !Less(true, MemberKey(a[0]), MemberKey(a[0 + 1])); }
    assert !Climbs(false, b, MemberKey) by { assert !Less(false, MemberKey(b[0]), MemberKey(b[0 + 1])); }
    assert a[..1] == [LowerA] && a[1..] == [UpperA] && b[..1] == [UpperA] && b[1..] == [LowerA];
    assert [LowerA][1..] == [] && [UpperA][1..] == [];
    assert Sort.Merge(true, [LowerA], [], MemberKey) == [LowerA]
      && Sort.Merge(false, [UpperA], [], MemberKey) == [UpperA];
    assert SortList(true, [LowerA], MemberKey) == [LowerA] && SortList(true, [UpperA], MemberKey) == [UpperA];
    assert SortList(false, [LowerA], MemberKey) == [LowerA] && SortList(false, [UpperA], MemberKey) == [UpperA];
    assert Sort.Merge(true, [LowerA], [UpperA], MemberKey) == [UpperA, LowerA];
    assert Sort.Merge(false, [UpperA], [LowerA], MemberKey) == [LowerA, UpperA];
    assert SortList(true, a, MemberKey) == Sort.Merge(true, [LowerA], [UpperA], MemberKey);
    assert SortList(false, b, MemberKey) == Sort.Merge(false, [UpperA], [LowerA], MemberKey);
  }

  /** What the test finds, and leaves. */
  lemma TwinsCompared()
    ensures
      var x, y := Object([LowerA, UpperA]), Object([UpperA]);
      && !CompareJson(true, x, y)
      && Left(true, x, y) == Object([UpperA, LowerA]) && Left(true, y, x) == y
  {
    hide Compare, SortMembers;
    var x, y := Object([LowerA, UpperA]), Object([UpperA]);
    TwinOrder();
    SortedBelow(true, x);
    SortedBelow(true, y);
    assert [UpperA, LowerA][1..] == [LowerA] && [UpperA][1..] == [];
    assert CompareJson(true, Number(2), Number(2)) && Left(true, Number(2), Number(2)) == Number(2);
    assert LeftMembers(true, [LowerA], [], x) == [LowerA] && LeftMembers(true, [], [LowerA], y) == [];
    assert LeftMembers(true, [UpperA, LowerA], [UpperA], x) == [UpperA] + [LowerA];
    assert LeftMembers(true, [UpperA], [UpperA, LowerA], y) == [UpperA] + [];
    assert !CompareMembers(true, [LowerA], [], x);
    assert !CompareMembers(true, [UpperA, LowerA], [UpperA], x);
  }

  lemma TwinsNested()
    ensures NestedPatch(true, Object([LowerA, UpperA]), Object([UpperA]))
         == Some(Object([UpperA, Member("a", Null), Member("A", Null)]))
  {
    hide Compare, SortMembers, CompareJson, Left;
    TwinOrder();
    TwinsCompared();
    var from := Object([UpperA, LowerA]);
    var h := Height(from);
    SortedBounded(false, from);
    assert [LowerA, UpperA][1..] == [UpperA] && [UpperA][1..] == [];
    assert PatchMembers(false, [UpperA], [], h) == [Member("A", Null)];
    assert PatchMembers(false, [LowerA, UpperA], [], h) == [Member("a", Null), Member("A", Null)];
    assert PatchMembers(false, [LowerA, UpperA], [UpperA], h) == [UpperA, Member("a", Null), Member("A", Null)];
    assert GenerateMergePatch(false, from, Object([UpperA])) ==
      Some(Object([UpperA, Member("a", Null), Member("A", Null)]));
  }

  lemma TwinsMerged()
    ensures MergePatch(true, Some(Object([LowerA, UpperA])), Object([UpperA, Member("a", Null), Member("A", Null)])) ==
      Object([])
  {
    hide Compare;
    TwinOrder();
    var n, m := Member("a", Null), Member("A", Null);
    assert Find(true, [LowerA, UpperA], "A") == Some(1) && RemoveAt([LowerA, UpperA], 1) == [LowerA];
    assert Find(true, [LowerA, UpperA], "a") == Some(0) && RemoveAt([LowerA, UpperA], 0) == [UpperA];
    assert Find(true, [UpperA], "A") == Some(0) && RemoveAt([UpperA], 0) == [];
    assert [UpperA, n, m][1..] == [n, m] && [n, m][1..] == [m] && [m][1..] == [];
    assert MergeMembers(true, [UpperA], [m]) == [];
    assert MergeMembers(true, [LowerA, UpperA], [n, m]) == [];
    assert [LowerA] + [UpperA] == [LowerA, UpperA];
    assert MergeMembers(true, [LowerA, UpperA], [UpperA, n, m]) == [];
  }

  /** An object with one member, and what becomes of it. */
  lemma OnlyMember(key: string, x: Json, y: Json)
    requires !CompareJson(true, x, y) && NestedPatch(true, x, y).Some?
    ensures GenerateMergePatch(true, Object([Member(key, x)]), Object([Member(key, y)]))
         == Some(Object([Member(key, NestedPatch(true, x, y).value)]))
  {
    hide CompareJson, NestedPatch;
    var from, m, n := Object([Member(key, x)]), Member(key, x), Member(key, y);
    CompareZero(true, key, key);
    SortedBounded(true, from);
    assert SortMembers(true, [m]) == [m] && SortMembers(true, [n]) == [n];
    assert [m][1..] == [] && [n][1..] == [];
    assert PatchMembers(true, [], [], Height(from)) == [];
    assert ChangedMember(true, m, n) == [Member(key, NestedPatch(true, x, y).value)];
    assert PatchMembers(true, [m], [n], Height(from)) == ChangedMember(true, m, n) + [];
    assert ChangedMember(true, m, n) + [] == ChangedMember(true, m, n);
  }

  lemma OnlyMerged(key: string, x: Json, p: Json)
    requires !p.Null?
    ensures MergePatch(true, Some(Object([Member(key, x)])), Object([Member(key, p)]))
         == Object([Member(key, MergePatch(true, Some(x), p))])
  {
    var m, q := Member(key, x), Member(key, p);
    CompareZero(true, key, key);
    assert Find(true, [m], key) == Some(0) && RemoveAt([m], 0) == [];
    assert [q][1..] == []
      && [] + [Member(key, MergePatch(true, Some(x), p))] == [Member(key, MergePatch(true, Some(x), p))];
    assert MergeMembers(true, [Member(key, MergePatch(true, Some(x), p))], []) ==
      [Member(key, MergePatch(true, Some(x), p))];
  }
}
