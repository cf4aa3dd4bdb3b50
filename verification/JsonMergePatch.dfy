/** JSON Merge Patch (RFC 7396): `merge_patch` and `generate_merge_patch`. */
module JsonMergePatch {
  import opened Options
  import opened Strings
  import opened Sort
  import opened Json
  import opened JsonEquality

  // ---------------------------------------------------------------------------
  // The RFC's function, on values

  const VNull: Value := VScalar(Null)

  function Fields(v: Option<Value>): map<string, Value> {
    match v
    case Some(VObject(m)) => m
    case _ => map[]
  }

  function Lookup(m: map<string, Value>, k: string): Option<Value> {
    if k in m then Some(m[k]) else None
  }

  /** `MergePatch(Target, Patch)` of section 2 of RFC 7396; a missing target is `None`. */
  function Merge(target: Option<Value>, patch: Value): Value
    decreases patch
  {
    match patch
    case VObject(p) =>
      var t := Fields(target);
      VObject(map k | k in t.Keys + p.Keys && (k in p ==> p[k] != VNull) ::
                if k in p then Merge(Lookup(t, k), p[k]) else t[k])
    case _ => patch
  }

  /** Merging the same patch again changes nothing. */
  lemma {:induction false} MergeIdempotent(target: Option<Value>, patch: Value)
    ensures Merge(Some(Merge(target, patch)), patch) == Merge(target, patch)
    decreases patch
  {
    if patch.VObject? {
      var once := Merge(target, patch).fields;
      forall k | k in patch.fields && patch.fields[k] != VNull
        ensures Merge(Lookup(once, k), patch.fields[k]) == once[k]
      {
        MergeIdempotent(Lookup(Fields(target), k), patch.fields[k]);
      }
    }
  }

  // ---------------------------------------------------------------------------
  // merge_patch

  function DeleteMember(cs: bool, ms: seq<Member>, key: string): seq<Member> {
    match Find(cs, ms, key)
    case None => ms
    case Some(i) => RemoveAt(ms, i)
  }

  function MembersOf(target: Option<Json>): seq<Member> {
    match target
    case Some(Object(ms)) => ms
    case _ => []
  }

  function ValueOf(ms: seq<Member>, i: Option<nat>): Option<Json>
    requires i.Some? ==> i.value < |ms|
  {
    match i
    case None => None
    case Some(k) => Some(ms[k].value)
  }

  /** `merge_patch`; a NULL target is `None`. */
  function MergePatch(cs: bool, target: Option<Json>, patch: Json): Json
    decreases patch, 1
  {
    match patch
    case Object(ps) => Object(MergeMembers(cs, MembersOf(target), ps))
    case _ => patch
  }

  /** Its loop over the members of the patch. */
  function MergeMembers(cs: bool, ts: seq<Member>, ps: seq<Member>): seq<Member>
    decreases ps, 0
  {
    if ps == [] then ts
    else
      var p, ts' := ps[0], DeleteMember(cs, ts, ps[0].key);
      if p.value.Null? then MergeMembers(cs, ts', ps[1..])
      else
        var replace_me := ValueOf(ts, Find(cs, ts, p.key));
        MergeMembers(cs, ts' + [Member(p.key, MergePatch(cs, replace_me, p.value))], ps[1..])
  }

  function NormOption(cs: bool, j: Option<Json>): Option<Value> {
    match j
    case None => None
    case Some(v) => Some(Norm(cs, v))
  }

  lemma DeleteNorm(cs: bool, ts: seq<Member>, key: string)
    requires DistinctKeys(cs, ts)
    ensures DistinctKeys(cs, DeleteMember(cs, ts, key))
    ensures NormMembers(cs, DeleteMember(cs, ts, key)) == NormMembers(cs, ts) - {FoldString(cs, key)}
    ensures NormOption(cs, ValueOf(ts, Find(cs, ts, key))) == Lookup(NormMembers(cs, ts), FoldString(cs, key))
  {
    NormMembersFind(cs, ts, key);
    var f := Find(cs, ts, key);
    if f.Some? {
      SameKey(cs, key, ts[f.value].key);
      NormRemove(cs, ts, f.value);
    }
  }

  /** The fields after the members `ps` of the patch have been merged into `t`. */
  ghost function Merged(t: map<string, Value>, p: map<string, Value>): map<string, Value> {
    Merge(Some(VObject(t)), VObject(p)).fields
  }

  lemma MergedStep(t: map<string, Value>, t': map<string, Value>, p: map<string, Value>, k: string, v: Value)
    requires k !in p
    requires t' == if v == VNull then t - {k} else t[k := Merge(Lookup(t, k), v)]
    ensures Merged(t', p) == Merged(t, p[k := v])
  {
    var a, b := Merged(t', p), Merged(t, p[k := v]);
    assert forall q :: q in p ==> q != k && Lookup(t', q) == Lookup(t, q);
    forall q ensures q in a <==> q in b {}
    forall q | q in a ensures a[q] == b[q] {}
  }

  /** `merge_patch` computes the RFC's function, and keeps the keys of every object that
      was merged into distinct. */
  lemma {:induction false} MergePatchRefines(cs: bool, target: Option<Json>, patch: Json)
    requires target.Some? ==> WellFormed(cs, target.value)
    requires WellFormed(cs, patch)
    ensures Norm(cs, MergePatch(cs, target, patch)) == Merge(NormOption(cs, target), Norm(cs, patch))
    ensures WellFormed(cs, MergePatch(cs, target, patch))
    decreases patch, 1
  {
    if patch.Object? {
      var ts := MembersOf(target);
      MergeMembersRefines(cs, ts, patch.members);
      assert Fields(NormOption(cs, target)) == NormMembers(cs, ts);
    }
  }

  ghost predicate WellFormedMembers(cs: bool, ms: seq<Member>) {
    DistinctKeys(cs, ms) && forall i :: 0 <= i < |ms| ==> WellFormed(cs, ms[i].value)
  }

  lemma {:induction false} MergeMembersRefines(cs: bool, ts: seq<Member>, ps: seq<Member>)
    requires WellFormedMembers(cs, ts) && WellFormedMembers(cs, ps)
    ensures NormMembers(cs, MergeMembers(cs, ts, ps)) == Merged(NormMembers(cs, ts), NormMembers(cs, ps))
    ensures WellFormedMembers(cs, MergeMembers(cs, ts, ps))
    decreases ps, 0
  {
    hide Norm, Merged, WellFormed, MergePatch, DeleteMember;
    if ps == [] {
      NothingToMerge(NormMembers(cs, ts));
    } else {
      var p := ps[0];
      assert RemoveAt(ps, 0) == ps[1..];
      NormRemove(cs, ps, 0);
      var replaced := ValueOf(ts, Find(cs, ts, p.key));
      DeleteNorm(cs, ts, p.key);
      if !p.value.Null? {
        MergePatchRefines(cs, replaced, p.value);
      }
      var ts' := MemberMerged(cs, ts, p, MergePatch(cs, replaced, p.value));
      MergedStep(NormMembers(cs, ts), NormMembers(cs, ts'), NormMembers(cs, ps[1..]),
                 FoldString(cs, p.key), Norm(cs, p.value));
      MergeMembersRefines(cs, ts', ps[1..]);
    }
  }

  lemma NothingToMerge(t: map<string, Value>)
    ensures Merged(t, map[]) == t
  {
  }

  /** What one member of the patch does to the target's members. */
  lemma MemberMerged(cs: bool, ts: seq<Member>, p: Member, merged: Json) returns (r: seq<Member>)
    requires WellFormedMembers(cs, ts)
    requires !p.value.Null? ==> WellFormed(cs, merged)
    requires !p.value.Null? ==>
      Norm(cs, merged) == Merge(Lookup(NormMembers(cs, ts), FoldString(cs, p.key)), Norm(cs, p.value))
    ensures r == if p.value.Null? then DeleteMember(cs, ts, p.key)
      else DeleteMember(cs, ts, p.key) + [Member(p.key, merged)]
    ensures WellFormedMembers(cs, r)
    ensures
      var t, k, v := NormMembers(cs, ts), FoldString(cs, p.key), Norm(cs, p.value);
      NormMembers(cs, r) == if v == VNull then t - {k} else t[k := Merge(Lookup(t, k), v)]
  {
    NotNull(cs, p.value);
    r := MemberDeleted(cs, ts, p.key);
    if !p.value.Null? {
      var m := Member(p.key, merged);
      NormAppend(cs, r, m);
      DropThenSet(NormMembers(cs, ts), FoldString(cs, p.key), Norm(cs, merged));
      r := r + [m];
    }
  }

  lemma MemberDeleted(cs: bool, ts: seq<Member>, key: string) returns (r: seq<Member>)
    requires WellFormedMembers(cs, ts)
    ensures r == DeleteMember(cs, ts, key) && WellFormedMembers(cs, r)
    ensures NormMembers(cs, r) == NormMembers(cs, ts) - {FoldString(cs, key)}
  {
    DeleteNorm(cs, ts, key);
    r := DeleteMember(cs, ts, key);
  }

  lemma DropThenSet(m: map<string, Value>, k: string, v: Value)
    ensures (m - {k})[k := v] == m[k := v]
  {
  }

  lemma NotNull(cs: bool, j: Json)
    ensures Norm(cs, j) == VNull <==> j.Null?
  {
  }

  /** Applying a merge patch twice is applying it once. */
  lemma MergePatchIdempotent(cs: bool, target: Option<Json>, patch: Json)
    requires target.Some? ==> WellFormed(cs, target.value)
    requires WellFormed(cs, patch)
    ensures
      var once := MergePatch(cs, target, patch);
      Norm(cs, MergePatch(cs, Some(once), patch)) == Norm(cs, once)
  {
    var once := MergePatch(cs, target, patch);
    MergePatchRefines(cs, target, patch);
    MergePatchRefines(cs, Some(once), patch);
    MergeIdempotent(NormOption(cs, target), Norm(cs, patch));
  }

  // ---------------------------------------------------------------------------
  // generate_merge_patch

  function KeyOrder(xs: seq<Member>, ys: seq<Member>): int {
    if xs == [] then 1
    else if ys == [] then -1
    else Compare(true, xs[0].key, ys[0].key)
  }

  /** `generate_merge_patch` on two existing values; `None` is the NULL it returns when the
      two objects do not differ.  Members are sorted in mode `cs` but walked with `strcmp`,
      and nested patches are always made in the case-insensitive mode. */
  function GenerateMergePatch(cs: bool, from: Json, to: Json): Option<Json>
    decreases Height(from), 1, 0
  {
    if !to.Object? || !from.Object? then Some(to)
    else
      SortedBounded(cs, from);
      var ps := PatchMembers(cs, SortMembers(cs, from.members), SortMembers(cs, to.members), Height(from));
      if ps == [] then None else Some(Object(ps))
  }

  function PatchMembers(cs: bool, xs: seq<Member>, ys: seq<Member>, ghost h: nat): seq<Member>
    requires Bounded(xs, h)
    decreases h, 0, |xs| + |ys|
  {
    if xs == [] && ys == [] then []
    else
      var diff := KeyOrder(xs, ys);
      if diff < 0 then [Member(xs[0].key, Null)] + PatchMembers(cs, xs[1..], ys, h)
      else if diff > 0 then [ys[0]] + PatchMembers(cs, xs, ys[1..], h)
      else ChangedMember(cs, xs[0], ys[0]) + PatchMembers(cs, xs[1..], ys[1..], h)
  }

  /** A key both objects have. */
  function ChangedMember(cs: bool, x: Member, y: Member): seq<Member>
    decreases Height(x.value), 3, 0
  {
    if CompareJson(cs, x.value, y.value) then []
    else match NestedPatch(cs, x.value, y.value)
      case None => []
      case Some(p) => [Member(y.key, p)]
  }

  /** The patch below a member is made from what the test has left, sorted in the outer mode. */
  function NestedPatch(cs: bool, x: Json, y: Json): Option<Json>
    decreases Height(x), 2, 0
  {
    LeftHeight(cs, x, y);
    GenerateMergePatch(false, Left(cs, x, y), Left(cs, y, x))
  }

  /** The same with the loop of the C code. */
  method GenerateLoop(cs: bool, from: Json, to: Json) returns (patch: Option<Json>)
    ensures patch == GenerateMergePatch(cs, from, to)
    decreases Height(from), 1
  {
    if !to.Object? || !from.Object? {
      return Some(to);
    }
    SortedBounded(cs, from);
    var ps := GenerateWalk(cs, SortMembers(cs, from.members), SortMembers(cs, to.members), Height(from));
    patch := if ps == [] then None else Some(Object(ps));
  }

  method GenerateWalk(cs: bool, from: seq<Member>, to: seq<Member>, ghost h: nat) returns (ps: seq<Member>)
    requires Bounded(from, h)
    ensures ps == PatchMembers(cs, from, to, h)
    decreases h, 0
  {
    hide Left, CompareJson;
    var xs, ys := from, to;
    ps := [];
    while xs != [] || ys != []
      invariant Bounded(xs, h)
      invariant PatchMembers(cs, from, to, h) == ps + PatchMembers(cs, xs, ys, h)
      decreases |xs| + |ys|
    {
      var diff := KeyOrder(xs, ys);
      var added;
      if diff < 0 {
        added := [Member(xs[0].key, Null)];
        xs := xs[1..];
      } else if diff > 0 {
        added := [ys[0]];
        ys := ys[1..];
      } else {
        added := [];
        var identical, x, y := CompareTrees(cs, xs[0].value, ys[0].value);
        if !identical {
          LeftHeight(cs, xs[0].value, ys[0].value);
          var nested := GenerateLoop(false, x, y);
          assert nested == NestedPatch(cs, xs[0].value, ys[0].value);
          added := if nested.Some? then [Member(ys[0].key, nested.value)] else [];
        }
        assert added == ChangedMember(cs, xs[0], ys[0]);
        xs, ys := xs[1..], ys[1..];
      }
      Associative(ps, added, PatchMembers(cs, xs, ys, h));
      ps := ps + added;
    }
  }

  // ---------------------------------------------------------------------------
  // The same on values

  /** The patch from `f` to `t`: what differs, with null for what goes away. */
  function PatchFor(f: Value, t: Value): Value
    decreases t
  {
    if f.VObject? && t.VObject? then
      VObject(map k | k in f.fields.Keys + t.fields.Keys && Lookup(f.fields, k) != Lookup(t.fields, k) ::
                if k !in t.fields then VNull
                else if k !in f.fields then t.fields[k]
                else PatchFor(f.fields[k], t.fields[k]))
    else t
  }

  /** A merge patch cannot carry a null: every null-valued member of the target must be in
      the source already.  `f` is what the source has in the target's place. */
  predicate NullsKept(f: Option<Value>, t: Value)
    decreases t
  {
    t.VObject? ==> forall k | k in t.fields ::
      if t.fields[k] == VNull then Lookup(Fields(f), k) == Some(VNull)
      else NullsKept(Lookup(Fields(f), k), t.fields[k])
  }

  lemma {:induction false} NullsKeptSelf(v: Value)
    ensures NullsKept(Some(v), v)
    decreases v
  {
    if v.VObject? {
      forall k | k in v.fields && v.fields[k] != VNull ensures NullsKept(Lookup(Fields(Some(v)), k), v.fields[k]) {
        NullsKeptSelf(v.fields[k]);
      }
    }
  }

  /** A target merged into nothing comes out whole exactly when it holds no null. */
  lemma {:induction false} MergeWhole(f: Option<Value>, t: Value)
    requires Fields(f) == map[]
    ensures Merge(f, t) == t <==> NullsKept(f, t)
    decreases t
  {
    if t.VObject? {
      var r := Merge(f, t).fields;
      forall k | k in t.fields && t.fields[k] != VNull
        ensures k in r && (r[k] == t.fields[k] <==> NullsKept(Lookup(Fields(f), k), t.fields[k]))
      {
        MergeWhole(None, t.fields[k]);
      }
      if NullsKept(f, t) {
        assert r == t.fields;
      } else {
        var k :| k in t.fields && !(if t.fields[k] == VNull then Lookup(Fields(f), k) == Some(VNull)
                                    else NullsKept(Lookup(Fields(f), k), t.fields[k]));
        assert Lookup(r, k) != Lookup(t.fields, k);
      }
    }
  }

  /** A field of the target the patched object gets right. */
  ghost predicate FieldKept(f: map<string, Value>, t: map<string, Value>, k: string) {
    k in t ==> if t[k] == VNull then Lookup(f, k) == Some(VNull) else NullsKept(Lookup(f, k), t[k])
  }

  lemma {:induction false} MergedField(f: Value, t: Value, k: string)
    requires f.VObject? && t.VObject?
    ensures
      Lookup(Merged(f.fields, PatchFor(f, t).fields), k) == Lookup(t.fields, k) <==> FieldKept(f.fields, t.fields, k)
    decreases t, 0
  {
    var p, m, n := PatchFor(f, t).fields, f.fields, t.fields;
    if Lookup(m, k) == Lookup(n, k) {
      assert k !in p;
      if k in n { NullsKeptSelf(n[k]); }
    } else if k !in n {
    } else if k !in m {
      MergeWhole(None, n[k]);
    } else {
      PatchForWorks(m[k], n[k]);
    }
  }

  /** Merging the patch into its source gives the target exactly when no null is lost. */
  lemma {:induction false} PatchForWorks(f: Value, t: Value)
    ensures Merge(Some(f), PatchFor(f, t)) == t <==> NullsKept(Some(f), t)
    decreases t, 1
  {
    if f.VObject? && t.VObject? {
      var r := Merged(f.fields, PatchFor(f, t).fields);
      assert Merge(Some(f), PatchFor(f, t)) == VObject(r);
      forall k ensures Lookup(r, k) == Lookup(t.fields, k) <==> FieldKept(f.fields, t.fields, k) {
        MergedField(f, t, k);
      }
      SameLookups(r, t.fields);
      KeptByField(f, t);
    } else if t.VObject? {
      MergeWhole(Some(f), t);
    }
  }

  lemma KeptByField(f: Value, t: Value)
    requires f.VObject? && t.VObject?
    ensures NullsKept(Some(f), t) <==> forall k :: FieldKept(f.fields, t.fields, k)
  {
    if forall k :: FieldKept(f.fields, t.fields, k) {
      forall k | k in t.fields
        ensures if t.fields[k] == VNull then Lookup(f.fields, k) == Some(VNull)
                else NullsKept(Lookup(f.fields, k), t.fields[k])
      {
        assert FieldKept(f.fields, t.fields, k);
      }
    }
  }

  lemma SameLookups(m: map<string, Value>, n: map<string, Value>)
    ensures m == n <==> forall k :: Lookup(m, k) == Lookup(n, k)
  {
    if forall k :: Lookup(m, k) == Lookup(n, k) {
      assert forall k :: k in m <==> Lookup(m, k).Some?;
      assert forall k :: k in n <==> Lookup(n, k).Some?;
      assert forall k :: k in m ==> Lookup(m, k) == Some(m[k]);
    }
  }
}
