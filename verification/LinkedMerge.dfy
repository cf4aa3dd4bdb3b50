/** `merge_patch` on trees as they stand in memory. */
module LinkedMerge {
  import opened Options
  import opened Strings
  import opened Sort
  import opened Json
  import opened JsonEquality
  import opened JsonMergePatch
  import opened GeneratedMergePatch
  import opened ChildList
  import opened Touches
  import opened LinkedJson
  import opened LinkedFields
  import opened LinkedTidy
  import opened LinkedCreate

  // ---------------------------------------------------------------------------
  // merge_patch

  /** The members merged into; a target that is no object makes way for an empty one. */
  function FieldsOf(target: Option<Tree>): List<Field> {
    if target.Some? && target.value.ObjectNode? then FieldList(target.value) else List([], Unset)
  }

  function TakeOut(cs: bool, l: List<Field>, key: string): Option<List<Field>> {
    match Find(cs, EraseFields(l.items), key)
    case None => Some(l)
    case Some(i) => Detach(l, i)
  }

  /** What a merge leaves: nothing when a list has been damaged, a tree that children have been lost
      from, or one with every list whole. */
  datatype Result<T> = Broken | Lossy(v: T) | Intact(v: T)

  function WithLoss<T>(r: Result<T>): Result<T> {
    match r
    case Intact(v) => Lossy(v)
    case other => other
  }

  /** `merge_patch`; a NULL target is `None`. */
  function MergeLinked(cs: bool, target: Option<Tree>, patch: Json): Result<Tree>
    decreases patch, 1
  {
    match patch
    case Object(ps) =>
      (match MergeFields(cs, FieldsOf(target), ps)
       case Broken => Broken
       case Lossy(l) => Lossy(ObjectOf(l))
       case Intact(l) => Intact(ObjectOf(l)))
    case _ => Intact(Fresh(patch))
  }

  /** Its loop over the members of the patch. */
  function MergeFields(cs: bool, l: List<Field>, ps: seq<Member>): Result<List<Field>>
    decreases ps, 0
  {
    if ps == [] then Intact(l)
    else
      var p, rest := ps[0], TakeOut(cs, l, ps[0].key);
      if rest.None? then Broken
      else if p.value.Null? then MergeFields(cs, rest.value, ps[1..])
      else
        var replacement := MergeLinked(cs, TreeAt(cs, l.items, p.key), p.value);
        if replacement.Broken? then Broken
        else
          var g := Grow(rest.value, Field(p.key, replacement.v));
          if g.Ruined? then Broken
          else
            var r := MergeFields(cs, g.l, ps[1..]);
            if replacement.Lossy? || g.Short? then WithLoss(r) else r
  }

  /** The same with the loop of the C code, which does not know what it has lost. */
  method MergePatchLoop(cs: bool, target: Option<Tree>, patch: Json) returns (result: Option<Tree>, ghost lost: bool)
    ensures
      match MergeLinked(cs, target, patch)
      case Broken => result.None?
      case Lossy(t) => result == Some(t) && lost
      case Intact(t) => result == Some(t) && !lost
    decreases patch
  {
    lost := false;
    if !patch.Object? {
      result := Some(Fresh(patch));
      return;
    }
    var l, ps := FieldsOf(target), patch.members;
    while ps != []
      invariant forall i :: 0 <= i < |ps| ==> ps[i].value < patch
      invariant MergeFields(cs, FieldsOf(target), patch.members) ==
        if lost then WithLoss(MergeFields(cs, l, ps)) else MergeFields(cs, l, ps)
      decreases |ps|
    {
      var replace_me := TreeAt(cs, l.items, ps[0].key);
      var rest := TakeOut(cs, l, ps[0].key);
      if rest.None? {
        result := None;
        return;
      }
      l := rest.value;
      if !ps[0].value.Null? {
        var replacement;
        ghost var below;
        replacement, below := MergePatchLoop(cs, replace_me, ps[0].value);
        if replacement.None? {
          result := None;
          return;
        }
        var grown := Grow(l, Field(ps[0].key, replacement.value));
        if grown.Ruined? {
          result := None;
          return;
        }
        l, lost := grown.l, lost || below || grown.Short?;
      }
      ps := ps[1..];
    }
    result := Some(ObjectOf(l));
  }

  function EraseOption(t: Option<Tree>): Option<Json> {
    match t
    case None => None
    case Some(v) => Some(Erase(v))
  }

  lemma TakenErased(cs: bool, l: List<Field>, key: string)
    ensures TakeOut(cs, l, key).Some? ==>
      EraseFields(TakeOut(cs, l, key).value.items) == DeleteMember(cs, EraseFields(l.items), key)
    ensures EraseOption(TreeAt(cs, l.items, key)) == ValueOf(EraseFields(l.items), Find(cs, EraseFields(l.items), key))
  {
    hide Detach;
    var f := Find(cs, EraseFields(l.items), key);
    if f.Some? {
      DetachedItems(l, f.value);
      EraseRemoved(l.items, f.value);
    }
  }

  /** A merge that leaves every list whole leaves the value `merge_patch` on values leaves. */
  lemma {:induction false} MergeErased(cs: bool, target: Option<Tree>, patch: Json)
    ensures
      var r := MergeLinked(cs, target, patch);
      r.Intact? ==> Erase(r.v) == MergePatch(cs, EraseOption(target), patch)
    decreases patch, 1
  {
    if patch.Object? {
      MergeFieldsErased(cs, FieldsOf(target), patch.members);
      assert EraseFields([]) == [];
    } else {
      EraseFresh(patch);
    }
  }

  lemma {:induction false} MergeFieldsErased(cs: bool, l: List<Field>, ps: seq<Member>)
    ensures
      var r := MergeFields(cs, l, ps);
      r.Intact? ==> EraseFields(r.v.items) == MergeMembers(cs, EraseFields(l.items), ps)
    decreases ps, 0
  {
    hide TakeOut, Append, DeleteMember, TreeAt, ValueOf, MergePatch, MergeLinked;
    if ps != [] {
      var p, rest := ps[0], TakeOut(cs, l, ps[0].key);
      TakenErased(cs, l, p.key);
      if rest.Some? {
        if p.value.Null? {
          MergeFieldsErased(cs, rest.value, ps[1..]);
        } else {
          var replacement := MergeLinked(cs, TreeAt(cs, l.items, p.key), p.value);
          MergeErased(cs, TreeAt(cs, l.items, p.key), p.value);
          if replacement.Intact? {
            var m := Field(p.key, replacement.v);
            AppendKeys(cs, rest.value, m);
            if Append(rest.value, m).Some? { MergeFieldsErased(cs, Append(rest.value, m).value, ps[1..]); }
          }
        }
      }
    }
  }

  // ---------------------------------------------------------------------------
  // When no list is damaged

  /** What the members of a patch do to the list of the object they are merged into. */
  function MergeTouches(cs: bool, ps: seq<Member>): (r: seq<Touch>)
    ensures |r| == |ps| && forall i :: 0 <= i < |ps| ==> r[i] == Touch(FoldString(cs, ps[i].key), !ps[i].value.Null?)
  {
    seq(|ps|, i requires 0 <= i < |ps| => Touch(FoldString(cs, ps[i].key), !ps[i].value.Null?))
  }

  /** The changes leave the list whole, and so it is below every member the patch sets. */
  ghost predicate Mergeable(cs: bool, target: Option<Tree>, patch: Json)
    decreases patch, 1
  {
    patch.Object? ==>
      && TouchAll(KeyList(cs, FieldsOf(target)), MergeTouches(cs, patch.members)).Some?
      && BelowMergeable(cs, FieldsOf(target).items, patch.members)
  }

  ghost predicate BelowMergeable(cs: bool, fs: seq<Field>, ps: seq<Member>)
    decreases ps, 0
  {
    forall i :: 0 <= i < |ps| && !ps[i].value.Null? ==>
      Mergeable(cs, TreeBehind(cs, fs, ps[..i], ps[i].key), ps[i].value)
  }

  /** What the object has under a key behind the members `ps` of a patch, which may name the key
      before: what has been deleted or set there last. */
  function TreeBehind(cs: bool, fs: seq<Field>, ps: seq<Member>, key: string): Option<Tree> {
    if ps == [] then TreeAt(cs, fs, key)
    else
      var n := |ps| - 1;
      var before := TreeBehind(cs, fs, ps[..n], key);
      if FoldString(cs, ps[n].key) != FoldString(cs, key) then before
      else if ps[n].value.Null? then None
      else TreeOf(MergeLinked(cs, before, ps[n].value))
  }

  function TreeOf(r: Result<Tree>): Option<Tree> {
    if r.Broken? then None else Some(r.v)
  }

  /** No object of the tree that can be merged into has a key twice. */
  ghost predicate KeysApart(cs: bool, t: Tree) {
    match t
    case ObjectNode(fs, _) => FieldsApart(cs, fs)
    case _ => true
  }

  ghost predicate FieldsApart(cs: bool, fs: seq<Field>) {
    DistinctKeys(cs, EraseFields(fs)) && forall i :: 0 <= i < |fs| ==> KeysApart(cs, fs[i].tree)
  }

  lemma TakeOutTouch(cs: bool, l: List<Field>, key: string, ps: seq<Member>)
    requires OtherKeys(cs, key, ps)
    ensures
      var r := TakeOut(cs, l, key);
      && TouchOne(KeyList(cs, l), Touch(FoldString(cs, key), false)) ==
        (if r.Some? then Some(KeyList(cs, r.value)) else None)
      && (r.Some? ==> SameTrees(cs, l.items, r.value.items, ps))
  {
    hide Detach, SameTrees, Find;
    KeyIndexIsFind(cs, l.items, key);
    var f := Find(cs, EraseFields(l.items), key);
    if f.Some? {
      DetachKeys(cs, l, f.value);
      DetachedItems(l, f.value);
      SameWhenTaken(cs, l.items, key, ps);
    } else {
      SameSelf(cs, l.items, ps);
    }
  }

  lemma SameSelf(cs: bool, fs: seq<Field>, ps: seq<Member>)
    ensures SameTrees(cs, fs, fs, ps)
  {
  }

  /** Appending behind that is the other half of the change. */
  lemma AppendTouch(cs: bool, l: List<Field>, rest: List<Field>, m: Field, ps: seq<Member>)
    requires TakeOut(cs, l, m.key) == Some(rest) && OtherKeys(cs, m.key, ps) && SameTrees(cs, l.items, rest.items, ps)
    requires TouchOne(KeyList(cs, l), Touch(FoldString(cs, m.key), false)) == Some(KeyList(cs, rest))
    ensures
      var r := Append(rest, m);
      && TouchOne(KeyList(cs, l), Touch(FoldString(cs, m.key), true)) ==
        (if r.Some? then Some(KeyList(cs, r.value)) else None)
      && (r.Some? ==> SameTrees(cs, l.items, r.value.items, ps))
  {
    hide Append, SameTrees, TakeOut, Detach, KeyList;
    AppendKeys(cs, rest, m);
    AppendedItems(rest, m);
    SameWhenAppended(cs, rest.items, m, ps);
    SameTwice(cs, l.items, rest.items, rest.items + [m], ps);
    BothHalves(KeyList(cs, l), KeyList(cs, rest), FoldString(cs, m.key));
  }

  lemma BothHalves(l: List<string>, rest: List<string>, key: string)
    requires TouchOne(l, Touch(key, false)) == Some(rest)
    ensures TouchOne(l, Touch(key, true)) == Append(rest, key)
  {
  }

  lemma TouchesTail(cs: bool, ps: seq<Member>)
    requires ps != []
    ensures MergeTouches(cs, ps)[1..] == MergeTouches(cs, ps[1..])
    ensures MergeTouches(cs, ps)[0] == Touch(FoldString(cs, ps[0].key), !ps[0].value.Null?)
  {
  }

  /** The members of a patch that names no key twice find what was there before. */
  lemma {:induction false} BehindOthers(cs: bool, fs: seq<Field>, ps: seq<Member>, key: string)
    requires forall i :: 0 <= i < |ps| ==> FoldString(cs, ps[i].key) != FoldString(cs, key)
    ensures TreeBehind(cs, fs, ps, key) == TreeAt(cs, fs, key)
    decreases |ps|
  {
    hide TreeAt, MergeLinked;
    if ps != [] { BehindOthers(cs, fs, ps[..|ps| - 1], key); }
  }

  lemma BelowOnce(cs: bool, fs: seq<Field>, ps: seq<Member>)
    requires DistinctKeys(cs, ps)
    ensures BelowMergeable(cs, fs, ps) <==>
      forall i :: 0 <= i < |ps| && !ps[i].value.Null? ==> Mergeable(cs, TreeAt(cs, fs, ps[i].key), ps[i].value)
  {
    hide Mergeable, TreeAt, TreeBehind, DistinctKeys;
    forall i | 0 <= i < |ps| ensures TreeBehind(cs, fs, ps[..i], ps[i].key) == TreeAt(cs, fs, ps[i].key) {
      forall j | 0 <= j < i ensures FoldString(cs, ps[..i][j].key) != FoldString(cs, ps[i].key)
        { DistinctFolds(cs, ps, j, i); }
      BehindOthers(cs, fs, ps[..i], ps[i].key);
    }
  }

  /** The members behind the first of the patch. */
  ghost predicate Steps(cs: bool, fs: seq<Field>, fs': seq<Field>, p: Member, qs: seq<Member>) {
    forall i :: 0 <= i < |qs| ==> TreeAt(cs, fs', qs[i].key) == TreeBehind(cs, fs, [p], qs[i].key)
  }

  lemma {:induction false} BehindTail(cs: bool, fs: seq<Field>, fs': seq<Field>, ps: seq<Member>, key: string)
    requires ps != [] && TreeAt(cs, fs', key) == TreeBehind(cs, fs, [ps[0]], key)
    ensures TreeBehind(cs, fs, ps, key) == TreeBehind(cs, fs', ps[1..], key)
    decreases |ps|
  {
    hide TreeAt, MergeLinked;
    var n := |ps| - 1;
    if n == 0 {
      assert ps == [ps[0]];
    } else {
      assert ps[..n][1..] == ps[1..][..n - 1] && ps[1..][n - 1] == ps[n];
      BehindTail(cs, fs, fs', ps[..n], key);
    }
  }

  lemma BelowStep(cs: bool, fs: seq<Field>, fs': seq<Field>, ps: seq<Member>)
    requires ps != [] && Steps(cs, fs, fs', ps[0], ps[1..])
    ensures BelowMergeable(cs, fs, ps) <==>
      (!ps[0].value.Null? ==> Mergeable(cs, TreeAt(cs, fs, ps[0].key), ps[0].value)) && BelowMergeable(cs, fs', ps[1..])
  {
    hide Mergeable, TreeAt, TreeBehind;
    FirstBehind(cs, fs, ps);
    var qs := ps[1..];
    forall i | 0 <= i < |qs| ensures TreeBehind(cs, fs, ps[..i + 1], ps[i + 1].key) ==
      TreeBehind(cs, fs', qs[..i], qs[i].key) {
      assert ps[..i + 1][1..] == qs[..i] && ps[..i + 1][0] == ps[0];
      BehindTail(cs, fs, fs', ps[..i + 1], qs[i].key);
    }
    if BelowMergeable(cs, fs, ps) {
      assert !ps[0].value.Null? ==> Mergeable(cs, TreeBehind(cs, fs, ps[..0], ps[0].key), ps[0].value);
      forall i | 0 <= i < |qs|
        && !qs[i].value.Null? ensures Mergeable(cs, TreeBehind(cs, fs', qs[..i], qs[i].key), qs[i].value) {
        assert Mergeable(cs, TreeBehind(cs, fs, ps[..i + 1], ps[i + 1].key), ps[i + 1].value);
      }
    }
    if BelowMergeable(cs, fs', qs) && (!ps[0].value.Null? ==> Mergeable(cs, TreeAt(cs, fs, ps[0].key), ps[0].value)) {
      forall i | 0 <= i < |ps|
        && !ps[i].value.Null? ensures Mergeable(cs, TreeBehind(cs, fs, ps[..i], ps[i].key), ps[i].value) {
        if i > 0 { assert Mergeable(cs, TreeBehind(cs, fs', qs[..i - 1], qs[i - 1].key), qs[i - 1].value); }
      }
    }
  }

  lemma FirstBehind(cs: bool, fs: seq<Field>, ps: seq<Member>)
    requires ps != []
    ensures TreeBehind(cs, fs, ps[..0], ps[0].key) == TreeAt(cs, fs, ps[0].key)
  {
  }

  lemma OneBehind(cs: bool, fs: seq<Field>, p: Member, key: string)
    ensures
      TreeBehind(cs, fs, [p], key) ==
        if FoldString(cs, p.key) != FoldString(cs, key) then TreeAt(cs, fs, key)
        else if p.value.Null? then None
        else TreeOf(MergeLinked(cs, TreeAt(cs, fs, key), p.value))
  {
    hide TreeAt, MergeLinked;
    assert [p][..0] == [];
  }

  /** Looking up under another spelling of the key. */
  lemma {:induction false} FindFolded(cs: bool, ms: seq<Member>, a: string, b: string)
    requires FoldString(cs, a) == FoldString(cs, b)
    ensures Find(cs, ms, a) == Find(cs, ms, b)
  {
    if ms != [] {
      SameKey(cs, a, ms[0].key);
      SameKey(cs, b, ms[0].key);
      FindFolded(cs, ms[1..], a, b);
    }
  }

  lemma TakenKeys(cs: bool, l: List<Field>, key: string, other: string)
    requires TakeOut(cs, l, key).Some? && (FoldString(cs, other) == FoldString(cs, key) ==> FieldsApart(cs, l.items))
    ensures
      TreeAt(cs, TakeOut(cs, l, key).value.items, other) == if FoldString(cs, other) == FoldString(cs, key) then None
        else TreeAt(cs, l.items, other)
  {
    hide Detach, Find;
    var f := Find(cs, EraseFields(l.items), key);
    if FoldString(cs, other) == FoldString(cs, key) {
      TakenDistinct(cs, l, key);
      FindFolded(cs, EraseFields(TakeOut(cs, l, key).value.items), key, other);
    } else if f.Some? {
      DetachedItems(l, f.value);
      SameKey(cs, key, l.items[f.value].key);
      SameKey(cs, other, l.items[f.value].key);
      RemovedTree(cs, l.items, f.value, other);
    }
  }

  lemma SetKeys(cs: bool, fs: seq<Field>, m: Field, other: string)
    requires FoldString(cs, other) == FoldString(cs, m.key) ==>
      FieldsApart(cs, fs) && Find(cs, EraseFields(fs), m.key).None?
    ensures TreeAt(cs, fs + [m], other) == if FoldString(cs, other) == FoldString(cs, m.key) then Some(m.tree)
      else TreeAt(cs, fs, other)
  {
    hide Find;
    if FoldString(cs, other) == FoldString(cs, m.key) {
      JustSet(cs, fs, m);
      FindFolded(cs, EraseFields(fs + [m]), m.key, other);
    } else {
      SameKey(cs, other, m.key);
      AppendedTree(cs, fs, m, other);
    }
  }

  /** The target has no key twice, or else the patch has none. */
  ghost predicate Clean(cs: bool, fs: seq<Field>, ps: seq<Member>) {
    FieldsApart(cs, fs) || WellFormedMembers(cs, ps)
  }

  lemma DeletedSteps(cs: bool, l: List<Field>, ps: seq<Member>)
    requires ps != [] && Clean(cs, l.items, ps) && TakeOut(cs, l, ps[0].key).Some? && ps[0].value.Null?
    ensures Steps(cs, l.items, TakeOut(cs, l, ps[0].key).value.items, ps[0], ps[1..])
  {
    hide TakeOut, TreeAt, TreeBehind, FieldsApart;
    var p, qs := ps[0], ps[1..];
    forall i | 0 <= i < |qs| ensures TreeAt(cs, TakeOut(cs, l, p.key).value.items, qs[i].key) ==
      TreeBehind(cs, l.items, [p], qs[i].key) {
      Once(cs, l.items, ps, i);
      TakenKeys(cs, l, p.key, qs[i].key);
      OneBehind(cs, l.items, p, qs[i].key);
    }
  }

  lemma Once(cs: bool, fs: seq<Field>, ps: seq<Member>, i: nat)
    requires ps != [] && Clean(cs, fs, ps) && i < |ps[1..]|
    ensures FoldString(cs, ps[1..][i].key) == FoldString(cs, ps[0].key) ==> FieldsApart(cs, fs)
  {
    hide FieldsApart, WellFormed;
    if WellFormedMembers(cs, ps) { DistinctFolds(cs, ps, 0, i + 1); }
  }

  lemma SetSteps(cs: bool, l: List<Field>, ps: seq<Member>, c: Tree)
    requires ps != [] && Clean(cs, l.items, ps) && TakeOut(cs, l, ps[0].key).Some? && !ps[0].value.Null?
    requires MergeLinked(cs, TreeAt(cs, l.items, ps[0].key), ps[0].value) == Intact(c)
    ensures Steps(cs, l.items, TakeOut(cs, l, ps[0].key).value.items + [Field(ps[0].key, c)], ps[0], ps[1..])
  {
    hide TakeOut, TreeAt, TreeBehind, FieldsApart, MergeLinked, Find;
    var p, qs, rest := ps[0], ps[1..], TakeOut(cs, l, ps[0].key).value.items;
    forall i | 0 <= i < |qs| ensures TreeAt(cs, rest + [Field(p.key, c)], qs[i].key) ==
      TreeBehind(cs, l.items, [p], qs[i].key) {
      var key := qs[i].key;
      Once(cs, l.items, ps, i);
      TakenKeys(cs, l, p.key, key);
      if FoldString(cs, key) == FoldString(cs, p.key) {
        TakenApart(cs, l, p.key);
        TreeFolded(cs, l.items, key, p.key);
      }
      SetKeys(cs, rest, Field(p.key, c), key);
      OneBehind(cs, l.items, p, key);
    }
  }

  lemma TreeFolded(cs: bool, fs: seq<Field>, a: string, b: string)
    requires FoldString(cs, a) == FoldString(cs, b)
    ensures TreeAt(cs, fs, a) == TreeAt(cs, fs, b)
  {
    FindFolded(cs, EraseFields(fs), a, b);
  }

  lemma TakenApart(cs: bool, l: List<Field>, key: string)
    requires FieldsApart(cs, l.items) && TakeOut(cs, l, key).Some?
    ensures FieldsApart(cs, TakeOut(cs, l, key).value.items)
    ensures Find(cs, EraseFields(TakeOut(cs, l, key).value.items), key).None?
  {
    hide Detach, KeysApart;
    TakenDistinct(cs, l, key);
    var f := Find(cs, EraseFields(l.items), key);
    if f.Some? { DetachedItems(l, f.value); }
  }

  lemma SetApart(cs: bool, fs: seq<Field>, m: Field)
    requires FieldsApart(cs, fs) && KeysApart(cs, m.tree) && Find(cs, EraseFields(fs), m.key).None?
    ensures FieldsApart(cs, fs + [m])
  {
    hide KeysApart;
    JustSet(cs, fs, m);
  }

  lemma ApartAt(cs: bool, fs: seq<Field>, key: string)
    requires FieldsApart(cs, fs)
    ensures var t := TreeAt(cs, fs, key); t.Some? ==> KeysApart(cs, t.value)
  {
    hide KeysApart;
  }

  lemma {:induction false} WellFormedApart(cs: bool, t: Tree)
    requires WellFormed(cs, Erase(t))
    ensures KeysApart(cs, t)
    decreases t
  {
    if t.ObjectNode? {
      forall i | 0 <= i < |t.fields| ensures KeysApart(cs, t.fields[i].tree) {
        assert WellFormed(cs, EraseFields(t.fields)[i].value);
        WellFormedApart(cs, t.fields[i].tree);
      }
    }
  }

  /** Whatever the lists of the target cache and whatever the patch, which may name a key twice:
      merging leaves every list whole exactly when it is mergeable. */
  lemma {:induction false} MergeDamage(cs: bool, target: Option<Tree>, patch: Json)
    requires WellFormed(cs, patch) || (target.Some? ==> KeysApart(cs, target.value))
    ensures MergeLinked(cs, target, patch).Intact? <==> Mergeable(cs, target, patch)
    ensures MergeLinked(cs, target, patch).Intact? && (target.Some? ==> KeysApart(cs, target.value)) ==>
      KeysApart(cs, MergeLinked(cs, target, patch).v)
    decreases patch, 1
  {
    if patch.Object? {
      assert (target.Some? ==> KeysApart(cs, target.value)) ==> FieldsApart(cs, FieldsOf(target).items)
      by { assert EraseFields([]) == []; }
      FieldsDamage(cs, FieldsOf(target), patch.members);
    }
  }

  lemma {:induction false} FieldsDamage(cs: bool, l: List<Field>, ps: seq<Member>)
    requires Clean(cs, l.items, ps)
    ensures MergeFields(cs, l, ps).Intact? <==>
      TouchAll(KeyList(cs, l), MergeTouches(cs, ps)).Some? && BelowMergeable(cs, l.items, ps)
    ensures MergeFields(cs, l, ps).Intact? ==>
      && TouchAll(KeyList(cs, l), MergeTouches(cs, ps)) == Some(KeyList(cs, MergeFields(cs, l, ps).v))
      && (FieldsApart(cs, l.items) ==> FieldsApart(cs, MergeFields(cs, l, ps).v.items))
    decreases ps, 0
  {
    hide TakeOut, Append, TreeAt, MergeLinked, Mergeable, BelowMergeable, TouchOne, KeyList, SameTrees, MergeTouches,
      KeysApart,
      FieldsApart, Steps, Find, WellFormed;
    if ps == [] {
      NothingToDo(cs, l);
    } else {
      var p := ps[0];
      TouchesTail(cs, ps);
      TakeOutTouch(cs, l, p.key, []);
      if WellFormedMembers(cs, ps) { TailWellFormed(cs, ps); }
      var rest := TakeOut(cs, l, p.key);
      if rest.None? {
        BrokenTouch(KeyList(cs, l), FoldString(cs, p.key));
      } else {
        if FieldsApart(cs, l.items) { TakenApart(cs, l, p.key); }
        if p.value.Null? {
          FieldsDamage(cs, rest.value, ps[1..]);
          DeletedSteps(cs, l, ps);
          BelowStep(cs, l.items, rest.value.items, ps);
        } else {
          SetDamage(cs, l, ps);
        }
      }
    }
  }

  /** The first member of the patch is set. */
  lemma {:induction false} SetDamage(cs: bool, l: List<Field>, ps: seq<Member>)
    requires Clean(cs, l.items, ps) && ps != [] && !ps[0].value.Null? && TakeOut(cs, l, ps[0].key).Some?
    requires TouchOne(KeyList(cs, l), Touch(FoldString(cs, ps[0].key), false)) ==
      Some(KeyList(cs, TakeOut(cs, l, ps[0].key).value))
    ensures MergeFields(cs, l, ps).Intact? <==>
      TouchAll(KeyList(cs, l), MergeTouches(cs, ps)).Some? && BelowMergeable(cs, l.items, ps)
    ensures MergeFields(cs, l, ps).Intact? ==>
      && TouchAll(KeyList(cs, l), MergeTouches(cs, ps)) == Some(KeyList(cs, MergeFields(cs, l, ps).v))
      && (FieldsApart(cs, l.items) ==> FieldsApart(cs, MergeFields(cs, l, ps).v.items))
    decreases ps, -1
  {
    hide TakeOut, Append, TreeAt, MergeLinked, Mergeable, BelowMergeable, TouchOne, KeyList, SameTrees, MergeTouches,
      KeysApart,
      FieldsApart, Steps, Find, WellFormed;
    var p, rest := ps[0], TakeOut(cs, l, ps[0].key).value;
    var t := TreeAt(cs, l.items, p.key);
    TouchesTail(cs, ps);
    if WellFormedMembers(cs, ps) { TailWellFormed(cs, ps); }
    if FieldsApart(cs, l.items) {
      ApartAt(cs, l.items, p.key);
      TakenApart(cs, l, p.key);
    }
    MergeDamage(cs, t, p.value);
    var merged := MergeLinked(cs, t, p.value);
    if !merged.Intact? {
      NotBelow(cs, l.items, ps);
    } else {
      var m := Field(p.key, merged.v);
      assert SameTrees(cs, l.items, rest.items, []) by { NoTrees(cs, l.items, rest.items); }
      AppendTouch(cs, l, rest, m, []);
      AppendedItems(rest, m);
      if FieldsApart(cs, l.items) { SetApart(cs, rest.items, m); }
      var l' := Append(rest, m);
      if l'.Some? {
        FieldsDamage(cs, l'.value, ps[1..]);
        SetSteps(cs, l, ps, merged.v);
        BelowStep(cs, l.items, l'.value.items, ps);
      }
    }
  }

  lemma NoTrees(cs: bool, fs: seq<Field>, fs': seq<Field>)
    ensures SameTrees(cs, fs, fs', [])
  {
  }

  lemma NothingToDo(cs: bool, l: List<Field>)
    ensures TouchAll(KeyList(cs, l), MergeTouches(cs, [])) == Some(KeyList(cs, l)) && BelowMergeable(cs, l.items, [])
  {
  }

  lemma NotBelow(cs: bool, fs: seq<Field>, ps: seq<Member>)
    requires ps != [] && !ps[0].value.Null? && !Mergeable(cs, TreeAt(cs, fs, ps[0].key), ps[0].value)
    ensures !BelowMergeable(cs, fs, ps)
  {
    hide Mergeable, TreeAt, TreeBehind;
    FirstBehind(cs, fs, ps);
  }

  lemma HeadOthers(cs: bool, ps: seq<Member>)
    requires WellFormedMembers(cs, ps) && ps != []
    ensures OtherKeys(cs, ps[0].key, ps[1..])
  {
    forall i | 0 <= i < |ps[1..]| ensures Compare(cs, ps[0].key, ps[1..][i].key) != 0 {
      DistinctFolds(cs, ps, 0, i + 1);
      SameKey(cs, ps[0].key, ps[1..][i].key);
    }
  }

  lemma MergeTouchesOnce(cs: bool, ps: seq<Member>)
    requires DistinctKeys(cs, ps)
    ensures OneEach(MergeTouches(cs, ps))
  {
    forall i, j | 0 <= i < j < |ps| ensures MergeTouches(cs, ps)[i].key != MergeTouches(cs, ps)[j].key {
      DistinctFolds(cs, ps, i, j);
    }
  }

  /** A target that caches nothing is damaged itself exactly when a member that the patch names,
      with a null or without, is first in the list by then, behind a member that was set. */
  lemma ParsedMergeable(cs: bool, target: Tree, patch: Json)
    requires target.ObjectNode? && target.tail == Unset && WellFormed(cs, Erase(target))
    requires patch.Object? && WellFormed(cs, patch)
    ensures Mergeable(cs, Some(target), patch) <==>
      !HeadHit(KeysOf(cs, target.fields), MergeTouches(cs, patch.members))
        && BelowMergeable(cs, target.fields, patch.members)
  {
    hide TouchAll, HeadHit, BelowMergeable;
    MergeTouchesOnce(cs, patch.members);
    DistinctFolded(cs, target.fields);
    DamageIsHeadHit(KeysOf(cs, target.fields), MergeTouches(cs, patch.members));
  }

  /** Merging into nothing damages nothing. */
  lemma {:induction false} IntoNothing(cs: bool, patch: Json)
    requires WellFormed(cs, patch)
    ensures Mergeable(cs, None, patch) && MergeLinked(cs, None, patch).Intact?
    decreases patch
  {
    if patch.Object? {
      MergeTouchesOnce(cs, patch.members);
      DamageIsHeadHit([], MergeTouches(cs, patch.members));
      forall i | 0 <= i < |patch.members| && !patch.members[i].value.Null?
        ensures Mergeable(cs, TreeAt(cs, [], patch.members[i].key), patch.members[i].value)
      {
        IntoNothing(cs, patch.members[i].value);
      }
      BelowOnce(cs, [], patch.members);
    }
    MergeDamage(cs, None, patch);
  }

  /** For every target in memory, whatever its lists cache: `merge_patch` computes the RFC's
      function when the target is mergeable, and damages a list when it is not. */
  lemma MergeInMemory(cs: bool, target: Option<Tree>, patch: Json)
    requires target.Some? ==> WellFormed(cs, Erase(target.value))
    requires WellFormed(cs, patch)
    ensures
      var r := MergeLinked(cs, target, patch);
      if Mergeable(cs, target, patch) then
        && r.Intact? && WellFormed(cs, Erase(r.v))
        && Norm(cs, Erase(r.v)) == JsonMergePatch.Merge(NormOption(cs, EraseOption(target)), Norm(cs, patch))
      else !r.Intact?
  {
    hide MergeLinked, Mergeable, MergePatch, JsonMergePatch.Merge, KeysApart;
    if target.Some? { WellFormedApart(cs, target.value); }
    MergeDamage(cs, target, patch);
    MergeErased(cs, target, patch);
    MergePatchRefines(cs, EraseOption(target), patch);
  }

  // ---------------------------------------------------------------------------
  // The same patch again

  /** The keys no change speaks of. */
  function Rest(keys: seq<string>, ts: seq<Touch>): seq<string> {
    if keys == [] then []
    else (if Touched(ts, keys[0]) then [] else [keys[0]]) + Rest(keys[1..], ts)
  }

  /** The keys that are appended, in order. */
  function Added(ts: seq<Touch>): seq<string> {
    if ts == [] then []
    else (if ts[0].append then [ts[0].key] else []) + Added(ts[1..])
  }

  /** The same patch can be merged again: it sets nothing, or one member of an object that has no
      other, or several of an object that has others. */
  ghost predicate Repeatable(cs: bool, target: Option<Tree>, patch: Json)
    decreases patch, 1
  {
    patch.Object? ==>
      var ts := MergeTouches(cs, patch.members);
      && AgainStays(Rest(KeysOf(cs, FieldsOf(target).items), ts), Added(ts))
      && BelowRepeatable(cs, FieldsOf(target).items, patch.members)
  }

  predicate AgainStays(rest: seq<string>, added: seq<string>) {
    added == [] || (|added| == 1 <==> rest == [])
  }

  ghost predicate BelowRepeatable(cs: bool, fs: seq<Field>, ps: seq<Member>)
    decreases ps, 0
  {
    forall i :: 0 <= i < |ps| && !ps[i].value.Null? ==> Repeatable(cs, TreeAt(cs, fs, ps[i].key), ps[i].value)
  }

  lemma TouchedTail(ts: seq<Touch>, key: string)
    requires ts != []
    ensures Touched(ts, key) <==> ts[0].key == key || Touched(ts[1..], key)
  {
    if Touched(ts, key) && ts[0].key != key {
      var r :| 0 <= r < |ts| && ts[r].key == key;
      assert ts[1..][r - 1] == ts[r];
    }
    if Touched(ts[1..], key) {
      var r :| 0 <= r < |ts[1..]| && ts[1..][r].key == key;
      assert ts[r + 1] == ts[1..][r];
    }
  }

  lemma {:induction false} RestNone(keys: seq<string>)
    ensures Rest(keys, []) == keys
  {
    if keys != [] { RestNone(keys[1..]); }
  }

  /** What the first change takes out is not among the rest. */
  lemma {:induction false} RestTail(keys: seq<string>, ts: seq<Touch>)
    requires ts != [] && NoRepeats(keys)
    ensures
      var f := KeyIndex(keys, ts[0].key);
      Rest(keys, ts) == Rest(if f.Some? then RemoveAt(keys, f.value) else keys, ts[1..])
  {
    if keys != [] {
      var k, t := keys[0], ts[0].key;
      TouchedTail(ts, k);
      assert NoRepeats(keys[1..]);
      if k == t {
        assert RemoveAt(keys, 0) == keys[1..];
        RestSkips(keys[1..], ts);
      } else {
        RestTail(keys[1..], ts);
        var f := KeyIndex(keys[1..], t);
        if f.Some? {
          var r := RemoveAt(keys, f.value + 1);
          assert r[0] == k && r[1..] == RemoveAt(keys[1..], f.value);
        }
      }
    }
  }

  lemma {:induction false} RestSkips(keys: seq<string>, ts: seq<Touch>)
    requires ts != [] && ts[0].key !in keys
    ensures Rest(keys, ts) == Rest(keys, ts[1..])
  {
    if keys != [] {
      TouchedTail(ts, keys[0]);
      RestSkips(keys[1..], ts);
    }
  }

  lemma {:induction false} RestConcat(a: seq<string>, b: seq<string>, ts: seq<Touch>)
    ensures Rest(a + b, ts) == Rest(a, ts) + Rest(b, ts)
  {
    if a == [] {
      assert a + b == b;
    } else {
      assert (a + b)[0] == a[0] && (a + b)[1..] == a[1..] + b;
      RestConcat(a[1..], b, ts);
    }
  }

  lemma {:induction false} RestIs(keys: seq<string>, ts: seq<Touch>)
    ensures forall k :: k in Rest(keys, ts) ==> k in keys && !Touched(ts, k)
  {
    if keys != [] { RestIs(keys[1..], ts); }
  }

  /** What a run of changes leaves: the members it does not speak of, then those it appended. */
  lemma {:induction false} TouchShape(l: List<string>, left: seq<string>, added: seq<string>, ts: seq<Touch>)
    requires l.items == left + added && (added != [] ==> CachesLast(l)) && NoRepeats(left) && OneEach(ts)
    requires forall r :: 0 <= r < |ts| ==> ts[r].key !in added
    requires TouchAll(l, ts).Some?
    ensures
      var r := TouchAll(l, ts).value;
      r.items == Rest(left, ts) + (added + Added(ts)) && (added + Added(ts) != [] ==> CachesLast(r))
    decreases |ts|
  {
    hide NoRepeats, OneEach, Rest, KeyIndex, RemoveAt, TouchOne, Added;
    AddedStep(ts, added);
    if ts == [] {
      RestNone(left);
      assert added + [] == added;
    } else {
      var l', left', added' := ShapeStep(l, left, added, ts[0]);
      LaterKeys(ts, added, added');
      RestTail(left, ts);
      TouchShape(l', left', added', ts[1..]);
    }
  }

  lemma AddedStep(ts: seq<Touch>, added: seq<string>)
    ensures ts == [] ==> Added(ts) == []
    ensures ts != [] ==> added + Added(ts) == (if ts[0].append then added + [ts[0].key] else added) + Added(ts[1..])
  {
    if ts != [] {
      AddedUnfold(ts);
      AddedRegroup(ts[0], added, Added(ts[1..]));
    }
  }

  lemma AddedUnfold(ts: seq<Touch>)
    requires ts != []
    ensures Added(ts) == (if ts[0].append then [ts[0].key] else []) + Added(ts[1..])
  {
  }

  lemma AddedRegroup(t: Touch, added: seq<string>, rest: seq<string>)
    ensures added + ((if t.append then [t.key] else []) + rest) ==
      (if t.append then added + [t.key] else added) + rest
  {
    if t.append { Regroup(added, [t.key], rest); } else { assert [] + rest == rest; }
  }

  lemma Regroup(a: seq<string>, b: seq<string>, c: seq<string>)
    ensures a + (b + c) == (a + b) + c
  {
  }

  lemma ShapeStep(l: List<string>, left: seq<string>, added: seq<string>, t: Touch)
      returns (l': List<string>, left': seq<string>, added': seq<string>)
    requires l.items == left + added && (added != [] ==> CachesLast(l)) && NoRepeats(left)
    requires t.key !in added && TouchOne(l, t).Some?
    ensures TouchOne(l, t) == Some(l') && l'.items == left' + added' && (added' != [] ==> CachesLast(l'))
      && NoRepeats(left')
    ensures left' == match KeyIndex(left, t.key) case None => left case Some(f) => RemoveAt(left, f)
    ensures added' == if t.append then added + [t.key] else added
  {
    hide KeyIndex, RemoveAt, NoRepeats;
    IndexInFront(left, added, t.key);
    var f := KeyIndex(left, t.key);
    l' := TouchOne(l, t).value;
    left' := match f case None => left case Some(i) => RemoveAt(left, i);
    added' := if t.append then added + [t.key] else added;
    if f.Some? { TakenOut(left, added, f.value); }
    assert (left' + added) + [t.key] == left' + (added + [t.key]);
  }

  /** The changes again: `b` are the members still to be set anew, `c` those that have been. */
  lemma {:induction false} TouchAgain(l: List<string>, rest: seq<string>, b: seq<string>, c: seq<string>,
                                      ts: seq<Touch>)
    requires l.items == rest + b + c && (b != [] ==> CachesLast(l)) && b == Added(ts) && OneEach(ts)
    requires forall r :: 0 <= r < |ts| ==> ts[r].key !in rest && ts[r].key !in c
    requires forall r :: 0 <= r < |ts| && !ts[r].append ==> ts[r].key !in b
    ensures TouchAll(l, ts).Some? <==> b == [] || (|b| + |c| == 1 <==> rest == [])
    decreases |ts|
  {
    hide TouchOne;
    if ts != [] {
      var t := ts[0];
      AddedOf(ts[1..]);
      LaterKeys(ts, c, if t.append then c + [t.key] else c);
      forall r | 0 <= r < |ts[1..]| ensures ts[1..][r] == ts[r + 1]
        && ts[r + 1].key != t.key { assert ts[0].key != ts[r + 1].key; }
      if !t.append {
        NotInAny(rest, b, c, t.key, l);
        TouchAgain(l, rest, b, c, ts[1..]);
      } else {
        assert b == [t.key] + b[1..] && b[1..] == Added(ts[1..]);
        AgainStep(l, rest, b, c);
        if TouchOne(l, t).Some? {
          TouchAgain(TouchOne(l, t).value, rest, b[1..], c + [t.key], ts[1..]);
        }
      }
    }
  }

  lemma {:induction false} AddedOf(ts: seq<Touch>)
    ensures forall k :: k in Added(ts) ==> exists r :: 0 <= r < |ts| && ts[r].key == k && ts[r].append
  {
    if ts != [] {
      AddedOf(ts[1..]);
      forall k | k in Added(ts) ensures exists r :: 0 <= r < |ts| && ts[r].key == k && ts[r].append {
        if ts[0].append && ts[0].key == k {
        } else {
          assert k in Added(ts[1..]);
          var r :| 0 <= r < |ts[1..]| && ts[1..][r].key == k && ts[1..][r].append;
          assert ts[r + 1] == ts[1..][r];
        }
      }
    }
  }

  lemma NotInAny(a: seq<string>, b: seq<string>, c: seq<string>, key: string, l: List<string>)
    requires l.items == a + b + c && key !in a && key !in b && key !in c
    ensures TouchOne(l, Touch(key, false)) == Some(l)
  {
    var f := KeyIndex(l.items, key);
    assert f.None?;
  }

  lemma AgainStep(l: List<string>, rest: seq<string>, b: seq<string>, c: seq<string>)
    requires l.items == rest + b + c && b != [] && CachesLast(l) && b[0] !in rest
    ensures
      var r := TouchOne(l, Touch(b[0], true));
      && (r.Some? <==> (|b| + |c| == 1 <==> rest == []))
      && (r.Some? ==> r.value.items == rest + b[1..] + (c + [b[0]]) && CachesLast(r.value))
  {
    hide RemoveAt, KeyIndex;
    OutOfTheMiddle(rest, b, c);
  }

  lemma OutOfTheMiddle(rest: seq<string>, b: seq<string>, c: seq<string>)
    requires b != [] && b[0] !in rest
    ensures KeyIndex(rest + b + c, b[0]) == Some(|rest|)
    ensures RemoveAt(rest + b + c, |rest|) == rest + b[1..] + c
    ensures (rest + b[1..] + c) + [b[0]] == rest + b[1..] + (c + [b[0]])
  {
    hide RemoveAt, KeyIndex;
    assert rest + b + c == rest + (b + c) && (b + c)[0] == b[0];
    IndexBehind(rest, b + c, b[0]);
  }

  lemma {:induction false} IndexBehind(a: seq<string>, b: seq<string>, key: string)
    requires key !in a && b != [] && b[0] == key
    ensures KeyIndex(a + b, key) == Some(|a|)
  {
    if a == [] {
      assert a + b == b;
    } else {
      assert (a + b)[0] == a[0] && (a + b)[1..] == a[1..] + b;
      IndexBehind(a[1..], b, key);
    }
  }

  /** Merging changes no member the patch does not name. */
  lemma {:induction false} OthersKept(cs: bool, l: List<Field>, ps: seq<Member>, x: Member)
    requires OtherKeys(cs, x.key, ps) && MergeFields(cs, l, ps).Intact?
    ensures TreeAt(cs, MergeFields(cs, l, ps).v.items, x.key) == TreeAt(cs, l.items, x.key)
    decreases |ps|
  {
    hide TakeOut, Append, TreeAt, MergeLinked;
    if ps != [] {
      var p := ps[0];
      SameKey(cs, x.key, p.key);
      assert forall i :: 0 <= i < |ps[1..]| ==> ps[1..][i] == ps[i + 1];
      assert OtherKeys(cs, p.key, [x]) && OtherKeys(cs, x.key, ps[1..]);
      TakeOutTouch(cs, l, p.key, [x]);
      var rest := TakeOut(cs, l, p.key).value;
      assert TreeAt(cs, l.items, [x][0].key) == TreeAt(cs, rest.items, [x][0].key);
      if p.value.Null? {
        OthersKept(cs, rest, ps[1..], x);
      } else {
        var m := Field(p.key, MergeLinked(cs, TreeAt(cs, l.items, p.key), p.value).v);
        AppendedItems(rest, m);
        AppendedTree(cs, rest.items, m, x.key);
        OthersKept(cs, Append(rest, m).value, ps[1..], x);
      }
    }
  }

  /** A member the patch sets is the merged one. */
  lemma {:induction false} MergedTree(cs: bool, l: List<Field>, ps: seq<Member>, i: nat)
    requires WellFormedMembers(cs, ps) && MergeFields(cs, l, ps).Intact? && i < |ps| && !ps[i].value.Null?
    requires DistinctKeys(cs, EraseFields(l.items))
    ensures
      var r := MergeLinked(cs, TreeAt(cs, l.items, ps[i].key), ps[i].value);
      r.Intact? && TreeAt(cs, MergeFields(cs, l, ps).v.items, ps[i].key) == Some(r.v)
    decreases |ps|
  {
    hide TakeOut, Append, TreeAt, MergeLinked, WellFormed, DistinctKeys;
    var p := ps[0];
    TailWellFormed(cs, ps);
    HeadOthers(cs, ps);
    TakeOutTouch(cs, l, p.key, ps[1..]);
    var rest := TakeOut(cs, l, p.key).value;
    TakenDistinct(cs, l, p.key);
    if p.value.Null? {
      assert ps[1..][i - 1] == ps[i];
      MergedTree(cs, rest, ps[1..], i - 1);
    } else {
      var m := Field(p.key, MergeLinked(cs, TreeAt(cs, l.items, p.key), p.value).v);
      AppendTouch(cs, l, rest, m, ps[1..]);
      var l' := Append(rest, m).value;
      AppendedItems(rest, m);
      JustSet(cs, rest.items, m);
      if i == 0 {
        OthersKept(cs, l', ps[1..], p);
      } else {
        assert ps[1..][i - 1] == ps[i];
        MergedTree(cs, l', ps[1..], i - 1);
      }
    }
  }

  lemma TakenDistinct(cs: bool, l: List<Field>, key: string)
    requires DistinctKeys(cs, EraseFields(l.items)) && TakeOut(cs, l, key).Some?
    ensures DistinctKeys(cs, EraseFields(TakeOut(cs, l, key).value.items))
    ensures Find(cs, EraseFields(TakeOut(cs, l, key).value.items), key).None?
  {
    hide Detach;
    TakenErased(cs, l, key);
    var f := Find(cs, EraseFields(l.items), key);
    if f.Some? {
      TakenIsGone(cs, EraseFields(l.items), key);
      DistinctRemove(cs, EraseFields(l.items), f.value);
    }
  }

  lemma JustSet(cs: bool, fs: seq<Field>, m: Field)
    requires DistinctKeys(cs, EraseFields(fs)) && Find(cs, EraseFields(fs), m.key).None?
    ensures TreeAt(cs, fs + [m], m.key) == Some(m.tree) && DistinctKeys(cs, EraseFields(fs + [m]))
  {
    var ms, x := EraseFields(fs), Member(m.key, Erase(m.tree));
    assert EraseFields(fs + [m]) == ms + [x];
    SameKey(cs, m.key, m.key);
    FindIs(cs, ms + [x], m.key, |ms|);
    NormMembersFind(cs, ms, m.key);
    NormAppend(cs, ms, x);
  }

  /** The list of an object a patch has been merged into: merging the patch again leaves it whole
      exactly when `AgainStays`. */
  lemma TouchedAgain(cs: bool, l: List<Field>, ps: seq<Member>, r: List<Field>)
    requires DistinctKeys(cs, EraseFields(l.items)) && DistinctKeys(cs, ps)
    requires TouchAll(KeyList(cs, l), MergeTouches(cs, ps)) == Some(KeyList(cs, r))
    ensures TouchAll(KeyList(cs, r), MergeTouches(cs, ps)).Some? <==>
      AgainStays(Rest(KeysOf(cs, l.items), MergeTouches(cs, ps)), Added(MergeTouches(cs, ps)))
  {
    hide TouchAll, OneEach, NoRepeats;
    var keys, ts := KeysOf(cs, l.items), MergeTouches(cs, ps);
    DistinctFolded(cs, l.items);
    MergeTouchesOnce(cs, ps);
    assert keys + [] == keys && [] + Added(ts) == Added(ts);
    TouchShape(KeyList(cs, l), keys, [], ts);
    var rest, added := Rest(keys, ts), Added(ts);
    RestIs(keys, ts);
    AddedOnce(ts);
    assert rest + added + [] == rest + added;
    forall i | 0 <= i < |ts| ensures ts[i].key !in rest { assert Touched(ts, ts[i].key); }
    TouchAgain(KeyList(cs, r), rest, added, [], ts);
  }

  /** A key that is not appended is not among those that are. */
  lemma AddedOnce(ts: seq<Touch>)
    requires OneEach(ts)
    ensures forall r :: 0 <= r < |ts| && !ts[r].append ==> ts[r].key !in Added(ts)
  {
    AddedOf(ts);
  }

  lemma ObjectMerge(cs: bool, target: Option<Tree>, patch: Json)
    requires target.Some? ==> WellFormed(cs, Erase(target.value))
    requires WellFormed(cs, patch) && MergeLinked(cs, target, patch).Intact? && patch.Object?
    ensures
      var l, once := FieldsOf(target), MergeLinked(cs, target, patch);
      && WellFormedMembers(cs, patch.members) && DistinctKeys(cs, EraseFields(l.items))
      && MergeFields(cs, l, patch.members).Intact? && FieldsOf(Some(once.v)) == MergeFields(cs, l, patch.members).v
      && (MergeLinked(cs, Some(once.v), patch).Intact?
        <==> MergeFields(cs, FieldsOf(Some(once.v)), patch.members).Intact?)
  {
    hide MergeFields;
    assert EraseFields([]) == [];
  }

  lemma TreeWellFormed(cs: bool, target: Option<Tree>, key: string)
    requires target.Some? ==> WellFormed(cs, Erase(target.value))
    ensures var t := TreeAt(cs, FieldsOf(target).items, key); t.Some? ==> WellFormed(cs, Erase(t.value))
  {
    var fs := FieldsOf(target).items;
    var f := Find(cs, EraseFields(fs), key);
    if f.Some? { assert WellFormed(cs, EraseFields(fs)[f.value].value); }
  }

  /** Where merging succeeds, merging the same patch again damages a list exactly when it is not
      repeatable. */
  lemma {:induction false} AgainDamage(cs: bool, target: Option<Tree>, patch: Json)
    requires target.Some? ==> WellFormed(cs, Erase(target.value))
    requires WellFormed(cs, patch) && MergeLinked(cs, target, patch).Intact?
    ensures MergeLinked(cs, Some(MergeLinked(cs, target, patch).v), patch).Intact? <==> Repeatable(cs, target, patch)
    decreases patch
  {
    hide WellFormed, MergeLinked, Mergeable, MergeFields, Repeatable, AgainStays, MergeTouches, TreeAt, KeysApart,
      FieldsApart,
      BelowMergeable;
    if patch.Object? {
      var l, ps := FieldsOf(target), patch.members;
      ObjectMerge(cs, target, patch);
      var r := MergeFields(cs, l, ps).v;
      FieldsApartOf(cs, target);
      FieldsDamage(cs, l, ps);
      FieldsDamage(cs, r, ps);
      TouchedAgain(cs, l, ps, r);
      forall i | 0 <= i < |ps| && !ps[i].value.Null?
        ensures Mergeable(cs, TreeAt(cs, r.items, ps[i].key), ps[i].value)
          <==> Repeatable(cs, TreeAt(cs, l.items, ps[i].key), ps[i].value)
      {
        var t := TreeAt(cs, l.items, ps[i].key);
        TreeWellFormed(cs, target, ps[i].key);
        MergedTree(cs, l, ps, i);
        ApartAt(cs, l.items, ps[i].key);
        ApartAt(cs, r.items, ps[i].key);
        AgainDamage(cs, t, ps[i].value);
        MergeDamage(cs, TreeAt(cs, r.items, ps[i].key), ps[i].value);
      }
      BelowOnce(cs, r.items, ps);
      BelowBoth(cs, r.items, l.items, ps);
      RepeatableIs(cs, target, patch);
    } else {
      ScalarAgain(cs, target, patch);
    }
  }

  lemma FieldsApartOf(cs: bool, target: Option<Tree>)
    requires target.Some? ==> WellFormed(cs, Erase(target.value))
    ensures FieldsApart(cs, FieldsOf(target).items)
  {
    if target.Some? { WellFormedApart(cs, target.value); }
    assert EraseFields([]) == [];
  }

  lemma ScalarAgain(cs: bool, target: Option<Tree>, patch: Json)
    requires !patch.Object?
    ensures MergeLinked(cs, target, patch).Intact?
    ensures MergeLinked(cs, Some(MergeLinked(cs, target, patch).v), patch).Intact? && Repeatable(cs, target, patch)
  {
  }

  lemma RepeatableIs(cs: bool, target: Option<Tree>, patch: Json)
    requires patch.Object?
    ensures
      var fs, ts := FieldsOf(target).items, MergeTouches(cs, patch.members);
      Repeatable(cs, target, patch) <==>
        AgainStays(Rest(KeysOf(cs, fs), ts), Added(ts)) && BelowRepeatable(cs, fs, patch.members)
  {
    hide BelowRepeatable, AgainStays;
  }

  lemma BelowBoth(cs: bool, gs: seq<Field>, fs: seq<Field>, ps: seq<Member>)
    requires forall i :: 0 <= i < |ps| && !ps[i].value.Null? ==>
      (Mergeable(cs, TreeAt(cs, gs, ps[i].key), ps[i].value) <==>
        Repeatable(cs, TreeAt(cs, fs, ps[i].key), ps[i].value))
    ensures (forall i :: 0 <= i < |ps| && !ps[i].value.Null? ==> Mergeable(cs, TreeAt(cs, gs, ps[i].key), ps[i].value))
       <==> BelowRepeatable(cs, fs, ps)
  {
    hide Mergeable, Repeatable, TreeAt;
  }

  /** Merging the same patch a second time leaves the same value when it is repeatable, and damages
      a list when it is not. */
  lemma MergeTwiceInMemory(cs: bool, target: Option<Tree>, patch: Json)
    requires target.Some? ==> WellFormed(cs, Erase(target.value))
    requires WellFormed(cs, patch) && Mergeable(cs, target, patch)
    ensures
      var once := MergeLinked(cs, target, patch);
      && once.Intact?
      && var twice := MergeLinked(cs, Some(once.v), patch);
         if Repeatable(cs, target, patch) then twice.Intact? && Norm(cs, Erase(twice.v)) == Norm(cs, Erase(once.v))
         else !twice.Intact?
  {
    hide MergeLinked, Mergeable, Repeatable, MergePatch;
    if target.Some? { WellFormedApart(cs, target.value); }
    MergeDamage(cs, target, patch);
    AgainDamage(cs, target, patch);
    var once := MergeLinked(cs, target, patch);
    MergeErased(cs, target, patch);
    MergeErased(cs, Some(once.v), patch);
    MergePatchIdempotent(cs, EraseOption(target), patch);
  }

  // ---------------------------------------------------------------------------
  // Generated patches

  /** Merging the patch made from `from` and `to` into a tree equal to `from`. */
  function PatchedLinked(cs: bool, t: Tree, patch: Option<Json>): Result<Tree> {
    match patch
    case None => Intact(t)
    case Some(p) => MergeLinked(cs, Some(t), p)
  }

  /** Whatever the lists of the tree cache, and whatever keys the patch names twice: it leaves a tree
      equal to `to` with every list whole exactly when it is mergeable and the walk leads there. */
  lemma GeneratedPatchInMemory(cs: bool, g: bool, t: Tree, from: Json, to: Json)
    requires WellFormed(cs, from) && WellFormed(cs, to)
    requires WellFormed(cs, Erase(t)) && Norm(cs, Erase(t)) == Norm(cs, from)
    ensures
      var p := GenerateMergePatch(g, from, to);
      var r := PatchedLinked(cs, t, p);
      && (r.Intact? <==> (p.Some? ==> Mergeable(cs, Some(t), p.value)))
      && (r.Intact? ==> (Norm(cs, Erase(r.v)) == Norm(cs, to) <==> Arrives(cs, g, from, to)))
  {
    hide MergeLinked, Mergeable, Arrives, GenerateMergePatch, MergePatch, Norm, Erase, WellFormed, KeysApart;
    var p := GenerateMergePatch(g, from, to);
    GeneratedPatchWorks(cs, g, Erase(t), from, to);
    WellFormedApart(cs, t);
    if p.Some? {
      MergeErased(cs, Some(t), p.value);
      MergeDamage(cs, Some(t), p.value);
    }
  }

  /** Where the orders agree: exactly when every null of `to` was in `from` and the patch is
      mergeable. */
  lemma AgreedPatchInMemory(cs: bool, g: bool, t: Tree, from: Json, to: Json)
    requires WellFormed(cs, from) && WellFormed(cs, to) && Agrees(cs, g, from, to)
    requires WellFormed(cs, Erase(t)) && Norm(cs, Erase(t)) == Norm(cs, from)
    ensures
      var p := GenerateMergePatch(g, from, to);
      var r := PatchedLinked(cs, t, p);
      r.Intact? && Norm(cs, Erase(r.v)) == Norm(cs, to) <==>
        NullsKept(Some(Norm(cs, from)), Norm(cs, to)) && (p.Some? ==> Mergeable(cs, Some(t), p.value))
  {
    hide MergeLinked, Mergeable, Arrives, GenerateMergePatch, Agrees, NullsKept, PatchFor;
    GeneratedPatchInMemory(cs, g, t, from, to);
    AgreedPatchWorks(cs, g, from, to);
  }

  /** The patch is merged into the tree it was made from, which has been sorted by then. */
  lemma SourceMergedInMemory(cs: bool, g: bool, t: Tree, to: Json)
    requires WellFormed(cs, Erase(t)) && WellFormed(cs, to)
    ensures
      var from, s := Erase(t), MadeFrom(g, t, to);
      var p := GenerateMergePatch(g, from, to);
      var r := PatchedLinked(cs, s, p);
      && (r.Intact? <==> (p.Some? ==> Mergeable(cs, Some(s), p.value)))
      && (r.Intact? ==> (Norm(cs, Erase(r.v)) == Norm(cs, to) <==> Arrives(cs, g, from, to)))
  {
    hide MergeLinked, Mergeable, Arrives, GenerateMergePatch, MadeFrom, PatchedLinked;
    MadeKeeps(cs, g, t, to);
    GeneratedPatchInMemory(cs, g, MadeFrom(g, t, to), Erase(t), to);
  }

  // ---------------------------------------------------------------------------
  // Nothing is lost of a parsed tree

  lemma {:induction false} TidyMerge(cs: bool, target: Option<Tree>, patch: Json)
    requires target.Some? ==> Tidy(target.value)
    ensures var r := MergeLinked(cs, target, patch); !r.Lossy? && (r.Intact? ==> Tidy(r.v))
    decreases patch, 1
  {
    if patch.Object? {
      TidyFields(cs, FieldsOf(target), patch.members);
    } else {
      TidyFresh(patch);
    }
  }

  lemma {:induction false} TidyFields(cs: bool, l: List<Field>, ps: seq<Member>)
    requires Tidy(ObjectOf(l))
    ensures var r := MergeFields(cs, l, ps); !r.Lossy? && (r.Intact? ==> Tidy(ObjectOf(r.v)))
    decreases ps, 0
  {
    hide Tidy, TakeOut, Grow, TreeAt, MergeLinked;
    if ps != [] {
      var p, rest := ps[0], TakeOut(cs, l, ps[0].key);
      TidyTaken(cs, l, p.key);
      if rest.Some? {
        if p.value.Null? {
          TidyFields(cs, rest.value, ps[1..]);
        } else {
          TidyMerge(cs, TreeAt(cs, l.items, p.key), p.value);
          var replacement := MergeLinked(cs, TreeAt(cs, l.items, p.key), p.value);
          if replacement.Intact? {
            var m := Field(p.key, replacement.v);
            TidyGrown(rest.value, m);
            if Grow(rest.value, m).Whole? { TidyFields(cs, Grow(rest.value, m).l, ps[1..]); }
          }
        }
      }
    }
  }

  lemma TidyTaken(cs: bool, l: List<Field>, key: string)
    requires Tidy(ObjectOf(l))
    ensures var t := TreeAt(cs, l.items, key); t.Some? ==> Tidy(t.value)
    ensures var r := TakeOut(cs, l, key); r.Some? ==> Tidy(ObjectOf(r.value))
  {
    hide Detach;
    var f := Find(cs, EraseFields(l.items), key);
    if f.Some? {
      TidyLists(l, f.value, l.items[f.value]);
      DetachedItems(l, f.value);
    }
  }

  // ---------------------------------------------------------------------------
  // Patches that damage

  lemma RenamePatch(g: bool, x: Member, y: Member)
    requires x.key != y.key
    ensures GenerateMergePatch(g, Object([x]), Object([y])) ==
      Some(Object(if Less(true, y.key, x.key) then [y, Member(x.key, Null)] else [Member(x.key, Null), y]))
  {
    hide ChangedMember;
    var from, gone := Object([x]), Member(x.key, Null);
    CompareZero(true, x.key, y.key);
    CompareFlip(true, x.key, y.key);
    SortedBounded(g, from);
    var h := Height(from);
    assert SortMembers(g, [x]) == [x] && SortMembers(g, [y]) == [y];
    assert [x][1..] == [] && [y][1..] == [];
    assert PatchMembers(g, [], [], h) == [];
    assert PatchMembers(g, [x], [], h) == [gone] && PatchMembers(g, [], [y], h) == [y];
    assert [y] + [gone] == [y, gone] && [gone] + [y] == [gone, y];
  }

  /** The patch that renames the only member of a parsed object damages its list exactly when the
      new name comes first. */
  lemma MergeRenameDamages(cs: bool, g: bool, x: Member, y: Member)
    requires Compare(cs, x.key, y.key) != 0 && WellFormed(cs, y.value) && !y.value.Null?
    ensures
      var p := GenerateMergePatch(g, Object([x]), Object([y]));
      p.Some? && (MergeLinked(cs, Some(Fresh(Object([x]))), p.value).Broken? <==> Less(true, y.key, x.key))
  {
    hide MergeLinked, GenerateMergePatch, Mergeable, TouchAll;
    var gone, k, m := Member(x.key, Null), FoldString(cs, x.key), FoldString(cs, y.key);
    SameKey(cs, x.key, y.key);
    SameKey(cs, x.key, x.key);
    RenamePatch(g, x, y);
    var t, ps := Fresh(Object([x])), if Less(true, y.key, x.key) then [y, gone] else [gone, y];
    PairWellFormed(cs, y, gone);
    MergeDamage(cs, Some(t), Object(ps));
    TidyFresh(Object([x]));
    TidyMerge(cs, Some(t), Object(ps));
    assert KeysOf(cs, FreshFields([x])) == [k];
    TwoInTurn(List([k], Unset), Touch(m, true), Touch(k, false));
    TwoInTurn(List([k], Unset), Touch(k, false), Touch(m, true));
    RenameRun(k, m);
    assert MergeTouches(cs, [y, gone]) == [Touch(m, true), Touch(k, false)];
    assert MergeTouches(cs, [gone, y]) == [Touch(k, false), Touch(m, true)];
    OnlyNew(cs, t, x, y, ps);
  }

  lemma PairWellFormed(cs: bool, a: Member, b: Member)
    requires FoldString(cs, a.key) != FoldString(cs, b.key) && WellFormed(cs, a.value) && WellFormed(cs, b.value)
    ensures WellFormed(cs, Object([a, b])) && WellFormed(cs, Object([b, a]))
  {
    SameKey(cs, a.key, b.key);
    SameKey(cs, b.key, a.key);
  }

  /** A patch that names one new member and deletes the other. */
  lemma OnlyNew(cs: bool, t: Tree, x: Member, y: Member, ps: seq<Member>)
    requires t == Fresh(Object([x])) && Compare(cs, x.key, y.key) != 0 && WellFormed(cs, y.value) && !y.value.Null?
    requires ps == [y, Member(x.key, Null)] || ps == [Member(x.key, Null), y]
    ensures Mergeable(cs, Some(t), Object(ps))
      <==> TouchAll(List(KeysOf(cs, FreshFields([x])), Unset), MergeTouches(cs, ps)).Some?
  {
    hide TouchAll;
    SameKey(cs, x.key, y.key);
    assert TreeAt(cs, FreshFields([x]), y.key).None?;
    IntoNothing(cs, y.value);
    BelowOnce(cs, t.fields, ps);
  }

  /** A patch that sets both members of a parsed object damages its list. */
  lemma SettingBothDamages(cs: bool, a: Member, b: Member, v: Json, w: Json)
    requires Compare(cs, a.key, b.key) != 0 && WellFormed(cs, v) && !v.Null? && WellFormed(cs, w) && !w.Null?
    ensures MergeLinked(cs, Some(Fresh(Object([a, b]))), Object([Member(a.key, v), Member(b.key, w)])).Broken?
  {
    hide MergeLinked, TouchAll;
    var t, ps := Fresh(Object([a, b])), [Member(a.key, v), Member(b.key, w)];
    var k, m := FoldString(cs, a.key), FoldString(cs, b.key);
    SameKey(cs, a.key, b.key);
    PairWellFormed(cs, ps[0], ps[1]);
    MergeDamage(cs, Some(t), Object(ps));
    TidyFresh(Object([a, b]));
    TidyMerge(cs, Some(t), Object(ps));
    assert KeysOf(cs, FreshFields([a, b])) == [k, m];
    assert MergeTouches(cs, ps) == [Touch(k, true), Touch(m, true)];
    TwoInTurn(List([k, m], Unset), Touch(k, true), Touch(m, true));
    BothRun(k, m);
  }

  /** What is lost may be what the patch goes on to delete: the value is right then, by chance. */
  lemma LossByChance(cs: bool, x: Tree, y: Tree, z: Tree)
    ensures
      var t := ObjectNode([Field("a", x), Field("c", y), Field("d", z)], Cached(1));
      var patch := Object([Member("b", True), Member("d", Null)]);
      var r := MergeLinked(cs, Some(t), patch);
      && r == Lossy(ObjectNode([Field("a", x), Field("c", y), Field("b", Leaf(True))], Cached(2)))
      && Erase(r.v) == MergePatch(cs, Some(Erase(t)), patch)
  {
    hide MergePatch, MergeFields;
    var fs, m := [Field("a", x), Field("c", y), Field("d", z)], Field("b", Leaf(True));
    ChanceMerge(cs, x, y, z);
    ChanceValue(cs, Erase(x), Erase(y), Erase(z));
    assert EraseFields([Field("a", x), Field("c", y), m]) ==
      [Member("a", Erase(x)), Member("c", Erase(y)), Member("b", True)];
    assert EraseFields(fs) == [Member("a", Erase(x)), Member("c", Erase(y)), Member("d", Erase(z))];
  }

  lemma ChanceMerge(cs: bool, x: Tree, y: Tree, z: Tree)
    ensures
      MergeFields(cs, List([Field("a", x), Field("c", y), Field("d", z)], Cached(1)),
        [Member("b", True), Member("d", Null)])
        == Lossy(List([Field("a", x), Field("c", y), Field("b", Leaf(True))], Cached(2)))
  {
    var fs, m := [Field("a", x), Field("c", y), Field("d", z)], Field("b", Leaf(True));
    var l, cut := List(fs, Cached(1)), List([Field("a", x), Field("c", y), m], Cached(2));
    var p, q := Member("b", True), Member("d", Null);
    FourKeys(cs);
    NotAmong(cs, EraseFields(fs), "b");
    NotAmong(cs, EraseFields(cut.items), "d");
    assert fs[..2] + [m] == cut.items;
    assert Grow(l, m) == Growth.Short(cut);
    assert [p, q][1..] == [q] && [q][1..] == [];
    assert MergeFields(cs, cut, [q]) == Intact(cut);
    assert MergeLinked(cs, None, True) == Intact(Leaf(True));
  }

  lemma NotAmong(cs: bool, ms: seq<Member>, key: string)
    requires forall i :: 0 <= i < |ms| ==> Compare(cs, key, ms[i].key) != 0
    ensures Find(cs, ms, key).None?
  {
  }

  lemma FourKeys(cs: bool)
    ensures Compare(cs, "b", "a") != 0 && Compare(cs, "b", "c") != 0 && Compare(cs, "b", "d") != 0
    ensures Compare(cs, "d", "a") != 0 && Compare(cs, "d", "c") != 0 && Compare(cs, "d", "b") != 0
      && Compare(cs, "d", "d") == 0
  {
    CompareZero(cs, "d", "d");
  }

  lemma ChanceValue(cs: bool, x: Json, y: Json, z: Json)
    ensures
      MergePatch(cs, Some(Object([Member("a", x), Member("c", y), Member("d", z)])),
        Object([Member("b", True), Member("d", Null)]))
        == Object([Member("a", x), Member("c", y), Member("b", True)])
  {
    hide Compare;
    var ms := [Member("a", x), Member("c", y), Member("d", z)];
    var grown, kept := ms + [Member("b", True)], [Member("a", x), Member("c", y), Member("b", True)];
    var p, q := Member("b", True), Member("d", Null);
    FourKeys(cs);
    NotAmong(cs, ms, "b");
    FindIs(cs, grown, "d", 2);
    assert RemoveAt(grown, 2) == kept;
    assert [p, q][1..] == [q] && [q][1..] == [];
    assert MergeMembers(cs, grown, [q]) == MergeMembers(cs, kept, []) == kept;
    assert MergeMembers(cs, ms, [p, q]) == MergeMembers(cs, grown, [q]);
  }
}
