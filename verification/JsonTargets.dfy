/** What a walk over two member lists is to make of an object: the keys of `xs` go, those of `ys`
    come. */
module JsonTargets {
  import opened Options
  import opened Strings
  import opened Json

  /** The member of the document that `x` stands for. */
  ghost predicate Present(cs: bool, cur: seq<Member>, x: Member) {
    var f := Find(cs, cur, x.key);
    f.Some? && Norm(cs, cur[f.value].value) == Norm(cs, x.value) && WellFormed(cs, cur[f.value].value)
  }

  /** The object the list makes out of `cur`: what `xs` does not speak of, and `ys`. */
  ghost function Goal(cs: bool, cur: seq<Member>, xs: seq<Member>, ys: seq<Member>): map<string, Value> {
    (NormMembers(cs, cur) - NormMembers(cs, xs).Keys) + NormMembers(cs, ys)
  }

  /** Keys of `ys` the object has already are keys of `xs`. */
  ghost predicate OnlyFrom(cs: bool, cur: seq<Member>, xs: seq<Member>, ys: seq<Member>) {
    forall k :: k in NormMembers(cs, ys) && k in NormMembers(cs, cur) ==> k in NormMembers(cs, xs)
  }

  lemma GoalMaps(c: map<string, Value>, x: map<string, Value>, y: map<string, Value>, k: string, v: Value, w: Value)
    requires k !in x && k !in y
    requires forall q :: q in y && q in c ==> q in x || q == k
    ensures (c[k := v] - x.Keys) + y == (c - x[k := w].Keys) + y[k := v]
    ensures forall q :: q in y && q in c[k := v] ==> q in x
    ensures k !in c ==> (c[k := v] - x.Keys) + y == (c - x.Keys) + y[k := v]
  {
  }

  lemma DropMaps(c: map<string, Value>, x: map<string, Value>, y: map<string, Value>, k: string, w: Value)
    requires k !in x && forall q :: q in y && q in c ==> q in x || q == k
    ensures ((c - {k}) - x.Keys) + y == (c - x[k := w].Keys) + y
    ensures forall q :: q in y && q in c - {k} ==> q in x
  {
  }

  lemma GoalBoth(cs: bool, cur: seq<Member>, cur': seq<Member>, xs: seq<Member>, ys: seq<Member>)
    requires OnlyFrom(cs, cur, xs, ys) && xs != [] && ys != []
    requires FoldString(cs, xs[0].key) == FoldString(cs, ys[0].key)
    requires FoldString(cs, xs[0].key) !in NormMembers(cs, xs[1..])
    requires FoldString(cs, ys[0].key) !in NormMembers(cs, ys[1..])
    requires NormMembers(cs, cur') == NormMembers(cs, cur)[FoldString(cs, xs[0].key) := Norm(cs, ys[0].value)]
    ensures Goal(cs, cur', xs[1..], ys[1..]) == Goal(cs, cur, xs, ys)
    ensures OnlyFrom(cs, cur', xs[1..], ys[1..])
  {
    GoalMaps(NormMembers(cs, cur), NormMembers(cs, xs[1..]), NormMembers(cs, ys[1..]),
             FoldString(cs, xs[0].key), Norm(cs, ys[0].value), Norm(cs, xs[0].value));
  }

  lemma GoalDrop(cs: bool, cur: seq<Member>, cur': seq<Member>, xs: seq<Member>, ys: seq<Member>)
    requires OnlyFrom(cs, cur, xs, ys) && xs != []
    requires FoldString(cs, xs[0].key) !in NormMembers(cs, xs[1..])
    requires NormMembers(cs, cur') == NormMembers(cs, cur) - {FoldString(cs, xs[0].key)}
    ensures Goal(cs, cur', xs[1..], ys) == Goal(cs, cur, xs, ys)
    ensures OnlyFrom(cs, cur', xs[1..], ys)
  {
    DropMaps(NormMembers(cs, cur), NormMembers(cs, xs[1..]), NormMembers(cs, ys), FoldString(cs, xs[0].key),
      Norm(cs, xs[0].value));
  }

  lemma GoalAdd(cs: bool, cur: seq<Member>, cur': seq<Member>, xs: seq<Member>, ys: seq<Member>)
    requires OnlyFrom(cs, cur, xs, ys) && ys != []
    requires FoldString(cs, ys[0].key) !in NormMembers(cs, ys[1..])
    requires FoldString(cs, ys[0].key) !in NormMembers(cs, xs)
    requires NormMembers(cs, cur') == NormMembers(cs, cur)[FoldString(cs, ys[0].key) := Norm(cs, ys[0].value)]
    ensures Goal(cs, cur', xs, ys[1..]) == Goal(cs, cur, xs, ys)
    ensures OnlyFrom(cs, cur', xs, ys[1..])
  {
    var k := FoldString(cs, ys[0].key);
    assert k in NormMembers(cs, ys);
    assert k !in NormMembers(cs, cur);
    GoalMaps(NormMembers(cs, cur), NormMembers(cs, xs), NormMembers(cs, ys[1..]),
             k, Norm(cs, ys[0].value), Norm(cs, ys[0].value));
  }

  lemma GoalHas(cs: bool, cur: seq<Member>, xs: seq<Member>, ys: seq<Member>, k: string)
    ensures k in NormMembers(cs, ys) ==>
      k in Goal(cs, cur, xs, ys) && Goal(cs, cur, xs, ys)[k] == NormMembers(cs, ys)[k]
    ensures k in NormMembers(cs, cur) && k !in NormMembers(cs, xs) ==> k in Goal(cs, cur, xs, ys)
  {
  }
}
