/** The members of an object in memory as a list of keys, and what a change to the list leaves of
    the others. */
module LinkedFields {
  import opened Options
  import opened Strings
  import opened Sort
  import opened Json
  import opened ChildList
  import opened Touches
  import opened LinkedJson

  /** The keys of an object's members, up to folding, and what its list caches. */
  function KeysOf(cs: bool, fs: seq<Field>): (r: seq<string>)
    ensures |r| == |fs|
  {
    seq(|fs|, i requires 0 <= i < |fs| => FoldString(cs, fs[i].key))
  }

  function KeyList(cs: bool, l: List<Field>): List<string> {
    List(KeysOf(cs, l.items), l.tail)
  }

  lemma {:induction false} KeyIndexIsFind(cs: bool, fs: seq<Field>, key: string)
    ensures KeyIndex(KeysOf(cs, fs), FoldString(cs, key)) == Find(cs, EraseFields(fs), key)
  {
    if fs != [] {
      SameKey(cs, key, fs[0].key);
      assert KeysOf(cs, fs)[1..] == KeysOf(cs, fs[1..]) && EraseFields(fs)[1..] == EraseFields(fs[1..]);
      KeyIndexIsFind(cs, fs[1..], key);
    }
  }

  lemma DetachKeys(cs: bool, l: List<Field>, f: nat)
    requires f < |l.items|
    ensures Detach(l, f).Some? <==> Detach(KeyList(cs, l), f).Some?
    ensures Detach(l, f).Some? ==> Detach(KeyList(cs, l), f).value == KeyList(cs, Detach(l, f).value)
    ensures Detach(l, f).Some? ==> EraseFields(Detach(l, f).value.items) == RemoveAt(EraseFields(l.items), f)
  {
    assert KeysOf(cs, RemoveAt(l.items, f)) == RemoveAt(KeysOf(cs, l.items), f);
    assert EraseFields(RemoveAt(l.items, f)) == RemoveAt(EraseFields(l.items), f);
  }

  lemma AppendKeys(cs: bool, l: List<Field>, m: Field)
    ensures Append(l, m).Some? <==> Append(KeyList(cs, l), FoldString(cs, m.key)).Some?
    ensures Append(l, m).Some? ==>
      Append(KeyList(cs, l), FoldString(cs, m.key)).value == KeyList(cs, Append(l, m).value)
    ensures Append(l, m).Some? ==>
      EraseFields(Append(l, m).value.items) == EraseFields(l.items) + [Member(m.key, Erase(m.tree))]
  {
    assert KeysOf(cs, l.items + [m]) == KeysOf(cs, l.items) + [FoldString(cs, m.key)];
  }

  lemma DistinctFolded(cs: bool, fs: seq<Field>)
    requires DistinctKeys(cs, EraseFields(fs))
    ensures NoRepeats(KeysOf(cs, fs))
  {
    forall i, j | 0 <= i < j < |fs| ensures KeysOf(cs, fs)[i] != KeysOf(cs, fs)[j] {
      DistinctFolds(cs, EraseFields(fs), i, j);
    }
  }

  lemma DetachedItems<T>(l: List<T>, f: nat)
    requires f < |l.items|
    ensures Detach(l, f).Some? ==> Detach(l, f).value.items == RemoveAt(l.items, f)
  {
  }

  lemma TakenIsGone(cs: bool, ms: seq<Member>, key: string)
    requires DistinctKeys(cs, ms) && Find(cs, ms, key).Some?
    ensures Find(cs, RemoveAt(ms, Find(cs, ms, key).value), key).None?
  {
    var f := Find(cs, ms, key).value;
    SameKey(cs, key, ms[f].key);
    NormRemove(cs, ms, f);
    NormMembersFind(cs, RemoveAt(ms, f), key);
  }

  lemma AppendedItems<T>(l: List<T>, m: T)
    ensures Append(l, m).Some? ==> Append(l, m).value.items == l.items + [m]
  {
  }

  // ---------------------------------------------------------------------------
  // The other members

  /** The member with this key, if there is one. */
  function TreeAt(cs: bool, fs: seq<Field>, key: string): Option<Tree> {
    match Find(cs, EraseFields(fs), key)
    case None => None
    case Some(i) => Some(fs[i].tree)
  }

  /** It is the same before and after. */
  ghost predicate SameTrees(cs: bool, fs: seq<Field>, fs': seq<Field>, xs: seq<Member>) {
    forall i :: 0 <= i < |xs| ==> TreeAt(cs, fs, xs[i].key) == TreeAt(cs, fs', xs[i].key)
  }

  ghost predicate OtherKeys(cs: bool, key: string, xs: seq<Member>) {
    forall i :: 0 <= i < |xs| ==> Compare(cs, key, xs[i].key) != 0
  }

  lemma SameWhenAppended(cs: bool, fs: seq<Field>, m: Field, xs: seq<Member>)
    requires OtherKeys(cs, m.key, xs)
    ensures SameTrees(cs, fs, fs + [m], xs)
  {
    hide TreeAt;
    forall i | 0 <= i < |xs| ensures TreeAt(cs, fs, xs[i].key) == TreeAt(cs, fs + [m], xs[i].key) {
      SameKey(cs, m.key, xs[i].key);
      AppendedTree(cs, fs, m, xs[i].key);
    }
  }

  lemma AppendedTree(cs: bool, fs: seq<Field>, m: Field, key: string)
    requires Compare(cs, key, m.key) != 0
    ensures TreeAt(cs, fs, key) == TreeAt(cs, fs + [m], key)
  {
    hide Find, Compare, Erase;
    var ms, x := EraseFields(fs), Member(m.key, Erase(m.tree));
    assert EraseFields(fs + [m]) == ms + [x];
    if Find(cs, ms, key).Some? { FindAppended(cs, ms, x, key); }
  }

  lemma SameWhenTaken(cs: bool, fs: seq<Field>, key: string, xs: seq<Member>)
    requires OtherKeys(cs, key, xs) && Find(cs, EraseFields(fs), key).Some?
    ensures SameTrees(cs, fs, RemoveAt(fs, Find(cs, EraseFields(fs), key).value), xs)
  {
    hide TreeAt;
    var f := Find(cs, EraseFields(fs), key).value;
    forall i | 0 <= i < |xs| ensures TreeAt(cs, fs, xs[i].key) == TreeAt(cs, RemoveAt(fs, f), xs[i].key) {
      OtherKey(cs, key, fs[f].key, xs[i].key);
      RemovedTree(cs, fs, f, xs[i].key);
    }
  }

  lemma RemovedTree(cs: bool, fs: seq<Field>, f: nat, key: string)
    requires f < |fs| && Compare(cs, key, fs[f].key) != 0
    ensures TreeAt(cs, fs, key) == TreeAt(cs, RemoveAt(fs, f), key)
  {
    hide Find, Compare, Erase, RemoveAt;
    EraseRemoved(fs, f);
    if Find(cs, EraseFields(fs), key).Some? { FindRemoved(cs, EraseFields(fs), f, key); }
  }

  lemma EraseRemoved(fs: seq<Field>, f: nat)
    requires f < |fs|
    ensures EraseFields(RemoveAt(fs, f)) == RemoveAt(EraseFields(fs), f)
  {
    hide Erase;
  }

  lemma SameWhenSet(cs: bool, fs: seq<Field>, key: string, c: Tree, xs: seq<Member>)
    requires OtherKeys(cs, key, xs) && Find(cs, EraseFields(fs), key).Some?
    ensures
      var f := Find(cs, EraseFields(fs), key).value;
      && SameTrees(cs, fs, fs[f := fs[f].(tree := c)], xs)
      && KeysOf(cs, fs[f := fs[f].(tree := c)]) == KeysOf(cs, fs)
  {
    var f := Find(cs, EraseFields(fs), key).value;
    var fs' := fs[f := fs[f].(tree := c)];
    hide TreeAt;
    forall i | 0 <= i < |xs| ensures TreeAt(cs, fs, xs[i].key) == TreeAt(cs, fs', xs[i].key) {
      OtherKey(cs, key, fs[f].key, xs[i].key);
      SetTree(cs, fs, f, c, xs[i].key);
    }
  }

  lemma SetTree(cs: bool, fs: seq<Field>, f: nat, c: Tree, key: string)
    requires f < |fs| && Compare(cs, key, fs[f].key) != 0
    ensures TreeAt(cs, fs, key) == TreeAt(cs, fs[f := fs[f].(tree := c)], key)
  {
    hide Find, Compare, Erase;
    FindSameKeys(cs, EraseFields(fs), EraseFields(fs[f := fs[f].(tree := c)]), key);
  }

  lemma SameTwice(cs: bool, a: seq<Field>, b: seq<Field>, c: seq<Field>, xs: seq<Member>)
    requires SameTrees(cs, a, b, xs)
    ensures SameTrees(cs, b, c, xs) ==> SameTrees(cs, a, c, xs)
  {
  }
}
