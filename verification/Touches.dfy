/** A run of changes to one object, key by key: each takes the member with its key out, if
    there is one, and may append a new one.  JSON Patch lists and merge patches do nothing else
    to the list of an object's members. */
module Touches {
  import opened Options
  import opened Json
  import opened Sort
  import opened ChildList

  datatype Touch = Touch(key: string, append: bool)

  function KeyIndex(keys: seq<string>, key: string): (r: Option<nat>)
    ensures r.Some? ==> r.value < |keys| && keys[r.value] == key
    ensures r.None? ==> key !in keys
  {
    if keys == [] then None
    else if keys[0] == key then Some(0)
    else match KeyIndex(keys[1..], key)
      case None => None
      case Some(i) => Some(i + 1)
  }

  /** What one change does to the keys in the list and to the cache. */
  function TouchOne(l: List<string>, t: Touch): Option<List<string>> {
    var rest := match KeyIndex(l.items, t.key) case None => Some(l) case Some(i) => Detach(l, i);
    if rest.None? || !t.append then rest else ChildList.Append(rest.value, t.key)
  }

  function TouchAll(l: List<string>, ts: seq<Touch>): Option<List<string>>
    decreases |ts|
  {
    if ts == [] then Some(l)
    else match TouchOne(l, ts[0])
      case None => None
      case Some(l') => TouchAll(l', ts[1..])
  }

  /** Some change finds its member in front: every member before it has been taken out by an
      earlier change.  And it comes behind a change that appends. */
  predicate HeadHit(keys: seq<string>, ts: seq<Touch>) {
    HitBehind(keys, false, ts)
  }

  /** The same when the list may have been appended to before. */
  predicate HitBehind(keys: seq<string>, appended: bool, ts: seq<Touch>) {
    exists i, q | 0 <= i < |keys| && 0 <= q < |ts| :: HitAt(keys, appended, ts, i, q)
  }

  predicate HitAt(keys: seq<string>, appended: bool, ts: seq<Touch>, i: nat, q: nat)
    requires i < |keys| && q < |ts|
  {
    && ts[q].key == keys[i]
    && (forall k :: k in keys[..i] ==> Touched(ts[..q], k))
    && (appended || Appends(ts[..q]))
  }

  predicate Touched(ts: seq<Touch>, key: string) {
    exists r :: 0 <= r < |ts| && ts[r].key == key
  }

  predicate Appends(ts: seq<Touch>) {
    exists r :: 0 <= r < |ts| && ts[r].append
  }

  ghost predicate OneEach(ts: seq<Touch>) {
    forall i, j :: 0 <= i < j < |ts| ==> ts[i].key != ts[j].key
  }

  lemma FirstOf(ts: seq<Touch>, q: nat, key: string)
    requires 0 < q <= |ts|
    ensures Touched(ts[..q], key) <==> ts[0].key == key || Touched(ts[1..][..q - 1], key)
    ensures Appends(ts[..q]) <==> ts[0].append || Appends(ts[1..][..q - 1])
  {
    var a, b := ts[..q], ts[1..][..q - 1];
    assert a == [ts[0]] + b;
    assert a[0] == ts[0] && forall r :: 0 <= r < |b| ==> a[r + 1] == b[r];
  }

  lemma HitMoves(keys: seq<string>, appended: bool, ts: seq<Touch>, q: nat, i: nat, keys': seq<string>, i': nat)
    requires 0 < q < |ts| && i < |keys| && i' < |keys'| && keys[i] == keys'[i']
    requires forall k :: k != ts[0].key ==> (k in keys[..i] <==> k in keys'[..i'])
    requires ts[0].key !in keys'
    ensures HitAt(keys, appended, ts, i, q) <==> HitAt(keys', appended || ts[0].append, ts[1..], i', q - 1)
  {
    forall key ensures Touched(ts[..q], key) <==> ts[0].key == key || Touched(ts[1..][..q - 1], key) {
      FirstOf(ts, q, key);
    }
    FirstOf(ts, q, "");
    assert ts[0].key !in keys'[..i'];
  }

  /** A change whose member is not there. */
  lemma HitSkips(keys: seq<string>, appended: bool, ts: seq<Touch>)
    requires ts != [] && ts[0].key !in keys
    ensures HitBehind(keys, appended, ts) <==> HitBehind(keys, appended || ts[0].append, ts[1..])
  {
    if HitBehind(keys, appended, ts) {
      var i, q :| 0 <= i < |keys| && 0 <= q < |ts| && HitAt(keys, appended, ts, i, q);
      HitMoves(keys, appended, ts, q, i, keys, i);
      assert HitAt(keys, appended || ts[0].append, ts[1..], i, q - 1);
    }
    if HitBehind(keys, appended || ts[0].append, ts[1..]) {
      var i, q :| 0 <= i < |keys| && 0 <= q < |ts[1..]| && HitAt(keys, appended || ts[0].append, ts[1..], i, q);
      HitMoves(keys, appended, ts, q + 1, i, keys, i);
      assert HitAt(keys, appended, ts, i, q + 1);
    }
  }

  lemma HitTakes(keys: seq<string>, f: nat, appended: bool, ts: seq<Touch>)
    requires ts != [] && f < |keys| && ts[0].key == keys[f] && NoRepeats(keys) && OneEach(ts)
    requires !(f == 0 && appended)
    ensures HitBehind(keys, appended, ts) <==> HitBehind(RemoveAt(keys, f), appended || ts[0].append, ts[1..])
  {
    hide HitAt, NoRepeats, OneEach;
    var keys', a' := RemoveAt(keys, f), appended || ts[0].append;
    if HitBehind(keys, appended, ts) {
      var i, q :| 0 <= i < |keys| && 0 <= q < |ts| && HitAt(keys, appended, ts, i, q);
      NotYet(keys, f, appended, ts, i, q);
      TakenBefore(keys, f, appended, ts, i, q);
      assert HitAt(keys', a', ts[1..], if i < f then i else i - 1, q - 1);
    }
    if HitBehind(keys', a', ts[1..]) {
      var i', q' :| 0 <= i' < |keys'| && 0 <= q' < |ts[1..]| && HitAt(keys', a', ts[1..], i', q');
      var i := if i' < f then i' else i' + 1;
      TakenBefore(keys, f, appended, ts, i, q' + 1);
      assert HitAt(keys, appended, ts, i, q' + 1);
    }
  }

  lemma NotYet(keys: seq<string>, f: nat, appended: bool, ts: seq<Touch>, i: nat, q: nat)
    requires ts != [] && f < |keys| && ts[0].key == keys[f] && NoRepeats(keys) && OneEach(ts)
    requires !(f == 0 && appended)
    requires i < |keys| && q < |ts| && HitAt(keys, appended, ts, i, q)
    ensures i != f && q > 0
  {
    assert ts[..0] == [];
    assert f > 0 ==> keys[0] in keys[..f];
  }

  lemma TakenBefore(keys: seq<string>, f: nat, appended: bool, ts: seq<Touch>, i: nat, q: nat)
    requires f < |keys| && i < |keys| && i != f && 0 < q < |ts| && ts[0].key == keys[f] && NoRepeats(keys)
    ensures HitAt(keys, appended, ts, i, q)
       <==> HitAt(RemoveAt(keys, f), appended || ts[0].append, ts[1..], if i < f then i else i - 1, q - 1)
  {
    hide HitAt;
    var keys', i' := RemoveAt(keys, f), if i < f then i else i - 1;
    assert keys'[..i'] == if i < f then keys[..i] else keys[..f] + keys[f + 1..i];
    if i > f {
      assert keys[..i] == keys[..f] + [keys[f]] + keys[f + 1..i];
    }
    HitMoves(keys, appended, ts, q, i, keys', i');
  }

  /** What the list looks like on the way: the members that were there, then the new ones. */
  ghost predicate OnTheWay(l: List<string>, left: seq<string>, added: seq<string>) {
    l.items == left + added && (l.items != [] ==> if added == [] then l.tail == Unset else CachesLast(l))
  }

  lemma TouchStep(l: List<string>, left: seq<string>, added: seq<string>, t: Touch)
      returns (left': seq<string>, added': seq<string>)
    requires OnTheWay(l, left, added) && NoRepeats(left) && t.key !in added
    ensures
      match KeyIndex(left, t.key)
      case Some(0) => TouchOne(l, t).None? <==> added != []
      case _ => TouchOne(l, t).Some?
    ensures TouchOne(l, t).Some? ==> OnTheWay(TouchOne(l, t).value, left', added')
    ensures left' == match KeyIndex(left, t.key) case None => left case Some(f) => RemoveAt(left, f)
    ensures added' == if t.append then added + [t.key] else added
  {
    hide KeyIndex, RemoveAt, NoRepeats;
    IndexInFront(left, added, t.key);
    var f := KeyIndex(left, t.key);
    left' := match f case None => left case Some(i) => RemoveAt(left, i);
    added' := if t.append then added + [t.key] else added;
    if f.Some? {
      TakenOut(left, added, f.value);
    }
    assert (left' + added) + [t.key] == left' + (added + [t.key]);
  }

  lemma TakenOut(left: seq<string>, added: seq<string>, f: nat)
    requires f < |left| && NoRepeats(left)
    ensures RemoveAt(left + added, f) == RemoveAt(left, f) + added && NoRepeats(RemoveAt(left, f))
  {
  }

  lemma {:induction false} IndexInFront(a: seq<string>, b: seq<string>, key: string)
    requires key !in b
    ensures KeyIndex(a + b, key) == KeyIndex(a, key)
  {
    if a == [] {
      assert a + b == b;
    } else {
      assert (a + b)[0] == a[0] && (a + b)[1..] == a[1..] + b;
      IndexInFront(a[1..], b, key);
    }
  }

  lemma {:induction false} TouchRun(l: List<string>, left: seq<string>, added: seq<string>, ts: seq<Touch>)
    requires OnTheWay(l, left, added) && NoRepeats(left) && OneEach(ts)
    requires forall r :: 0 <= r < |ts| ==> ts[r].key !in added
    ensures TouchAll(l, ts).None? <==> HitBehind(left, added != [], ts)
    decreases |ts|
  {
    hide HitAt, NoRepeats, KeyIndex, RemoveAt, TouchOne;
    if ts != [] {
      var left', added' := TouchStep(l, left, added, ts[0]);
      var f := KeyIndex(left, ts[0].key);
      if f == Some(0) && added != [] {
        HitNow(left, ts);
      } else {
        LeftApart(left, f);
        LaterKeys(ts, added, added');
        TouchRun(TouchOne(l, ts[0]).value, left', added', ts[1..]);
        if f.None? {
          HitSkips(left, added != [], ts);
        } else {
          HitTakes(left, f.value, added != [], ts);
        }
      }
    }
  }

  lemma HitNow(left: seq<string>, ts: seq<Touch>)
    requires left != [] && ts != [] && ts[0].key == left[0]
    ensures HitAt(left, true, ts, 0, 0)
  {
    assert ts[..0] == [] && left[..0] == [];
  }

  lemma LeftApart(left: seq<string>, f: Option<nat>)
    requires NoRepeats(left) && (f.Some? ==> f.value < |left|)
    ensures f.Some? ==> NoRepeats(RemoveAt(left, f.value))
  {
  }

  lemma LaterKeys(ts: seq<Touch>, added: seq<string>, added': seq<string>)
    requires ts != [] && OneEach(ts) && forall r :: 0 <= r < |ts| ==> ts[r].key !in added
    requires added' == if ts[0].append then added + [ts[0].key] else added
    ensures OneEach(ts[1..]) && forall r :: 0 <= r < |ts[1..]| ==> ts[1..][r].key !in added'
  {
    forall r | 0 <= r < |ts[1..]| ensures ts[1..][r].key !in added' {
      assert ts[1..][r] == ts[r + 1];
      assert ts[0].key != ts[r + 1].key;
    }
    forall i, j | 0 <= i < j < |ts[1..]| ensures ts[1..][i].key != ts[1..][j].key {
      assert ts[i + 1].key != ts[j + 1].key;
    }
  }

  /** Changes to an object as the parser made it damage its list exactly when one of them
      takes out the first member behind one that appended. */
  lemma DamageIsHeadHit(keys: seq<string>, ts: seq<Touch>)
    requires NoRepeats(keys) && OneEach(ts)
    ensures TouchAll(List(keys, Unset), ts).None? <==> HeadHit(keys, ts)
  {
    assert keys + [] == keys;
    TouchRun(List(keys, Unset), keys, [], ts);
  }

  // ---------------------------------------------------------------------------
  // Changes in turn

  lemma {:induction false} TouchConcat(l: List<string>, a: seq<Touch>, b: seq<Touch>)
    ensures TouchAll(l, a + b) == if TouchAll(l, a).None? then None else TouchAll(TouchAll(l, a).value, b)
    decreases |a|
  {
    hide TouchOne;
    if a == [] {
      assert a + b == b;
    } else {
      assert (a + b)[0] == a[0] && (a + b)[1..] == a[1..] + b;
      if TouchOne(l, a[0]).Some? { TouchConcat(TouchOne(l, a[0]).value, a[1..], b); }
    }
  }

  lemma OneTouch(l: List<string>, u: Touch)
    ensures TouchAll(l, [u]) == TouchOne(l, u)
  {
    assert [u][1..] == [];
    if TouchOne(l, u).Some? { assert TouchAll(TouchOne(l, u).value, []) == TouchOne(l, u); }
  }

  lemma TwoInTurn(l: List<string>, t: Touch, u: Touch)
    ensures TouchAll(l, [t, u]) == if TouchOne(l, t).None? then None else TouchOne(TouchOne(l, t).value, u)
  {
    hide TouchOne;
    assert [t, u][1..] == [u];
    if TouchOne(l, t).Some? { OneTouch(TouchOne(l, t).value, u); }
  }

  /** Taking out and then appending. */
  lemma TwoTouches(l: List<string>, rest: List<string>, key: string)
    requires TouchOne(l, Touch(key, false)) == Some(rest)
    requires KeyIndex(rest.items, key).None?
    ensures TouchOne(l, Touch(key, true)) == TouchOne(rest, Touch(key, true))
  {
  }

  lemma BrokenTouch(l: List<string>, key: string)
    requires TouchOne(l, Touch(key, false)).None?
    ensures TouchOne(l, Touch(key, true)).None?
  {
  }

  /** One member makes way for another: appending first breaks the list. */
  lemma RenameRun(k: string, m: string)
    requires k != m
    ensures
      var l := List([k], Unset);
      && TouchOne(l, Touch(m, true)) == Some(List([k, m], Cached(1)))
      && TouchOne(List([k, m], Cached(1)), Touch(k, false)).None?
      && TouchOne(l, Touch(k, false)) == Some(List([], Unset))
      && TouchOne(List([], Unset), Touch(m, true)).Some?
  {
    assert [k] + [m] == [k, m] && [k][1..] == [];
    assert KeyIndex([k], k) == Some(0) && KeyIndex([k, m], k) == Some(0);
  }

  /** Both members are set anew. */
  lemma BothRun(k: string, m: string)
    requires k != m
    ensures TouchOne(List([k, m], Unset), Touch(k, true)) == Some(List([m, k], Cached(1)))
    ensures TouchOne(List([m, k], Cached(1)), Touch(m, true)).None?
  {
    assert [k, m][1..] == [m] && [m] + [k] == [m, k];
    assert KeyIndex([k, m], k) == Some(0) && KeyIndex([m, k], m) == Some(0);
    assert RemoveAt([k, m], 0) == [m];
  }
}
