/** The cJSON value tree, what a value means, and member lookup. */
module Json {
  import opened Options
  import opened Strings
  import opened Sort

  /** A `cJSON` node with its children in list order.  Numbers are integers. */
  datatype Json =
    | Invalid
    | False
    | True
    | Null
    | Number(n: int)
    | String(s: string)
    | Raw(raw: string)
    | Array(items: seq<Json>)
    | Object(members: seq<Member>)

  datatype Member = Member(key: string, value: Json)

  function MemberKey(m: Member): string {
    m.key
  }

  /** `type & 0xFF`. */
  function Tag(j: Json): int {
    match j
    case Invalid => 0
    case False => 1
    case True => 2
    case Null => 4
    case Number(_) => 8
    case String(_) => 16
    case Array(_) => 32
    case Object(_) => 64
    case Raw(_) => 128
  }

  // ---------------------------------------------------------------------------
  // Meaning: objects are maps, arrays are sequences

  datatype Value =
    | VScalar(scalar: Json)
    | VArray(elements: seq<Value>)
    | VObject(fields: map<string, Value>)

  /** The value a tree stands for when keys are compared in mode `cs`; of two members
      with the same key the first counts, as in `get_object_item`. */
  function Norm(cs: bool, j: Json): Value
    decreases j, 0
  {
    match j
    case Array(items) => VArray(NormItems(cs, items))
    case Object(members) => VObject(NormMembers(cs, members))
    case _ => VScalar(j)
  }

  function NormItems(cs: bool, items: seq<Json>): (r: seq<Value>)
    ensures |r| == |items|
    ensures forall i :: 0 <= i < |items| ==> r[i] == Norm(cs, items[i])
    decreases items, 1
  {
    seq(|items|, i requires 0 <= i < |items| => Norm(cs, items[i]))
  }

  function NormMembers(cs: bool, ms: seq<Member>): map<string, Value>
    decreases ms, 1
  {
    if ms == [] then map[]
    else NormMembers(cs, ms[1..])[FoldString(cs, ms[0].key) := Norm(cs, ms[0].value)]
  }

  ghost predicate DistinctKeys(cs: bool, ms: seq<Member>) {
    Distinct(cs, ms, MemberKey)
  }

  /** Only the node types of RFC 8259, and no object with the same key twice. */
  ghost predicate WellFormed(cs: bool, j: Json) {
    match j
    case Invalid => false
    case Raw(_) => false
    case Array(items) => forall i :: 0 <= i < |items| ==> WellFormed(cs, items[i])
    case Object(ms) =>
      && DistinctKeys(cs, ms)
      && forall i :: 0 <= i < |ms| ==> WellFormed(cs, ms[i].value)
    case _ => true
  }

  // ---------------------------------------------------------------------------
  // Lookup

  /** `get_object_item`: the index of the first member with this key. */
  function Find(cs: bool, ms: seq<Member>, key: string): (r: Option<nat>)
    ensures r.Some? ==> r.value < |ms| && Compare(cs, key, ms[r.value].key) == 0
    ensures r.Some? ==> forall i :: 0 <= i < r.value ==> Compare(cs, key, ms[i].key) != 0
    ensures r.None? ==> forall i :: 0 <= i < |ms| ==> Compare(cs, key, ms[i].key) != 0
  {
    if ms == [] then None
    else if Compare(cs, key, ms[0].key) == 0 then Some(0)
    else match Find(cs, ms[1..], key)
      case None => None
      case Some(i) => Some(i + 1)
  }

  function GetObjectItem(cs: bool, j: Json, key: string): Option<Json> {
    if j.Object? then
      match Find(cs, j.members, key)
      case None => None
      case Some(i) => Some(j.members[i].value)
    else None
  }

  function RemoveAt<T>(s: seq<T>, i: nat): (r: seq<T>)
    requires i < |s|
    ensures |r| == |s| - 1
    ensures forall k :: 0 <= k < |r| ==> r[k] == s[if k < i then k else k + 1]
  {
    s[..i] + s[i + 1..]
  }

  // ---------------------------------------------------------------------------
  // Members as a map

  lemma SameKey(cs: bool, a: string, b: string)
    ensures Compare(cs, a, b) == 0 <==> FoldString(cs, a) == FoldString(cs, b)
    ensures Compare(cs, a, b) == 0 <==> Compare(cs, b, a) == 0
  {
    CompareZero(cs, a, b);
    CompareZero(cs, b, a);
  }

  lemma DistinctFolds(cs: bool, ms: seq<Member>, i: nat, j: nat)
    requires DistinctKeys(cs, ms) && i < |ms| && j < |ms| && i != j
    ensures FoldString(cs, ms[i].key) != FoldString(cs, ms[j].key)
  {
    var a, b := if i < j then i else j, if i < j then j else i;
    assert Compare(cs, MemberKey(ms[a]), MemberKey(ms[b])) != 0;
    SameKey(cs, ms[a].key, ms[b].key);
  }

  /** Every key of the map is the key of a member, and every member's key is in the map. */
  lemma {:induction false} NormMembersKeys(cs: bool, ms: seq<Member>)
    ensures forall i :: 0 <= i < |ms| ==> FoldString(cs, ms[i].key) in NormMembers(cs, ms)
    ensures forall k :: k in NormMembers(cs, ms) ==>
      exists i :: 0 <= i < |ms| && FoldString(cs, ms[i].key) == k
  {
    if ms != [] {
      var rest := NormMembers(cs, ms[1..]);
      NormMembersKeys(cs, ms[1..]);
      forall i | 0 <= i < |ms| ensures FoldString(cs, ms[i].key) in NormMembers(cs, ms) {
        if i > 0 { assert ms[i] == ms[1..][i - 1]; }
      }
      forall k | k in NormMembers(cs, ms)
        ensures exists i :: 0 <= i < |ms| && FoldString(cs, ms[i].key) == k
      {
        if k == FoldString(cs, ms[0].key) {
        } else {
          assert k in rest;
          var i :| 0 <= i < |ms[1..]| && FoldString(cs, ms[1..][i].key) == k;
          assert ms[i + 1].key == ms[1..][i].key;
        }
      }
    }
  }

  /** What the map holds is what lookup finds. */
  lemma {:induction false} NormMembersFind(cs: bool, ms: seq<Member>, key: string)
    ensures Find(cs, ms, key).Some? <==> FoldString(cs, key) in NormMembers(cs, ms)
    ensures Find(cs, ms, key).Some? ==>
      NormMembers(cs, ms)[FoldString(cs, key)] == Norm(cs, ms[Find(cs, ms, key).value].value)
  {
    if ms != [] {
      SameKey(cs, key, ms[0].key);
      NormMembersFind(cs, ms[1..], key);
    }
  }

  lemma NormMembersAt(cs: bool, ms: seq<Member>, i: nat)
    requires DistinctKeys(cs, ms) && i < |ms|
    ensures Find(cs, ms, ms[i].key) == Some(i)
    ensures FoldString(cs, ms[i].key) in NormMembers(cs, ms)
    ensures NormMembers(cs, ms)[FoldString(cs, ms[i].key)] == Norm(cs, ms[i].value)
  {
    var key := ms[i].key;
    SameKey(cs, key, key);
    var r := Find(cs, ms, key);
    assert r.Some?;
    if r.value != i {
      DistinctFolds(cs, ms, r.value, i);
      SameKey(cs, key, ms[r.value].key);
    }
    NormMembersFind(cs, ms, key);
  }

  /** Two member lists that answer every lookup alike are the same map. */
  lemma NormMembersExt(cs: bool, ms: seq<Member>, m: map<string, Value>)
    requires DistinctKeys(cs, ms)
    requires forall i :: 0 <= i < |ms| ==>
      FoldString(cs, ms[i].key) in m && m[FoldString(cs, ms[i].key)] == Norm(cs, ms[i].value)
    requires forall k :: k in m ==> exists i :: 0 <= i < |ms| && FoldString(cs, ms[i].key) == k
    ensures NormMembers(cs, ms) == m
  {
    var n := NormMembers(cs, ms);
    NormMembersKeys(cs, ms);
    forall k | k in n ensures k in m && m[k] == n[k] {
      var i :| 0 <= i < |ms| && FoldString(cs, ms[i].key) == k;
      NormMembersAt(cs, ms, i);
    }
  }

  lemma DistinctRemove(cs: bool, ms: seq<Member>, i: nat)
    requires DistinctKeys(cs, ms) && i < |ms|
    ensures DistinctKeys(cs, RemoveAt(ms, i))
  {
    var r := RemoveAt(ms, i);
    forall a, b | 0 <= a < b < |r| ensures Compare(cs, MemberKey(r[a]), MemberKey(r[b])) != 0 {
      assert r[a] == ms[if a < i then a else a + 1] && r[b] == ms[if b < i then b else b + 1];
    }
  }

  lemma NormRemove(cs: bool, ms: seq<Member>, i: nat)
    requires DistinctKeys(cs, ms) && i < |ms|
    ensures DistinctKeys(cs, RemoveAt(ms, i))
    ensures NormMembers(cs, RemoveAt(ms, i)) == NormMembers(cs, ms) - {FoldString(cs, ms[i].key)}
  {
    var r, k := RemoveAt(ms, i), FoldString(cs, ms[i].key);
    var m := NormMembers(cs, ms) - {k};
    DistinctRemove(cs, ms, i);
    forall j | 0 <= j < |r|
      ensures FoldString(cs, r[j].key) in m && m[FoldString(cs, r[j].key)] == Norm(cs, r[j].value)
    {
      var j' := if j < i then j else j + 1;
      assert r[j] == ms[j'];
      NormMembersAt(cs, ms, j');
      DistinctFolds(cs, ms, i, j');
    }
    RemoveCovers(cs, ms, i);
    NormMembersExt(cs, r, m);
  }

  lemma RemoveCovers(cs: bool, ms: seq<Member>, i: nat)
    requires i < |ms|
    ensures forall x :: x in NormMembers(cs, ms) && x != FoldString(cs, ms[i].key) ==>
      exists j :: 0 <= j < |RemoveAt(ms, i)| && FoldString(cs, RemoveAt(ms, i)[j].key) == x
  {
    var r := RemoveAt(ms, i);
    NormMembersKeys(cs, ms);
    forall x | x in NormMembers(cs, ms) && x != FoldString(cs, ms[i].key)
      ensures exists j :: 0 <= j < |r| && FoldString(cs, r[j].key) == x
    {
      var j :| 0 <= j < |ms| && FoldString(cs, ms[j].key) == x;
      assert r[if j < i then j else j - 1] == ms[j];
    }
  }

  lemma NormAppend(cs: bool, ms: seq<Member>, x: Member)
    requires DistinctKeys(cs, ms) && FoldString(cs, x.key) !in NormMembers(cs, ms)
    ensures DistinctKeys(cs, ms + [x])
    ensures NormMembers(cs, ms + [x]) == NormMembers(cs, ms)[FoldString(cs, x.key) := Norm(cs, x.value)]
  {
    var r := ms + [x];
    NormMembersKeys(cs, ms);
    forall a, b | 0 <= a < b < |r| ensures Compare(cs, MemberKey(r[a]), MemberKey(r[b])) != 0 {
      if b == |ms| {
        SameKey(cs, r[a].key, x.key);
        assert FoldString(cs, ms[a].key) in NormMembers(cs, ms);
      } else {
        assert r[a] == ms[a] && r[b] == ms[b];
      }
    }
    var m := NormMembers(cs, ms)[FoldString(cs, x.key) := Norm(cs, x.value)];
    forall j | 0 <= j < |r|
      ensures FoldString(cs, r[j].key) in m && m[FoldString(cs, r[j].key)] == Norm(cs, r[j].value)
    {
      if j < |ms| {
        NormMembersAt(cs, ms, j);
      }
    }
    forall k | k in m ensures exists j :: 0 <= j < |r| && FoldString(cs, r[j].key) == k {
      if k == FoldString(cs, x.key) {
        assert r[|ms|] == x;
      } else {
        var j :| 0 <= j < |ms| && FoldString(cs, ms[j].key) == k;
        assert r[j] == ms[j];
      }
    }
    NormMembersExt(cs, r, m);
  }

  /** Overwriting the value of a member, under a key that folds to the same. */
  lemma NormUpdate(cs: bool, ms: seq<Member>, i: nat, x: Member)
    requires DistinctKeys(cs, ms) && i < |ms| && FoldString(cs, x.key) == FoldString(cs, ms[i].key)
    ensures DistinctKeys(cs, ms[i := x])
    ensures NormMembers(cs, ms[i := x]) == NormMembers(cs, ms)[FoldString(cs, x.key) := Norm(cs, x.value)]
  {
    var r := ms[i := x];
    var m := NormMembers(cs, ms)[FoldString(cs, x.key) := Norm(cs, x.value)];
    forall a, b | 0 <= a < b < |r| ensures Compare(cs, MemberKey(r[a]), MemberKey(r[b])) != 0 {
      DistinctFolds(cs, ms, a, b);
      SameKey(cs, r[a].key, r[b].key);
    }
    forall j | 0 <= j < |r|
      ensures FoldString(cs, r[j].key) in m && m[FoldString(cs, r[j].key)] == Norm(cs, r[j].value)
    {
      NormMembersAt(cs, ms, j);
      if j != i { DistinctFolds(cs, ms, i, j); }
    }
    NormMembersKeys(cs, ms);
    forall k | k in m ensures exists j :: 0 <= j < |r| && FoldString(cs, r[j].key) == k {
      var j :| 0 <= j < |ms| && FoldString(cs, ms[j].key) == k;
      assert FoldString(cs, r[j].key) == k;
    }
    NormMembersExt(cs, r, m);
  }

  // ---------------------------------------------------------------------------
  // Lookup after a change

  lemma FindIs(cs: bool, ms: seq<Member>, key: string, i: nat)
    requires i < |ms| && Compare(cs, key, ms[i].key) == 0
    requires forall k :: 0 <= k < i ==> Compare(cs, key, ms[k].key) != 0
    ensures Find(cs, ms, key) == Some(i)
  {
    var r := Find(cs, ms, key);
    assert r.Some?;
  }

  lemma FindAppended(cs: bool, cur: seq<Member>, m: Member, key: string)
    requires Find(cs, cur, key).Some?
    ensures Find(cs, cur + [m], key) == Find(cs, cur, key)
  {
    var i := Find(cs, cur, key).value;
    assert forall k :: 0 <= k < |cur| ==> (cur + [m])[k] == cur[k];
    FindIs(cs, cur + [m], key, i);
  }

  lemma FindRemoved(cs: bool, cur: seq<Member>, f: nat, key: string)
    requires f < |cur| && Find(cs, cur, key).Some? && Find(cs, cur, key) != Some(f)
    ensures
      var i := Find(cs, cur, key).value;
      Find(cs, RemoveAt(cur, f), key) == Some(if i < f then i else i - 1)
  {
    hide Compare, Find;
    var i, r := Find(cs, cur, key).value, RemoveAt(cur, f);
    var i': nat := if i < f then i else i - 1;
    assert r[i'] == cur[i];
    RemovedBefore(cs, cur, f, key, i, i');
    FindIs(cs, r, key, i');
  }

  lemma RemovedBefore(cs: bool, cur: seq<Member>, f: nat, key: string, i: nat, i': nat)
    requires f < |cur| && i < |cur| && i != f && i' == if i < f then i else i - 1
    requires forall k :: 0 <= k < i ==> Compare(cs, key, cur[k].key) != 0
    ensures forall k :: 0 <= k < i' ==> Compare(cs, key, RemoveAt(cur, f)[k].key) != 0
  {
    hide Compare;
    forall k | 0 <= k < i' ensures Compare(cs, key, RemoveAt(cur, f)[k].key) != 0 {
      assert RemoveAt(cur, f)[k] == cur[if k < f then k else k + 1];
    }
  }

  lemma {:induction false} FindSameKeys(cs: bool, a: seq<Member>, b: seq<Member>, key: string)
    requires |a| == |b| && forall i :: 0 <= i < |a| ==> a[i].key == b[i].key
    ensures Find(cs, a, key) == Find(cs, b, key)
  {
    if a != [] {
      FindSameKeys(cs, a[1..], b[1..], key);
    }
  }

  lemma MatchIgnoringCase(cs: bool, a: string, b: string)
    requires Compare(cs, a, b) == 0
    ensures Compare(false, a, b) == 0
  {
    CompareZero(cs, a, b);
    CompareZero(false, a, b);
  }

  lemma OtherKey(cs: bool, a: string, b: string, c: string)
    requires Compare(cs, a, b) == 0
    ensures Compare(cs, a, c) != 0 ==> Compare(cs, c, b) != 0
    ensures Compare(false, c, b) == 0 <==> Compare(false, c, a) == 0
  {
    MatchIgnoringCase(cs, a, b);
    SameKey(cs, a, b);
    SameKey(cs, a, c);
    SameKey(cs, c, b);
    SameKey(false, a, b);
    SameKey(false, c, a);
    SameKey(false, c, b);
  }

  // ---------------------------------------------------------------------------
  // Sorting the members

  function SortMembers(cs: bool, ms: seq<Member>): (r: seq<Member>)
    ensures |r| == |ms|
    ensures forall i :: 0 <= i < |r| ==> r[i] in ms
  {
    SortMembersFrom(cs, ms);
    SortList(cs, ms, MemberKey)
  }

  lemma SortMembersFrom(cs: bool, ms: seq<Member>)
    ensures forall i :: 0 <= i < |ms| ==> SortList(cs, ms, MemberKey)[i] in ms
  {
    var r := SortList(cs, ms, MemberKey);
    SortPermutes(cs, ms, MemberKey);
    forall i | 0 <= i < |r| ensures r[i] in ms {
      assert r[i] in multiset(r);
    }
  }

  /** Sorting leaves the object the same map, its keys distinct and now in strict order. */
  lemma SortMembersNorm(cs: bool, ms: seq<Member>)
    requires DistinctKeys(cs, ms)
    ensures StrictlyOrdered(cs, SortMembers(cs, ms), MemberKey)
    ensures DistinctKeys(cs, SortMembers(cs, ms))
    ensures NormMembers(cs, SortMembers(cs, ms)) == NormMembers(cs, ms)
    ensures forall m :: m in ms ==> m in SortMembers(cs, ms)
  {
    var r := SortMembers(cs, ms);
    SortPermutes(cs, ms, MemberKey);
    SortOrdered(cs, ms, MemberKey);
    forall m | m in ms ensures m in r {
      assert m in multiset(ms);
    }
    DistinctMultiset(cs, ms);
    forall i, j | 0 <= i < j < |r| ensures Compare(cs, MemberKey(r[i]), MemberKey(r[j])) != 0 {
      PermutedPair(cs, ms, r, i, j);
    }
    NormSamePool(cs, ms, r);
  }

  lemma PermutedPair(cs: bool, ms: seq<Member>, r: seq<Member>, i: nat, j: nat)
    requires DistinctKeys(cs, ms) && i < j < |r|
    requires r[i] in ms && r[j] in ms && forall m :: multiset(r)[m] <= 1
    ensures Compare(cs, r[i].key, r[j].key) != 0
  {
    MultisetNoRepeats(r);
    var a :| 0 <= a < |ms| && ms[a] == r[i];
    var b :| 0 <= b < |ms| && ms[b] == r[j];
    DistinctFolds(cs, ms, a, b);
    SameKey(cs, r[i].key, r[j].key);
  }

  lemma {:induction false} DistinctMultiset(cs: bool, ms: seq<Member>)
    requires DistinctKeys(cs, ms)
    ensures forall m :: multiset(ms)[m] <= 1
  {
    assert forall i, j :: 0 <= i < j < |ms| ==> ms[i] != ms[j] by {
      forall i, j | 0 <= i < j < |ms| ensures ms[i] != ms[j] {
        DistinctFolds(cs, ms, i, j);
      }
    }
    NoRepeatsMultiset(ms);
  }

  lemma NormSamePool(cs: bool, a: seq<Member>, b: seq<Member>)
    requires DistinctKeys(cs, a) && DistinctKeys(cs, b)
    requires forall m :: m in a <==> m in b
    ensures NormMembers(cs, a) == NormMembers(cs, b)
  {
    var m := NormMembers(cs, b);
    forall i | 0 <= i < |a|
      ensures FoldString(cs, a[i].key) in m && m[FoldString(cs, a[i].key)] == Norm(cs, a[i].value)
    {
      assert a[i] in b;
      var j :| 0 <= j < |b| && b[j] == a[i];
      NormMembersAt(cs, b, j);
    }
    NormMembersKeys(cs, b);
    forall k | k in m ensures exists i :: 0 <= i < |a| && FoldString(cs, a[i].key) == k {
      var j :| 0 <= j < |b| && FoldString(cs, b[j].key) == k;
      assert b[j] in a;
      var i :| 0 <= i < |a| && a[i] == b[j];
    }
    NormMembersExt(cs, a, m);
  }
}
