/** `sort_list`: the merge sort cJSON_Utils runs over the children of an object.

    `SortList` is the algorithm on sequences; `Node.Sort` runs it in place on a
    doubly linked list and is proved to relink the nodes into exactly that order. */
module Sort {
  import opened Strings

  ghost predicate Ordered<T>(cs: bool, s: seq<T>, key: T -> string) {
    forall i, j :: 0 <= i < j < |s| ==> Compare(cs, key(s[i]), key(s[j])) <= 0
  }

  /** Strict order: in particular no two keys are equal in the chosen case mode. */
  ghost predicate StrictlyOrdered<T>(cs: bool, s: seq<T>, key: T -> string) {
    forall i, j :: 0 <= i < j < |s| ==> Less(cs, key(s[i]), key(s[j]))
  }

  ghost predicate Distinct<T>(cs: bool, s: seq<T>, key: T -> string) {
    forall i, j :: 0 <= i < j < |s| ==> Compare(cs, key(s[i]), key(s[j])) != 0
  }

  /** The early exit of the C code: every element is below its successor. */
  predicate Climbs<T>(cs: bool, s: seq<T>, key: T -> string) {
    forall i :: 0 <= i < |s| - 1 ==> Less(cs, key(s[i]), key(s[i + 1]))
  }

  function Merge<T>(cs: bool, a: seq<T>, b: seq<T>, key: T -> string): (r: seq<T>)
    ensures |r| == |a| + |b|
  {
    if a == [] then b
    else if b == [] then a
    else if Less(cs, key(a[0]), key(b[0])) then [a[0]] + Merge(cs, a[1..], b, key)
    else [b[0]] + Merge(cs, a, b[1..], key)
  }

  function SortList<T>(cs: bool, s: seq<T>, key: T -> string): (r: seq<T>)
    ensures |r| == |s|
    decreases |s|
  {
    if |s| <= 1 || Climbs(cs, s, key) then s
    else
      var m := (|s| + 1) / 2;
      Merge(cs, SortList(cs, s[..m], key), SortList(cs, s[m..], key), key)
  }

  lemma {:induction false} MergePermutes<T>(cs: bool, a: seq<T>, b: seq<T>, key: T -> string)
    ensures multiset(Merge(cs, a, b, key)) == multiset(a) + multiset(b)
  {
    if a != [] && b != [] {
      assert a == [a[0]] + a[1..] && b == [b[0]] + b[1..];
      if Less(cs, key(a[0]), key(b[0])) {
        MergePermutes(cs, a[1..], b, key);
      } else {
        MergePermutes(cs, a, b[1..], key);
      }
    }
  }

  lemma {:induction false} SortPermutes<T>(cs: bool, s: seq<T>, key: T -> string)
    ensures multiset(SortList(cs, s, key)) == multiset(s)
    decreases |s|
  {
    if |s| > 1 && !Climbs(cs, s, key) {
      var m := (|s| + 1) / 2;
      assert s == s[..m] + s[m..];
      SortPermutes(cs, s[..m], key);
      SortPermutes(cs, s[m..], key);
      MergePermutes(cs, SortList(cs, s[..m], key), SortList(cs, s[m..], key), key);
    }
  }

  lemma {:induction false} ClimbsIsOrdered<T>(cs: bool, s: seq<T>, key: T -> string)
    requires Climbs(cs, s, key)
    ensures StrictlyOrdered(cs, s, key)
  {
    if s != [] {
      ClimbsIsOrdered(cs, s[1..], key);
      forall j | 0 < j < |s| ensures Less(cs, key(s[0]), key(s[j])) {
        assert Less(cs, key(s[0]), key(s[0 + 1]));
        if j > 1 {
          assert s[1..][0] == s[1] && s[1..][j - 1] == s[j];
          LessTrans(cs, key(s[0]), key(s[1]), key(s[j]));
        }
      }
      forall i, j | 0 <= i < j < |s| ensures Less(cs, key(s[i]), key(s[j])) {
        if i > 0 {
          assert s[1..][i - 1] == s[i] && s[1..][j - 1] == s[j];
        }
      }
    }
  }

  lemma OrderedCons<T>(cs: bool, x: T, s: seq<T>, key: T -> string)
    requires Ordered(cs, s, key)
    requires forall y :: y in s ==> Compare(cs, key(x), key(y)) <= 0
    ensures Ordered(cs, [x] + s, key)
  {
  }

  lemma {:induction false} MergeOrdered<T>(cs: bool, a: seq<T>, b: seq<T>, key: T -> string)
    requires Ordered(cs, a, key) && Ordered(cs, b, key)
    ensures Ordered(cs, Merge(cs, a, b, key), key)
  {
    if a != [] && b != [] {
      CompareFlip(cs, key(a[0]), key(b[0]));
      if Less(cs, key(a[0]), key(b[0])) {
        MergeOrdered(cs, a[1..], b, key);
        HeadBelow(cs, a[0], a[1..], b, key);
      } else {
        MergeOrdered(cs, a, b[1..], key);
        HeadBelow(cs, b[0], a, b[1..], key);
      }
    }
  }

  lemma HeadBelow<T>(cs: bool, x: T, a: seq<T>, b: seq<T>, key: T -> string)
    requires Ordered(cs, a, key) && Ordered(cs, b, key)
    requires a != [] ==> Compare(cs, key(x), key(a[0])) <= 0
    requires b != [] ==> Compare(cs, key(x), key(b[0])) <= 0
    requires Ordered(cs, Merge(cs, a, b, key), key)
    ensures Ordered(cs, [x] + Merge(cs, a, b, key), key)
  {
    var r := Merge(cs, a, b, key);
    forall y | y in r ensures Compare(cs, key(x), key(y)) <= 0 {
      assert y in multiset(r);
      MergePermutes(cs, a, b, key);
      assert y in a || y in b;
      if y in a {
        var i :| 0 <= i < |a| && a[i] == y;
        if i > 0 { LessTrans(cs, key(x), key(a[0]), key(y)); }
      } else {
        var i :| 0 <= i < |b| && b[i] == y;
        if i > 0 { LessTrans(cs, key(x), key(b[0]), key(y)); }
      }
    }
    OrderedCons(cs, x, r, key);
  }

  lemma {:induction false} SortOrdered<T>(cs: bool, s: seq<T>, key: T -> string)
    ensures Ordered(cs, SortList(cs, s, key), key)
    decreases |s|
  {
    if |s| <= 1 {
    } else if Climbs(cs, s, key) {
      ClimbsIsOrdered(cs, s, key);
    } else {
      var m := (|s| + 1) / 2;
      SortOrdered(cs, s[..m], key);
      SortOrdered(cs, s[m..], key);
      MergeOrdered(cs, SortList(cs, s[..m], key), SortList(cs, s[m..], key), key);
    }
  }

  // ---------------------------------------------------------------------------
  // Where every element goes

  datatype Numbered<T> = Numbered(at: nat, x: T)

  function Numbers<T>(s: seq<T>): (r: seq<Numbered<T>>)
    ensures |r| == |s| && forall i :: 0 <= i < |s| ==> r[i] == Numbered(i, s[i])
  {
    seq(|s|, i requires 0 <= i < |s| => Numbered(i, s[i]))
  }

  function Map<A, B>(f: A -> B, s: seq<A>): (r: seq<B>)
    ensures |r| == |s| && forall i :: 0 <= i < |s| ==> r[i] == f(s[i])
  {
    seq(|s|, i requires 0 <= i < |s| => f(s[i]))
  }

  lemma {:induction false} MergeMap<A, B>(cs: bool, a: seq<A>, b: seq<A>, f: A -> B, ka: A -> string, kb: B -> string)
    requires forall x :: ka(x) == kb(f(x))
    ensures Merge(cs, Map(f, a), Map(f, b), kb) == Map(f, Merge(cs, a, b, ka))
  {
    if a == [] || b == [] {
      assert Map(f, []) == [];
    } else {
      assert Map(f, a)[1..] == Map(f, a[1..]) && Map(f, b)[1..] == Map(f, b[1..]);
      if Less(cs, ka(a[0]), ka(b[0])) {
        MergeMap(cs, a[1..], b, f, ka, kb);
      } else {
        MergeMap(cs, a, b[1..], f, ka, kb);
      }
    }
  }

  /** Sorting looks at the keys only. */
  lemma {:induction false} SortMap<A, B>(cs: bool, s: seq<A>, f: A -> B, ka: A -> string, kb: B -> string)
    requires forall x :: ka(x) == kb(f(x))
    ensures SortList(cs, Map(f, s), kb) == Map(f, SortList(cs, s, ka))
    decreases |s|
  {
    hide Climbs, Merge;
    var t := Map(f, s);
    ClimbsMap(cs, s, f, ka, kb);
    if |s| > 1 && !Climbs(cs, s, ka) {
      var m := (|s| + 1) / 2;
      assert t[..m] == Map(f, s[..m]) && t[m..] == Map(f, s[m..]);
      SortMap(cs, s[..m], f, ka, kb);
      SortMap(cs, s[m..], f, ka, kb);
      MergeMap(cs, SortList(cs, s[..m], ka), SortList(cs, s[m..], ka), f, ka, kb);
    }
  }

  lemma ClimbsMap<A, B>(cs: bool, s: seq<A>, f: A -> B, ka: A -> string, kb: B -> string)
    requires forall x :: ka(x) == kb(f(x))
    ensures Climbs(cs, Map(f, s), kb) <==> Climbs(cs, s, ka)
  {
    var t := Map(f, s);
    hide Less;
    assert forall i :: 0 <= i < |s| ==> kb(t[i]) == ka(s[i]);
    if Climbs(cs, t, kb) {
      forall i | 0 <= i < |s| - 1 ensures Less(cs, ka(s[i]), ka(s[i + 1])) {
        assert Less(cs, kb(t[i]), kb(t[i + 1]));
      }
    }
    if Climbs(cs, s, ka) {
      forall i | 0 <= i < |s| - 1 ensures Less(cs, kb(t[i]), kb(t[i + 1])) {
        assert Less(cs, ka(s[i]), ka(s[i + 1]));
      }
    }
  }

  function NumberedKey(p: Numbered<string>): string {
    p.x
  }

  /** The keys in order, each with its old place. */
  function SortedNumbers(cs: bool, keys: seq<string>): (r: seq<Numbered<string>>)
    ensures |r| == |keys| && forall k :: 0 <= k < |r| ==> r[k].at < |keys| && r[k].x == keys[r[k].at]
  {
    var n := Numbers(keys);
    var r := SortList(cs, n, NumberedKey);
    assert forall k :: 0 <= k < |r| ==> r[k] in n by {
      SortPermutes(cs, n, NumberedKey);
      forall k | 0 <= k < |r| ensures r[k] in n { assert r[k] in multiset(r); }
    }
    r
  }

  /** The old places of the elements in their new order. */
  function Order(cs: bool, keys: seq<string>): (r: seq<nat>)
    ensures |r| == |keys| && forall k :: 0 <= k < |r| ==> r[k] < |keys|
  {
    var p := SortedNumbers(cs, keys);
    seq(|p|, k requires 0 <= k < |p| => p[k].at)
  }

  /** Every place is in it, once. */
  lemma OrderPermutes(cs: bool, keys: seq<string>)
    ensures NoRepeats(Order(cs, keys))
    ensures forall i :: 0 <= i < |keys| ==> i in Order(cs, keys)
  {
    var n := Numbers(keys);
    var p := SortList(cs, n, NumberedKey);
    SortPermutes(cs, n, NumberedKey);
    NoRepeatsMultiset(n);
    MultisetNoRepeats(p);
    forall i | 0 <= i < |keys| ensures i in Order(cs, keys) {
      assert n[i] in multiset(n);
      var k :| 0 <= k < |p| && p[k] == n[i];
      assert Order(cs, keys)[k] == i;
    }
    forall i, j | 0 <= i < j < |p| ensures Order(cs, keys)[i] != Order(cs, keys)[j] {
      assert p[i] != p[j];
    }
  }

  function Picked<T>(s: seq<T>, order: seq<nat>): (r: seq<T>)
    requires forall k :: 0 <= k < |order| ==> order[k] < |s|
    ensures |r| == |order| && forall k :: 0 <= k < |r| ==> r[k] == s[order[k]]
  {
    seq(|order|, k requires 0 <= k < |order| => s[order[k]])
  }

  function Place(order: seq<nat>, i: nat): (r: nat)
    requires i in order
    ensures r < |order| && order[r] == i
  {
    if order[0] == i then 0 else Place(order[1..], i) + 1
  }

  function KeysBy<T>(s: seq<T>, key: T -> string): (r: seq<string>)
    ensures |r| == |s| && forall i :: 0 <= i < |s| ==> r[i] == key(s[i])
  {
    Map(key, s)
  }

  /** Sorting puts the elements in this order. */
  lemma OrderSorts<T>(cs: bool, s: seq<T>, key: T -> string)
    ensures Picked(s, Order(cs, KeysBy(s, key))) == SortList(cs, s, key)
  {
    var n, keys := Numbers(s), KeysBy(s, key);
    var element, name, keyed := (p: Numbered<T>) => p.x, (p: Numbered<T>) => Numbered(p.at, key(p.x)),
      (p: Numbered<T>) => key(p.x);
    assert Map(element, n) == s && Map(name, n) == Numbers(keys);
    SortMap(cs, n, element, keyed, key);
    SortMap(cs, n, name, keyed, NumberedKey);
    var p := SortList(cs, n, keyed);
    SortPermutes(cs, n, keyed);
    forall k | 0 <= k < |s| ensures s[Order(cs, keys)[k]] == SortList(cs, s, key)[k] {
      assert p[k] in multiset(p);
      assert p[k] in n;
    }
  }

  // ---------------------------------------------------------------------------
  // The linked list

  /** The part of `cJSON` that `sort_list` reads (`string`) and writes (`next`, `prev`). */
  class Node {
    const key: string
    var next: Node?
    var prev: Node?

    constructor (key: string)
      ensures this.key == key && next == null && prev == null
    {
      this.key := key;
      next, prev := null, null;
    }
  }

  function NodeKey(n: Node): string {
    n.key
  }

  ghost predicate NoRepeats<T>(s: seq<T>) {
    forall i, j :: 0 <= i < j < |s| ==> s[i] != s[j]
  }

  /** `ns` is a NULL-terminated list whose nodes other than the head point back at
      their predecessor.  The head's `prev` is free: cJSON parks the tail there. */
  ghost predicate Linked(ns: seq<Node>)
    reads ns
  {
    NoRepeats(ns) && Chained(ns)
  }

  ghost predicate Chained(ns: seq<Node>)
    reads ns
  {
    && (forall i {:trigger ns[i].next} :: 0 <= i < |ns| ==> ns[i].next == if i + 1 < |ns| then ns[i + 1] else null)
    && (forall i {:trigger ns[i].prev} :: 0 < i < |ns| ==> ns[i].prev == ns[i - 1])
  }

  function Head(ns: seq<Node>): Node? {
    if ns == [] then null else ns[0]
  }

  ghost predicate Disjoint(a: seq<Node>, b: seq<Node>) {
    forall i :: 0 <= i < |a| ==> a[i] !in b
  }

  lemma SortKeepsNodes(cs: bool, ns: seq<Node>)
    requires NoRepeats(ns)
    ensures NoRepeats(SortList(cs, ns, NodeKey))
    ensures forall i :: 0 <= i < |ns| ==> SortList(cs, ns, NodeKey)[i] in ns
  {
    var r := SortList(cs, ns, NodeKey);
    SortPermutes(cs, ns, NodeKey);
    forall i | 0 <= i < |r| ensures r[i] in ns {
      assert r[i] in multiset(r);
    }
    NoRepeatsMultiset(ns);
    MultisetNoRepeats(r);
  }

  lemma {:induction false} NoRepeatsMultiset<T>(s: seq<T>)
    requires NoRepeats(s)
    ensures forall x :: multiset(s)[x] <= 1
  {
    if s != [] {
      assert s == [s[0]] + s[1..];
      NoRepeatsMultiset(s[1..]);
    }
  }

  lemma MultisetNoRepeats<T>(s: seq<T>)
    requires forall x :: multiset(s)[x] <= 1
    ensures NoRepeats(s)
  {
    forall i, j | 0 <= i < j < |s| ensures s[i] != s[j] {
      assert s == s[..i] + [s[i]] + s[i + 1..j] + [s[j]] + s[j + 1..];
      assert multiset(s)[s[i]] >= if s[i] == s[j] then 2 else 1;
    }
  }

  /** The walk of two pointers to the middle, and the cut. */
  method Split(list: Node, ghost ns: seq<Node>) returns (second: Node?, ghost m: nat)
    requires Linked(ns) && |ns| >= 2 && list == ns[0]
    modifies ns
    ensures m == (|ns| + 1) / 2 && second == ns[m]
    ensures Linked(ns[..m]) && Linked(ns[m..])
    ensures list.prev == old(list.prev) && second.prev == null
  {
    second := list;
    var current: Node? := list;
    m := 0;
    ghost var c := 0;
    while current != null
      invariant 0 <= c <= |ns| && m <= c
      invariant current == if c < |ns| then ns[c] else null
      invariant second == if m < |ns| then ns[m] else null
      invariant c < |ns| ==> c == 2 * m
      invariant c == |ns| ==> m == (|ns| + 1) / 2
      decreases |ns| - c
    {
      second := second.next;
      m := m + 1;
      current := current.next;
      c := c + 1;
      if current != null {
        current := current.next;
        c := c + 1;
      }
    }
    if second != null && second.prev != null {
      second.prev.next := null;
      second.prev := null;
    }
  }

  /** Sorting the halves moves no node across the cut. */
  lemma SortedHalves(cs: bool, ns: seq<Node>, m: nat, all: set<Node>)
    requires m <= |ns| && NoRepeats(ns) && forall x :: x in ns ==> x in all
    ensures Parts([], SortList(cs, ns[..m], NodeKey), SortList(cs, ns[m..], NodeKey), all)
    ensures Disjoint(SortList(cs, ns[..m], NodeKey), ns[m..])
    ensures Disjoint(ns[m..], ns[..m])
  {
    var a, b := ns[..m], ns[m..];
    assert ns == a + b;
    var sa, sb := SortList(cs, a, NodeKey), SortList(cs, b, NodeKey);
    SortKeepsNodes(cs, a);
    SortKeepsNodes(cs, b);
    forall x | x in a ensures x !in b {}
    assert Disjoint(b, a);
    forall i | 0 <= i < |sa| ensures sa[i] in a && sa[i] !in b {}
    forall i, j | 0 <= i < |sa| && 0 <= j < |sb| ensures sa[i] != sb[j] {
      assert sb[j] in b;
    }
    var s := [] + sa + sb;
    assert NoRepeats(s);
    forall x | x in s ensures x in all {
      var i :| 0 <= i < |s| && s[i] == x;
      if i < |sa| { assert sa[i] in a; } else { assert sb[i - |sa|] in b; }
    }
  }

  /** `sort_list`: the nodes of `ns` end up linked in the order `SortList` gives them.  The first
      one keeps its `prev` when it was the first before; another has none. */
  method Sort(cs: bool, list: Node?, ghost ns: seq<Node>) returns (result: Node?)
    requires Linked(ns) && list == Head(ns)
    modifies ns
    ensures result == Head(SortList(cs, ns, NodeKey))
    ensures Linked(SortList(cs, ns, NodeKey))
    ensures result != null ==> result.prev == if result == list then old(list.prev) else null
    decreases |ns|, 1
  {
    if list == null || list.next == null {
      return list;
    }
    var sorted := AlreadySorted(cs, list, ns);
    if sorted {
      return list;
    }
    ghost var m;
    ghost var all := set x | x in ns;
    var second;
    second, m := Split(list, ns);
    ghost var a, b := ns[..m], ns[m..];
    SortedHalves(cs, ns, m, all);
    result := SortHalves(cs, list, second, a, b, all);
  }

  method SortHalves(cs: bool, list: Node?, middle: Node?, ghost a: seq<Node>, ghost b: seq<Node>, ghost all: set<Node>)
    returns (result: Node?)
    requires Linked(a) && Linked(b) && list == Head(a) && middle == Head(b)
    requires a != [] && b != []
    requires Disjoint(b, a) && Disjoint(SortList(cs, a, NodeKey), b)
    requires Parts([], SortList(cs, a, NodeKey), SortList(cs, b, NodeKey), all)
    requires forall x :: x in a || x in b ==> x in all
    requires middle.prev == null
    modifies all
    ensures result == Head(Merge(cs, SortList(cs, a, NodeKey), SortList(cs, b, NodeKey), NodeKey))
    ensures Linked(Merge(cs, SortList(cs, a, NodeKey), SortList(cs, b, NodeKey), NodeKey))
    ensures result != null && result.prev == if result == list then old(list.prev) else null
    decreases |a| + |b|, 0
  {
    ghost var sa, sb := SortList(cs, a, NodeKey), SortList(cs, b, NodeKey);
    var first := Sort(cs, list, a);
    assert Linked(sa);
    label firstSorted:
    var second := Sort(cs, middle, b);
    SortKeepsNodes(cs, b);
    assert list == a[0] && second == sb[0] && sb[0] in b;
    forall i | 0 <= i < |sa|
      ensures sa[i].next == old@firstSorted(sa[i].next) && sa[i].prev == old@firstSorted(sa[i].prev)
    {
      assert sa[i] !in b;
    }
    assert Chained(sa);
    result := MergeLists(cs, first, second, sa, sb, all);
  }

  /** The test for an already sorted list. */
  method AlreadySorted(cs: bool, list: Node, ghost ns: seq<Node>) returns (sorted: bool)
    requires Linked(ns) && |ns| >= 1 && list == ns[0]
    ensures sorted <==> Climbs(cs, ns, NodeKey)
  {
    var current := list;
    ghost var i := 0;
    while current.next != null && Less(cs, current.key, current.next.key)
      invariant 0 <= i < |ns| && current == ns[i]
      invariant forall k :: 0 <= k < i ==> Less(cs, NodeKey(ns[k]), NodeKey(ns[k + 1]))
      decreases |ns| - i
    {
      current := current.next;
      i := i + 1;
    }
    sorted := current.next == null;
    if !sorted {
      assert !Less(cs, NodeKey(ns[i]), NodeKey(ns[i + 1]));
    }
  }

  /** The part of the result already linked: its last node's `next` is still the one
      it had in its own list. */
  ghost predicate Merged(ns: seq<Node>)
    reads ns
  {
    && (forall i {:trigger ns[i].next} :: 0 <= i < |ns| - 1 ==> ns[i].next == ns[i + 1])
    && (forall i {:trigger ns[i].prev} :: 0 < i < |ns| ==> ns[i].prev == ns[i - 1])
  }

  lemma MergeStep(cs: bool, done: seq<Node>, a: seq<Node>, b: seq<Node>)
    requires a != [] && b != []
    ensures Less(cs, a[0].key, b[0].key)
         ==> done + Merge(cs, a, b, NodeKey) == (done + [a[0]]) + Merge(cs, a[1..], b, NodeKey)
    ensures !Less(cs, a[0].key, b[0].key)
         ==> done + Merge(cs, a, b, NodeKey) == (done + [b[0]]) + Merge(cs, a, b[1..], NodeKey)
  {
    if Less(cs, a[0].key, b[0].key) {
      Associative(done, [a[0]], Merge(cs, a[1..], b, NodeKey));
    } else {
      Associative(done, [b[0]], Merge(cs, a, b[1..], NodeKey));
    }
  }

  lemma Associative<T>(x: seq<T>, y: seq<T>, z: seq<T>)
    ensures x + (y + z) == (x + y) + z
  {
  }

  function Just(n: Node?): set<Node> {
    if n == null then {} else {n}
  }

  /** One node joins the merged part. */
  method Link(tail: Node?, x: Node, ghost done: seq<Node>)
    requires Merged(done) && x !in done && NoRepeats(done)
    requires tail == if done == [] then null else done[|done| - 1]
    modifies Just(tail)`next, x`prev
    ensures Merged(done + [x])
    ensures x.next == old(x.next) && (tail == null ==> x.prev == old(x.prev))
  {
    if tail != null {
      assert done[|done| - 1] in done;
      tail.next := x;
      x.prev := tail;
    }
  }

  /** The unfinished list hangs behind the merged part. */
  method LinkRest(result: Node?, tail: Node?, rest: Node?, ghost done: seq<Node>, ghost ns: seq<Node>)
    returns (list: Node?)
    requires Merged(done) && Chained(ns) && NoRepeats(done + ns) && ns != []
    requires tail == if done == [] then null else done[|done| - 1]
    requires rest == Head(ns) && result == Head(done)
    modifies Just(tail)`next, rest`prev
    ensures Linked(done + ns) && list == Head(done + ns)
    ensures list.prev == old(list.prev)
  {
    if result == null {
      assert done + ns == ns;
      return rest;
    }
    ghost var s := done + ns;
    forall i | 0 <= i < |done| ensures done[i] != ns[0] { assert s[i] == done[i] && s[|done|] == ns[0]; }
    forall i | 0 <= i < |ns| ensures ns[i] != tail { assert s[|done| + i] == ns[i] && s[|done| - 1] == tail; }
    forall i | 0 <= i < |done| - 1 ensures done[i] != tail { assert s[i] == done[i] && s[|done| - 1] == tail; }
    forall i | 0 < i < |ns| ensures ns[i] != ns[0] { assert s[|done| + i] == ns[i] && s[|done|] == ns[0]; }
    tail.next := rest;
    rest.prev := tail;
    list := result;
  }

  /** How the nodes of the two lists are spread over what is merged and what is left. */
  ghost predicate Parts(done: seq<Node>, a: seq<Node>, b: seq<Node>, all: set<Node>) {
    NoRepeats(done + a + b) && forall x :: x in done + a + b ==> x in all
  }

  lemma PartsStep(done: seq<Node>, a: seq<Node>, b: seq<Node>, all: set<Node>)
    requires Parts(done, a, b, all) && a != [] && b != []
    ensures Parts(done + [a[0]], a[1..], b, all)
    ensures Parts(done + [b[0]], a, b[1..], all)
  {
    assert (done + [a[0]]) + a[1..] + b == done + a + b;
    var s, t := done + a + b, (done + [b[0]]) + a + b[1..];
    var d, e := |done|, |a|;
    assert forall i :: 0 <= i < |t| ==>
      t[i] == s[if i < d then i else if i == d then d + e else if i <= d + e then i - 1 else i];
  }

  /** The nodes a step touches lie in no other part. */
  lemma PartsSeparate(done: seq<Node>, a: seq<Node>, b: seq<Node>, all: set<Node>)
    requires Parts(done, a, b, all)
    ensures NoRepeats(done) && NoRepeats(done + a) && NoRepeats(done + b)
    ensures done != [] ==> done[|done| - 1] in all && done[|done| - 1] !in a && done[|done| - 1] !in b
    ensures a != [] ==> a[0] in all && a[0] !in done && a[0] !in b && a[0] !in a[1..]
    ensures b != [] ==> b[0] in all && b[0] !in done && b[0] !in a && b[0] !in b[1..]
  {
    var s := done + a + b;
    var d, e := |done|, |a|;
    assert forall i :: 0 <= i < d ==> s[i] == done[i];
    assert forall i :: 0 <= i < e ==> s[d + i] == a[i];
    assert forall i :: 0 <= i < |b| ==> s[d + e + i] == b[i];
    forall i, j | 0 <= i < d && 0 <= j < |b| ensures done[i] != b[j] {
      assert s[i] != s[d + e + j];
    }
    forall i, j | 0 <= i < e && 0 <= j < |b| ensures a[i] != b[j] {
      assert s[d + i] != s[d + e + j];
    }
    forall i, j | 0 <= i < d && 0 <= j < e ensures done[i] != a[j] {
      assert s[i] != s[d + j];
    }
    forall i, j | 0 <= i < j < |b| ensures b[i] != b[j] {
      assert s[d + e + i] != s[d + e + j];
    }
    forall i, j | 0 <= i < j < e ensures a[i] != a[j] {
      assert s[d + i] != s[d + j];
    }
    forall i, j | 0 <= i < j < d ensures done[i] != done[j] {
      assert s[i] != s[j];
    }
    assert forall x :: x in s ==> x in all;
    assert d > 0 ==> s[d - 1] in s;
    assert e > 0 ==> s[d] in s;
    assert b != [] ==> s[d + e] in s;
  }

  /** The merge loop. */
  method MergeLists(cs: bool, list1: Node?, list2: Node?, ghost a0: seq<Node>, ghost b0: seq<Node>,
                    ghost all: set<Node>)
    returns (result: Node?)
    requires Chained(a0) && Chained(b0) && Parts([], a0, b0, all)
    requires list1 == Head(a0) && list2 == Head(b0)
    modifies all
    ensures result == Head(Merge(cs, a0, b0, NodeKey))
    ensures Linked(Merge(cs, a0, b0, NodeKey))
    ensures result != null ==> (result == list1 || result == list2) && result.prev == old(result.prev)
  {
    var first, second := list1, list2;
    ghost var a, b := a0, b0;
    ghost var done: seq<Node> := [];
    result := null;
    var tail: Node? := null;
    while first != null && second != null
      invariant Chained(a) && Chained(b) && Merged(done)
      invariant Parts(done, a, b, all)
      invariant done != [] ==> a != [] || b != []
      invariant first == Head(a) && second == Head(b) && result == Head(done)
      invariant tail == if done == [] then null else done[|done| - 1]
      invariant Merge(cs, a0, b0, NodeKey) == done + Merge(cs, a, b, NodeKey)
      invariant result == null ==> first == list1 && second == list2
      invariant result == null && first != null ==> first.prev == old(first.prev)
      invariant result == null && second != null ==> second.prev == old(second.prev)
      invariant result != null ==> (result == list1 || result == list2) && result.prev == old(result.prev)
      decreases |a| + |b|
    {
      done, a, b, result, first, second, tail := MergeOne(cs, done, a, b, all, result, first, second, tail);
    }
    result := AppendRest(cs, result, tail, first, second, done, a, b, all);
  }

  method MergeOne(cs: bool, ghost done0: seq<Node>, ghost a0: seq<Node>, ghost b0: seq<Node>, ghost all: set<Node>,
                  result0: Node?, list1: Node, list2: Node, tail0: Node?)
    returns (ghost done: seq<Node>, ghost a: seq<Node>, ghost b: seq<Node>, result: Node?, first: Node?, second: Node?,
             tail: Node?)
    requires Chained(a0) && Chained(b0) && Merged(done0) && Parts(done0, a0, b0, all) && a0 != [] && b0 != []
    requires list1 == Head(a0) && list2 == Head(b0) && result0 == Head(done0)
    requires tail0 == if done0 == [] then null else done0[|done0| - 1]
    modifies all
    ensures Chained(a) && Chained(b) && Merged(done) && Parts(done, a, b, all)
    ensures done != [] && (a != [] || b != []) && |a| + |b| < |a0| + |b0|
    ensures first == Head(a) && second == Head(b) && result == Head(done) && tail == done[|done| - 1]
    ensures done0 + Merge(cs, a0, b0, NodeKey) == done + Merge(cs, a, b, NodeKey)
    ensures result == if result0 != null then result0 else tail
    ensures (tail == list1 || tail == list2) && result.prev == old(result.prev)
  {
    PartsSeparate(done0, a0, b0, all);
    PartsStep(done0, a0, b0, all);
    MergeStep(cs, done0, a0, b0);
    done, a, b, result, first, second, tail := done0, a0, b0, result0, list1, list2, tail0;
    if Less(cs, first.key, second.key) {
      done, a, result, first, tail := LinkSmaller(done, a, result, first, tail);
    } else {
      done, b, result, second, tail := LinkSmaller(done, b, result, second, tail);
    }
  }

  /** The two appends behind the loop. */
  method AppendRest(cs: bool, result0: Node?, tail: Node?, first: Node?, second: Node?,
                    ghost done: seq<Node>, ghost a: seq<Node>, ghost b: seq<Node>, ghost all: set<Node>)
    returns (result: Node?)
    requires Chained(a) && Chained(b) && Merged(done) && Parts(done, a, b, all)
    requires a == [] || b == []
    requires done != [] ==> a != [] || b != []
    requires first == Head(a) && second == Head(b) && result0 == Head(done)
    requires tail == if done == [] then null else done[|done| - 1]
    modifies all
    ensures result == Head(done + Merge(cs, a, b, NodeKey))
    ensures Linked(done + Merge(cs, a, b, NodeKey))
    ensures result == if result0 != null then result0 else if first != null then first else second
    ensures result != null ==> result.prev == old(result.prev)
  {
    PartsSeparate(done, a, b, all);
    result := result0;
    if first != null {
      result := LinkRest(result, tail, first, done, a);
    }
    if second != null {
      result := LinkRest(result, tail, second, done, b);
    }
  }

  /** The body of the merge loop, for the list whose head is the smaller one. */
  method LinkSmaller(ghost done0: seq<Node>, ghost a0: seq<Node>, result0: Node?, smaller: Node, tail0: Node?)
    returns (ghost done: seq<Node>, ghost a: seq<Node>, result: Node?, first: Node?, tail: Node?)
    requires a0 != [] && smaller == a0[0] && result0 == Head(done0)
    requires tail0 == if done0 == [] then null else done0[|done0| - 1]
    requires Chained(a0) && Merged(done0) && NoRepeats(done0 + a0)
    requires NoRepeats(done0) && smaller !in done0 && smaller !in a0[1..]
    requires tail0 != null ==> tail0 !in a0
    modifies Just(tail0)`next, smaller`prev
    ensures tail0 == null ==> smaller.prev == old(smaller.prev)
    ensures done == done0 + [a0[0]] && a == a0[1..]
    ensures Merged(done) && Chained(a) && first == Head(a) && tail == smaller && result == Head(done)
  {
    result := if result0 == null then smaller else result0;
    Link(tail0, smaller, done0);
    tail := smaller;
    first := smaller.next;
    done, a := done0 + [smaller], a0[1..];
  }
}
