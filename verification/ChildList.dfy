/** The list of a cJSON node's children.  `prev` of the first child is where the last one is
    cached, but only since the first append: a list that was parsed or copied has NULL there.
    Taking out the first child does not know about the cache, inserting and sorting do not keep
    it up: it then is a child in the middle of the list, or one that is gone. */
module ChildList {
  import opened Options
  import opened Json
  import opened Sort

  // ---------------------------------------------------------------------------
  // What the functions do to a list

  /** What `prev` of the first child is: NULL, the child at a place in the list, or a child that
      has been taken out of the list. */
  datatype Tail = Unset | Cached(place: nat) | Gone

  datatype List<T> = List(items: seq<T>, tail: Tail)

  /** `prev` of the first child is the last one, as the functions that follow it take it to be. */
  predicate CachesLast<T>(l: List<T>) {
    l.tail.Cached? && l.tail.place + 1 == |l.items|
  }

  /** `add_item_to_array` where nothing is lost: NULL makes it look for the last child. */
  function Append<T>(l: List<T>, x: T): Option<List<T>> {
    if l.items != [] && l.tail != Unset && !CachesLast(l) then None
    else Some(List(l.items + [x], Cached(|l.items|)))
  }

  /** What it leaves when a child in front of the last one is cached: the children behind that
      one are lost.  A cached child that is gone takes the new child away instead. */
  function Cut<T>(l: List<T>, x: T): List<T> {
    if l.tail.Cached? && l.tail.place < |l.items| then List(l.items[..l.tail.place + 1] + [x], Cached(l.tail.place + 1))
    else l
  }

  /** What appending does: the list with the new child, a shorter one that children have been lost
      from, or neither. */
  datatype Growth<T> = Ruined | Short(l: List<T>) | Whole(l: List<T>)

  function Grow<T>(l: List<T>, x: T): Growth<T> {
    match Append(l, x)
    case Some(l') => Whole(l')
    case None => if l.tail.Cached? then Short(Cut(l, x)) else Ruined
  }

  /** The first child is taken out while a child behind it is cached, or one that is gone.  The
      cached child is then linked to the second, or a node outside the list is written to. */
  predicate HitsHead<T>(l: List<T>, i: nat) {
    i == 0 && l.tail != Unset && l.tail != Cached(0)
  }

  /** `cJSON_DetachItemViaPointer` and `detach_item_from_array`. */
  function Detach<T>(l: List<T>, i: nat): (r: Option<List<T>>)
    requires i < |l.items|
  {
    if HitsHead(l, i) then None
    else Some(List(RemoveAt(l.items, i), TailWithout(l, i)))
  }

  function TailWithout<T>(l: List<T>, i: nat): Tail {
    if |l.items| == 1 then Unset
    else match l.tail
      case Cached(p) => if p == i then Gone else if p > i then Cached(p - 1) else Cached(p)
      case other => other
  }

  /** `insert_item_in_array` at an index that is not too large.  `back` says that the new child is
      the very one the list still caches. */
  function Insert<T>(l: List<T>, i: nat, x: T, back: bool): Option<List<T>>
    requires i <= |l.items|
  {
    if i == |l.items| then Append(l, x)
    else Some(List(l.items[..i] + [x] + l.items[i..], TailWith(l.tail, i, back)))
  }

  function TailWith(tail: Tail, i: nat, back: bool): Tail {
    match tail
    case Cached(p) => if p >= i then Cached(p + 1) else tail
    case Gone => if back then Cached(i) else Gone
    case Unset => Unset
  }

  /** `sort_list`: a first child that stays first keeps what it caches, another caches nothing. */
  function Arrange<T>(cs: bool, l: List<T>, keys: seq<string>): List<T>
    requires |keys| == |l.items|
  {
    List(Picked(l.items, Order(cs, keys)), TailArranged(l.tail, Order(cs, keys)))
  }

  function TailArranged(tail: Tail, order: seq<nat>): Tail {
    if order != [] && order[0] != 0 then Unset
    else match tail
      case Cached(p) => if p in order then Cached(Place(order, p)) else Gone
      case other => other
  }

  // ---------------------------------------------------------------------------
  // The code

  /** The nodes form an endless list: the last one leads back to the first. */
  ghost predicate Ring(ns: seq<Node>)
    reads ns
  {
    && ns != [] && NoRepeats(ns)
    && forall i {:trigger ns[i].next} :: 0 <= i < |ns| ==> ns[i].next == ns[if i + 1 < |ns| then i + 1 else 0]
  }

  ghost function Follow(n: Node?, k: nat, region: set<Node>): Node?
    reads region
  {
    if n == null || k == 0 then n else if n !in region then null else Follow(n.next, k - 1, region)
  }

  /** However far one follows a ring, there is a next node, and it is one of the ring: a loop
      that looks for a key no node has does not end. */
  lemma {:induction false} RingNeverEnds(ns: seq<Node>, i: nat, k: nat)
    requires Ring(ns) && i < |ns|
    ensures Follow(ns[i], k, set n | n in ns) in ns
    decreases k
  {
    if k > 0 {
      RingNeverEnds(ns, if i + 1 < |ns| then i + 1 else 0, k - 1);
    }
  }

  /** The children behind the first one, when those up to `p` are a ring. */
  lemma RingIsNoList(ns: seq<Node>, p: nat)
    requires 0 < p < |ns| && Ring(ns[1..p + 1]) && NoRepeats(ns)
    ensures !Linked(RemoveAt(ns, 0))
  {
    var ring, rest := ns[1..p + 1], RemoveAt(ns, 0);
    assert ring[p - 1] == ns[p] == rest[p - 1] && ring[0] == ns[1] == rest[0];
    assert ring[p - 1].next == ring[0];
    if p < |rest| { assert rest[p] != rest[0]; }
  }

  lemma RingLinks(ns: seq<Node>, p: nat)
    requires 0 < p < |ns| && NoRepeats(ns) && ns[p].next == ns[1]
    requires forall i {:trigger ns[i].next} :: 1 <= i < p ==> ns[i].next == ns[i + 1]
    ensures Ring(ns[1..p + 1])
  {
    var ring := ns[1..p + 1];
    forall i, j | 0 <= i < j < |ring| ensures ring[i] != ring[j] { assert ns[i + 1] != ns[j + 1]; }
    assert forall i {:trigger ring[i].next} :: 0 <= i < |ring| ==> ring[i] == ns[i + 1];
  }

  /** A node is met at one place only. */
  lemma Apart(ns: seq<Node>, k: nat)
    requires NoRepeats(ns) && k < |ns|
    ensures forall i :: 0 <= i < |ns| && i != k ==> ns[i] != ns[k]
  {
  }

  lemma RemoveKeepsApart(ns: seq<Node>, k: nat)
    requires NoRepeats(ns) && k < |ns|
    ensures NoRepeats(RemoveAt(ns, k)) && ns[k] !in RemoveAt(ns, k)
    ensures forall n :: n in RemoveAt(ns, k) ==> n in ns
  {
  }

  lemma InsertKeepsApart(ns: seq<Node>, k: nat, n: Node)
    requires NoRepeats(ns) && k <= |ns| && n !in ns
    ensures NoRepeats(ns[..k] + [n] + ns[k..])
  {
  }

  /** What taking out a child looks at. */
  lemma Neighbours(ns: seq<Node>, k: nat)
    requires Linked(ns) && k < |ns|
    ensures ns[k].next == (if k + 1 < |ns| then ns[k + 1] else null) && ns[k].next != ns[k]
    ensures k > 0 ==> ns[k].prev == ns[k - 1]
  {
  }

  lemma PlaceApart(ns: seq<Node>, p: nat)
    requires NoRepeats(ns) && p < |ns|
    ensures forall i :: 0 <= i < |ns| && i != p ==> ns[i] != ns[p]
  {
  }

  /** The links of the other children, when the neighbours of one have been linked. */
  lemma RestLinked(ns: seq<Node>, k: nat, before: Node?, after: Node?)
    requires NoRepeats(ns) && k < |ns|
    requires after == if k + 1 < |ns| then ns[k + 1] else null
    requires if k > 0 then before == ns[k - 1] else before !in ns[1..]
    requires forall i {:trigger ns[i].next} :: 0 <= i < |ns| && i != k ==>
      ns[i].next == if ns[i] == before then after else if i + 1 < |ns| then ns[i + 1] else null
    requires forall i {:trigger ns[i].prev} :: 0 < i < |ns| && i != k ==>
      ns[i].prev == if ns[i] == after then before else ns[i - 1]
    ensures Linked(RemoveAt(ns, k))
  {
    var rest := RemoveAt(ns, k);
    RemoveKeepsApart(ns, k);
    PlaceApart(ns, k);
    if k > 0 { PlaceApart(ns, k - 1); }
    if k + 1 < |ns| { PlaceApart(ns, k + 1); }
    forall i | 0 <= i < |rest| ensures rest[i].next == if i + 1 < |rest| then rest[i + 1] else null {
      var j := if i < k then i else i + 1;
      assert rest[i] == ns[j];
    }
    forall i | 0 < i < |rest| ensures rest[i].prev == rest[i - 1] {
      var j := if i < k then i else i + 1;
      assert rest[i] == ns[j];
    }
  }

  /** The first node stays first exactly when its place does. */
  lemma FirstStays(ns: seq<Node>, order: seq<nat>, sorted: seq<Node>)
    requires NoRepeats(ns) && ns != [] && |order| == |ns| && forall k :: 0 <= k < |order| ==> order[k] < |ns|
    requires sorted == Picked(ns, order) && forall i :: 0 <= i < |ns| ==> i in order
    ensures sorted[0] == ns[0] <==> order[0] == 0
    ensures forall n :: n in ns <==> n in sorted
  {
    forall n | n in ns ensures n in sorted {
      var i :| 0 <= i < |ns| && ns[i] == n;
      assert sorted[Place(order, i)] == n;
    }
  }

  /** `cached` is the child the tail speaks of. */
  ghost predicate Caches(ns: seq<Node>, tail: Tail, cached: Node?) {
    match tail
    case Unset => cached == null
    case Cached(p) => p < |ns| && cached == ns[p]
    case Gone => cached != null && cached !in ns
  }

  lemma CachesArranged(ns: seq<Node>, order: seq<nat>, tail: Tail, cached: Node?)
    requires NoRepeats(ns) && ns != [] && |order| == |ns| && forall k :: 0 <= k < |order| ==> order[k] < |ns|
    requires Caches(ns, tail, cached) && forall i :: 0 <= i < |ns| ==> i in order
    ensures Caches(Picked(ns, order), TailArranged(tail, order), if Picked(ns, order)[0] == ns[0] then cached else null)
  {
    FirstStays(ns, order, Picked(ns, order));
    if tail.Cached? { assert Picked(ns, order)[Place(order, tail.place)] == ns[tail.place]; }
  }

  lemma FrontKeepsApart(ns: seq<Node>, p: nat, n: Node)
    requires NoRepeats(ns) && p < |ns| && n !in ns
    ensures NoRepeats(ns[..p + 1] + [n])
    ensures p == |ns| - 1 ==> ns[..p + 1] + [n] == ns + [n]
  {
  }

  /** A node in front of the last one leads to a new one. */
  lemma NotLinked(ns: seq<Node>, p: nat, n: Node)
    requires p < |ns| && ns[p].next == n && n !in ns && p < |ns| - 1
    ensures !Linked(ns + [n])
  {
    assert (ns + [n])[p] == ns[p] && (ns + [n])[p + 1] == ns[p + 1];
  }

  class Children {
    var child: Node?
    ghost var nodes: seq<Node>
    ghost var tail: Tail

    ghost predicate Valid()
      reads this, nodes
    {
      Linked(nodes) && child == Head(nodes) && (nodes != [] ==> Caches(nodes, tail, nodes[0].prev))
    }

    ghost function Contents(): List<Node>
      reads this
    {
      List(nodes, tail)
    }

    /** The list as it was, or the new child in front of it, cached or not. */
    ghost predicate Shows(l: List<Node>)
      reads this, nodes
    {
      Valid() && nodes == l.items && (l.items != [] ==> tail == l.tail)
    }

    constructor ()
      ensures Valid() && nodes == []
    {
      child, nodes, tail := null, [], Unset;
    }

    /** What the functions write to: the nodes, and the one that is cached. */
    ghost function Region(): set<Node>
      reads this, nodes
    {
      (set n | n in nodes) + (if nodes != [] && nodes[0].prev != null then {nodes[0].prev} else {})
    }

    /** The last node, found by `next`. */
    method FindLast() returns (last: Node)
      requires Valid() && nodes != []
      ensures last == nodes[|nodes| - 1]
    {
      last := child;
      ghost var i := 0;
      while last.next != null
        invariant i < |nodes| && last == nodes[i]
        decreases |nodes| - i
      {
        last, i := last.next, i + 1;
      }
    }

    /** `add_item_to_array`.  The new child stands behind the others exactly when the last child
        is cached, or nothing is. */
    method AddItem(item: Node)
      requires Valid() && item !in nodes && item.next == null
      modifies this, Region(), item
      ensures Appended(old(Contents()), item)
      ensures Linked(old(nodes) + [item]) <==> Append(old(Contents()), item).Some?
    {
      if child == null {
        child := item;
        item.prev := item;
        item.next := null;
        nodes, tail := [item], Cached(0);
        assert old(nodes) + [item] == nodes;
        return;
      }
      var last := child.prev;
      if last == null {
        last := FindLast();
      }
      Suffix(last, item);
    }

    /** What is left of the list `l` with `item` added: the list with it, or the children up to
        the one that was cached and then `item`, or the list without it. */
    ghost predicate Appended(l: List<Node>, item: Node)
      reads this, nodes
    {
      match Append(l, item)
      case Some(l') => Shows(l')
      case None =>
        if l.tail.Cached? then Shows(Cut(l, item))
        else nodes == l.items && Linked(nodes) && child == Head(nodes) && item !in nodes
    }

    /** `suffix_object`, and the cache. */
    method Suffix(last: Node, item: Node)
      requires Valid() && nodes != [] && item !in nodes && item.next == null
      requires last == if tail == Unset then nodes[|nodes| - 1] else child.prev
      modifies this`nodes, this`tail, Region(), item
      ensures Appended(old(Contents()), item)
      ensures Linked(old(nodes) + [item]) <==> Append(old(Contents()), item).Some?
    {
      hide NoRepeats;
      ghost var p := if tail.Cached? then tail.place else |nodes| - 1;
      ghost var kept := nodes[..p + 1] + [item];
      FrontKeepsApart(nodes, p, item);
      Apart(nodes, p);
      Apart(nodes, |nodes| - 1);
      last.next := item;
      item.prev := last;
      child.prev := item;
      if tail != Gone {
        assert forall i {:trigger kept[i].next} :: 0 <= i < |kept| ==>
          kept[i].next == if i + 1 < |kept| then kept[i + 1] else null;
        assert forall i {:trigger kept[i].prev} :: 0 < i < |kept| ==> kept[i].prev == kept[i - 1];
        if p < |nodes| - 1 { NotLinked(nodes, p, item); }
        nodes, tail := kept, Cached(p + 1);
      } else {
        assert (nodes + [item])[|nodes| - 1].next == null;
      }
    }

    method Find(which: nat) returns (c: Node?)
      requires Valid()
      ensures c == if which < |nodes| then nodes[which] else null
    {
      c := child;
      var left: nat := which;
      while c != null && left > 0
        invariant left <= which && c == if which - left < |nodes| then nodes[which - left] else null
        decreases left
      {
        c, left := c.next, left - 1;
      }
    }

    /** `detach_item_from_array`, and `cJSON_DetachItemViaPointer` of the child found.  What is
        left is the list without it exactly when it is not the first, or no child behind it is
        cached; otherwise the children up to the cached one are a ring. */
    method DetachItem(which: nat) returns (c: Node?)
      requires Valid()
      modifies this, Region()
      ensures which >= |old(nodes)| ==> c == null && Shows(old(Contents()))
      ensures which < |old(nodes)| ==> c == old(nodes)[which] && Detached(old(Contents()), which)
      ensures which < |old(nodes)| ==>
        (Linked(RemoveAt(old(nodes), which)) <==> which > 0 || !old(tail).Cached? || old(tail) == Cached(0))
    {
      hide NoRepeats, Chained;
      c := Find(which);
      if c == null {
        return;
      }
      TakeOut(c, which);
    }

    /** What is left of the list `l` without the child at `which`. */
    ghost predicate Detached(l: List<Node>, which: nat)
      requires which < |l.items|
      reads this, nodes, l.items
    {
      match Detach(l, which)
      case Some(l') => Shows(l')
      case None =>
        && child == Head(RemoveAt(l.items, which))
        && (l.tail.Cached? && l.tail.place < |l.items| ==> Ring(l.items[1..l.tail.place + 1]))
    }

    method TakeOut(c: Node, which: nat)
      requires Valid() && which < |nodes| && c == nodes[which]
      modifies this, Region()
      ensures Detached(old(Contents()), which)
      ensures Linked(RemoveAt(old(nodes), which)) <==> which > 0 || !old(tail).Cached? || old(tail) == Cached(0)
    {
      hide NoRepeats, RemoveAt;
      ghost var l, rest, cached := Contents(), RemoveAt(nodes, which), nodes[0].prev;
      ghost var before, after := c.prev, c.next;
      RemoveKeepsApart(nodes, which);
      Neighbours(nodes, which);
      Unlink(c, which);
      if HitsHead(l, which) && l.tail.Cached? {
        PlaceApart(l.items, l.tail.place);
        RingLinks(l.items, l.tail.place);
        RingIsNoList(l.items, l.tail.place);
      } else {
        RestLinked(l.items, which, before, after);
      }
      if !HitsHead(l, which) {
        tail := TailWithout(l, which);
      }
      nodes := rest;
    }

    /** The pointers of one child and its neighbours. */
    method Unlink(c: Node, which: nat)
      requires Linked(nodes) && child == Head(nodes) && which < |nodes| && c == nodes[which]
      modifies this`child, Region()
      ensures
        var before, after := old(c.prev), old(c.next);
        && child == (if which == 0 then after else nodes[0])
        && (forall i {:trigger nodes[i].next} :: 0 <= i < |nodes| && i != which ==>
              nodes[i].next == if nodes[i] == before then after else if i + 1 < |nodes| then nodes[i + 1] else null)
        && (forall i {:trigger nodes[i].prev} :: 0 < i < |nodes| && i != which ==>
              nodes[i].prev == if nodes[i] == after then before else nodes[i - 1])
        && (which > 0 ==> nodes[0].prev == old(nodes[0].prev))
        && (which == 0 && |nodes| > 1 ==> nodes[1].prev == before)
    {
      PlaceApart(nodes, which);
      PlaceApart(nodes, 0);
      if which > 0 { PlaceApart(nodes, which - 1); }
      if c.prev != null {
        c.prev.next := c.next;
      }
      if c.next != null {
        c.next.prev := c.prev;
      }
      if c == child {
        child := c.next;
      }
      c.prev := null;
      c.next := null;
    }

    /** `insert_item_in_array`.  The new child may be one that was taken out of the list and is
        still cached. */
    method InsertItem(which: nat, item: Node) returns (ok: bool)
      requires Valid() && item !in nodes && item.next == null
      modifies this, Region(), item
      ensures ok <==> which <= |old(nodes)|
      ensures !ok ==> Shows(old(Contents()))
      ensures ok && which == |old(nodes)| ==> Appended(old(Contents()), item)
      ensures ok && which < |old(nodes)| ==>
        Shows(Insert(old(Contents()), which, item, item == old(child.prev)).value)
    {
      var c := child;
      var left: nat := which;
      while c != null && left > 0
        invariant left <= which && which - left <= |nodes|
        invariant c == if which - left < |nodes| then nodes[which - left] else null
        decreases left
      {
        c, left := c.next, left - 1;
      }
      if left > 0 {
        return false;
      }
      ok := true;
      if c == null {
        AddItem(item);
        return;
      }
      ghost var back := item == child.prev;
      InsertBefore(which, c, item);
      nodes, tail := nodes[..which] + [item] + nodes[which..], TailWith(tail, which, back);
    }

    method InsertBefore(which: nat, c: Node, item: Node)
      requires Linked(nodes) && child == Head(nodes) && item !in nodes && which < |nodes| && c == nodes[which]
      modifies this`child, nodes, item
      ensures
        var all := nodes[..which] + [item] + nodes[which..];
        Linked(all) && child == Head(all) && all[0].prev == old(nodes[0].prev)
    {
      hide NoRepeats;
      ghost var all := nodes[..which] + [item] + nodes[which..];
      InsertKeepsApart(nodes, which, item);
      Apart(nodes, which);
      if which > 0 { Apart(nodes, which - 1); }
      Apart(nodes, |nodes| - 1);
      item.next := c;
      item.prev := c.prev;
      c.prev := item;
      if c == child {
        child := item;
      } else {
        item.prev.next := item;
      }
      assert forall i {:trigger all[i].next} :: 0 <= i < |all| ==>
        all[i].next == if i + 1 < |all| then all[i + 1] else null;
      assert forall i {:trigger all[i].prev} :: 0 < i < |all| ==> all[i].prev == all[i - 1];
    }

    /** `sort_object`. */
    method SortChildren(cs: bool)
      requires Valid()
      modifies this, nodes
      ensures Shows(Arrange(cs, old(Contents()), KeysBy(old(nodes), NodeKey)))
    {
      hide NoRepeats, Chained, SortList, Order, Caches, TailArranged, Picked, KeysBy;
      ghost var order, sorted := Order(cs, KeysBy(nodes, NodeKey)), SortList(cs, nodes, NodeKey);
      OrderSorts(cs, nodes, NodeKey);
      OrderPermutes(cs, KeysBy(nodes, NodeKey));
      if nodes != [] { CachesArranged(nodes, order, tail, nodes[0].prev); }
      child := Sort.Sort(cs, child, nodes);
      nodes, tail := sorted, TailArranged(tail, order);
    }
  }
}
