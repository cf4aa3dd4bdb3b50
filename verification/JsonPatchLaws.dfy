/** What follows from the meaning of the operations: where a copied or moved item is afterwards,
    what else has changed, and when an operation fails. */
module JsonPatchLaws {
  import opened Options
  import opened Strings
  import opened Json
  import opened JsonPointer
  import opened JsonPatch
  import opened JsonPatchMeaning

  // ---------------------------------------------------------------------------
  // Patches that are refused

  const OPERATIONS := {"add", "remove", "replace", "move", "copy", "test"}

  ghost predicate IsText(j: Option<Json>) {
    j.Some? && j.value.String?
  }

  /** Every refusal that does not look at the document leaves it alone. */
  lemma MalformedRefused(cs: bool, doc: Json, patch: Json)
    ensures
      var path, op, from := GetObjectItem(cs, patch, "path"), GetObjectItem(cs, patch, "op"),
        GetObjectItem(cs, patch, "from");
      var r := ApplyPatch(cs, doc, patch);
      && (!IsText(path) ==> r == Applied(2, doc))
      && (IsText(path) && !(IsText(op) && op.value.s in OPERATIONS) ==> r == Applied(3, doc))
      && (IsText(path) && IsText(op) && op.value.s in {"move", "copy"} ==>
           (from.None? ==> r == Applied(4, doc)) && (from.Some? && !IsText(from) ==> r == Applied(5, doc)))
  {
    hide GetObjectItem, Perform, DecodePatchOperation;
    var path, op := GetObjectItem(cs, patch, "path"), GetObjectItem(cs, patch, "op");
    OperationNamed(cs, patch);
    if IsText(path) {
      SourceMalformed(cs, doc, path.value.s, GetObjectItem(cs, patch, "value"), GetObjectItem(cs, patch, "from"));
    }
  }

  lemma OperationNamed(cs: bool, patch: Json)
    ensures
      var op, code := GetObjectItem(cs, patch, "op"), DecodePatchOperation(cs, patch);
      && (code == INVALID <==> !(IsText(op) && op.value.s in OPERATIONS))
      && (IsText(op) && op.value.s == "move" ==> code == MOVE) && (IsText(op) && op.value.s == "copy" ==> code == COPY)
  {
    hide GetObjectItem;
  }

  lemma SourceMalformed(cs: bool, doc: Json, path: string, value: Option<Json>, from: Option<Json>)
    ensures Perform(cs, doc, INVALID, path, value, from) == Applied(3, doc)
    ensures forall code :: code in {MOVE, COPY} ==>
      && (from.None? ==> Perform(cs, doc, code, path, value, from) == Applied(4, doc))
      && (from.Some? && !IsText(from) ==> Perform(cs, doc, code, path, value, from) == Applied(5, doc))
  {
    hide DetachPath, GetItem, TestAt, AddValue, AddAt;
  }

  /** A patch list is carried out up to the first operation that fails. */
  lemma {:induction false} FailureStops(cs: bool, doc: Json, done: seq<Json>, patch: Json, rest: seq<Json>)
    requires ApplyPatches(cs, doc, done).status == 0
    ensures ApplyPatches(cs, doc, []) == Applied(0, doc)
    ensures
      var r := ApplyPatch(cs, ApplyPatches(cs, doc, done).doc, patch);
      ApplyPatches(cs, doc, done + [patch] + rest) == if r.status != 0 then r else ApplyPatches(cs, r.doc, rest)
    decreases |done|
  {
    hide ApplyPatch;
    var all := done + [patch] + rest;
    if done == [] {
      assert all[0] == patch && all[1..] == rest;
    } else {
      assert all[0] == done[0] && all[1..] == done[1..] + [patch] + rest;
      FailureStops(cs, ApplyPatch(cs, doc, done[0]).doc, done[1..], patch, rest);
    }
  }

  // ---------------------------------------------------------------------------
  // Looking at changed values

  lemma {:induction false} LookConcat(cs: bool, v: Value, a: seq<string>, b: seq<string>)
    ensures Look(cs, v, a + b) == match Look(cs, v, a) case None => None case Some(c) => Look(cs, c, b)
    decreases |a|
  {
    hide Inner;
    if a == [] {
      assert a + b == b;
    } else {
      assert (a + b)[0] == a[0] && (a + b)[1..] == a[1..] + b;
      if Inner(cs, v, a[0]).Some? {
        LookConcat(cs, Inner(cs, v, a[0]).value, a[1..], b);
      }
    }
  }

  lemma {:induction false} LookChanged(cs: bool, v: Value, path: seq<string>, w: Value)
    requires Look(cs, v, path).Some?
    ensures Look(cs, Changed(cs, v, path, w), path) == Some(w)
    decreases |path|
  {
    if path != [] {
      LookChanged(cs, Inner(cs, v, path[0]).value, path[1..], w);
    }
  }

  ghost predicate SameChild(cs: bool, v: Value, a: string, b: string) {
    match v
    case VObject(_) => FoldString(cs, a) == FoldString(cs, b)
    case VArray(_) => IndexNamed(a) == IndexNamed(b)
    case VScalar(_) => true
  }

  /** The two paths part: up to some element they name the same children, and there others. */
  ghost predicate Apart(cs: bool, v: Value, a: seq<string>, b: seq<string>)
    decreases |a|
  {
    && a != [] && b != []
    && (!SameChild(cs, v, a[0], b[0])
        || (Inner(cs, v, a[0]).Some? && Apart(cs, Inner(cs, v, a[0]).value, a[1..], b[1..])))
  }

  lemma {:induction false} ChangedElsewhere(cs: bool, v: Value, path: seq<string>, w: Value, other: seq<string>)
    requires Look(cs, v, path).Some? && Apart(cs, v, path, other)
    ensures Look(cs, Changed(cs, v, path, w), other) == Look(cs, v, other)
    decreases |path|
  {
    var c := Inner(cs, v, path[0]).value;
    if SameChild(cs, v, path[0], other[0]) {
      ChangedElsewhere(cs, c, path[1..], w, other[1..]);
    }
  }

  // ---------------------------------------------------------------------------
  // An item put somewhere, and one taken away

  /** Where in an array of `n` elements an item is put. */
  function Spot(token: string, n: nat): Option<nat> {
    if token == "-" then Some(n) else IndexNamed(token)
  }

  /** Whether an item can be put there, by the status: 9 without an object or array, 11 for no index
      and 10 for one behind the end. */
  function PutStatus(cs: bool, v: Value, path: seq<string>): int {
    if path == [] then 9
    else match Look(cs, v, Front(path))
      case Some(VObject(_)) => 0
      case Some(VArray(xs)) =>
        var k := Spot(Final(path), |xs|);
        if k.None? then 11 else if k.value > |xs| then 10 else 0
      case _ => 9
  }

  /** `w` is `v` with `x` at a path: the member of an object is set, the elements of an array from
      that index on make room, and all that is not on the path has stayed. */
  ghost predicate PutThere(cs: bool, v: Value, w: Value, path: seq<string>, x: Value)
    requires PutStatus(cs, v, path) == 0
  {
    && (match Look(cs, v, Front(path)).value
        case VObject(m) => Look(cs, w, Front(path)) == Some(VObject(m[FoldString(cs, Final(path)) := x]))
        case VArray(xs) =>
          var k := Spot(Final(path), |xs|).value;
          Look(cs, w, Front(path)) == Some(VArray(xs[..k] + [x] + xs[k..]))
        case _ => false)
    && forall other :: Apart(cs, v, Front(path), other) ==> Look(cs, w, other) == Look(cs, v, other)
  }

  /** `w` is `v` without a child of what the path leads to; all that is not on the path has stayed. */
  ghost predicate TakenAway(cs: bool, v: Value, w: Value, front: seq<string>, p: Part)
    requires Look(cs, v, front).Some? && HasPart(Look(cs, v, front).value, p)
  {
    && Look(cs, w, front) == (match p
         case AtKey(key) => Some(VObject(Look(cs, v, front).value.fields - {key}))
         case AtIndex(i) =>
           var xs := Look(cs, v, front).value.elements;
           Some(VArray(xs[..i] + xs[i + 1..])))
    && forall other :: Apart(cs, v, front, other) ==> Look(cs, w, other) == Look(cs, v, other)
  }

  lemma ElsewhereStays(cs: bool, v: Value, path: seq<string>, w: Value)
    requires Look(cs, v, path).Some?
    ensures forall other :: Apart(cs, v, path, other) ==>
      Look(cs, Changed(cs, v, path, w), other) == Look(cs, v, other)
  {
    hide Apart, Look, Changed;
    forall other | Apart(cs, v, path, other)
      ensures Look(cs, Changed(cs, v, path, w), other) == Look(cs, v, other)
    {
      ChangedElsewhere(cs, v, path, w, other);
    }
  }

  lemma AddedPuts(cs: bool, v: Value, path: seq<string>, x: Value)
    ensures
      match Added(cs, v, path, x)
      case Refused(status) => status != 0 && PutStatus(cs, v, path) == status
      case Gives(w) => PutStatus(cs, v, path) == 0 && PutThere(cs, v, w, path, x)
  {
    hide Apart, Look, Changed, IndexNamed;
    if Added(cs, v, path, x).Gives? {
      var parent := Joined(cs, Look(cs, v, Front(path)), Final(path), x).value;
      LookChanged(cs, v, Front(path), parent);
      ElsewhereStays(cs, v, Front(path), parent);
      AppendIsInsert(Look(cs, v, Front(path)).value, x);
    }
  }

  lemma AppendIsInsert(v: Value, x: Value)
    ensures v.VArray? ==> var xs := v.elements; xs[..|xs|] + [x] + xs[|xs|..] == xs + [x]
  {
  }

  lemma RemovedTakes(cs: bool, v: Value, path: seq<string>, p: Part)
    requires path != [] && Look(cs, v, Front(path)).Some? && HasPart(Look(cs, v, Front(path)).value, p)
    ensures TakenAway(cs, v, Removed(cs, v, path, p), Front(path), p)
  {
    hide Apart, Look, Changed;
    var parent := Without(Look(cs, v, Front(path)).value, p);
    LookChanged(cs, v, Front(path), parent);
    ElsewhereStays(cs, v, Front(path), parent);
  }

  // ---------------------------------------------------------------------------
  // "copy"

  /** The item at `from` is at `path` afterwards and nothing else has changed; when there is none
      the status is 5, and when it cannot be put there 9, 10 or 11. */
  lemma CopyLaw(cs: bool, doc: Json, patch: Json, from: seq<string>, path: seq<string>)
    requires WellFormed(cs, doc) && PlainPath(from) && PlainPath(path) && Asks(cs, patch, ToCopy(from, path))
    ensures
      var r, v := ApplyPatch(cs, doc, patch), Norm(cs, doc);
      var x, w := Look(cs, v, from), Norm(cs, r.doc);
      && r.status == (if x.None? then 5 else PutStatus(cs, v, path))
      && WellFormed(cs, r.doc)
      && if r.status == 0 then PutThere(cs, v, w, path, x.value) else w == v
  {
    hide Norm, WellFormed, Look, PutThere, PutStatus, Added, ApplyPatch, PlainPath, Asks;
    PatchMeans(cs, doc, patch, ToCopy(from, path));
    var v := Norm(cs, doc);
    if Look(cs, v, from).Some? {
      AddedPuts(cs, v, path, Look(cs, v, from).value);
    }
  }

  /** The path that leads to an item that has been put somewhere. */
  function Landing(cs: bool, v: Value, path: seq<string>): seq<string>
    requires PutStatus(cs, v, path) == 0
  {
    var parent := Look(cs, v, Front(path)).value;
    if parent.VArray? then Front(path) + [Decimal(Spot(Final(path), |parent.elements|).value)] else path
  }

  lemma IndexOfDecimal(n: nat)
    ensures IndexNamed(Decimal(n)) == Some(n) && Plain(Decimal(n)) && '\0' !in Decimal(n)
  {
    DecodeDecimal(n, []);
    assert Decimal(n) + [] == Decimal(n);
    assert forall c :: c in Decimal(n) ==> '0' <= c <= '9';
    IndexRead(Decimal(n));
  }

  /** It is there. */
  lemma PutIsThere(cs: bool, v: Value, w: Value, path: seq<string>, x: Value)
    requires PutStatus(cs, v, path) == 0 && PutThere(cs, v, w, path, x)
    ensures Look(cs, w, Landing(cs, v, path)) == Some(x)
  {
    var front, parent := Front(path), Look(cs, v, Front(path)).value;
    var t := if parent.VArray? then Decimal(Spot(Final(path), |parent.elements|).value) else Final(path);
    assert path == front + [Final(path)];
    LookConcat(cs, w, front, [t]);
    if parent.VArray? { IndexOfDecimal(Spot(Final(path), |parent.elements|).value); }
    LookOne(cs, Look(cs, w, front).value, t);
  }

  lemma LookOne(cs: bool, v: Value, token: string)
    ensures Look(cs, v, [token]) == Inner(cs, v, token)
  {
  }

  /** What the other members and elements at the path hold is still there: under its key, or under
      its index, which is one more behind the place. */
  lemma NeighboursStay(cs: bool, v: Value, w: Value, path: seq<string>, x: Value, token: string, rest: seq<string>)
    requires PutStatus(cs, v, path) == 0 && PutThere(cs, v, w, path, x)
    requires Inner(cs, Look(cs, v, Front(path)).value, token).Some?
    ensures
      var front := Front(path);
      match Look(cs, v, front).value
      case VObject(_) => FoldString(cs, token) != FoldString(cs, Final(path)) ==>
        Look(cs, w, front + [token] + rest) == Look(cs, v, front + [token] + rest)
      case VArray(xs) =>
        var i, k := IndexNamed(token).value, Spot(Final(path), |xs|).value;
        Look(cs, w, front + [Decimal(if i < k then i else i + 1)] + rest) == Look(cs, v, front + [token] + rest)
      case _ => false
  {
    var front, parent := Front(path), Look(cs, v, Front(path)).value;
    LookConcat(cs, v, front, [token]);
    LookConcat(cs, v, front + [token], rest);
    LookOne(cs, parent, token);
    var t := token;
    if parent.VArray? {
      var i, k := IndexNamed(token).value, Spot(Final(path), |parent.elements|).value;
      t := Decimal(if i < k then i else i + 1);
      IndexOfDecimal(if i < k then i else i + 1);
    }
    LookConcat(cs, w, front, [t]);
    LookConcat(cs, w, front + [t], rest);
    LookOne(cs, Look(cs, w, front).value, t);
  }

  // ---------------------------------------------------------------------------
  // "move" and "remove"

  /** No other key differs from this one in case only. */
  ghost predicate NoTwinOf(m: map<string, Value>, token: string) {
    forall k :: k in m && FoldString(false, k) == FoldString(false, token) ==> k == token
  }

  /** Which child goes, when no other key at that place differs from the name in case only: the one
      with that name. */
  lemma TakesNamed(cs: bool, doc: Json, path: seq<string>)
    requires WellFormed(cs, doc) && PlainPath(path) && path != []
    ensures
      match Look(cs, Norm(cs, doc), Front(path))
      case Some(VObject(m)) =>
        (!cs || NoTwinOf(m, Final(path))) ==>
          Takes(cs, doc, path) ==
            (if FoldString(cs, Final(path)) in m then Some(AtKey(FoldString(cs, Final(path)))) else None)
      case Some(VArray(xs)) =>
        var k := IndexNamed(Final(path));
        Takes(cs, doc, path) == if k.Some? && k.value < |xs| then Some(AtIndex(k.value)) else None
      case _ => Takes(cs, doc, path) == None
  {
    hide Norm, WellFormed, Look, GetItem, PlainPath, IndexNamed;
    assert PlainPath(Front(path)) by { PlainRest(path); }
    LookIs(cs, doc, Front(path));
    var item := GetItem(cs, doc, Written(Front(path)));
    if item.Some? { PicksNamed(cs, item.value, Final(path)); }
  }

  lemma PicksNamed(cs: bool, parent: Json, token: string)
    ensures
      match Norm(cs, parent)
      case VObject(m) =>
        (!cs || NoTwinOf(m, token)) ==>
          Picks(cs, parent, token) ==
            (if FoldString(cs, token) in m then Some(AtKey(FoldString(cs, token))) else None)
      case VArray(xs) =>
        var k := IndexNamed(token);
        Picks(cs, parent, token) == if k.Some? && k.value < |xs| then Some(AtIndex(k.value)) else None
      case VScalar(_) => Picks(cs, parent, token) == None
  {
    match parent {
      case Object(ms) =>
        var f := Find(false, ms, token);
        NormMembersKeys(cs, ms);
        NormMembersFind(cs, ms, token);
        if f.Some? { SameKey(false, token, ms[f.value].key); }
        if Find(cs, ms, token).Some? { MatchIgnoringCase(cs, token, ms[Find(cs, ms, token).value].key); }
      case _ =>
    }
  }

  /** The item is taken away at `from`, and what is left is changed as by a copy to `path`.  Without
      an item the status is 5.  When it cannot be put there it has been taken away all the same. */
  lemma MoveLaw(cs: bool, doc: Json, patch: Json, from: seq<string>, path: seq<string>)
    requires WellFormed(cs, doc) && PlainPath(from) && PlainPath(path) && Asks(cs, patch, ToMove(from, path))
    ensures
      var r, v, p := ApplyPatch(cs, doc, patch), Norm(cs, doc), Takes(cs, doc, from);
      WellFormed(cs, r.doc) && MovesPart(cs, v, from, path, p, r.status, Norm(cs, r.doc))
  {
    hide Norm, WellFormed, Look, PutThere, TakenAway, PutStatus, Added, ApplyPatch, PlainPath, Asks, Takes, Removed;
    PatchMeans(cs, doc, patch, ToMove(from, path));
    var v, p := Norm(cs, doc), Takes(cs, doc, from);
    if p.Some? {
      TakesPart(cs, doc, from);
      TakesNowhere(cs, doc, from);
      var mid := Removed(cs, v, from, p.value);
      RemovedTakes(cs, v, from, p.value);
      AddedPuts(cs, mid, path, PartOf(Look(cs, v, Front(from)).value, p.value));
    }
  }

  lemma TakesNowhere(cs: bool, doc: Json, path: seq<string>)
    requires Takes(cs, doc, path).Some?
    ensures path != []
  {
  }

  ghost predicate MovesPart(cs: bool, v: Value, from: seq<string>, path: seq<string>, p: Option<Part>, status: int,
                            w: Value) {
    if p.None? then status == 5 && w == v
    else
      && from != [] && Look(cs, v, Front(from)).Some? && HasPart(Look(cs, v, Front(from)).value, p.value)
      && exists mid ::
           && TakenAway(cs, v, mid, Front(from), p.value) && status == PutStatus(cs, mid, path)
           && if status == 0 then PutThere(cs, mid, w, path, PartOf(Look(cs, v, Front(from)).value, p.value))
              else w == mid
  }

  /** A removal takes one child away; without one the status is 13. */
  lemma RemoveLaw(cs: bool, doc: Json, patch: Json, path: seq<string>)
    requires WellFormed(cs, doc) && PlainPath(path) && path != [] && Asks(cs, patch, ToRemove(path))
    ensures
      var r, v, p := ApplyPatch(cs, doc, patch), Norm(cs, doc), Takes(cs, doc, path);
      && WellFormed(cs, r.doc)
      && if p.None? then r.status == 13 && Norm(cs, r.doc) == v
         else
           && Look(cs, v, Front(path)).Some? && HasPart(Look(cs, v, Front(path)).value, p.value)
           && r.status == 0 && TakenAway(cs, v, Norm(cs, r.doc), Front(path), p.value)
  {
    hide Norm, WellFormed, Look, TakenAway, ApplyPatch, PlainPath, Asks, Takes, Removed;
    PatchMeans(cs, doc, patch, ToRemove(path));
    var p := Takes(cs, doc, path);
    if p.Some? {
      TakesPart(cs, doc, path);
      RemovedTakes(cs, Norm(cs, doc), path, p.value);
    }
  }

  /** What has been moved from a key is gone there, unless it has been put back. */
  lemma MovedIsGone(cs: bool, v: Value, mid: Value, w: Value, from: seq<string>, path: seq<string>, x: Value)
    requires from != [] && Look(cs, v, Front(from)).Some?
    requires HasPart(Look(cs, v, Front(from)).value, AtKey(FoldString(cs, Final(from))))
    requires TakenAway(cs, v, mid, Front(from), AtKey(FoldString(cs, Final(from))))
    requires PutStatus(cs, mid, path) == 0 && PutThere(cs, mid, w, path, x)
    requires
      || Apart(cs, mid, Front(path), from)
      || (Front(path) == Front(from) && FoldString(cs, Final(path)) != FoldString(cs, Final(from)))
    ensures Look(cs, w, from) == None
  {
    assert from == Front(from) + [Final(from)];
    LookConcat(cs, mid, Front(from), [Final(from)]);
    LookConcat(cs, w, Front(from), [Final(from)]);
    LookOne(cs, Look(cs, mid, Front(from)).value, Final(from));
    if Look(cs, w, Front(from)).Some? { LookOne(cs, Look(cs, w, Front(from)).value, Final(from)); }
  }

  lemma OneMore(front: seq<string>, token: string)
    requires PlainPath(front) && Plain(token) && '\0' !in token
    ensures PlainPath(front + [token]) && Front(front + [token]) == front && Final(front + [token]) == token
  {
  }

  /** An element moved inside its array: the others keep their order; behind the end it is lost. */
  lemma MoveWithin(cs: bool, doc: Json, patch: Json, front: seq<string>, i: nat, k: nat)
    requires WellFormed(cs, doc) && PlainPath(front)
    requires Asks(cs, patch, ToMove(front + [Decimal(i)], front + [Decimal(k)]))
    requires Look(cs, Norm(cs, doc), front).Some? && Look(cs, Norm(cs, doc), front).value.VArray?
    requires i < |Look(cs, Norm(cs, doc), front).value.elements|
    ensures
      var r, xs := ApplyPatch(cs, doc, patch), Look(cs, Norm(cs, doc), front).value.elements;
      var ys := xs[..i] + xs[i + 1..];
      && r.status == (if k < |xs| then 0 else 10)
      && Look(cs, Norm(cs, r.doc), front) ==
        Some(VArray(if k < |xs| then ys[..k] + [xs[i]] + ys[k..] else ys))
  {
    hide Norm, WellFormed, ApplyPatch, PlainPath, Asks, Takes, Apart, IndexNamed, Look;
    var v, from, path := Norm(cs, doc), front + [Decimal(i)], front + [Decimal(k)];
    IndexOfDecimal(i);
    IndexOfDecimal(k);
    OneMore(front, Decimal(i));
    OneMore(front, Decimal(k));
    TakesNamed(cs, doc, from);
    MoveLaw(cs, doc, patch, from, path);
    DashIsNoIndex(k);
  }

  lemma DashIsNoIndex(n: nat)
    ensures Decimal(n) != "-"
  {
    assert '0' <= Decimal(n)[0] <= '9';
  }

  /** A member that is given another key. */
  lemma MoveMember(cs: bool, doc: Json, patch: Json, front: seq<string>, a: string, b: string)
    requires WellFormed(cs, doc) && PlainPath(front + [a]) && PlainPath(front + [b])
    requires Asks(cs, patch, ToMove(front + [a], front + [b]))
    requires Look(cs, Norm(cs, doc), front).Some? && Look(cs, Norm(cs, doc), front).value.VObject?
    requires FoldString(cs, a) in Look(cs, Norm(cs, doc), front).value.fields
    requires !cs || NoTwinOf(Look(cs, Norm(cs, doc), front).value.fields, a)
    ensures
      var r, m := ApplyPatch(cs, doc, patch), Look(cs, Norm(cs, doc), front).value.fields;
      && r.status == 0
      && Look(cs, Norm(cs, r.doc), front) ==
        Some(VObject((m - {FoldString(cs, a)})[FoldString(cs, b) := m[FoldString(cs, a)]]))
  {
    hide Norm, WellFormed, ApplyPatch, PlainPath, Asks, Takes, Apart, Look, NoTwinOf;
    assert Front(front + [a]) == front && Front(front + [b]) == front;
    TakesNamed(cs, doc, front + [a]);
    MoveLaw(cs, doc, patch, front + [a], front + [b]);
  }
}
