/** JSON trees as they stand in memory: each array and object with what its list of children
    caches.  A change that damages a list (see `ChildList`) leaves no tree behind. */
module LinkedJson {
  import opened Options
  import opened Strings
  import opened Json
  import opened Sort
  import opened JsonEquality
  import opened JsonPointer
  import opened ChildList

  type Scalar = j: Json | !j.Array? && !j.Object? witness Null

  datatype Tree =
    | Leaf(scalar: Scalar)
    | ArrayNode(elements: seq<Tree>, tail: Tail)
    | ObjectNode(fields: seq<Field>, tail: Tail)

  datatype Field = Field(key: string, tree: Tree)

  // ---------------------------------------------------------------------------
  // Trees and values

  /** The tree without its caches. */
  function Erase(t: Tree): (r: Json)
    ensures t.Leaf? <==> !r.Array? && !r.Object?
    ensures t.ArrayNode? <==> r.Array?
    decreases t, 0
  {
    match t
    case Leaf(j) => j
    case ArrayNode(es, _) => Array(EraseAll(es))
    case ObjectNode(fs, _) => Object(EraseFields(fs))
  }

  function EraseAll(es: seq<Tree>): (r: seq<Json>)
    ensures |r| == |es| && forall i :: 0 <= i < |es| ==> r[i] == Erase(es[i])
    decreases es, 1
  {
    seq(|es|, i requires 0 <= i < |es| => Erase(es[i]))
  }

  function EraseFields(fs: seq<Field>): (r: seq<Member>)
    ensures |r| == |fs| && forall i :: 0 <= i < |fs| ==> r[i] == Member(fs[i].key, Erase(fs[i].tree))
    decreases fs, 1
  {
    seq(|fs|, i requires 0 <= i < |fs| => Member(fs[i].key, Erase(fs[i].tree)))
  }

  /** A tree as the parser links it: nothing is cached. */
  function Fresh(j: Json): (r: Tree)
    decreases j, 0
  {
    match j
    case Array(items) => ArrayNode(FreshAll(items), Unset)
    case Object(ms) => ObjectNode(FreshFields(ms), Unset)
    case _ => Leaf(j)
  }

  function FreshAll(items: seq<Json>): (r: seq<Tree>)
    ensures |r| == |items| && forall i :: 0 <= i < |items| ==> r[i] == Fresh(items[i])
    decreases items, 1
  {
    seq(|items|, i requires 0 <= i < |items| => Fresh(items[i]))
  }

  function FreshFields(ms: seq<Member>): (r: seq<Field>)
    ensures |r| == |ms| && forall i :: 0 <= i < |ms| ==> r[i] == Field(ms[i].key, Fresh(ms[i].value))
    decreases ms, 1
  {
    seq(|ms|, i requires 0 <= i < |ms| => Field(ms[i].key, Fresh(ms[i].value)))
  }

  /** `cJSON_Duplicate`: the copies are linked one behind the other, nothing is cached. */
  function Duplicate(t: Tree): (r: Tree)
    decreases t, 0
  {
    match t
    case Leaf(j) => Leaf(j)
    case ArrayNode(es, _) => ArrayNode(DuplicateAll(es), Unset)
    case ObjectNode(fs, _) => ObjectNode(DuplicateFields(fs), Unset)
  }

  function DuplicateAll(es: seq<Tree>): (r: seq<Tree>)
    ensures |r| == |es| && forall i :: 0 <= i < |es| ==> r[i] == Duplicate(es[i])
    decreases es, 1
  {
    seq(|es|, i requires 0 <= i < |es| => Duplicate(es[i]))
  }

  function DuplicateFields(fs: seq<Field>): (r: seq<Field>)
    ensures |r| == |fs| && forall i :: 0 <= i < |fs| ==> r[i] == Field(fs[i].key, Duplicate(fs[i].tree))
    decreases fs, 1
  {
    seq(|fs|, i requires 0 <= i < |fs| => Field(fs[i].key, Duplicate(fs[i].tree)))
  }

  lemma {:induction false} EraseFresh(j: Json)
    ensures Erase(Fresh(j)) == j
    decreases j
  {
    match j {
      case Array(items) =>
        forall i | 0 <= i < |items| ensures Erase(Fresh(items[i])) == items[i] { EraseFresh(items[i]); }
        assert EraseAll(FreshAll(items)) == items;
      case Object(ms) =>
        forall i | 0 <= i < |ms| ensures Erase(Fresh(ms[i].value)) == ms[i].value { EraseFresh(ms[i].value); }
        assert EraseFields(FreshFields(ms)) == ms;
      case _ =>
    }
  }

  /** A duplicate is the same value, linked as if it had been parsed. */
  lemma {:induction false} DuplicateIsFresh(t: Tree)
    ensures Duplicate(t) == Fresh(Erase(t)) && Erase(Duplicate(t)) == Erase(t)
    decreases t
  {
    match t {
      case Leaf(_) =>
      case ArrayNode(es, _) =>
        forall i | 0 <= i < |es| ensures Duplicate(es[i]) == Fresh(Erase(es[i])) { DuplicateIsFresh(es[i]); }
        assert DuplicateAll(es) == FreshAll(EraseAll(es));
      case ObjectNode(fs, _) =>
        forall i | 0 <= i < |fs| ensures Duplicate(fs[i].tree) == Fresh(Erase(fs[i].tree))
          { DuplicateIsFresh(fs[i].tree); }
        assert DuplicateFields(fs) == FreshFields(EraseFields(fs));
    }
    EraseFresh(Erase(t));
  }

  /** Both tests find a duplicate equal to what was copied. */
  lemma DuplicateIsEqual(cs: bool, t: Tree)
    requires WellFormed(cs, Erase(t))
    ensures CompareJson(cs, Erase(t), Erase(Duplicate(t))) && CJsonCompare(cs, Erase(t), Erase(Duplicate(t)))
  {
    DuplicateIsFresh(t);
    CompareIsEquivalence(cs, Erase(t), Erase(t), Erase(t));
  }

  // ---------------------------------------------------------------------------
  // Sorting in place

  function NamesOf(fs: seq<Field>): (r: seq<string>)
    ensures |r| == |fs| && forall i :: 0 <= i < |fs| ==> r[i] == fs[i].key
  {
    seq(|fs|, i requires 0 <= i < |fs| => fs[i].key)
  }

  /** `sort_object`. */
  function SortFields(cs: bool, l: List<Field>): (r: List<Field>)
    ensures |r.items| == |l.items| && forall k :: 0 <= k < |r.items| ==> r.items[k] in l.items
  {
    Arrange(cs, l, NamesOf(l.items))
  }

  lemma SortFieldsErased(cs: bool, l: List<Field>)
    ensures EraseFields(SortFields(cs, l).items) == SortMembers(cs, EraseFields(l.items))
  {
    hide Order, SortList;
    var ms, order := EraseFields(l.items), Order(cs, NamesOf(l.items));
    OrderSorts(cs, ms, MemberKey);
    assert KeysBy(ms, MemberKey) == NamesOf(l.items);
    assert EraseFields(Picked(l.items, order)) == Picked(ms, order);
  }

  /** The tree as `compare_json` leaves it. */
  function LeftTree(cs: bool, t: Tree, b: Json): (r: Tree)
    decreases t, 1, 0
  {
    if Tag(Erase(t)) != Tag(b) then t
    else match t
      case Leaf(_) => t
      case ArrayNode(es, tail) => ArrayNode(LeftTrees(cs, es, b.items, t), tail)
      case ObjectNode(fs, tail) =>
        var l := SortFields(cs, List(fs, tail));
        SortedInside(cs, t);
        ObjectNode(LeftFields(cs, l.items, SortMembers(cs, b.members), t), l.tail)
  }

  lemma SortedInside(cs: bool, t: Tree)
    requires t.ObjectNode?
    ensures Inside(SortFields(cs, List(t.fields, t.tail)).items, t)
  {
    var fs := SortFields(cs, List(t.fields, t.tail)).items;
    forall i | 0 <= i < |fs| ensures fs[i].tree < t {
      assert fs[i] in t.fields;
      assert fs[i] < t;
    }
  }

  ghost predicate Inside(fs: seq<Field>, parent: Tree) {
    forall i :: 0 <= i < |fs| ==> fs[i].tree < parent
  }

  function LeftTrees(cs: bool, es: seq<Tree>, ys: seq<Json>, ghost parent: Tree): (r: seq<Tree>)
    requires forall i :: 0 <= i < |es| ==> es[i] < parent
    decreases parent, 0, |es|
  {
    if es == [] || ys == [] then es
    else
      [LeftTree(cs, es[0], ys[0])]
      + if CompareJson(cs, Erase(es[0]), ys[0]) then LeftTrees(cs, es[1..], ys[1..], parent) else es[1..]
  }

  function LeftFields(cs: bool, fs: seq<Field>, ys: seq<Member>, ghost parent: Tree): (r: seq<Field>)
    requires Inside(fs, parent)
    decreases parent, 0, |fs|
  {
    if fs == [] || ys == [] || Compare(cs, fs[0].key, ys[0].key) != 0 then fs
    else
      [Field(fs[0].key, LeftTree(cs, fs[0].tree, ys[0].value))]
      + if CompareJson(cs, Erase(fs[0].tree), ys[0].value) then LeftFields(cs, fs[1..], ys[1..], parent) else fs[1..]
  }

  lemma {:induction false} LeftTreeErased(cs: bool, t: Tree, b: Json)
    ensures Erase(LeftTree(cs, t, b)) == Left(cs, Erase(t), b)
    decreases t, 1, 0
  {
    hide LeftTrees, LeftFields, LeftItems, LeftMembers, SortFields, SortMembers;
    if Tag(Erase(t)) == Tag(b) {
      match t {
        case Leaf(_) =>
        case ArrayNode(es, _) =>
          LeftTreesErased(cs, es, b.items, t, Erase(t));
        case ObjectNode(fs, _) =>
          LeftObjectErased(cs, t, b);
      }
    }
  }

  lemma {:induction false} LeftObjectErased(cs: bool, t: Tree, b: Json)
    requires t.ObjectNode? && b.Object?
    ensures Erase(LeftTree(cs, t, b)) == Left(cs, Erase(t), b)
    decreases t, 0, |t.fields| + 1
  {
    hide LeftFields, LeftMembers, SortFields, SortMembers;
    var l := SortFields(cs, List(t.fields, t.tail));
    SortedInside(cs, t);
    SortedBelow(cs, Erase(t));
    SortFieldsErased(cs, List(t.fields, t.tail));
    LeftFieldsErased(cs, l.items, SortMembers(cs, b.members), t, Erase(t));
  }

  lemma {:induction false} LeftTreesErased(cs: bool, es: seq<Tree>, ys: seq<Json>, parent: Tree, bound: Json)
    requires forall i :: 0 <= i < |es| ==> es[i] < parent && Erase(es[i]) < bound
    ensures EraseAll(LeftTrees(cs, es, ys, parent)) == LeftItems(cs, EraseAll(es), ys, bound)
    decreases parent, 0, |es|
  {
    hide Left, LeftTree, CompareJson, Erase, EraseAll;
    if es != [] && ys != [] {
      LeftTreeErased(cs, es[0], ys[0]);
      LeftTreesErased(cs, es[1..], ys[1..], parent, bound);
      AllButFirst(es);
      FirstOfAll(LeftTree(cs, es[0], ys[0]), LeftTrees(cs, es[1..], ys[1..], parent));
      FirstOfAll(LeftTree(cs, es[0], ys[0]), es[1..]);
    }
  }

  lemma AllButFirst(es: seq<Tree>)
    requires es != []
    ensures EraseAll(es)[0] == Erase(es[0]) && EraseAll(es)[1..] == EraseAll(es[1..])
  {
    hide Erase;
  }

  lemma FirstOfAll(e: Tree, es: seq<Tree>)
    ensures EraseAll([e] + es) == [Erase(e)] + EraseAll(es)
  {
    hide Erase;
  }

  lemma FieldsButFirst(fs: seq<Field>)
    requires fs != []
    ensures EraseFields(fs)[0] == Member(fs[0].key, Erase(fs[0].tree)) && EraseFields(fs)[1..] == EraseFields(fs[1..])
  {
    hide Erase;
  }

  lemma FirstOfFields(f: Field, fs: seq<Field>)
    ensures EraseFields([f] + fs) == [Member(f.key, Erase(f.tree))] + EraseFields(fs)
  {
    hide Erase;
  }

  lemma {:induction false} LeftFieldsErased(cs: bool, fs: seq<Field>, ys: seq<Member>, parent: Tree, bound: Json)
    requires Inside(fs, parent) && Below(EraseFields(fs), bound)
    ensures EraseFields(LeftFields(cs, fs, ys, parent)) == LeftMembers(cs, EraseFields(fs), ys, bound)
    decreases parent, 0, |fs|
  {
    hide Left, LeftTree, CompareJson, Compare, Erase, EraseFields;
    if fs != [] && ys != [] {
      FieldsButFirst(fs);
      LeftTreeErased(cs, fs[0].tree, ys[0].value);
      LeftFieldsErased(cs, fs[1..], ys[1..], parent, bound);
      var f := Field(fs[0].key, LeftTree(cs, fs[0].tree, ys[0].value));
      FirstOfFields(f, LeftFields(cs, fs[1..], ys[1..], parent));
      FirstOfFields(f, fs[1..]);
    }
  }

  // ---------------------------------------------------------------------------
  // Children

  function FieldList(t: Tree): List<Field>
    requires t.ObjectNode?
  {
    List(t.fields, t.tail)
  }

  function ObjectOf(l: List<Field>): Tree {
    ObjectNode(l.items, l.tail)
  }

  predicate HasChild(t: Tree, i: nat) {
    (t.ArrayNode? && i < |t.elements|) || (t.ObjectNode? && i < |t.fields|)
  }

  function ChildOf(t: Tree, i: nat): (r: Tree)
    requires HasChild(t, i)
    ensures r < t
    ensures Erase(r) == Child(Erase(t), i)
  {
    if t.ArrayNode? then t.elements[i] else
      assert t.fields[i] < t;
      t.fields[i].tree
  }

  function WithChild(t: Tree, i: nat, c: Tree): (r: Tree)
    requires HasChild(t, i)
    ensures Erase(r) == SetChild(Erase(t), i, Erase(c))
  {
    if t.ArrayNode? then
      var r := t.(elements := t.elements[i := c]);
      assert EraseAll(r.elements) == EraseAll(t.elements)[i := Erase(c)];
      r
    else
      var r := t.(fields := t.fields[i := t.fields[i].(tree := c)]);
      assert EraseFields(r.fields) == EraseFields(t.fields)[i := EraseFields(t.fields)[i].(value := Erase(c))];
      r
  }

  /** `get_item_from_pointer`. */
  function GetTree(cs: bool, t: Tree, pointer: string): (r: Option<Tree>)
    ensures r.Some? <==> GetItem(cs, Erase(t), pointer).Some?
    ensures r.Some? ==> Erase(r.value) == GetItem(cs, Erase(t), pointer).value
    decreases |pointer|
  {
    if JsonPointer.At(pointer, 0) != '/' then Some(t)
    else match Step(cs, Erase(t), pointer[1..])
      case None => None
      case Some(i) => GetTree(cs, ChildOf(t, i), SkipToken(pointer[1..]))
  }

  /** The tree after the item `pointer` leads to has been changed. */
  function PutTree(cs: bool, t: Tree, pointer: string, v: Tree): (r: Tree)
    requires GetTree(cs, t, pointer).Some?
    ensures Erase(r) == PutItem(cs, Erase(t), pointer, Erase(v))
    decreases |pointer|
  {
    if JsonPointer.At(pointer, 0) != '/' then v
    else
      var i := Step(cs, Erase(t), pointer[1..]).value;
      WithChild(t, i, PutTree(cs, ChildOf(t, i), SkipToken(pointer[1..]), v))
  }

  /** The children a pointer goes through. */
  function Route(cs: bool, t: Tree, pointer: string): (r: seq<nat>)
    requires GetTree(cs, t, pointer).Some?
    decreases |pointer|
  {
    if JsonPointer.At(pointer, 0) != '/' then []
    else
      var i := Step(cs, Erase(t), pointer[1..]).value;
      [i] + Route(cs, ChildOf(t, i), SkipToken(pointer[1..]))
  }
}
