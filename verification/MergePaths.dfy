/** What a merge patch says about every path (RFC 7396). */
module MergePaths {
  import opened Options
  import opened Json
  import opened JsonMergePatch

  /** What is at a path of member names. */
  function Item(v: Option<Value>, path: seq<string>): Option<Value>
    decreases |path|
  {
    if path == [] then v
    else if v.Some? && v.value.VObject? && path[0] in v.value.fields then
      Item(Some(v.value.fields[path[0]]), path[1..])
    else None
  }

  /** The patch does not speak of a path, it leaves nothing there, an object, or a value that is no object. */
  datatype Word = Silent | Nothing | AnObject | Exactly(value: Value)

  function Said(patch: Value, path: seq<string>): Word
    decreases |path|
  {
    if path == [] then if patch.VObject? then AnObject else Exactly(patch)
    else if !patch.VObject? then Nothing
    else if path[0] !in patch.fields then Silent
    else if patch.fields[path[0]] == VNull then Nothing
    else Said(patch.fields[path[0]], path[1..])
  }

  /** After a merge, every path holds what the patch says, and what it held before where the patch is silent. */
  lemma {:induction false} MergeSays(target: Option<Value>, patch: Value, path: seq<string>)
    ensures
      var was, item := Item(target, path), Item(Some(Merge(target, patch)), path);
      match Said(patch, path)
      case Silent => item == was
      case Nothing => item == None
      case AnObject => item.Some? && item.value.VObject?
      case Exactly(value) => item == Some(value)
    decreases |path|
  {
    if path != [] && patch.VObject? {
      var t, k := Fields(target), path[0];
      if k in patch.fields && patch.fields[k] != VNull {
        MergeSays(Lookup(t, k), patch.fields[k], path[1..]);
        NothingThere(path[1..]);
      }
    }
  }

  lemma NothingThere(path: seq<string>)
    ensures Item(None, path) == None
  {
  }
}
