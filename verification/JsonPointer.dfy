/** JSON pointers (RFC 6901) as cJSON_Utils reads, writes and follows them. */
module JsonPointer {
  import opened Options
  import opened Strings
  import opened Json

  /** Keys the escaping code leaves alone. */
  predicate Plain(key: string) {
    '~' !in key && '/' !in key
  }

  // ---------------------------------------------------------------------------
  // One path element

  /** `*p` on a C string. */
  function At(s: string, i: nat): char {
    if i < |s| then s[i] else '\0'
  }

  predicate TokenEnd(pointer: string) {
    pointer == [] || pointer[0] == '/'
  }

  /** `compare_pointers`: does `name` match the next element of `pointer`? */
  predicate ComparePointers(cs: bool, name: string, pointer: string)
    decreases |pointer|
  {
    if name == [] || TokenEnd(pointer) then TokenEnd(pointer) == (name == [])
    else if pointer[0] == '~' then
      if (At(pointer, 1) != '0' || name[0] != '~') && (At(pointer, 1) != '1' || name[0] != '/') then false
      else ComparePointers(cs, name[1..], if |pointer| > 1 then pointer[2..] else [])
    else Fold(cs, name[0]) == Fold(cs, pointer[0]) && ComparePointers(cs, name[1..], pointer[1..])
  }

  lemma {:induction false} ComparePointersPlain(cs: bool, name: string, key: string, rest: string)
    requires Plain(key) && TokenEnd(rest)
    ensures ComparePointers(cs, name, key + rest) <==> Compare(cs, name, key) == 0
  {
    if key == [] {
      assert key + rest == rest;
    } else {
      assert (key + rest)[0] == key[0] && (key + rest)[1..] == key[1..] + rest;
      if name != [] {
        ComparePointersPlain(cs, name[1..], key[1..], rest);
      }
    }
  }

  /** The scan to the next `/` or the end. */
  function SkipToken(pointer: string): (r: string)
    ensures |r| <= |pointer| && TokenEnd(r)
  {
    if TokenEnd(pointer) then pointer else SkipToken(pointer[1..])
  }

  lemma {:induction false} SkipTokenPlain(key: string, rest: string)
    requires '/' !in key && TokenEnd(rest)
    ensures SkipToken(key + rest) == rest
  {
    if key == [] {
      assert key + rest == rest;
    } else {
      assert (key + rest)[0] == key[0] && (key + rest)[1..] == key[1..] + rest;
      SkipTokenPlain(key[1..], rest);
    }
  }

  // ---------------------------------------------------------------------------
  // Array indices

  function Digit(d: nat): char
    requires d < 10
  {
    '0' + d as char
  }

  /** `sprintf("%lu", n)`. */
  function Decimal(n: nat): (r: string)
    ensures |r| > 0 && forall i :: 0 <= i < |r| ==> '0' <= r[i] <= '9'
  {
    if n < 10 then [Digit(n)] else Decimal(n / 10) + [Digit(n % 10)]
  }

  /** The digit loop of `decode_array_index_from_pointer`.  Its guard tests the first
      character, not the current one, against '9'. */
  function DecodeDigits(pointer: string, position: nat, index: nat): (nat, nat)
    requires position <= |pointer|
    decreases |pointer| - position
  {
    if position < |pointer| && pointer[position] >= '0' && At(pointer, 0) <= '9'
    then DecodeDigits(pointer, position + 1, 10 * index + (pointer[position] as nat - '0' as nat))
    else (position, index)
  }

  function DecodeArrayIndex(pointer: string): Option<nat> {
    if At(pointer, 0) == '0' && At(pointer, 1) != '\0' && At(pointer, 1) != '/' then None
    else
      var (position, index) := DecodeDigits(pointer, 0, 0);
      if At(pointer, position) != '\0' && At(pointer, position) != '/' then None else Some(index)
  }

  /** The number a digit string denotes. */
  function NumberOf(digits: string): nat
    requires forall i :: 0 <= i < |digits| ==> '0' <= digits[i] <= '9'
  {
    if digits == [] then 0
    else 10 * NumberOf(digits[..|digits| - 1]) + (digits[|digits| - 1] as nat - '0' as nat)
  }

  lemma {:induction false} NumberOfDecimal(n: nat)
    ensures NumberOf(Decimal(n)) == n
    ensures n > 0 ==> Decimal(n)[0] != '0'
  {
    var r := Decimal(n);
    if n < 10 {
      assert r[..0] == [];
    } else {
      assert r[..|r| - 1] == Decimal(n / 10);
      NumberOfDecimal(n / 10);
    }
  }

  /** A printed number ends in the digit of its remainder by ten; the digits of the rest come before. */
  lemma DecimalEnds(n: nat)
    ensures
      var d := Decimal(n);
      d[|d| - 1] == "0123456789"[n % 10] && d[..|d| - 1] == if n < 10 then "" else Decimal(n / 10)
  {
    TenDigits(n % 10);
  }

  lemma TenDigits(d: nat)
    requires d < 10
    ensures Digit(d) == "0123456789"[d]
  {
  }

  lemma {:induction false} DecodeDigitsPrefix(digits: string, rest: string, position: nat)
    requires forall i :: 0 <= i < |digits| ==> '0' <= digits[i] <= '9'
    requires position <= |digits| && TokenEnd(rest) && digits != []
    ensures DecodeDigits(digits + rest, position, NumberOf(digits[..position])) == (|digits|, NumberOf(digits))
    decreases |digits| - position
  {
    if position < |digits| {
      var next := digits[..position + 1];
      assert next[..position] == digits[..position] && next[position] == digits[position];
      DecodeDigitsPrefix(digits, rest, position + 1);
    } else {
      assert digits[..position] == digits;
    }
  }

  /** Reading an index back from the path it was printed into. */
  lemma DecodeDecimal(n: nat, rest: string)
    requires TokenEnd(rest)
    ensures DecodeArrayIndex(Decimal(n) + rest) == Some(n)
    ensures '/' !in Decimal(n) && Plain(Decimal(n))
  {
    var d := Decimal(n);
    NumberOfDecimal(n);
    DecodeDigitsPrefix(d, rest, 0);
    assert d[..0] == [];
    if n == 0 {
      assert d == "0";
    } else {
      assert At(d + rest, 0) == d[0];
    }
  }

  // ---------------------------------------------------------------------------
  // Escaping

  /** `encode_string_as_pointer`.  For `/` the C code leaves the first of the two bytes
      as the allocator delivered it (`stale`), and it writes `~` as `~1`. */
  function EncodeStringAsPointer(source: string, stale: char): string {
    if source == [] then []
    else if source[0] == '/' then [stale, '1'] + EncodeStringAsPointer(source[1..], stale)
    else if source[0] == '~' then ['~', '1'] + EncodeStringAsPointer(source[1..], stale)
    else [source[0]] + EncodeStringAsPointer(source[1..], stale)
  }

  lemma {:induction false} EncodePlain(source: string, stale: char)
    requires Plain(source)
    ensures EncodeStringAsPointer(source, stale) == source
  {
    if source != [] {
      EncodePlain(source[1..], stale);
      assert source == [source[0]] + source[1..];
    }
  }

  /** A key survives the trip through a path exactly when it is free of `~`, and of `/` too
      unless the byte left over happens to be the `~` that is not written. */
  lemma {:induction false} EncodedKeyMatches(cs: bool, key: string, stale: char)
    ensures ComparePointers(cs, key, EncodeStringAsPointer(key, stale))
       <==> '~' !in key && ('/' in key ==> stale == '~')
  {
    if key != [] {
      var e := EncodeStringAsPointer(key, stale);
      var tail := EncodeStringAsPointer(key[1..], stale);
      EncodedKeyMatches(cs, key[1..], stale);
      assert forall c :: c in key <==> c == key[0] || c in key[1..];
      if key[0] == '~' || key[0] == '/' {
        assert e[1] == '1' && At(e, 1) == '1' && e[2..] == tail;
      } else {
        assert e[0] == key[0] && e[1..] == tail;
      }
    }
  }

  /** `decode_pointer_inplace` on a buffer `s`, reading at `r` and writing at `w`.  For
      `~1` the C code stores `/` one place too far. */
  function DecodeFrom(s: string, r: nat, w: nat): string
    requires w <= r
    decreases |s| - r
  {
    if r >= |s| then (if w < |s| then s[..w] else s)
    else if s[r] == '~' then
      if At(s, r + 1) == '0' then DecodeFrom(s[w := '~'], r + 2, w + 1)
      else if At(s, r + 1) == '1' then DecodeFrom(if w + 1 < |s| then s[w + 1 := '/'] else s, r + 2, w + 1)
      else s
    else DecodeFrom(s, r + 1, w + 1)
  }

  function DecodePointerInplace(s: string): string {
    DecodeFrom(s, 0, 0)
  }

  lemma {:induction false} DecodePlain(s: string, r: nat)
    requires '~' !in s && r <= |s|
    ensures DecodeFrom(s, r, r) == s
    decreases |s| - r
  {
    if r < |s| {
      DecodePlain(s, r + 1);
    }
  }

  // ---------------------------------------------------------------------------
  // Following a pointer

  /** The child lookup of `get_item_from_pointer`. */
  function FindToken(cs: bool, ms: seq<Member>, pointer: string): (r: Option<nat>)
    ensures r.Some? ==> r.value < |ms|
  {
    if ms == [] then None
    else if ComparePointers(cs, ms[0].key, pointer) then Some(0)
    else match FindToken(cs, ms[1..], pointer)
      case None => None
      case Some(i) => Some(i + 1)
  }

  /** The child of `j` the first element of `pointer` names. */
  function Step(cs: bool, j: Json, pointer: string): (r: Option<nat>)
    ensures r.Some? ==> j.Array? || j.Object?
    ensures r.Some? && j.Array? ==> r.value < |j.items|
    ensures r.Some? && j.Object? ==> r.value < |j.members|
  {
    match j
    case Array(items) =>
      (match DecodeArrayIndex(pointer)
       case None => None
       case Some(i) => if i < |items| then Some(i) else None)
    case Object(ms) => FindToken(cs, ms, pointer)
    case _ => None
  }

  function Child(j: Json, i: nat): (r: Json)
    requires (j.Array? && i < |j.items|) || (j.Object? && i < |j.members|)
    ensures r < j
  {
    if j.Array? then j.items[i] else
      assert j.members[i] < j;
      j.members[i].value
  }

  function SetChild(j: Json, i: nat, v: Json): (r: Json)
    requires (j.Array? && i < |j.items|) || (j.Object? && i < |j.members|)
    ensures Tag(r) == Tag(j)
  {
    if j.Array? then Array(j.items[i := v])
    else Object(j.members[i := j.members[i].(value := v)])
  }

  /** `get_item_from_pointer`. */
  function GetItem(cs: bool, j: Json, pointer: string): Option<Json>
    decreases |pointer|
  {
    if At(pointer, 0) != '/' then Some(j)
    else match Step(cs, j, pointer[1..])
      case None => None
      case Some(i) => GetItem(cs, Child(j, i), SkipToken(pointer[1..]))
  }

  /** The tree after the item `pointer` leads to has been changed into `v`. */
  function PutItem(cs: bool, j: Json, pointer: string, v: Json): Json
    requires GetItem(cs, j, pointer).Some?
    decreases |pointer|
  {
    if At(pointer, 0) != '/' then v
    else
      var i := Step(cs, j, pointer[1..]).value;
      SetChild(j, i, PutItem(cs, Child(j, i), SkipToken(pointer[1..]), v))
  }

  lemma {:induction false} FindTokenPlain(cs: bool, ms: seq<Member>, key: string, rest: string)
    requires Plain(key) && TokenEnd(rest)
    ensures FindToken(cs, ms, key + rest) == Find(cs, ms, key)
  {
    if ms != [] {
      ComparePointersPlain(cs, ms[0].key, key, rest);
      SameKey(cs, ms[0].key, key);
      FindTokenPlain(cs, ms[1..], key, rest);
    }
  }

  /** Which child a path that starts with `/key` goes through. */
  function Slot(cs: bool, j: Json, key: string): Option<nat> {
    match j
    case Object(ms) => Find(cs, ms, key)
    case Array(items) =>
      (match DecodeArrayIndex(key)
       case None => None
       case Some(i) => if i < |items| then Some(i) else None)
    case _ => None
  }

  lemma {:induction false} DecodeDigitsCut(key: string, rest: string, position: nat, index: nat)
    requires '/' !in key && TokenEnd(rest) && position <= |key|
    ensures DecodeDigits(key + rest, position, index) == DecodeDigits(key, position, index)
    ensures DecodeDigits(key, position, index).0 <= |key|
    decreases |key| - position
  {
    var p := key + rest;
    if position < |key| {
      assert p[position] == key[position] && p[0] == key[0];
      DecodeDigitsCut(key, rest, position + 1,
        10 * index + if key[position] >= '0' then key[position] as nat - '0' as nat else 0);
    }
  }

  lemma DecodeIndexCut(key: string, rest: string)
    requires '/' !in key && TokenEnd(rest)
    ensures DecodeArrayIndex(key + rest) == DecodeArrayIndex(key)
  {
    DecodeDigitsCut(key, rest, 0, 0);
    assert forall i :: 0 <= i < |key| ==> (key + rest)[i] == key[i];
    assert rest != [] ==> (key + rest)[|key|] == '/';
  }

  /** One step of a plain path. */
  lemma StepPlain(cs: bool, j: Json, key: string, rest: string)
    requires Plain(key) && TokenEnd(rest)
    ensures Step(cs, j, key + rest) == Slot(cs, j, key)
    ensures GetItem(cs, j, "/" + key + rest) ==
      (match Slot(cs, j, key) case None => None case Some(i) => GetItem(cs, Child(j, i), rest))
    ensures GetItem(cs, j, "/" + key + rest).Some? ==> forall v ::
      PutItem(cs, j, "/" + key + rest, v) ==
        SetChild(j, Slot(cs, j, key).value, PutItem(cs, Child(j, Slot(cs, j, key).value), rest, v))
  {
    var p := "/" + key + rest;
    assert p[1..] == key + rest && p[0] == '/';
    SkipTokenPlain(key, rest);
    if j.Object? {
      FindTokenPlain(cs, j.members, key, rest);
    } else if j.Array? {
      DecodeIndexCut(key, rest);
    }
  }
}
