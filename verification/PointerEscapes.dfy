/** Keys escaped as RFC 6901 section 3 has it, in paths that cJSON_Utils reads. */
module PointerEscapes {
  import opened Options
  import opened Strings
  import opened Json
  import opened JsonPointer

  function Escape(c: char): string {
    if c == '~' then "~0" else if c == '/' then "~1" else [c]
  }

  function Escaped(key: string): (r: string)
    ensures |r| >= |key|
  {
    if key == [] then [] else Escape(key[0]) + Escaped(key[1..])
  }

  /** A key escaped that way names exactly the members with that key. */
  lemma {:induction false} EscapedMatches(cs: bool, name: string, key: string, rest: string)
    requires TokenEnd(rest)
    ensures ComparePointers(cs, name, Escaped(key) + rest) <==> Compare(cs, name, key) == 0
  {
    if key == [] {
      assert Escaped(key) + rest == rest;
    } else {
      var p, tail := Escaped(key) + rest, Escaped(key[1..]) + rest;
      assert p == Escape(key[0]) + tail;
      if name != [] {
        EscapedMatches(cs, name[1..], key[1..], rest);
        if |Escape(key[0])| == 2 {
          assert p[0] == '~' && p[1] == Escape(key[0])[1] && p[2..] == tail;
        } else {
          assert p[0] == key[0] && p[1..] == tail;
        }
      }
    }
  }

  /** What `decode_pointer_inplace` makes of an escaped key, place by place: a `~` is put where it
      belongs, a `/` one place too far, and no other character is moved to where it belongs. */
  function Misread(key: string, i: nat): char
    requires i < |key|
  {
    if key[i] == '~' then '~' else if i > 0 && key[i - 1] == '/' then '/' else Escaped(key)[i]
  }

  lemma {:induction false} EscapedSplit(a: string, b: string)
    ensures Escaped(a + b) == Escaped(a) + Escaped(b)
  {
    if a == [] {
      assert a + b == b;
    } else {
      assert (a + b)[0] == a[0] && (a + b)[1..] == a[1..] + b;
      EscapedSplit(a[1..], b);
    }
  }

  function Offset(key: string, i: nat): (r: nat)
    requires i <= |key|
    ensures i <= r
  {
    |Escaped(key[..i])|
  }

  /** Where a character of the key stands in the escaped one. */
  lemma EscapedAt(key: string, i: nat)
    requires i < |key|
    ensures Offset(key, i + 1) == Offset(key, i) + |Escape(key[i])| <= |Escaped(key)|
    ensures Escaped(key)[Offset(key, i)..Offset(key, i + 1)] == Escape(key[i])
  {
    var a, b := key[..i], key[i + 1..];
    assert [key[i]][1..] == [];
    assert Escaped([key[i]]) == Escape(key[i]);
    assert key[..i + 1] == a + [key[i]] && key == key[..i + 1] + b;
    EscapedSplit(a, [key[i]]);
    EscapedSplit(key[..i + 1], b);
  }

  /** The buffer when `i` characters of the key have been read. */
  ghost predicate HalfDecoded(s: string, key: string, i: nat) {
    && i <= |key| && |s| == |Escaped(key)| && Offset(key, i) <= |s|
    && (forall k :: Offset(key, i) <= k < |s| ==> s[k] == Escaped(key)[k])
    && (forall k :: 0 <= k < i ==> s[k] == Misread(key, k))
    && (forall k :: i < k < |s| ==> s[k] == Escaped(key)[k])
    && (i < |s| ==> s[i] == if i > 0 && key[i - 1] == '/' then '/' else Escaped(key)[i])
  }

  lemma {:induction false} DecodeHalf(s: string, key: string, i: nat)
    requires HalfDecoded(s, key, i)
    ensures DecodeFrom(s, Offset(key, i), i) == seq(|key|, k requires 0 <= k < |key| => Misread(key, k))
    decreases |key| - i
  {
    hide Escaped;
    var r, e := Offset(key, i), Escaped(key);
    if i == |key| {
      assert key[..i] == key;
    } else {
      EscapedAt(key, i);
      var c, part := key[i], e[r..Offset(key, i + 1)];
      assert part == Escape(c) && e[r] == part[0] && (|part| == 2 ==> e[r + 1] == part[1]);
      assert s[r] == e[r] && (|part| == 2 ==> s[r + 1] == e[r + 1]);
      var t := if c == '~' then s[i := '~'] else if c == '/' then s[i + 1 := '/'] else s;
      assert HalfDecoded(t, key, i + 1);
      DecodeHalf(t, key, i + 1);
    }
  }

  function Misreading(key: string): (r: string)
    ensures |r| == |key| && forall k :: 0 <= k < |key| ==> r[k] == Misread(key, k)
  {
    seq(|key|, k requires 0 <= k < |key| => Misread(key, k))
  }

  lemma DecodeEscaped(key: string)
    ensures DecodePointerInplace(Escaped(key)) == Misreading(key)
  {
    hide Escaped, Misread;
    assert key[..0] == [];
    assert Offset(key, 0) == 0 by { assert Escaped([]) == [] by { NothingEscaped(); } }
    DecodeHalf(Escaped(key), key, 0);
  }

  lemma NothingEscaped()
    ensures Escaped([]) == []
  {
  }

  /** So the name of a child that is added or taken out is read right exactly when its key has no
      `/`, and every other character stands where it would have stood without the escapes. */
  lemma NameReadRight(key: string)
    ensures DecodePointerInplace(Escaped(key)) == key <==>
      '/' !in key && forall k :: 0 <= k < |key| && key[k] != '~' ==> Escaped(key)[k] == key[k]
  {
    hide Escaped, DecodePointerInplace, Misread;
    DecodeEscaped(key);
    var r := Misreading(key);
    if '/' in key {
      var k := FirstSlash(key);
      MisreadAt(key, k);
      assert r[k] != '/';
    } else {
      forall k | 0 <= k < |key| ensures r[k] == if key[k] == '~' then '~' else Escaped(key)[k] {
        MisreadAt(key, k);
        if k > 0 { assert key[k - 1] in key; }
      }
      if r == key {
        forall k | 0 <= k < |key| && key[k] != '~' ensures Escaped(key)[k] == key[k] { assert r[k] == key[k]; }
      }
    }
  }

  lemma MisreadAt(key: string, k: nat)
    requires k < |key| && (k > 0 ==> key[k - 1] != '/')
    ensures Misread(key, k) == if key[k] == '~' then '~' else Escaped(key)[k]
    ensures Escaped(key)[k] != '/'
  {
    NoSlashEscaped(key);
  }

  function FirstSlash(key: string): (k: nat)
    requires '/' in key
    ensures k < |key| && key[k] == '/' && '/' !in key[..k]
  {
    if key[0] == '/' then 0 else
      var k := FirstSlash(key[1..]) + 1;
      assert key[..k] == [key[0]] + key[1..][..k - 1];
      k
  }

  lemma {:induction false} NoSlashEscaped(key: string)
    ensures '/' !in Escaped(key)
  {
    if key != [] { NoSlashEscaped(key[1..]); }
  }

  /** A trailing `~` is read right, one in the middle is not, and neither is a `/`. */
  lemma EscapesMisread()
    ensures DecodePointerInplace("a~0") == "a~" && DecodePointerInplace("~0a") == "~0"
    ensures DecodePointerInplace("a~1b") == "a~/"
  {
    assert DecodeFrom("a~0", 0, 0) == DecodeFrom("a~0", 1, 1) == DecodeFrom("a~0"[1 := '~'], 3, 2);
    assert DecodeFrom("~0a", 0, 0) == DecodeFrom("~0a"[0 := '~'], 2, 1) == DecodeFrom("~0a"[0 := '~'], 3, 2);
    var s := "a~1b"[2 := '/'];
    assert DecodeFrom("a~1b", 0, 0) == DecodeFrom("a~1b", 1, 1) == DecodeFrom(s, 3, 2) == DecodeFrom(s, 4, 3);
  }
}
