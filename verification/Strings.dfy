/** Keys of object members and how cJSON orders them.

    A C string is a `string` here: the NUL that ends it in memory is the end of
    the sequence.  `cs` is the library's `case_sensitive` argument. */
module Strings {

  function ToLower(c: char): char {
    if 'A' <= c <= 'Z' then c + ('a' - 'A') else c
  }

  function Fold(cs: bool, c: char): char {
    if cs then c else ToLower(c)
  }

  function FoldString(cs: bool, s: string): (r: string)
    ensures |r| == |s|
    ensures cs ==> r == s
  {
    seq(|s|, i requires 0 <= i < |s| => Fold(cs, s[i]))
  }

  /** `compare_strings`: negative, zero or positive; only the sign is used by the callers. */
  function Compare(cs: bool, a: string, b: string): int {
    if a == [] || b == [] then |a| - |b|
    else if Fold(cs, a[0]) == Fold(cs, b[0]) then Compare(cs, a[1..], b[1..])
    else Fold(cs, a[0]) as int - Fold(cs, b[0]) as int
  }

  predicate Less(cs: bool, a: string, b: string) {
    Compare(cs, a, b) < 0
  }

  lemma FoldTail(cs: bool, s: string)
    requires s != []
    ensures FoldString(cs, s)[1..] == FoldString(cs, s[1..])
    ensures FoldString(cs, s) == [Fold(cs, s[0])] + FoldString(cs, s[1..])
  {
  }

  /** Two strings compare equal exactly when they are equal up to folding. */
  lemma {:induction false} CompareZero(cs: bool, a: string, b: string)
    ensures Compare(cs, a, b) == 0 <==> FoldString(cs, a) == FoldString(cs, b)
  {
    if a != [] && b != [] {
      FoldTail(cs, a);
      FoldTail(cs, b);
      CompareZero(cs, a[1..], b[1..]);
    }
  }

  lemma {:induction false} CompareFlip(cs: bool, a: string, b: string)
    ensures Compare(cs, a, b) == -Compare(cs, b, a)
  {
    if a != [] && b != [] {
      CompareFlip(cs, a[1..], b[1..]);
    }
  }

  lemma {:induction false} LessTrans(cs: bool, a: string, b: string, c: string)
    requires Compare(cs, a, b) <= 0 && Compare(cs, b, c) <= 0
    ensures Compare(cs, a, c) <= 0
    ensures Less(cs, a, b) || Less(cs, b, c) ==> Less(cs, a, c)
  {
    if a != [] && b != [] && c != [] && Fold(cs, a[0]) == Fold(cs, b[0]) == Fold(cs, c[0]) {
      LessTrans(cs, a[1..], b[1..], c[1..]);
    }
  }

  /** The first character that differs decides, after folding; a string comes before its extensions. */
  lemma {:induction false} FirstDifference(cs: bool, a: string, b: string, k: nat)
    requires k <= |a| && k <= |b| && FoldString(cs, a[..k]) == FoldString(cs, b[..k])
    ensures k < |a| && k < |b| && Fold(cs, a[k]) != Fold(cs, b[k]) ==>
      (Less(cs, a, b) <==> Fold(cs, a[k]) < Fold(cs, b[k])) && Compare(cs, a, b) != 0
    ensures k == |a| ==> (Less(cs, a, b) <==> k < |b|) && (Compare(cs, a, b) == 0 <==> k == |b|)
  {
    if k > 0 {
      assert FoldString(cs, a[..k])[0] == FoldString(cs, b[..k])[0];
      assert a[1..][..k - 1] == a[..k][1..] && b[1..][..k - 1] == b[..k][1..];
      FoldTail(cs, a[..k]);
      FoldTail(cs, b[..k]);
      FirstDifference(cs, a[1..], b[1..], k - 1);
    }
  }

  const CAPITALS := "ABCDEFGHIJKLMNOPQRSTUVWXYZ"
  const SMALL := "abcdefghijklmnopqrstuvwxyz"

  lemma CapitalAt(i: nat)
    requires i < 26
    ensures CAPITALS[i] == 'A' + i as char
  {
  }

  lemma SmallAt(i: nat)
    requires i < 26
    ensures SMALL[i] == 'a' + i as char
  {
  }

  /** Folding changes the 26 capitals alone. */
  lemma FoldsCapitals(i: nat, c: char)
    ensures Fold(true, c) == c && (c !in CAPITALS ==> Fold(false, c) == c)
    ensures i < 26 ==> Fold(false, CAPITALS[i]) == SMALL[i]
  {
    if 'A' <= c <= 'Z' {
      CapitalAt(c as nat - 'A' as nat);
      assert CAPITALS[c as nat - 'A' as nat] == c;
    }
    if i < 26 {
      CapitalAt(i);
      SmallAt(i);
    }
  }
}
