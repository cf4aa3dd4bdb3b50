/** URI path normalisation: two pointers over one buffer. */
module Uri {

  /** The length of the part of `s` before the first of the separators. */
  function ComponentLength(s: string, seps: string): (n: nat)
    ensures n <= |s| && (n < |s| ==> s[n] in seps) && forall k :: 0 <= k < n ==> s[k] !in seps
  {
    if s == "" || s[0] in seps then 0 else 1 + ComponentLength(s[1..], seps)
  }

  /** The first segment of a path. */
  function Segment(s: string): string {
    s[..ComponentLength(s, "/")]
  }

  /** How far the first segment and its slash reach. */
  function SegmentEnd(s: string): (n: nat)
    ensures n <= |s| && (s != "" ==> n > 0)
    ensures n < |s| ==> n > 0 && s[n - 1] == '/'
    ensures ComponentLength(s, "/") < |s| ==> n == ComponentLength(s, "/") + 1 && s[n - 1] == '/'
  {
    var n := ComponentLength(s, "/");
    if n < |s| then n + 1 else n
  }

  // ---------------------------------------------------------------------------
  // RFC 3986, section 5.2.4

  predicate Begins(s: string, prefix: string) {
    |prefix| <= |s| && s[..|prefix|] == prefix
  }

  /** "Remove the last segment and its preceding slash (if any) from the output buffer". */
  function RemoveLastSegment(output: string): (r: string)
    ensures |r| <= |output| && output[..|r|] == r
  {
    if output == "" then ""
    else if output[|output| - 1] == '/' then output[..|output| - 1]
    else RemoveLastSegment(output[..|output| - 1])
  }

  /** Steps 2A to 2E, with what has been output so far. */
  function RemoveDotSegments(input: string, output: string): string
    decreases |input|
  {
    if input == "" then output
    else if Begins(input, "../") then RemoveDotSegments(input[3..], output)
    else if Begins(input, "./") then RemoveDotSegments(input[2..], output)
    else if Begins(input, "/./") then RemoveDotSegments(input[2..], output)
    else if input == "/." then RemoveDotSegments("/", output)
    else if Begins(input, "/../") then RemoveDotSegments(input[3..], RemoveLastSegment(output))
    else if input == "/.." then RemoveDotSegments("/", RemoveLastSegment(output))
    else if input == "." || input == ".." then output
    else
      var n := if input[0] == '/' then 1 + ComponentLength(input[1..], "/") else ComponentLength(input, "/");
      RemoveDotSegments(input[n..], output + input[..n])
  }

  // ---------------------------------------------------------------------------
  // What mg_normalize_uri_path does, segment by segment

  /** "Backtrack to previous slash": first over the slash at the end, then up to the one
      before; the leading slash stays. */
  function Backtrack(output: string): string {
    BackToSlash(if |output| > 1 && output[|output| - 1] == '/' then output[..|output| - 1] else output)
  }

  function BackToSlash(output: string): (r: string)
    ensures |r| <= |output| && output[..|r|] == r
    ensures r != "" ==> r[|r| - 1] == '/'
    ensures forall k :: |r| <= k < |output| ==> output[k] != '/'
  {
    if output != "" && output[|output| - 1] != '/' then BackToSlash(output[..|output| - 1]) else output
  }

  function NextOutput(input: string, output: string): string {
    if Segment(input) == "." then output
    else if Segment(input) == ".." then Backtrack(output)
    else output + input[..SegmentEnd(input)]
  }

  function Walk(input: string, output: string): string
    decreases |input|
  {
    if input == "" then output else Walk(input[SegmentEnd(input)..], NextOutput(input, output))
  }

  /** The normalised path; a path without a leading slash is refused. */
  function Normalized(path: string): string {
    Walk(path, "")
  }

  // ---------------------------------------------------------------------------
  // It is remove_dot_segments

  lemma {:induction false} BacktrackIsRemoval(output: string)
    requires output == "" || output[0] == '/'
    ensures Backtrack(output + "/") == RemoveLastSegment(output) + "/"
    ensures RemoveLastSegment(output) == "" || RemoveLastSegment(output)[0] == '/'
  {
    assert (output + "/")[..|output|] == output;
    if output != "" {
      LastSlash(output);
    }
  }

  lemma {:induction false} LastSlash(output: string)
    requires output != "" && output[0] == '/'
    ensures BackToSlash(output) == RemoveLastSegment(output) + "/"
  {
    if output[|output| - 1] != '/' {
      LastSlash(output[..|output| - 1]);
    }
  }

  lemma SegmentOf(input: string, segment: string, rest: string)
    requires '/' !in segment && (input == segment + "/" + rest || (input == segment && rest == ""))
    ensures Segment(input) == segment && input[SegmentEnd(input)..] == rest
    ensures input[..SegmentEnd(input)] == (if input == segment then segment else segment + "/")
  {
    SegmentLength(input, segment);
  }

  lemma {:induction false} SegmentLength(input: string, segment: string)
    requires '/' !in segment && |segment| <= |input| && input[..|segment|] == segment
    requires |segment| < |input| ==> input[|segment|] == '/'
    ensures ComponentLength(input, "/") == |segment|
  {
    if segment != "" {
      assert input[1..][..|segment| - 1] == segment[1..];
      assert input[0] == segment[0];
      SegmentLength(input[1..], segment[1..]);
    }
  }

  /** The RFC keeps the slash in front of a segment in the input, the code has output it
      already; otherwise the two walk side by side. */
  lemma {:induction false} SideBySide(input: string, output: string)
    requires output == "" || output[0] == '/'
    ensures RemoveDotSegments("/" + input, output) == Walk(input, output + "/")
    decreases |input|
  {
    hide RemoveDotSegments, Walk, Backtrack, Segment, ComponentLength;
    var segment, rest := Segment(input), input[SegmentEnd(input)..];
    if input == "" {
      AtTheEnd(output);
    } else {
      WalkStep(input, output + "/");
      if segment == "." {
        DotStep(input, output);
        SideBySide(rest, output);
      } else if segment == ".." {
        BacktrackIsRemoval(output);
        DotDotStep(input, output);
        SideBySide(rest, RemoveLastSegment(output));
      } else {
        PlainStep(input, output);
        if ComponentLength(input, "/") < |input| {
          SlashBehind(input, output);
          SideBySide(rest, output + "/" + segment);
        } else {
          LastSegment(input, output);
        }
      }
    }
  }

  lemma SegmentAndSlash(input: string)
    requires ComponentLength(input, "/") < |input|
    ensures input[..SegmentEnd(input)] == Segment(input) + ['/']
  {
    hide ComponentLength;
    var n := SegmentEnd(input);
    CutLast(input, n);
  }

  lemma CutLast(s: string, n: nat)
    requires 0 < n <= |s|
    ensures s[..n] == s[..n - 1] + [s[n - 1]]
  {
  }

  lemma Join(a: string, b: string, c: string, d: string)
    ensures (a + b) + (c + d) == a + b + c + d
  {
  }

  lemma SlashBehind(input: string, output: string)
    requires ComponentLength(input, "/") < |input|
    ensures (output + "/") + input[..SegmentEnd(input)] == output + "/" + Segment(input) + "/"
  {
    hide ComponentLength, Segment, SegmentEnd;
    SegmentAndSlash(input);
    Join(output, "/", Segment(input), "/");
  }

  lemma WalkStep(input: string, output: string)
    requires input != ""
    ensures Walk(input, output) == Walk(input[SegmentEnd(input)..], NextOutput(input, output))
  {
  }

  lemma AtTheEnd(output: string)
    ensures RemoveDotSegments("/" + "", output) == output + "/" == Walk("", output + "/")
  {
    var s := "/" + "";
    assert s == "/" && s[1..] == "" && s[..1] == "/";
    assert RemoveDotSegments("", output + "/") == output + "/";
  }

  lemma LastSegment(input: string, output: string)
    requires ComponentLength(input, "/") == |input|
    ensures input[|input|..] == "" && input[SegmentEnd(input)..] == ""
      && input[..SegmentEnd(input)] == Segment(input) == input
    ensures RemoveDotSegments("", output + "/" + input) == Walk("", (output + "/") + input)
  {
  }

  lemma SplitSegment(input: string)
    ensures (input == Segment(input) && input[SegmentEnd(input)..] == "")
      || input == Segment(input) + "/" + input[SegmentEnd(input)..]
  {
  }

  lemma DotStep(input: string, output: string)
    requires input != "" && Segment(input) == "."
    ensures RemoveDotSegments("/" + input, output) == RemoveDotSegments("/" + input[SegmentEnd(input)..], output)
  {
    SplitSegment(input);
    var slashed, rest := "/" + input, input[SegmentEnd(input)..];
    assert slashed[0] == '/';
    if |input| == 1 {
      assert slashed == "/." && rest == "" && "/" + rest == "/";
    } else {
      assert slashed[..3] == "/./" && slashed[2..] == "/" + rest;
    }
  }

  lemma DotDotStep(input: string, output: string)
    requires input != "" && Segment(input) == ".."
    ensures RemoveDotSegments("/" + input, output)
         == RemoveDotSegments("/" + input[SegmentEnd(input)..], RemoveLastSegment(output))
  {
    hide ComponentLength;
    SplitSegment(input);
    var slashed, rest := "/" + input, input[SegmentEnd(input)..];
    assert slashed[0] == '/' && slashed[2] == '.';
    if |input| == 2 {
      assert slashed == "/.." && rest == "" && "/" + rest == "/";
    } else {
      assert slashed[..4] == "/../" && slashed[3..] == "/" + rest;
    }
  }

  lemma PlainStep(input: string, output: string)
    requires input != "" && Segment(input) != "." && Segment(input) != ".."
    ensures
      var n := ComponentLength(input, "/");
      && RemoveDotSegments("/" + input, output) == RemoveDotSegments(input[n..], output + "/" + Segment(input))
      && (n < |input| ==> input[n..] == "/" + input[SegmentEnd(input)..])
  {
    hide ComponentLength, Begins;
    var slashed, n := "/" + input, ComponentLength(input, "/");
    NoDotPrefix(input);
    assert slashed[1..] == input;
    assert slashed[1 + n..] == input[n..] && slashed[..1 + n] == "/" + Segment(input);
    assert output + ("/" + Segment(input)) == output + "/" + Segment(input);
  }

  lemma NoDotPrefix(input: string)
    requires input != "" && Segment(input) != "." && Segment(input) != ".."
    ensures
      var s := "/" + input;
      && !Begins(s, "../") && !Begins(s, "./") && !Begins(s, "/./") && s != "/."
      && !Begins(s, "/../") && s != "/.." && s != "." && s != ".."
  {
    var s := "/" + input;
    assert s[0] == '/';
    if Begins(s, "/./") || s == "/." {
      DotPrefix(input, ".");
    } else if Begins(s, "/../") || s == "/.." {
      DotPrefix(input, "..");
    }
  }

  lemma DotPrefix(input: string, segment: string)
    requires '/' !in segment && (Begins("/" + input, "/" + segment + "/") || "/" + input == "/" + segment)
    ensures Segment(input) == segment
  {
    var s, n := "/" + input, |segment|;
    assert s[1..] == input;
    if s == "/" + segment {
      assert input == s[1..] == segment;
    } else {
      var t := "/" + segment + "/";
      assert t[1..1 + n] == segment && t[1 + n] == '/';
      assert input[..n] == s[..|t|][1..1 + n];
      assert input[n] == s[..|t|][1 + n];
    }
    SegmentLength(input, segment);
  }

  /** Normalising is `remove_dot_segments`, for every path with a leading slash. */
  lemma NormalizedIsRfc(path: string)
    requires path != "" && path[0] == '/'
    ensures Normalized(path) == RemoveDotSegments(path, "")
  {
    assert path == "/" + path[1..];
    SideBySide(path[1..], "");
    assert Segment(path) == "" && SegmentEnd(path) == 1;
    assert "" + path[..1] == "" + "/";
  }

  // ---------------------------------------------------------------------------
  // The result

  predicate Dots(segment: string) {
    segment == "." || segment == ".."
  }

  predicate NoDotSegments(path: string)
    decreases |path|
  {
    path == "" || (!Dots(Segment(path)) && NoDotSegments(path[SegmentEnd(path)..]))
  }

  /** Either empty or ended by a slash: what a further segment can be put behind. */
  predicate Closed(output: string) {
    output == "" || output[|output| - 1] == '/'
  }

  lemma SegmentOfJoin(a: string, b: string)
    requires a != "" && Closed(a)
    ensures Segment(a + b) == Segment(a) && SegmentEnd(a + b) == SegmentEnd(a) && Closed(a[SegmentEnd(a)..])
    ensures (a + b)[SegmentEnd(a)..] == a[SegmentEnd(a)..] + b
  {
    var n := ComponentLength(a, "/");
    assert a[|a| - 1] in "/";
    assert n < |a|;
    assert (a + b)[..n] == a[..n] && (a + b)[n] == '/';
    SegmentLength(a + b, a[..n]);
  }

  lemma {:induction false} NoDotsJoin(a: string, b: string)
    requires Closed(a) && NoDotSegments(a) && NoDotSegments(b)
    ensures NoDotSegments(a + b)
    decreases |a|
  {
    hide ComponentLength;
    if a == "" {
      assert a + b == b;
    } else {
      SegmentOfJoin(a, b);
      NoDotsJoin(a[SegmentEnd(a)..], b);
    }
  }

  /** Cutting behind a slash leaves no new segment. */
  lemma {:induction false} NoDotsPrefix(a: string, k: nat)
    requires NoDotSegments(a) && k <= |a| && Closed(a[..k])
    ensures NoDotSegments(a[..k])
    decreases |a|
  {
    if k > 0 {
      var n := SegmentEnd(a);
      assert a == a[..k] + a[k..];
      SegmentOfJoin(a[..k], a[k..]);
      assert n <= k;
      assert a[n..][..k - n] == a[..k][n..];
      NoDotsPrefix(a[n..], k - n);
    }
  }

  lemma BacktrackKeeps(output: string)
    requires Closed(output) && NoDotSegments(output)
    ensures Closed(Backtrack(output)) && NoDotSegments(Backtrack(output)) && |Backtrack(output)| <= |output|
    ensures output != "" && output[0] == '/' ==> Backtrack(output) != "" && Backtrack(output)[0] == '/'
  {
    var r := Backtrack(output);
    assert output[..|r|] == r;
    NoDotsPrefix(output, |r|);
  }

  lemma OneSegment(input: string)
    requires input != "" && !Dots(Segment(input))
    ensures NoDotSegments(input[..SegmentEnd(input)])
    ensures SegmentEnd(input) < |input| ==> Closed(input[..SegmentEnd(input)])
  {
    var t := input[..SegmentEnd(input)];
    SplitSegment(input);
    SegmentOf(t, Segment(input), "");
  }

  /** Nothing but whole segments is ever written, none of them dots, behind a slash. */
  lemma {:induction false} WalkResult(input: string, output: string)
    requires Closed(output) && NoDotSegments(output)
    requires (output == "" && input != "" && input[0] == '/') || (output != "" && output[0] == '/')
    ensures NoDotSegments(Walk(input, output))
    ensures Walk(input, output) != "" && Walk(input, output)[0] == '/'
    decreases |input|
  {
    hide ComponentLength, Backtrack;
    if input != "" {
      var next, rest := NextOutput(input, output), input[SegmentEnd(input)..];
      if Dots(Segment(input)) {
        BacktrackKeeps(output);
        WalkResult(rest, next);
      } else {
        OneSegment(input);
        NoDotsJoin(output, input[..SegmentEnd(input)]);
        if rest != "" {
          WalkResult(rest, next);
        }
      }
    }
  }

  /** A path without dot segments is copied. */
  lemma {:induction false} WalkCopies(input: string, output: string)
    requires NoDotSegments(input)
    ensures Walk(input, output) == output + input
    decreases |input|
  {
    hide ComponentLength, Backtrack, Dots, Segment;
    if input == "" {
      assert output + input == output;
    } else {
      var n := SegmentEnd(input);
      KeptSegment(input, output);
      WalkCopies(input[n..], output + input[..n]);
      assert (output + input[..n]) + input[n..] == output + input;
    }
  }

  lemma KeptSegment(input: string, output: string)
    requires !Dots(Segment(input))
    ensures NextOutput(input, output) == output + input[..SegmentEnd(input)]
  {
  }

  /** The normalised path starts with a slash and has no dot segment, and normalising it
      again changes nothing. */
  lemma NormalizedResult(path: string)
    requires path != "" && path[0] == '/'
    ensures
      var r := Normalized(path);
      r != "" && r[0] == '/' && NoDotSegments(r) && Normalized(r) == r
  {
    WalkResult(path, "");
    WalkCopies(Normalized(path), "");
    assert "" + Normalized(path) == Normalized(path);
  }

  // ---------------------------------------------------------------------------
  // The code

  /** `parse_uri_component`: how long the component at `p` is, and where the next starts. */
  method ParseUriComponent(s: array<char>, p: nat, end: nat, seps: string) returns (len: nat, next: nat)
    requires p <= end <= s.Length
    ensures len == ComponentLength(s[p..end], seps)
    ensures next == if p + len < end then p + len + 1 else end
  {
    next := p;
    var found := false;
    while next < end && !found
      invariant p <= next <= end
      invariant found ==> next < end && s[next] in seps
      invariant forall k :: p <= k < next ==> s[k] !in seps
      decreases end - next, !found
    {
      var q := 0;
      while q < |seps| && s[next] != seps[q]
        invariant q <= |seps| && forall k :: 0 <= k < q ==> s[next] != seps[k]
      {
        q := q + 1;
      }
      found := q < |seps|;
      if !found {
        next := next + 1;
      }
    }
    len := next - p;
    LengthIs(s[p..end], seps, len);
    if next < end {
      next := next + 1;
    }
  }

  lemma {:induction false} LengthIs(s: string, seps: string, n: nat)
    requires n <= |s| && (n < |s| ==> s[n] in seps) && forall k :: 0 <= k < n ==> s[k] !in seps
    ensures ComponentLength(s, seps) == n
  {
    if n > 0 {
      LengthIs(s[1..], seps, n - 1);
    }
  }

  /** The two backtracking loops: the write pointer only moves. */
  method BacktrackPointer(a: array<char>, d: nat) returns (r: nat)
    requires d <= a.Length
    ensures r <= d && a[..r] == Backtrack(a[..d])
  {
    r := d;
    if r > 1 && a[r - 1] == '/' {
      r := r - 1;
    }
    ghost var from := a[..r];
    while r > 0 && a[r - 1] != '/'
      invariant r <= d && BackToSlash(a[..r]) == BackToSlash(from)
    {
      assert a[..r][..r - 1] == a[..r - 1];
      r := r - 1;
    }
    assert d > 0 ==> a[..d][..d - 1] == a[..d - 1];
  }

  /** `memmove` of a segment; the arrays may be one and the same. */
  method Move(src: array<char>, s: nat, next: nat, dst: array<char>, d: nat) returns (r: nat)
    requires s <= next <= src.Length && d + (next - s) <= dst.Length && (src == dst ==> d <= s)
    modifies dst
    ensures r == d + (next - s) && dst[..r] == old(dst[..d]) + old(src[s..next])
    ensures src[next..] == old(src[next..])
  {
    forall i | 0 <= i < next - s {
      dst[d + i] := src[s + i];
    }
    r := d + (next - s);
    assert dst[..d] == old(dst[..d]);
    assert dst[d..r] == old(src[s..next]);
  }

  lemma Slices(t: string, s: nat, next: nat, len: nat)
    requires s <= next <= len <= |t|
    ensures t[next..][..len - next] == t[next..len] == t[s..len][next - s..]
  {
  }

  /** One round of the loop of `mg_normalize_uri_path`. */
  method Step(src: array<char>, s: nat, len: nat, dst: array<char>, d: nat) returns (next: nat, d': nat)
    requires s < len <= src.Length && d <= s && len <= dst.Length
    modifies dst
    ensures d' <= next && s < next <= len
    ensures dst[..d'] == NextOutput(old(src[s..len]), old(dst[..d]))
    ensures src[next..len] == old(src[s..len])[SegmentEnd(old(src[s..len]))..]
  {
    hide Backtrack, ComponentLength;
    ghost var rest := src[s..len];
    var n;
    n, next := ParseUriComponent(src, s, len, "/");
    assert src[s..s + n] == rest[..n] == Segment(rest) && next - s == SegmentEnd(rest);
    ghost var later := src[next..];
    Slices(src[..], s, next, len);
    d' := d;
    if src[s..s + n] == "." {
    } else if src[s..s + n] == ".." {
      d' := BacktrackPointer(dst, d);
    } else {
      assert src[s..next] == rest[..next - s];
      d' := Move(src, s, next, dst, d);
    }
    assert src[next..] == later;
    Slices(src[..], next, next, len);
  }

  /** `mg_normalize_uri_path`.  Source and destination may be the same array: what is written
      never passes what has been read.  (The code's last test, for an empty result, never
      finds one: the leading slash is always copied.) */
  method NormalizeUriPath(src: array<char>, len: nat, dst: array<char>) returns (ok: bool, outLen: nat)
    requires len <= src.Length && len <= dst.Length
    modifies dst
    ensures ok <==> len > 0 && old(src[0]) == '/'
    ensures ok ==> 0 < outLen <= len && dst[..outLen] == Normalized(old(src[..len]))
    ensures ok ==> dst[..outLen] == RemoveDotSegments(old(src[..len]), "")
    ensures !ok ==> outLen == 0 && dst[..] == old(dst[..])
  {
    hide RemoveDotSegments, ComponentLength, NextOutput, SegmentEnd, NoDotSegments;
    ghost var path := src[..len];
    if len == 0 || src[0] != '/' {
      return false, 0;
    }
    var s: nat, d: nat := 0, 0;
    assert src[0..len] == path && dst[..0] == "";
    while s < len
      invariant d <= s <= len
      invariant Walk(src[s..len], dst[..d]) == Normalized(path)
    {
      WalkStep(src[s..len], dst[..d]);
      s, d := Step(src, s, len, dst, d);
    }
    assert src[len..len] == "";
    NormalizedResult(path);
    NormalizedIsRfc(path);
    return true, d;
  }
}
