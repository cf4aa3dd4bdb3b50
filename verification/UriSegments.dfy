/** URI paths as lists of segments: "." stays where it is, ".." goes up. */
module UriSegments {
  import opened Uri

  /** Every segment behind a slash. */
  function Path(segments: seq<string>): string {
    if segments == [] then "" else Path(segments[..|segments| - 1]) + "/" + segments[|segments| - 1]
  }

  /** Slashes between the segments. */
  function Joined(segments: seq<string>): string {
    if segments == [] then "" else if |segments| == 1 then segments[0] else segments[0] + "/" + Joined(segments[1..])
  }

  /** One segment from a directory on. */
  function Entered(directory: seq<string>, segment: string): seq<string> {
    if segment == "." then directory
    else if segment == ".." then if directory == [] then [] else directory[..|directory| - 1]
    else directory + [segment]
  }

  /** The directory that all segments but the last lead to. */
  function Directory(directory: seq<string>, segments: seq<string>): seq<string>
    decreases |segments|
  {
    if |segments| <= 1 then directory else Directory(Entered(directory, segments[0]), segments[1..])
  }

  /** A path that ends in a dot segment is that of a directory. */
  function Target(directory: seq<string>, last: string): string {
    if last == "." || last == ".." then Path(Entered(directory, last)) + "/" else Path(directory) + "/" + last
  }

  predicate NoSlashes(segments: seq<string>) {
    forall i :: 0 <= i < |segments| ==> '/' !in segments[i]
  }

  lemma {:induction false} LastRemoved(front: string, segment: string)
    requires '/' !in segment
    ensures RemoveLastSegment(front + "/" + segment) == front
    decreases |segment|
  {
    var t := front + "/" + segment;
    if segment == "" {
      assert t[..|t| - 1] == front;
    } else {
      var n := |segment| - 1;
      assert segment[n] in segment;
      assert t[..|t| - 1] == front + "/" + segment[..n];
      LastRemoved(front, segment[..n]);
    }
  }

  lemma PathStart(directory: seq<string>)
    ensures Path(directory) == "" || Path(directory)[0] == '/'
  {
    if |directory| > 1 { PathStart(directory[..|directory| - 1]); }
  }

  lemma OneEntered(directory: seq<string>, segment: string)
    requires NoSlashes(directory) && '/' !in segment
    ensures NoSlashes(Entered(directory, segment))
    ensures segment == ".." ==> Backtrack(Path(directory) + "/") == Path(Entered(directory, segment)) + "/"
    ensures segment != "." && segment != ".." ==>
      Path(Entered(directory, segment)) == Path(directory) + "/" + segment
  {
    PathStart(directory);
    if segment == ".." {
      BacktrackIsRemoval(Path(directory));
      if directory != [] {
        var n := |directory| - 1;
        LastRemoved(Path(directory[..n]), directory[n]);
      }
    } else if segment != "." {
      assert (directory + [segment])[..|directory|] == directory;
    }
  }

  lemma {:induction false} WalkIs(segments: seq<string>, directory: seq<string>)
    requires segments != [] && NoSlashes(segments) && NoSlashes(directory)
    ensures Walk(Joined(segments), Path(directory) + "/")
         == Target(Directory(directory, segments), segments[|segments| - 1])
    decreases |segments|
  {
    hide Backtrack, Path, Walk;
    var s, output := segments[0], Path(directory) + "/";
    OneEntered(directory, s);
    if |segments| == 1 {
      LastWalked(s, output);
    } else {
      var rest := Joined(segments[1..]);
      OneWalked(s, rest, output);
      assert output + (s + "/") == (Path(directory) + "/" + s) + "/";
      WalkIs(segments[1..], Entered(directory, s));
    }
  }

  lemma LastWalked(s: string, output: string)
    requires '/' !in s
    ensures Walk(s, output) ==
      if s == "." then output else if s == ".." then Backtrack(output) else output + s
  {
    hide Backtrack, ComponentLength;
    if s == "" {
      assert output + "" == output;
    } else {
      SegmentOf(s, s, "");
      assert Walk(s, output) == Walk("", NextOutput(s, output));
    }
  }

  lemma OneWalked(s: string, rest: string, output: string)
    requires '/' !in s
    ensures Walk(s + "/" + rest, output) ==
      Walk(rest, if s == "." then output else if s == ".." then Backtrack(output) else output + (s + "/"))
  {
    hide Backtrack, ComponentLength;
    SegmentOf(s + "/" + rest, s, rest);
    assert |s + "/" + rest| > |s|;
  }

  /** A path of segments is normalised to the path of the directory they lead to, and the last one in it. */
  lemma SegmentsNormalized(segments: seq<string>)
    requires segments != [] && NoSlashes(segments)
    ensures Normalized("/" + Joined(segments)) == Target(Directory([], segments), segments[|segments| - 1])
  {
    var path := "/" + Joined(segments);
    WalkIs(segments, []);
    assert path[1..] == Joined(segments);
    assert Segment(path) == "" && SegmentEnd(path) == 1 && path[..1] == "/";
    assert Walk(path, "") == Walk(path[1..], "" + path[..1]);
  }
}
