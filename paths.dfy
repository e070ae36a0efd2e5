/** The dot-separated path splitter of src/utils.ts, and paths built from segments. */
module Paths {

  /** `s.indexOf(".")`: the first dot, or -1. */
  function IndexOfDot(s: string): (i: int)
    ensures -1 <= i < |s|
    ensures i == -1 <==> '.' !in s
    ensures i >= 0 ==> s[i] == '.' && '.' !in s[..i]
  {
    if s == [] then -1
    else if s[0] == '.' then 0
    else
      var j := IndexOfDot(s[1..]);
      assert j >= 0 ==> s[1..][..j] == s[1..j + 1];
      if j == -1 then -1 else j + 1
  }

  /**
   * getKeyFromPath: the segment before the first dot and the rest after it.
   * The rest is strictly shorter than a non-empty path, which is what makes
   * the path walks of get and set terminate.
   */
  function GetKeyFromPath(path: string): (r: (string, string))
    ensures path == "" ==> r == ("", "")
    ensures path != "" && '.' !in path ==> r == (path, "")
    ensures '.' in path ==> '.' !in r.0 && r.0 + "." + r.1 == path
    ensures path != "" ==> |r.1| < |path|
  {
    if path == "" then ("", "")
    else
      var dot := IndexOfDot(path);
      if dot == -1 then (path, "")
      else
        assert path == path[..dot] + "." + path[dot + 1..];
        (path[..dot], path[dot + 1..])
  }

  /** A leading dot gives an empty head; a trailing dot stays in the rest. */
  lemma SplitEdgeCases(rest: string, head: string)
    ensures GetKeyFromPath("." + rest) == ("", rest)
    ensures '.' !in head && head != "" ==> GetKeyFromPath(head + ".") == (head, "")
  {
    SplitSegment("", rest);
    if '.' !in head && head != "" {
      SplitSegment(head, "");
    }
  }

  /** The split is determined by the first dot: a dot-free head comes back whole. */
  lemma SplitSegment(head: string, rest: string)
    requires '.' !in head
    ensures GetKeyFromPath(head + "." + rest) == (head, rest)
  {
    var path := head + "." + rest;
    var dot := IndexOfDot(path);
    assert path[|head|] == '.';
    assert dot == |head|;
    assert path[..dot] == head && path[dot + 1..] == rest;
  }

  /** A path segment: non-empty and without a dot. */
  predicate ValidSegment(s: string)
  {
    s != "" && '.' !in s
  }

  predicate ValidSegments(segs: seq<string>)
  {
    segs != [] && forall i | 0 <= i < |segs| :: ValidSegment(segs[i])
  }

  /** The dotted path naming the segments `segs` in order. */
  function JoinPath(segs: seq<string>): (p: string)
    requires segs != []
    decreases |segs|
  {
    if |segs| == 1 then segs[0] else segs[0] + "." + JoinPath(segs[1..])
  }

  /** Splitting the path of valid segments gives back its first segment and the path of the others. */
  lemma {:induction false} SplitJoin(segs: seq<string>)
    requires ValidSegments(segs)
    ensures GetKeyFromPath(JoinPath(segs)).0 == segs[0]
    ensures |segs| == 1 ==> GetKeyFromPath(JoinPath(segs)).1 == ""
    ensures |segs| > 1 ==> GetKeyFromPath(JoinPath(segs)).1 == JoinPath(segs[1..]) != ""
  {
    assert ValidSegment(segs[0]);
    if |segs| > 1 {
      SplitSegment(segs[0], JoinPath(segs[1..]));
      assert ValidSegment(segs[1]);
      JoinPathNonEmpty(segs[1..]);
    }
  }

  lemma {:induction false} JoinPathNonEmpty(segs: seq<string>)
    requires ValidSegments(segs)
    ensures |JoinPath(segs)| >= |segs[0]| > 0
  {
    assert ValidSegment(segs[0]);
  }
}
