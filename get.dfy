/** Reading a value at a dotted path: src/get.ts. */
module Get {
  import opened Values
  import opened Paths

  /**
   * internalGet: takes the first segment, looks it up when the current value
   * is a map, and recurses on the rest. Every miss (a value on the way that
   * is not a map, an empty segment, an absent key) is JavaScript's undefined.
   */
  function InternalGet(obj: Value, key: string): (r: Value)
    ensures !obj.Obj? || GetKeyFromPath(key).0 == "" ==> r == Undefined
    decreases |key|
  {
    var (head, rest) := GetKeyFromPath(key);
    if !obj.Obj? || head == "" then Undefined
    else if head in obj.fields then
      if rest == "" then obj.fields[head] else InternalGet(obj.fields[head], rest)
    else Undefined
  }

  /** get: the value internalGet finds, or `defaultValue` when that is null or undefined (`??`). */
  function Get(obj: map<string, Value>, keys: string, defaultValue: Value): (r: Value)
    ensures r == defaultValue || r == InternalGet(Obj(obj), keys)
    ensures !defaultValue.IsNullish() ==> !r.IsNullish()
  {
    var found := InternalGet(Obj(obj), keys);
    if found.IsNullish() then defaultValue else found
  }

  /**
   * Segment-by-segment resolution: each segment must be a key of the map
   * reached so far; the value at the last segment is the result.
   */
  function Lookup(v: Value, segs: seq<string>): Option<Value>
    decreases |segs|
  {
    if segs == [] then Some(v)
    else if v.Obj? && segs[0] in v.fields then Lookup(v.fields[segs[0]], segs[1..])
    else None
  }

  /**
   * internalGet on the path of valid segments is exactly segment-by-segment
   * resolution: the value at the end when every segment exists and each value
   * on the way is a map, undefined otherwise.
   */
  lemma {:induction false} InternalGetFollowsSegments(obj: Value, segs: seq<string>)
    requires ValidSegments(segs)
    ensures InternalGet(obj, JoinPath(segs)) == if Lookup(obj, segs).Some? then Lookup(obj, segs).value else Undefined
    decreases |segs|
  {
    SplitJoin(segs);
    if |segs| > 1 && obj.Obj? && segs[0] in obj.fields {
      assert ValidSegments(segs[1..]) by {
        forall i | 0 <= i < |segs| - 1 ensures ValidSegment(segs[1..][i]) {
          assert segs[1..][i] == segs[i + 1];
        }
      }
      InternalGetFollowsSegments(obj.fields[segs[0]], segs[1..]);
    }
  }

  /**
   * get returns the stored value when the path resolves to a value that is
   * neither null nor undefined; otherwise (a missing key at any level, a
   * non-map on the way, or a stored null/undefined) it returns the default.
   */
  lemma GetResult(obj: map<string, Value>, segs: seq<string>, defaultValue: Value)
    requires ValidSegments(segs)
    ensures var found := Lookup(Obj(obj), segs);
      Get(obj, JoinPath(segs), defaultValue) ==
        if found.Some? && !found.value.IsNullish() then found.value else defaultValue
  {
    InternalGetFollowsSegments(Obj(obj), segs);
  }

  /** A trailing dot is ignored: it only ever ends up as an empty rest. */
  lemma {:induction false} TrailingDotIgnored(obj: Value, path: string)
    requires path == "" || path[|path| - 1] != '.'
    ensures InternalGet(obj, path + ".") == InternalGet(obj, path)
    decreases |path|
  {
    if path == "" {
      SplitEdgeCases("", "");
      assert "" + "." == "." + "";
    } else if '.' !in path {
      SplitSegment(path, "");
    } else {
      var (head, rest) := GetKeyFromPath(path);
      assert path + "." == head + "." + (rest + ".");
      SplitSegment(head, rest + ".");
      assert rest != "" && rest[|rest| - 1] == path[|path| - 1];
      TrailingDotIgnored(if obj.Obj? && head in obj.fields then obj.fields[head] else obj, rest);
    }
  }

  /**
   * An empty segment is never found: the empty path, a leading dot, and a
   * doubled dot after an existing key all miss.
   */
  lemma EmptySegmentMisses(obj: Value, head: string, rest: string)
    requires ValidSegment(head)
    ensures InternalGet(obj, "") == Undefined
    ensures InternalGet(obj, "." + rest) == Undefined
    ensures InternalGet(obj, head + ".." + rest) == Undefined
  {
    LeadingDotMisses(obj, rest);
    assert InternalGet(obj, head + ".." + rest) == Undefined by {
      assert head + ".." + rest == head + "." + ("." + rest);
      SplitSegment(head, "." + rest);
      if obj.Obj? && head in obj.fields {
        LeadingDotMisses(obj.fields[head], rest);
      }
    }
  }

  lemma LeadingDotMisses(obj: Value, rest: string)
    ensures InternalGet(obj, "") == Undefined
    ensures InternalGet(obj, "." + rest) == Undefined
  {
    SplitEdgeCases(rest, "");
  }
}
