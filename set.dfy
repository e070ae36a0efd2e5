/** In-place assignment along a dotted path: src/set.ts. */
module PathSet {
  import opened Values
  import opened Paths
  import opened Get
  import Deep

  /**
   * The tree internalSet leaves behind: the path is walked like get walks
   * it, and only a key that already exists is overwritten. Every miss (a
   * value on the way that is not a map, an empty segment, an absent key)
   * leaves the tree as it was.
   */
  function SetPath(obj: Value, key: string, value: Value): (r: Value)
    ensures r.Obj? <==> obj.Obj?
    ensures r.Obj? ==> r.fields.Keys == obj.fields.Keys
    decreases |key|
  {
    var (head, rest) := GetKeyFromPath(key);
    if !obj.Obj? || head == "" then obj
    else if head in obj.fields then
      if rest == "" then Obj(obj.fields[head := value])
      else Obj(obj.fields[head := SetPath(obj.fields[head], rest, value)])
    else obj
  }

  /** A JavaScript object whose entries the caller sees change. */
  class JsObject {
    var fields: map<string, Value>

    constructor (fields: map<string, Value>)
      ensures this.fields == fields
    {
      this.fields := fields;
    }
  }

  /**
   * internalSet on the root object: the first segment is looked up in the
   * root's entries, and the rest of the path is applied inside the value
   * found there.
   */
  method InternalSet(obj: JsObject, key: string, value: Value)
    modifies obj
    ensures Obj(obj.fields) == SetPath(Obj(old(obj.fields)), key, value)
  {
    var (getKey, path) := GetKeyFromPath(key);
    if getKey == "" {
      return;
    }
    if getKey in obj.fields {
      if path == "" {
        obj.fields := obj.fields[getKey := value];
      } else {
        obj.fields := obj.fields[getKey := SetPath(obj.fields[getKey], path, value)];
      }
    }
  }

  /**
   * set: without `newCopy` the object passed in is updated and returned;
   * with it, `deepMerge(obj, {})` (source priority, nullish off) is updated
   * and returned and the object passed in stays as it was.
   */
  method Set(obj: JsObject, key: string, value: Value, newCopy: bool) returns (r: JsObject)
    modifies obj
    ensures !newCopy ==> r == obj && Obj(obj.fields) == SetPath(Obj(old(obj.fields)), key, value)
    ensures newCopy ==> fresh(r) && obj.fields == old(obj.fields)
    ensures newCopy ==> Obj(r.fields) == SetPath(Obj(Deep.CopyMap(old(obj.fields), false)), key, value)
  {
    if newCopy {
      Deep.MergeWithEmpty(obj.fields, Deep.Source, false);
      var copied := Deep.DeepMerge(obj.fields, map[], Deep.Source, false);
      r := new JsObject(copied);
    } else {
      r := obj;
    }
    InternalSet(r, key, value);
  }

  /**
   * When every segment of the path exists and each value on the way is a
   * map, the value at the path afterwards is `value` (an atom may replace a
   * map), and get finds it there.
   */
  lemma {:induction false} SetThenFinds(obj: Value, segs: seq<string>, value: Value)
    requires ValidSegments(segs) && Lookup(obj, segs).Some?
    ensures Lookup(SetPath(obj, JoinPath(segs), value), segs) == Some(value)
    ensures InternalGet(SetPath(obj, JoinPath(segs), value), JoinPath(segs)) == value
    decreases |segs|
  {
    SplitJoin(segs);
    if |segs| > 1 {
      assert ValidSegments(segs[1..]) by {
        forall i | 0 <= i < |segs| - 1 ensures ValidSegment(segs[1..][i]) {
          assert segs[1..][i] == segs[i + 1];
        }
      }
      SetThenFinds(obj.fields[segs[0]], segs[1..], value);
    }
    InternalGetFollowsSegments(SetPath(obj, JoinPath(segs), value), segs);
  }

  /**
   * No path is created: when the path does not resolve (a missing key at any
   * level or a value on the way that is not a map), nothing changes.
   */
  lemma {:induction false} SetMissChangesNothing(obj: Value, segs: seq<string>, value: Value)
    requires ValidSegments(segs) && Lookup(obj, segs).None?
    ensures SetPath(obj, JoinPath(segs), value) == obj
    decreases |segs|
  {
    SplitJoin(segs);
    if |segs| > 1 && obj.Obj? && segs[0] in obj.fields {
      assert ValidSegments(segs[1..]) by {
        forall i | 0 <= i < |segs| - 1 ensures ValidSegment(segs[1..][i]) {
          assert segs[1..][i] == segs[i + 1];
        }
      }
      SetMissChangesNothing(obj.fields[segs[0]], segs[1..], value);
      assert obj.fields[segs[0] := obj.fields[segs[0]]] == obj.fields;
    }
  }

  /** Two segment paths that part ways at some position. */
  predicate Diverge(segs: seq<string>, other: seq<string>)
  {
    exists i | 0 <= i < |segs| && i < |other| :: segs[i] != other[i]
  }

  /**
   * Every entry off the assigned path, at every depth, is unchanged: a path
   * that parts ways with the assigned one resolves as before.
   */
  lemma {:induction false} SetLeavesOthers(obj: Value, segs: seq<string>, other: seq<string>, value: Value)
    requires ValidSegments(segs) && Diverge(segs, other)
    ensures Lookup(SetPath(obj, JoinPath(segs), value), other) == Lookup(obj, other)
    decreases |segs|
  {
    var r := SetPath(obj, JoinPath(segs), value);
    SplitJoin(segs);
    if obj.Obj? && segs[0] in obj.fields && segs[0] == other[0] {
      var j :| 0 <= j < |segs| && j < |other| && segs[j] != other[j];
      assert |segs| > 1 && |other| > 1 && j > 0;
      assert ValidSegments(segs[1..]) by {
        forall i | 0 <= i < |segs| - 1 ensures ValidSegment(segs[1..][i]) {
          assert segs[1..][i] == segs[i + 1];
        }
      }
      assert segs[1..][j - 1] != other[1..][j - 1];
      SetLeavesOthers(obj.fields[segs[0]], segs[1..], other[1..], value);
    }
  }

  /** An empty segment at the head (the empty path, a leading dot) and a non-map root make set a no-op. */
  lemma SetEmptyHeadChangesNothing(obj: Value, rest: string, value: Value)
    ensures SetPath(obj, "", value) == obj
    ensures SetPath(obj, "." + rest, value) == obj
    ensures !obj.Obj? ==> SetPath(obj, rest, value) == obj
  {
    SplitEdgeCases(rest, "");
  }

  /**
   * With `newCopy`, for a tree without null, undefined or empty slots at the
   * end, the copy is updated exactly as the object itself would have been.
   */
  lemma SetCopyAgrees(fields: map<string, Value>, key: string, value: Value)
    requires Canonical(Obj(fields)) && NullishFree(Obj(fields))
    ensures SetPath(Obj(Deep.CopyMap(fields, false)), key, value) == SetPath(Obj(fields), key, value)
  {
    Deep.CopyIdentity(Obj(fields), false);
  }
}
