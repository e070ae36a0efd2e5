/** Key-path existence: src/has.ts. */
module Has {
  import opened Values
  import opened Paths
  import opened Get

  /** `path ? `${path}.${key}` : key`: an empty prefix is falsy, so it adds no dot. */
  function JoinKey(path: string, key: string): string
  {
    if path == "" then key else path + "." + key
  }

  /**
   * internalHas: some key of `obj` either spells `targetKey` once appended to
   * the accumulated prefix, or holds a map in which the search goes on with
   * the longer prefix. Arrays and atoms are never entered.
   */
  predicate InternalHas(obj: map<string, Value>, targetKey: string, path: string)
    ensures InternalHas(obj, targetKey, path) ==> obj != map[]
    ensures InternalHas(obj, targetKey, path) && path != "" ==> |targetKey| > |path|
    decreases Obj(obj)
  {
    exists key | key in obj ::
      var currentPath := JoinKey(path, key);
      currentPath == targetKey || (obj[key].Obj? && InternalHas(obj[key].fields, targetKey, currentPath))
  }

  /** has */
  predicate Has(obj: map<string, Value>, key: string)
    ensures key in obj ==> Has(obj, key)
    ensures obj == map[] ==> !Has(obj, key)
  {
    InternalHas(obj, key, "")
  }

  /** Every key of every map reachable through maps is a valid path segment. */
  predicate SegmentKeys(obj: map<string, Value>)
    decreases Obj(obj)
  {
    forall key | key in obj :: ValidSegment(key) && (obj[key].Obj? ==> SegmentKeys(obj[key].fields))
  }

  /** Below a non-empty prefix, every path that matches starts with that prefix and a dot. */
  lemma {:induction false} MatchesExtendPrefix(obj: map<string, Value>, targetKey: string, path: string)
    requires path != "" && InternalHas(obj, targetKey, path)
    ensures |targetKey| > |path| && targetKey[..|path| + 1] == path + "."
    decreases Obj(obj)
  {
    var key :| key in obj && (JoinKey(path, key) == targetKey ||
      (obj[key].Obj? && InternalHas(obj[key].fields, targetKey, JoinKey(path, key))));
    var currentPath := path + "." + key;
    if currentPath != targetKey {
      MatchesExtendPrefix(obj[key].fields, targetKey, currentPath);
      assert targetKey[..|path| + 1] == targetKey[..|currentPath| + 1][..|path| + 1];
    }
  }

  /** The prefix `a` followed by the (possibly empty) prefix `b`. */
  function Under(a: string, b: string): string
  {
    if b == "" then a else a + "." + b
  }

  /**
   * Searching for `a.s` below the prefix `a` (followed by `b`) is searching
   * for `s` below `b`: the accumulated prefix only ever grows at its end.
   */
  lemma {:induction false} ShiftPrefix(obj: map<string, Value>, a: string, s: string, b: string)
    requires a != "" && SegmentKeys(obj)
    ensures InternalHas(obj, a + "." + s, Under(a, b)) == InternalHas(obj, s, b)
    decreases Obj(obj)
  {
    forall key | key in obj
      ensures (JoinKey(Under(a, b), key) == a + "." + s ||
                (obj[key].Obj? && InternalHas(obj[key].fields, a + "." + s, JoinKey(Under(a, b), key))))
          == (JoinKey(b, key) == s ||
                (obj[key].Obj? && InternalHas(obj[key].fields, s, JoinKey(b, key))))
    {
      var inner := JoinKey(b, key);
      assert ValidSegment(key);
      if b != "" {
        assert (a + "." + b) + "." + key == a + "." + (b + "." + key);
      }
      assert JoinKey(Under(a, b), key) == a + "." + inner == Under(a, inner);
      if a + "." + inner == a + "." + s {
        assert inner == (a + "." + inner)[|a| + 1..];
      }
      if obj[key].Obj? {
        ShiftPrefix(obj[key].fields, a, s, inner);
      }
    }
  }

  /**
   * One step of has along a path: below the root, `s.rest` is present exactly
   * when `s` is a top-level key holding a map in which `rest` is present.
   */
  lemma HasStep(obj: map<string, Value>, s: string, rest: string)
    requires ValidSegment(s) && rest != "" && SegmentKeys(obj)
    ensures Has(obj, s + "." + rest) <==> s in obj && obj[s].Obj? && Has(obj[s].fields, rest)
  {
    if Has(obj, s + "." + rest) {
      HasStepDown(obj, s, rest);
    }
    if s in obj && obj[s].Obj? && Has(obj[s].fields, rest) {
      ShiftPrefix(obj[s].fields, s, rest, "");
      assert JoinKey("", s) == s;
      assert InternalHas(obj[s].fields, s + "." + rest, JoinKey("", s));
    }
  }

  lemma HasStepDown(obj: map<string, Value>, s: string, rest: string)
    requires ValidSegment(s) && rest != "" && SegmentKeys(obj)
    requires Has(obj, s + "." + rest)
    ensures s in obj && obj[s].Obj? && Has(obj[s].fields, rest)
  {
    HasStepKey(obj, s, rest);
    ShiftPrefix(obj[s].fields, s, rest, "");
    assert Under(s, "") == s;
  }

  /** The key through which has finds `s.rest` at the root is `s` itself. */
  lemma HasStepKey(obj: map<string, Value>, s: string, rest: string)
    requires ValidSegment(s) && rest != "" && SegmentKeys(obj)
    requires Has(obj, s + "." + rest)
    ensures s in obj && obj[s].Obj? && InternalHas(obj[s].fields, s + "." + rest, s)
  {
    var target := s + "." + rest;
    var key :| key in obj && (JoinKey("", key) == target ||
      (obj[key].Obj? && InternalHas(obj[key].fields, target, JoinKey("", key))));
    assert ValidSegment(key);
    assert JoinKey("", key) == key;
    assert key != target by {
      assert target[|s|] == '.';
    }
    MatchesExtendPrefix(obj[key].fields, target, key);
    SameFirstSegment(key, s, rest);
  }

  /** Two dot-free heads of the same dotted path are equal. */
  lemma SameFirstSegment(key: string, s: string, rest: string)
    requires ValidSegment(key) && ValidSegment(s)
    requires |s + "." + rest| > |key| && (s + "." + rest)[..|key| + 1] == key + "."
    ensures key == s
  {
    var target := s + "." + rest;
    assert target == key + "." + target[|key| + 1..];
    SplitSegment(key, target[|key| + 1..]);
    SplitSegment(s, rest);
  }

  /**
   * For maps whose keys are all valid segments, has on the path of valid
   * segments holds exactly when get's segment-by-segment resolution reaches
   * an existing key.
   */
  lemma {:induction false} HasIffResolves(obj: map<string, Value>, segs: seq<string>)
    requires ValidSegments(segs) && SegmentKeys(obj)
    ensures Has(obj, JoinPath(segs)) <==> Lookup(Obj(obj), segs).Some?
    decreases |segs|
  {
    var s := segs[0];
    assert ValidSegment(s);
    if |segs| == 1 {
      TopLevelKey(obj, s);
    } else {
      assert ValidSegments(segs[1..]) by {
        forall i | 0 <= i < |segs| - 1 ensures ValidSegment(segs[1..][i]) {
          assert segs[1..][i] == segs[i + 1];
        }
      }
      JoinPathNonEmpty(segs[1..]);
      HasStep(obj, s, JoinPath(segs[1..]));
      if s in obj && obj[s].Obj? {
        HasIffResolves(obj[s].fields, segs[1..]);
      }
    }
  }

  /**
   * What has promises to get: when has holds for a path of valid segments,
   * internalGet finds the stored value there (which may itself be null or
   * undefined, in which case get still answers with its default).
   */
  lemma HasThenGetFinds(obj: map<string, Value>, segs: seq<string>)
    requires ValidSegments(segs) && SegmentKeys(obj)
    requires Has(obj, JoinPath(segs))
    ensures Lookup(Obj(obj), segs).Some?
    ensures InternalGet(Obj(obj), JoinPath(segs)) == Lookup(Obj(obj), segs).value
  {
    HasIffResolves(obj, segs);
    InternalGetFollowsSegments(Obj(obj), segs);
  }

  /**
   * For a dot-free key, has is top-level membership, whatever the value
   * (null and undefined included), as long as the root has no empty key
   * holding a map (see EmptyRootKeyCollapses).
   */
  lemma TopLevelKey(obj: map<string, Value>, key: string)
    requires '.' !in key
    requires "" in obj ==> !obj[""].Obj?
    ensures Has(obj, key) <==> key in obj
  {
    if Has(obj, key) {
      var k :| k in obj && (JoinKey("", k) == key ||
        (obj[k].Obj? && InternalHas(obj[k].fields, key, JoinKey("", k))));
      if k != key {
        MatchesExtendPrefix(obj[k].fields, key, k);
        assert key[..|k| + 1][|k|] == '.';
      }
      assert key in obj;
    }
    if key in obj {
      assert JoinKey("", key) == key;
      assert InternalHas(obj, key, "") by {
        assert var currentPath := JoinKey("", key);
        currentPath == key || (obj[key].Obj? && InternalHas(obj[key].fields, key, currentPath));
      }
    }
  }

  /** An empty map has no key at any path. */
  lemma EmptyHasNothing(key: string)
    ensures !Has(map[], key)
  {
  }

  /**
   * The empty root key adds no dot to the prefix, so the keys of a map stored
   * under it answer as if they were top-level keys, although get cannot reach
   * them.
   */
  lemma EmptyRootKeyCollapses()
    ensures var obj := map["" := Obj(map["b" := Num(1)])];
      Has(obj, "b") && "b" !in obj && InternalGet(Obj(obj), "b") == Undefined
  {
    var obj := map["" := Obj(map["b" := Num(1)])];
    var inner := map["b" := Num(1)];
    assert JoinKey("", "b") == "b";
    assert InternalHas(inner, "b", "");
    assert JoinKey("", "") == "";
    assert GetKeyFromPath("b") == ("b", "");
  }

  /**
   * has compares whole joined paths, so a trailing dot never matches, while
   * get ignores it.
   */
  lemma TrailingDotDiffers()
    ensures var obj := map["a" := Num(1)];
      !Has(obj, "a.") && InternalGet(Obj(obj), "a.") == Num(1)
  {
    var obj := map["a" := Num(1)];
    assert JoinKey("", "a") == "a" != "a.";
    SplitSegment("a", "");
    assert "a" + "." + "" == "a.";
  }
}
