/** The older merge without array support: src/deep-merge.ts. */
module LegacyMerge {
  import opened Values
  import Deep

  /**
   * The local isSimpleType: primitives and functions, and null/undefined only
   * with the flag. It is the classifier of utils.ts under another name.
   */
  predicate IsSimpleType(value: Value, nullish: bool)
    ensures IsSimpleType(value, nullish) == IsPrimitiveOrFunction(value, nullish)
  {
    value.IsPrimitive() || (nullish && value.IsNullish()) || value.Fn?
  }

  /** What merge writes for a key: simple values and maps only; arrays fall through. */
  predicate Kept(v: Value, nullish: bool)
  {
    IsSimpleType(v, nullish) || v.Obj?
  }

  /** `merge({}, v)` for a map `v`: retained keys only, arrays dropped at every depth. */
  function CopyValue(v: Value, nullish: bool): Value
    decreases v, 1
  {
    if IsSimpleType(v, nullish) then v
    else if v.Obj? then Obj(CopyMap(v.fields, nullish))
    else Hole
  }

  function CopyMap(m: map<string, Value>, nullish: bool): map<string, Value>
    decreases Obj(m), 0
  {
    map key | key in m && Kept(m[key], nullish) :: CopyValue(m[key], nullish)
  }

  /** The first loop's value for a key of the priority side. */
  function PriorityValue(hi: map<string, Value>, lo: map<string, Value>, key: string, nullish: bool): Value
    requires key in hi
    decreases Obj(hi), 1
  {
    var v := hi[key];
    if IsSimpleType(v, nullish) then v
    else if v.Obj? then Obj(MergeByPriority(v.fields, Deep.Counterpart(lo, key), nullish))
    else Hole
  }

  /** The two loops of merge with `hi` the priority side. */
  function MergeByPriority(hi: map<string, Value>, lo: map<string, Value>, nullish: bool): (r: map<string, Value>)
    ensures r.Keys <= hi.Keys + lo.Keys
    decreases Obj(hi), 2
  {
    var first := map key | key in hi && Kept(hi[key], nullish) :: PriorityValue(hi, lo, key, nullish);
    var second := map key | key in lo && key !in first && Kept(lo[key], nullish) :: CopyValue(lo[key], nullish);
    first + second
  }

  /** merge: the priority side is `source` for "source" and `target` otherwise. */
  function Merged(source: map<string, Value>, target: map<string, Value>, priority: Deep.Priority, nullish: bool): (r: map<string, Value>)
    ensures forall key :: key in r <==> (key in source && Kept(source[key], nullish)) || (key in target && Kept(target[key], nullish))
    ensures priority == Deep.Source ==> forall key | key in source && IsSimpleType(source[key], nullish) :: key in r && r[key] == source[key]
    ensures priority != Deep.Source ==> forall key | key in target && IsSimpleType(target[key], nullish) :: key in r && r[key] == target[key]
  {
    SimpleWins(source, target, nullish);
    SimpleWins(target, source, nullish);
    if priority == Deep.Source then MergeByPriority(source, target, nullish)
    else MergeByPriority(target, source, nullish)
  }

  /** Every simple value of the priority side comes out as it is. */
  lemma SimpleWins(hi: map<string, Value>, lo: map<string, Value>, nullish: bool)
    ensures forall key | key in hi && IsSimpleType(hi[key], nullish) ::
      key in MergeByPriority(hi, lo, nullish) && MergeByPriority(hi, lo, nullish)[key] == hi[key]
  {
    forall key | key in hi && IsSimpleType(hi[key], nullish)
      ensures key in MergeByPriority(hi, lo, nullish) && MergeByPriority(hi, lo, nullish)[key] == hi[key]
    {
      MergeKey(hi, lo, nullish, key);
    }
  }

  /**
   * The outcome for one key. A simple value on the priority side wins; a map
   * there is merged with the entries of the other side's value under the
   * same key; an array there is skipped, so it does not shadow the other
   * side's value (a simple value or a map), which is copied if it is kept.
   */
  lemma MergeKey(hi: map<string, Value>, lo: map<string, Value>, nullish: bool, key: string)
    ensures var r := MergeByPriority(hi, lo, nullish);
      && (key in r <==> (key in hi && Kept(hi[key], nullish)) || (key in lo && Kept(lo[key], nullish)))
      && (key in hi && IsPrimitiveOrFunction(hi[key], nullish) ==> r[key] == hi[key])
      && (key in hi && hi[key].Obj? ==>
            r[key] == Obj(MergeByPriority(hi[key].fields, Deep.Counterpart(lo, key), nullish)))
      && (key in hi && hi[key].Seq? && key in lo && Kept(lo[key], nullish) ==>
            r[key] == CopyValue(lo[key], nullish))
      && (!(key in hi && Kept(hi[key], nullish)) && key in lo && Kept(lo[key], nullish) ==>
            r[key] == CopyValue(lo[key], nullish))
  {
  }

  /** The result's keys lie within the union of both sides' keys. */
  lemma MergeKeys(source: map<string, Value>, target: map<string, Value>, priority: Deep.Priority, nullish: bool)
    ensures Merged(source, target, priority, nullish).Keys <= source.Keys + target.Keys
  {
  }

  /**
   * An array facing a map: `merge({a: [1]}, {a: {b: 1}})` skips the array
   * and copies the map, giving `{a: {b: 1}}`.
   */
  lemma ArraySkippedMerged()
    ensures Merged(map["a" := Seq([Num(1)])], map["a" := Obj(map["b" := Num(1)])], Deep.Source, false)
      == map["a" := Obj(map["b" := Num(1)])]
  {
    var hi := map["a" := Seq([Num(1)])];
    var lo := map["a" := Obj(map["b" := Num(1)])];
    var r := MergeByPriority(hi, lo, false);
    assert "a" in r && r["a"] == Obj(map["b" := Num(1)]) by {
      MergeKey(hi, lo, false, "a");
      assert CopyMap(map["b" := Num(1)], false) == map["b" := Num(1)];
    }
    assert r.Keys == {"a"} by {
      MergeKeys(hi, lo, Deep.Source, false);
    }
    Deep.SingleEntry(r, "a");
  }

  /** "object" behaves exactly like "target". */
  lemma ObjectPriorityIsTarget(source: map<string, Value>, target: map<string, Value>, nullish: bool)
    ensures Merged(source, target, Deep.ObjectFirst, nullish) == Merged(source, target, Deep.Target, nullish)
  {
  }

  lemma {:induction false} CopySeqFree(v: Value, nullish: bool)
    requires !v.Seq?
    ensures SeqFree(CopyValue(v, nullish))
    decreases v
  {
    if v.Obj? {
      var c := CopyMap(v.fields, nullish);
      forall key | key in c
        ensures SeqFree(c[key])
      {
        CopySeqFree(v.fields[key], nullish);
      }
    }
  }

  /** No array is ever emitted, from either side, at any depth. */
  lemma {:induction false} MergeSeqFree(hi: map<string, Value>, lo: map<string, Value>, nullish: bool)
    ensures SeqFree(Obj(MergeByPriority(hi, lo, nullish)))
    decreases Obj(hi)
  {
    var r := MergeByPriority(hi, lo, nullish);
    forall key | key in r
      ensures SeqFree(r[key])
    {
      MergeKey(hi, lo, nullish, key);
      if key in hi && Kept(hi[key], nullish) {
        if hi[key].Obj? {
          MergeSeqFree(hi[key].fields, Deep.Counterpart(lo, key), nullish);
        }
      } else {
        CopySeqFree(lo[key], nullish);
      }
    }
  }

  /** On array-free maps this copy is the copy deep.ts makes. */
  lemma {:induction false} CopyAgrees(v: Value, nullish: bool)
    requires SeqFree(v)
    ensures CopyValue(v, nullish) == Deep.CopyValue(v, nullish)
    decreases v
  {
    if v.Obj? {
      var c := CopyMap(v.fields, nullish);
      var d := Deep.CopyMap(v.fields, nullish);
      forall key | key in c
        ensures key in d && c[key] == d[key]
      {
        CopyAgrees(v.fields[key], nullish);
      }
      assert c.Keys == d.Keys;
    }
  }

  /** On array-free inputs, merge gives the same result as deepMerge. */
  lemma {:induction false} MergeAgreesByPriority(hi: map<string, Value>, lo: map<string, Value>, nullish: bool)
    requires SeqFree(Obj(hi)) && SeqFree(Obj(lo))
    ensures MergeByPriority(hi, lo, nullish) == Deep.MergeByPriority(hi, lo, nullish)
    decreases Obj(hi), 1
  {
    var r := MergeByPriority(hi, lo, nullish);
    var d := Deep.MergeByPriority(hi, lo, nullish);
    forall key
      ensures key in r <==> key in d
      ensures key in r ==> r[key] == d[key]
    {
      MergeAgreesAt(hi, lo, nullish, key);
    }
    SameEntries(r, d);
  }

  /** Two maps with the same keys and the same value at each key are equal. */
  lemma SameEntries(a: map<string, Value>, b: map<string, Value>)
    requires forall key :: key in a <==> key in b
    requires forall key | key in a :: a[key] == b[key]
    ensures a == b
  {
  }

  lemma {:induction false} MergeAgreesAt(hi: map<string, Value>, lo: map<string, Value>, nullish: bool, key: string)
    requires SeqFree(Obj(hi)) && SeqFree(Obj(lo))
    ensures key in MergeByPriority(hi, lo, nullish) <==> key in Deep.MergeByPriority(hi, lo, nullish)
    ensures key in MergeByPriority(hi, lo, nullish) ==>
      MergeByPriority(hi, lo, nullish)[key] == Deep.MergeByPriority(hi, lo, nullish)[key]
    decreases Obj(hi), 0
  {
    MergeKey(hi, lo, nullish, key);
    Deep.MergeKey(hi, lo, nullish, key);
    if key in hi && Kept(hi[key], nullish) {
      if hi[key].Obj? {
        Deep.CounterpartSeqFree(lo, key);
        MergeAgreesByPriority(hi[key].fields, Deep.Counterpart(lo, key), nullish);
      }
    } else if key in lo && Kept(lo[key], nullish) {
      CopyAgrees(lo[key], nullish);
    }
  }

  lemma MergeAgrees(source: map<string, Value>, target: map<string, Value>, priority: Deep.Priority, nullish: bool)
    requires SeqFree(Obj(source)) && SeqFree(Obj(target))
    ensures Merged(source, target, priority, nullish) == Deep.Merge(source, target, priority, nullish)
  {
    if priority == Deep.Source {
      MergeAgreesByPriority(source, target, nullish);
    } else {
      MergeAgreesByPriority(target, source, nullish);
    }
  }

  /** `merge({}, m)` and `merge(m, {})` are both the copy of `m`, whatever the priority. */
  lemma {:induction false} MergeWithEmptyLo(m: map<string, Value>, nullish: bool)
    ensures MergeByPriority(m, map[], nullish) == CopyMap(m, nullish)
    decreases Obj(m)
  {
    var r := MergeByPriority(m, map[], nullish);
    var c := CopyMap(m, nullish);
    forall key | key in r
      ensures key in c && r[key] == c[key]
    {
      MergeKey(m, map[], nullish, key);
      assert c[key] == CopyValue(m[key], nullish);
      if m[key].Obj? {
        MergeWithEmptyLo(m[key].fields, nullish);
        assert Deep.Counterpart(map[], key) == map[];
      }
    }
    assert r.Keys == c.Keys;
  }

  lemma MergeWithEmpty(m: map<string, Value>, priority: Deep.Priority, nullish: bool)
    ensures Merged(map[], m, priority, nullish) == CopyMap(m, nullish)
    ensures Merged(m, map[], priority, nullish) == CopyMap(m, nullish)
  {
    MergeWithEmptyLo(m, nullish);
    assert MergeByPriority(map[], m, nullish) == CopyMap(m, nullish);
  }

  /**
   * merge: the first loop writes the priority side's simple values and
   * merged maps, the second the other side's keys not yet written.
   */
  method Merge(source: map<string, Value>, target: map<string, Value>, priority: Deep.Priority, nullish: bool)
      returns (clone: map<string, Value>)
    ensures clone == Merged(source, target, priority, nullish)
    decreases if priority == Deep.Source then Obj(source) else Obj(target)
  {
    var priorityOne := if priority == Deep.Source then source else target;
    var priorityTwo := if priority == Deep.Source then target else source;
    clone := map[];
    var todo := priorityOne.Keys;
    while todo != {}
      invariant todo <= priorityOne.Keys
      invariant forall key :: key in clone <==> key in priorityOne && key !in todo && Kept(priorityOne[key], nullish)
      invariant forall key | key in clone :: clone[key] == PriorityValue(priorityOne, priorityTwo, key, nullish)
      decreases todo
    {
      var key :| key in todo;
      todo := todo - {key};
      var v := priorityOne[key];
      if IsSimpleType(v, nullish) {
        clone := clone[key := v];
      } else if v.Obj? {
        var other := Deep.Counterpart(priorityTwo, key);
        var merged;
        if priority == Deep.Source {
          merged := Merge(v.fields, other, priority, nullish);
        } else {
          merged := Merge(other, v.fields, priority, nullish);
        }
        clone := clone[key := Obj(merged)];
      }
    }
    ghost var first := clone;
    todo := priorityTwo.Keys;
    while todo != {}
      invariant todo <= priorityTwo.Keys
      invariant first.Keys <= clone.Keys
      invariant forall key :: key in clone <==>
        key in first || (key in priorityTwo && key !in todo && Kept(priorityTwo[key], nullish))
      invariant forall key | key in clone ::
        clone[key] == if key in first then first[key] else CopyValue(priorityTwo[key], nullish)
      decreases todo
    {
      var key :| key in todo;
      todo := todo - {key};
      if key !in clone {
        var v := priorityTwo[key];
        if IsSimpleType(v, nullish) {
          clone := clone[key := v];
        } else if v.Obj? {
          var copied := CopyObject(v.fields, nullish);
          clone := clone[key := Obj(copied)];
        }
      }
    }
    MergeAssembled(priorityOne, priorityTwo, nullish, first, clone);
  }

  lemma MergeAssembled(hi: map<string, Value>, lo: map<string, Value>, nullish: bool,
                       first: map<string, Value>, clone: map<string, Value>)
    requires forall key :: key in first <==> key in hi && Kept(hi[key], nullish)
    requires forall key | key in first :: first[key] == PriorityValue(hi, lo, key, nullish)
    requires forall key :: key in clone <==> key in first || (key in lo && Kept(lo[key], nullish))
    requires forall key | key in clone ::
      clone[key] == if key in first then first[key] else CopyValue(lo[key], nullish)
    ensures clone == MergeByPriority(hi, lo, nullish)
  {
    var r := MergeByPriority(hi, lo, nullish);
    forall key | key in r
      ensures key in clone && clone[key] == r[key]
    {
      MergeKey(hi, lo, nullish, key);
    }
    assert clone.Keys == r.Keys;
  }

  /** `merge({}, m, priority, nullish)`: one loop over the keys of `m`. */
  method CopyObject(m: map<string, Value>, nullish: bool) returns (clone: map<string, Value>)
    ensures clone == CopyMap(m, nullish)
    decreases Obj(m)
  {
    clone := map[];
    var todo := m.Keys;
    while todo != {}
      invariant todo <= m.Keys
      invariant forall key :: key in clone <==> key in m && key !in todo && Kept(m[key], nullish)
      invariant forall key | key in clone :: clone[key] == CopyValue(m[key], nullish)
      decreases todo
    {
      var key :| key in todo;
      todo := todo - {key};
      var v := m[key];
      if IsSimpleType(v, nullish) {
        clone := clone[key := v];
      } else if v.Obj? {
        var copied := CopyObject(v.fields, nullish);
        clone := clone[key := Obj(copied)];
      }
    }
  }
}
