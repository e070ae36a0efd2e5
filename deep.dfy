/** The canonical merge engine and its array copy: src/deep.ts. */
module Deep {
  import opened Values

  /** The `priority` argument. "object" takes the same branch as "target" everywhere. */
  datatype Priority = Source | Target | ObjectFirst

  /** The decimal spelling of an array or string index: the key for...in yields for it. */
  function IndexKey(n: nat): (r: string)
    ensures |r| >= 1
    ensures r[|r| - 1] == "0123456789"[n % 10]
    ensures n >= 10 ==> r[..|r| - 1] == IndexKey(n / 10)
    ensures n < 10 <==> |r| == 1
  {
    if n < 10 then ["0123456789"[n]] else IndexKey(n / 10) + ["0123456789"[n % 10]]
  }

  /** Different indices are enumerated under different keys. */
  lemma {:induction false} IndexKeyInjective(a: nat, b: nat)
    ensures IndexKey(a) == IndexKey(b) ==> a == b
    decreases a
  {
    var ka, kb := IndexKey(a), IndexKey(b);
    if ka == kb {
      assert ka[|ka| - 1] == kb[|kb| - 1];
      DigitInjective(a % 10, b % 10);
      if a >= 10 {
        IndexKeyInjective(a / 10, b / 10);
      }
    }
  }

  lemma DigitInjective(x: nat, y: nat)
    requires x < 10 && y < 10
    ensures "0123456789"[x] == "0123456789"[y] ==> x == y
  {
  }

  /**
   * What for...in and indexing see in a string: each index, holding the
   * one-character string at that index. Characters here are code points;
   * JavaScript indexes UTF-16 code units, so the two agree only on strings
   * within the Basic Multilingual Plane.
   */
  function StringEntries(s: string): map<string, Value>
  {
    if s == [] then map[]
    else StringEntries(s[..|s| - 1])[IndexKey(|s| - 1) := Str([s[|s| - 1]])]
  }

  /** A string's entries are one-character strings: no array among them. */
  lemma {:induction false} StringEntriesSeqFree(s: string)
    ensures SeqFree(Obj(StringEntries(s)))
    decreases |s|
  {
    if s != [] {
      StringEntriesSeqFree(s[..|s| - 1]);
    }
  }

  /** What for...in and indexing see in an array: each index that is not an empty slot. */
  function ArrayEntries(s: seq<Value>): map<string, Value>
  {
    if s == [] then map[]
    else if s[|s| - 1].Hole? then ArrayEntries(s[..|s| - 1])
    else ArrayEntries(s[..|s| - 1])[IndexKey(|s| - 1) := s[|s| - 1]]
  }

  /** Each index of a string is enumerated and holds the character there. */
  lemma {:induction false} StringEntriesAt(s: string, i: nat)
    requires i < |s|
    ensures IndexKey(i) in StringEntries(s) && StringEntries(s)[IndexKey(i)] == Str([s[i]])
    decreases |s|
  {
    var n := |s| - 1;
    if i < n {
      StringEntriesAt(s[..n], i);
      IndexKeyInjective(i, n);
    }
  }

  /** Nothing but the indices of a string is enumerated. */
  lemma {:induction false} StringEntriesKey(s: string, k: string) returns (i: nat)
    requires k in StringEntries(s)
    ensures i < |s| && k == IndexKey(i)
    decreases |s|
  {
    var n := |s| - 1;
    if k == IndexKey(n) {
      i := n;
    } else {
      i := StringEntriesKey(s[..n], k);
    }
  }

  /** Each index of an array that is not an empty slot is enumerated and holds the element there. */
  lemma {:induction false} ArrayEntriesAt(s: seq<Value>, i: nat)
    requires i < |s| && !s[i].Hole?
    ensures IndexKey(i) in ArrayEntries(s) && ArrayEntries(s)[IndexKey(i)] == s[i]
    decreases |s|
  {
    var n := |s| - 1;
    if i < n {
      ArrayEntriesAt(s[..n], i);
      IndexKeyInjective(i, n);
    }
  }

  /** Nothing but the indices of an array's elements is enumerated; empty slots are not. */
  lemma {:induction false} ArrayEntriesKey(s: seq<Value>, k: string) returns (i: nat)
    requires k in ArrayEntries(s)
    ensures i < |s| && !s[i].Hole? && k == IndexKey(i)
    decreases |s|
  {
    var n := |s| - 1;
    if !s[n].Hole? && k == IndexKey(n) {
      i := n;
    } else {
      i := ArrayEntriesKey(s[..n], k);
    }
  }

  /**
   * `priorityTwo[key] ?? {}`, read as the keys a for...in over it
   * enumerates and the values indexing it yields: a map's own entries, a
   * string's characters and an array's elements under their indices, and
   * nothing for null, undefined, numbers, booleans and functions.
   */
  function Counterpart(other: map<string, Value>, key: string): map<string, Value>
  {
    if key !in other then map[]
    else match other[key]
      case Obj(fields) => fields
      case Str(s) => StringEntries(s)
      case Seq(items) => ArrayEntries(items)
      case _ => map[]
  }

  /** Without arrays on the other side, its counterparts hold no arrays either. */
  lemma CounterpartSeqFree(other: map<string, Value>, key: string)
    requires SeqFree(Obj(other))
    ensures SeqFree(Obj(Counterpart(other, key)))
  {
    if key in other && other[key].Str? {
      StringEntriesSeqFree(other[key].s);
    }
  }

  /**
   * What the copy branches write for one value: the value itself when it is
   * simple, a copy of a map or an array, and nothing (`Hole`) otherwise.
   */
  function CopyValue(v: Value, nullish: bool): Value
    decreases v, 2
  {
    if IsPrimitiveOrFunction(v, nullish) then v
    else if v.Obj? then Obj(CopyMap(v.fields, nullish))
    else if v.Seq? then Seq(CopyArray(v.items))
    else Hole
  }

  /**
   * `deepMerge({}, m, priority, nullish)`, the copy deepMerge makes of a map
   * that only one side holds: retained keys only, each copied.
   */
  function CopyMap(m: map<string, Value>, nullish: bool): map<string, Value>
    decreases Obj(m), 1
  {
    map key | key in m && Retained(m[key], nullish) :: CopyValue(m[key], nullish)
  }

  /** The slot deepCopyArray writes at each index (`Hole` where it writes nothing). */
  function ArraySlots(s: seq<Value>): (r: seq<Value>)
    ensures |r| == |s|
    ensures forall i | 0 <= i < |s| :: r[i] == CopyValue(s[i], false)
    decreases Seq(s), 0
  {
    seq(|s|, i requires 0 <= i < |s| => CopyValue(s[i], false))
  }

  /**
   * deepCopyArray: every element keeps its index; null and undefined are
   * never kept (the flag is always false here), leaving empty slots, and
   * empty slots at the end do not exist.
   */
  function CopyArray(s: seq<Value>): (r: seq<Value>)
    ensures |r| <= |s|
    ensures forall i | 0 <= i < |r| :: r[i] == CopyValue(s[i], false)
    ensures forall i | |r| <= i < |s| :: CopyValue(s[i], false) == Hole
    ensures r == [] || r[|r| - 1] != Hole
    decreases Seq(s), 1
  {
    TrimHoles(ArraySlots(s))
  }

  /**
   * What the first loop writes for a key of the priority side: a simple
   * value as it is, a map merged with the other side's value under the same
   * key, an array copied whole.
   */
  function PriorityValue(hi: map<string, Value>, lo: map<string, Value>, key: string, nullish: bool): Value
    requires key in hi
    decreases Obj(hi), 1
  {
    var v := hi[key];
    if IsPrimitiveOrFunction(v, nullish) then v
    else if v.Obj? then Obj(MergeByPriority(v.fields, Counterpart(lo, key), nullish))
    else if v.Seq? then Seq(CopyArray(v.items))
    else Hole
  }

  /**
   * The two loops of deepMerge with `hi` the priority side: first every
   * retained key of `hi`, then every retained key of `lo` the first loop did
   * not write, copied.
   */
  function MergeByPriority(hi: map<string, Value>, lo: map<string, Value>, nullish: bool): (r: map<string, Value>)
    ensures r.Keys <= hi.Keys + lo.Keys
    decreases Obj(hi), 2
  {
    var first := map key | key in hi && Retained(hi[key], nullish) :: PriorityValue(hi, lo, key, nullish);
    var second := map key | key in lo && key !in first && Retained(lo[key], nullish) :: CopyValue(lo[key], nullish);
    first + second
  }

  /** deepMerge: the priority side is `source` for "source" and `target` otherwise. */
  function Merge(source: map<string, Value>, target: map<string, Value>, priority: Priority, nullish: bool): (r: map<string, Value>)
    ensures forall key :: key in r <==> (key in source && Retained(source[key], nullish)) || (key in target && Retained(target[key], nullish))
    ensures priority == Source ==> forall key | key in source && IsPrimitiveOrFunction(source[key], nullish) :: key in r && r[key] == source[key]
    ensures priority != Source ==> forall key | key in target && IsPrimitiveOrFunction(target[key], nullish) :: key in r && r[key] == target[key]
  {
    SimpleWins(source, target, nullish);
    SimpleWins(target, source, nullish);
    if priority == Source then MergeByPriority(source, target, nullish)
    else MergeByPriority(target, source, nullish)
  }

  /** Every simple value of the priority side comes out as it is. */
  lemma SimpleWins(hi: map<string, Value>, lo: map<string, Value>, nullish: bool)
    ensures forall key | key in hi && IsPrimitiveOrFunction(hi[key], nullish) ::
      key in MergeByPriority(hi, lo, nullish) && MergeByPriority(hi, lo, nullish)[key] == hi[key]
  {
    forall key | key in hi && IsPrimitiveOrFunction(hi[key], nullish)
      ensures key in MergeByPriority(hi, lo, nullish) && MergeByPriority(hi, lo, nullish)[key] == hi[key]
    {
      MergeKey(hi, lo, nullish, key);
    }
  }

  /** "object" behaves exactly like "target". */
  lemma ObjectPriorityIsTarget(source: map<string, Value>, target: map<string, Value>, nullish: bool)
    ensures Merge(source, target, ObjectFirst, nullish) == Merge(source, target, Target, nullish)
  {
  }

  /**
   * The outcome for one key. A value on the priority side that is simple
   * (null and undefined only with `nullish`) wins whatever the other side
   * holds; a map there is merged with the entries of the other side's value
   * under the same key (`Counterpart`); an array there is copied whole and the other side's value is
   * ignored. A key the priority side does not retain takes a copy of the
   * other side's value when that is retained, and is absent otherwise.
   */
  lemma MergeKey(hi: map<string, Value>, lo: map<string, Value>, nullish: bool, key: string)
    ensures var r := MergeByPriority(hi, lo, nullish);
      && (key in r <==> (key in hi && Retained(hi[key], nullish)) || (key in lo && Retained(lo[key], nullish)))
      && (key in hi && IsPrimitiveOrFunction(hi[key], nullish) ==> r[key] == hi[key])
      && (key in hi && hi[key].Obj? ==>
            r[key] == Obj(MergeByPriority(hi[key].fields, Counterpart(lo, key), nullish)))
      && (key in hi && hi[key].Seq? ==> r[key] == Seq(CopyArray(hi[key].items)))
      && (!(key in hi && Retained(hi[key], nullish)) && key in lo && Retained(lo[key], nullish) ==>
            r[key] == CopyValue(lo[key], nullish))
  {
  }

  /**
   * Keys of the result: never outside the union of both sides' keys, and
   * with `nullish` and no empty slot as a value, exactly that union.
   */
  lemma MergeKeys(hi: map<string, Value>, lo: map<string, Value>, nullish: bool)
    ensures MergeByPriority(hi, lo, nullish).Keys <= hi.Keys + lo.Keys
    ensures nullish && (forall key | key in hi :: hi[key] != Hole) && (forall key | key in lo :: lo[key] != Hole)
      ==> MergeByPriority(hi, lo, nullish).Keys == hi.Keys + lo.Keys
  {
  }

  /** Merging with an empty map only copies. */
  lemma {:induction false} MergeWithEmptyLo(m: map<string, Value>, nullish: bool)
    ensures MergeByPriority(m, map[], nullish) == CopyMap(m, nullish)
    decreases Obj(m)
  {
    var r := MergeByPriority(m, map[], nullish);
    var c := CopyMap(m, nullish);
    forall key | key in r
      ensures key in c && r[key] == c[key]
    {
      MergeKey(m, map[], nullish, key);
      assert c[key] == CopyValue(m[key], nullish);
      if m[key].Obj? {
        MergeWithEmptyLo(m[key].fields, nullish);
        assert Counterpart(map[], key) == map[];
      }
    }
    assert r.Keys == c.Keys;
  }

  /**
   * `deepMerge({}, m)` and `deepMerge(m, {})` are both the copy of `m`,
   * whatever the priority: this is the copy used by set and omit.
   */
  lemma MergeWithEmpty(m: map<string, Value>, priority: Priority, nullish: bool)
    ensures Merge(map[], m, priority, nullish) == CopyMap(m, nullish)
    ensures Merge(m, map[], priority, nullish) == CopyMap(m, nullish)
  {
    MergeWithEmptyLo(m, nullish);
    assert MergeByPriority(map[], m, nullish) == CopyMap(m, nullish);
  }

  /** Without `nullish`, no copy holds null or undefined anywhere (arrays never do). */
  lemma {:induction false} CopyNullishFree(v: Value, nullish: bool)
    ensures !nullish ==> NullishFree(CopyValue(v, nullish))
    ensures v.Seq? ==> NullishFree(CopyValue(v, nullish))
    decreases v
  {
    match v
    case Obj(fields) =>
      forall key | key in fields {
        CopyNullishFree(fields[key], nullish);
      }
    case Seq(items) =>
      forall i | 0 <= i < |items| {
        CopyNullishFree(items[i], false);
      }
    case _ =>
  }

  /**
   * Without `nullish`, no map or array anywhere in the merged result holds
   * null or undefined: they neither appear nor shadow the other side's value.
   */
  lemma {:induction false} MergeNullishFree(hi: map<string, Value>, lo: map<string, Value>)
    ensures NullishFree(Obj(MergeByPriority(hi, lo, false)))
    decreases Obj(hi)
  {
    var r := MergeByPriority(hi, lo, false);
    forall key | key in r
      ensures NullishFree(r[key])
    {
      MergeKey(hi, lo, false, key);
      if key in hi && Retained(hi[key], false) {
        if hi[key].Obj? {
          MergeNullishFree(hi[key].fields, Counterpart(lo, key));
        } else {
          CopyNullishFree(hi[key], false);
        }
      } else {
        CopyNullishFree(lo[key], false);
      }
    }
  }

  /**
   * A copy keeps only what was there: entries removed and slots emptied at
   * any depth, nothing added or altered.
   */
  lemma {:induction false} CopyPruned(v: Value, nullish: bool)
    requires Retained(v, nullish)
    ensures Pruned(CopyValue(v, nullish), v)
    decreases v
  {
    match v
    case Obj(fields) =>
      forall key | key in CopyMap(fields, nullish) {
        CopyPruned(fields[key], nullish);
      }
    case Seq(items) =>
      var r := CopyArray(items);
      forall i | 0 <= i < |r| && r[i] != Hole
        ensures Pruned(r[i], items[i])
      {
        CopyPruned(items[i], false);
      }
    case _ =>
  }

  /**
   * A tree already free of null, undefined and trailing empty slots is copied
   * to an equal tree: arrays are copied, never reshaped.
   */
  lemma {:induction false} CopyIdentity(v: Value, nullish: bool)
    requires Canonical(v) && NullishFree(v) && !v.Hole?
    ensures CopyValue(v, nullish) == v
    decreases v
  {
    match v
    case Obj(fields) =>
      var c := CopyMap(fields, nullish);
      forall key | key in fields
        ensures key in c && c[key] == fields[key]
      {
        CopyIdentity(fields[key], nullish);
      }
      assert c == fields;
    case Seq(items) =>
      var slots := ArraySlots(items);
      forall i | 0 <= i < |items|
        ensures slots[i] == items[i]
      {
        if !items[i].Hole? {
          CopyIdentity(items[i], false);
        }
      }
      assert slots == items;
    case _ =>
  }

  /**
   * An array on the priority side comes out equal to itself, whatever the
   * other side holds under that key (no element-wise merge), when it holds
   * no null, undefined or trailing empty slot.
   */
  lemma ArrayReplacesWhole(hi: map<string, Value>, lo: map<string, Value>, nullish: bool, key: string)
    requires key in hi && hi[key].Seq?
    requires Canonical(hi[key]) && NullishFree(hi[key])
    ensures key in MergeByPriority(hi, lo, nullish) && MergeByPriority(hi, lo, nullish)[key] == hi[key]
  {
    MergeKey(hi, lo, nullish, key);
    CopyIdentity(hi[key], false);
  }

  /**
   * A string facing a map: `deepMerge({a: {x: 1}}, {a: "ab"})` enumerates
   * the string's indices, giving `{a: {x: 1, 0: "a", 1: "b"}}`.
   */
  lemma StringCounterpartMerged()
    ensures Merge(map["a" := Obj(map["x" := Num(1)])], map["a" := Str("ab")], Source, false)
      == map["a" := Obj(map["x" := Num(1), "0" := Str("a"), "1" := Str("b")])]
  {
    var hi := map["a" := Obj(map["x" := Num(1)])];
    var lo := map["a" := Str("ab")];
    var inner := map["x" := Num(1), "0" := Str("a"), "1" := Str("b")];
    var r := MergeByPriority(hi, lo, false);
    assert "a" in r && r["a"] == Obj(inner) by {
      AbEntries();
      InnerMerged();
      MergeKey(hi, lo, false, "a");
    }
    assert r.Keys == {"a"} by {
      MergeKeys(hi, lo, false);
    }
    SingleEntry(r, "a");
  }

  /** A map whose only key is `k`. */
  lemma SingleEntry(m: map<string, Value>, k: string)
    requires m.Keys == {k}
    ensures m == map[k := m[k]]
  {
  }

  lemma AbEntries()
    ensures StringEntries("ab") == map["0" := Str("a"), "1" := Str("b")]
  {
    assert IndexKey(0) == "0" && IndexKey(1) == "1";
    assert "ab"[..1] == "a";
    assert "a"[..0] == "";
  }

  lemma InnerMerged()
    ensures MergeByPriority(map["x" := Num(1)], map["0" := Str("a"), "1" := Str("b")], false)
      == map["x" := Num(1), "0" := Str("a"), "1" := Str("b")]
  {
    var hi := map["x" := Num(1)];
    var lo := map["0" := Str("a"), "1" := Str("b")];
    var r := MergeByPriority(hi, lo, false);
    MergeKey(hi, lo, false, "x");
    MergeKey(hi, lo, false, "0");
    MergeKey(hi, lo, false, "1");
    MergeKeys(hi, lo, false);
    assert r == map["x" := Num(1), "0" := Str("a"), "1" := Str("b")];
  }

  /**
   * deepMerge: the first loop writes the priority side's retained keys, the
   * second the other side's keys not yet written.
   */
  method DeepMerge(source: map<string, Value>, target: map<string, Value>, priority: Priority, nullish: bool)
      returns (clone: map<string, Value>)
    ensures clone == Merge(source, target, priority, nullish)
    decreases if priority == Source then Obj(source) else Obj(target)
  {
    var priorityOne := if priority == Source then source else target;
    var priorityTwo := if priority == Source then target else source;
    clone := map[];
    var todo := priorityOne.Keys;
    while todo != {}
      invariant todo <= priorityOne.Keys
      invariant forall key :: key in clone <==> key in priorityOne && key !in todo && Retained(priorityOne[key], nullish)
      invariant forall key | key in clone :: clone[key] == PriorityValue(priorityOne, priorityTwo, key, nullish)
      decreases todo
    {
      var key :| key in todo;
      todo := todo - {key};
      var v := priorityOne[key];
      if IsPrimitiveOrFunction(v, nullish) {
        clone := clone[key := v];
      } else if v.Obj? {
        var other := Counterpart(priorityTwo, key);
        var merged;
        if priority == Source {
          merged := DeepMerge(v.fields, other, priority, nullish);
        } else {
          merged := DeepMerge(other, v.fields, priority, nullish);
        }
        clone := clone[key := Obj(merged)];
      } else if v.Seq? {
        var copied := DeepCopyArray(v.items);
        clone := clone[key := Seq(copied)];
      }
    }
    ghost var first := clone;
    todo := priorityTwo.Keys;
    while todo != {}
      invariant todo <= priorityTwo.Keys
      invariant first.Keys <= clone.Keys
      invariant forall key :: key in clone <==>
        key in first || (key in priorityTwo && key !in todo && Retained(priorityTwo[key], nullish))
      invariant forall key | key in clone ::
        clone[key] == if key in first then first[key] else CopyValue(priorityTwo[key], nullish)
      decreases todo
    {
      var key :| key in todo;
      todo := todo - {key};
      if key !in clone {
        var v := priorityTwo[key];
        if IsPrimitiveOrFunction(v, nullish) {
          clone := clone[key := v];
        } else if v.Obj? {
          var copied := CopyObject(v.fields, nullish);
          clone := clone[key := Obj(copied)];
        } else if v.Seq? {
          var copied := DeepCopyArray(v.items);
          clone := clone[key := Seq(copied)];
        }
      }
    }
    MergeAssembled(priorityOne, priorityTwo, nullish, first, clone);
  }

  /** The maps the two loops of deepMerge build are, together, the merge. */
  lemma MergeAssembled(hi: map<string, Value>, lo: map<string, Value>, nullish: bool,
                       first: map<string, Value>, clone: map<string, Value>)
    requires forall key :: key in first <==> key in hi && Retained(hi[key], nullish)
    requires forall key | key in first :: first[key] == PriorityValue(hi, lo, key, nullish)
    requires forall key :: key in clone <==> key in first || (key in lo && Retained(lo[key], nullish))
    requires forall key | key in clone ::
      clone[key] == if key in first then first[key] else CopyValue(lo[key], nullish)
    ensures clone == MergeByPriority(hi, lo, nullish)
  {
    var r := MergeByPriority(hi, lo, nullish);
    forall key | key in r
      ensures key in clone && clone[key] == r[key]
    {
      MergeKey(hi, lo, nullish, key);
    }
    assert clone.Keys == r.Keys;
  }

  /**
   * `deepMerge({}, m, priority, nullish)` (the calls that copy a map only
   * one side holds, and the map elements of an array): one loop over the
   * keys of `m`.
   */
  method CopyObject(m: map<string, Value>, nullish: bool) returns (clone: map<string, Value>)
    ensures clone == CopyMap(m, nullish)
    decreases Obj(m)
  {
    clone := map[];
    var todo := m.Keys;
    while todo != {}
      invariant todo <= m.Keys
      invariant forall key :: key in clone <==> key in m && key !in todo && Retained(m[key], nullish)
      invariant forall key | key in clone :: clone[key] == CopyValue(m[key], nullish)
      decreases todo
    {
      var key :| key in todo;
      todo := todo - {key};
      var v := m[key];
      if IsPrimitiveOrFunction(v, nullish) {
        clone := clone[key := v];
      } else if v.Obj? {
        var copied := CopyObject(v.fields, nullish);
        clone := clone[key := Obj(copied)];
      } else if v.Seq? {
        var copied := DeepCopyArray(v.items);
        clone := clone[key := Seq(copied)];
      }
    }
  }

  /**
   * deepCopyArray: visits the indices in order and writes each retained
   * element at its own index (an empty slot or a nullish element writes
   * nothing).
   */
  method DeepCopyArray(source: seq<Value>) returns (clone: seq<Value>)
    ensures clone == CopyArray(source)
    decreases Seq(source)
  {
    var slots := ArraySlots(source);
    clone := [];
    var i := 0;
    while i < |source|
      invariant 0 <= i <= |source|
      invariant clone == TrimHoles(slots[..i])
    {
      var v := source[i];
      assert slots[..i + 1] == slots[..i] + [slots[i]];
      if IsPrimitiveOrFunction(v, false) {
        WriteAfterTrim(slots[..i], v);
        clone := WriteIndex(clone, i, v);
      } else if v.Obj? {
        var copied := CopyObject(v.fields, false);
        WriteAfterTrim(slots[..i], Obj(copied));
        clone := WriteIndex(clone, i, Obj(copied));
      } else if v.Seq? {
        var copied := DeepCopyArray(v.items);
        WriteAfterTrim(slots[..i], Seq(copied));
        clone := WriteIndex(clone, i, Seq(copied));
      } else {
        TrimHolesSkip(slots[..i]);
      }
      i := i + 1;
    }
    assert slots[..i] == slots;
  }
}
