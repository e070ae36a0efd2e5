/** Deep copy of a map or an array with the nullish switch: src/clone.ts. */
module Clone {
  import opened Values
  import Deep

  /**
   * What deepClone writes for one element: a simple value as it is, a clone
   * of a map or an array (with the same flag), and nothing otherwise.
   */
  function CloneValue(v: Value, nullish: bool): Value
    decreases v, 2
  {
    if IsPrimitiveOrFunction(v, nullish) then v
    else if v.Obj? then Obj(CloneMap(v.fields, nullish))
    else if v.Seq? then Seq(CloneArray(v.items, nullish))
    else Hole
  }

  /** deepClone of a map: its retained keys, each cloned. */
  function CloneMap(m: map<string, Value>, nullish: bool): map<string, Value>
    decreases Obj(m), 1
  {
    map key | key in m && Retained(m[key], nullish) :: CloneValue(m[key], nullish)
  }

  /** The slot deepClone writes at each index of an array (`Hole` where it writes nothing). */
  function CloneSlots(s: seq<Value>, nullish: bool): (r: seq<Value>)
    ensures |r| == |s|
    ensures forall i | 0 <= i < |s| :: r[i] == CloneValue(s[i], nullish)
    decreases Seq(s), 0
  {
    seq(|s|, i requires 0 <= i < |s| => CloneValue(s[i], nullish))
  }

  /**
   * deepClone of an array: every element keeps its index, an element that is
   * dropped leaves an empty slot, and empty slots at the end do not exist.
   */
  function CloneArray(s: seq<Value>, nullish: bool): (r: seq<Value>)
    ensures |r| <= |s|
    ensures forall i | 0 <= i < |r| :: r[i] == CloneValue(s[i], nullish)
    ensures forall i | |r| <= i < |s| :: CloneValue(s[i], nullish) == Hole
    ensures r == [] || r[|r| - 1] != Hole
    decreases Seq(s), 1
  {
    TrimHoles(CloneSlots(s, nullish))
  }

  /**
   * deepClone of the value it is given: an array for an array, a map
   * otherwise. for...in over a string enumerates its indices, each holding
   * a one-character string; over a number, a boolean, null, undefined or a
   * function it enumerates nothing, so those give an empty map.
   */
  function Clone(obj: Value, nullish: bool): (r: Value)
    ensures r.Seq? <==> obj.Seq?
    ensures r.Obj? <==> !obj.Seq?
    ensures obj.Seq? ==> |r.items| <= |obj.items|
    ensures obj.Obj? ==> r.fields.Keys <= obj.fields.Keys
  {
    if obj.Seq? then Seq(CloneArray(obj.items, nullish))
    else if obj.Obj? then Obj(CloneMap(obj.fields, nullish))
    else if obj.Str? then Obj(CloneMap(Deep.StringEntries(obj.s), nullish))
    else Obj(map[])
  }

  /**
   * Non-nullish atoms (false, 0 and "" among them) are always kept; null and
   * undefined are kept exactly with `nullish`; every container is kept.
   */
  lemma CloneKeys(m: map<string, Value>, nullish: bool)
    ensures var r := CloneMap(m, nullish);
      && (forall key | key in r :: key in m)
      && (forall key | key in m && (m[key].IsPrimitive() || m[key].Fn?) :: key in r && r[key] == m[key])
      && (forall key | key in m && m[key].IsNullish() :: key in r <==> nullish)
      && (forall key | key in m && (m[key].Obj? || m[key].Seq?) :: key in r)
  {
  }

  /** A clone never holds an empty slot as a map value, nor an array ending in one. */
  lemma {:induction false} CloneCanonical(v: Value, nullish: bool)
    ensures Canonical(CloneValue(v, nullish))
    decreases v
  {
    match v
    case Obj(fields) =>
      var c := CloneMap(fields, nullish);
      forall key | key in c
        ensures c[key] != Hole && Canonical(c[key])
      {
        CloneCanonical(fields[key], nullish);
      }
    case Seq(items) =>
      var c := CloneArray(items, nullish);
      forall i | 0 <= i < |c|
        ensures Canonical(c[i])
      {
        CloneCanonical(items[i], nullish);
      }
    case _ =>
  }

  /** Without `nullish`, no map and no array of the clone holds null or undefined at any depth. */
  lemma {:induction false} CloneNullishFree(v: Value)
    ensures NullishFree(CloneValue(v, false))
    decreases v
  {
    match v
    case Obj(fields) =>
      var c := CloneMap(fields, false);
      forall key | key in c
        ensures NullishFree(c[key])
      {
        CloneNullishFree(fields[key]);
      }
    case Seq(items) =>
      var c := CloneArray(items, false);
      forall i | 0 <= i < |c|
        ensures NullishFree(c[i])
      {
        CloneNullishFree(items[i]);
      }
    case _ =>
  }

  /** At every depth the clone's keys are among the input's, and its values come from the input. */
  lemma {:induction false} ClonePruned(v: Value, nullish: bool)
    requires Retained(v, nullish)
    ensures Pruned(CloneValue(v, nullish), v)
    decreases v
  {
    match v
    case Obj(fields) =>
      forall key | key in CloneMap(fields, nullish) {
        ClonePruned(fields[key], nullish);
      }
    case Seq(items) =>
      var c := CloneArray(items, nullish);
      forall i | 0 <= i < |c| && c[i] != Hole
        ensures Pruned(c[i], items[i])
      {
        ClonePruned(items[i], nullish);
      }
    case _ =>
  }

  /**
   * A tree as JavaScript builds it is cloned to an equal tree with `nullish`
   * (the default), and so is one without null or undefined for either flag.
   */
  lemma {:induction false} CloneIdentity(v: Value, nullish: bool)
    requires Canonical(v) && !v.Hole? && (nullish || NullishFree(v))
    ensures CloneValue(v, nullish) == v
    decreases v
  {
    match v
    case Obj(fields) =>
      var c := CloneMap(fields, nullish);
      forall key | key in fields
        ensures key in c && c[key] == fields[key]
      {
        CloneIdentity(fields[key], nullish);
      }
      assert c == fields;
    case Seq(items) =>
      var slots := CloneSlots(items, nullish);
      forall i | 0 <= i < |items|
        ensures slots[i] == items[i]
      {
        if !items[i].Hole? {
          CloneIdentity(items[i], nullish);
        }
      }
      assert slots == items;
    case _ =>
  }

  /** The same identity for the entry point: deepClone(obj) equals obj. */
  lemma CloneOfCanonical(obj: Value)
    requires obj.Obj? || obj.Seq?
    requires Canonical(obj)
    ensures Clone(obj, true) == obj
  {
    CloneIdentity(obj, true);
  }

  /** Cloning a clone with the same flag changes nothing. */
  lemma CloneIdempotent(obj: Value, nullish: bool)
    ensures Clone(Clone(obj, nullish), nullish) == Clone(obj, nullish)
  {
    var source := if obj.Str? then Obj(Deep.StringEntries(obj.s)) else obj;
    var c := Clone(obj, nullish);
    if source.Obj? || source.Seq? {
      assert c == CloneValue(source, nullish);
      CloneCanonical(source, nullish);
      if !nullish {
        CloneNullishFree(source);
      }
      CloneIdentity(c, nullish);
    }
  }

  /**
   * The copy deep.ts makes of a map with `nullish` off (and of every array)
   * is deepClone with `nullish` off.
   */
  lemma {:induction false} CopyIsClone(v: Value)
    ensures Deep.CopyValue(v, false) == CloneValue(v, false)
    decreases v
  {
    match v
    case Obj(fields) =>
      var d := Deep.CopyMap(fields, false);
      var c := CloneMap(fields, false);
      forall key | key in d
        ensures key in c && d[key] == c[key]
      {
        CopyIsClone(fields[key]);
      }
      assert d.Keys == c.Keys;
    case Seq(items) =>
      var d := Deep.ArraySlots(items);
      var c := CloneSlots(items, false);
      forall i | 0 <= i < |items|
        ensures d[i] == c[i]
      {
        CopyIsClone(items[i]);
      }
      assert d == c;
    case _ =>
  }

  /**
   * deepClone: a fresh array or map, filled by one for...in loop over the
   * indices or the keys of `obj`.
   */
  method DeepClone(obj: Value, nullish: bool) returns (clone: Value)
    ensures clone == Clone(obj, nullish)
    ensures clone.Seq? <==> obj.Seq?
    ensures !clone.Seq? ==> clone.Obj?
    decreases if obj.Str? then 1 else 0, obj, 1
  {
    if obj.Seq? {
      var items := CloneItems(obj.items, nullish);
      clone := Seq(items);
    } else if obj.Obj? {
      var fields := CloneFields(obj.fields, nullish);
      clone := Obj(fields);
    } else if obj.Str? {
      var fields := CloneFields(Deep.StringEntries(obj.s), nullish);
      clone := Obj(fields);
    } else {
      clone := Obj(map[]);
    }
  }

  /** The loop of deepClone over the indices of an array. */
  method CloneItems(source: seq<Value>, nullish: bool) returns (items: seq<Value>)
    ensures items == CloneArray(source, nullish)
    decreases 0, Seq(source), 0
  {
    ghost var slots := CloneSlots(source, nullish);
    items := [];
    var i := 0;
    while i < |source|
      invariant 0 <= i <= |source|
      invariant items == TrimHoles(slots[..i])
    {
      var v := source[i];
      assert slots[..i + 1] == slots[..i] + [slots[i]];
      if IsPrimitiveOrFunction(v, nullish) {
        WriteAfterTrim(slots[..i], v);
        items := WriteIndex(items, i, v);
      } else if v.Obj? {
        var copied := DeepClone(v, nullish);
        WriteAfterTrim(slots[..i], copied);
        items := WriteIndex(items, i, copied);
      } else if v.Seq? {
        var copied := DeepClone(v, nullish);
        WriteAfterTrim(slots[..i], copied);
        items := WriteIndex(items, i, copied);
      } else {
        TrimHolesSkip(slots[..i]);
      }
      i := i + 1;
    }
    assert slots[..i] == slots;
  }

  /** The loop of deepClone over the keys of a map. */
  method CloneFields(source: map<string, Value>, nullish: bool) returns (fields: map<string, Value>)
    ensures fields == CloneMap(source, nullish)
    decreases 0, Obj(source), 0
  {
    fields := map[];
    var todo := source.Keys;
    while todo != {}
      invariant todo <= source.Keys
      invariant forall key :: key in fields <==> key in source && key !in todo && Retained(source[key], nullish)
      invariant forall key | key in fields :: fields[key] == CloneValue(source[key], nullish)
      decreases todo
    {
      var key :| key in todo;
      todo := todo - {key};
      var v := source[key];
      if IsPrimitiveOrFunction(v, nullish) {
        fields := fields[key := v];
      } else if v.Obj? {
        var copied := DeepClone(v, nullish);
        fields := fields[key := copied];
      } else if v.Seq? {
        var copied := DeepClone(v, nullish);
        fields := fields[key := copied];
      }
    }
  }

  /** deepCopyArray of clone.ts: deepClone applied to an array. */
  method DeepCopyArray(source: seq<Value>, nullish: bool) returns (clone: seq<Value>)
    ensures clone == CloneArray(source, nullish)
  {
    var copied := DeepClone(Seq(source), nullish);
    clone := copied.items;
  }
}
