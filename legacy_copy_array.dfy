/** The array copy that goes with the older merge: src/deep-copy-array.ts. */
module LegacyCopyArray {
  import opened Values
  import LegacyMerge
  import Deep

  /**
   * What deepCopyArray writes at one index: a non-nullish simple value as it
   * is, a map through `merge({}, x, "source", false)`, a nested array
   * through deepCopyArray, and nothing otherwise.
   */
  function CopySlot(v: Value): Value
    decreases v, 2
  {
    if LegacyMerge.IsSimpleType(v, false) then v
    else if v.Obj? then Obj(LegacyMerge.CopyMap(v.fields, false))
    else if v.Seq? then Seq(CopyArray(v.items))
    else Hole
  }

  function Slots(s: seq<Value>): (r: seq<Value>)
    ensures |r| == |s|
    ensures forall i | 0 <= i < |s| :: r[i] == CopySlot(s[i])
    decreases Seq(s), 0
  {
    seq(|s|, i requires 0 <= i < |s| => CopySlot(s[i]))
  }

  /**
   * deepCopyArray: every element keeps its index; null and undefined leave
   * empty slots and later elements are not shifted; empty slots at the end
   * do not exist.
   */
  function CopyArray(s: seq<Value>): (r: seq<Value>)
    ensures |r| <= |s|
    ensures forall i | 0 <= i < |r| :: r[i] == CopySlot(s[i])
    ensures forall i | |r| <= i < |s| :: CopySlot(s[i]) == Hole
    ensures r == [] || r[|r| - 1] != Hole
    decreases Seq(s), 1
  {
    TrimHoles(Slots(s))
  }

  /**
   * Per index: a non-nullish atom stays where it was, a null or undefined
   * leaves that slot empty, a nested array is copied in place.
   */
  lemma CopyKeepsIndices(s: seq<Value>, i: nat)
    requires i < |s|
    ensures s[i].IsPrimitive() || s[i].Fn? ==> i < |CopyArray(s)| && CopyArray(s)[i] == s[i]
    ensures s[i].IsNullish() ==> i >= |CopyArray(s)| || CopyArray(s)[i] == Hole
    ensures s[i].Seq? ==> i < |CopyArray(s)| && CopyArray(s)[i] == Seq(CopyArray(s[i].items))
  {
  }

  /** The maps inside the copy hold neither arrays nor null or undefined. */
  lemma {:induction false} MapElementsPruned(m: map<string, Value>)
    ensures SeqFree(Obj(LegacyMerge.CopyMap(m, false)))
    ensures NullishFree(Obj(LegacyMerge.CopyMap(m, false)))
    decreases Obj(m)
  {
    var c := LegacyMerge.CopyMap(m, false);
    forall key | key in c
      ensures SeqFree(c[key]) && NullishFree(c[key])
    {
      assert c[key] == LegacyMerge.CopyValue(m[key], false);
      if m[key].Obj? {
        MapElementsPruned(m[key].fields);
      }
    }
  }

  /**
   * What the copy reproduces exactly: arrays without null or undefined
   * elements (nested arrays alike) whose maps hold no arrays and no null or
   * undefined.
   */
  predicate Copyable(v: Value)
  {
    match v
    case Seq(items) => forall i | 0 <= i < |items| :: !items[i].IsNullish() && Copyable(items[i])
    case Obj(_) => SeqFree(v) && NullishFree(v)
    case _ => true
  }

  lemma {:induction false} MapCopyIdentity(m: map<string, Value>)
    requires SeqFree(Obj(m)) && NullishFree(Obj(m)) && Canonical(Obj(m))
    ensures LegacyMerge.CopyMap(m, false) == m
    decreases Obj(m)
  {
    var c := LegacyMerge.CopyMap(m, false);
    forall key | key in m
      ensures key in c && c[key] == m[key]
    {
      assert m[key] != Hole;
      assert key in c && c[key] == LegacyMerge.CopyValue(m[key], false);
      if m[key].Obj? {
        MapCopyIdentity(m[key].fields);
      }
    }
    assert c == m;
  }

  /** Such an array is copied to an equal array. */
  lemma {:induction false} CopyIdentity(s: seq<Value>)
    requires Copyable(Seq(s)) && Canonical(Seq(s))
    ensures CopyArray(s) == s
    decreases Seq(s)
  {
    var slots := Slots(s);
    forall i | 0 <= i < |s|
      ensures slots[i] == s[i]
    {
      assert Canonical(s[i]) && Copyable(s[i]);
      if s[i].Obj? {
        MapCopyIdentity(s[i].fields);
      } else if s[i].Seq? {
        CopyIdentity(s[i].items);
      }
    }
    assert slots == s;
  }

  /**
   * deepCopyArray: visits the indices in order and writes each kept element
   * at its own index.
   */
  method DeepCopyArray(source: seq<Value>) returns (clone: seq<Value>)
    ensures clone == CopyArray(source)
    decreases Seq(source)
  {
    ghost var slots := Slots(source);
    clone := [];
    var i := 0;
    while i < |source|
      invariant 0 <= i <= |source|
      invariant clone == TrimHoles(slots[..i])
    {
      var v := source[i];
      assert slots[..i + 1] == slots[..i] + [slots[i]];
      if LegacyMerge.IsSimpleType(v, false) {
        WriteAfterTrim(slots[..i], v);
        clone := WriteIndex(clone, i, v);
      } else if v.Obj? {
        LegacyMerge.MergeWithEmpty(v.fields, Deep.Source, false);
        var copied := LegacyMerge.Merge(map[], v.fields, Deep.Source, false);
        WriteAfterTrim(slots[..i], Obj(copied));
        clone := WriteIndex(clone, i, Obj(copied));
      } else if v.Seq? {
        var copied := DeepCopyArray(v.items);
        WriteAfterTrim(slots[..i], Seq(copied));
        clone := WriteIndex(clone, i, Seq(copied));
      } else {
        TrimHolesSkip(slots[..i]);
      }
      i := i + 1;
    }
    assert slots[..i] == slots;
  }
}
