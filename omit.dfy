/** First-level key exclusion with an optional deep copy: src/omit.ts. */
module OmitKeys {
  import opened Values
  import opened PickKeys
  import Deep

  /**
   * The reduce: each enumerated key that is not listed is spread into the
   * accumulated obj with its value.
   */
  function OmitFold(obj: map<string, Value>, keys: seq<string>, order: seq<string>): (r: map<string, Value>)
    requires forall i | 0 <= i < |order| :: order[i] in obj
    ensures forall key :: key in r <==> key in order && key !in keys
    ensures forall key | key in r :: r[key] == obj[key]
    decreases |order|
  {
    if order == [] then map[]
    else
      var now := order[|order| - 1];
      var previous := OmitFold(obj, keys, order[..|order| - 1]);
      assert order == order[..|order| - 1] + [now];
      if now in keys then previous else previous[now := obj[now]]
  }

  /**
   * omit: the object's keys that are not listed (listed keys it lacks are
   * ignored), with the original values; with `deep`, `deepMerge(omitted, {})`
   * instead, which copies containers and drops null and undefined entries.
   */
  function Omit(obj: map<string, Value>, exclude: Keys, order: seq<string>, deep: bool): (r: map<string, Value>)
    requires Enumerates(order, obj)
    ensures !deep ==> forall key :: key in r <==> key in obj && key !in KeyList(exclude)
    ensures !deep ==> forall key | key in r :: r[key] == obj[key]
    ensures deep ==> forall key | key in r :: key in obj && key !in KeyList(exclude) && Retained(obj[key], false)
    ensures deep ==> forall key | key in obj && key !in KeyList(exclude) && Retained(obj[key], false) ::
      key in r && r[key] == Deep.CopyValue(obj[key], false)
  {
    var omitted := OmitFold(obj, KeyList(exclude), order);
    if deep then
      Deep.MergeWithEmpty(omitted, Deep.Source, false);
      Deep.Merge(omitted, map[], Deep.Source, false)
    else omitted
  }

  /** With `deep`, no null or undefined remains anywhere in the result. */
  lemma OmitDeepNullishFree(obj: map<string, Value>, exclude: Keys, order: seq<string>)
    requires Enumerates(order, obj)
    ensures NullishFree(Obj(Omit(obj, exclude, order, true)))
  {
    var omitted := OmitFold(obj, KeyList(exclude), order);
    Deep.MergeWithEmpty(omitted, Deep.Source, false);
    Deep.MergeNullishFree(omitted, map[]);
  }

  /** A single key behaves as the list holding only that key. */
  lemma OmitOneIsList(obj: map<string, Value>, key: string, order: seq<string>, deep: bool)
    requires Enumerates(order, obj)
    ensures Omit(obj, One(key), order, deep) == Omit(obj, Many([key]), order, deep)
  {
  }

  /** pick and omit with the same keys split the object: disjoint keys whose union rebuilds it. */
  lemma PickOmitPartition(obj: map<string, Value>, keys: Keys, order: seq<string>)
    requires Enumerates(order, obj)
    ensures Pick(obj, keys, order).Keys !! Omit(obj, keys, order, false).Keys
    ensures Pick(obj, keys, order) + Omit(obj, keys, order, false) == obj
  {
    var p := Pick(obj, keys, order);
    var o := Omit(obj, keys, order, false);
    assert (p + o).Keys == obj.Keys;
  }
}
