/** First-level key selection: src/pick.ts. */
module PickKeys {
  import opened Values

  /** The key argument of pick and omit: one key, or a list of keys. */
  datatype Keys = One(key: string) | Many(keys: seq<string>)

  /** `Array.isArray(pick) ? pick : [pick]` */
  function KeyList(k: Keys): seq<string>
  {
    match k
    case One(key) => [key]
    case Many(keys) => keys
  }

  /**
   * `order` is what `Object.keys(object)` returns: the object's own keys, in
   * the engine's enumeration order.
   */
  predicate Enumerates(order: seq<string>, obj: map<string, Value>)
  {
    (forall i | 0 <= i < |order| :: order[i] in obj) &&
    (forall key | key in obj :: key in order)
  }

  /**
   * The reduce: each enumerated key that is listed is spread into the
   * accumulated obj with its value.
   */
  function PickFold(obj: map<string, Value>, keys: seq<string>, order: seq<string>): (r: map<string, Value>)
    requires forall i | 0 <= i < |order| :: order[i] in obj
    ensures forall key :: key in r <==> key in order && key in keys
    ensures forall key | key in r :: r[key] == obj[key]
    decreases |order|
  {
    if order == [] then map[]
    else
      var now := order[|order| - 1];
      var previous := PickFold(obj, keys, order[..|order| - 1]);
      assert order == order[..|order| - 1] + [now];
      if now in keys then previous[now := obj[now]] else previous
  }

  /**
   * pick: exactly the object's keys that are listed (listed keys the object
   * lacks contribute nothing), each with the original value, not a copy.
   */
  function Pick(obj: map<string, Value>, pick: Keys, order: seq<string>): (r: map<string, Value>)
    requires Enumerates(order, obj)
    ensures forall key :: key in r <==> key in obj && key in KeyList(pick)
    ensures forall key | key in r :: r[key] == obj[key]
  {
    PickFold(obj, KeyList(pick), order)
  }

  /** The enumeration order does not matter. */
  lemma PickOrderIrrelevant(obj: map<string, Value>, pick: Keys, order: seq<string>, other: seq<string>)
    requires Enumerates(order, obj) && Enumerates(other, obj)
    ensures Pick(obj, pick, order) == Pick(obj, pick, other)
  {
    var r := Pick(obj, pick, order);
    var s := Pick(obj, pick, other);
    assert r.Keys == s.Keys;
  }

  /** A single key behaves as the list holding only that key. */
  lemma PickOneIsList(obj: map<string, Value>, key: string, order: seq<string>)
    requires Enumerates(order, obj)
    ensures Pick(obj, One(key), order) == Pick(obj, Many([key]), order)
    ensures Pick(obj, One(key), order) == if key in obj then map[key := obj[key]] else map[]
  {
    var r := Pick(obj, One(key), order);
    if key in obj {
      assert r.Keys == {key};
    } else {
      assert r.Keys == {};
    }
  }
}
