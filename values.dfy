/**
 * The JSON-like values every operation walks, the value classifier of
 * src/utils.ts, and the JavaScript array-length rule that the copy loops
 * rely on.
 */
module Values {

  datatype Option<T> = None | Some(value: T)

  /**
   * One tagged value. `Num` carries an opaque token: numbers are only ever
   * copied, never computed with. `Fn` is an opaque function reference.
   * `Hole` is the empty slot of a sparse array: `for...in` never visits it,
   * and it never stands as the value of a map key in a tree JavaScript builds.
   */
  datatype Value =
    | Str(s: string)
    | Num(n: int)
    | Bool(b: bool)
    | Null
    | Undefined
    | Fn(id: nat)
    | Seq(items: seq<Value>)
    | Obj(fields: map<string, Value>)
    | Hole
  {
    /** `isPrimitive` of the validator package: string, number or boolean. */
    predicate IsPrimitive() { Str? || Num? || Bool? }

    /** `isNullish`: null or undefined. */
    predicate IsNullish() { Null? || Undefined? }
  }

  /**
   * isPrimitiveOrFunction (also imported under the name isSimpleType by the
   * clone and merge engines): primitives and functions always pass,
   * null/undefined pass exactly when `withNullish` holds, containers never.
   */
  function IsPrimitiveOrFunction(v: Value, withNullish: bool): (r: bool)
    ensures v.IsPrimitive() || v.Fn? ==> r
    ensures v.IsNullish() ==> (r <==> withNullish)
    ensures v.Seq? || v.Obj? || v.Hole? ==> !r
  {
    v.IsPrimitive() || v.Fn? || (v.IsNullish() && withNullish)
  }

  /**
   * True when a copy loop (`if simple ... else if isObject ... else if
   * isArray ...`) writes something for `v`; otherwise the key or index is
   * skipped.
   */
  predicate Retained(v: Value, nullish: bool)
  {
    IsPrimitiveOrFunction(v, nullish) || v.Obj? || v.Seq?
  }

  /** `n` empty array slots. */
  function Holes(n: nat): (r: seq<Value>)
    ensures |r| == n
    ensures forall i | 0 <= i < n :: r[i] == Hole
  {
    seq(n, _ => Hole)
  }

  /**
   * The array that results from writing slot by slot into `[]`: its length is
   * one past the last slot written, so slots left empty at the end do not
   * exist at all.
   */
  function TrimHoles(s: seq<Value>): (r: seq<Value>)
    ensures |r| <= |s| && r == s[..|r|]
    ensures r == [] || r[|r| - 1] != Hole
    ensures forall i | |r| <= i < |s| :: s[i] == Hole
  {
    if s == [] then []
    else if s[|s| - 1] == Hole then TrimHoles(s[..|s| - 1])
    else s
  }

  /** JavaScript's `arr[i] = x`: the array grows with empty slots if needed. */
  function WriteIndex(arr: seq<Value>, i: nat, x: Value): seq<Value>
  {
    if i < |arr| then arr[i := x] else arr + Holes(i - |arr|) + [x]
  }

  /** An empty slot appended after the last written one changes nothing. */
  lemma TrimHolesSkip(t: seq<Value>)
    ensures TrimHoles(t + [Hole]) == TrimHoles(t)
  {
    assert (t + [Hole])[..|t|] == t;
  }

  /** The trimmed prefix followed by the empty slots it dropped is the whole sequence. */
  lemma TrimPad(t: seq<Value>)
    ensures TrimHoles(t) + Holes(|t| - |TrimHoles(t)|) == t
  {
    var r := TrimHoles(t);
    var pad := Holes(|t| - |r|);
    forall i | 0 <= i < |t|
      ensures (r + pad)[i] == t[i]
    {
      if i >= |r| {
        assert pad[i - |r|] == Hole;
      }
    }
  }

  /**
   * Writing a non-empty value at index |t| into the trimmed prefix `t` gives
   * back exactly `t + [x]`: the loop writing slot by slot builds the trimmed
   * slot sequence.
   */
  lemma WriteAfterTrim(t: seq<Value>, x: Value)
    requires x != Hole
    ensures WriteIndex(TrimHoles(t), |t|, x) == TrimHoles(t + [x]) == t + [x]
  {
    TrimPad(t);
    WriteAtEnd(TrimHoles(t), |t|, x);
    TrimAppend(t, x);
  }

  lemma WriteAtEnd(arr: seq<Value>, n: nat, x: Value)
    requires |arr| <= n
    ensures WriteIndex(arr, n, x) == arr + Holes(n - |arr|) + [x]
  {
  }

  lemma TrimAppend(t: seq<Value>, x: Value)
    requires x != Hole
    ensures TrimHoles(t + [x]) == t + [x]
  {
    assert (t + [x])[|t|] == x;
  }

  /**
   * A tree as JavaScript builds it with plain literals: no `Hole` as the value
   * of a key, and no array ending in an empty slot.
   */
  predicate Canonical(v: Value)
  {
    match v
    case Seq(items) =>
      (items == [] || items[|items| - 1] != Hole) &&
      forall i | 0 <= i < |items| :: Canonical(items[i])
    case Obj(fields) =>
      forall k | k in fields :: fields[k] != Hole && Canonical(fields[k])
    case _ => true
  }

  /** No null or undefined anywhere in the tree. */
  predicate NullishFree(v: Value)
  {
    match v
    case Null => false
    case Undefined => false
    case Seq(items) => forall i | 0 <= i < |items| :: NullishFree(items[i])
    case Obj(fields) => forall k | k in fields :: NullishFree(fields[k])
    case _ => true
  }

  /** No array anywhere in the tree. */
  predicate SeqFree(v: Value)
  {
    match v
    case Seq(_) => false
    case Obj(fields) => forall k | k in fields :: SeqFree(fields[k])
    case _ => true
  }

  /**
   * `r` is `v` with some map entries removed and some array slots emptied (or
   * cut from the end), at every depth; nothing is added or altered.
   */
  predicate Pruned(r: Value, v: Value)
  {
    match v
    case Obj(fields) =>
      r.Obj? && r.fields.Keys <= fields.Keys &&
      forall k | k in r.fields :: Pruned(r.fields[k], fields[k])
    case Seq(items) =>
      r.Seq? && |r.items| <= |items| &&
      forall i | 0 <= i < |r.items| :: r.items[i] == Hole || Pruned(r.items[i], items[i])
    case _ => r == v
  }
}
