/**
 * The values a hydrator moves between an array of data and an object.
 *
 * An object is seen through its fields only: a `Record` is an insertion-ordered list of
 * (field name, value) pairs, which is also how an associative array of data is seen.
 */
module Values {

  /**
   * A date-time value.  The calendar fields are what a formatter reads; `zone` is the
   * name of its time zone, and `immutable` tells the mutable and the immutable
   * date-time classes apart.
   */
  datatype DateTimeValue = DateTimeValue(
    year: int, month: nat, day: nat, secondOfDay: nat, zone: string, immutable: bool)

  datatype Value =
    | Null
    | Bool(b: bool)
    | Int(i: int)
    | Float(f: real)
    | Str(s: string)
    | Array(items: seq<Value>)
    | Object(className: string, properties: seq<(string, Value)>)
    | DateTime(d: DateTimeValue)
}

/**
 * Insertion-ordered associative arrays with string keys: a key is found at its first
 * occurrence, and assigning to a key overwrites it in place or appends it at the end.
 */
module Assoc {

  import opened Wrappers

  type Assoc<V> = seq<(string, V)>

  /** The keys in order. */
  function Keys<V>(a: Assoc<V>): (r: seq<string>)
    ensures |r| == |a|
    ensures forall i :: 0 <= i < |a| ==> r[i] == a[i].0
  {
    seq(|a|, i requires 0 <= i < |a| => a[i].0)
  }

  predicate UniqueKeys<V>(a: Assoc<V>) {
    forall i, j :: 0 <= i < j < |a| ==> a[i].0 != a[j].0
  }

  /** `$a[$key]`: the value at the first occurrence of `key`. */
  function Get<V>(a: Assoc<V>, key: string): (r: Option<V>)
    ensures r.None? <==> key !in Keys(a)
    ensures r.Some? ==> exists i :: 0 <= i < |a| && a[i] == (key, r.value)
    ensures UniqueKeys(a) ==> forall i :: 0 <= i < |a| && a[i].0 == key ==> r == Some(a[i].1)
  {
    if |a| == 0 then None
    else if a[0].0 == key then Some(a[0].1)
    else
      var r := Get(a[1..], key);
      assert forall i :: 1 <= i < |a| ==> a[1..][i - 1] == a[i];
      assert Keys(a) == [a[0].0] + Keys(a[1..]);
      r
  }

  /** `$a[$key] = $value`: overwrite in place when the key is present, append otherwise. */
  function Put<V>(a: Assoc<V>, key: string, value: V): (r: Assoc<V>)
    ensures Keys(r) == if key in Keys(a) then Keys(a) else Keys(a) + [key]
  {
    if |a| == 0 then [(key, value)]
    else if a[0].0 == key then
      assert Keys([(key, value)] + a[1..]) == Keys(a);
      [(key, value)] + a[1..]
    else
      var rest := Put(a[1..], key, value);
      assert Keys(a) == [a[0].0] + Keys(a[1..]);
      assert Keys([a[0]] + rest) == [a[0].0] + Keys(rest);
      [a[0]] + rest
  }

  /** After `Put`, the key holds the new value and every other key what it held before. */
  lemma {:induction false} PutGet<V>(a: Assoc<V>, key: string, value: V, other: string)
    ensures Get(Put(a, key, value), key) == Some(value)
    ensures other != key ==> Get(Put(a, key, value), other) == Get(a, other)
  {
    if |a| > 0 && a[0].0 != key {
      PutGet(a[1..], key, value, other);
      assert Put(a, key, value)[1..] == Put(a[1..], key, value);
    } else if |a| > 0 {
      assert Put(a, key, value)[1..] == a[1..];
    }
  }

  lemma PutKeepsKeysUnique<V>(a: Assoc<V>, key: string, value: V)
    requires UniqueKeys(a)
    ensures UniqueKeys(Put(a, key, value))
  {
    var r := Put(a, key, value);
    assert forall i :: 0 <= i < |r| ==> r[i].0 == Keys(r)[i];
    assert forall i :: 0 <= i < |a| ==> a[i].0 == Keys(a)[i];
  }
}
