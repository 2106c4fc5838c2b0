/**
 * Value strategies: per-field converters a hydrator applies to values on their way in
 * (`hydrate`, which may raise) and on their way out (`extract`).
 */
module Strategies {

  import opened Wrappers
  import opened Values

  /** The exceptions a value strategy may raise. */
  datatype StrategyError =
    | InvalidArgument(rejected: Value)
    | UnparseableDateTime(text: string)

  datatype ValueStrategy = ValueStrategy(hydrate: Value -> Result<Value, StrategyError>, extract: Value -> Value)
}

/**
 * A hydrator: copies the entries of an array of data onto an object (`Hydrate`) and the
 * fields of an object into an array of data (`Extract`).  Names are translated by the
 * naming strategy, and values by the value strategy registered under the TRANSLATED name,
 * in both directions.
 */
module Hydration {

  import opened Wrappers
  import opened Values
  import opened Assoc
  import opened Strategies
  import opened Naming

  datatype Hydrator = Hydrator(naming: NamingStrategy, strategies: map<string, ValueStrategy>)

  /** The name a data key is stored under on the object. */
  function HydrateName(h: Hydrator, key: string): string {
    h.naming.hydrateName(key)
  }

  /** The key a field is stored under in the data. */
  function ExtractName(h: Hydrator, field: string): string {
    h.naming.extractName(field)
  }

  /** `hydrateValue`: the strategy registered under `name` converts the value, if there is one. */
  function HydrateValue(h: Hydrator, name: string, value: Value): Result<Value, StrategyError> {
    if name in h.strategies then h.strategies[name].hydrate(value) else Success(value)
  }

  /** `extractValue`: the strategy registered under `name` converts the value, if there is one. */
  function ExtractValue(h: Hydrator, name: string, value: Value): Value {
    if name in h.strategies then h.strategies[name].extract(value) else value
  }

  /** A fresh hydrator: no naming strategy and no value strategies, so nothing is converted. */
  function New(): (h: Hydrator)
    ensures forall name :: HydrateName(h, name) == name && ExtractName(h, name) == name
    ensures forall name, v :: HydrateValue(h, name, v) == Success(v)
    ensures forall name, v :: ExtractValue(h, name, v) == v
  {
    Hydrator(Identity(), map[])
  }

  /** `setNamingStrategy`: names are translated by `n` from now on; value strategies stay. */
  function SetNamingStrategy(h: Hydrator, n: NamingStrategy): (r: Hydrator)
    ensures forall key :: HydrateName(r, key) == n.hydrateName(key) && ExtractName(r, key) == n.extractName(key)
    ensures forall name, v :: HydrateValue(r, name, v) == HydrateValue(h, name, v)
    ensures forall name, v :: ExtractValue(r, name, v) == ExtractValue(h, name, v)
  {
    h.(naming := n)
  }

  /** `addStrategy`: `s` converts the values stored under `name`; a previous registration is replaced. */
  function AddStrategy(h: Hydrator, name: string, s: ValueStrategy): (r: Hydrator)
    ensures HasStrategy(r, name)
    ensures forall v :: HydrateValue(r, name, v) == s.hydrate(v) && ExtractValue(r, name, v) == s.extract(v)
    ensures forall other, v :: other != name ==> HydrateValue(r, other, v) == HydrateValue(h, other, v)
    ensures forall other, v :: other != name ==> ExtractValue(r, other, v) == ExtractValue(h, other, v)
    ensures r.naming == h.naming
  {
    h.(strategies := h.strategies[name := s])
  }

  predicate HasStrategy(h: Hydrator, name: string) {
    name in h.strategies
  }

  /**
   * `hydrate`: the data entries in order; each value is converted under its translated
   * name and written to the object's field of that name.  The first strategy that raises
   * ends the call.  The fields the object already had keep their order, and the new ones
   * follow, so the target is extended rather than replaced.
   */
  function Hydrate(h: Hydrator, data: Assoc<Value>, target: Assoc<Value>): (r: Result<Assoc<Value>, StrategyError>)
    ensures r.Success? ==> Keys(target) <= Keys(r.value)
    decreases |data|
  {
    if |data| == 0 then Success(target)
    else
      var name := HydrateName(h, data[0].0);
      var value :- HydrateValue(h, name, data[0].1);
      Hydrate(h, data[1..], Put(target, name, value))
  }

  /** Hydration writes each field in place: an object without duplicate fields gets none. */
  lemma {:induction false} HydrateKeepsKeysUnique(h: Hydrator, data: Assoc<Value>, target: Assoc<Value>)
    requires UniqueKeys(target)
    requires Hydrate(h, data, target).Success?
    ensures UniqueKeys(Hydrate(h, data, target).value)
    decreases |data|
  {
    if |data| > 0 {
      var name := HydrateName(h, data[0].0);
      var value := HydrateValue(h, name, data[0].1).value;
      PutKeepsKeysUnique(target, name, value);
      HydrateKeepsKeysUnique(h, data[1..], Put(target, name, value));
    }
  }

  /** The field the `i`th data entry is written to. */
  function TargetOf(h: Hydrator, data: Assoc<Value>, i: nat): string
    requires i < |data|
  {
    HydrateName(h, data[i].0)
  }

  /** The `i`th data entry's value, converted for its field. */
  function ConvertedAt(h: Hydrator, data: Assoc<Value>, i: nat): Result<Value, StrategyError>
    requires i < |data|
  {
    HydrateValue(h, TargetOf(h, data, i), data[i].1)
  }

  /** No later entry of `data` writes to the same field as entry `i`. */
  predicate LastWriteAt(h: Hydrator, data: Assoc<Value>, i: nat)
    requires i < |data|
  {
    forall j :: i < j < |data| ==> TargetOf(h, data, j) != TargetOf(h, data, i)
  }

  /** Hydration fails exactly when some entry's strategy raises, and with the first such error. */
  lemma {:induction false} HydrateFailure(h: Hydrator, data: Assoc<Value>, target: Assoc<Value>)
    ensures Hydrate(h, data, target).Failure? <==> exists i :: 0 <= i < |data| && ConvertedAt(h, data, i).Failure?
    ensures Hydrate(h, data, target).Failure? ==>
      exists i :: 0 <= i < |data| && ConvertedAt(h, data, i) == Failure(Hydrate(h, data, target).error)
        && forall j :: 0 <= j < i ==> ConvertedAt(h, data, j).Success?
    decreases |data|
  {
    if |data| > 0 {
      var name := TargetOf(h, data, 0);
      var c := ConvertedAt(h, data, 0);
      if c.Success? {
        var tail := data[1..];
        HydrateFailure(h, tail, Put(target, name, c.value));
        assert forall i :: 0 <= i < |tail| ==> ConvertedAt(h, tail, i) == ConvertedAt(h, data, i + 1);
        if Hydrate(h, data, target).Failure? {
          var i :| 0 <= i < |tail| && ConvertedAt(h, tail, i) == Failure(Hydrate(h, data, target).error)
            && forall j :: 0 <= j < i ==> ConvertedAt(h, tail, j).Success?;
          assert forall j :: 1 <= j < i + 1 ==> ConvertedAt(h, data, j) == ConvertedAt(h, tail, j - 1);
          assert ConvertedAt(h, data, i + 1) == Failure(Hydrate(h, data, target).error);
        } else {
          forall i | 0 <= i < |data|
            ensures ConvertedAt(h, data, i).Success?
          {
            if i > 0 {
              assert ConvertedAt(h, data, i) == ConvertedAt(h, tail, i - 1);
            }
          }
        }
      }
    }
  }

  /** A successful hydration leaves every field that no entry is written to as it was. */
  lemma {:induction false} HydrateKeepsUntouched(h: Hydrator, data: Assoc<Value>, target: Assoc<Value>, field: string)
    requires Hydrate(h, data, target).Success?
    requires forall i :: 0 <= i < |data| ==> TargetOf(h, data, i) != field
    ensures Get(Hydrate(h, data, target).value, field) == Get(target, field)
    decreases |data|
  {
    if |data| > 0 {
      var name := TargetOf(h, data, 0);
      var c := ConvertedAt(h, data, 0);
      assert c.Success?;
      HydrateStep(h, data, target);
      var tail := data[1..];
      assert forall i :: 0 <= i < |tail| ==> TargetOf(h, tail, i) == TargetOf(h, data, i + 1);
      HydrateKeepsUntouched(h, tail, Put(target, name, c.value), field);
      PutGet(target, name, c.value, field);
    }
  }

  /** The first entry, when no later entry writes to its field, decides what that field holds. */
  lemma HydrateFirstWriteLast(h: Hydrator, data: Assoc<Value>, target: Assoc<Value>)
    requires Hydrate(h, data, target).Success?
    requires 0 < |data| && LastWriteAt(h, data, 0)
    ensures ConvertedAt(h, data, 0).Success?
    ensures Get(Hydrate(h, data, target).value, TargetOf(h, data, 0)) == Some(ConvertedAt(h, data, 0).value)
  {
    var name := TargetOf(h, data, 0);
    var c := ConvertedAt(h, data, 0);
    assert c.Success?;
    HydrateStep(h, data, target);
    var tail := data[1..];
    assert forall j :: 0 <= j < |tail| ==> TargetOf(h, tail, j) == TargetOf(h, data, j + 1);
    HydrateKeepsUntouched(h, tail, Put(target, name, c.value), name);
    PutGet(target, name, c.value, name);
  }

  /**
   * A successful hydration writes each entry's converted value to its field, and the last
   * entry written to a field decides what the field holds.
   */
  lemma {:induction false} HydrateLastWriteWins(h: Hydrator, data: Assoc<Value>, target: Assoc<Value>, i: nat)
    requires Hydrate(h, data, target).Success?
    requires i < |data| && LastWriteAt(h, data, i)
    ensures ConvertedAt(h, data, i).Success?
    ensures Get(Hydrate(h, data, target).value, TargetOf(h, data, i)) == Some(ConvertedAt(h, data, i).value)
    decreases |data|
  {
    if i == 0 {
      HydrateFirstWriteLast(h, data, target);
    } else {
      var c := ConvertedAt(h, data, 0);
      assert c.Success?;
      HydrateStep(h, data, target);
      LastWriteInTail(h, data, i);
      HydrateLastWriteWins(h, data[1..], Put(target, TargetOf(h, data, 0), c.value), i - 1);
    }
  }

  /** Entry `i` of `data` is entry `i - 1` of its tail, and still the last write to its field there. */
  lemma LastWriteInTail(h: Hydrator, data: Assoc<Value>, i: nat)
    requires 0 < i < |data| && LastWriteAt(h, data, i)
    ensures TargetOf(h, data[1..], i - 1) == TargetOf(h, data, i)
    ensures ConvertedAt(h, data[1..], i - 1) == ConvertedAt(h, data, i)
    ensures LastWriteAt(h, data[1..], i - 1)
  {
    var tail := data[1..];
    forall j | i - 1 < j < |tail|
      ensures TargetOf(h, tail, j) != TargetOf(h, tail, i - 1)
    {
      assert TargetOf(h, tail, j) == TargetOf(h, data, j + 1);
    }
  }

  /**
   * `extract`: the object's fields in order; each is stored under its translated name,
   * its value converted by the strategy registered under that translated name.
   */
  function Extract(h: Hydrator, source: Assoc<Value>): (r: Assoc<Value>)
    ensures |r| <= |source|
  {
    ExtractInto(h, source, [])
  }

  function ExtractInto(h: Hydrator, fields: Assoc<Value>, acc: Assoc<Value>): (r: Assoc<Value>)
    ensures |r| <= |acc| + |fields|
    decreases |fields|
  {
    if |fields| == 0 then acc
    else
      var name := ExtractName(h, fields[0].0);
      var next := Put(acc, name, ExtractValue(h, name, fields[0].1));
      assert |Keys(next)| <= |Keys(acc)| + 1;
      ExtractInto(h, fields[1..], next)
  }

  /** The data entry extraction makes of one field. */
  function ExtractedEntry(h: Hydrator, field: (string, Value)): (string, Value) {
    var name := ExtractName(h, field.0);
    (name, ExtractValue(h, name, field.1))
  }

  /** The entries of `fields` as extraction makes them, one per field, when their keys are distinct. */
  function ExtractedEntries(h: Hydrator, fields: Assoc<Value>): (r: Assoc<Value>)
    ensures |r| == |fields|
    decreases |fields|
  {
    if |fields| == 0 then [] else [ExtractedEntry(h, fields[0])] + ExtractedEntries(h, fields[1..])
  }

  /** No two fields of `source` are stored under the same key. */
  predicate DistinctExtractedNames(h: Hydrator, source: Assoc<Value>) {
    forall i, j :: 0 <= i < j < |source| ==> ExtractName(h, source[i].0) != ExtractName(h, source[j].0)
  }

  lemma AppendAssociates<T>(a: seq<T>, b: seq<T>, c: seq<T>)
    ensures (a + b) + c == a + (b + c)
  {
  }

  lemma {:induction false} PutAppends<V>(a: Assoc<V>, key: string, value: V)
    requires key !in Keys(a)
    ensures Put(a, key, value) == a + [(key, value)]
    decreases |a|
  {
    if |a| > 0 {
      assert Keys(a) == [a[0].0] + Keys(a[1..]);
      assert a[0].0 != key && key !in Keys(a[1..]);
      PutAppends(a[1..], key, value);
      assert Put(a, key, value) == [a[0]] + Put(a[1..], key, value);
      assert [a[0]] + (a[1..] + [(key, value)]) == a + [(key, value)];
    }
  }

  lemma {:induction false} ExtractIntoDistinct(h: Hydrator, fields: Assoc<Value>, acc: Assoc<Value>)
    requires DistinctExtractedNames(h, fields)
    requires forall i :: 0 <= i < |fields| ==> ExtractName(h, fields[i].0) !in Keys(acc)
    ensures ExtractInto(h, fields, acc) == acc + ExtractedEntries(h, fields)
    decreases |fields|
  {
    if |fields| > 0 {
      var e := ExtractedEntry(h, fields[0]);
      var tail := fields[1..];
      PutAppends(acc, e.0, e.1);
      var next := acc + [e];
      assert ExtractInto(h, fields, acc) == ExtractInto(h, tail, next);
      assert DistinctExtractedNames(h, tail) by {
        assert forall i :: 0 <= i < |tail| ==> tail[i] == fields[i + 1];
      }
      assert forall i :: 0 <= i < |tail| ==> ExtractName(h, tail[i].0) !in Keys(next) by {
        assert Keys(next) == Keys(acc) + [e.0];
        forall i | 0 <= i < |tail|
          ensures ExtractName(h, tail[i].0) !in Keys(next)
        {
          assert tail[i] == fields[i + 1];
        }
      }
      ExtractIntoDistinct(h, tail, next);
      var rest := ExtractedEntries(h, tail);
      assert ExtractedEntries(h, fields) == [e] + rest;
      AppendAssociates(acc, [e], rest);
    }
  }

  /** When the fields' keys are distinct, extraction gives one entry per field, in field order. */
  lemma ExtractDistinct(h: Hydrator, source: Assoc<Value>)
    requires DistinctExtractedNames(h, source)
    ensures Extract(h, source) == ExtractedEntries(h, source)
  {
    ExtractIntoDistinct(h, source, []);
  }

  /** Every field comes back from hydration exactly as it was extracted. */
  predicate FieldRoundTrips(h: Hydrator, field: (string, Value)) {
    var e := ExtractedEntry(h, field);
    HydrateName(h, e.0) == field.0 && HydrateValue(h, field.0, e.1) == Success(field.1)
  }

  /** The key at index `k` does not occur before it. */
  lemma KeyNotBefore<V>(a: Assoc<V>, k: nat)
    requires k < |a| && UniqueKeys(a)
    ensures a[k].0 !in Keys(a[..k])
  {
    assert forall i :: 0 <= i < k ==> Keys(a[..k])[i] == a[i].0;
  }

  /** `Hydrate` on data whose first entry converts without raising. */
  lemma HydrateStep(h: Hydrator, data: Assoc<Value>, target: Assoc<Value>)
    requires 0 < |data| && ConvertedAt(h, data, 0).Success?
    ensures Hydrate(h, data, target) == Hydrate(h, data[1..], Put(target, TargetOf(h, data, 0), ConvertedAt(h, data, 0).value))
  {
  }

  lemma {:induction false} HydrateExtractedFrom(h: Hydrator, source: Assoc<Value>, k: nat)
    requires k <= |source| && UniqueKeys(source)
    requires forall i :: 0 <= i < |source| ==> FieldRoundTrips(h, source[i])
    ensures Hydrate(h, ExtractedEntries(h, source[k..]), source[..k]) == Success(source)
    decreases |source| - k
  {
    var data := ExtractedEntries(h, source[k..]);
    if k == |source| {
      assert source[..k] == source;
    } else {
      var f := source[k];
      assert data[0] == ExtractedEntry(h, f) && FieldRoundTrips(h, f);
      assert TargetOf(h, data, 0) == f.0 && ConvertedAt(h, data, 0) == Success(f.1);
      HydrateStep(h, data, source[..k]);
      assert data[1..] == ExtractedEntries(h, source[k + 1..]) by {
        assert source[k..][1..] == source[k + 1..];
      }
      KeyNotBefore(source, k);
      PutAppends(source[..k], f.0, f.1);
      assert source[..k] + [f] == source[..k + 1];
      HydrateExtractedFrom(h, source, k + 1);
    }
  }

  /**
   * Hydrating an empty object from the extracted data gives the object back, provided
   * the naming strategy recovers every field name from its key and the strategies
   * registered under the field name (on the way in) and under the key (on the way out)
   * undo each other on that field's value.
   */
  lemma HydrateExtractRoundTrip(h: Hydrator, source: Assoc<Value>)
    requires UniqueKeys(source)
    requires forall i :: 0 <= i < |source| ==> FieldRoundTrips(h, source[i])
    ensures Hydrate(h, Extract(h, source), []) == Success(source)
  {
    assert DistinctExtractedNames(h, source) by {
      forall i, j | 0 <= i < j < |source|
        ensures ExtractName(h, source[i].0) != ExtractName(h, source[j].0)
      {
        assert FieldRoundTrips(h, source[i]) && FieldRoundTrips(h, source[j]);
      }
    }
    ExtractDistinct(h, source);
    HydrateExtractedFrom(h, source, 0);
    assert source[..0] == [] && source[0..] == source;
  }

  /**
   * With the under_score naming strategy and no value strategies, an object whose field
   * names are camel names survives extraction followed by hydration, in every mode.
   */
  lemma UnderscoreRoundTrip(m: TextSupport.Mode, source: Assoc<Value>)
    requires UniqueKeys(source)
    requires forall i :: 0 <= i < |source| ==> IsCamelName(source[i].0)
    ensures var h := SetNamingStrategy(New(), Underscore(m));
      Hydrate(h, Extract(h, source), []) == Success(source)
  {
    var h := SetNamingStrategy(New(), Underscore(m));
    forall i | 0 <= i < |source|
      ensures FieldRoundTrips(h, source[i])
    {
      UnderscoreRecoversCamelFields(m, source[i].0);
    }
    HydrateExtractRoundTrip(h, source);
  }
}
