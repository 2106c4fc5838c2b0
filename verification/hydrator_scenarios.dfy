/**
 * The hydrator's naming/strategy composition on the two scenarios its shared test trait
 * runs against every hydrator: a naming strategy and a value strategy that answer
 * constants, registered under the translated name.
 */
module HydratorScenarios {

  import opened Wrappers
  import opened Values
  import opened Assoc
  import opened Strategies
  import opened Naming
  import opened Hydration

  /** The test entity: a single field `value`, unset. */
  const SimpleEntity: Assoc<Value> := [("value", Null)]

  /** A naming strategy mock: every name hydrates to `hydrateTo` and extracts to `extractTo`. */
  function ConstantNaming(hydrateTo: string, extractTo: string): (n: NamingStrategy)
    ensures forall name :: n.hydrateName(name) == hydrateTo && n.extractName(name) == extractTo
  {
    NamingStrategy(name => hydrateTo, name => extractTo)
  }

  /** A value strategy mock: every value hydrates to `hydrated` and extracts to `extracted`. */
  function ConstantStrategy(hydrated: Value, extracted: Value): (s: ValueStrategy)
    ensures forall v :: s.hydrate(v) == Success(hydrated) && s.extract(v) == extracted
  {
    ValueStrategy(v => Success(hydrated), v => extracted)
  }

  /** The hydrator of the hydration scenario, with its value strategy registered under `registeredAs`. */
  function HydrationSetup(registeredAs: string): Hydrator {
    AddStrategy(SetNamingStrategy(New(), ConstantNaming("value", "")), registeredAs, ConstantStrategy(Str("hydrate"), Null))
  }

  /** The hydrator of the extraction scenario, with its value strategy registered under `registeredAs`. */
  function ExtractionSetup(registeredAs: string): Hydrator {
    AddStrategy(SetNamingStrategy(New(), ConstantNaming("", "extractedName")), registeredAs, ConstantStrategy(Null, Str("extractedValue")))
  }

  /**
   * `foo_bar_baz` translates to `value`; the strategy registered under `value` fires and
   * its answer, not the raw `blub`, is what the entity's `value` field receives.
   */
  lemma HydrateWithNamingStrategyAndStrategy()
    ensures Hydrate(HydrationSetup("value"), [("foo_bar_baz", Str("blub"))], SimpleEntity)
         == Success([("value", Str("hydrate"))])
  {
    var h := HydrationSetup("value");
    var data := [("foo_bar_baz", Str("blub"))];
    assert TargetOf(h, data, 0) == "value" && ConvertedAt(h, data, 0) == Success(Str("hydrate"));
    HydrateStep(h, data, SimpleEntity);
    assert Put(SimpleEntity, "value", Str("hydrate")) == [("value", Str("hydrate"))];
    assert data[1..] == [];
  }

  /** A strategy registered under the incoming key instead does not fire: the raw value is stored. */
  lemma HydrateIgnoresStrategyUnderIncomingKey()
    ensures Hydrate(HydrationSetup("foo_bar_baz"), [("foo_bar_baz", Str("blub"))], SimpleEntity)
         == Success([("value", Str("blub"))])
  {
    var h := HydrationSetup("foo_bar_baz");
    var data := [("foo_bar_baz", Str("blub"))];
    assert TargetOf(h, data, 0) == "value" && ConvertedAt(h, data, 0) == Success(Str("blub"));
    HydrateStep(h, data, SimpleEntity);
    assert Put(SimpleEntity, "value", Str("blub")) == [("value", Str("blub"))];
    assert data[1..] == [];
  }

  /**
   * The entity's `value` field extracts under `extractedName`, through the strategy
   * registered under that name: the result has exactly that one entry.
   */
  lemma ExtractWithNamingStrategyAndStrategy()
    ensures Extract(ExtractionSetup("extractedName"), [("value", Str("foo"))])
         == [("extractedName", Str("extractedValue"))]
  {
    var h := ExtractionSetup("extractedName");
    ExtractDistinct(h, [("value", Str("foo"))]);
  }

  /** A strategy registered under the field's own name does not fire on extraction. */
  lemma ExtractIgnoresStrategyUnderFieldName()
    ensures Extract(ExtractionSetup("value"), [("value", Str("foo"))]) == [("extractedName", Str("foo"))]
  {
    var h := ExtractionSetup("value");
    ExtractDistinct(h, [("value", Str("foo"))]);
  }
}
