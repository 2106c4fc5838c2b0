# laminas-hydrator conversion pipeline, in Dafny

A model of the conversion core of laminas-hydrator. A hydrator copies an associative array of data onto an object (`hydrate`), and copies an object's fields into an array (`extract`). On the way it translates names with a naming strategy and converts values with value strategies. The model covers three parts of that pipeline:

- **The naming filters of the under_score naming strategy.**
  - `CamelCaseToUnderscore.Filter` inserts `_` at word boundaries and lower-cases.
  - `UnderscoreToCamelCase.Filter` removes `_` and upper-cases the next character, then lower-cases the first character.
  - Both take a `Mode`: the PCRE-Unicode and multibyte-string support flags, as explicit booleans.
  - The case table is ASCII plus U+0160/U+0161 (`Š`/`š`).
  - Each filter has a position-wise characterisation (`FilterSpec`).
  - Both round trips are proved: snake names survive under_score -> camelCase -> under_score, and camel names survive the opposite trip. Every test vector is proved, in every configuration the tests use.
- **The hydrator pipeline** (`Hydration`).
  - A naming strategy plus a map from names to value strategies.
  - Objects are insertion-ordered field lists.
  - The value strategy is looked up by the translated name in both directions.
  - Proved: failure propagation, last-write-wins, untouched fields, no duplicated fields, and the extract/hydrate round trip. The two scenarios of the shared hydrator test trait are proved in `HydratorScenarios`.
- **The date-time formatter strategy** (`DateTimeFormatter`).
  - The date library is an abstract parameter, `Engine`.
  - The model covers the dispatch:
    - pass-through of null, `''` and date-times;
    - invalid-argument errors;
    - strict parse, then optional lenient fallback, else the string unchanged;
    - extraction through the format with unescaped `!`, `|` and `+` removed.

Files:
- `wrappers.dfy`: `Option` and `Result`.
- `text_support.dfy`: modes, character classes and case maps.
- `camel_case_to_underscore.dfy` and `underscore_to_camel_case.dfy`: the two filters.
- `naming.dfy`: naming strategies and the round trips.
- `values.dfy`: values and ordered associative arrays.
- `hydrator.dfy`: value strategies and the hydrator.
- `hydrator_scenarios.dfy`: the hydrator test scenarios.
- `date_time_formatter.dfy`: the date-time strategy.
- `*_vectors.dfy`: the test vectors.

Three behaviours are pinned by the tests, and the model states them as the tests do:
- **The value strategy is looked up by the translated name on hydrate.** A strategy registered under `value` converts the entry `foo_bar_baz`, which the naming strategy translates to `value` (test/HydratorTestTrait.php:31-39).
- **`Y-m-d+` extracts as `2018-02-05`.** Only an escaped `\+` prints a `+` (test/Strategy/DateTimeFormatterStrategyTest.php:114-133).
- **`''` hydrates to `''` itself.** The test at test/Strategy/DateTimeFormatterStrategyTest.php:176-193 checks this with `assertSame`. The comparison with null at lines 40-45 is a loose one, and `''` also passes it.

## Model

| member | source | states |
|---|---|---|
| CamelCaseToUnderscore.Filter | test/NamingStrategy/UnderscoreNamingStrategy/CamelCaseToUnderscoreFilterTest.php:25-75 | the output is the input lower-cased (per mode), with one `_` before every word boundary of the ORIGINAL text, i.e. the two replacement passes act as one pass |
| CamelCaseToUnderscore.TwoPassesAreOnePass | test/NamingStrategy/UnderscoreNamingStrategy/CamelCaseToUnderscoreFilterTest.php:96-99 | the capital-run pass followed by the word-start pass inserts exactly the boundaries of the original text: the second pass never fires next to a separator the first inserted |
| CamelCaseToUnderscore.FilterSpec | test/NamingStrategy/UnderscoreNamingStrategy/CamelCaseToUnderscoreFilterTest.php:25-75 | the filter's output equals `out` if and only if, position by position, `out` is each input character lower-cased, preceded by `_` exactly at a boundary |
| CamelCaseToUnderscore.FilterOnlyInsertsSeparators | test/NamingStrategy/UnderscoreNamingStrategy/CamelCaseToUnderscoreFilterTest.php:96-99 | deleting every `_` from the output gives the lower-cased input with its own `_` deleted: the filter adds separators and changes case, nothing else |
| CamelCaseToUnderscore.FilterAsciiIgnoresMbString | test/NamingStrategy/UnderscoreNamingStrategy/CamelCaseToUnderscoreFilterTest.php:149-171 | on ASCII input, switching multibyte support off does not change the output |
| CamelCaseToUnderscoreVectors.UpcasedFirstLetterWithoutUnicodePatterns | test/NamingStrategy/UnderscoreNamingStrategy/CamelCaseToUnderscoreFilterTest.php:84-87 | `Camel` -> `camel` without Unicode patterns, and the output differs from the input |
| CamelCaseToUnderscoreVectors.MultipleWordsWithoutUnicodePatterns | test/NamingStrategy/UnderscoreNamingStrategy/CamelCaseToUnderscoreFilterTest.php:88-91 | `underscoresMe` -> `underscores_me` without Unicode patterns, and the output differs |
| CamelCaseToUnderscoreVectors.AlphanumericWithoutUnicodePatterns | test/NamingStrategy/UnderscoreNamingStrategy/CamelCaseToUnderscoreFilterTest.php:92-95 | `one2Three` -> `one2_three` without Unicode patterns, and the output differs |
| CamelCaseToUnderscoreVectors.CapitalRunsAndSeparatorsWithoutUnicodePatterns | test/NamingStrategy/UnderscoreNamingStrategy/CamelCaseToUnderscoreFilterTest.php:96-99 | `TheseAre_SOME_CamelCASEDWords` -> `these_are_some_camel_cased_words` without Unicode patterns, and the output differs |
| CamelCaseToUnderscoreVectors.AlphanumericCapitalRunWithoutUnicodePatterns | test/NamingStrategy/UnderscoreNamingStrategy/CamelCaseToUnderscoreFilterTest.php:100-103 | `one2THR23ree` -> `one2_thr23ree` without Unicode patterns, and the output differs |
| CamelCaseToUnderscoreVectors.LowercasedAlphanumericWithoutUnicodePatterns | test/NamingStrategy/UnderscoreNamingStrategy/CamelCaseToUnderscoreFilterTest.php:104-107 | `bfd7b82e9cfceaa82704d1c1Foo` -> `bfd7b82e9cfceaa82704d1c1_foo` without Unicode patterns, and the output differs |
| CamelCaseToUnderscoreVectors.UpcasedFirstLetterWithFullSupport | test/NamingStrategy/UnderscoreNamingStrategy/CamelCaseToUnderscoreFilterTest.php:118-121 | `Camel` -> `camel` with both facilities, and the output differs |
| CamelCaseToUnderscoreVectors.MultipleWordsWithFullSupport | test/NamingStrategy/UnderscoreNamingStrategy/CamelCaseToUnderscoreFilterTest.php:122-125 | `underscoresMe` -> `underscores_me` with both facilities, and the output differs |
| CamelCaseToUnderscoreVectors.AlphanumericWithFullSupport | test/NamingStrategy/UnderscoreNamingStrategy/CamelCaseToUnderscoreFilterTest.php:126-129 | `one2Three` -> `one2_three` with both facilities, and the output differs |
| CamelCaseToUnderscoreVectors.CapitalRunsAndSeparatorsWithFullSupport | test/NamingStrategy/UnderscoreNamingStrategy/CamelCaseToUnderscoreFilterTest.php:130-133 | `TheseAre_SOME_CamelCASEDWords` -> `these_are_some_camel_cased_words` with both facilities, and the output differs |
| CamelCaseToUnderscoreVectors.AlphanumericCapitalRunWithFullSupport | test/NamingStrategy/UnderscoreNamingStrategy/CamelCaseToUnderscoreFilterTest.php:134-137 | `one2THR23ree` -> `one2_thr23ree` with both facilities, and the output differs |
| CamelCaseToUnderscoreVectors.UnicodeCapitalWithFullSupport | test/NamingStrategy/UnderscoreNamingStrategy/CamelCaseToUnderscoreFilterTest.php:138-141 | `testŠuma` -> `test_šuma` with both facilities: `Š` starts a word and is lower-cased |
| CamelCaseToUnderscoreVectors.UpcasedFirstLetterWithoutMbString | test/NamingStrategy/UnderscoreNamingStrategy/CamelCaseToUnderscoreFilterTest.php:152-155 | `Camel` -> `camel` without multibyte support, and the output differs |
| CamelCaseToUnderscoreVectors.MultipleWordsWithoutMbString | test/NamingStrategy/UnderscoreNamingStrategy/CamelCaseToUnderscoreFilterTest.php:156-159 | `underscoresMe` -> `underscores_me` without multibyte support, and the output differs |
| CamelCaseToUnderscoreVectors.AlphanumericWithoutMbString | test/NamingStrategy/UnderscoreNamingStrategy/CamelCaseToUnderscoreFilterTest.php:160-163 | `one2Three` -> `one2_three` without multibyte support, and the output differs |
| CamelCaseToUnderscoreVectors.CapitalRunsAndSeparatorsWithoutMbString | test/NamingStrategy/UnderscoreNamingStrategy/CamelCaseToUnderscoreFilterTest.php:164-167 | `TheseAre_SOME_CamelCASEDWords` -> `these_are_some_camel_cased_words` without multibyte support, and the output differs |
| CamelCaseToUnderscoreVectors.AlphanumericCapitalRunWithoutMbString | test/NamingStrategy/UnderscoreNamingStrategy/CamelCaseToUnderscoreFilterTest.php:168-171 | `one2THR23ree` -> `one2_thr23ree` without multibyte support, and the output differs |
| CamelCaseToUnderscoreVectors.UnicodeCapitalWithoutMbString | test/NamingStrategy/UnderscoreNamingStrategy/CamelCaseToUnderscoreFilterTest.php:172-175 | `testŠuma` -> `test_Šuma` without multibyte support: the boundary is found but `Š` is not lower-cased |
| UnderscoreToCamelCase.Filter | test/NamingStrategy/UnderscoreNamingStrategy/UnderscoreToCamelCaseFilterTest.php:21-33 | the output is never longer than the input |
| UnderscoreToCamelCase.CapitalizeShortens | test/NamingStrategy/UnderscoreNamingStrategy/UnderscoreToCamelCaseFilterTest.php:50-57 | the replacement pass never lengthens the text, and keeps its length exactly when no `_` is followed by a character the pattern takes |
| UnderscoreToCamelCase.FilterSpec | test/NamingStrategy/UnderscoreNamingStrategy/UnderscoreToCamelCaseFilterTest.php:21-160 | the filter's output equals `out` if and only if, scanning left to right, each `_` + taken character is one upper-cased character of `out`, every other character is copied, and only `out`'s first character is lower-cased |
| UnderscoreToCamelCase.FilterWithoutSeparators | test/NamingStrategy/UnderscoreNamingStrategy/UnderscoreToCamelCaseFilterTest.php:42-45 | on input without `_` the filter only lower-cases the first character |
| UnderscoreToCamelCaseVectors.OneWordWithoutUnicodePatterns | test/NamingStrategy/UnderscoreNamingStrategy/UnderscoreToCamelCaseFilterTest.php:42-45 | `Studly` -> `studly` without Unicode patterns, and the output differs |
| UnderscoreToCamelCaseVectors.MultipleWordsWithoutUnicodePatterns | test/NamingStrategy/UnderscoreNamingStrategy/UnderscoreToCamelCaseFilterTest.php:46-49 | `studly_cases_me` -> `studlyCasesMe` without Unicode patterns, and the output differs |
| UnderscoreToCamelCaseVectors.AlphanumericInSingleWordWithoutUnicodePatterns | test/NamingStrategy/UnderscoreNamingStrategy/UnderscoreToCamelCaseFilterTest.php:50-53 | `one_2_three` -> `one2Three` without Unicode patterns, and the output differs |
| UnderscoreToCamelCaseVectors.AlphanumericInSeparateWordsWithoutUnicodePatterns | test/NamingStrategy/UnderscoreNamingStrategy/UnderscoreToCamelCaseFilterTest.php:54-57 | `one2_three` -> `one2Three` without Unicode patterns, and the output differs |
| UnderscoreToCamelCaseVectors.UppercaseFirstLetterWithFullSupport | test/NamingStrategy/UnderscoreNamingStrategy/UnderscoreToCamelCaseFilterTest.php:86-89 | `Camel` -> `camel` with both facilities, and the output differs |
| UnderscoreToCamelCaseVectors.MultipleWordsWithFullSupport | test/NamingStrategy/UnderscoreNamingStrategy/UnderscoreToCamelCaseFilterTest.php:90-93 | `studly_cases_me` -> `studlyCasesMe` with both facilities, and the output differs |
| UnderscoreToCamelCaseVectors.AlphanumericInSingleWordWithFullSupport | test/NamingStrategy/UnderscoreNamingStrategy/UnderscoreToCamelCaseFilterTest.php:94-97 | `one_2_three` -> `one2Three` with both facilities, and the output differs |
| UnderscoreToCamelCaseVectors.AlphanumericInSeparateWordsWithFullSupport | test/NamingStrategy/UnderscoreNamingStrategy/UnderscoreToCamelCaseFilterTest.php:98-101 | `one2_three` -> `one2Three` with both facilities, and the output differs |
| UnderscoreToCamelCaseVectors.UnicodeCapitalWithFullSupport | test/NamingStrategy/UnderscoreNamingStrategy/UnderscoreToCamelCaseFilterTest.php:102-105 | `test_Šuma` -> `testŠuma` with both facilities, and the output differs |
| UnderscoreToCamelCaseVectors.UnicodeSmallWithFullSupport | test/NamingStrategy/UnderscoreNamingStrategy/UnderscoreToCamelCaseFilterTest.php:106-109 | `test_šuma` -> `testŠuma` with both facilities: `š` is taken and upper-cased |
| UnderscoreToCamelCaseVectors.MultipleWordsWithoutMbString | test/NamingStrategy/UnderscoreNamingStrategy/UnderscoreToCamelCaseFilterTest.php:139-142 | `studly_cases_me` -> `studlyCasesMe` without multibyte support |
| UnderscoreToCamelCaseVectors.AlphanumericInSingleWordWithoutMbString | test/NamingStrategy/UnderscoreNamingStrategy/UnderscoreToCamelCaseFilterTest.php:143-146 | `one_2_three` -> `one2Three` without multibyte support |
| UnderscoreToCamelCaseVectors.AlphanumericInSeparateWordsWithoutMbString | test/NamingStrategy/UnderscoreNamingStrategy/UnderscoreToCamelCaseFilterTest.php:147-150 | `one2_three` -> `one2Three` without multibyte support |
| UnderscoreToCamelCaseVectors.UnicodeCapitalWithoutMbString | test/NamingStrategy/UnderscoreNamingStrategy/UnderscoreToCamelCaseFilterTest.php:151-154 | `test_Šuma` -> `testŠuma` without multibyte support: a non-ASCII capital is still taken |
| UnderscoreToCamelCaseVectors.UnicodeSmallWithoutMbString | test/NamingStrategy/UnderscoreNamingStrategy/UnderscoreToCamelCaseFilterTest.php:155-158 | `test_šuma` is a fixed point without multibyte support: the pattern refuses a non-ASCII lower-case letter |
| UnderscoreToCamelCaseVectors.SeparatorBeforeDigitIsLost | test/NamingStrategy/UnderscoreNamingStrategy/UnderscoreToCamelCaseFilterTest.php:50-57 | in every mode the two different inputs `one_2_three` and `one2_three` both give `one2Three`: the filter is not injective |
| Naming.SnakeRoundTrip | test/NamingStrategy/UnderscoreNamingStrategy/UnderscoreToCamelCaseFilterTest.php:46-49 | for every snake name (lower-case ASCII letters, digits and `_`; no leading `_`; each `_` followed by a lower-case letter that is not itself followed by `_`), under_score -> camelCase -> under_score gives the name back, in every mode |
| Naming.CamelRoundTrip | test/NamingStrategy/UnderscoreNamingStrategy/CamelCaseToUnderscoreFilterTest.php:88-91 | for every camel name (ASCII letters and digits, not starting with a capital, each capital after a lower-case letter or digit), camelCase -> under_score -> camelCase gives the name back, in every mode |
| Naming.UnderscoreRecoversCamelFields | test/NamingStrategy/UnderscoreNamingStrategy/CamelCaseToUnderscoreFilterTest.php:88-95 | the under_score naming strategy translates a camel-named field to a key it translates back to that field |
| Hydration.SetNamingStrategy | test/HydratorTestTrait.php:31-31 | after `setNamingStrategy(n)` both directions translate names with `n`, and every value conversion is as before |
| Hydration.AddStrategy | test/HydratorTestTrait.php:32-32 | after `addStrategy(name, s)` values under `name` are converted by `s` in both directions, other names convert as before, and naming is unchanged |
| Hydration.Hydrate | test/HydratorTestTrait.php:34-39 | a successful hydration extends the target: its fields keep their order and new fields follow them |
| Hydration.HydrateFailure | test/HydratorTestTrait.php:15-40 | hydration fails if and only if some entry's strategy raises, and then with the error of the first such entry |
| Hydration.HydrateLastWriteWins | test/HydratorTestTrait.php:34-39 | after a successful hydration each entry's converted value is in the field its key translates to, and the last entry written to a field wins |
| Hydration.HydrateKeepsKeysUnique | test/HydratorTestTrait.php:34-39 | hydrating an object without duplicate fields never creates one: each entry is written in place |
| Hydration.HydrateKeepsUntouched | test/HydratorTestTrait.php:34-39 | a field no entry is written to keeps the value it had |
| Hydration.Extract | test/HydratorTestTrait.php:64-66 | the extracted array has at most one entry per field |
| Hydration.ExtractDistinct | test/HydratorTestTrait.php:42-67 | when fields translate to distinct keys, extraction is exactly one entry per field, in field order: translated key -> value converted by the strategy under that key |
| Hydration.HydrateExtractRoundTrip | test/HydratorTestTrait.php:15-67 | hydrating an empty object from the extracted array gives the object back, when names translate back and strategies undo each other field by field |
| Hydration.UnderscoreRoundTrip | test/HydratorTestTrait.php:31-34 | with the under_score naming strategy, an object whose field names are camel names survives extract then hydrate, in every mode |
| HydratorScenarios.ConstantNaming | test/HydratorTestTrait.php:17-22 | the naming mock answers the same name for every input, in each direction |
| HydratorScenarios.ConstantStrategy | test/HydratorTestTrait.php:24-29 | the value strategy mock answers the same value for every input, in each direction |
| HydratorScenarios.HydrateWithNamingStrategyAndStrategy | test/HydratorTestTrait.php:15-40 | `foo_bar_baz => blub` lands in field `value`, converted to `hydrate` by the strategy registered under the translated name |
| HydratorScenarios.ExtractWithNamingStrategyAndStrategy | test/HydratorTestTrait.php:42-67 | extracting `value => foo` gives exactly `extractedName => extractedValue` |
| DateTimeFormatter.ExtractionFormat | test/Strategy/DateTimeFormatterStrategyTest.php:105-133 | the extraction format is no longer than the configured one, and every `!`, `\|` or `+` left in it is escaped |
| DateTimeFormatter.StripAt | test/Strategy/DateTimeFormatterStrategyTest.php:105-133 | every character of a format is kept or deleted on its own, wherever it stands: a parse-only character is deleted exactly when the character before it in the original format is not the escape; every other character is kept |
| DateTimeFormatter.StripDeletesOnlyParseOnly | test/Strategy/DateTimeFormatterStrategyTest.php:126-133 | deriving the extraction format deletes parse-only characters only: every other character stays, in order |
| DateTimeFormatter.ExtractionFormatFixedPoint | test/Strategy/DateTimeFormatterStrategyTest.php:114-120 | a format whose parse-only characters are all escaped is used for extraction unchanged |
| DateTimeFormatter.ExtractionFormatIdempotent | test/Strategy/DateTimeFormatterStrategyTest.php:105-112 | deriving the extraction format twice removes nothing more |
| DateTimeFormatter.Hydrate | test/Strategy/DateTimeFormatterStrategyTest.php:23-59 | null, `''` and date-times pass through; other non-strings raise invalid-argument; a strict parse wins; when it fails, without fallback the string comes back, and with fallback the result is the lenient parse's date-time, or an unparseable-date error naming the text when that fails too |
| DateTimeFormatter.Extract | test/Strategy/DateTimeFormatterStrategyTest.php:34-53 | a date-time is formatted once with the extraction format; anything else comes back unchanged; the result is never a date-time |
| DateTimeFormatter.HydrateParsesMutable | test/Strategy/DateTimeFormatterStrategyTest.php:93-100 | when the library's strict parse builds mutable date-times, a string it parses hydrates to a mutable date-time, whatever parse-only characters the format holds |
| DateTimeFormatter.HydrateIdempotent | test/Strategy/DateTimeFormatterStrategyTest.php:176-193 | hydrating a successful hydration's result gives the same result again |
| DateTimeFormatter.ExtractIdempotent | test/Strategy/DateTimeFormatterStrategyTest.php:47-53 | extracting an extraction's result gives the same result again |
| DateTimeFormatter.HydrateCarriesTimezone | test/Strategy/DateTimeFormatterStrategyTest.php:135-148 | when the library honours the requested zone, a hydrated date-time carries the configured zone, whichever parse produced it |
| DateTimeFormatter.ExtractHydrateRoundTrip | test/Strategy/DateTimeFormatterStrategyTest.php:105-112 | when the library parses back what it formatted with the extraction format, extraction then hydration gives the date-time back |
| DateTimeFormatterVectors.FormatWithoutStrippingPrintsPlus | test/Strategy/DateTimeFormatterStrategyTest.php:131-131 | formatting with the raw `Y-m-d+` would print a trailing `+`, which is why extraction strips it |
| DateTimeFormatterVectors.ExtractFormatsWithConfiguredFormat | test/Strategy/DateTimeFormatterStrategyTest.php:34-38 | `d/m/Y` extracts the 26th of April 2014 as `26/04/2014` |
| DateTimeFormatterVectors.ExtractAnyDateTime | test/Strategy/DateTimeFormatterStrategyTest.php:61-86 | extracting a mutable or immutable date-time with `Y-m-d` is one call of the formatter, with `Y-m-d` |
| DateTimeFormatterVectors.HydrateWithRawFormat | test/Strategy/DateTimeFormatterStrategyTest.php:93-100 | hydration hands `!Y-m-d`, `Y-m-d\|` and `Y-m-d+` to the parser unchanged and returns its date-time, which is mutable and prints back as `2018-02-05` |
| DateTimeFormatterVectors.ExtractDropsLeadingBang | test/Strategy/DateTimeFormatterStrategyTest.php:129-129 | `!Y-m-d` extracts the 5th of February 2018 as `2018-02-05` |
| DateTimeFormatterVectors.ExtractDropsTrailingBar | test/Strategy/DateTimeFormatterStrategyTest.php:130-130 | `Y-m-d\|` extracts as `2018-02-05` |
| DateTimeFormatterVectors.ExtractDropsTrailingPlus | test/Strategy/DateTimeFormatterStrategyTest.php:131-131 | `Y-m-d+` extracts as `2018-02-05`, without a `+` |
| DateTimeFormatterVectors.EscapedKeptUnescapedDropped | test/Strategy/DateTimeFormatterStrategyTest.php:105-133 | in `\+Y+` the escaped `+` stays and the unescaped one goes: the extraction format is `\+Y` |
| DateTimeFormatterVectors.EscapedPlusKept | test/Strategy/DateTimeFormatterStrategyTest.php:114-120 | the extraction format of `Y-m-d\+` is `Y-m-d\+` itself |
| DateTimeFormatterVectors.ExtractKeepsEscapedPlus | test/Strategy/DateTimeFormatterStrategyTest.php:114-120 | `Y-m-d\+` extracts as `2018-02-05+` |
| DateTimeFormatterVectors.ExtractNonDateTimeWithDefault | test/Strategy/DateTimeFormatterStrategyTest.php:47-53 | the strategy built without arguments (RFC 3339 format, no zone, no fallback) extracts an object that is not a date-time as it is |
| DateTimeFormatterVectors.HydrateNullAndEmpty | test/Strategy/DateTimeFormatterStrategyTest.php:40-45 | null and `''` hydrate to themselves |
| DateTimeFormatterVectors.HydrateDateTimeVerbatim | test/Strategy/DateTimeFormatterStrategyTest.php:176-193 | a date-time hydrates to itself |
| DateTimeFormatterVectors.HydrateRejectsNonStrings | test/Strategy/DateTimeFormatterStrategyTest.php:151-173 | `0`, `1`, `0.0`, `1.1`, an array and an object each raise invalid-argument |
| DateTimeFormatterVectors.HydrateUnparseableWithoutFallback | test/Strategy/DateTimeFormatterStrategyTest.php:55-59 | `foo bar baz` comes back unchanged when `d/m/Y` does not match and fallback is off |
| DateTimeFormatterVectors.HydrateWithFallback | test/Strategy/DateTimeFormatterStrategyTest.php:135-141 | with fallback on and no zone, `2018-09-06T12:10:30`, which `Y-m-d` does not match, hydrates to exactly the lenient parse's date-time, and that date prints as `2018-09-06` |
| DateTimeFormatterVectors.HydrateWithFallbackInZone | test/Strategy/DateTimeFormatterStrategyTest.php:143-147 | with fallback on and zone `Europe/Prague`, the same text hydrates to exactly the lenient parse's date-time, which carries `Europe/Prague` |
| DateTimeFormatterVectors.HydrateWithFormat | test/Strategy/DateTimeFormatterStrategyTest.php:23-26 | without a zone, `2014-04-26` hydrates with `Y-m-d` to exactly the strict parse's date-time, which prints back as `2014-04-26` |
| DateTimeFormatterVectors.HydrateWithTimezone | test/Strategy/DateTimeFormatterStrategyTest.php:28-31 | a strictly parsed `2014-04-26` carries the zone `Asia/Kathmandu` |

## Left out

- The hydrator plugin manager (test/StandaloneHydratorPluginManagerTest.php) is not part of this model. It is service-locator plumbing with no conversion logic.
- The implementation files of the filters, the hydrators and the strategies are not part of this model. The test vectors pin the filters only on their own inputs. Everywhere else the filters follow the library's replacement patterns, which the comments of `CamelCaseToUnderscore` and `UnderscoreToCamelCase` quote. No test decides those other inputs. For example, `ABc` gives `abc` without Unicode patterns and `a_bc` with them, and a `_` followed by another `_` is handled as the patterns say.
- Date parsing, formatting, the calendar and the time zone database are the parameter `Engine`. `HonoursTimezone` states the one assumption the time zone lemmas need. `SampleFormat` is a stand-in formatter that knows only `Y`, `m`, `d` and the escape character; it is used for the extraction vectors.
- Field access (reflection, getters and setters, array-serializable objects) is left out. An object is an insertion-ordered list of fields, and hydration writes every translated name, whether or not the object had such a field.
- Object identity is left out. `Hydrate` returns the target's extended field list instead of the same object.
- Writes made before a failing entry are not modelled. The library writes entry by entry, so when a value strategy raises part-way, the caller's object still holds the fields written before it. `Hydrate` returns only the error.
- Runtime probing of PCRE and multibyte support (`extension_loaded`, the reflection that flips the flags, skipped tests) is replaced by the explicit `Mode`.
- The full Unicode category and case tables are left out. The table is ASCII plus `Š`/`š`, and the space separators are space and no-break space.
- Byte-wise matching is not modelled. Without Unicode patterns PCRE matches bytes, and the model matches characters. This differs only on non-ASCII input in that mode, which no test uses.
- The context argument the library passes to value strategies (the whole data array, or the object) is not modelled. No strategy in the core reads it.
- Mock call counting is left out, beyond `extract` being exactly one `format` call.
- `removeStrategy`, `hasStrategy`-based composition, and the library's secondary strategy lookups are left out: no core test exercises them.
- A strategy registered only under the incoming data key is not consulted on hydrate: the model looks strategies up by the translated name alone, and `HydratorScenarios.HydrateIgnoresStrategyUnderIncomingKey` states the consequence. No test decides between this rule and "incoming key first, then translated name", so this is the model's choice, not a promise of the tests.
- On extract, likewise, a strategy registered only under the object's own field name is not consulted: the model looks it up by the extracted name alone, and `HydratorScenarios.ExtractIgnoresStrategyUnderFieldName` states the consequence. The test registers its strategy only under the extracted name, so nothing there decides this. The library's secondary lookups, left out above, could find such a strategy when the naming strategy's two directions invert each other.
- UnderscoreToCamelCase.Filter: its own contract is only a length bound. The full description is `UnderscoreToCamelCase.FilterSpec`.
- Hydration.Hydrate: its own contract states only that the target is extended. Failure, writes and untouched fields are `HydrateFailure`, `HydrateLastWriteWins` and `HydrateKeepsUntouched`.
- Hydration.Extract: its own contract is only a length bound. The exact result is `ExtractDistinct`, for fields whose keys are distinct.
- DateTimeFormatter.ExtractionFormat: strips the three parse-only characters the tests use (`!`, `|`, `+`). Other parse-only characters of the format language, such as `*`, are kept. Its own contract states only the length bound and that every parse-only character left is escaped. The per-character rule is `DateTimeFormatter.StripAt`.
