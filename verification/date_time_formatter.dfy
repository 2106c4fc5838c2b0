/**
 * The date-time formatter strategy: hydrates strings into date-times by parsing them
 * with a configured format, and extracts date-times into strings by formatting them.
 *
 * The date library itself (strict parsing against a format, lenient construction from
 * free text, formatting, the time zone database) is a parameter, `Engine`; the model
 * decides only which of its operations is called, with what, and what comes back.
 */
module DateTimeFormatter {

  import opened Wrappers
  import opened Values
  import opened Strategies
  import opened TextSupport

  /**
   * The date library: `createFromFormat(format, text, zone)` parses strictly and may fail,
   * `construct(text, zone)` parses leniently and may fail, `format(date, format)` renders.
   */
  datatype Engine = Engine(
    createFromFormat: (string, string, Option<string>) -> Option<DateTimeValue>,
    construct: (string, Option<string>) -> Option<DateTimeValue>,
    format: (DateTimeValue, string) -> string)

  /** The strategy's configuration: format, optional time zone, and whether to fall back to lenient parsing. */
  datatype Config = Config(format: string, timezone: Option<string>, fallback: bool)

  /** The default format, RFC 3339 in the library's format language. */
  const Rfc3339: string := "Y-m-d\\TH:i:sP"

  /** The configuration of a strategy constructed without arguments. */
  const Default: Config := Config(Rfc3339, None, false)

  /** The parse-only format characters: `!` and `|` reset fields, `+` ignores trailing data. */
  predicate IsParseOnly(c: char) {
    c == '!' || c == '|' || c == '+'
  }

  const Escape: char := '\\'

  /** Every parse-only character of `s` is escaped by the character before it. */
  predicate OnlyEscapedParseOnly(before: Option<char>, s: string) {
    forall i :: 0 <= i < |s| && IsParseOnly(s[i]) ==> Previous(before, s, i) == Some(Escape)
  }

  /** Deletes every parse-only character that is not escaped in the original text. */
  function StripParseOnly(before: Option<char>, s: string): string
    decreases |s|
  {
    if |s| == 0 then []
    else
      var keep := !IsParseOnly(s[0]) || before == Some(Escape);
      (if keep then [s[0]] else []) + StripParseOnly(Some(s[0]), s[1..])
  }

  /**
   * The format extraction renders with: the configured format without its unescaped
   * parse-only characters, which would otherwise be printed literally.
   */
  function ExtractionFormat(format: string): (r: string)
    ensures |r| <= |format|
    ensures OnlyEscapedParseOnly(None, r)
  {
    StripShortens(None, format);
    StripLeavesOnlyEscaped(None, format);
    StripParseOnly(None, format)
  }

  lemma {:induction false} StripShortens(before: Option<char>, s: string)
    ensures |StripParseOnly(before, s)| <= |s|
    decreases |s|
  {
    if |s| > 0 {
      StripShortens(Some(s[0]), s[1..]);
    }
  }

  lemma {:induction false} StripLeavesOnlyEscaped(before: Option<char>, s: string)
    ensures OnlyEscapedParseOnly(before, StripParseOnly(before, s))
    decreases |s|
  {
    if |s| > 0 {
      var keep := !IsParseOnly(s[0]) || before == Some(Escape);
      var rest := StripParseOnly(Some(s[0]), s[1..]);
      StripLeavesOnlyEscaped(Some(s[0]), s[1..]);
      var r := StripParseOnly(before, s);
      if keep {
        assert r == [s[0]] + rest;
        forall i | 0 <= i < |r| && IsParseOnly(r[i])
          ensures Previous(before, r, i) == Some(Escape)
        {
          if i > 0 {
            assert r[i] == rest[i - 1];
          }
        }
      } else {
        assert r == rest;
        assert 0 < |rest| && IsParseOnly(rest[0]) ==> s[0] == Escape;
      }
    }
  }

  /** Stripping a concatenation strips each part, the second part seeing the first's last character. */
  lemma {:induction false} StripAppend(before: Option<char>, a: string, b: string)
    ensures StripParseOnly(before, a + b) == StripParseOnly(before, a) + StripParseOnly(Previous(before, a, |a|), b)
    decreases |a|
  {
    if |a| == 0 {
      assert a + b == b;
    } else {
      var head := if !IsParseOnly(a[0]) || before == Some(Escape) then [a[0]] else [];
      assert (a + b)[0] == a[0] && (a + b)[1..] == a[1..] + b;
      StripAppend(Some(a[0]), a[1..], b);
      assert Previous(Some(a[0]), a[1..], |a[1..]|) == Previous(before, a, |a|);
      assert head + (StripParseOnly(Some(a[0]), a[1..]) + StripParseOnly(Previous(before, a, |a|), b))
          == (head + StripParseOnly(Some(a[0]), a[1..])) + StripParseOnly(Previous(before, a, |a|), b);
    }
  }

  /**
   * Every character of a format is kept or deleted on its own: wherever it stands, a
   * parse-only character is deleted exactly when the character before it in the original
   * format is not the escape, and every other character is kept.
   */
  lemma StripAt(before: Option<char>, a: string, c: char, b: string)
    ensures StripParseOnly(before, a + [c] + b)
         == StripParseOnly(before, a)
          + (if IsParseOnly(c) && Previous(before, a, |a|) != Some(Escape) then [] else [c])
          + StripParseOnly(Some(c), b)
  {
    assert a + [c] + b == a + ([c] + b);
    StripAppend(before, a, [c] + b);
    assert ([c] + b)[0] == c && ([c] + b)[1..] == b;
  }

  /** A format whose parse-only characters are all escaped is used for extraction as it is. */
  lemma {:induction false} StripKeepsEscaped(before: Option<char>, s: string)
    requires OnlyEscapedParseOnly(before, s)
    ensures StripParseOnly(before, s) == s
    decreases |s|
  {
    if |s| > 0 {
      assert OnlyEscapedParseOnly(Some(s[0]), s[1..]) by {
        forall i | 0 <= i < |s[1..]| && IsParseOnly(s[1..][i])
          ensures Previous(Some(s[0]), s[1..], i) == Some(Escape)
        {
          assert s[1..][i] == s[i + 1];
        }
      }
      StripKeepsEscaped(Some(s[0]), s[1..]);
      assert s == [s[0]] + s[1..];
    }
  }

  lemma ExtractionFormatFixedPoint(format: string)
    requires OnlyEscapedParseOnly(None, format)
    ensures ExtractionFormat(format) == format
  {
    StripKeepsEscaped(None, format);
  }

  /** Deriving the extraction format twice changes nothing more. */
  lemma ExtractionFormatIdempotent(format: string)
    ensures ExtractionFormat(ExtractionFormat(format)) == ExtractionFormat(format)
  {
    ExtractionFormatFixedPoint(ExtractionFormat(format));
  }

  /** `s` without any parse-only character, escaped or not. */
  function WithoutParseOnly(s: string): (r: string)
    ensures forall i :: 0 <= i < |r| ==> !IsParseOnly(r[i])
    decreases |s|
  {
    if |s| == 0 then [] else (if IsParseOnly(s[0]) then [] else [s[0]]) + WithoutParseOnly(s[1..])
  }

  /** Stripping deletes nothing but parse-only characters, and keeps the rest in order. */
  lemma {:induction false} StripDeletesOnlyParseOnly(before: Option<char>, s: string)
    ensures WithoutParseOnly(StripParseOnly(before, s)) == WithoutParseOnly(s)
    decreases |s|
  {
    if |s| > 0 {
      var keep := !IsParseOnly(s[0]) || before == Some(Escape);
      var rest := StripParseOnly(Some(s[0]), s[1..]);
      StripDeletesOnlyParseOnly(Some(s[0]), s[1..]);
      WithoutParseOnlyAppend(if keep then [s[0]] else [], rest);
      assert [s[0]][1..] == [];
    }
  }

  lemma {:induction false} WithoutParseOnlyAppend(a: string, b: string)
    ensures WithoutParseOnly(a + b) == WithoutParseOnly(a) + WithoutParseOnly(b)
    decreases |a|
  {
    if |a| == 0 {
      assert a + b == b;
    } else {
      var head := if IsParseOnly(a[0]) then [] else [a[0]];
      assert (a + b)[0] == a[0] && (a + b)[1..] == a[1..] + b;
      assert WithoutParseOnly(a + b) == head + WithoutParseOnly(a[1..] + b);
      assert WithoutParseOnly(a) == head + WithoutParseOnly(a[1..]);
      WithoutParseOnlyAppend(a[1..], b);
      assert head + (WithoutParseOnly(a[1..]) + WithoutParseOnly(b)) == (head + WithoutParseOnly(a[1..])) + WithoutParseOnly(b);
    }
  }

  /** The strict parse, with the configured format as it is and the configured time zone. */
  function StrictParse(e: Engine, c: Config, text: string): Option<DateTimeValue> {
    e.createFromFormat(c.format, text, c.timezone)
  }

  /** The lenient parse, with the configured time zone. */
  function LenientParse(e: Engine, c: Config, text: string): Option<DateTimeValue> {
    e.construct(text, c.timezone)
  }

  /** The values hydration returns as they are: null, the empty string, and date-times. */
  predicate PassesThrough(v: Value) {
    v.Null? || v == Str("") || v.DateTime?
  }

  /**
   * `hydrate`: null, the empty string and date-times come back as they are; any other
   * non-string raises an invalid-argument error.  A string is parsed strictly; when that
   * fails it is parsed leniently if fallback is on (which raises if that fails too), and
   * returned unchanged if fallback is off.
   */
  function Hydrate(e: Engine, c: Config, v: Value): (r: Result<Value, StrategyError>)
    ensures PassesThrough(v) ==> r == Success(v)
    ensures !PassesThrough(v) && !v.Str? ==> r == Failure(InvalidArgument(v))
    ensures r.Failure? && v.Str? ==> c.fallback && r.error == UnparseableDateTime(v.s)
    ensures r.Success? ==> r.value == v || r.value.DateTime?
    ensures v.Str? && v.s != "" && StrictParse(e, c, v.s).Some? ==> r == Success(DateTime(StrictParse(e, c, v.s).value))
    ensures v.Str? && StrictParse(e, c, v.s).None? && !c.fallback ==> r == Success(v)
    ensures v.Str? && v.s != "" && StrictParse(e, c, v.s).None? && c.fallback ==>
      r == (if LenientParse(e, c, v.s).Some? then Success(DateTime(LenientParse(e, c, v.s).value))
            else Failure(UnparseableDateTime(v.s)))
  {
    if PassesThrough(v) then Success(v)
    else if !v.Str? then Failure(InvalidArgument(v))
    else
      match StrictParse(e, c, v.s)
      case Some(d) => Success(DateTime(d))
      case None =>
        if !c.fallback then Success(v)
        else
          match LenientParse(e, c, v.s)
          case Some(d) => Success(DateTime(d))
          case None => Failure(UnparseableDateTime(v.s))
  }

  /** `extract`: a date-time is formatted once, with the extraction format; anything else comes back as it is. */
  function Extract(e: Engine, c: Config, v: Value): (r: Value)
    ensures v.DateTime? ==> r == Str(e.format(v.d, ExtractionFormat(c.format)))
    ensures !v.DateTime? ==> r == v
    ensures !r.DateTime?
  {
    if v.DateTime? then Str(e.format(v.d, ExtractionFormat(c.format))) else v
  }

  /** The strategy as the hydrator sees it. */
  function Strategy(e: Engine, c: Config): (s: ValueStrategy)
    ensures forall v :: s.hydrate(v) == Hydrate(e, c, v) && s.extract(v) == Extract(e, c, v)
  {
    ValueStrategy(v => Hydrate(e, c, v), v => Extract(e, c, v))
  }

  /** Hydrating what hydration returned changes nothing: hydration is idempotent. */
  lemma HydrateIdempotent(e: Engine, c: Config, v: Value)
    requires Hydrate(e, c, v).Success?
    ensures Hydrate(e, c, Hydrate(e, c, v).value) == Hydrate(e, c, v)
  {
    var w := Hydrate(e, c, v).value;
    if w != v {
      assert w.DateTime?;
    }
  }

  /** Extracting what extraction returned changes nothing. */
  lemma ExtractIdempotent(e: Engine, c: Config, v: Value)
    ensures Extract(e, c, Extract(e, c, v)) == Extract(e, c, v)
  {
  }

  /** The library attaches the requested time zone to every date it parses. */
  ghost predicate HonoursTimezone(e: Engine) {
    && (forall format, text, zone :: e.createFromFormat(format, text, Some(zone)).Some?
          ==> e.createFromFormat(format, text, Some(zone)).value.zone == zone)
    && (forall text, zone :: e.construct(text, Some(zone)).Some? ==> e.construct(text, Some(zone)).value.zone == zone)
  }

  /** Whichever parse succeeds, a hydrated date-time carries the configured time zone. */
  lemma HydrateCarriesTimezone(e: Engine, c: Config, text: string)
    requires HonoursTimezone(e) && c.timezone.Some? && text != ""
    requires Hydrate(e, c, Str(text)).Success? && Hydrate(e, c, Str(text)).value.DateTime?
    ensures Hydrate(e, c, Str(text)).value.d.zone == c.timezone.value
  {
  }

  /** The library's strict parse always builds a mutable date-time. */
  ghost predicate ProducesMutable(e: Engine) {
    forall format, text, zone :: e.createFromFormat(format, text, zone).Some?
      ==> !e.createFromFormat(format, text, zone).value.immutable
  }

  /**
   * A string hydrated by the strict parse is a mutable date-time, whatever the configured
   * format: a parse-only character in it does not change the class of the result.
   */
  lemma HydrateParsesMutable(e: Engine, c: Config, text: string)
    requires ProducesMutable(e) && text != ""
    requires StrictParse(e, c, text).Some?
    ensures Hydrate(e, c, Str(text)).Success? && Hydrate(e, c, Str(text)).value.DateTime?
    ensures !Hydrate(e, c, Str(text)).value.d.immutable
  {
  }

  /**
   * Extraction followed by hydration gives the date-time back when the library parses
   * the text it formatted with the extraction format back into the same date-time.
   */
  lemma ExtractHydrateRoundTrip(e: Engine, c: Config, d: DateTimeValue)
    requires e.format(d, ExtractionFormat(c.format)) != ""
    requires StrictParse(e, c, e.format(d, ExtractionFormat(c.format))) == Some(d)
    ensures Hydrate(e, c, Extract(e, c, DateTime(d))) == Success(DateTime(d))
  {
  }
}
