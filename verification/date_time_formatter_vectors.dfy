/**
 * The date-time formatter strategy on the inputs of its test suite.  Hydration cases hold
 * for every date library; extraction cases use `SampleFormat`, a stand-in formatter that
 * knows the three letters the tests use and the escape character.
 */
module DateTimeFormatterVectors {

  import opened Wrappers
  import opened Values
  import opened Strategies
  import opened TextSupport
  import opened DateTimeFormatter

  function Digit(n: nat): char
    requires n < 10
  {
    ('0' as int + n) as char
  }

  /** `n` in decimal, padded with zeros to at least `width` digits. */
  function Decimal(n: nat, width: nat): string
    decreases n + width
  {
    (if 10 <= n || 1 < width then Decimal(n / 10, if width == 0 then 0 else width - 1) else []) + [Digit(n % 10)]
  }

  /** What the stand-in formatter prints for one unescaped format character. */
  function Piece(d: DateTimeValue, c: char): string {
    if c == 'Y' then (if d.year < 0 then "-" + Decimal(-d.year, 4) else Decimal(d.year, 4))
    else if c == 'm' then Decimal(d.month, 2)
    else if c == 'd' then Decimal(d.day, 2)
    else [c]
  }

  /**
   * A stand-in for the library's formatter: `Y` is the year in at least four digits, `m`
   * and `d` the month and day in two, a backslash prints the next character as it is,
   * and every other character is printed as it is.
   */
  function SampleFormat(d: DateTimeValue, format: string): string
    decreases |format|
  {
    if |format| == 0 then []
    else if format[0] == Escape && 1 < |format| then [format[1]] + SampleFormat(d, format[2..])
    else Piece(d, format[0]) + SampleFormat(d, format[1..])
  }

  const April26: DateTimeValue := DateTimeValue(2014, 4, 26, 0, "UTC", false)
  const February5: DateTimeValue := DateTimeValue(2018, 2, 5, 0, "UTC", false)

  lemma DecimalSamples()
    ensures Decimal(2018, 4) == "2018" && Decimal(2014, 4) == "2014"
    ensures Decimal(2, 2) == "02" && Decimal(4, 2) == "04" && Decimal(5, 2) == "05" && Decimal(26, 2) == "26"
  {
    assert Decimal(0, 1) == "0" && Decimal(2, 1) == "2";
    assert Decimal(20, 2) == "20" && Decimal(201, 3) == "201";
  }

  /** `Y-m-d` prints the 5th of February 2018 as `2018-02-05`. */
  lemma FormatFebruary5()
    ensures SampleFormat(February5, "Y-m-d") == "2018-02-05"
  {
    var d := February5;
    DecimalSamples();
    var f := "Y-m-d";
    assert f[0] == 'Y' && f[1..] == "-m-d";
    assert "-m-d"[0] == '-' && "-m-d"[1..] == "m-d";
    assert "m-d"[0] == 'm' && "m-d"[1..] == "-d";
    assert "-d"[0] == '-' && "-d"[1..] == "d";
    assert "d"[0] == 'd' && "d"[1..] == "";
    assert SampleFormat(d, "d") == "05";
    assert SampleFormat(d, "-d") == "-05";
    assert SampleFormat(d, "m-d") == "02-05";
    assert SampleFormat(d, "-m-d") == "-02-05";
  }

  /** Formatting with the configured `Y-m-d+` itself would print the `+`: the stripping is needed. */
  lemma FormatWithoutStrippingPrintsPlus()
    ensures SampleFormat(February5, "Y-m-d+") == "2018-02-05+"
  {
    var d := February5;
    DecimalSamples();
    var f := "Y-m-d+";
    assert f[0] == 'Y' && f[1..] == "-m-d+";
    assert "-m-d+"[0] == '-' && "-m-d+"[1..] == "m-d+";
    assert "m-d+"[0] == 'm' && "m-d+"[1..] == "-d+";
    assert "-d+"[0] == '-' && "-d+"[1..] == "d+";
    assert "d+"[0] == 'd' && "d+"[1..] == "+";
    assert "+"[0] == '+' && "+"[1..] == "";
    assert SampleFormat(d, "+") == "+";
    assert SampleFormat(d, "d+") == "05+";
    assert SampleFormat(d, "-d+") == "-05+";
    assert SampleFormat(d, "m-d+") == "02-05+";
    assert SampleFormat(d, "-m-d+") == "-02-05+";
  }

  /** `d/m/Y` prints the 26th of April 2014 as `26/04/2014`. */
  lemma FormatApril26()
    ensures SampleFormat(April26, "d/m/Y") == "26/04/2014"
  {
    var d := April26;
    DecimalSamples();
    var f := "d/m/Y";
    assert f[0] == 'd' && f[1..] == "/m/Y";
    assert "/m/Y"[0] == '/' && "/m/Y"[1..] == "m/Y";
    assert "m/Y"[0] == 'm' && "m/Y"[1..] == "/Y";
    assert "/Y"[0] == '/' && "/Y"[1..] == "Y";
    assert "Y"[0] == 'Y' && "Y"[1..] == "";
    assert SampleFormat(d, "Y") == "2014";
    assert SampleFormat(d, "/Y") == "/2014";
    assert SampleFormat(d, "m/Y") == "04/2014";
    assert SampleFormat(d, "/m/Y") == "/04/2014";
  }

  /** `d/m/Y` extracts the 26th of April 2014 as `26/04/2014`. */
  lemma ExtractFormatsWithConfiguredFormat(e: Engine)
    requires e.format == SampleFormat
    ensures Extract(e, Config("d/m/Y", None, false), DateTime(April26)) == Str("26/04/2014")
  {
    var f := "d/m/Y";
    assert forall i :: 0 <= i < |f| ==> !IsParseOnly(f[i]);
    ExtractionFormatFixedPoint(f);
    FormatApril26();
  }

  /** The plain format `Y-m-d` is its own extraction format, after any character. */
  lemma PlainFormatKept(before: Option<char>)
    ensures StripParseOnly(before, "Y-m-d") == "Y-m-d"
  {
    var f := "Y-m-d";
    assert forall i :: 0 <= i < |f| ==> !IsParseOnly(f[i]);
    StripKeepsEscaped(before, f);
  }

  /**
   * Extracting a mutable or an immutable date-time with `Y-m-d` is one call of the
   * library's formatter, with `Y-m-d` itself, whatever the formatter does.
   */
  lemma ExtractAnyDateTime(e: Engine, d: DateTimeValue)
    ensures Extract(e, Config("Y-m-d", None, false), DateTime(d)) == Str(e.format(d, "Y-m-d"))
    ensures Extract(e, Config("Y-m-d", None, false), DateTime(d.(immutable := !d.immutable)))
         == Str(e.format(d.(immutable := !d.immutable), "Y-m-d"))
  {
    PlainFormatKept(None);
  }

  /**
   * Hydration parses with the configured format as it is, parse-only characters included:
   * `!Y-m-d`, `Y-m-d|` and `Y-m-d+` reach the library unchanged.
   */
  lemma HydrateWithRawFormat(e: Engine, f: string)
    requires f == "!Y-m-d" || f == "Y-m-d|" || f == "Y-m-d+"
    requires e.createFromFormat(f, "2018-02-05", None) == Some(February5)
    ensures var r := Hydrate(e, Config(f, None, false), Str("2018-02-05"));
      && r == Success(DateTime(February5))
      && !r.value.d.immutable
      && (e.format == SampleFormat ==> e.format(r.value.d, "Y-m-d") == "2018-02-05")
  {
    FormatFebruary5();
  }

  /** `!` prepended to the format is not printed. */
  lemma ExtractDropsLeadingBang(e: Engine)
    requires e.format == SampleFormat
    ensures Extract(e, Config("!Y-m-d", None, false), DateTime(February5)) == Str("2018-02-05")
  {
    var f := "!Y-m-d";
    assert f[0] == '!' && f[1..] == "Y-m-d";
    PlainFormatKept(Some('!'));
    assert ExtractionFormat(f) == "Y-m-d";
    FormatFebruary5();
  }

  /** `|` appended to the format is not printed. */
  lemma ExtractDropsTrailingBar(e: Engine)
    requires e.format == SampleFormat
    ensures Extract(e, Config("Y-m-d|", None, false), DateTime(February5)) == Str("2018-02-05")
  {
    var f := "Y-m-d|";
    assert f == "Y-m-d" + "|";
    StripAppendUnescaped(None, "Y-m-d", '|');
    PlainFormatKept(None);
    FormatFebruary5();
  }

  /** `+` appended to the format is not printed. */
  lemma ExtractDropsTrailingPlus(e: Engine)
    requires e.format == SampleFormat
    ensures Extract(e, Config("Y-m-d+", None, false), DateTime(February5)) == Str("2018-02-05")
  {
    var f := "Y-m-d+";
    assert f == "Y-m-d" + "+";
    StripAppendUnescaped(None, "Y-m-d", '+');
    PlainFormatKept(None);
    FormatFebruary5();
  }

  /** A parse-only character after a character other than the escape is dropped from the end. */
  lemma {:induction false} StripAppendUnescaped(before: Option<char>, s: string, c: char)
    requires IsParseOnly(c) && 0 < |s| && s[|s| - 1] != Escape
    ensures StripParseOnly(before, s + [c]) == StripParseOnly(before, s)
    decreases |s|
  {
    assert (s + [c])[0] == s[0] && (s + [c])[1..] == s[1..] + [c];
    if |s| == 1 {
      assert s[1..] + [c] == [c];
      assert StripParseOnly(Some(s[0]), [c]) == [];
    } else {
      StripAppendUnescaped(Some(s[0]), s[1..], c);
    }
  }

  /** The escaped `\+` survives in the extraction format. */
  lemma EscapedPlusKept()
    ensures ExtractionFormat("Y-m-d\\+") == "Y-m-d\\+"
  {
    var f := "Y-m-d\\+";
    assert forall i :: 0 <= i < |f| && IsParseOnly(f[i]) ==> i == 6 && f[5] == Escape;
    ExtractionFormatFixedPoint(f);
  }

  /** `Y-m-d\+` prints the 5th of February 2018 as `2018-02-05+`. */
  lemma FormatEscapedPlus()
    ensures SampleFormat(February5, "Y-m-d\\+") == "2018-02-05+"
  {
    assert "Y-m-d\\+" == "Y-m-d" + "\\+";
    assert forall i :: 0 <= i < |"Y-m-d"| ==> "Y-m-d"[i] != Escape;
    SampleFormatAppend(February5, "Y-m-d", "\\+");
    FormatFebruary5();
    assert "\\+"[0] == Escape && "\\+"[1] == '+' && "\\+"[2..] == "";
  }

  /** An escaped `\+` is kept, and printed as a literal `+`. */
  lemma ExtractKeepsEscapedPlus(e: Engine)
    requires e.format == SampleFormat
    ensures Extract(e, Config("Y-m-d\\+", None, false), DateTime(February5)) == Str("2018-02-05+")
  {
    EscapedPlusKept();
    FormatEscapedPlus();
  }

  /** Formatting a format that ends in a complete item distributes over concatenation. */
  lemma {:induction false} SampleFormatAppend(d: DateTimeValue, a: string, b: string)
    requires forall i :: 0 <= i < |a| ==> a[i] != Escape
    ensures SampleFormat(d, a + b) == SampleFormat(d, a) + SampleFormat(d, b)
    decreases |a|
  {
    if |a| == 0 {
      assert a + b == b;
    } else {
      assert (a + b)[0] == a[0] && (a + b)[1..] == a[1..] + b;
      SampleFormatAppend(d, a[1..], b);
    }
  }

  /** Null and the empty string hydrate to themselves. */
  lemma HydrateNullAndEmpty(e: Engine)
    ensures Hydrate(e, Config("Y-m-d", None, false), Null) == Success(Null)
    ensures Hydrate(e, Config("Y-m-d", None, false), Str("")) == Success(Str(""))
  {
  }

  /** A date-time, mutable or immutable, hydrates to itself. */
  lemma HydrateDateTimeVerbatim(e: Engine, d: DateTimeValue)
    ensures Hydrate(e, Config("Y-m-d", None, false), DateTime(d)) == Success(DateTime(d))
  {
  }

  /** Integers, floats, arrays and objects raise an invalid-argument error. */
  lemma HydrateRejectsNonStrings(e: Engine)
    ensures var c := Config("Y-m-d", None, false);
      && Hydrate(e, c, Int(0)) == Failure(InvalidArgument(Int(0)))
      && Hydrate(e, c, Int(1)) == Failure(InvalidArgument(Int(1)))
      && Hydrate(e, c, Float(0.0)) == Failure(InvalidArgument(Float(0.0)))
      && Hydrate(e, c, Float(1.1)) == Failure(InvalidArgument(Float(1.1)))
      && Hydrate(e, c, Array([Str("2018-11-20")])) == Failure(InvalidArgument(Array([Str("2018-11-20")])))
      && Hydrate(e, c, Object("stdClass", [("date", Str("2018-11-20"))]))
         == Failure(InvalidArgument(Object("stdClass", [("date", Str("2018-11-20"))])))
  {
  }

  /** Text the format does not match comes back unchanged when fallback is off. */
  lemma HydrateUnparseableWithoutFallback(e: Engine)
    requires e.createFromFormat("d/m/Y", "foo bar baz", None).None?
    ensures Hydrate(e, Config("d/m/Y", None, false), Str("foo bar baz")) == Success(Str("foo bar baz"))
  {
  }

  /**
   * With fallback on and no zone, text `Y-m-d` does not match is parsed leniently: the
   * result is the lenient parse's date, which prints as `2018-09-06`.
   */
  lemma HydrateWithFallback(e: Engine, d: DateTimeValue)
    requires e.format == SampleFormat
    requires e.createFromFormat("Y-m-d", "2018-09-06T12:10:30", None).None?
    requires e.construct("2018-09-06T12:10:30", None) == Some(d)
    requires d.year == 2018 && d.month == 9 && d.day == 6
    ensures var r := Hydrate(e, Config("Y-m-d", None, true), Str("2018-09-06T12:10:30"));
      r == Success(DateTime(d)) && e.format(r.value.d, "Y-m-d") == "2018-09-06"
  {
    FormatSeptember6(d);
  }

  /** `Y-m-d` prints the 6th of September 2018 as `2018-09-06`. */
  lemma FormatSeptember6(d: DateTimeValue)
    requires d.year == 2018 && d.month == 9 && d.day == 6
    ensures SampleFormat(d, "Y-m-d") == "2018-09-06"
  {
    DecimalSamples();
    assert Decimal(0, 1) == "0";
    assert Decimal(9, 2) == "09" && Decimal(6, 2) == "06";
    var f := "Y-m-d";
    assert f[0] == 'Y' && f[1..] == "-m-d";
    assert "-m-d"[0] == '-' && "-m-d"[1..] == "m-d";
    assert "m-d"[0] == 'm' && "m-d"[1..] == "-d";
    assert "-d"[0] == '-' && "-d"[1..] == "d";
    assert "d"[0] == 'd' && "d"[1..] == "";
    assert SampleFormat(d, "d") == "06";
    assert SampleFormat(d, "-d") == "-06";
    assert SampleFormat(d, "m-d") == "09-06";
    assert SampleFormat(d, "-m-d") == "-09-06";
  }

  /** With fallback on and a zone, the lenient parse's date is the result, in that zone. */
  lemma HydrateWithFallbackInZone(e: Engine)
    requires HonoursTimezone(e)
    requires e.createFromFormat("Y-m-d", "2018-09-06T12:10:30", Some("Europe/Prague")).None?
    requires e.construct("2018-09-06T12:10:30", Some("Europe/Prague")).Some?
    ensures var r := Hydrate(e, Config("Y-m-d", Some("Europe/Prague"), true), Str("2018-09-06T12:10:30"));
      && r == Success(DateTime(e.construct("2018-09-06T12:10:30", Some("Europe/Prague")).value))
      && r.value.d.zone == "Europe/Prague"
  {
    HydrateCarriesTimezone(e, Config("Y-m-d", Some("Europe/Prague"), true), "2018-09-06T12:10:30");
  }

  /** An escaped `+` survives and an unescaped one is deleted, in the same format. */
  lemma EscapedKeptUnescapedDropped()
    ensures ExtractionFormat("\\+Y+") == "\\+Y"
  {
    var a := "\\+Y";
    assert OnlyEscapedParseOnly(None, a) by {
      forall i | 0 <= i < |a| && IsParseOnly(a[i])
        ensures Previous(None, a, i) == Some(Escape)
      {
        assert i == 1;
      }
    }
    StripKeepsEscaped(None, a);
    StripAt(None, a, '+', "");
    assert a + ['+'] + "" == "\\+Y+";
  }

  /** The default strategy extracts anything that is not a date-time as it is. */
  lemma ExtractNonDateTimeWithDefault(e: Engine)
    ensures Extract(e, Default, Object("stdClass", [])) == Object("stdClass", [])
    ensures Default.format == "Y-m-d\\TH:i:sP" && Default.timezone.None? && !Default.fallback
  {
  }

  /** `Y-m-d` prints the 26th of April 2014 as `2014-04-26`. */
  lemma FormatApril26Ymd()
    ensures SampleFormat(April26, "Y-m-d") == "2014-04-26"
  {
    var d := April26;
    DecimalSamples();
    var f := "Y-m-d";
    assert f[0] == 'Y' && f[1..] == "-m-d";
    assert "-m-d"[0] == '-' && "-m-d"[1..] == "m-d";
    assert "m-d"[0] == 'm' && "m-d"[1..] == "-d";
    assert "-d"[0] == '-' && "-d"[1..] == "d";
    assert "d"[0] == 'd' && "d"[1..] == "";
    assert SampleFormat(d, "d") == "26";
    assert SampleFormat(d, "-d") == "-26";
    assert SampleFormat(d, "m-d") == "04-26";
    assert SampleFormat(d, "-m-d") == "-04-26";
  }

  /** Without a zone, `2014-04-26` is parsed strictly with `Y-m-d`, and the date prints back as `2014-04-26`. */
  lemma HydrateWithFormat(e: Engine)
    requires e.format == SampleFormat
    requires e.createFromFormat("Y-m-d", "2014-04-26", None) == Some(April26)
    ensures var r := Hydrate(e, Config("Y-m-d", None, false), Str("2014-04-26"));
      r == Success(DateTime(April26)) && e.format(r.value.d, "Y-m-d") == "2014-04-26"
  {
    FormatApril26Ymd();
  }

  /** A strictly parsed date carries the configured zone. */
  lemma HydrateWithTimezone(e: Engine)
    requires HonoursTimezone(e)
    requires e.createFromFormat("Y-m-d", "2014-04-26", Some("Asia/Kathmandu")).Some?
    ensures var r := Hydrate(e, Config("Y-m-d", Some("Asia/Kathmandu"), false), Str("2014-04-26"));
      r.Success? && r.value.DateTime? && r.value.d.zone == "Asia/Kathmandu"
  {
    HydrateCarriesTimezone(e, Config("Y-m-d", Some("Asia/Kathmandu"), false), "2014-04-26");
  }
}
