/**
 * Naming strategies: the pair of name translations a hydrator applies to keys, and the
 * under_score strategy built from the two naming filters.
 *
 * When hydrating, `hydrateName` turns a key of the incoming data into an object field
 * name; when extracting, `extractName` turns a field name into a key of the outgoing data.
 */
module Naming {

  import opened Wrappers
  import opened TextSupport
  import CamelCaseToUnderscore
  import UnderscoreToCamelCase

  datatype NamingStrategy = NamingStrategy(hydrateName: string -> string, extractName: string -> string)

  /** The strategy of a hydrator that has none: names pass through unchanged. */
  function Identity(): (n: NamingStrategy)
    ensures forall name :: n.hydrateName(name) == name && n.extractName(name) == name
  {
    NamingStrategy(name => name, name => name)
  }

  /**
   * The under_score strategy: data keys are under_score, fields are camelCase.  Hydrating
   * applies the under_score -> camelCase filter, extracting the camelCase -> under_score one.
   */
  function Underscore(m: Mode): (n: NamingStrategy)
    ensures forall name :: n.hydrateName(name) == UnderscoreToCamelCase.Filter(m, name)
    ensures forall name :: n.extractName(name) == CamelCaseToUnderscore.Filter(m, name)
  {
    NamingStrategy(name => UnderscoreToCamelCase.Filter(m, name), name => CamelCaseToUnderscore.Filter(m, name))
  }

  /** Hydrating a name recovers the field it was extracted from. */
  predicate RecoversField(n: NamingStrategy, field: string) {
    n.hydrateName(n.extractName(field)) == field
  }

  /**
   * A snake name: lower-case ASCII letters, digits and separators, not starting with a
   * separator, and every separator followed by a letter that does not itself stand
   * alone before another separator (`a_b_c` would come back as `a_bc`).
   */
  predicate IsSnakeBody(s: string) {
    && (forall i :: 0 <= i < |s| ==> IsAsciiLower(s[i]) || IsDigit(s[i]) || s[i] == Separator)
    && (forall i :: 0 <= i < |s| && s[i] == Separator ==>
          i + 1 < |s| && IsAsciiLower(s[i + 1]) && (i + 2 < |s| ==> s[i + 2] != Separator))
  }

  predicate IsSnakeName(s: string) {
    IsSnakeBody(s) && (0 < |s| ==> s[0] != Separator)
  }

  /** A lower-case letter or a digit: what may stand before a capital in a camel name. */
  predicate IsWordTail(c: Option<char>) {
    c.Some? && (IsAsciiLower(c.value) || IsDigit(c.value))
  }

  /**
   * A camel name continuing after `before`: ASCII letters and digits, every capital
   * directly after a lower-case letter or a digit (so no two capitals meet).
   */
  predicate IsCamelBody(before: Option<char>, t: string) {
    && (forall i :: 0 <= i < |t| ==> IsAsciiUpper(t[i]) || IsAsciiLower(t[i]) || IsDigit(t[i]))
    && (forall i :: 0 <= i < |t| && IsAsciiUpper(t[i]) ==> IsWordTail(Previous(before, t, i)))
  }

  /** A camel name: a camel body that starts the string, so it does not start with a capital. */
  predicate IsCamelName(t: string) {
    IsCamelBody(None, t)
  }

  lemma SnakeBodyDrop(s: string, n: nat)
    requires n <= |s| && IsSnakeBody(s)
    ensures IsSnakeBody(s[n..])
  {
    forall i | 0 <= i < |s[n..]|
      ensures s[n..][i] == s[i + n]
    {
    }
  }

  /** A capital after a lower-case letter or digit comes out lower-cased, after a separator. */
  lemma SeparateWordStart(m: Mode, before2: Option<char>, before: Option<char>, c: char, t: string)
    requires IsAsciiUpper(c) && IsWordTail(before)
    ensures LowerString(m, CamelCaseToUnderscore.Separate(m, before2, before, [c] + t))
         == [Separator, LowerChar(m, c)] + LowerString(m, CamelCaseToUnderscore.Separate(m, before, Some(c), t))
  {
    assert CamelCaseToUnderscore.StartsWord(m, before, c);
    CamelCaseToUnderscore.SeparateCons(m, before2, before, c, t);
    LowerStringAppend(m, [Separator, c], CamelCaseToUnderscore.Separate(m, before, Some(c), t));
  }

  /** One step of the snake round trip: the separator and the letter after it. */
  lemma SnakeStepSeparator(m: Mode, before2: Option<char>, before: Option<char>, s: string)
    requires 1 < |s| && s[0] == Separator && IsAsciiLower(s[1]) && IsWordTail(before)
    ensures var c := UnderscoreToCamelCase.UpperChar(m, s[1]);
      LowerString(m, CamelCaseToUnderscore.Separate(m, before2, before, UnderscoreToCamelCase.Capitalize(m, s)))
        == [Separator, s[1]] + LowerString(m, CamelCaseToUnderscore.Separate(m, before, Some(c), UnderscoreToCamelCase.Capitalize(m, s[2..])))
  {
    var c := UnderscoreToCamelCase.UpperChar(m, s[1]);
    assert s == [Separator, s[1]] + s[2..];
    UnderscoreToCamelCase.CapitalizeSeparatorCons(m, s[1], s[2..]);
    assert IsAsciiUpper(c) && LowerChar(m, c) == s[1];
    SeparateWordStart(m, before2, before, c, UnderscoreToCamelCase.Capitalize(m, s[2..]));
  }

  /** One step of the snake round trip: a letter or digit that is copied. */
  lemma SnakeStepWord(m: Mode, before2: Option<char>, before: Option<char>, s: string)
    requires 0 < |s| && (IsAsciiLower(s[0]) || IsDigit(s[0]))
    ensures LowerString(m, CamelCaseToUnderscore.Separate(m, before2, before, UnderscoreToCamelCase.Capitalize(m, s)))
        == [s[0]] + LowerString(m, CamelCaseToUnderscore.Separate(m, before, Some(s[0]), UnderscoreToCamelCase.Capitalize(m, s[1..])))
  {
    var t := UnderscoreToCamelCase.Capitalize(m, s[1..]);
    assert s == [s[0]] + s[1..];
    UnderscoreToCamelCase.CapitalizeCons(m, s[0], s[1..]);
    assert LowerChar(m, s[0]) == s[0];
    CamelCaseToUnderscore.SeparateCons(m, before2, before, s[0], t);
    LowerStringAppend(m, [s[0]], CamelCaseToUnderscore.Separate(m, before, Some(s[0]), t));
  }

  lemma {:induction false} SnakeRoundTripFrom(m: Mode, before2: Option<char>, before: Option<char>, s: string)
    requires IsSnakeBody(s)
    requires 0 < |s| && s[0] == Separator ==> IsWordTail(before)
    ensures LowerString(m, CamelCaseToUnderscore.Separate(m, before2, before, UnderscoreToCamelCase.Capitalize(m, s))) == s
    decreases |s|
  {
    if |s| > 0 {
      if s[0] == Separator {
        SnakeStepSeparator(m, before2, before, s);
        SnakeBodyDrop(s, 2);
        assert 0 < |s[2..]| ==> s[2..][0] == s[2];
        SnakeRoundTripFrom(m, before, Some(UnderscoreToCamelCase.UpperChar(m, s[1])), s[2..]);
        assert s == [Separator, s[1]] + s[2..];
      } else {
        SnakeStepWord(m, before2, before, s);
        SnakeBodyDrop(s, 1);
        SnakeRoundTripFrom(m, before, Some(s[0]), s[1..]);
        assert s == [s[0]] + s[1..];
      }
    }
  }

  /** under_score -> camelCase -> under_score gives back every snake name, in every mode. */
  lemma SnakeRoundTrip(m: Mode, s: string)
    requires IsSnakeName(s)
    ensures CamelCaseToUnderscore.Filter(m, UnderscoreToCamelCase.Filter(m, s)) == s
  {
    var c := UnderscoreToCamelCase.Capitalize(m, s);
    if |s| > 0 {
      assert c == [s[0]] + UnderscoreToCamelCase.Capitalize(m, s[1..]);
      assert UnderscoreToCamelCase.LowerFirst(m, c) == c;
    }
    SnakeRoundTripFrom(m, None, None, s);
  }

  lemma CamelBodyTail(before: Option<char>, t: string)
    requires 0 < |t| && IsCamelBody(before, t)
    ensures IsCamelBody(Some(t[0]), t[1..])
  {
    forall i | 0 <= i < |t[1..]| && IsAsciiUpper(t[1..][i])
      ensures IsWordTail(Previous(Some(t[0]), t[1..], i))
    {
      assert t[1..][i] == t[i + 1];
    }
  }

  /** A capital that starts a word comes back from its lower-cased, separated form. */
  lemma CamelStepCapital(m: Mode, x: char, rest: string)
    requires IsAsciiUpper(x)
    ensures UnderscoreToCamelCase.Capitalize(m, LowerString(m, [Separator, x] + rest))
         == [x] + UnderscoreToCamelCase.Capitalize(m, LowerString(m, rest))
  {
    var lx := LowerChar(m, x);
    assert IsAsciiLower(lx) && UnderscoreToCamelCase.UpperChar(m, lx) == x;
    assert UnderscoreToCamelCase.Capitalizes(m, lx);
    LowerStringAppend(m, [Separator, x], rest);
    assert LowerString(m, [Separator, x]) == [Separator, lx];
    UnderscoreToCamelCase.CapitalizeSeparatorCons(m, lx, LowerString(m, rest));
  }

  /** A lower-case letter or digit comes back from its lower-cased form. */
  lemma CamelStepOther(m: Mode, x: char, rest: string)
    requires IsAsciiLower(x) || IsDigit(x)
    ensures UnderscoreToCamelCase.Capitalize(m, LowerString(m, [x] + rest))
         == [x] + UnderscoreToCamelCase.Capitalize(m, LowerString(m, rest))
  {
    LowerStringAppend(m, [x], rest);
    assert LowerString(m, [x]) == [x];
    UnderscoreToCamelCase.CapitalizeCons(m, x, LowerString(m, rest));
  }

  lemma {:induction false} CamelRoundTripFrom(m: Mode, before2: Option<char>, before: Option<char>, t: string)
    requires IsCamelBody(before, t)
    ensures UnderscoreToCamelCase.Capitalize(m, LowerString(m, CamelCaseToUnderscore.Separate(m, before2, before, t))) == t
    decreases |t|
  {
    if |t| > 0 {
      var x := t[0];
      var rest := CamelCaseToUnderscore.Separate(m, before, Some(x), t[1..]);
      CamelBodyTail(before, t);
      CamelRoundTripFrom(m, before, Some(x), t[1..]);
      assert t == [x] + t[1..];
      CamelCaseToUnderscore.SeparateCons(m, before2, before, x, t[1..]);
      if IsAsciiUpper(x) {
        assert IsWordTail(Previous(before, t, 0));
        assert CamelCaseToUnderscore.Separate(m, before2, before, t) == [Separator, x] + rest;
        CamelStepCapital(m, x, rest);
      } else {
        assert CamelCaseToUnderscore.Separate(m, before2, before, t) == [x] + rest;
        CamelStepOther(m, x, rest);
      }
    }
  }

  /** camelCase -> under_score -> camelCase gives back every camel name, in every mode. */
  lemma CamelRoundTrip(m: Mode, t: string)
    requires IsCamelName(t)
    ensures UnderscoreToCamelCase.Filter(m, CamelCaseToUnderscore.Filter(m, t)) == t
  {
    CamelRoundTripFrom(m, None, None, t);
    if |t| > 0 {
      assert !IsAsciiUpper(t[0]);
      assert LowerChar(m, t[0]) == t[0];
      assert t == [t[0]] + t[1..];
    }
  }

  /** The under_score strategy recovers every camel-named field. */
  lemma UnderscoreRecoversCamelFields(m: Mode, field: string)
    requires IsCamelName(field)
    ensures RecoversField(Underscore(m), field)
  {
    CamelRoundTrip(m, field);
  }
}
