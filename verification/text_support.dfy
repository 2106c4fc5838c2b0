/**
 * The character classes and case maps the naming filters rely on.
 *
 * The filters use PCRE Unicode properties (`\p{Lu}`, `\p{Ll}`, `\p{Nd}`, `\p{Z}`) and the
 * multibyte case functions when those facilities are available, and ASCII classes and
 * byte-wise case functions when they are not.  The full Unicode tables are replaced here
 * by a small explicit table: ASCII plus the pair U+0160 (capital S with caron) and
 * U+0161 (small s with caron).  Every other character is caseless.
 */
module TextSupport {

  import opened Wrappers

  /**
   * Which optional text facilities a filter may use.  `unicodePatterns` is the PCRE
   * Unicode support flag, `mbString` the multibyte-string support flag; each filter
   * keeps both and its behaviour branches on them.
   */
  datatype Mode = Mode(unicodePatterns: bool, mbString: bool)

  /** Both facilities present: what a filter probes on a fully equipped runtime. */
  const FullSupport: Mode := Mode(true, true)

  /** Unicode patterns switched off, multibyte functions still on. */
  const NoUnicodePatterns: Mode := Mode(false, true)

  /** Unicode patterns on, multibyte functions switched off. */
  const NoMbString: Mode := Mode(true, false)

  const CapitalSCaron: char := '\U{0160}'
  const SmallSCaron: char := '\U{0161}'

  /** `[A-Z]` */
  predicate IsAsciiUpper(c: char) {
    'A' <= c <= 'Z'
  }

  /** `[a-z]` */
  predicate IsAsciiLower(c: char) {
    'a' <= c <= 'z'
  }

  /** `[0-9]`, which also stands in for `\p{Nd}`. */
  predicate IsDigit(c: char) {
    '0' <= c <= '9'
  }

  predicate IsAscii(c: char) {
    c < '\U{0080}'
  }

  /** `\p{Lu}` over the explicit table. */
  predicate IsUpper(c: char) {
    IsAsciiUpper(c) || c == CapitalSCaron
  }

  /** `\p{Ll}` over the explicit table. */
  predicate IsLower(c: char) {
    IsAsciiLower(c) || c == SmallSCaron
  }

  /** `\p{Z}`: the space separators of the table (space and no-break space). */
  predicate IsSpaceSeparator(c: char) {
    c == ' ' || c == '\U{00A0}'
  }

  /** PCRE's `\s` without Unicode support: the ASCII white-space characters. */
  predicate IsWhitespace(c: char) {
    c == ' ' || c == '\t' || c == '\n' || c == '\U{000B}' || c == '\U{000C}' || c == '\r'
  }

  /** `strtolower` on one character: only `A`-`Z` change. */
  function AsciiLower(c: char): (r: char)
    ensures IsAsciiUpper(c) ==> IsAsciiLower(r) && r as int == c as int + 32
    ensures !IsAsciiUpper(c) ==> r == c
  {
    if IsAsciiUpper(c) then (c as int + 32) as char else c
  }

  /** `strtoupper` on one character: only `a`-`z` change. */
  function AsciiUpper(c: char): (r: char)
    ensures IsAsciiLower(c) ==> IsAsciiUpper(r) && r as int == c as int - 32
    ensures !IsAsciiLower(c) ==> r == c
  {
    if IsAsciiLower(c) then (c as int - 32) as char else c
  }

  /** `mb_strtolower` on one character, over the explicit table. */
  function FullLower(c: char): (r: char)
    ensures IsUpper(c) ==> IsLower(r)
    ensures !IsUpper(c) ==> r == c
    ensures IsAscii(c) ==> r == AsciiLower(c)
  {
    if c == CapitalSCaron then SmallSCaron else AsciiLower(c)
  }

  /** `mb_strtoupper` on one character, over the explicit table. */
  function FullUpper(c: char): (r: char)
    ensures IsLower(c) ==> IsUpper(r)
    ensures !IsLower(c) ==> r == c
    ensures IsAscii(c) ==> r == AsciiUpper(c)
  {
    if c == SmallSCaron then CapitalSCaron else AsciiUpper(c)
  }

  /** The lower-casing a filter applies: multibyte-aware when it may, byte-wise otherwise. */
  function LowerChar(m: Mode, c: char): char {
    if m.mbString then FullLower(c) else AsciiLower(c)
  }

  /** Lower-cases a whole string character by character. */
  function LowerString(m: Mode, s: seq<char>): (r: seq<char>)
    ensures |r| == |s|
  {
    seq(|s|, i requires 0 <= i < |s| => LowerChar(m, s[i]))
  }

  /** Lower-casing never produces the separator `_` from anything else. */
  lemma LowerKeepsSeparator(m: Mode, c: char)
    ensures LowerChar(m, c) == '_' <==> c == '_'
  {
  }

  /** On ASCII text the two lower-casing functions agree, so `mbString` does not matter. */
  lemma LowerStringAscii(s: seq<char>)
    requires forall i :: 0 <= i < |s| ==> IsAscii(s[i])
    ensures forall u :: LowerString(Mode(u, true), s) == LowerString(Mode(u, false), s)
  {
  }

  /** Lower-casing distributes over concatenation. */
  lemma LowerStringAppend(m: Mode, a: seq<char>, b: seq<char>)
    ensures LowerString(m, a + b) == LowerString(m, a) + LowerString(m, b)
  {
  }

  /** The separator both naming filters insert and remove. */
  const Separator: char := '_'

  /** The character at index `i`, or `None` outside the string: what a look-around sees. */
  function CharAt(s: seq<char>, i: int): (r: Option<char>)
    ensures r.Some? <==> 0 <= i < |s|
    ensures r.Some? ==> r.value == s[i]
  {
    if 0 <= i < |s| then Some(s[i]) else None
  }

  /** The character before index `i` of `t`, where `before` precedes `t`. */
  function Previous(before: Option<char>, t: seq<char>, i: nat): (r: Option<char>)
    requires i <= |t|
    ensures 0 < i ==> r == Some(t[i - 1])
    ensures i == 0 ==> r == before
  {
    if i == 0 then before else Some(t[i - 1])
  }

  /** `s` with every separator deleted. */
  function RemoveSeparators(s: seq<char>): (r: seq<char>)
    ensures |r| <= |s|
    ensures Separator !in r
  {
    if |s| == 0 then []
    else (if s[0] == Separator then [] else [s[0]]) + RemoveSeparators(s[1..])
  }

  lemma RemoveSeparatorsAppend(a: seq<char>, b: seq<char>)
    ensures RemoveSeparators(a + b) == RemoveSeparators(a) + RemoveSeparators(b)
  {
    if |a| == 0 {
      assert a + b == b;
    } else {
      assert (a + b)[0] == a[0];
      assert (a + b)[1..] == a[1..] + b;
      RemoveSeparatorsAppend(a[1..], b);
    }
  }

  /** Removing separators and lower-casing commute, because lower-casing neither makes nor unmakes `_`. */
  lemma {:induction false} RemoveSeparatorsLower(m: Mode, s: seq<char>)
    ensures RemoveSeparators(LowerString(m, s)) == LowerString(m, RemoveSeparators(s))
  {
    if |s| > 0 {
      assert LowerString(m, s) == [LowerChar(m, s[0])] + LowerString(m, s[1..]);
      LowerKeepsSeparator(m, s[0]);
      RemoveSeparatorsLower(m, s[1..]);
      calc {
        LowerString(m, RemoveSeparators(s));
        LowerString(m, (if s[0] == Separator then [] else [s[0]]) + RemoveSeparators(s[1..]));
        { LowerStringAppend(m, if s[0] == Separator then [] else [s[0]], RemoveSeparators(s[1..])); }
        LowerString(m, if s[0] == Separator then [] else [s[0]]) + LowerString(m, RemoveSeparators(s[1..]));
      }
    }
  }
}
