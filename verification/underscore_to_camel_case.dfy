/**
 * The under_score -> camelCase naming filter.
 *
 * One pattern replacement removes each `_` together with the character after it and puts
 * that character's upper-case form in their place; then the first character of the result
 * is lower-cased.  Which characters may follow the `_`, and how they are upper-cased,
 * depends on the filter's `Mode`.
 */
module UnderscoreToCamelCase {

  import opened Wrappers
  import opened TextSupport

  /**
   * Whether the pattern takes `c` as the character after a `_`:
   *   - without Unicode patterns, `_([\S]{1})`: anything but ASCII white space;
   *   - with Unicode patterns and multibyte support, `_(\P{Z}{1})`: anything but a space separator;
   *   - with Unicode patterns but no multibyte support, `_([^\p{Z}\p{Ll}]{1}|[a-zA-Z]{1})`:
   *     an ASCII letter, or anything that is neither a space separator nor a lower-case letter.
   *     A non-ASCII lower-case letter is refused, because it could not be upper-cased.
   */
  predicate Capitalizes(m: Mode, c: char) {
    if !m.unicodePatterns then !IsWhitespace(c)
    else if m.mbString then !IsSpaceSeparator(c)
    else (!IsSpaceSeparator(c) && !IsLower(c)) || IsAsciiUpper(c) || IsAsciiLower(c)
  }

  /** The replacement callback: `mb_strtoupper` with both facilities, `strtoupper` otherwise. */
  function UpperChar(m: Mode, c: char): char {
    if m.unicodePatterns && m.mbString then FullUpper(c) else AsciiUpper(c)
  }

  /** The replacement pass, scanning left to right as the regex engine does. */
  function Capitalize(m: Mode, s: seq<char>): seq<char>
    decreases |s|
  {
    if |s| == 0 then []
    else if s[0] == Separator && |s| > 1 && Capitalizes(m, s[1]) then [UpperChar(m, s[1])] + Capitalize(m, s[2..])
    else [s[0]] + Capitalize(m, s[1..])
  }

  /** `Capitalize` on a string with a known first character that is not a separator. */
  lemma CapitalizeCons(m: Mode, c: char, t: seq<char>)
    requires c != Separator
    ensures Capitalize(m, [c] + t) == [c] + Capitalize(m, t)
  {
    assert ([c] + t)[1..] == t;
  }

  /** `Capitalize` on a string that starts with a separator and a character the pattern takes. */
  lemma CapitalizeSeparatorCons(m: Mode, c: char, t: seq<char>)
    requires Capitalizes(m, c)
    ensures Capitalize(m, [Separator, c] + t) == [UpperChar(m, c)] + Capitalize(m, t)
  {
    assert ([Separator, c] + t)[1] == c && ([Separator, c] + t)[2..] == t;
  }

  /** `lcfirst`, or its multibyte counterpart when multibyte support is available. */
  function LowerFirst(m: Mode, s: seq<char>): (r: seq<char>)
    ensures |r| == |s|
    ensures 0 < |s| ==> r[0] == LowerChar(m, s[0]) && r[1..] == s[1..]
  {
    if |s| == 0 then [] else [LowerChar(m, s[0])] + s[1..]
  }

  /** `filter`: the replacement pass, then the first character lower-cased. */
  function Filter(m: Mode, s: seq<char>): (r: seq<char>)
    ensures |r| <= |s|
  {
    CapitalizeShortens(m, s);
    LowerFirst(m, Capitalize(m, s))
  }

  lemma {:induction false} CapitalizeShortens(m: Mode, s: seq<char>)
    ensures |Capitalize(m, s)| <= |s|
    ensures |Capitalize(m, s)| == |s| <==> forall i :: 0 <= i < |s| - 1 ==> !(s[i] == Separator && Capitalizes(m, s[i + 1]))
    decreases |s|
  {
    if |s| > 0 {
      if s[0] == Separator && |s| > 1 && Capitalizes(m, s[1]) {
        CapitalizeShortens(m, s[2..]);
      } else {
        CapitalizeShortens(m, s[1..]);
        assert forall i :: 1 <= i < |s| - 1 ==> s[i] == s[1..][i - 1] && s[i + 1] == s[1..][i];
      }
    }
  }

  /** The character the output shows for `c` at output position `j`: only position 0 is lower-cased. */
  function AtOutput(m: Mode, j: nat, c: char): char {
    if j == 0 then LowerChar(m, c) else c
  }

  /**
   * The filter as a condition on positions: `out[j..]` is what the filter makes of `s[k..]`
   * when `j` output characters precede it.  A `_` followed by a character the pattern takes
   * becomes that character upper-cased; every other character is copied.
   */
  predicate Camelizes(m: Mode, s: seq<char>, k: nat, out: seq<char>, j: nat)
    requires k <= |s| && j <= |out|
    decreases |s| - k
  {
    if k == |s| then j == |out|
    else if s[k] == Separator && k + 1 < |s| && Capitalizes(m, s[k + 1]) then
      j < |out| && out[j] == AtOutput(m, j, UpperChar(m, s[k + 1])) && Camelizes(m, s, k + 2, out, j + 1)
    else
      j < |out| && out[j] == AtOutput(m, j, s[k]) && Camelizes(m, s, k + 1, out, j + 1)
  }

  lemma {:induction false} CamelizesSuffix(m: Mode, s: seq<char>, k: nat, out: seq<char>, j: nat)
    requires k <= |s| && 0 < j <= |out|
    ensures Camelizes(m, s, k, out, j) <==> Capitalize(m, s[k..]) == out[j..]
    decreases |s| - k
  {
    if k < |s| {
      var tail := s[k..];
      var taken := s[k] == Separator && k + 1 < |s| && Capitalizes(m, s[k + 1]);
      var n := if taken then 2 else 1;
      var h := if taken then UpperChar(m, s[k + 1]) else s[k];
      assert tail[0] == s[k] && (k + 1 < |s| ==> tail[1] == s[k + 1]) && tail[n..] == s[k + n..];
      assert Capitalize(m, tail) == [h] + Capitalize(m, s[k + n..]);
      if j < |out| {
        CamelizesSuffix(m, s, k + n, out, j + 1);
        assert out[j..] == [out[j]] + out[j + 1..];
      }
    }
  }

  /** The filter's output is exactly the one that `Camelizes` describes, and no other. */
  lemma FilterSpec(m: Mode, s: seq<char>, out: seq<char>)
    ensures Filter(m, s) == out <==> Camelizes(m, s, 0, out, 0)
  {
    assert s[0..] == s;
    if |s| > 0 && |out| > 0 {
      if s[0] == Separator && |s| > 1 && Capitalizes(m, s[1]) {
        CamelizesSuffix(m, s, 2, out, 1);
      } else {
        CamelizesSuffix(m, s, 1, out, 1);
      }
      assert out == [out[0]] + out[1..];
    }
  }

  /** Input without separators is only `lcfirst`-ed. */
  lemma {:induction false} FilterWithoutSeparators(m: Mode, s: seq<char>)
    requires Separator !in s
    ensures Filter(m, s) == LowerFirst(m, s)
  {
    CapitalizeWithoutSeparators(m, s);
  }

  lemma {:induction false} CapitalizeWithoutSeparators(m: Mode, s: seq<char>)
    requires Separator !in s
    ensures Capitalize(m, s) == s
    decreases |s|
  {
    if |s| > 0 {
      assert s[0] in s;
      assert forall c :: c in s[1..] ==> c in s;
      CapitalizeWithoutSeparators(m, s[1..]);
    }
  }
}
