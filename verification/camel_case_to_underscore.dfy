/**
 * The camelCase -> under_score naming filter.
 *
 * The filter runs two pattern replacements one after the other and then lower-cases the
 * result.  The first replacement splits an upper-case run before its last capital when a
 * lower-case letter follows (`CASEDWords` -> `CASED_Words`); the second inserts `_`
 * before a capital that follows a lower-case letter or a digit (`camelCase` ->
 * `camel_Case`).  Which character classes the patterns use, and which lower-casing
 * function is applied, depends on the filter's `Mode`.
 */
module CamelCaseToUnderscore {

  import opened Wrappers
  import opened TextSupport

  /**
   * The first pattern, matched at character `c` with its two left neighbours and its right
   * neighbour.  With Unicode patterns it is `(?<=\p{Lu})(\p{Lu}\p{Ll})`: one capital before
   * is enough.  The ASCII pattern `(?<=[A-Z])([A-Z]+)([A-Z][a-z])` needs the look-behind
   * capital plus at least one capital in `[A-Z]+` before the split point, so two capitals
   * must precede `c`.
   */
  predicate SplitsCapitalRun(m: Mode, before2: Option<char>, before: Option<char>, c: char, after: Option<char>) {
    if m.unicodePatterns then
      && before.Some? && IsUpper(before.value)
      && IsUpper(c)
      && after.Some? && IsLower(after.value)
    else
      && before2.Some? && IsAsciiUpper(before2.value)
      && before.Some? && IsAsciiUpper(before.value)
      && IsAsciiUpper(c)
      && after.Some? && IsAsciiLower(after.value)
  }

  /**
   * The second pattern, matched at character `c`: `(?<=\p{Ll}|\p{Nd})(\p{Lu})` with Unicode
   * patterns, `(?<=[a-z0-9])([A-Z])` without.
   */
  predicate StartsWord(m: Mode, before: Option<char>, c: char) {
    if m.unicodePatterns then
      before.Some? && (IsLower(before.value) || IsDigit(before.value)) && IsUpper(c)
    else
      before.Some? && (IsAsciiLower(before.value) || IsDigit(before.value)) && IsAsciiUpper(c)
  }

  /**
   * The first replacement pass over `s`, whose two preceding characters are `before2` and
   * `before`.  Matches of the first pattern never overlap (a match ends on a lower-case
   * letter, which cannot start or precede another), so scanning left to right and testing
   * every position against the original text is the regex engine's behaviour.
   */
  function FirstPass(m: Mode, before2: Option<char>, before: Option<char>, s: seq<char>): seq<char>
    decreases |s|
  {
    if |s| == 0 then []
    else
      var split := SplitsCapitalRun(m, before2, before, s[0], CharAt(s, 1));
      (if split then [Separator] else []) + [s[0]] + FirstPass(m, before, Some(s[0]), s[1..])
  }

  /** The second replacement pass over the output of the first. */
  function SecondPass(m: Mode, before: Option<char>, s: seq<char>): seq<char>
    decreases |s|
  {
    if |s| == 0 then []
    else (if StartsWord(m, before, s[0]) then [Separator] else []) + [s[0]] + SecondPass(m, Some(s[0]), s[1..])
  }

  /** A word boundary in the original text: either pattern matches at `c`. */
  predicate IsBoundary(m: Mode, before2: Option<char>, before: Option<char>, c: char, after: Option<char>) {
    SplitsCapitalRun(m, before2, before, c, after) || StartsWord(m, before, c)
  }

  /** One pass that inserts a separator at every boundary of the original text. */
  function Separate(m: Mode, before2: Option<char>, before: Option<char>, s: seq<char>): seq<char>
    decreases |s|
  {
    if |s| == 0 then []
    else
      var boundary := IsBoundary(m, before2, before, s[0], CharAt(s, 1));
      (if boundary then [Separator] else []) + [s[0]] + Separate(m, before, Some(s[0]), s[1..])
  }

  /**
   * `filter`: both replacement passes, then `mb_strtolower` (or `strtolower` without
   * multibyte support).  The result is the lower-cased text with one separator before
   * every boundary of the ORIGINAL text: the second pass never fires next to a separator
   * the first pass inserted.
   */
  function Filter(m: Mode, s: seq<char>): (r: seq<char>)
    ensures r == LowerString(m, Separate(m, None, None, s))
  {
    TwoPassesAreOnePass(m, None, None, s);
    LowerString(m, SecondPass(m, None, FirstPass(m, None, None, s)))
  }

  lemma {:induction false} SecondPassAppend(m: Mode, before: Option<char>, a: seq<char>, b: seq<char>)
    ensures SecondPass(m, before, a + b)
         == SecondPass(m, before, a) + SecondPass(m, if |a| == 0 then before else Some(a[|a| - 1]), b)
    decreases |a|
  {
    if |a| == 0 {
      assert a + b == b;
    } else {
      assert (a + b)[0] == a[0];
      assert (a + b)[1..] == a[1..] + b;
      SecondPassAppend(m, Some(a[0]), a[1..], b);
    }
  }

  /** Running the two passes one after the other inserts exactly the boundaries of the original. */
  lemma {:induction false} TwoPassesAreOnePass(m: Mode, before2: Option<char>, before: Option<char>, s: seq<char>)
    ensures SecondPass(m, before, FirstPass(m, before2, before, s)) == Separate(m, before2, before, s)
    decreases |s|
  {
    if |s| > 0 {
      var split := SplitsCapitalRun(m, before2, before, s[0], CharAt(s, 1));
      var head := (if split then [Separator] else []) + [s[0]];
      var rest := FirstPass(m, before, Some(s[0]), s[1..]);
      assert FirstPass(m, before2, before, s) == head + rest;
      SecondPassAppend(m, before, head, rest);
      if split {
        assert SecondPass(m, before, head) == [Separator, s[0]] by {
          assert head == [Separator] + [s[0]];
          SecondPassAppend(m, before, [Separator], [s[0]]);
        }
      }
      TwoPassesAreOnePass(m, before, Some(s[0]), s[1..]);
    }
  }

  /**
   * The filter as a condition on positions: `out[j..]` is `s[k..]` lower-cased, with one
   * separator before each index of `s` that is a boundary (judged from the whole of `s`).
   */
  predicate Separates(m: Mode, s: seq<char>, k: nat, out: seq<char>, j: nat)
    requires k <= |s| && j <= |out|
    decreases |s| - k
  {
    if k == |s| then j == |out|
    else if IsBoundary(m, CharAt(s, k - 2), CharAt(s, k - 1), s[k], CharAt(s, k + 1)) then
      && j + 1 < |out| && out[j] == Separator && out[j + 1] == LowerChar(m, s[k])
      && Separates(m, s, k + 1, out, j + 2)
    else
      j < |out| && out[j] == LowerChar(m, s[k]) && Separates(m, s, k + 1, out, j + 1)
  }

  /** What the filter outputs for `s[k]`: the lower-cased character, after a separator at a boundary. */
  function Piece(m: Mode, s: seq<char>, k: nat): (r: seq<char>)
    requires k < |s|
    ensures |r| == 1 || (|r| == 2 && r[0] == Separator)
    ensures r[|r| - 1] == LowerChar(m, s[k])
  {
    if IsBoundary(m, CharAt(s, k - 2), CharAt(s, k - 1), s[k], CharAt(s, k + 1))
    then [Separator, LowerChar(m, s[k])] else [LowerChar(m, s[k])]
  }

  /** The lower-cased separated suffix from `k`, with the piece for `s[k]` taken off the front. */
  lemma SeparateSuffixCons(m: Mode, s: seq<char>, k: nat)
    requires k < |s|
    ensures LowerString(m, Separate(m, CharAt(s, k - 2), CharAt(s, k - 1), s[k..]))
         == Piece(m, s, k) + LowerString(m, Separate(m, CharAt(s, k - 1), CharAt(s, k), s[k + 1..]))
  {
    var boundary := IsBoundary(m, CharAt(s, k - 2), CharAt(s, k - 1), s[k], CharAt(s, k + 1));
    var head := if boundary then [Separator, s[k]] else [s[k]];
    assert s[k..] == [s[k]] + s[k + 1..] && CharAt(s[k + 1..], 0) == CharAt(s, k + 1);
    SeparateCons(m, CharAt(s, k - 2), CharAt(s, k - 1), s[k], s[k + 1..]);
    LowerStringAppend(m, head, Separate(m, CharAt(s, k - 1), CharAt(s, k), s[k + 1..]));
  }

  /** One step of `Separates`: the piece for `s[k]` sits at `j`, and the rest follows it. */
  lemma SeparatesCons(m: Mode, s: seq<char>, k: nat, out: seq<char>, j: nat)
    requires k < |s| && j <= |out|
    ensures Separates(m, s, k, out, j)
        <==> j + |Piece(m, s, k)| <= |out| && out[j..j + |Piece(m, s, k)|] == Piece(m, s, k)
             && Separates(m, s, k + 1, out, j + |Piece(m, s, k)|)
  {
  }

  /** A sequence starting at `j` is `a + b` exactly when its two parts are `a` and `b`. */
  lemma SliceConcat(out: seq<char>, j: nat, a: seq<char>, b: seq<char>)
    requires j <= |out|
    ensures a + b == out[j..]
        <==> j + |a| <= |out| && out[j..j + |a|] == a && b == out[j + |a|..]
  {
    if j + |a| <= |out| {
      assert out[j..] == out[j..j + |a|] + out[j + |a|..];
    }
  }

  lemma {:induction false} SeparatesSuffix(m: Mode, s: seq<char>, k: nat, out: seq<char>, j: nat)
    requires k <= |s| && j <= |out|
    ensures Separates(m, s, k, out, j)
        <==> LowerString(m, Separate(m, CharAt(s, k - 2), CharAt(s, k - 1), s[k..])) == out[j..]
    decreases |s| - k
  {
    if k < |s| {
      var n := |Piece(m, s, k)|;
      SeparateSuffixCons(m, s, k);
      SeparatesCons(m, s, k, out, j);
      SliceConcat(out, j, Piece(m, s, k), LowerString(m, Separate(m, CharAt(s, k - 1), CharAt(s, k), s[k + 1..])));
      if j + n <= |out| {
        SeparatesSuffix(m, s, k + 1, out, j + n);
      }
    }
  }

  /** `Separate` on a string with a known first character. */
  lemma SeparateCons(m: Mode, before2: Option<char>, before: Option<char>, c: char, t: seq<char>)
    ensures Separate(m, before2, before, [c] + t)
         == (if IsBoundary(m, before2, before, c, CharAt(t, 0)) then [Separator, c] else [c]) + Separate(m, before, Some(c), t)
  {
    assert ([c] + t)[0] == c && ([c] + t)[1..] == t && CharAt([c] + t, 1) == CharAt(t, 0);
  }

  /** The filter's output is exactly the one that `Separates` describes, and no other. */
  lemma FilterSpec(m: Mode, s: seq<char>, out: seq<char>)
    ensures Filter(m, s) == out <==> Separates(m, s, 0, out, 0)
  {
    SeparatesSuffix(m, s, 0, out, 0);
    assert s[0..] == s && out[0..] == out;
  }

  lemma {:induction false} SeparateKeepsText(m: Mode, before2: Option<char>, before: Option<char>, s: seq<char>)
    ensures RemoveSeparators(Separate(m, before2, before, s)) == RemoveSeparators(s)
    decreases |s|
  {
    if |s| > 0 {
      var boundary := IsBoundary(m, before2, before, s[0], CharAt(s, 1));
      var head := (if boundary then [Separator] else []) + [s[0]];
      RemoveSeparatorsAppend(head, Separate(m, before, Some(s[0]), s[1..]));
      if boundary {
        RemoveSeparatorsAppend([Separator], [s[0]]);
      }
      assert s == [s[0]] + s[1..];
      RemoveSeparatorsAppend([s[0]], s[1..]);
      SeparateKeepsText(m, before, Some(s[0]), s[1..]);
    }
  }

  /**
   * The filter only inserts separators and changes case: deleting every `_` from its
   * output leaves the lower-cased input with its own `_` deleted.
   */
  lemma FilterOnlyInsertsSeparators(m: Mode, s: seq<char>)
    ensures RemoveSeparators(Filter(m, s)) == LowerString(m, RemoveSeparators(s))
  {
    SeparateKeepsText(m, None, None, s);
    RemoveSeparatorsLower(m, Separate(m, None, None, s));
  }

  lemma {:induction false} SeparateIgnoresMbString(u: bool, before2: Option<char>, before: Option<char>, s: seq<char>)
    ensures Separate(Mode(u, true), before2, before, s) == Separate(Mode(u, false), before2, before, s)
    ensures (forall i :: 0 <= i < |s| ==> IsAscii(s[i]))
        ==> forall i :: 0 <= i < |Separate(Mode(u, true), before2, before, s)| ==> IsAscii(Separate(Mode(u, true), before2, before, s)[i])
    decreases |s|
  {
    if |s| > 0 {
      SeparateIgnoresMbString(u, before, Some(s[0]), s[1..]);
    }
  }

  /** On ASCII input the multibyte flag makes no difference to the filter. */
  lemma FilterAsciiIgnoresMbString(u: bool, s: seq<char>)
    requires forall i :: 0 <= i < |s| ==> IsAscii(s[i])
    ensures Filter(Mode(u, true), s) == Filter(Mode(u, false), s)
  {
    SeparateIgnoresMbString(u, None, None, s);
    LowerStringAscii(Separate(Mode(u, true), None, None, s));
  }
}
