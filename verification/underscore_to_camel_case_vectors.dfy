/**
 * The under_score -> camelCase filter on the test vectors of its three configurations:
 * Unicode patterns switched off, both facilities present, and multibyte support switched
 * off.  Each vector is proved through the position-wise description `Camelizes`; where
 * the configuration promises that the filter changes its input, the vector says so too.
 *
 * Literals longer than ten characters are written, in contracts and proofs alike, as
 * concatenations of ten-character pieces (`"studly_cas" + "es_me"` is `studly_cases_me`): the
 * prover takes short pieces apart far more cheaply than one long literal.
 */
module UnderscoreToCamelCaseVectors {

  import opened TextSupport
  import opened UnderscoreToCamelCase

  /** `Studly` becomes `studly` without Unicode patterns. */
  lemma OneWordWithoutUnicodePatterns()
    ensures Filter(NoUnicodePatterns, "Studly") == "studly"
    ensures Filter(NoUnicodePatterns, "Studly") != "Studly"
  {
    var s := "Studly";
    var out := "studly";
    assert Camelizes(NoUnicodePatterns, s, 5, out, 5);
    assert Camelizes(NoUnicodePatterns, s, 2, out, 2);
    assert Camelizes(NoUnicodePatterns, s, 0, out, 0);
    FilterSpec(NoUnicodePatterns, s, out);
    assert out[0] != s[0];
  }

  /** `studly_cases_me` becomes `studlyCasesMe` without Unicode patterns. */
  lemma MultipleWordsWithoutUnicodePatterns()
    ensures Filter(NoUnicodePatterns, "studly_cas" + "es_me") == "studlyCase" + "sMe"
    ensures Filter(NoUnicodePatterns, "studly_cas" + "es_me") != "studly_cas" + "es_me"
  {
    var s := "studly_cas" + "es_me";
    var out := "studlyCase" + "sMe";
    assert Camelizes(NoUnicodePatterns, s, 14, out, 12);
    assert Camelizes(NoUnicodePatterns, s, 10, out, 9);
    assert Camelizes(NoUnicodePatterns, s, 6, out, 6);
    assert Camelizes(NoUnicodePatterns, s, 3, out, 3);
    assert Camelizes(NoUnicodePatterns, s, 0, out, 0);
    FilterSpec(NoUnicodePatterns, s, out);
    assert |out| != |s|;
  }

  /** `one_2_three` becomes `one2Three` without Unicode patterns. */
  lemma AlphanumericInSingleWordWithoutUnicodePatterns()
    ensures Filter(NoUnicodePatterns, "one_2_thre" + "e") == "one2Three"
    ensures Filter(NoUnicodePatterns, "one_2_thre" + "e") != "one_2_thre" + "e"
  {
    var s := "one_2_thre" + "e";
    var out := "one2Three";
    assert Camelizes(NoUnicodePatterns, s, 10, out, 8);
    assert Camelizes(NoUnicodePatterns, s, 7, out, 5);
    assert Camelizes(NoUnicodePatterns, s, 2, out, 2);
    assert Camelizes(NoUnicodePatterns, s, 0, out, 0);
    FilterSpec(NoUnicodePatterns, s, out);
    assert |out| != |s|;
  }

  /** `one2_three` becomes `one2Three` without Unicode patterns. */
  lemma AlphanumericInSeparateWordsWithoutUnicodePatterns()
    ensures Filter(NoUnicodePatterns, "one2_three") == "one2Three"
    ensures Filter(NoUnicodePatterns, "one2_three") != "one2_three"
  {
    var s := "one2_three";
    var out := "one2Three";
    assert Camelizes(NoUnicodePatterns, s, 9, out, 8);
    assert Camelizes(NoUnicodePatterns, s, 6, out, 5);
    assert Camelizes(NoUnicodePatterns, s, 2, out, 2);
    assert Camelizes(NoUnicodePatterns, s, 0, out, 0);
    FilterSpec(NoUnicodePatterns, s, out);
    assert |out| != |s|;
  }

  /** `Camel` becomes `camel` with both facilities. */
  lemma UppercaseFirstLetterWithFullSupport()
    ensures Filter(FullSupport, "Camel") == "camel"
    ensures Filter(FullSupport, "Camel") != "Camel"
  {
    var s := "Camel";
    var out := "camel";
    assert Camelizes(FullSupport, s, 4, out, 4);
    assert Camelizes(FullSupport, s, 1, out, 1);
    assert Camelizes(FullSupport, s, 0, out, 0);
    FilterSpec(FullSupport, s, out);
    assert out[0] != s[0];
  }

  /** `studly_cases_me` becomes `studlyCasesMe` with both facilities. */
  lemma MultipleWordsWithFullSupport()
    ensures Filter(FullSupport, "studly_cas" + "es_me") == "studlyCase" + "sMe"
    ensures Filter(FullSupport, "studly_cas" + "es_me") != "studly_cas" + "es_me"
  {
    var s := "studly_cas" + "es_me";
    var out := "studlyCase" + "sMe";
    assert Camelizes(FullSupport, s, 14, out, 12);
    assert Camelizes(FullSupport, s, 10, out, 9);
    assert Camelizes(FullSupport, s, 6, out, 6);
    assert Camelizes(FullSupport, s, 3, out, 3);
    assert Camelizes(FullSupport, s, 0, out, 0);
    FilterSpec(FullSupport, s, out);
    assert |out| != |s|;
  }

  /** `one_2_three` becomes `one2Three` with both facilities. */
  lemma AlphanumericInSingleWordWithFullSupport()
    ensures Filter(FullSupport, "one_2_thre" + "e") == "one2Three"
    ensures Filter(FullSupport, "one_2_thre" + "e") != "one_2_thre" + "e"
  {
    var s := "one_2_thre" + "e";
    var out := "one2Three";
    assert Camelizes(FullSupport, s, 10, out, 8);
    assert Camelizes(FullSupport, s, 7, out, 5);
    assert Camelizes(FullSupport, s, 2, out, 2);
    assert Camelizes(FullSupport, s, 0, out, 0);
    FilterSpec(FullSupport, s, out);
    assert |out| != |s|;
  }

  /** `one2_three` becomes `one2Three` with both facilities. */
  lemma AlphanumericInSeparateWordsWithFullSupport()
    ensures Filter(FullSupport, "one2_three") == "one2Three"
    ensures Filter(FullSupport, "one2_three") != "one2_three"
  {
    var s := "one2_three";
    var out := "one2Three";
    assert Camelizes(FullSupport, s, 9, out, 8);
    assert Camelizes(FullSupport, s, 6, out, 5);
    assert Camelizes(FullSupport, s, 2, out, 2);
    assert Camelizes(FullSupport, s, 0, out, 0);
    FilterSpec(FullSupport, s, out);
    assert |out| != |s|;
  }

  /** `test_Šuma` becomes `testŠuma` with both facilities. */
  lemma UnicodeCapitalWithFullSupport()
    ensures Filter(FullSupport, "test_\U{0160}uma") == "test\U{0160}uma"
    ensures Filter(FullSupport, "test_\U{0160}uma") != "test_\U{0160}uma"
  {
    var s := "test_\U{0160}uma";
    var out := "test\U{0160}uma";
    assert Camelizes(FullSupport, s, 8, out, 7);
    assert Camelizes(FullSupport, s, 4, out, 4);
    assert Camelizes(FullSupport, s, 1, out, 1);
    assert Camelizes(FullSupport, s, 0, out, 0);
    FilterSpec(FullSupport, s, out);
    assert |out| != |s|;
  }

  /** `test_šuma` becomes `testŠuma` with both facilities. */
  lemma UnicodeSmallWithFullSupport()
    ensures Filter(FullSupport, "test_\U{0161}uma") == "test\U{0160}uma"
    ensures Filter(FullSupport, "test_\U{0161}uma") != "test_\U{0161}uma"
  {
    var s := "test_\U{0161}uma";
    var out := "test\U{0160}uma";
    assert Camelizes(FullSupport, s, 8, out, 7);
    assert Camelizes(FullSupport, s, 4, out, 4);
    assert Camelizes(FullSupport, s, 1, out, 1);
    assert Camelizes(FullSupport, s, 0, out, 0);
    FilterSpec(FullSupport, s, out);
    assert |out| != |s|;
  }

  /** `studly_cases_me` becomes `studlyCasesMe` without multibyte support. */
  lemma MultipleWordsWithoutMbString()
    ensures Filter(NoMbString, "studly_cas" + "es_me") == "studlyCase" + "sMe"
  {
    var s := "studly_cas" + "es_me";
    var out := "studlyCase" + "sMe";
    assert Camelizes(NoMbString, s, 14, out, 12);
    assert Camelizes(NoMbString, s, 10, out, 9);
    assert Camelizes(NoMbString, s, 6, out, 6);
    assert Camelizes(NoMbString, s, 3, out, 3);
    assert Camelizes(NoMbString, s, 0, out, 0);
    FilterSpec(NoMbString, s, out);
  }

  /** `one_2_three` becomes `one2Three` without multibyte support. */
  lemma AlphanumericInSingleWordWithoutMbString()
    ensures Filter(NoMbString, "one_2_thre" + "e") == "one2Three"
  {
    var s := "one_2_thre" + "e";
    var out := "one2Three";
    assert Camelizes(NoMbString, s, 10, out, 8);
    assert Camelizes(NoMbString, s, 7, out, 5);
    assert Camelizes(NoMbString, s, 2, out, 2);
    assert Camelizes(NoMbString, s, 0, out, 0);
    FilterSpec(NoMbString, s, out);
  }

  /** `one2_three` becomes `one2Three` without multibyte support. */
  lemma AlphanumericInSeparateWordsWithoutMbString()
    ensures Filter(NoMbString, "one2_three") == "one2Three"
  {
    var s := "one2_three";
    var out := "one2Three";
    assert Camelizes(NoMbString, s, 9, out, 8);
    assert Camelizes(NoMbString, s, 6, out, 5);
    assert Camelizes(NoMbString, s, 2, out, 2);
    assert Camelizes(NoMbString, s, 0, out, 0);
    FilterSpec(NoMbString, s, out);
  }

  /** `test_Šuma` becomes `testŠuma` without multibyte support. */
  lemma UnicodeCapitalWithoutMbString()
    ensures Filter(NoMbString, "test_\U{0160}uma") == "test\U{0160}uma"
  {
    var s := "test_\U{0160}uma";
    var out := "test\U{0160}uma";
    assert Camelizes(NoMbString, s, 8, out, 7);
    assert Camelizes(NoMbString, s, 4, out, 4);
    assert Camelizes(NoMbString, s, 1, out, 1);
    assert Camelizes(NoMbString, s, 0, out, 0);
    FilterSpec(NoMbString, s, out);
  }

  /** `test_šuma` stays `test_šuma` without multibyte support. */
  lemma UnicodeSmallWithoutMbString()
    ensures Filter(NoMbString, "test_\U{0161}uma") == "test_\U{0161}uma"
  {
    var s := "test_\U{0161}uma";
    var out := "test_\U{0161}uma";
    assert Camelizes(NoMbString, s, 8, out, 8);
    assert Camelizes(NoMbString, s, 5, out, 5);
    assert Camelizes(NoMbString, s, 2, out, 2);
    assert Camelizes(NoMbString, s, 0, out, 0);
    FilterSpec(NoMbString, s, out);
  }
  /**
   * The filter is not injective, in any configuration: a separator before a digit goes
   * as readily as one before a letter, so `one_2_three` and `one2_three` meet.
   */
  lemma SeparatorBeforeDigitIsLost(m: Mode)
    ensures "one_2_thre" + "e" != "one2_three"
    ensures Filter(m, "one_2_thre" + "e") == Filter(m, "one2_three") == "one2Three"
  {
    var s1 := "one_2_thre" + "e";
    var s2 := "one2_three";
    var out := "one2Three";
    assert s1[3] != s2[3];
    assert Camelizes(m, s1, 10, out, 8);
    assert Camelizes(m, s1, 7, out, 5);
    assert Camelizes(m, s1, 3, out, 3);
    assert Camelizes(m, s1, 0, out, 0);
    FilterSpec(m, s1, out);
    assert Camelizes(m, s2, 9, out, 8);
    assert Camelizes(m, s2, 6, out, 5);
    assert Camelizes(m, s2, 3, out, 3);
    assert Camelizes(m, s2, 0, out, 0);
    FilterSpec(m, s2, out);
  }
}
