/**
 * The camelCase -> under_score filter on the test vectors of its three configurations:
 * Unicode patterns switched off, both facilities present, and multibyte support switched
 * off.  Each vector is proved through the position-wise description `Separates`, and each
 * also states that the filter changed its input.
 *
 * Literals longer than ten characters are written, in contracts and proofs alike, as
 * concatenations of ten-character pieces (`"underscore" + "sMe"` is `underscoresMe`): the
 * prover takes short pieces apart far more cheaply than one long literal.
 * A `...Tail` lemma proves the positions in the second half of a long vector, so that
 * each proof stays small.
 */
module CamelCaseToUnderscoreVectors {

  import opened TextSupport
  import opened CamelCaseToUnderscore

  /** `Camel` becomes `camel` without Unicode patterns. */
  lemma UpcasedFirstLetterWithoutUnicodePatterns()
    ensures Filter(NoUnicodePatterns, "Camel") == "camel"
    ensures Filter(NoUnicodePatterns, "Camel") != "Camel"
  {
    var s := "Camel";
    var out := "camel";
    assert Separates(NoUnicodePatterns, s, 4, out, 4);
    assert Separates(NoUnicodePatterns, s, 1, out, 1);
    assert Separates(NoUnicodePatterns, s, 0, out, 0);
    FilterSpec(NoUnicodePatterns, s, out);
    assert out[0] != s[0];
  }

  /** `Camel` becomes `camel` with both facilities. */
  lemma UpcasedFirstLetterWithFullSupport()
    ensures Filter(FullSupport, "Camel") == "camel"
    ensures Filter(FullSupport, "Camel") != "Camel"
  {
    var s := "Camel";
    var out := "camel";
    assert Separates(FullSupport, s, 4, out, 4);
    assert Separates(FullSupport, s, 1, out, 1);
    assert Separates(FullSupport, s, 0, out, 0);
    FilterSpec(FullSupport, s, out);
    assert out[0] != s[0];
  }

  /** `Camel` becomes `camel` without multibyte support. */
  lemma UpcasedFirstLetterWithoutMbString()
    ensures Filter(NoMbString, "Camel") == "camel"
    ensures Filter(NoMbString, "Camel") != "Camel"
  {
    var s := "Camel";
    var out := "camel";
    assert Separates(NoMbString, s, 4, out, 4);
    assert Separates(NoMbString, s, 1, out, 1);
    assert Separates(NoMbString, s, 0, out, 0);
    FilterSpec(NoMbString, s, out);
    assert out[0] != s[0];
  }

  /** `underscoresMe` becomes `underscores_me` without Unicode patterns. */
  lemma MultipleWordsWithoutUnicodePatterns()
    ensures Filter(NoUnicodePatterns, "underscore" + "sMe") == "underscore" + "s_me"
    ensures Filter(NoUnicodePatterns, "underscore" + "sMe") != "underscore" + "sMe"
  {
    var s := "underscore" + "sMe";
    var out := "underscore" + "s_me";
    assert Separates(NoUnicodePatterns, s, 12, out, 13);
    assert Separates(NoUnicodePatterns, s, 9, out, 9);
    assert Separates(NoUnicodePatterns, s, 6, out, 6);
    assert Separates(NoUnicodePatterns, s, 3, out, 3);
    assert Separates(NoUnicodePatterns, s, 0, out, 0);
    FilterSpec(NoUnicodePatterns, s, out);
    assert |out| != |s|;
  }

  /** `underscoresMe` becomes `underscores_me` with both facilities. */
  lemma MultipleWordsWithFullSupport()
    ensures Filter(FullSupport, "underscore" + "sMe") == "underscore" + "s_me"
    ensures Filter(FullSupport, "underscore" + "sMe") != "underscore" + "sMe"
  {
    var s := "underscore" + "sMe";
    var out := "underscore" + "s_me";
    assert Separates(FullSupport, s, 12, out, 13);
    assert Separates(FullSupport, s, 9, out, 9);
    assert Separates(FullSupport, s, 6, out, 6);
    assert Separates(FullSupport, s, 3, out, 3);
    assert Separates(FullSupport, s, 0, out, 0);
    FilterSpec(FullSupport, s, out);
    assert |out| != |s|;
  }

  /** `underscoresMe` becomes `underscores_me` without multibyte support. */
  lemma MultipleWordsWithoutMbString()
    ensures Filter(NoMbString, "underscore" + "sMe") == "underscore" + "s_me"
    ensures Filter(NoMbString, "underscore" + "sMe") != "underscore" + "sMe"
  {
    var s := "underscore" + "sMe";
    var out := "underscore" + "s_me";
    assert Separates(NoMbString, s, 12, out, 13);
    assert Separates(NoMbString, s, 9, out, 9);
    assert Separates(NoMbString, s, 6, out, 6);
    assert Separates(NoMbString, s, 3, out, 3);
    assert Separates(NoMbString, s, 0, out, 0);
    FilterSpec(NoMbString, s, out);
    assert |out| != |s|;
  }

  /** `one2Three` becomes `one2_three` without Unicode patterns. */
  lemma AlphanumericWithoutUnicodePatterns()
    ensures Filter(NoUnicodePatterns, "one2Three") == "one2_three"
    ensures Filter(NoUnicodePatterns, "one2Three") != "one2Three"
  {
    var s := "one2Three";
    var out := "one2_three";
    assert Separates(NoUnicodePatterns, s, 8, out, 9);
    assert Separates(NoUnicodePatterns, s, 5, out, 6);
    assert Separates(NoUnicodePatterns, s, 2, out, 2);
    assert Separates(NoUnicodePatterns, s, 0, out, 0);
    FilterSpec(NoUnicodePatterns, s, out);
    assert |out| != |s|;
  }

  /** `one2Three` becomes `one2_three` with both facilities. */
  lemma AlphanumericWithFullSupport()
    ensures Filter(FullSupport, "one2Three") == "one2_three"
    ensures Filter(FullSupport, "one2Three") != "one2Three"
  {
    var s := "one2Three";
    var out := "one2_three";
    assert Separates(FullSupport, s, 8, out, 9);
    assert Separates(FullSupport, s, 5, out, 6);
    assert Separates(FullSupport, s, 2, out, 2);
    assert Separates(FullSupport, s, 0, out, 0);
    FilterSpec(FullSupport, s, out);
    assert |out| != |s|;
  }

  /** `one2Three` becomes `one2_three` without multibyte support. */
  lemma AlphanumericWithoutMbString()
    ensures Filter(NoMbString, "one2Three") == "one2_three"
    ensures Filter(NoMbString, "one2Three") != "one2Three"
  {
    var s := "one2Three";
    var out := "one2_three";
    assert Separates(NoMbString, s, 8, out, 9);
    assert Separates(NoMbString, s, 5, out, 6);
    assert Separates(NoMbString, s, 2, out, 2);
    assert Separates(NoMbString, s, 0, out, 0);
    FilterSpec(NoMbString, s, out);
    assert |out| != |s|;
  }

  /** The second half of `TheseAre_SOME_CamelCASEDWords` without Unicode patterns. */
  lemma CapitalRunsAndSeparatorsWithoutUnicodePatternsTail()
    ensures Separates(NoUnicodePatterns, "TheseAre_S" + "OME_CamelC" + "ASEDWords", 16, "these_are_" + "some_camel" + "_cased_wor" + "ds", 17)
  {
    var s := "TheseAre_S" + "OME_CamelC" + "ASEDWords";
    var out := "these_are_" + "some_camel" + "_cased_wor" + "ds";
    assert Separates(NoUnicodePatterns, s, 28, out, 31);
    assert Separates(NoUnicodePatterns, s, 25, out, 28);
    assert Separates(NoUnicodePatterns, s, 22, out, 24);
    assert Separates(NoUnicodePatterns, s, 19, out, 20);
  }

  /** `TheseAre_SOME_CamelCASEDWords` becomes `these_are_some_camel_cased_words` without Unicode patterns. */
  lemma CapitalRunsAndSeparatorsWithoutUnicodePatterns()
    ensures Filter(NoUnicodePatterns, "TheseAre_S" + "OME_CamelC" + "ASEDWords") == "these_are_" + "some_camel" + "_cased_wor" + "ds"
    ensures Filter(NoUnicodePatterns, "TheseAre_S" + "OME_CamelC" + "ASEDWords") != "TheseAre_S" + "OME_CamelC" + "ASEDWords"
  {
    var s := "TheseAre_S" + "OME_CamelC" + "ASEDWords";
    var out := "these_are_" + "some_camel" + "_cased_wor" + "ds";
    CapitalRunsAndSeparatorsWithoutUnicodePatternsTail();
    assert Separates(NoUnicodePatterns, s, 13, out, 14);
    assert Separates(NoUnicodePatterns, s, 10, out, 11);
    assert Separates(NoUnicodePatterns, s, 7, out, 8);
    assert Separates(NoUnicodePatterns, s, 4, out, 4);
    assert Separates(NoUnicodePatterns, s, 1, out, 1);
    assert Separates(NoUnicodePatterns, s, 0, out, 0);
    FilterSpec(NoUnicodePatterns, s, out);
    assert |out| != |s|;
  }

  /** The second half of `TheseAre_SOME_CamelCASEDWords` with both facilities. */
  lemma CapitalRunsAndSeparatorsWithFullSupportTail()
    ensures Separates(FullSupport, "TheseAre_S" + "OME_CamelC" + "ASEDWords", 16, "these_are_" + "some_camel" + "_cased_wor" + "ds", 17)
  {
    var s := "TheseAre_S" + "OME_CamelC" + "ASEDWords";
    var out := "these_are_" + "some_camel" + "_cased_wor" + "ds";
    assert Separates(FullSupport, s, 28, out, 31);
    assert Separates(FullSupport, s, 25, out, 28);
    assert Separates(FullSupport, s, 22, out, 24);
    assert Separates(FullSupport, s, 19, out, 20);
  }

  /** `TheseAre_SOME_CamelCASEDWords` becomes `these_are_some_camel_cased_words` with both facilities. */
  lemma CapitalRunsAndSeparatorsWithFullSupport()
    ensures Filter(FullSupport, "TheseAre_S" + "OME_CamelC" + "ASEDWords") == "these_are_" + "some_camel" + "_cased_wor" + "ds"
    ensures Filter(FullSupport, "TheseAre_S" + "OME_CamelC" + "ASEDWords") != "TheseAre_S" + "OME_CamelC" + "ASEDWords"
  {
    var s := "TheseAre_S" + "OME_CamelC" + "ASEDWords";
    var out := "these_are_" + "some_camel" + "_cased_wor" + "ds";
    CapitalRunsAndSeparatorsWithFullSupportTail();
    assert Separates(FullSupport, s, 13, out, 14);
    assert Separates(FullSupport, s, 10, out, 11);
    assert Separates(FullSupport, s, 7, out, 8);
    assert Separates(FullSupport, s, 4, out, 4);
    assert Separates(FullSupport, s, 1, out, 1);
    assert Separates(FullSupport, s, 0, out, 0);
    FilterSpec(FullSupport, s, out);
    assert |out| != |s|;
  }

  /** The second half of `TheseAre_SOME_CamelCASEDWords` without multibyte support. */
  lemma CapitalRunsAndSeparatorsWithoutMbStringTail()
    ensures Separates(NoMbString, "TheseAre_S" + "OME_CamelC" + "ASEDWords", 16, "these_are_" + "some_camel" + "_cased_wor" + "ds", 17)
  {
    var s := "TheseAre_S" + "OME_CamelC" + "ASEDWords";
    var out := "these_are_" + "some_camel" + "_cased_wor" + "ds";
    assert Separates(NoMbString, s, 28, out, 31);
    assert Separates(NoMbString, s, 25, out, 28);
    assert Separates(NoMbString, s, 22, out, 24);
    assert Separates(NoMbString, s, 19, out, 20);
  }

  /** `TheseAre_SOME_CamelCASEDWords` becomes `these_are_some_camel_cased_words` without multibyte support. */
  lemma CapitalRunsAndSeparatorsWithoutMbString()
    ensures Filter(NoMbString, "TheseAre_S" + "OME_CamelC" + "ASEDWords") == "these_are_" + "some_camel" + "_cased_wor" + "ds"
    ensures Filter(NoMbString, "TheseAre_S" + "OME_CamelC" + "ASEDWords") != "TheseAre_S" + "OME_CamelC" + "ASEDWords"
  {
    var s := "TheseAre_S" + "OME_CamelC" + "ASEDWords";
    var out := "these_are_" + "some_camel" + "_cased_wor" + "ds";
    CapitalRunsAndSeparatorsWithoutMbStringTail();
    assert Separates(NoMbString, s, 13, out, 14);
    assert Separates(NoMbString, s, 10, out, 11);
    assert Separates(NoMbString, s, 7, out, 8);
    assert Separates(NoMbString, s, 4, out, 4);
    assert Separates(NoMbString, s, 1, out, 1);
    assert Separates(NoMbString, s, 0, out, 0);
    FilterSpec(NoMbString, s, out);
    assert |out| != |s|;
  }

  /** `one2THR23ree` becomes `one2_thr23ree` without Unicode patterns. */
  lemma AlphanumericCapitalRunWithoutUnicodePatterns()
    ensures Filter(NoUnicodePatterns, "one2THR23r" + "ee") == "one2_thr23" + "ree"
    ensures Filter(NoUnicodePatterns, "one2THR23r" + "ee") != "one2THR23r" + "ee"
  {
    var s := "one2THR23r" + "ee";
    var out := "one2_thr23" + "ree";
    assert Separates(NoUnicodePatterns, s, 11, out, 12);
    assert Separates(NoUnicodePatterns, s, 8, out, 9);
    assert Separates(NoUnicodePatterns, s, 5, out, 6);
    assert Separates(NoUnicodePatterns, s, 2, out, 2);
    assert Separates(NoUnicodePatterns, s, 0, out, 0);
    FilterSpec(NoUnicodePatterns, s, out);
    assert |out| != |s|;
  }

  /** `one2THR23ree` becomes `one2_thr23ree` with both facilities. */
  lemma AlphanumericCapitalRunWithFullSupport()
    ensures Filter(FullSupport, "one2THR23r" + "ee") == "one2_thr23" + "ree"
    ensures Filter(FullSupport, "one2THR23r" + "ee") != "one2THR23r" + "ee"
  {
    var s := "one2THR23r" + "ee";
    var out := "one2_thr23" + "ree";
    assert Separates(FullSupport, s, 11, out, 12);
    assert Separates(FullSupport, s, 8, out, 9);
    assert Separates(FullSupport, s, 5, out, 6);
    assert Separates(FullSupport, s, 2, out, 2);
    assert Separates(FullSupport, s, 0, out, 0);
    FilterSpec(FullSupport, s, out);
    assert |out| != |s|;
  }

  /** `one2THR23ree` becomes `one2_thr23ree` without multibyte support. */
  lemma AlphanumericCapitalRunWithoutMbString()
    ensures Filter(NoMbString, "one2THR23r" + "ee") == "one2_thr23" + "ree"
    ensures Filter(NoMbString, "one2THR23r" + "ee") != "one2THR23r" + "ee"
  {
    var s := "one2THR23r" + "ee";
    var out := "one2_thr23" + "ree";
    assert Separates(NoMbString, s, 11, out, 12);
    assert Separates(NoMbString, s, 8, out, 9);
    assert Separates(NoMbString, s, 5, out, 6);
    assert Separates(NoMbString, s, 2, out, 2);
    assert Separates(NoMbString, s, 0, out, 0);
    FilterSpec(NoMbString, s, out);
    assert |out| != |s|;
  }

  /** The second half of `bfd7b82e9cfceaa82704d1c1Foo` without Unicode patterns. */
  lemma LowercasedAlphanumericWithoutUnicodePatternsTail()
    ensures Separates(NoUnicodePatterns, "bfd7b82e9c" + "fceaa82704" + "d1c1Foo", 14, "bfd7b82e9c" + "fceaa82704" + "d1c1_foo", 14)
  {
    var s := "bfd7b82e9c" + "fceaa82704" + "d1c1Foo";
    var out := "bfd7b82e9c" + "fceaa82704" + "d1c1_foo";
    assert Separates(NoUnicodePatterns, s, 26, out, 27);
    assert Separates(NoUnicodePatterns, s, 23, out, 23);
    assert Separates(NoUnicodePatterns, s, 20, out, 20);
    assert Separates(NoUnicodePatterns, s, 17, out, 17);
  }

  /** `bfd7b82e9cfceaa82704d1c1Foo` becomes `bfd7b82e9cfceaa82704d1c1_foo` without Unicode patterns. */
  lemma LowercasedAlphanumericWithoutUnicodePatterns()
    ensures Filter(NoUnicodePatterns, "bfd7b82e9c" + "fceaa82704" + "d1c1Foo") == "bfd7b82e9c" + "fceaa82704" + "d1c1_foo"
    ensures Filter(NoUnicodePatterns, "bfd7b82e9c" + "fceaa82704" + "d1c1Foo") != "bfd7b82e9c" + "fceaa82704" + "d1c1Foo"
  {
    var s := "bfd7b82e9c" + "fceaa82704" + "d1c1Foo";
    var out := "bfd7b82e9c" + "fceaa82704" + "d1c1_foo";
    LowercasedAlphanumericWithoutUnicodePatternsTail();
    assert Separates(NoUnicodePatterns, s, 11, out, 11);
    assert Separates(NoUnicodePatterns, s, 8, out, 8);
    assert Separates(NoUnicodePatterns, s, 5, out, 5);
    assert Separates(NoUnicodePatterns, s, 2, out, 2);
    assert Separates(NoUnicodePatterns, s, 0, out, 0);
    FilterSpec(NoUnicodePatterns, s, out);
    assert |out| != |s|;
  }

  /** `testŠuma` becomes `test_šuma` with both facilities. */
  lemma UnicodeCapitalWithFullSupport()
    ensures Filter(FullSupport, "test\U{0160}uma") == "test_\U{0161}uma"
    ensures Filter(FullSupport, "test\U{0160}uma") != "test\U{0160}uma"
  {
    var s := "test\U{0160}uma";
    var out := "test_\U{0161}uma";
    assert Separates(FullSupport, s, 7, out, 8);
    assert Separates(FullSupport, s, 4, out, 4);
    assert Separates(FullSupport, s, 1, out, 1);
    assert Separates(FullSupport, s, 0, out, 0);
    FilterSpec(FullSupport, s, out);
    assert |out| != |s|;
  }

  /** `testŠuma` becomes `test_Šuma` without multibyte support. */
  lemma UnicodeCapitalWithoutMbString()
    ensures Filter(NoMbString, "test\U{0160}uma") == "test_\U{0160}uma"
    ensures Filter(NoMbString, "test\U{0160}uma") != "test\U{0160}uma"
  {
    var s := "test\U{0160}uma";
    var out := "test_\U{0160}uma";
    assert Separates(NoMbString, s, 7, out, 8);
    assert Separates(NoMbString, s, 4, out, 4);
    assert Separates(NoMbString, s, 1, out, 1);
    assert Separates(NoMbString, s, 0, out, 0);
    FilterSpec(NoMbString, s, out);
    assert |out| != |s|;
  }
}
