/** The furigana annotator on the sentence and dictionary of the
    repository's annotation test: 私はその人を常に先生と呼んでいた, split
    into eleven lexemes, annotated against a six-headword dictionary. */
module AnnotationExamples {
  import opened Wrappers
  import opened Models
  import opened CjkUtil
  import opened Segmentation
  import opened PronunciationDictionary
  import opened Annotation

  /** A hiragana reading. */
  function Reading(s: string): Option<Pronunciation> { Some(Pronunciation(Hiragana, s)) }

  /** A headword's entry list holding one entry. */
  function OneReading(text: string, reading: string, perChar: seq<PronunciationDatum>): seq<CjkPronunciationEntry> {
    [CjkPronunciationEntry(text, reading, perChar)]
  }

  /** The test's pronunciation dictionary. */
  const Dictionary: CjkPronunciationProvider := map[
    "私" := OneReading("私", "わたし", [PronunciationDatum((0, 1), "わたし")]),
    "人間" := OneReading("人間", "にんげん", [PronunciationDatum((0, 1), "にん"), PronunciationDatum((1, 2), "げん")]),
    "人" := OneReading("人", "ひと", [PronunciationDatum((0, 1), "ひと")]),
    "常" := OneReading("常", "つね", [PronunciationDatum((0, 1), "つね")]),
    "先生" := OneReading("先生", "せんせい", [PronunciationDatum((0, 1), "せん"), PronunciationDatum((1, 2), "せい")]),
    "呼ぶ" := OneReading("呼ぶ", "よぶ", [PronunciationDatum((0, 1), "よ")])]

  /** The test's lexemes: surface, base form when it differs, reading. */
  const Sentence: seq<Lexeme> := [
    Lexeme("私", None, Reading("わたし")), Lexeme("は", None, Reading("は")), Lexeme("その", None, None),
    Lexeme("人", None, Reading("ひと")), Lexeme("を", None, None), Lexeme("常", None, Reading("つね")),
    Lexeme("に", None, None), Lexeme("先生", None, Reading("せんせい")), Lexeme("と", None, None),
    Lexeme("呼んで", Some("呼ぶ"), Reading("よぶ")), Lexeme("いた", Some("いる"), None)]

  /** One step of the annotator: lexeme `k`'s segment, then the rest. */
  lemma SuffixStep(provider: CjkPronunciationProvider, lexemes: seq<Lexeme>, expected: seq<AnnotatedTextSegment>,
                   k: nat, start: int, next: int)
    requires k < |lexemes| && k < |expected|
    requires LexemeSegments(provider, lexemes[k], start) == Success([expected[k]])
    requires next == start + |lexemes[k].surface|
    requires FuriganaSpec(provider, lexemes[k + 1..], next) == Success(expected[k + 1..])
    ensures FuriganaSpec(provider, lexemes[k..], start) == Success(expected[k..])
  {
    assert lexemes[k..][0] == lexemes[k];
    assert lexemes[k..][1..] == lexemes[k + 1..];
    assert expected[k..] == [expected[k]] + expected[k + 1..];
  }

  /** Which of the sentence's surfaces contain a Han character. */
  lemma HanLexemes()
    ensures IsHan("私") && IsHan("人") && IsHan("常") && IsHan("先生") && IsHan("呼んで")
    ensures !IsHan("は") && !IsHan("その") && !IsHan("を") && !IsHan("に") && !IsHan("と") && !IsHan("いた")
  {
    IsHanOneChar('私'); IsHanOneChar('は'); IsHanOneChar('そ'); IsHanOneChar('の');
    IsHanOneChar('人'); IsHanOneChar('を'); IsHanOneChar('常'); IsHanOneChar('に');
    IsHanOneChar('先'); IsHanOneChar('と'); IsHanOneChar('呼');
    IsHanOneChar('い'); IsHanOneChar('た');
  }

  /** One datum over the first character, placed at `start`. */
  lemma ShiftedOne(pronunciation: string, start: int)
    requires pronunciation != ""
    ensures ShiftedAnnotations([PronunciationDatum((0, 1), pronunciation)], start)
      == [Annotation((start, start + 1), Some(pronunciation))]
  {
    assert [PronunciationDatum((0, 1), pronunciation)][..0] == [];
  }

  /** One datum for each of the first two characters, placed at `start`. */
  lemma ShiftedTwo(first: string, second: string, start: int)
    requires first != "" && second != ""
    ensures ShiftedAnnotations([PronunciationDatum((0, 1), first), PronunciationDatum((1, 2), second)], start)
      == [Annotation((start, start + 1), Some(first)), Annotation((start + 1, start + 2), Some(second))]
  {
    var data := [PronunciationDatum((0, 1), first), PronunciationDatum((1, 2), second)];
    assert data[..1] == [PronunciationDatum((0, 1), first)];
    ShiftedOne(first, start);
  }

  /** A Han lexeme whose headword has a single entry with the lexeme's own
      reading is annotated with that entry's data. */
  lemma SingleEntryAnnotated(lexeme: Lexeme, start: int, reading: string, perChar: seq<PronunciationDatum>)
    requires IsHan(lexeme.surface)
    requires LookupKey(lexeme) in Dictionary
    requires Dictionary[LookupKey(lexeme)] == OneReading(LookupKey(lexeme), reading, perChar)
    requires lexeme.pronunciation == Reading(reading)
    ensures LexemeSegments(Dictionary, lexeme, start)
      == Success([AnnotatedTextSegment((start, start + |lexeme.surface|), Some(ShiftedAnnotations(perChar, start)))])
  {
    var entries := Dictionary[LookupKey(lexeme)];
    assert Readings(entries) == [reading];
    ExactReadingAnnotated(Dictionary, lexeme, start);
    assert FirstWithReading(entries, reading) == entries[0];
  }

  /** Where each lexeme of the sentence starts, and one past the end. */
  const Starts: seq<int> := [0, 1, 2, 4, 5, 6, 7, 8, 10, 11, 14, 16]

  /** The segments the annotator is expected to produce for the sentence. */
  const Expected: seq<AnnotatedTextSegment> := [
    AnnotatedTextSegment((0, 1), Some([Annotation((0, 1), Some("わたし"))])),
    AnnotatedTextSegment((1, 2), None),
    AnnotatedTextSegment((2, 4), None),
    AnnotatedTextSegment((4, 5), Some([Annotation((4, 5), Some("ひと"))])),
    AnnotatedTextSegment((5, 6), None),
    AnnotatedTextSegment((6, 7), Some([Annotation((6, 7), Some("つね"))])),
    AnnotatedTextSegment((7, 8), None),
    AnnotatedTextSegment((8, 10), Some([Annotation((8, 9), Some("せん")), Annotation((9, 10), Some("せい"))])),
    AnnotatedTextSegment((10, 11), None),
    AnnotatedTextSegment((11, 14), Some([Annotation((11, 12), Some("よ"))])),
    AnnotatedTextSegment((14, 16), None)]

  /** Lexeme by lexeme: each Han lexeme gets its headword's per-character
      readings, shifted to where it starts; each other lexeme is left bare. */
  lemma SentenceLexeme0()
    ensures LexemeSegments(Dictionary, Sentence[0], 0) == Success([AnnotatedTextSegment((0, 1), Some([Annotation((0, 1), Some("わたし"))]))])
  {
    HanLexemes();
    SingleEntryAnnotated(Sentence[0], 0, "わたし", [PronunciationDatum((0, 1), "わたし")]);
    ShiftedOne("わたし", 0);
  }

  lemma SentenceLexeme1()
    ensures LexemeSegments(Dictionary, Sentence[1], 1) == Success([AnnotatedTextSegment((1, 2), None)])
  {
    HanLexemes();
    NonHanLexemeUnannotated(Dictionary, Sentence[1], 1);
  }

  lemma SentenceLexeme2()
    ensures LexemeSegments(Dictionary, Sentence[2], 2) == Success([AnnotatedTextSegment((2, 4), None)])
  {
    HanLexemes();
    NonHanLexemeUnannotated(Dictionary, Sentence[2], 2);
  }

  lemma SentenceLexeme3()
    ensures LexemeSegments(Dictionary, Sentence[3], 4) == Success([AnnotatedTextSegment((4, 5), Some([Annotation((4, 5), Some("ひと"))]))])
  {
    HanLexemes();
    SingleEntryAnnotated(Sentence[3], 4, "ひと", [PronunciationDatum((0, 1), "ひと")]);
    ShiftedOne("ひと", 4);
  }

  lemma SentenceLexeme4()
    ensures LexemeSegments(Dictionary, Sentence[4], 5) == Success([AnnotatedTextSegment((5, 6), None)])
  {
    HanLexemes();
    NonHanLexemeUnannotated(Dictionary, Sentence[4], 5);
  }

  lemma SentenceLexeme5()
    ensures LexemeSegments(Dictionary, Sentence[5], 6) == Success([AnnotatedTextSegment((6, 7), Some([Annotation((6, 7), Some("つね"))]))])
  {
    HanLexemes();
    SingleEntryAnnotated(Sentence[5], 6, "つね", [PronunciationDatum((0, 1), "つね")]);
    ShiftedOne("つね", 6);
  }

  lemma SentenceLexeme6()
    ensures LexemeSegments(Dictionary, Sentence[6], 7) == Success([AnnotatedTextSegment((7, 8), None)])
  {
    HanLexemes();
    NonHanLexemeUnannotated(Dictionary, Sentence[6], 7);
  }

  lemma SentenceLexeme7()
    ensures LexemeSegments(Dictionary, Sentence[7], 8) == Success([AnnotatedTextSegment((8, 10), Some([Annotation((8, 9), Some("せん")), Annotation((9, 10), Some("せい"))]))])
  {
    HanLexemes();
    SingleEntryAnnotated(Sentence[7], 8, "せんせい", [PronunciationDatum((0, 1), "せん"), PronunciationDatum((1, 2), "せい")]);
    ShiftedTwo("せん", "せい", 8);
  }

  lemma SentenceLexeme8()
    ensures LexemeSegments(Dictionary, Sentence[8], 10) == Success([AnnotatedTextSegment((10, 11), None)])
  {
    HanLexemes();
    NonHanLexemeUnannotated(Dictionary, Sentence[8], 10);
  }

  lemma SentenceLexeme9()
    ensures LexemeSegments(Dictionary, Sentence[9], 11) == Success([AnnotatedTextSegment((11, 14), Some([Annotation((11, 12), Some("よ"))]))])
  {
    HanLexemes();
    assert LookupKey(Sentence[9]) == "呼ぶ";
    SingleEntryAnnotated(Sentence[9], 11, "よぶ", [PronunciationDatum((0, 1), "よ")]);
    ShiftedOne("よ", 11);
  }

  lemma SentenceLexeme10()
    ensures LexemeSegments(Dictionary, Sentence[10], 14) == Success([AnnotatedTextSegment((14, 16), None)])
  {
    HanLexemes();
    NonHanLexemeUnannotated(Dictionary, Sentence[10], 14);
  }

  /** Each lexeme of the sentence, at its start, gives its expected segment. */
  lemma SentenceLexeme(k: nat)
    requires k < 11
    ensures LexemeSegments(Dictionary, Sentence[k], Starts[k]) == Success([Expected[k]])
    ensures Starts[k + 1] == Starts[k] + |Sentence[k].surface|
  {
    if k < 6 {
      SentenceLexemeFirstHalf(k);
    } else {
      SentenceLexemeSecondHalf(k);
    }
  }

  /** `SentenceLexeme` for the first six lexemes. */
  lemma SentenceLexemeFirstHalf(k: nat)
    requires k < 6
    ensures LexemeSegments(Dictionary, Sentence[k], Starts[k]) == Success([Expected[k]])
    ensures Starts[k + 1] == Starts[k] + |Sentence[k].surface|
  {
    if k == 0 {
      SentenceLexeme0();
    } else if k == 1 {
      SentenceLexeme1();
    } else if k == 2 {
      SentenceLexeme2();
    } else if k == 3 {
      SentenceLexeme3();
    } else if k == 4 {
      SentenceLexeme4();
    } else {
      SentenceLexeme5();
    }
  }

  /** `SentenceLexeme` for the last five lexemes. */
  lemma SentenceLexemeSecondHalf(k: nat)
    requires 6 <= k < 11
    ensures LexemeSegments(Dictionary, Sentence[k], Starts[k]) == Success([Expected[k]])
    ensures Starts[k + 1] == Starts[k] + |Sentence[k].surface|
  {
    if k == 6 {
      SentenceLexeme6();
    } else if k == 7 {
      SentenceLexeme7();
    } else if k == 8 {
      SentenceLexeme8();
    } else if k == 9 {
      SentenceLexeme9();
    } else {
      SentenceLexeme10();
    }
  }

  /** The sentence from lexeme `k` on, starting where lexeme `k` starts. */
  lemma {:induction false} SentenceSuffix(k: nat)
    requires k <= 11
    ensures FuriganaSpec(Dictionary, Sentence[k..], Starts[k]) == Success(Expected[k..])
    decreases 11 - k
  {
    if k < 11 {
      SentenceSuffix(k + 1);
      SentenceLexeme(k);
      SuffixStep(Dictionary, Sentence, Expected, k, Starts[k], Starts[k + 1]);
    } else {
      assert Sentence[k..] == [] && Expected[k..] == [];
    }
  }

  /** The annotator on the test sentence, as the test expects it. */
  lemma FuriganaTestSentence()
    ensures FuriganaSpec(Dictionary, Sentence, 0) == Success(Expected)
  {
    SentenceSuffix(0);
    assert Sentence[0..] == Sentence && Expected[0..] == Expected;
  }
}
