/** Lexemes and the segmenters that produce them. The morphological
    analyser behind the Japanese segmenter is not modelled: its tokens come
    in as a sequence of (surface, normalized form, reading form) triples. */
module Segmentation {
  import opened Wrappers
  import opened Models
  import opened Exceptions
  import opened CjkUtil

  datatype PhoneticSystem = Hiragana

  /** A reading written in `phoneticSystem`. */
  datatype Pronunciation = Pronunciation(phoneticSystem: PhoneticSystem, value: string)

  /** A lexeme: its text as it occurs, its uninflected form when that
      differs (`None` for an invariant lexeme), and its reading. */
  datatype Lexeme = Lexeme(surface: string, baseForm: Option<string>, pronunciation: Option<Pronunciation>)

  /** One morpheme of the analyser's output. */
  datatype Token = Token(surface: string, normalizedForm: string, readingForm: string)

  /** The concatenation of the surfaces, in order (`"".join(...)`). */
  function JoinSurfaces(lexemes: seq<Lexeme>): (s: string)
    ensures |lexemes| == 1 ==> s == lexemes[0].surface
  {
    if lexemes == [] then "" else lexemes[0].surface + JoinSurfaces(lexemes[1..])
  }

  /** Joining distributes over concatenation of lexeme sequences. */
  lemma {:induction false} JoinSurfacesAppend(xs: seq<Lexeme>, ys: seq<Lexeme>)
    ensures JoinSurfaces(xs + ys) == JoinSurfaces(xs) + JoinSurfaces(ys)
  {
    if xs == [] {
      assert xs + ys == ys;
    } else {
      assert (xs + ys)[1..] == xs[1..] + ys;
      JoinSurfacesAppend(xs[1..], ys);
    }
  }

  /** The lexeme made from one token: the surface as is, the normalized
      form only when it differs from the surface, and the reading folded
      to hiragana. */
  function LexemeOf(token: Token): Lexeme {
    Lexeme(
      token.surface,
      if token.normalizedForm != token.surface then Some(token.normalizedForm) else None,
      Some(Pronunciation(Hiragana, KatakanaToHiragana(token.readingForm))))
  }

  /** The list comprehension of `JapaneseSegmenter.segment`. */
  function Lexemes(tokens: seq<Token>): (r: seq<Lexeme>)
    ensures |r| == |tokens|
    ensures forall k :: 0 <= k < |r| ==> r[k] == LexemeOf(tokens[k])
  {
    if tokens == [] then [] else [LexemeOf(tokens[0])] + Lexemes(tokens[1..])
  }

  /** `JapaneseSegmenter.segment(text)` on the analyser's `tokens` for
      `text`: the lexemes, or nothing when their surfaces do not spell
      out `text`. */
  function JapaneseSegment(tokens: seq<Token>, text: string): (r: seq<Lexeme>)
    ensures r != [] ==> JoinSurfaces(r) == text && |r| == |tokens|
  {
    var lexemes := Lexemes(tokens);
    if JoinSurfaces(lexemes) != text then [] else lexemes
  }

  /** A non-empty result spells out the input text exactly, and has one
      lexeme per token, in token order, built as `LexemeOf` says. */
  lemma JapaneseSegmentReconstructs(tokens: seq<Token>, text: string)
    ensures var r := JapaneseSegment(tokens, text);
      && (r != [] ==> JoinSurfaces(r) == text && |r| == |tokens|)
      && (r != [] ==> forall k :: 0 <= k < |r| ==> r[k].surface == tokens[k].surface)
      && (r == [] <==> tokens == [] || JoinSurfaces(Lexemes(tokens)) != text)
  {
  }

  /** The base form is never the surface again, and the reading holds no
      katakana left to fold. */
  lemma JapaneseSegmentForms(tokens: seq<Token>, text: string)
    ensures forall l :: l in JapaneseSegment(tokens, text) ==>
      && l.baseForm != Some(l.surface)
      && l.pronunciation.Some?
      && forall c :: c in l.pronunciation.value.value ==> !('ァ' <= c <= 'ヶ')
  {
    forall l | l in JapaneseSegment(tokens, text)
      ensures l.baseForm != Some(l.surface)
      ensures l.pronunciation.Some?
      ensures forall c :: c in l.pronunciation.value.value ==> !('ァ' <= c <= 'ヶ')
    {
      var k :| 0 <= k < |Lexemes(tokens)| && Lexemes(tokens)[k] == l;
      KatakanaToHiraganaLeavesNoKatakana(tokens[k].readingForm);
    }
  }

  /** `JapaneseSegmenter.can_segment`. */
  predicate JapaneseCanSegment(request: AnnotateRequest) {
    request.language == Japanese
  }

  /** `ChineseSegmenter.can_segment`. */
  predicate ChineseCanSegment(request: AnnotateRequest) {
    request.language == Chinese
  }

  /** `ChineseSegmenter.segment`: not implemented, whatever the text. */
  function ChineseSegment(text: string): Result<seq<Lexeme>, Exception> {
    Failure(NotImplementedError)
  }

  /** The segmenter classes of the module, and any other implementation
      of the segmenter protocol, given by what its `can_segment` and its
      `segment` do on the request at hand. */
  datatype Segmenter =
    | DefaultSegmenter
    | JapaneseSegmenter
    | ChineseSegmenter
    | OtherSegmenter(canSegment: Result<bool, Exception>, segmented: Result<seq<Lexeme>, Exception>)

  /** `segmenter.can_segment(request)`. `DefaultSegmenter` defines no
      `can_segment`, so looking it up raises. */
  function CanSegment(segmenter: Segmenter, request: AnnotateRequest): Result<bool, Exception> {
    match segmenter
    case DefaultSegmenter => Failure(AttributeError("can_segment"))
    case JapaneseSegmenter => Success(JapaneseCanSegment(request))
    case ChineseSegmenter => Success(ChineseCanSegment(request))
    case OtherSegmenter(canSegment, _) => canSegment
  }

  /** `segmenter.segment(text)`, with `tokens` the analyser's output for
      `text`. `DefaultSegmenter.segment` is declared without `self`, so a
      call on an instance passes one argument too many. */
  function SegmentText(segmenter: Segmenter, text: string, tokens: seq<Token>): Result<seq<Lexeme>, Exception> {
    match segmenter
    case DefaultSegmenter => Failure(TypeError)
    case JapaneseSegmenter => Success(JapaneseSegment(tokens, text))
    case ChineseSegmenter => ChineseSegment(text)
    case OtherSegmenter(_, segmented) => segmented
  }

  /** Of the module's segmenters, only the Japanese one can both accept a
      request and return lexemes; the others raise or decline. */
  lemma OnlyJapaneseSegments(segmenter: Segmenter, request: AnnotateRequest, tokens: seq<Token>)
    requires !segmenter.OtherSegmenter?
    ensures CanSegment(segmenter, request) == Success(true) && SegmentText(segmenter, request.baseText, tokens).Success?
      <==> segmenter == JapaneseSegmenter && request.language == Japanese
  {
  }
}
