/** The two services of the request pipeline and the priority registry
    they draw their providers from. A service walks its registry from the
    highest priority down and takes the first provider that accepts the
    request and delivers; logging is not modelled. */
module Services {
  import opened Wrappers
  import opened Models
  import opened Exceptions
  import opened CjkUtil
  import opened Segmentation
  import opened Annotation

  // ---------------------------------------------------------------------
  // Ordering by priority
  // ---------------------------------------------------------------------

  /** Highest priority first. */
  predicate SortedDesc<T>(entries: seq<(T, int)>) {
    forall i, j :: 0 <= i < j < |entries| ==> entries[i].1 >= entries[j].1
  }

  /** The entries of priority `priority`, in their order. */
  function WithPriority<T>(entries: seq<(T, int)>, priority: int): seq<(T, int)> {
    if entries == [] then []
    else (if entries[0].1 == priority then [entries[0]] else []) + WithPriority(entries[1..], priority)
  }

  lemma {:induction false} WithPriorityAppend<T>(xs: seq<(T, int)>, ys: seq<(T, int)>, priority: int)
    ensures WithPriority(xs + ys, priority) == WithPriority(xs, priority) + WithPriority(ys, priority)
  {
    if xs == [] {
      assert xs + ys == ys;
    } else {
      var head := if xs[0].1 == priority then [xs[0]] else [];
      assert (xs + ys)[0] == xs[0];
      assert (xs + ys)[1..] == xs[1..] + ys;
      WithPriorityAppend(xs[1..], ys, priority);
      assert WithPriority(xs + ys, priority) == head + WithPriority(xs[1..] + ys, priority);
      assert WithPriority(xs, priority) == head + WithPriority(xs[1..], priority);
      assert head + (WithPriority(xs[1..], priority) + WithPriority(ys, priority))
        == (head + WithPriority(xs[1..], priority)) + WithPriority(ys, priority);
    }
  }

  /** How many leading entries have a priority of at least `priority`. */
  function Position<T>(entries: seq<(T, int)>, priority: int): (n: nat)
    ensures n <= |entries|
    ensures forall i :: 0 <= i < n ==> entries[i].1 >= priority
    ensures n < |entries| ==> entries[n].1 < priority
  {
    if entries == [] || entries[0].1 < priority then 0 else 1 + Position(entries[1..], priority)
  }

  /** `entry` placed after every entry whose priority is at least its own. */
  function Insert<T>(entries: seq<(T, int)>, entry: (T, int)): seq<(T, int)> {
    if entries == [] then [entry]
    else if entries[0].1 >= entry.1 then [entries[0]] + Insert(entries[1..], entry)
    else [entry] + entries
  }

  /** Inserting splits the entries at `Position`. */
  lemma {:induction false} InsertAtPosition<T>(entries: seq<(T, int)>, entry: (T, int))
    ensures var n := Position(entries, entry.1);
      Insert(entries, entry) == entries[..n] + [entry] + entries[n..]
  {
    if entries != [] && entries[0].1 >= entry.1 {
      InsertAtPosition(entries[1..], entry);
      var n := Position(entries[1..], entry.1);
      assert entries[..n + 1] == [entries[0]] + entries[1..][..n];
      assert entries[n + 1..] == entries[1..][n..];
    }
  }

  lemma {:induction false} InsertSorted<T>(entries: seq<(T, int)>, entry: (T, int))
    requires SortedDesc(entries)
    ensures SortedDesc(Insert(entries, entry))
  {
    InsertAtPosition(entries, entry);
  }

  lemma {:induction false} InsertPermutes<T>(entries: seq<(T, int)>, entry: (T, int))
    ensures multiset(Insert(entries, entry)) == multiset(entries) + multiset{entry}
  {
    InsertAtPosition(entries, entry);
    var n := Position(entries, entry.1);
    assert entries == entries[..n] + entries[n..];
  }

  /** Within one priority, the inserted entry comes after the earlier ones. */
  lemma {:induction false} InsertStable<T>(entries: seq<(T, int)>, entry: (T, int), priority: int)
    requires SortedDesc(entries)
    ensures WithPriority(Insert(entries, entry), priority)
      == WithPriority(entries, priority) + WithPriority([entry], priority)
  {
    InsertAtPosition(entries, entry);
    var n := Position(entries, entry.1);
    var pre, post := entries[..n], entries[n..];
    assert entries == pre + post;
    assert Insert(entries, entry) == pre + [entry] + post;
    WithPriorityAppend(pre + [entry], post, priority);
    WithPriorityAppend(pre, [entry], priority);
    WithPriorityAppend(pre, post, priority);
    WithPriorityAppend(entries, [entry], priority);
    if entry.1 == priority {
      TailBelow(entries, n, priority);
      NoneOfPriority(post, priority);
    } else {
      assert WithPriority([entry], priority) == [];
    }
  }

  /** Past `Position`, a sorted registry holds only lower priorities. */
  lemma TailBelow<T>(entries: seq<(T, int)>, n: nat, priority: int)
    requires SortedDesc(entries) && n <= |entries|
    requires n < |entries| ==> entries[n].1 < priority
    ensures forall i :: 0 <= i < |entries[n..]| ==> entries[n..][i].1 < priority
  {
    forall i | 0 <= i < |entries[n..]|
      ensures entries[n..][i].1 < priority
    {
      assert entries[n..][i] == entries[n + i];
      assert entries[n + i].1 <= entries[n].1;
    }
  }

  lemma {:induction false} NoneOfPriority<T>(entries: seq<(T, int)>, priority: int)
    requires forall i :: 0 <= i < |entries| ==> entries[i].1 < priority
    ensures WithPriority(entries, priority) == []
  {
    if entries != [] {
      NoneOfPriority(entries[1..], priority);
    }
  }

  /** Python's `list.sort(key=priority, reverse=True)`: a stable sort from
      the highest priority down, written as an insertion sort. */
  function SortByPriority<T>(entries: seq<(T, int)>): seq<(T, int)> {
    if entries == [] then []
    else Insert(SortByPriority(entries[..|entries| - 1]), entries[|entries| - 1])
  }

  lemma {:induction false} SortByPrioritySorted<T>(entries: seq<(T, int)>)
    ensures SortedDesc(SortByPriority(entries))
  {
    if entries != [] {
      SortByPrioritySorted(entries[..|entries| - 1]);
      InsertSorted(SortByPriority(entries[..|entries| - 1]), entries[|entries| - 1]);
    }
  }

  lemma {:induction false} SortByPriorityPermutes<T>(entries: seq<(T, int)>)
    ensures multiset(SortByPriority(entries)) == multiset(entries)
  {
    if entries != [] {
      var init, last := entries[..|entries| - 1], entries[|entries| - 1];
      SortByPriorityPermutes(init);
      InsertPermutes(SortByPriority(init), last);
      assert entries == init + [last];
    }
  }

  /** Entries of equal priority keep their relative order. */
  lemma {:induction false} SortByPriorityStable<T>(entries: seq<(T, int)>, priority: int)
    ensures WithPriority(SortByPriority(entries), priority) == WithPriority(entries, priority)
  {
    if entries != [] {
      var init, last := entries[..|entries| - 1], entries[|entries| - 1];
      SortByPriorityStable(init, priority);
      SortByPrioritySorted(init);
      InsertStable(SortByPriority(init), last, priority);
      assert entries == init + [last];
      WithPriorityAppend(init, [last], priority);
    }
  }

  /** Sorting a list that is already in order changes nothing. */
  lemma {:induction false} SortByPriorityKeepsSorted<T>(entries: seq<(T, int)>)
    requires SortedDesc(entries)
    ensures SortByPriority(entries) == entries
  {
    if entries != [] {
      var init, last := entries[..|entries| - 1], entries[|entries| - 1];
      assert SortedDesc(init);
      SortByPriorityKeepsSorted(init);
      InsertAtPosition(init, last);
      assert Position(init, last.1) == |init|;
      assert init[..|init|] == init && init[|init|..] == [];
      assert entries == init + [last];
    }
  }

  /** Equal priorities keep their registration order: A at 1, B at 0 and
      C at 1 come out as A, C, B. */
  lemma SortByPriorityExample()
    ensures SortByPriority([('A', 1), ('B', 0), ('C', 1)]) == [('A', 1), ('C', 1), ('B', 0)]
  {
    var a: (char, int), b: (char, int), c: (char, int) := ('A', 1), ('B', 0), ('C', 1);
    assert |[a][..0]| == 0;
    assert SortByPriority([a]) == [a];
    assert [a, b][..1] == [a];
    assert SortByPriority([a, b]) == Insert([a], b) == [a, b];
    assert [a, b, c][..2] == [a, b];
    assert [a, b][1..] == [b];
    assert Insert([a, b], c) == [a] + Insert([b], c) == [a, c, b];
  }

  // ---------------------------------------------------------------------
  // PriorityRegistry
  // ---------------------------------------------------------------------

  /** The first components, in order. */
  function Firsts<T>(entries: seq<(T, int)>): (items: seq<T>)
    ensures |items| == |entries|
    ensures forall i :: 0 <= i < |items| ==> items[i] == entries[i].0
  {
    if entries == [] then [] else [entries[0].0] + Firsts(entries[1..])
  }

  /** Items with their priorities, kept highest priority first. */
  class PriorityRegistry<T(==)> {
    var registry: seq<(T, int)>

    constructor ()
      ensures registry == []
    {
      registry := [];
    }

    /** Appends the pair and sorts the whole list again. On a list in
        order this inserts the pair after every item of equal or higher
        priority. */
    method Register(item: T, priority: int)
      modifies this
      ensures SortedDesc(registry)
      ensures multiset(registry) == multiset(old(registry)) + multiset{(item, priority)}
      ensures forall p ::
        WithPriority(registry, p) == WithPriority(old(registry), p) + WithPriority([(item, priority)], p)
      ensures SortedDesc(old(registry)) ==>
        var n := Position(old(registry), priority);
        registry == old(registry)[..n] + [(item, priority)] + old(registry)[n..]
    {
      var appended := registry + [(item, priority)];
      SortByPrioritySorted(appended);
      SortByPriorityPermutes(appended);
      forall p
        ensures WithPriority(SortByPriority(appended), p)
          == WithPriority(registry, p) + WithPriority([(item, priority)], p)
      {
        SortByPriorityStable(appended, p);
        WithPriorityAppend(registry, [(item, priority)], p);
      }
      if SortedDesc(registry) {
        assert appended[..|appended| - 1] == registry;
        SortByPriorityKeepsSorted(registry);
        InsertAtPosition(registry, (item, priority));
      }
      registry := SortByPriority(appended);
    }

    /** Iteration: the items, without their priorities, in registry order. */
    function Items(): (items: seq<T>)
      reads this
      ensures |items| == |registry|
      ensures forall i :: 0 <= i < |items| ==> items[i] == registry[i].0
    {
      Firsts(registry)
    }
  }

  // ---------------------------------------------------------------------
  // SegmentationService
  // ---------------------------------------------------------------------

  /** The segmentation loop as written, on the segmenters still to visit.
      `bound` says whether `result` has been assigned yet; once it has, it
      holds an empty list, since a non-empty one is returned at once. */
  function SegmentWalk(segmenters: seq<Segmenter>, request: AnnotateRequest, tokens: seq<Token>, bound: bool)
    : Result<seq<Lexeme>, Exception>
  {
    if segmenters == [] then Failure(SegmentationFailed(request))
    else
      match CanSegment(segmenters[0], request)
      case Failure(e) => Failure(e)
      case Success(accepts) =>
        if accepts then
          match SegmentText(segmenters[0], request.baseText, tokens)
          case Failure(e) => Failure(e)
          case Success(result) =>
            if result != [] then Success(result) else SegmentWalk(segmenters[1..], request, tokens, true)
        else if !bound then Failure(UnboundLocalError("result"))
        else SegmentWalk(segmenters[1..], request, tokens, bound)
  }

  /** The segmentation loop with the emptiness test inside the
      `can_segment` branch: segmenters that decline are passed over. */
  function FirstSegmentation(segmenters: seq<Segmenter>, request: AnnotateRequest, tokens: seq<Token>)
    : (r: Result<seq<Lexeme>, Exception>)
    ensures r.Success? ==> r.value != []
  {
    if segmenters == [] then Failure(SegmentationFailed(request))
    else
      match CanSegment(segmenters[0], request)
      case Failure(e) => Failure(e)
      case Success(accepts) =>
        if accepts then
          match SegmentText(segmenters[0], request.baseText, tokens)
          case Failure(e) => Failure(e)
          case Success(result) =>
            if result != [] then Success(result) else FirstSegmentation(segmenters[1..], request, tokens)
        else FirstSegmentation(segmenters[1..], request, tokens)
  }

  /** Once `result` is bound the written loop and the corrected one agree. */
  lemma {:induction false} BoundWalkIsFirstSegmentation(segmenters: seq<Segmenter>, request: AnnotateRequest, tokens: seq<Token>)
    ensures SegmentWalk(segmenters, request, tokens, true) == FirstSegmentation(segmenters, request, tokens)
  {
    if segmenters != [] {
      BoundWalkIsFirstSegmentation(segmenters[1..], request, tokens);
    }
  }

  /** The loop as written raises `UnboundLocalError` exactly when the
      highest-priority segmenter declines the request; otherwise it does
      what the corrected loop does. */
  lemma SegmentAsWrittenDiffers(segmenters: seq<Segmenter>, request: AnnotateRequest, tokens: seq<Token>)
    ensures SegmentWalk(segmenters, request, tokens, false)
      == if segmenters != [] && CanSegment(segmenters[0], request) == Success(false)
         then Failure(UnboundLocalError("result"))
         else FirstSegmentation(segmenters, request, tokens)
  {
    if segmenters != [] {
      BoundWalkIsFirstSegmentation(segmenters[1..], request, tokens);
    }
  }

  /** What one segmenter does with the request: raise, decline (read as
      no lexemes), or return lexemes. */
  function SegmentOutcome(segmenter: Segmenter, request: AnnotateRequest, tokens: seq<Token>): Result<seq<Lexeme>, Exception> {
    match CanSegment(segmenter, request)
    case Failure(e) => Failure(e)
    case Success(accepts) => if accepts then SegmentText(segmenter, request.baseText, tokens) else Success([])
  }

  /** A segmenter whose outcome ends the walk. */
  predicate Decisive(segmenter: Segmenter, request: AnnotateRequest, tokens: seq<Token>) {
    SegmentOutcome(segmenter, request, tokens) != Success([])
  }

  /** The corrected loop returns the outcome of the first decisive
      segmenter, and `SegmentationFailed` when there is none. */
  lemma {:induction false} FirstSegmentationDecides(segmenters: seq<Segmenter>, request: AnnotateRequest, tokens: seq<Token>)
    ensures forall k ::
      (0 <= k < |segmenters| && Decisive(segmenters[k], request, tokens) &&
       forall j :: 0 <= j < k ==> !Decisive(segmenters[j], request, tokens)) ==>
        FirstSegmentation(segmenters, request, tokens) == SegmentOutcome(segmenters[k], request, tokens)
    ensures (forall k :: 0 <= k < |segmenters| ==> !Decisive(segmenters[k], request, tokens)) ==>
      FirstSegmentation(segmenters, request, tokens) == Failure(SegmentationFailed(request))
  {
    if segmenters != [] {
      FirstSegmentationDecides(segmenters[1..], request, tokens);
      forall k | 0 < k < |segmenters| && Decisive(segmenters[k], request, tokens) &&
        (forall j :: 0 <= j < k ==> !Decisive(segmenters[j], request, tokens))
        ensures FirstSegmentation(segmenters, request, tokens) == SegmentOutcome(segmenters[k], request, tokens)
      {
        assert !Decisive(segmenters[0], request, tokens);
        assert segmenters[1..][k - 1] == segmenters[k];
        assert forall j :: 0 <= j < k - 1 ==> segmenters[1..][j] == segmenters[j + 1];
      }
      if forall k :: 0 <= k < |segmenters| ==> !Decisive(segmenters[k], request, tokens) {
        assert !Decisive(segmenters[0], request, tokens);
        assert forall k :: 0 <= k < |segmenters| - 1 ==> segmenters[1..][k] == segmenters[k + 1];
      }
    }
  }

  /** With the module's own segmenters, lexemes come only from the
      Japanese one, on a Japanese request, and spell out the request text. */
  lemma {:induction false} SegmentationComesFromJapanese(segmenters: seq<Segmenter>, request: AnnotateRequest, tokens: seq<Token>)
    requires forall s :: s in segmenters ==> !s.OtherSegmenter?
    requires FirstSegmentation(segmenters, request, tokens).Success?
    ensures request.language == Japanese && JapaneseSegmenter in segmenters
    ensures FirstSegmentation(segmenters, request, tokens).value == JapaneseSegment(tokens, request.baseText)
    ensures JoinSurfaces(FirstSegmentation(segmenters, request, tokens).value) == request.baseText
  {
    var s := segmenters[0];
    OnlyJapaneseSegments(s, request, tokens);
    if CanSegment(s, request) == Success(true) && SegmentText(s, request.baseText, tokens).Success?
       && SegmentText(s, request.baseText, tokens).value != [] {
      JapaneseSegmentReconstructs(tokens, request.baseText);
    } else {
      SegmentationComesFromJapanese(segmenters[1..], request, tokens);
    }
  }

  /** A registry where the written loop fails and the corrected one
      succeeds: a Japanese request with the Chinese segmenter ranked first. */
  lemma UnboundResultExample()
    ensures var request := AnnotateRequest("人", Japanese);
      var tokens := [Token("人", "人", "ヒト")];
      && SegmentWalk([ChineseSegmenter, JapaneseSegmenter], request, tokens, false)
        == Failure(UnboundLocalError("result"))
      && FirstSegmentation([ChineseSegmenter, JapaneseSegmenter], request, tokens)
        == Success([Lexeme("人", None, Some(Pronunciation(Hiragana, "ひと")))])
  {
    var request := AnnotateRequest("人", Japanese);
    var tokens := [Token("人", "人", "ヒト")];
    assert KatakanaToHiragana("ヒト") == "ひと" by {
      KatakanaToHiraganaExamples();
    }
    assert JapaneseSegment(tokens, "人") == [Lexeme("人", None, Some(Pronunciation(Hiragana, "ひと")))];
  }

  /** With the segmenters the application registers (Japanese at 1, the
      default at 0): a Chinese request ends in `UnboundLocalError`, and a
      Japanese request whose analysis does not spell out the text reaches
      the default segmenter, which has no `can_segment`. */
  lemma ApplicationSegmenters(request: AnnotateRequest, tokens: seq<Token>)
    ensures var walk := SegmentWalk([JapaneseSegmenter, DefaultSegmenter], request, tokens, false);
      var lexemes := JapaneseSegment(tokens, request.baseText);
      && (request.language == Chinese ==> walk == Failure(UnboundLocalError("result")))
      && (request.language == Japanese && lexemes != [] ==> walk == Success(lexemes))
      && (request.language == Japanese && lexemes == [] ==> walk == Failure(AttributeError("can_segment")))
  {
    assert [JapaneseSegmenter, DefaultSegmenter][1..] == [DefaultSegmenter];
  }

  /** Holds a registry of segmenters. */
  class SegmentationService {
    var registry: PriorityRegistry<Segmenter>

    constructor (registry: PriorityRegistry<Segmenter>)
      ensures this.registry == registry
    {
      this.registry := registry;
    }

    /** `SegmentationService.segment` as written, where the emptiness test
        on `result` sits outside the `can_segment` branch. `tokens` is the
        analyser's output for the request text. */
    method Segment(request: AnnotateRequest, tokens: seq<Token>) returns (r: Result<seq<Lexeme>, Exception>)
      ensures r == SegmentWalk(registry.Items(), request, tokens, false)
    {
      var segmenters := registry.Items();
      var result: Option<seq<Lexeme>> := None;
      for i := 0 to |segmenters|
        invariant result.Some? ==> result.value == []
        invariant SegmentWalk(segmenters[i..], request, tokens, result.Some?) == SegmentWalk(segmenters, request, tokens, false)
      {
        var segmenter := segmenters[i];
        assert segmenters[i..][0] == segmenter && segmenters[i..][1..] == segmenters[i + 1..];
        var accepts := CanSegment(segmenter, request);
        if accepts.Failure? {
          return Failure(accepts.error);
        }
        if accepts.value {
          var produced := SegmentText(segmenter, request.baseText, tokens);
          if produced.Failure? {
            return Failure(produced.error);
          }
          result := Some(produced.value);
        }
        if result.None? {
          return Failure(UnboundLocalError("result"));
        }
        if result.value != [] {
          return Success(result.value);
        }
      }
      assert segmenters[|segmenters|..] == [];
      r := Failure(SegmentationFailed(request));
    }

    /** `segment` with the emptiness test moved inside the `can_segment`
        branch. */
    method SegmentCorrected(request: AnnotateRequest, tokens: seq<Token>) returns (r: Result<seq<Lexeme>, Exception>)
      ensures r == FirstSegmentation(registry.Items(), request, tokens)
    {
      var segmenters := registry.Items();
      for i := 0 to |segmenters|
        invariant FirstSegmentation(segmenters[i..], request, tokens) == FirstSegmentation(segmenters, request, tokens)
      {
        var segmenter := segmenters[i];
        assert segmenters[i..][0] == segmenter && segmenters[i..][1..] == segmenters[i + 1..];
        var accepts := CanSegment(segmenter, request);
        if accepts.Failure? {
          return Failure(accepts.error);
        }
        if accepts.value {
          var produced := SegmentText(segmenter, request.baseText, tokens);
          if produced.Failure? {
            return Failure(produced.error);
          }
          if produced.value != [] {
            return Success(produced.value);
          }
        }
      }
      assert segmenters[|segmenters|..] == [];
      r := Failure(SegmentationFailed(request));
    }
  }

  // ---------------------------------------------------------------------
  // SegmentAnnotationService
  // ---------------------------------------------------------------------

  /** An annotator that accepts the request and does not raise. */
  predicate Delivers(annotator: AnnotationProvider, request: AnnotateRequest, lexemes: seq<Lexeme>) {
    CanAnnotate(annotator, request) && AnnotateWith(annotator, lexemes).Success?
  }

  /** The annotation loop: the first accepting annotator that does not
      raise; an annotator that raises is skipped. */
  function FirstAnnotation(annotators: seq<AnnotationProvider>, request: AnnotateRequest, lexemes: seq<Lexeme>)
    : Result<seq<AnnotatedTextSegment>, Exception>
  {
    if annotators == [] then Failure(AnnotationFailed(request))
    else if CanAnnotate(annotators[0], request) then
      match AnnotateWith(annotators[0], lexemes)
      case Success(segments) => Success(segments)
      case Failure(_) => FirstAnnotation(annotators[1..], request, lexemes)
    else FirstAnnotation(annotators[1..], request, lexemes)
  }

  /** The result is that of the first annotator that delivers, and
      `AnnotationFailed` exactly when none does. */
  lemma {:induction false} FirstAnnotationDecides(annotators: seq<AnnotationProvider>, request: AnnotateRequest, lexemes: seq<Lexeme>)
    ensures forall k ::
      (0 <= k < |annotators| && Delivers(annotators[k], request, lexemes) &&
       forall j :: 0 <= j < k ==> !Delivers(annotators[j], request, lexemes)) ==>
        FirstAnnotation(annotators, request, lexemes) == AnnotateWith(annotators[k], lexemes)
    ensures FirstAnnotation(annotators, request, lexemes).Failure? <==>
      forall k :: 0 <= k < |annotators| ==> !Delivers(annotators[k], request, lexemes)
    ensures FirstAnnotation(annotators, request, lexemes).Failure? ==>
      FirstAnnotation(annotators, request, lexemes).error == AnnotationFailed(request)
  {
    if annotators != [] {
      FirstAnnotationDecides(annotators[1..], request, lexemes);
      forall k | 0 < k < |annotators| && Delivers(annotators[k], request, lexemes) &&
        (forall j :: 0 <= j < k ==> !Delivers(annotators[j], request, lexemes))
        ensures FirstAnnotation(annotators, request, lexemes) == AnnotateWith(annotators[k], lexemes)
      {
        assert !Delivers(annotators[0], request, lexemes);
        assert annotators[1..][k - 1] == annotators[k];
        assert forall j :: 0 <= j < k - 1 ==> annotators[1..][j] == annotators[j + 1];
      }
      assert forall k :: 0 <= k < |annotators| - 1 ==> annotators[1..][k] == annotators[k + 1];
      if FirstAnnotation(annotators, request, lexemes).Failure? {
        assert !Delivers(annotators[0], request, lexemes);
      }
    }
  }

  /** With the annotators the application registers (furigana at 1, the
      default at 0) annotation never fails: a Japanese request gets the
      furigana annotation unless it raises, every other case the default. */
  lemma ApplicationAnnotators(annotator: FuriganaAnnotator, request: AnnotateRequest, lexemes: seq<Lexeme>)
    ensures FirstAnnotation([Furigana(annotator), DefaultAnnotator], request, lexemes)
      == if request.language == Japanese && FuriganaSpec(annotator.pronunciationProvider, lexemes, 0).Success?
         then FuriganaSpec(annotator.pronunciationProvider, lexemes, 0)
         else Success(DefaultSpec(lexemes, 0))
  {
    assert [Furigana(annotator), DefaultAnnotator][1..] == [DefaultAnnotator];
  }

  /** Holds a registry of annotators. */
  class SegmentAnnotationService {
    var registry: PriorityRegistry<AnnotationProvider>

    constructor (registry: PriorityRegistry<AnnotationProvider>)
      ensures this.registry == registry
    {
      this.registry := registry;
    }

    /** `SegmentAnnotationService.annotate`. */
    method Annotate(request: AnnotateRequest, lexemes: seq<Lexeme>) returns (r: Result<seq<AnnotatedTextSegment>, Exception>)
      ensures r == FirstAnnotation(registry.Items(), request, lexemes)
    {
      var annotators := registry.Items();
      for i := 0 to |annotators|
        invariant FirstAnnotation(annotators[i..], request, lexemes) == FirstAnnotation(annotators, request, lexemes)
      {
        var annotator := annotators[i];
        assert annotators[i..][0] == annotator && annotators[i..][1..] == annotators[i + 1..];
        if CanAnnotate(annotator, request) {
          var produced := RunAnnotator(annotator, lexemes);
          if produced.Success? {
            return produced;
          }
        }
      }
      assert annotators[|annotators|..] == [];
      r := Failure(AnnotationFailed(request));
    }
  }

  // ---------------------------------------------------------------------
  // Wiring of the application
  // ---------------------------------------------------------------------

  /** `get_segmentation_service`. */
  method ApplicationSegmentationService() returns (service: SegmentationService)
    ensures fresh(service) && fresh(service.registry)
    ensures service.registry.Items() == [JapaneseSegmenter, DefaultSegmenter]
  {
    var registry := new PriorityRegistry<Segmenter>();
    registry.Register(JapaneseSegmenter, 1);
    registry.Register(DefaultSegmenter, 0);
    assert registry.registry == [(JapaneseSegmenter, 1), (DefaultSegmenter, 0)];
    service := new SegmentationService(registry);
  }

  /** `get_segment_annotation_service`. */
  method ApplicationAnnotationService(annotator: FuriganaAnnotator) returns (service: SegmentAnnotationService)
    ensures fresh(service) && fresh(service.registry)
    ensures service.registry.Items() == [Furigana(annotator), DefaultAnnotator]
  {
    var registry := new PriorityRegistry<AnnotationProvider>();
    registry.Register(Furigana(annotator), 1);
    registry.Register(DefaultAnnotator, 0);
    assert registry.registry == [(Furigana(annotator), 1), (DefaultAnnotator, 0)];
    service := new SegmentAnnotationService(registry);
  }
}
