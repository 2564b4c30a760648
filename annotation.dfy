/** The annotators: they turn the lexemes of a request into annotated text
    segments, placing each lexeme at the running sum of the surface lengths
    before it. */
module Annotation {
  import opened Wrappers
  import opened Models
  import opened Exceptions
  import opened CjkUtil
  import opened Difflib
  import opened Segmentation
  import opened PronunciationDictionary

  // ---------------------------------------------------------------------
  // Offsets
  // ---------------------------------------------------------------------

  /** Where lexeme `k` starts: the total length of the surfaces before it. */
  function Offset(lexemes: seq<Lexeme>, k: nat): nat
    requires k <= |lexemes|
  {
    |JoinSurfaces(lexemes[..k])|
  }

  /** The offset advances by one surface per lexeme, from 0 to the length
      of the whole text. */
  lemma OffsetNext(lexemes: seq<Lexeme>, k: nat)
    requires k < |lexemes|
    ensures Offset(lexemes, 0) == 0
    ensures Offset(lexemes, k + 1) == Offset(lexemes, k) + |lexemes[k].surface|
    ensures Offset(lexemes, |lexemes|) == |JoinSurfaces(lexemes)|
  {
    assert lexemes[..k + 1] == lexemes[..k] + [lexemes[k]];
    JoinSurfacesAppend(lexemes[..k], [lexemes[k]]);
    assert lexemes[..|lexemes|] == lexemes;
  }

  /** Offsets within the tail are offsets within the whole, less the
      first surface. */
  lemma OffsetTail(lexemes: seq<Lexeme>, k: nat)
    requires 1 <= k <= |lexemes|
    ensures Offset(lexemes, k) == |lexemes[0].surface| + Offset(lexemes[1..], k - 1)
  {
    assert lexemes[..k] == [lexemes[0]] + lexemes[1..][..k - 1];
    JoinSurfacesAppend([lexemes[0]], lexemes[1..][..k - 1]);
  }

  // ---------------------------------------------------------------------
  // DefaultAnnotator
  // ---------------------------------------------------------------------

  /** The segment the default annotator gives a lexeme starting at
      `start`: its span, annotatable exactly when it holds a Han character
      before any newline. */
  function DefaultSegment(lexeme: Lexeme, start: int): AnnotatedTextSegment {
    AnnotatedTextSegment((start, start + |lexeme.surface|), if IsHan(lexeme.surface) then Some([]) else None)
  }

  /** What `DefaultAnnotator.annotate` makes of `lexemes` when the first
      of them starts at `start`. */
  function DefaultSpec(lexemes: seq<Lexeme>, start: int): seq<AnnotatedTextSegment> {
    if lexemes == [] then []
    else [DefaultSegment(lexemes[0], start)] + DefaultSpec(lexemes[1..], start + |lexemes[0].surface|)
  }

  /** One segment per lexeme; the `k`-th spans from the sum of the earlier
      surface lengths to that sum plus its own, so the segments tile the
      text from `start` on. */
  lemma {:induction false} DefaultSpecPointwise(lexemes: seq<Lexeme>, start: int)
    ensures |DefaultSpec(lexemes, start)| == |lexemes|
    ensures forall k :: 0 <= k < |lexemes| ==>
      && DefaultSpec(lexemes, start)[k].indices
           == (start + Offset(lexemes, k), start + Offset(lexemes, k + 1))
      && DefaultSpec(lexemes, start)[k].annotations
           == if IsHan(lexemes[k].surface) then Some([]) else None
  {
    if lexemes != [] {
      var rest := lexemes[1..];
      var start' := start + |lexemes[0].surface|;
      DefaultSpecPointwise(rest, start');
      var spec, tail := DefaultSpec(lexemes, start), DefaultSpec(rest, start');
      assert spec == [DefaultSegment(lexemes[0], start)] + tail;
      forall k | 0 <= k < |lexemes|
        ensures spec[k].indices == (start + Offset(lexemes, k), start + Offset(lexemes, k + 1))
        ensures spec[k].annotations == if IsHan(lexemes[k].surface) then Some([]) else None
      {
        OffsetNext(lexemes, k);
        if k > 0 {
          assert spec[k] == tail[k - 1] && rest[k - 1] == lexemes[k];
          OffsetTail(lexemes, k);
          OffsetTail(lexemes, k + 1);
        }
      }
    }
  }

  /** `DefaultAnnotator.annotate`, with its running index. */
  method DefaultAnnotate(lexemes: seq<Lexeme>) returns (segments: seq<AnnotatedTextSegment>)
    ensures segments == DefaultSpec(lexemes, 0)
  {
    var index := 0;
    segments := [];
    for i := 0 to |lexemes|
      invariant segments + DefaultSpec(lexemes[i..], index) == DefaultSpec(lexemes, 0)
    {
      var lexeme := lexemes[i];
      assert lexemes[i..][1..] == lexemes[i + 1..];
      assert DefaultSpec(lexemes[i..], index)
        == [DefaultSegment(lexeme, index)] + DefaultSpec(lexemes[i + 1..], index + |lexeme.surface|);
      var segment;
      if IsHan(lexeme.surface) {
        segment := AnnotatedTextSegment((index, index + |lexeme.surface|), Some([]));
      } else {
        segment := AnnotatedTextSegment((index, index + |lexeme.surface|), None);
      }
      assert segment == DefaultSegment(lexeme, index);
      segments := segments + [segment];
      index := index + |lexeme.surface|;
    }
    assert lexemes[|lexemes|..] == [];
  }

  /** `DefaultAnnotator.can_annotate`: every request. */
  predicate DefaultCanAnnotate(request: AnnotateRequest) {
    true
  }

  lemma DefaultAnnotateExample()
    ensures DefaultSpec([Lexeme("これ", None, None), Lexeme("は", None, None),
                         Lexeme("漢字", None, None), Lexeme("だ", None, None)], 0)
      == [AnnotatedTextSegment((0, 2), None), AnnotatedTextSegment((2, 3), None),
          AnnotatedTextSegment((3, 5), Some([])), AnnotatedTextSegment((5, 6), None)]
  {
    IsHanOneChar('こ'); IsHanOneChar('れ'); IsHanOneChar('は');
    IsHanOneChar('漢'); IsHanOneChar('だ');
  }

  // ---------------------------------------------------------------------
  // FuriganaAnnotator
  // ---------------------------------------------------------------------

  /** An annotator reading from a pronunciation dictionary, which it only
      stores. */
  datatype FuriganaAnnotator = FuriganaAnnotator(pronunciationProvider: CjkPronunciationProvider)

  /** `FuriganaAnnotator.can_annotate`: Japanese requests only. */
  predicate FuriganaCanAnnotate(request: AnnotateRequest) {
    request.language == Japanese
  }

  /** The headword looked up for a lexeme: its base form when it has a
      non-empty one, otherwise its surface. */
  function LookupKey(lexeme: Lexeme): string {
    if lexeme.baseForm.Some? && lexeme.baseForm.value != "" then lexeme.baseForm.value else lexeme.surface
  }

  /** The dictionary entries under `key`; a missing key has none. */
  function EntriesOf(provider: CjkPronunciationProvider, key: string): seq<CjkPronunciationEntry> {
    if key in provider then provider[key] else []
  }

  /** The readings of the entries, in order. */
  function Readings(entries: seq<CjkPronunciationEntry>): (r: seq<string>)
    ensures |r| == |entries|
    ensures forall k :: 0 <= k < |r| ==> r[k] == entries[k].pronunciation
  {
    if entries == [] then [] else [entries[0].pronunciation] + Readings(entries[1..])
  }

  /** The first entry with the given reading (`next(...)` over the
      entries). */
  function FirstWithReading(entries: seq<CjkPronunciationEntry>, reading: string): (e: CjkPronunciationEntry)
    requires reading in Readings(entries)
    ensures exists k :: 0 <= k < |entries| && entries[k] == e &&
              forall j :: 0 <= j < k ==> entries[j].pronunciation != reading
    ensures e.pronunciation == reading
  {
    if entries[0].pronunciation == reading then entries[0]
    else
      assert Readings(entries) == [entries[0].pronunciation] + Readings(entries[1..]);
      var e := FirstWithReading(entries[1..], reading);
      var k :| 0 <= k < |entries[1..]| && entries[1..][k] == e &&
               forall j :: 0 <= j < k ==> entries[1..][j].pronunciation != reading;
      assert entries[k + 1] == e;
      e
  }

  /** The annotations made from per-character data: those with a non-empty
      reading, in order, their spans moved by `start`. */
  function ShiftedAnnotations(perChar: seq<PronunciationDatum>, start: int): seq<Annotation>
  {
    if perChar == [] then []
    else
      var d := perChar[|perChar| - 1];
      ShiftedAnnotations(perChar[..|perChar| - 1], start)
        + if d.pronunciation != "" then
            [Annotation((start + d.indices.0, start + d.indices.1), Some(d.pronunciation))]
          else []
  }

  /** Every annotation comes from a datum with a non-empty reading, moved
      by `start` and not clipped, and every such datum gives one. */
  lemma {:induction false} ShiftedAnnotationsFromData(perChar: seq<PronunciationDatum>, start: int)
    ensures |ShiftedAnnotations(perChar, start)| <= |perChar|
    ensures forall a :: a in ShiftedAnnotations(perChar, start) <==>
      exists d :: d in perChar && d.pronunciation != "" &&
                  a == Annotation((start + d.indices.0, start + d.indices.1), Some(d.pronunciation))
  {
    if perChar != [] {
      var init := perChar[..|perChar| - 1];
      var d := perChar[|perChar| - 1];
      ShiftedAnnotationsFromData(init, start);
      assert perChar == init + [d];
      assert forall e :: e in perChar <==> e in init || e == d;
    }
  }

  /** The data are turned into annotations one after the other: the
      annotations of `xs + ys` are those of `xs` followed by those of `ys`. */
  lemma {:induction false} ShiftedAnnotationsAppend(xs: seq<PronunciationDatum>, ys: seq<PronunciationDatum>, start: int)
    ensures ShiftedAnnotations(xs + ys, start) == ShiftedAnnotations(xs, start) + ShiftedAnnotations(ys, start)
    decreases |ys|
  {
    if ys == [] {
      assert xs + ys == xs;
    } else {
      var init, d := ys[..|ys| - 1], ys[|ys| - 1];
      assert (xs + ys)[..|xs + ys| - 1] == xs + init;
      assert (xs + ys)[|xs + ys| - 1] == d;
      ShiftedAnnotationsAppend(xs, init, start);
    }
  }

  /** One datum gives its shifted annotation when its reading is non-empty,
      and nothing otherwise. */
  lemma ShiftedAnnotationsSingle(d: PronunciationDatum, start: int)
    ensures ShiftedAnnotations([d], start)
      == if d.pronunciation != "" then [Annotation((start + d.indices.0, start + d.indices.1), Some(d.pronunciation))] else []
  {
    assert [d][..0] == [];
  }

  /** The segments for a Han lexeme starting at `start` whose headword has
      the non-empty `entries`: one segment with the readings of the entry
      whose reading is closest to the lexeme's, or the `segment_on_han`
      fallback when none is close enough, or an `AttributeError` when the
      lexeme carries no pronunciation. */
  function ReadingSegments(entries: seq<CjkPronunciationEntry>, lexeme: Lexeme, start: int)
    : Result<seq<AnnotatedTextSegment>, Exception>
  {
    if lexeme.pronunciation.None? then Failure(AttributeError("value"))
    else
      GetCloseMatchFromPossibilities(lexeme.pronunciation.value.value, Readings(entries));
      match GetCloseMatch(lexeme.pronunciation.value.value, Readings(entries))
      case None => Success(Runs(lexeme.surface, start, 0))
      case Some(best) =>
        var bestFit := FirstWithReading(entries, best);
        Success([AnnotatedTextSegment((start, start + |lexeme.surface|),
                                      Some(ShiftedAnnotations(bestFit.perChar, start)))])
  }

  /** The segments for one lexeme that starts at `start`, or the error the
      loop body raises for it. */
  function LexemeSegments(provider: CjkPronunciationProvider, lexeme: Lexeme, start: int)
    : Result<seq<AnnotatedTextSegment>, Exception>
  {
    if !IsHan(lexeme.surface) then Success([AnnotatedTextSegment((start, start + |lexeme.surface|), None)])
    else
      var entries := EntriesOf(provider, LookupKey(lexeme));
      if entries == [] then Success(Runs(lexeme.surface, start, 0))
      else ReadingSegments(entries, lexeme, start)
  }

  /** What `FuriganaAnnotator.annotate` makes of `lexemes` when the first
      of them starts at `start`: the segments of each lexeme in turn, or the
      first error. */
  function FuriganaSpec(provider: CjkPronunciationProvider, lexemes: seq<Lexeme>, start: int)
    : Result<seq<AnnotatedTextSegment>, Exception>
  {
    if lexemes == [] then Success([])
    else
      match LexemeSegments(provider, lexemes[0], start)
      case Failure(e) => Failure(e)
      case Success(first) =>
        match FuriganaSpec(provider, lexemes[1..], start + |lexemes[0].surface|)
        case Failure(e) => Failure(e)
        case Success(rest) => Success(first + rest)
  }

  /** `prefix` put in front of a successful result. */
  function Prepend(prefix: seq<AnnotatedTextSegment>, r: Result<seq<AnnotatedTextSegment>, Exception>)
    : Result<seq<AnnotatedTextSegment>, Exception>
  {
    match r
    case Success(s) => Success(prefix + s)
    case Failure(e) => Failure(e)
  }

  /** Segments that come one after the other without overlapping. */
  predicate InOrder(segments: seq<AnnotatedTextSegment>) {
    forall i, j :: 0 <= i < j < |segments| ==> segments[i].indices.1 <= segments[j].indices.0
  }

  /** Segments that all lie inside `[lo, hi]`, none of them reversed. */
  predicate Within(segments: seq<AnnotatedTextSegment>, lo: int, hi: int) {
    forall k :: 0 <= k < |segments| ==> lo <= segments[k].indices.0 <= segments[k].indices.1 <= hi
  }

  /** Whatever a lexeme adds lies inside its own span, in order. */
  lemma LexemeSegmentsWithin(provider: CjkPronunciationProvider, lexeme: Lexeme, start: int)
    ensures LexemeSegments(provider, lexeme, start).Success? ==>
      && Within(LexemeSegments(provider, lexeme, start).value, start, start + |lexeme.surface|)
      && InOrder(LexemeSegments(provider, lexeme, start).value)
  {
    RunsWithin(lexeme.surface, start, 0);
    RunsOrdered(lexeme.surface, start, 0);
  }

  /** The annotator's segments lie inside the text from `start` on and
      come out in lexeme order: the running start advances by one surface
      on every path. */
  lemma {:induction false} FuriganaSpecWithin(provider: CjkPronunciationProvider, lexemes: seq<Lexeme>, start: int)
    ensures FuriganaSpec(provider, lexemes, start).Success? ==>
      && Within(FuriganaSpec(provider, lexemes, start).value, start, start + |JoinSurfaces(lexemes)|)
      && InOrder(FuriganaSpec(provider, lexemes, start).value)
  {
    if lexemes != [] {
      var mid := start + |lexemes[0].surface|;
      LexemeSegmentsWithin(provider, lexemes[0], start);
      FuriganaSpecWithin(provider, lexemes[1..], mid);
      var r := FuriganaSpec(provider, lexemes, start);
      if r.Success? {
        var first := LexemeSegments(provider, lexemes[0], start).value;
        var rest := FuriganaSpec(provider, lexemes[1..], mid).value;
        assert r.value == first + rest;
        assert |JoinSurfaces(lexemes)| == |lexemes[0].surface| + |JoinSurfaces(lexemes[1..])|;
        ConcatInOrder(first, rest, start, mid, start + |JoinSurfaces(lexemes)|);
      }
    }
  }

  /** `second` put behind a successful `first`; the error of a failed
      `first` otherwise. */
  function Then(first: Result<seq<AnnotatedTextSegment>, Exception>, second: Result<seq<AnnotatedTextSegment>, Exception>)
    : Result<seq<AnnotatedTextSegment>, Exception>
  {
    if first.Failure? then first else Prepend(first.value, second)
  }

  /** Chaining three results does not depend on the grouping. */
  lemma ThenAssociative(a: Result<seq<AnnotatedTextSegment>, Exception>, b: Result<seq<AnnotatedTextSegment>, Exception>,
                        c: Result<seq<AnnotatedTextSegment>, Exception>)
    ensures Then(a, Then(b, c)) == Then(Then(a, b), c)
  {
    if a.Success? && b.Success? && c.Success? {
      assert a.value + (b.value + c.value) == (a.value + b.value) + c.value;
    }
  }

  /** The annotator on a non-empty list: the first lexeme's segments, then
      the rest's from the end of its surface. */
  lemma FuriganaSpecCons(provider: CjkPronunciationProvider, lexemes: seq<Lexeme>, start: int)
    requires lexemes != []
    ensures FuriganaSpec(provider, lexemes, start)
      == Then(LexemeSegments(provider, lexemes[0], start),
              FuriganaSpec(provider, lexemes[1..], start + |lexemes[0].surface|))
  {
  }

  /** The annotator on two lexeme lists in a row: the first list's result,
      or its error, followed by the second list's from where the first
      one's text ends. */
  lemma {:induction false} FuriganaSpecAppend(provider: CjkPronunciationProvider, xs: seq<Lexeme>, ys: seq<Lexeme>, start: int)
    ensures FuriganaSpec(provider, xs + ys, start)
      == Then(FuriganaSpec(provider, xs, start), FuriganaSpec(provider, ys, start + |JoinSurfaces(xs)|))
  {
    if xs == [] {
      assert xs + ys == ys;
      var b := FuriganaSpec(provider, ys, start);
      if b.Success? {
        assert [] + b.value == b.value;
      }
    } else {
      var next := start + |xs[0].surface|;
      assert (xs + ys)[0] == xs[0];
      assert (xs + ys)[1..] == xs[1..] + ys;
      FuriganaSpecCons(provider, xs + ys, start);
      FuriganaSpecCons(provider, xs, start);
      FuriganaSpecAppend(provider, xs[1..], ys, next);
      assert start + |JoinSurfaces(xs)| == next + |JoinSurfaces(xs[1..])|;
      ThenAssociative(LexemeSegments(provider, xs[0], start), FuriganaSpec(provider, xs[1..], next),
                      FuriganaSpec(provider, ys, start + |JoinSurfaces(xs)|));
    }
  }

  /** A chain succeeds only when both parts do, and then holds both. */
  lemma ThenSuccess(a: Result<seq<AnnotatedTextSegment>, Exception>, b: Result<seq<AnnotatedTextSegment>, Exception>)
    ensures Then(a, b).Success? ==> a.Success? && b.Success? && Then(a, b).value == a.value + b.value
  {
  }

  /** Lexeme `k` starts at `start` plus the lengths of the surfaces before
      it: a successful result is what the lexemes before `k` give, then
      lexeme `k`'s own segments at that start, then what the lexemes after
      it give from the end of its surface. */
  lemma FuriganaSpecSplit(provider: CjkPronunciationProvider, lexemes: seq<Lexeme>, start: int, k: nat)
    requires k < |lexemes|
    ensures var r := FuriganaSpec(provider, lexemes, start);
      var pre := FuriganaSpec(provider, lexemes[..k], start);
      var mid := LexemeSegments(provider, lexemes[k], start + Offset(lexemes, k));
      var post := FuriganaSpec(provider, lexemes[k + 1..], start + Offset(lexemes, k + 1));
      r.Success? ==>
        && pre.Success? && mid.Success? && post.Success?
        && r.value == pre.value + mid.value + post.value
  {
    var at := start + Offset(lexemes, k);
    OffsetNext(lexemes, k);
    FuriganaSpecAt(provider, lexemes, start, k);
    FuriganaSpecFrom(provider, lexemes, at, k);
    ChainOfThree(FuriganaSpec(provider, lexemes, start), FuriganaSpec(provider, lexemes[..k], start),
                 FuriganaSpec(provider, lexemes[k..], at), LexemeSegments(provider, lexemes[k], at),
                 FuriganaSpec(provider, lexemes[k + 1..], start + Offset(lexemes, k + 1)));
  }

  /** The annotator cut before lexeme `k`. */
  lemma FuriganaSpecAt(provider: CjkPronunciationProvider, lexemes: seq<Lexeme>, start: int, k: nat)
    requires k <= |lexemes|
    ensures FuriganaSpec(provider, lexemes, start)
      == Then(FuriganaSpec(provider, lexemes[..k], start), FuriganaSpec(provider, lexemes[k..], start + Offset(lexemes, k)))
  {
    assert lexemes == lexemes[..k] + lexemes[k..];
    FuriganaSpecAppend(provider, lexemes[..k], lexemes[k..], start);
  }

  /** The annotator from lexeme `k` on: lexeme `k`'s segments, then the
      rest's. */
  lemma FuriganaSpecFrom(provider: CjkPronunciationProvider, lexemes: seq<Lexeme>, at: int, k: nat)
    requires k < |lexemes|
    ensures FuriganaSpec(provider, lexemes[k..], at)
      == Then(LexemeSegments(provider, lexemes[k], at), FuriganaSpec(provider, lexemes[k + 1..], at + |lexemes[k].surface|))
  {
    assert lexemes[k..][0] == lexemes[k] && lexemes[k..][1..] == lexemes[k + 1..];
    FuriganaSpecCons(provider, lexemes[k..], at);
  }

  /** A chain of three successful parts holds them one after the other. */
  lemma ChainOfThree(r: Result<seq<AnnotatedTextSegment>, Exception>, pre: Result<seq<AnnotatedTextSegment>, Exception>,
                     rest: Result<seq<AnnotatedTextSegment>, Exception>, mid: Result<seq<AnnotatedTextSegment>, Exception>,
                     post: Result<seq<AnnotatedTextSegment>, Exception>)
    requires r == Then(pre, rest) && rest == Then(mid, post)
    ensures r.Success? ==>
      && pre.Success? && mid.Success? && post.Success?
      && r.value == pre.value + mid.value + post.value
  {
    ThenSuccess(pre, rest);
    ThenSuccess(mid, post);
  }

  /** The segments made for lexeme `k` lie between the sum of the earlier
      surface lengths and that sum plus its own, from `start` on. */
  lemma FuriganaLexemePlacement(provider: CjkPronunciationProvider, lexemes: seq<Lexeme>, start: int, k: nat)
    requires k < |lexemes|
    requires FuriganaSpec(provider, lexemes, start).Success?
    ensures var mid := LexemeSegments(provider, lexemes[k], start + Offset(lexemes, k));
      mid.Success? && Within(mid.value, start + Offset(lexemes, k), start + Offset(lexemes, k + 1))
  {
    FuriganaSpecSplit(provider, lexemes, start, k);
    OffsetNext(lexemes, k);
    LexemeSegmentsWithin(provider, lexemes[k], start + Offset(lexemes, k));
  }

  /** Segments inside `[lo, mid]` followed by segments inside
      `[mid, hi]` lie inside `[lo, hi]`, in order. */
  lemma ConcatInOrder(first: seq<AnnotatedTextSegment>, rest: seq<AnnotatedTextSegment>, lo: int, mid: int, hi: int)
    requires lo <= mid <= hi
    requires Within(first, lo, mid) && InOrder(first)
    requires Within(rest, mid, hi) && InOrder(rest)
    ensures Within(first + rest, lo, hi) && InOrder(first + rest)
  {
    var all := first + rest;
    forall k | 0 <= k < |all| ensures lo <= all[k].indices.0 <= all[k].indices.1 <= hi {
      if k < |first| {
        assert all[k] == first[k];
      } else {
        assert all[k] == rest[k - |first|];
      }
    }
    forall i, j | 0 <= i < j < |all| ensures all[i].indices.1 <= all[j].indices.0 {
      if j < |first| {
        assert all[i] == first[i] && all[j] == first[j];
      } else if i < |first| {
        assert all[i] == first[i] && all[j] == rest[j - |first|];
      } else {
        assert all[i] == rest[i - |first|] && all[j] == rest[j - |first|];
      }
    }
  }

  /** A lexeme without a Han character before any newline is one segment
      over its span, not annotatable, whatever the dictionary holds. */
  lemma NonHanLexemeUnannotated(provider: CjkPronunciationProvider, lexeme: Lexeme, start: int)
    requires !IsHan(lexeme.surface)
    ensures LexemeSegments(provider, lexeme, start)
      == Success([AnnotatedTextSegment((start, start + |lexeme.surface|), None)])
  {
  }

  /** A Han lexeme whose headword has no entries falls back to
      `segment_on_han` at its start, which gives nothing for a single
      character. */
  lemma MissingHeadwordFallsBack(provider: CjkPronunciationProvider, lexeme: Lexeme, start: int)
    requires IsHan(lexeme.surface)
    requires EntriesOf(provider, LookupKey(lexeme)) == []
    ensures LexemeSegments(provider, lexeme, start) == Success(Runs(lexeme.surface, start, 0))
    ensures |lexeme.surface| <= 1 ==> LexemeSegments(provider, lexeme, start) == Success([])
  {
    SegmentOnHanEmptyIff(lexeme.surface, start);
  }

  /** A non-empty base form is the only headword tried: when it is missing
      the lexeme falls back, even if its surface is in the dictionary. */
  lemma BaseFormOnlyHeadword(provider: CjkPronunciationProvider, lexeme: Lexeme, start: int)
    requires IsHan(lexeme.surface)
    requires lexeme.baseForm.Some? && lexeme.baseForm.value != "" && lexeme.baseForm.value !in provider
    ensures LexemeSegments(provider, lexeme, start) == Success(Runs(lexeme.surface, start, 0))
  {
  }

  /** A lexeme whose reading is one of its headword's readings gets one
      segment over its span, annotated with the readings of the first entry
      that has that reading, moved to the lexeme's start. */
  lemma ExactReadingAnnotated(provider: CjkPronunciationProvider, lexeme: Lexeme, start: int)
    requires IsHan(lexeme.surface) && lexeme.pronunciation.Some?
    requires lexeme.pronunciation.value.value in Readings(EntriesOf(provider, LookupKey(lexeme)))
    ensures var entries := EntriesOf(provider, LookupKey(lexeme));
      LexemeSegments(provider, lexeme, start)
        == Success([AnnotatedTextSegment(
             (start, start + |lexeme.surface|),
             Some(ShiftedAnnotations(FirstWithReading(entries, lexeme.pronunciation.value.value).perChar, start)))])
  {
    ExactMatchChosen(lexeme.pronunciation.value.value, Readings(EntriesOf(provider, LookupKey(lexeme))));
  }

  /** A lexeme none of whose headword's readings is close enough to its
      own falls back to `segment_on_han` at its start. */
  lemma NoCloseReadingFallsBack(provider: CjkPronunciationProvider, lexeme: Lexeme, start: int)
    requires IsHan(lexeme.surface) && lexeme.pronunciation.Some?
    requires EntriesOf(provider, LookupKey(lexeme)) != []
    requires forall x :: x in Readings(EntriesOf(provider, LookupKey(lexeme))) ==>
      Ratio(x, lexeme.pronunciation.value.value) < Cutoff
    ensures LexemeSegments(provider, lexeme, start) == Success(Runs(lexeme.surface, start, 0))
  {
    GetCloseMatchBest(lexeme.pronunciation.value.value, Readings(EntriesOf(provider, LookupKey(lexeme))));
  }

  /** A Han lexeme whose headword has entries but which carries no
      pronunciation: reading its value raises. */
  predicate LacksPronunciation(provider: CjkPronunciationProvider, lexeme: Lexeme) {
    IsHan(lexeme.surface) && EntriesOf(provider, LookupKey(lexeme)) != [] && lexeme.pronunciation.None?
  }

  /** One lexeme fails exactly when it lacks the pronunciation it needs. */
  lemma LexemeFailsIff(provider: CjkPronunciationProvider, lexeme: Lexeme, start: int)
    ensures LexemeSegments(provider, lexeme, start).Failure? <==> LacksPronunciation(provider, lexeme)
    ensures LexemeSegments(provider, lexeme, start).Failure? ==>
      LexemeSegments(provider, lexeme, start).error == AttributeError("value")
  {
  }

  /** The annotator fails exactly when some lexeme lacks the pronunciation
      it needs, and then with an `AttributeError`. */
  lemma {:induction false} FuriganaFailsIff(provider: CjkPronunciationProvider, lexemes: seq<Lexeme>, start: int)
    ensures FuriganaSpec(provider, lexemes, start).Failure? <==>
      exists k :: 0 <= k < |lexemes| && LacksPronunciation(provider, lexemes[k])
    ensures FuriganaSpec(provider, lexemes, start).Failure? ==>
      FuriganaSpec(provider, lexemes, start).error == AttributeError("value")
  {
    if lexemes != [] {
      LexemeFailsIff(provider, lexemes[0], start);
      FuriganaFailsIff(provider, lexemes[1..], start + |lexemes[0].surface|);
      if exists k :: 0 <= k < |lexemes| && LacksPronunciation(provider, lexemes[k]) {
        var k :| 0 <= k < |lexemes| && LacksPronunciation(provider, lexemes[k]);
        if k > 0 {
          assert lexemes[1..][k - 1] == lexemes[k];
        }
      }
      if exists k :: 0 <= k < |lexemes[1..]| && LacksPronunciation(provider, lexemes[1..][k]) {
        var k :| 0 <= k < |lexemes[1..]| && LacksPronunciation(provider, lexemes[1..][k]);
        assert lexemes[k + 1] == lexemes[1..][k];
      }
    }
  }

  /** One lexeme's segments, once known, move from the pending part of the
      result to its finished prefix. */
  lemma FuriganaSpecStep(provider: CjkPronunciationProvider, lexemes: seq<Lexeme>, i: nat,
                         segments: seq<AnnotatedTextSegment>, start: int, produced: seq<AnnotatedTextSegment>)
    requires i < |lexemes|
    requires LexemeSegments(provider, lexemes[i], start) == Success(produced)
    ensures Prepend(segments, FuriganaSpec(provider, lexemes[i..], start))
      == Prepend(segments + produced, FuriganaSpec(provider, lexemes[i + 1..], start + |lexemes[i].surface|))
  {
    assert lexemes[i..][1..] == lexemes[i + 1..];
    match FuriganaSpec(provider, lexemes[i + 1..], start + |lexemes[i].surface|)
    case Failure(e) =>
    case Success(rest) =>
      assert segments + (produced + rest) == (segments + produced) + rest;
  }

  /** The inner loop of `FuriganaAnnotator.annotate`: the chosen entry's
      per-character data turned into annotations at `segmentStart`. */
  method PerCharAnnotations(perChar: seq<PronunciationDatum>, segmentStart: int)
    returns (annotations: seq<Annotation>)
    ensures annotations == ShiftedAnnotations(perChar, segmentStart)
  {
    annotations := [];
    for k := 0 to |perChar|
      invariant annotations == ShiftedAnnotations(perChar[..k], segmentStart)
    {
      var datum := perChar[k];
      assert perChar[..k + 1][..k] == perChar[..k];
      if datum.pronunciation != "" {
        annotations := annotations + [Annotation(
          (segmentStart + datum.indices.0, segmentStart + datum.indices.1),
          Some(datum.pronunciation))];
      }
    }
    assert perChar[..|perChar|] == perChar;
  }

  /** The body of the lexeme loop of `FuriganaAnnotator.annotate`: the
      segments one lexeme adds, or the error it raises. */
  method AnnotateLexeme(provider: CjkPronunciationProvider, lexeme: Lexeme, segmentStart: int)
    returns (r: Result<seq<AnnotatedTextSegment>, Exception>)
    ensures r == LexemeSegments(provider, lexeme, segmentStart)
  {
    var indices := (segmentStart, segmentStart + |lexeme.surface|);
    if !IsHan(lexeme.surface) {
      return Success([AnnotatedTextSegment(indices, None)]);
    }
    var key := if lexeme.baseForm.Some? && lexeme.baseForm.value != "" then lexeme.baseForm.value else lexeme.surface;
    var furiganaEntries := if key in provider then provider[key] else [];
    assert furiganaEntries == EntriesOf(provider, LookupKey(lexeme));
    if furiganaEntries == [] {
      var fallback := SegmentOnHan(lexeme.surface, segmentStart);
      return Success(fallback);
    }
    r := AnnotateReading(furiganaEntries, lexeme, segmentStart);
  }

  /** The part of the lexeme loop's body that runs once the headword has
      entries: choosing the reading and building its annotations. */
  method AnnotateReading(furiganaEntries: seq<CjkPronunciationEntry>, lexeme: Lexeme, segmentStart: int)
    returns (r: Result<seq<AnnotatedTextSegment>, Exception>)
    ensures r == ReadingSegments(furiganaEntries, lexeme, segmentStart)
  {
    if lexeme.pronunciation.None? {
      return Failure(AttributeError("value"));
    }
    var bestFitPronunciation := GetCloseMatch(lexeme.pronunciation.value.value, Readings(furiganaEntries));
    if bestFitPronunciation.None? {
      var fallback := SegmentOnHan(lexeme.surface, segmentStart);
      return Success(fallback);
    }
    GetCloseMatchFromPossibilities(lexeme.pronunciation.value.value, Readings(furiganaEntries));
    var bestFit := FirstWithReading(furiganaEntries, bestFitPronunciation.value);
    var annotations := PerCharAnnotations(bestFit.perChar, segmentStart);
    return Success([AnnotatedTextSegment((segmentStart, segmentStart + |lexeme.surface|), Some(annotations))]);
  }

  /** `FuriganaAnnotator.annotate`: the walk over the lexemes with a running
      start, falling back to `segment_on_han` when the dictionary has no
      entry or no close reading. */
  method FuriganaAnnotate(annotator: FuriganaAnnotator, lexemes: seq<Lexeme>)
    returns (r: Result<seq<AnnotatedTextSegment>, Exception>)
    ensures r == FuriganaSpec(annotator.pronunciationProvider, lexemes, 0)
  {
    var provider := annotator.pronunciationProvider;
    var segments: seq<AnnotatedTextSegment> := [];
    var segmentStart := 0;
    assert lexemes[0..] == lexemes;
    assert Prepend(segments, FuriganaSpec(provider, lexemes, 0)) == FuriganaSpec(provider, lexemes, 0) by {
      match FuriganaSpec(provider, lexemes, 0)
      case Failure(e) =>
      case Success(all) => assert [] + all == all;
    }
    for i := 0 to |lexemes|
      invariant Prepend(segments, FuriganaSpec(provider, lexemes[i..], segmentStart))
        == FuriganaSpec(provider, lexemes, 0)
    {
      var lexeme := lexemes[i];
      assert lexemes[i..][0] == lexeme;
      var produced := AnnotateLexeme(provider, lexeme, segmentStart);
      if produced.Failure? {
        return Failure(produced.error);
      }
      FuriganaSpecStep(provider, lexemes, i, segments, segmentStart, produced.value);
      segments := segments + produced.value;
      segmentStart := segmentStart + |lexeme.surface|;
    }
    assert lexemes[|lexemes|..] == [];
    assert segments + [] == segments;
    r := Success(segments);
  }

  // ---------------------------------------------------------------------
  // Dispatch over the annotator classes
  // ---------------------------------------------------------------------

  /** The annotator classes of the module, and any other implementation
      of the annotator protocol, given by what its `can_annotate` and its
      `annotate` do on the request at hand. */
  datatype AnnotationProvider =
    | DefaultAnnotator
    | Furigana(furigana: FuriganaAnnotator)
    | OtherAnnotator(canAnnotate: bool, annotated: Result<seq<AnnotatedTextSegment>, Exception>)

  /** `annotator.can_annotate(request)`. */
  predicate CanAnnotate(annotator: AnnotationProvider, request: AnnotateRequest) {
    match annotator
    case DefaultAnnotator => DefaultCanAnnotate(request)
    case Furigana(_) => FuriganaCanAnnotate(request)
    case OtherAnnotator(canAnnotate, _) => canAnnotate
  }

  /** `annotator.annotate(lexemes)`: the default annotator never raises. */
  function AnnotateWith(annotator: AnnotationProvider, lexemes: seq<Lexeme>): Result<seq<AnnotatedTextSegment>, Exception> {
    match annotator
    case DefaultAnnotator => Success(DefaultSpec(lexemes, 0))
    case Furigana(f) => FuriganaSpec(f.pronunciationProvider, lexemes, 0)
    case OtherAnnotator(_, annotated) => annotated
  }

  /** Calls the annotator's own `annotate`. */
  method RunAnnotator(annotator: AnnotationProvider, lexemes: seq<Lexeme>)
    returns (r: Result<seq<AnnotatedTextSegment>, Exception>)
    ensures r == AnnotateWith(annotator, lexemes)
  {
    match annotator
    case DefaultAnnotator =>
      var segments := DefaultAnnotate(lexemes);
      r := Success(segments);
    case Furigana(f) =>
      r := FuriganaAnnotate(f, lexemes);
    case OtherAnnotator(_, annotated) =>
      r := annotated;
  }
}
