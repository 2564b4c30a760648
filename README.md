# rubify-backend: the annotation pipeline, in Dafny

rubify-backend takes a request holding a text and its language (Japanese or
Chinese). It returns the text cut into segments, with readings (furigana)
placed over the Han characters. A request goes through three steps:

- **Segmentation service.** It asks the registered segmenters in priority order
  for lexemes. The Japanese segmenter post-processes the output of a
  morphological analyser. The Chinese segmenter is not implemented.
- **Annotation service.** It asks the registered annotators in priority order
  for segments.
  - The default annotator emits one segment per lexeme. It marks the Han ones
    as annotatable.
  - The furigana annotator looks each lexeme up in a pronunciation dictionary.
    It picks the entry whose reading is closest to the lexeme's reading, using
    difflib's `get_close_matches`. It then shifts that entry's per-character
    reading spans onto the text.
  - When the lookup or the match fails, it falls back to `segment_on_han`, a
    splitter on Han/non-Han boundaries.
- **Dictionary update script.** It builds that dictionary from JmdictFurigana.
  It locates each ruby part in the headword with a moving `str.find` cursor.
  It groups the entries by headword.

The model has one module per source file:

| module | file |
|---|---|
| `Models` | models.dfy |
| `Exceptions` | exceptions.dfy |
| `CjkUtil` | cjk_util.dfy |
| `Segmentation` | segmentation.dfy |
| `PronunciationDictionary` | pronunciation.dfy |
| `Annotation` | annotation.dfy |
| `Services` | services.dfy |
| `UpdateDictionaries` | update_dictionaries.dfy |

Three more modules support them:

- `Wrappers` holds `Option` and `Result`. A raised Python exception is a
  `Failure` carrying an `Exceptions.Exception`.
- `Difflib` models the part of Python's difflib that `get_close_matches` uses.
- `AnnotationExamples` holds the repository's furigana test, proved.

The code's form is kept:

- **Loops are methods.** `segment_on_han`, both `annotate` methods, both
  service loops and the dictionary transform are `method`s with loops. Each
  is proved equal to a specification function, and the properties are proved
  about that function.
- **The registry's `register`** appends and calls `list.sort`. It is a method
  without a loop that assigns the sorted list to the registry field.
- **Pure code is functions.** `is_han`, `katakana_to_hiragana`, the Japanese
  segmenter's list comprehension and the `can_*` checks are functions.
- **Mutable objects are classes.** The registry and the two services are
  classes.

### Behaviour worth knowing

- **`segment_on_han`** (src/cjk_util.py:31-55) does not emit one segment per
  character. It emits runs:
  - after a boundary at index `i` the cursor is reset, and the next
    iteration opens the run at `i` (line 37, `i - 1`), so `text[i + 1]` is
    never compared;
  - each character is compared with the run's first character (line 40);
  - no segment is shorter than two characters;
  - when a boundary falls on the last index, that character is dropped;
  - it never creates an `Annotation`: Han runs get `[]`, others `None`
    (lines 44 and 51).
- **Dictionary lookup** (src/annotation.py:52). The key is the base form when
  it is non-empty, and otherwise the surface. The other one is never tried.
- **`DefaultSegmenter`** (src/segmentation.py:35-40) defines no
  `can_segment`, so asking it raises `AttributeError`. Its `segment` is
  declared without `self`, so calling it on an instance raises `TypeError`.
  It can never produce lexemes.
- **Segmentation service** (src/services.py:42-51). `result` is assigned only
  when a segmenter accepts the request. When the first segmenter consulted
  declines, `if result:` reads an unbound local (see Findings).

## Model

| member | source | states |
|---|---|---|
| CjkUtil.IsHan | src/cjk_util.py:13-14 | `is_han`: the regex anchored at 0 whose `.*` cannot cross a newline, as a recursion over the first line; its meaning is `IsHanBeforeNewline` |
| CjkUtil.IsHanBeforeNewline | src/cjk_util.py:13-14 | `is_han(s)` holds iff some Han character occurs in `s` before the first newline, since the regex is anchored at 0 and `.` stops at `\n` |
| CjkUtil.IsHanOneChar | src/cjk_util.py:13-14 | on a one-character string, `is_han` is exactly Han-script membership of that character |
| CjkUtil.IsHanExamples | tests/test_cjk_util.py:7-32 | the test's verdicts: 漢, 字, 你好, 漢あ, あ漢 are Han; a Han character after a newline is not seen |
| CjkUtil.NotHanExamples | tests/test_cjk_util.py:13-27 | the test's verdicts: あ, こんにちは, ア, カタカナ, 안, 녕하세요 are not Han |
| CjkUtil.FoldKana | src/cjk_util.py:7-12 | a character in ァ..ヶ (U+30A1..U+30F6) maps to the character 0x60 below it; every other character is kept |
| CjkUtil.KatakanaToHiragana | src/cjk_util.py:17-28 | length is preserved and each character is folded on its own |
| CjkUtil.KatakanaToHiraganaKeepsOthers | src/cjk_util.py:20-24 | a string with no katakana in the table's range comes back unchanged |
| CjkUtil.KatakanaToHiraganaLeavesNoKatakana | src/cjk_util.py:7-12 | the result contains no character of the katakana range |
| CjkUtil.KatakanaToHiraganaIdempotent | src/cjk_util.py:17-28 | folding twice is folding once |
| CjkUtil.KatakanaToHiraganaExamples | tests/test_cjk_util.py:36-46 | カタカナ becomes かたかな; ひらがな is unchanged |
| CjkUtil.KatakanaToHiraganaMixedExample | tests/test_cjk_util.py:48-52 | カタカナとひらがな becomes かたかなとひらがな |
| CjkUtil.Runs | src/cjk_util.py:31-55 | the run segmentation from `start` on; every run takes at least two characters, so there are at most half as many segments as characters left |
| CjkUtil.RunEnd | src/cjk_util.py:34-46 | the first index at or after `i` whose Han-ness differs from the run's first character, or the end of the text |
| CjkUtil.SegmentOnHan | src/cjk_util.py:31-55 | the loop with its `curr_segment_start` cursor returns exactly the run segmentation `Runs(text, offset, 0)` |
| CjkUtil.SegmentOnHanEmptyIff | src/cjk_util.py:33-38 | there are no segments iff the text has at most one character |
| CjkUtil.RunsAtLeastTwo | src/cjk_util.py:37-53 | every segment spans at least two characters |
| CjkUtil.RunsContiguous | src/cjk_util.py:40-53 | the first segment starts at the offset; each later one starts where the previous ended |
| CjkUtil.RunsWithin | src/cjk_util.py:43-50 | every segment lies within `[offset, offset + len(text)]` |
| CjkUtil.RunsOrdered | src/cjk_util.py:40-53 | segments come in order without overlapping |
| CjkUtil.RunsDropLast | src/cjk_util.py:40-53 | when the last segment stops one short of the end, its annotations are `None` iff the dropped final character is Han, and `[]` otherwise: the boundary there set them from that character (line 44) |
| CjkUtil.RunsDropLastIff | src/cjk_util.py:40-53 | the last segment stops one short of the end iff its run opens at least three characters before the end and the final character's Han-ness differs from the run's first character |
| CjkUtil.RunsAreRuns | src/cjk_util.py:34-46 | every segment is a maximal run: its characters after the second share the first one's Han-ness, and the character after it, if any, differs |
| CjkUtil.RunsAnnotations | src/cjk_util.py:40-52 | a segment's annotations are `[]` iff its first character is Han, `None` otherwise; no `Annotation` is ever created |
| CjkUtil.RunsShift | src/cjk_util.py:43-50 | the offset shifts every span by itself and changes nothing else |
| CjkUtil.SegmentOnHanUniform | src/cjk_util.py:40-53 | a text of length at least 2 that is all Han or all non-Han is one segment over the whole text |
| CjkUtil.SegmentOnHanExamples | tests/test_cjk_util.py:56-85 | the test's results for 漢字, こんにちは, 漢字です (offsets 0 and 1) and です漢字, plus a dropped last character, a merged 漢あ漢 and the empty result for 常 |
| Segmentation.JoinSurfacesAppend | src/segmentation.py:63 | `"".join` of surfaces distributes over concatenation of lexeme lists |
| Segmentation.Lexemes | src/segmentation.py:51-62 | one lexeme per token, in token order, each built from its own token |
| Segmentation.LexemeOf | src/segmentation.py:54-59 | a token's lexeme: its surface, its normalized form only when it differs, and its reading folded to hiragana; its meaning is `JapaneseSegmentForms` |
| Segmentation.JapaneseSegment | src/segmentation.py:49-68 | a non-empty result has one lexeme per token and spells out the text |
| Segmentation.JapaneseSegmentReconstructs | src/segmentation.py:51-68 | a non-empty result spells out the text and keeps each token's surface; the result is empty iff there are no tokens or their surfaces do not spell out the text |
| Segmentation.JapaneseSegmentForms | src/segmentation.py:54-59 | the base form is never the surface again; the reading is present and holds no katakana |
| Segmentation.JapaneseCanSegment | src/segmentation.py:70-71 | the Japanese segmenter accepts exactly the Japanese requests |
| Segmentation.ChineseCanSegment | src/segmentation.py:78-79 | the Chinese segmenter accepts exactly the Chinese requests |
| Segmentation.ChineseSegment | src/segmentation.py:75-76 | the Chinese segmenter raises `NotImplementedError` on every text |
| Segmentation.CanSegment | src/segmentation.py:35-79 | `can_segment` on each class: `AttributeError` for `DefaultSegmenter`, which has none, the language test for the other two |
| Segmentation.SegmentText | src/segmentation.py:35-79 | `segment` on each class: `TypeError` for `DefaultSegmenter`, whose `segment` lacks `self`; the Japanese lexemes; `NotImplementedError` for Chinese |
| Segmentation.OnlyJapaneseSegments | src/segmentation.py:35-79 | of the module's segmenters, only the Japanese one, on a Japanese request, both accepts and returns lexemes; the Chinese one raises `NotImplementedError` and the default one cannot be asked |
| Annotation.DefaultCanAnnotate | src/annotation.py:32-33 | the default annotator accepts every request |
| Annotation.OffsetNext | src/annotation.py:22-29 | the running index starts at 0, grows by each surface's length and ends at the joined length |
| Annotation.DefaultSegment | src/annotation.py:25-28 | one lexeme's segment at the running index: its span, and `[]` for a Han surface or `None` otherwise |
| Annotation.DefaultSpec | src/annotation.py:21-30 | the default annotator's loop as a recursion with the running index; its meaning is `DefaultSpecPointwise` |
| Annotation.DefaultSpecPointwise | src/annotation.py:21-30 | one segment per lexeme; the k-th spans `(P_k, P_k + len)` with `P_k` the sum of the earlier lengths; annotations are `[]` for a Han surface and `None` otherwise |
| Annotation.DefaultAnnotate | src/annotation.py:21-30 | the loop with its running index returns exactly `DefaultSpec(lexemes, 0)` |
| Annotation.DefaultAnnotateExample | tests/test_annotation.py:89-100 | これ, は, 漢字, だ give (0,2) None, (2,3) None, (3,5) [], (5,6) None |
| Annotation.FuriganaCanAnnotate | src/annotation.py:89-90 | the furigana annotator accepts exactly the Japanese requests |
| Annotation.LookupKey | src/annotation.py:52 | the headword is the base form when it is present and non-empty, else the surface; its consequence is `BaseFormOnlyHeadword` |
| Annotation.Readings | src/annotation.py:60 | the entries' readings, one per entry, in order |
| Annotation.FirstWithReading | src/annotation.py:65 | the first entry whose reading equals the chosen one |
| Annotation.ShiftedAnnotations | src/annotation.py:67-78 | the chosen entry's data with a non-empty reading, in order, each span moved by the lexeme's start; its meaning is the three lemmas below |
| Annotation.ShiftedAnnotationsFromData | src/annotation.py:67-78 | the annotations are the entry's per-character data with a non-empty reading, each span shifted by the segment start, and nothing else |
| Annotation.ShiftedAnnotationsAppend | src/annotation.py:67-78 | the shifted annotations of two data lists are those of the first followed by those of the second, so the entry's order is kept |
| Annotation.ShiftedAnnotationsSingle | src/annotation.py:67-78 | one datum gives its shifted span with its reading when the reading is non-empty, and nothing otherwise |
| Annotation.PerCharAnnotations | src/annotation.py:67-78 | the inner loop returns exactly the shifted, filtered data |
| Annotation.ReadingSegments | src/annotation.py:60-86 | a Han lexeme with entries: `AttributeError` without a pronunciation, the `segment_on_han` fallback when no reading is close, else one segment with the closest entry's shifted data |
| Annotation.LexemeSegments | src/annotation.py:45-86 | one lexeme's segments: a bare segment for a surface without Han, the fallback for a missing headword, else `ReadingSegments` |
| Annotation.LexemeSegmentsWithin | src/annotation.py:45-86 | every segment of one lexeme lies within `[start, start + len(surface)]`, in order |
| Annotation.FuriganaSpec | src/annotation.py:41-87 | the annotator's loop as a recursion over the lexemes with the running start, stopping at the first raised error; its properties are the `FuriganaSpecWithin`, `FuriganaFailsIff` and per-lexeme rows |
| Annotation.FuriganaSpecWithin | src/annotation.py:41-87 | all segments lie within `[start, start + joined length]` and come out in order without overlapping |
| Annotation.FuriganaSpecAppend | src/annotation.py:41-87 | the annotator on two lexeme lists in a row is the first list's result, or its error, followed by the second's from where the first one's text ends |
| Annotation.FuriganaSpecSplit | src/annotation.py:45-86 | a successful result is the lexemes before `k`, then lexeme `k`'s own segments made at `start + P_k` (the earlier surface lengths summed), then the lexemes after it from `start + P_(k+1)` |
| Annotation.FuriganaLexemePlacement | src/annotation.py:45-86 | in a successful result, lexeme `k`'s segments lie within `[start + P_k, start + P_(k+1)]` |
| Annotation.NonHanLexemeUnannotated | src/annotation.py:46-49 | a surface without Han gives one segment over it with `annotations = None` |
| Annotation.MissingHeadwordFallsBack | src/annotation.py:51-58 | a missing headword or an empty entry list gives exactly `segment_on_han(surface, start)`, which is nothing for a one-character surface |
| Annotation.BaseFormOnlyHeadword | src/annotation.py:52 | a non-empty base form is the only key looked up; when it is absent the surface is not tried |
| Annotation.ExactReadingAnnotated | src/annotation.py:60-86 | when the lexeme's reading is among the entries' readings, one segment over the surface carries the shifted data of the first entry with that reading |
| Annotation.NoCloseReadingFallsBack | src/annotation.py:60-64 | when no reading reaches the cutoff, the lexeme falls back to `segment_on_han` |
| Annotation.FuriganaFailsIff | src/annotation.py:60 | the annotator raises iff some Han lexeme with dictionary entries has no pronunciation, and the error is `AttributeError` on `value` |
| Annotation.AnnotateLexeme | src/annotation.py:45-86 | one iteration of the loop returns exactly `LexemeSegments` |
| Annotation.AnnotateReading | src/annotation.py:60-86 | the matching branch returns exactly `ReadingSegments` |
| Annotation.FuriganaAnnotate | src/annotation.py:41-87 | the loop with its running start returns exactly `FuriganaSpec(provider, lexemes, 0)`, the error included |
| Annotation.RunAnnotator | src/services.py:65 | calling an annotator gives what its own `annotate` gives |
| AnnotationExamples.FuriganaTestSentence | tests/test_annotation.py:104-126 | the test sentence and dictionary give the eleven expected segments, 呼んで looked up through 呼ぶ included |
| Difflib.BlockLength | src/annotation.py:60 | a positive block length stays inside both ranges |
| Difflib.BlockLengthMatches | src/annotation.py:60 | the characters a block pairs are equal, and the block cannot be extended by one more equal pair |
| Difflib.ScanLongest | src/annotation.py:60 | the scan never replaces the best block by a shorter one |
| Difflib.ScanLongestIsBlock | src/annotation.py:60 | every block the scan keeps is a common block of the two ranges |
| Difflib.LongestMatch | src/annotation.py:60 | the longest match is a common block of the two ranges |
| Difflib.ScanStep | src/annotation.py:60 | one step of the scan keeps a block at least as long as the one at the position it looks at |
| Difflib.ScanMaximalInRow | src/annotation.py:60 | the scan's result is at least as long as any block starting later in the current row |
| Difflib.ScanMaximal | src/annotation.py:60 | the scan's result is at least as long as any block starting at a position it still visits |
| Difflib.LongestMatchMaximal | src/annotation.py:60 | no common block of the two ranges is longer than the longest match |
| Difflib.Matched | src/annotation.py:60 | the matched count is bounded by both range lengths, and a count equal to both makes the ranges equal |
| Difflib.RatioAtMostOne | src/annotation.py:60 | the similarity ratio lies in [0, 1] |
| Difflib.SelfRatio | src/annotation.py:60 | a string is fully similar to itself |
| Difflib.RatioOneOnlyEqual | src/annotation.py:60 | the ratio is 1 iff the strings are equal |
| Difflib.StrLessTotal | src/annotation.py:60 | string order, used to break ties between equal scores, is total |
| Difflib.AboveTransitive | src/annotation.py:60 | the order on (score, string) pairs is transitive |
| Difflib.AboveAsymmetric | src/annotation.py:60 | the order on (score, string) pairs is asymmetric |
| Difflib.ScoredMembers | src/annotation.py:60 | a scored pair is a candidate with its ratio, at or above the cutoff |
| Difflib.Greatest | src/annotation.py:60 | the pick is a member that no other pair beats |
| Difflib.GetCloseMatch | src/annotation.py:60 | `get_close_matches(word, possibilities, n=1)`: the greatest (ratio, string) pair at or above 0.6, or nothing; its properties are the rows below |
| Difflib.GetCloseMatchFromPossibilities | src/annotation.py:60-65 | a returned string is one of the candidates, so the entry search at line 65 finds it |
| Difflib.GetCloseMatchBest | src/annotation.py:60-64 | nothing is returned iff every candidate scores below 0.6; otherwise the result reaches 0.6 and no candidate beats it |
| Difflib.ExactMatchChosen | src/annotation.py:60-65 | a candidate equal to the word is always the one returned |
| Services.Position | src/services.py:26-28 | the count of leading entries of priority at least `p`; the next entry is lower |
| Services.InsertAtPosition | src/services.py:26-28 | inserting places the pair right after every entry of equal or higher priority |
| Services.SortByPriority | src/services.py:26-28 | the stable sort by descending priority that `list.sort` performs; its properties are the four rows below |
| Services.SortByPrioritySorted | src/services.py:28 | the sorted list is non-increasing in priority |
| Services.SortByPriorityPermutes | src/services.py:28 | sorting permutes the entries |
| Services.SortByPriorityStable | src/services.py:28 | within each priority the entries keep their order |
| Services.SortByPriorityKeepsSorted | src/services.py:28 | sorting a list already in order changes nothing |
| Services.SortByPriorityExample | src/services.py:26-28 | A at 1, B at 0 and C at 1 come out as A, C, B |
| Services.PriorityRegistry.constructor | src/services.py:23-24 | a new registry is empty |
| Services.PriorityRegistry.Register | src/services.py:26-28 | the new list is sorted and holds the old entries plus the pair; each priority keeps its order with the pair last; on a sorted list the pair lands after every entry of equal or higher priority |
| Services.PriorityRegistry.Items | src/services.py:30-32 | iteration yields the items in stored order, without priorities |
| Services.SegmentWalk | src/services.py:42-51 | the written loop over the segmenters, with `bound` telling whether `result` holds a value; an unbound read raises `UnboundLocalError` |
| Services.FirstSegmentation | src/services.py:42-51 | the loop with the emptiness test inside the accepting branch; a success is never an empty list |
| Services.BoundWalkIsFirstSegmentation | src/services.py:43-51 | once `result` is bound, the written loop behaves like the corrected one |
| Services.SegmentAsWrittenDiffers | src/services.py:43-52 | the written loop raises `UnboundLocalError` iff the first segmenter declines the request; otherwise it gives what the corrected loop gives |
| Services.FirstSegmentationDecides | src/services.py:43-52 | the first segmenter that raises or accepts and returns lexemes decides the result, raised errors included; with none, `SegmentationFailed(request)` |
| Services.SegmentationComesFromJapanese | src/services.py:43-47 | with the module's segmenters, lexemes come only from the Japanese segmenter on a Japanese request, and they spell out the text |
| Services.UnboundResultExample | src/services.py:43-46 | a Japanese request with the Chinese segmenter ranked first fails as written but gets its lexemes once corrected |
| Services.ApplicationSegmenters | src/app.py:21-23 | with Japanese at 1 and the default at 0, a Chinese request raises `UnboundLocalError`; a Japanese request gets its lexemes, or `AttributeError` when the analysis does not spell out the text |
| Services.SegmentationService.Segment | src/services.py:42-52 | the loop as written, with `result` carried across iterations, returns exactly `SegmentWalk(items, request, tokens, false)` |
| Services.SegmentationService.SegmentCorrected | src/services.py:42-52 | the loop with the emptiness test inside the `can_segment` branch returns exactly `FirstSegmentation` |
| Services.FirstAnnotation | src/services.py:62-70 | the loop over the annotators that accept the request, ending at the first that does not raise; its properties are `FirstAnnotationDecides` |
| Services.FirstAnnotationDecides | src/services.py:62-70 | the result is that of the first annotator that accepts and does not raise, unchanged; `AnnotationFailed(request)` iff none does, including an empty registry |
| Services.ApplicationAnnotators | src/app.py:30-32 | with furigana at 1 and the default at 0, annotation never fails; a Japanese request gets the furigana result unless that raises, and every other case gets the default |
| Services.SegmentAnnotationService.Annotate | src/services.py:59-70 | the loop returns exactly `FirstAnnotation(items, request, lexemes)` |
| Services.ApplicationSegmentationService | src/app.py:20-26 | the registry iterates the Japanese segmenter, then the default one |
| Services.ApplicationAnnotationService | src/app.py:29-36 | the registry iterates the furigana annotator, then the default one |
| UpdateDictionaries.Find | update_dictionaries.py:36 | Python's `str.find` with a start that may be negative or past the end; its meaning is `FindSpec` |
| UpdateDictionaries.FindSpec | update_dictionaries.py:36 | `str.find` returns the first occurrence at or after its normalised start, which is never below the given start, and -1 iff there is none |
| UpdateDictionaries.BearingMembers | update_dictionaries.py:33-34 | the parts kept are exactly those with a non-empty `rt` |
| UpdateDictionaries.PerCharSpec | update_dictionaries.py:32-40 | the per-character data of one entry, with the cursor threaded through; its properties are the `PerChar*` rows |
| UpdateDictionaries.PerCharSkipsUnread | update_dictionaries.py:32-34 | a part without `rt` yields no datum and does not move the cursor |
| UpdateDictionaries.PerCharPointwise | update_dictionaries.py:32-40 | one datum per `rt`-bearing part, with its reading, searched from the previous datum's end, as long as its ruby |
| UpdateDictionaries.PerCharSpans | update_dictionaries.py:36-39 | every span is as long as its ruby; a found ruby sits there in the text at or after the previous end; a missing one gives `(-1, len(ruby) - 1)` |
| UpdateDictionaries.PerCharEmptyIff | update_dictionaries.py:42-43 | an entry has no datum, and is dropped, iff none of its parts has an `rt` |
| UpdateDictionaries.PerChar | update_dictionaries.py:29-40 | the cursor loop returns exactly `PerCharSpec(text, furigana, 0)` |
| UpdateDictionaries.Transformed | update_dictionaries.py:42-50 | an entry's record, its reading with its per-character data, or nothing when it has no datum |
| UpdateDictionaries.Grouped | update_dictionaries.py:26-50 | the `defaultdict(list)` after each entry's record is appended under its text; its meaning is `GroupedByText` |
| UpdateDictionaries.Kept | update_dictionaries.py:42-50 | the records of the entries with a given text that keep a datum, in input order |
| UpdateDictionaries.GroupedByText | update_dictionaries.py:26-50 | a text is a key iff one of its entries keeps a datum; its list holds those entries' records in input order |
| UpdateDictionaries.Transform | update_dictionaries.py:26-50 | the loop over the entries returns exactly `Grouped(entries)` |
| UpdateDictionaries.TransformExample | update_dictionaries.py:32-40 | 可愛い with parts 可/か, 愛/わい and a bare い gives (0,1) か and (1,2) わい |
| UpdateDictionaries.MissingRubyExample | update_dictionaries.py:36-39 | a ruby missing from "ab" gives (-1, 0); the cursor becomes 0, so the next ruby "b" is found at 1 |
| UpdateDictionaries.NegativeCursorExample | update_dictionaries.py:36-39 | the cursor can become -1: a long missing ruby moves it past the end, an empty ruby is then not found, and `find` counts -1 from the back, so the second "b" of "bab" is found |

## Left out

- Unicode tables: `HanScript` lists Script=Han as code point ranges. The model does not track which Unicode version the `regex` module uses. Only two properties of the regex engine are kept: the match is anchored at 0, and `.` does not match a newline.
- Difflib.Ratio: an exact rational, where Python computes a float. Float rounding at the 0.6 cutoff is not modelled.
- Difflib: the autojunk heuristic and the `real_quick_ratio` and `quick_ratio` prefilters are left out. The heuristic only applies to words of 200 characters or more. The prefilters are upper bounds on the ratio, so skipping them changes no result.
- The sudachipy analyser: its tokens for the request text are an input (`tokens`).
- Logging: all calls are left out.
- The FastAPI endpoint: its composition of the two services is not modelled. Only the registries the app builds are modelled.
- Loading the dictionary: reading the dictionary file (`load_furigana_json`) is left out. `CjkPronunciationProvider` is a map.
- The update script's I/O: downloading, unpacking and reading/writing JSON are left out. So is a raw entry missing a key, and the script's `pop` of its `text` field.
- Pydantic: validation and serialization of the request and response records are left out.
- Services.SortByPriority: this is an insertion sort proved sorted, a permutation and stable. These three properties fix Python's result. That they fix a unique list is not proved.
- Services.PriorityRegistry.Register: the stored list is a `seq` that is reassigned. Aliasing of the Python list is not modelled.
- Annotation.AnnotationProvider: any other annotator has a `can_annotate` that returns a boolean. An annotator whose `can_annotate` raises is not modelled.

## Findings

| source | as written | input that shows it | evidently intended | confidence | as-written member | corrected member |
|---|---|---|---|---|---|---|
| src/services.py:44-47 | `if result:` sits outside the `can_segment` branch. When the first segmenter declines the request, `result` is read before any assignment and `UnboundLocalError` escapes. | The registry [Chinese, Japanese] with a Japanese request for 人. Also the app's own registry with any Chinese request. | A segmenter that declines is skipped. The first productive segmenter wins, and `SegmentationFailed` is raised when there is none. | high; not executed | Services.UnboundResultExample | Services.FirstSegmentationDecides |
