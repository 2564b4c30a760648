/** Character utilities over CJK text: the Han test, the katakana to
    hiragana fold, and the splitter of a text into Han and non-Han runs. */
module CjkUtil {
  import opened Wrappers
  import opened Models

  // ---------------------------------------------------------------------
  // Han script
  // ---------------------------------------------------------------------

  /** Membership in the Unicode script property Script=Han (the ranges of
      the Unicode 15.1 script table). The lemmas below never look inside
      this table: they hold for any classification of the characters. */
  predicate HanScript(c: char) {
    var n := c as int;
    || (0x2E80 <= n <= 0x2E99) || (0x2E9B <= n <= 0x2EF3) || (0x2F00 <= n <= 0x2FD5)
    || n == 0x3005 || n == 0x3007 || (0x3021 <= n <= 0x3029) || (0x3038 <= n <= 0x303B)
    || (0x3400 <= n <= 0x4DBF) || (0x4E00 <= n <= 0x9FFF)
    || (0xF900 <= n <= 0xFA6D) || (0xFA70 <= n <= 0xFAD9)
    || n == 0x16FE2 || n == 0x16FE3 || (0x16FF0 <= n <= 0x16FF1)
    || (0x20000 <= n <= 0x2A6DF) || (0x2A700 <= n <= 0x2B739) || (0x2B740 <= n <= 0x2B81D)
    || (0x2B820 <= n <= 0x2CEA1) || (0x2CEB0 <= n <= 0x2EBE0) || (0x2EBF0 <= n <= 0x2EE5D)
    || (0x2F800 <= n <= 0x2FA1D) || (0x30000 <= n <= 0x3134A) || (0x31350 <= n <= 0x323AF)
  }

  /** `is_han`: whether the pattern `.*\p{Script=Han}.*` matches at the start
      of `s`. The leading `.*` cannot cross a line feed, so only the first
      line of `s` is searched. */
  predicate IsHan(s: string) {
    |s| > 0 && (HanScript(s[0]) || (s[0] != '\n' && IsHan(s[1..])))
  }

  /** `is_han(s)` holds exactly when a Han character occurs in `s` before
      its first line feed. */
  lemma {:induction false} IsHanBeforeNewline(s: string)
    ensures IsHan(s) <==> exists k :: 0 <= k < |s| && HanScript(s[k]) && '\n' !in s[..k]
  {
    if |s| == 0 {
    } else if HanScript(s[0]) {
      assert s[..0] == [];
    } else if s[0] == '\n' {
      forall k | 0 < k < |s| ensures '\n' in s[..k] {
        assert s[..k][0] == '\n';
      }
    } else {
      var t := s[1..];
      IsHanBeforeNewline(t);
      if IsHan(s) {
        var k :| 0 <= k < |t| && HanScript(t[k]) && '\n' !in t[..k];
        assert s[..k + 1] == [s[0]] + t[..k];
        assert s[k + 1] == t[k];
      }
      if exists k :: 0 <= k < |s| && HanScript(s[k]) && '\n' !in s[..k] {
        var k :| 0 <= k < |s| && HanScript(s[k]) && '\n' !in s[..k];
        assert k > 0;
        assert s[..k] == [s[0]] + t[..k - 1];
        assert t[k - 1] == s[k];
      }
    }
  }

  /** On one character, `is_han` is the script test itself. */
  lemma IsHanOneChar(c: char)
    ensures IsHan([c]) <==> HanScript(c)
  {
    assert [c][1..] == [];
  }

  lemma IsHanExamples()
    ensures IsHan("漢") && IsHan("字") && IsHan("你好")
    ensures IsHan("漢あ") && IsHan("あ漢")
    ensures !IsHan("あ\n漢")
  {
    assert "あ漢"[1..] == "漢";
    assert "あ\n漢"[1..] == "\n漢";
  }

  lemma NotHanExamples()
    ensures !IsHan("あ") && !IsHan("こんにちは")
    ensures !IsHan("ア") && !IsHan("カタカナ")
    ensures !IsHan("안") && !IsHan("녕하세요")
  {
    assert "こんにちは"[1..] == "んにちは" && "んにちは"[1..] == "にちは";
    assert "にちは"[1..] == "ちは" && "ちは"[1..] == "は" && "は"[1..] == "";
    assert "カタカナ"[1..] == "タカナ" && "タカナ"[1..] == "カナ";
    assert "カナ"[1..] == "ナ" && "ナ"[1..] == "";
    assert "녕하세요"[1..] == "하세요" && "하세요"[1..] == "세요";
    assert "세요"[1..] == "요" && "요"[1..] == "";
  }

  // ---------------------------------------------------------------------
  // Katakana to hiragana
  // ---------------------------------------------------------------------

  /** ord("ア") - ord("あ"): how far each katakana lies above its hiragana. */
  const KanaShift: int := 0x60
  /** ord("ぁ") and ord("ゖ"): the hiragana the fold table produces. */
  const HiraganaFirst: int := 0x3041
  const HiraganaLast: int := 0x3096

  /** The first and the last key of `_kata_to_hira`, in insertion order:
      the katakana of ord("ぁ") and of ord("ゖ"). */
  const FirstKatakana: char := (HiraganaFirst + KanaShift) as char
  const LastKatakana: char := (HiraganaLast + KanaShift) as char

  /** `_kata_to_hira`: each katakana from `FirstKatakana` to `LastKatakana`
      mapped to the hiragana `KanaShift` below it. */
  const KataToHira: map<char, char> :=
    map k: char | FirstKatakana <= k <= LastKatakana :: (k as int - KanaShift) as char

  /** The fold of one character, as the comprehension does it: a character
      outside the key range of the table is kept, one inside is looked up. */
  function FoldKana(c: char): (r: char)
    ensures r == if 'ァ' <= c <= 'ヶ' then (c as int - 0x60) as char else c
  {
    if c < FirstKatakana || c > LastKatakana then c
    else KataToHira[c]
  }

  /** `katakana_to_hiragana`: same length; each character in U+30A1..U+30F6
      becomes the character 0x60 below it, every other one is kept. */
  function KatakanaToHiragana(s: string): (r: string)
    ensures |r| == |s|
    ensures forall i :: 0 <= i < |s| ==>
      r[i] == if 'ァ' <= s[i] <= 'ヶ' then (s[i] as int - 0x60) as char else s[i]
  {
    if s == [] then [] else [FoldKana(s[0])] + KatakanaToHiragana(s[1..])
  }

  /** Text without katakana in U+30A1..U+30F6 (hiragana, Han, Latin, ...)
      comes back unchanged. */
  lemma KatakanaToHiraganaKeepsOthers(s: string)
    requires forall i :: 0 <= i < |s| ==> !('ァ' <= s[i] <= 'ヶ')
    ensures KatakanaToHiragana(s) == s
  {
  }

  /** No character of the result lies in the folded range: the image
      U+3041..U+3096 lies below it. */
  lemma KatakanaToHiraganaLeavesNoKatakana(s: string)
    ensures forall c :: c in KatakanaToHiragana(s) ==> !('ァ' <= c <= 'ヶ')
  {
    var r := KatakanaToHiragana(s);
    forall i | 0 <= i < |r| ensures !('ァ' <= r[i] <= 'ヶ') {
      if 'ァ' <= s[i] <= 'ヶ' {
        assert r[i] as int == s[i] as int - 0x60 <= 0x3096;
      }
    }
  }

  /** Folding twice is folding once. */
  lemma KatakanaToHiraganaIdempotent(s: string)
    ensures KatakanaToHiragana(KatakanaToHiragana(s)) == KatakanaToHiragana(s)
  {
    KatakanaToHiraganaLeavesNoKatakana(s);
    KatakanaToHiraganaKeepsOthers(KatakanaToHiragana(s));
  }

  lemma KatakanaToHiraganaExamples()
    ensures KatakanaToHiragana("カタカナ") == "かたかな"
    ensures KatakanaToHiragana("ひらがな") == "ひらがな"
  {
    var r := KatakanaToHiragana("カタカナ");
    assert r[0] == 'か' && r[1] == 'た' && r[2] == 'か' && r[3] == 'な';
    KatakanaToHiraganaKeepsOthers("ひらがな");
  }

  lemma KatakanaToHiraganaMixedExample()
    ensures KatakanaToHiragana("カタカナとひらがな") == "かたかなとひらがな"
  {
    KatakanaToHiraganaExamples();
    KatakanaToHiraganaKeepsTail();
    KatakanaToHiraganaConcat("カタカナ", "とひらがな", "かたかな", "とひらがな");
    MixedSplit();
  }

  lemma MixedSplit()
    ensures "カタカナ" + "とひらがな" == "カタカナとひらがな"
    ensures "かたかな" + "とひらがな" == "かたかなとひらがな"
  {
  }

  lemma KatakanaToHiraganaKeepsTail()
    ensures KatakanaToHiragana("とひらがな") == "とひらがな"
  {
    KatakanaToHiraganaKeepsOthers("とひらがな");
  }

  lemma KatakanaToHiraganaConcat(s: string, t: string, foldedS: string, foldedT: string)
    requires KatakanaToHiragana(s) == foldedS && KatakanaToHiragana(t) == foldedT
    ensures KatakanaToHiragana(s + t) == foldedS + foldedT
  {
    KatakanaToHiraganaAppend(s, t);
  }

  /** Folding works character by character, so it distributes over `+`. */
  lemma {:induction false} KatakanaToHiraganaAppend(s: string, t: string)
    ensures KatakanaToHiragana(s + t) == KatakanaToHiragana(s) + KatakanaToHiragana(t)
  {
    if s == [] {
      assert s + t == t;
    } else {
      assert (s + t)[0] == s[0];
      assert (s + t)[1..] == s[1..] + t;
      KatakanaToHiraganaAppend(s[1..], t);
      assert [FoldKana(s[0])] + (KatakanaToHiragana(s[1..]) + KatakanaToHiragana(t))
        == ([FoldKana(s[0])] + KatakanaToHiragana(s[1..])) + KatakanaToHiragana(t);
    }
  }

  // ---------------------------------------------------------------------
  // Splitting on Han runs
  // ---------------------------------------------------------------------

  /** The end of the run that `segment_on_han` opens at `start`, scanning
      from `i`: the first index whose character differs in Han-ness from
      `text[start]` (the opening character, not the previous one), or the
      end of the text. */
  function RunEnd(text: string, start: nat, i: nat): (e: nat)
    requires start < |text| && i <= |text|
    ensures i <= e <= |text|
    ensures forall j :: i <= j < e ==> IsHan([text[j]]) == IsHan([text[start]])
    ensures e < |text| ==> IsHan([text[e]]) != IsHan([text[start]])
    decreases |text| - i
  {
    if i == |text| || IsHan([text[i]]) != IsHan([text[start]]) then i
    else RunEnd(text, start, i + 1)
  }

  /** The annotations of a run opening at `start`: `Some([])` for a Han
      opening character, `None` otherwise. */
  function RunAnnotations(text: string, start: nat): Option<seq<Annotation>>
    requires start < |text|
  {
    if IsHan([text[start]]) then Some([]) else None
  }

  /** The segments `segment_on_han(text, offset)` emits from the run that
      opens at `start` on. A run needs two characters to be emitted; the
      character after its opening one is never compared; a run closed at
      the last index leaves that last character to a run too short to emit. */
  function Runs(text: string, offset: int, start: nat): (r: seq<AnnotatedTextSegment>)
    requires start <= |text|
    ensures 2 * |r| <= |text| - start
    decreases |text| - start
  {
    if start + 2 > |text| then []
    else
      var end := RunEnd(text, start, start + 2);
      [AnnotatedTextSegment((start + offset, end + offset), RunAnnotations(text, start))]
        + Runs(text, offset, end)
  }

  /** `segment_on_han(text, index_offset)`, with its loop. */
  method SegmentOnHan(text: string, indexOffset: int) returns (segments: seq<AnnotatedTextSegment>)
    ensures segments == Runs(text, indexOffset, 0)
  {
    segments := [];
    var currSegmentStart := -1;
    for i := 0 to |text|
      invariant Scanned(text, indexOffset, segments, currSegmentStart, i)
    {
      var isCurrHan := IsHan([text[i]]);
      if currSegmentStart < 0 {
        ScanOpen(text, indexOffset, segments, i);
        currSegmentStart := i - 1;
        continue;
      }
      if IsHan([text[currSegmentStart]]) != isCurrHan {
        var segment := AnnotatedTextSegment(
          (currSegmentStart + indexOffset, i + indexOffset),
          if isCurrHan then None else Some([]));
        ScanClose(text, indexOffset, segments, currSegmentStart, i);
        segments := segments + [segment];
        currSegmentStart := -1;
      } else {
        ScanSkip(text, indexOffset, segments, currSegmentStart, i);
      }
    }
    ScanDone(text, indexOffset, segments, currSegmentStart);
    if currSegmentStart >= 0 {
      segments := segments + [AnnotatedTextSegment(
        (currSegmentStart + indexOffset, |text| + indexOffset),
        if IsHan([text[currSegmentStart]]) then Some([]) else None)];
    }
  }

  /** The loop of `segment_on_han` after `i` characters: `done` emitted,
      and either no run open (`s < 0`; the next run opens one character
      back) or a run open at `s` that no character before `i` has ended. */
  ghost predicate Scanned(text: string, offset: int, done: seq<AnnotatedTextSegment>, s: int, i: nat) {
    && i <= |text|
    && (s < 0 ==> done + Runs(text, offset, if i == 0 then 0 else i - 1) == Runs(text, offset, 0))
    && (s >= 0 ==>
         && s + 2 <= i
         && RunEnd(text, s, s + 2) == RunEnd(text, s, i)
         && done + Runs(text, offset, s) == Runs(text, offset, 0))
  }

  /** With no run open, the character before `i` opens one. */
  lemma ScanOpen(text: string, offset: int, done: seq<AnnotatedTextSegment>, i: nat)
    requires i < |text| && Scanned(text, offset, done, -1, i)
    ensures Scanned(text, offset, done, i - 1, i + 1)
  {
  }

  /** A character of the other kind closes the run at `s` as `(s, i)`;
      the next run opens at `i`. */
  lemma ScanClose(text: string, offset: int, done: seq<AnnotatedTextSegment>, s: nat, i: nat)
    requires i < |text| && Scanned(text, offset, done, s, i)
    requires IsHan([text[i]]) != IsHan([text[s]])
    ensures Scanned(text, offset,
      done + [AnnotatedTextSegment((s + offset, i + offset), if IsHan([text[i]]) then None else Some([]))], -1, i + 1)
  {
    var segment := AnnotatedTextSegment((s + offset, i + offset), RunAnnotations(text, s));
    assert Runs(text, offset, s) == [segment] + Runs(text, offset, i);
    assert (done + [segment]) + Runs(text, offset, i) == done + ([segment] + Runs(text, offset, i));
  }

  /** A character of the run's own kind does not end it. */
  lemma ScanSkip(text: string, offset: int, done: seq<AnnotatedTextSegment>, s: nat, i: nat)
    requires i < |text| && Scanned(text, offset, done, s, i)
    requires IsHan([text[i]]) == IsHan([text[s]])
    ensures Scanned(text, offset, done, s, i + 1)
  {
    assert RunEnd(text, s, i) == RunEnd(text, s, i + 1);
  }

  /** At the end of the text a run still open is emitted up to the end;
      with none open, everything has been emitted. */
  lemma ScanDone(text: string, offset: int, done: seq<AnnotatedTextSegment>, s: int)
    requires Scanned(text, offset, done, s, |text|)
    ensures s < 0 ==> done == Runs(text, offset, 0)
    ensures s >= 0 ==> s + 2 <= |text| && done + [AnnotatedTextSegment((s + offset, |text| + offset),
      if IsHan([text[s]]) then Some([]) else None)] == Runs(text, offset, 0)
  {
    if s >= 0 {
      assert Runs(text, offset, |text|) == [];
      assert Runs(text, offset, s) == [AnnotatedTextSegment((s + offset, |text| + offset), RunAnnotations(text, s))];
    } else {
      assert Runs(text, offset, if |text| == 0 then 0 else |text| - 1) == [];
    }
  }

  /** Nothing comes out exactly when fewer than two characters remain. */
  lemma SegmentOnHanEmptyIff(text: string, offset: int)
    ensures Runs(text, offset, 0) == [] <==> |text| <= 1
  {
  }

  /** Every emitted segment spans at least two characters. */
  lemma {:induction false} RunsAtLeastTwo(text: string, offset: int, start: nat)
    requires start <= |text|
    decreases |text| - start
    ensures forall k :: 0 <= k < |Runs(text, offset, start)| ==>
      Runs(text, offset, start)[k].indices.1 - Runs(text, offset, start)[k].indices.0 >= 2
  {
    if start + 2 <= |text| {
      RunsAtLeastTwo(text, offset, RunEnd(text, start, start + 2));
    }
  }

  /** The segments are contiguous: the first opens at `start + offset`, each
      later one where the one before it ended, and the last one ends at the
      end of the text or one character before it. */
  lemma {:induction false} RunsContiguous(text: string, offset: int, start: nat)
    requires start <= |text|
    decreases |text| - start
    ensures var segs := Runs(text, offset, start);
      && (segs != [] ==> segs[0].indices.0 == start + offset)
      && (forall k :: 0 <= k < |segs| - 1 ==> segs[k + 1].indices.0 == segs[k].indices.1)
      && (segs != [] ==> segs[|segs| - 1].indices.1 in {offset + |text| - 1, offset + |text|})
  {
    if start + 2 <= |text| {
      var end := RunEnd(text, start, start + 2);
      RunsContiguous(text, offset, end);
      var rest := Runs(text, offset, end);
      var segs := Runs(text, offset, start);
      assert segs[1..] == rest;
      if rest == [] {
        assert end + 2 > |text|;
      }
    }
  }

  /** Every segment lies inside `[start + offset, |text| + offset]`. */
  lemma {:induction false} RunsWithin(text: string, offset: int, start: nat)
    requires start <= |text|
    decreases |text| - start
    ensures forall k :: 0 <= k < |Runs(text, offset, start)| ==>
      start + offset <= Runs(text, offset, start)[k].indices.0 < Runs(text, offset, start)[k].indices.1 <= |text| + offset
  {
    if start + 2 <= |text| {
      RunsWithin(text, offset, RunEnd(text, start, start + 2));
    }
  }

  /** The segments come out in order and do not overlap. */
  lemma {:induction false} RunsOrdered(text: string, offset: int, start: nat)
    requires start <= |text|
    decreases |text| - start
    ensures forall i, j :: 0 <= i < j < |Runs(text, offset, start)| ==>
      Runs(text, offset, start)[i].indices.1 <= Runs(text, offset, start)[j].indices.0
  {
    if start + 2 <= |text| {
      var end := RunEnd(text, start, start + 2);
      RunsOrdered(text, offset, end);
      RunsWithin(text, offset, end);
      assert Runs(text, offset, start)[1..] == Runs(text, offset, end);
    }
  }

  /** When the last segment ends one short of the text, the last character
      was dropped, and it differs in Han-ness from the segment's first
      character: the segment is annotatable exactly when it is not Han. */
  lemma {:induction false} RunsDropLast(text: string, offset: int, start: nat)
    requires start <= |text|
    decreases |text| - start
    ensures var segs := Runs(text, offset, start);
      segs != [] && segs[|segs| - 1].indices.1 == offset + |text| - 1 ==>
        segs[|segs| - 1].annotations == (if IsHan([text[|text| - 1]]) then None else Some([]))
  {
    if start + 2 <= |text| {
      var end := RunEnd(text, start, start + 2);
      RunsDropLast(text, offset, end);
      var segs := Runs(text, offset, start);
      assert segs[1..] == Runs(text, offset, end);
    }
  }

  /** The last segment ends one character short of the text exactly when
      that last character differs in Han-ness from the segment's first and
      lies past the segment's second character: the boundary falls on the
      final index, and the character left over is too short to emit. */
  lemma {:induction false} RunsDropLastIff(text: string, offset: int, start: nat)
    requires start <= |text|
    decreases |text| - start
    ensures var segs := Runs(text, offset, start);
      segs != [] ==>
        var s := segs[|segs| - 1].indices.0 - offset;
        && 0 <= s < |text|
        && ((segs[|segs| - 1].indices.1 == offset + |text| - 1)
            <==> (s + 3 <= |text| && IsHan([text[|text| - 1]]) != IsHan([text[s]])))
  {
    if start + 2 <= |text| {
      var end := RunEnd(text, start, start + 2);
      var segs, rest := Runs(text, offset, start), Runs(text, offset, end);
      assert segs == [AnnotatedTextSegment((start + offset, end + offset), RunAnnotations(text, start))] + rest;
      if rest == [] {
        assert end + 2 > |text|;
        if start + 3 <= |text| && IsHan([text[|text| - 1]]) != IsHan([text[start]]) {
          assert end <= |text| - 1;
        }
      } else {
        RunsDropLastIff(text, offset, end);
        assert segs[|segs| - 1] == rest[|rest| - 1];
      }
    }
  }

  /** A run in the sense of `segment_on_han`: at least two characters from
      `s` to `e`; every character from `s + 2` on has the Han-ness of the
      opening one (the one at `s + 1` is never compared); and the character
      at `e`, if any, does not. */
  ghost predicate IsRun(text: string, s: int, e: int) {
    && 0 <= s && s + 2 <= e <= |text|
    && (forall j :: s + 2 <= j < e ==> IsHan([text[j]]) == IsHan([text[s]]))
    && (e < |text| ==> IsHan([text[e]]) != IsHan([text[s]]))
  }

  /** The run that opens at `start` ends where `RunEnd` says. */
  lemma FirstRun(text: string, start: nat)
    requires start + 2 <= |text|
    ensures IsRun(text, start, RunEnd(text, start, start + 2))
  {
  }

  /** Every emitted segment, moved back by the offset, is a run. */
  lemma {:induction false} RunsAreRuns(text: string, offset: int, start: nat)
    requires start <= |text|
    decreases |text| - start
    ensures forall k :: 0 <= k < |Runs(text, offset, start)| ==>
      IsRun(text, Runs(text, offset, start)[k].indices.0 - offset, Runs(text, offset, start)[k].indices.1 - offset)
  {
    if start + 2 <= |text| {
      var end := RunEnd(text, start, start + 2);
      RunsAreRuns(text, offset, end);
      var segs, rest := Runs(text, offset, start), Runs(text, offset, end);
      assert segs == [AnnotatedTextSegment((start + offset, end + offset), RunAnnotations(text, start))] + rest;
      FirstRun(text, start);
      forall k | 0 <= k < |segs|
        ensures IsRun(text, segs[k].indices.0 - offset, segs[k].indices.1 - offset)
      {
        if k == 0 {
          assert segs[k].indices == (start + offset, end + offset);
        } else {
          assert segs[k] == rest[k - 1];
        }
      }
    }
  }

  /** A segment's annotations are `Some([])` exactly when its first
      character is Han and `None` otherwise: no `Annotation` is ever made. */
  lemma {:induction false} RunsAnnotations(text: string, offset: int, start: nat)
    requires start <= |text|
    decreases |text| - start
    ensures forall k :: 0 <= k < |Runs(text, offset, start)| ==>
      var seg := Runs(text, offset, start)[k];
      && start <= seg.indices.0 - offset < |text|
      && seg.annotations == (if IsHan([text[seg.indices.0 - offset]]) then Some([]) else None)
  {
    if start + 2 <= |text| {
      RunsAnnotations(text, offset, RunEnd(text, start, start + 2));
    }
  }

  /** `index_offset` shifts every span and changes nothing else. */
  lemma {:induction false} RunsShift(text: string, offset: int, start: nat)
    requires start <= |text|
    decreases |text| - start
    ensures |Runs(text, offset, start)| == |Runs(text, 0, start)|
    ensures forall k :: 0 <= k < |Runs(text, offset, start)| ==>
      var seg := Runs(text, 0, start)[k];
      Runs(text, offset, start)[k]
        == AnnotatedTextSegment((seg.indices.0 + offset, seg.indices.1 + offset), seg.annotations)
  {
    if start + 2 <= |text| {
      var end := RunEnd(text, start, start + 2);
      RunsShift(text, offset, end);
      var shifted, plain := Runs(text, offset, start), Runs(text, 0, start);
      var shiftedTail, plainTail := Runs(text, offset, end), Runs(text, 0, end);
      assert shifted == [AnnotatedTextSegment((start + offset, end + offset), RunAnnotations(text, start))] + shiftedTail;
      assert plain == [AnnotatedTextSegment((start, end), RunAnnotations(text, start))] + plainTail;
      forall k | 1 <= k < |shifted|
        ensures shifted[k] == shiftedTail[k - 1] && plain[k] == plainTail[k - 1]
      {
      }
    }
  }

  /** Text of two or more characters that are all Han, or all not Han, is
      one segment spanning all of it. */
  lemma SegmentOnHanUniform(text: string, offset: int)
    requires |text| >= 2
    requires forall j :: 0 <= j < |text| ==> IsHan([text[j]]) == IsHan([text[0]])
    ensures Runs(text, offset, 0)
      == [AnnotatedTextSegment((offset, offset + |text|), if IsHan([text[0]]) then Some([]) else None)]
  {
  }

  lemma SegmentOnHanExamples()
    ensures Runs("漢字", 0, 0) == [AnnotatedTextSegment((0, 2), Some([]))]
    ensures Runs("こんにちは", 0, 0) == [AnnotatedTextSegment((0, 5), None)]
    ensures Runs("漢字です", 0, 0)
      == [AnnotatedTextSegment((0, 2), Some([])), AnnotatedTextSegment((2, 4), None)]
    ensures Runs("漢字です", 1, 0)
      == [AnnotatedTextSegment((1, 3), Some([])), AnnotatedTextSegment((3, 5), None)]
    ensures Runs("です漢字", 0, 0)
      == [AnnotatedTextSegment((0, 2), None), AnnotatedTextSegment((2, 4), Some([]))]
    ensures Runs("漢字で", 0, 0) == [AnnotatedTextSegment((0, 2), Some([]))]
    ensures Runs("漢あ漢", 0, 0) == [AnnotatedTextSegment((0, 3), Some([]))]
    ensures Runs("常", 0, 0) == []
  {
    IsHanOneChar('漢'); IsHanOneChar('字'); IsHanOneChar('で'); IsHanOneChar('す');
    IsHanOneChar('こ'); IsHanOneChar('ん'); IsHanOneChar('に'); IsHanOneChar('ち');
    IsHanOneChar('は'); IsHanOneChar('あ');
    SegmentOnHanUniform("漢字", 0);
    SegmentOnHanUniform("こんにちは", 0);
    assert RunEnd("漢字です", 0, 2) == 2;
    assert RunEnd("です漢字", 0, 2) == 2;
    assert RunEnd("漢字で", 0, 2) == 2;
    assert RunEnd("漢あ漢", 0, 2) == 3;
  }
}
