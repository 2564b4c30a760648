/** The transformation step of the dictionary update script: each JmdictFurigana
    entry's ruby parts become per-character spans located in the entry text
    with a moving `str.find` cursor, and the entries that carry at least one
    span are grouped by their text. Downloading, unpacking and the JSON files
    are not modelled: the entries come in already parsed. */
module UpdateDictionaries {
  import opened Wrappers
  import opened PronunciationDictionary

  /** One furigana part: the characters `ruby`, and the reading `rt`
      when the part has one. */
  datatype RawFurigana = RawFurigana(ruby: string, rt: Option<string>)

  /** One entry of the downloaded file. */
  datatype RawEntry = RawEntry(text: string, reading: string, furigana: seq<RawFurigana>)

  /** One entry of the written file, stored under its text. */
  datatype TransformedEntry = TransformedEntry(pronunciation: string, perChar: seq<PronunciationDatum>)

  // ---------------------------------------------------------------------
  // str.find
  // ---------------------------------------------------------------------

  /** `sub` occurs in `s` at index `i`. */
  predicate OccursAt(s: string, sub: string, i: int) {
    0 <= i && i + |sub| <= |s| && s[i..i + |sub|] == sub
  }

  /** Where `find` starts looking: a negative start counts from the end,
      and one still negative is taken as 0. */
  function SearchStart(s: string, start: int): nat {
    if start >= 0 then start else if start + |s| >= 0 then start + |s| else 0
  }

  /** The first occurrence at index `i` or later. */
  function FindFrom(s: string, sub: string, i: nat): int
    decreases |s| - i
  {
    if i + |sub| > |s| then -1
    else if s[i..i + |sub|] == sub then i
    else FindFrom(s, sub, i + 1)
  }

  /** Python's `s.find(sub, start)`. */
  function Find(s: string, sub: string, start: int): int {
    var i := SearchStart(s, start);
    if i > |s| then -1 else FindFrom(s, sub, i)
  }

  lemma {:induction false} FindFromSpec(s: string, sub: string, i: nat)
    ensures var r := FindFrom(s, sub, i);
      && (r == -1 <==> forall j :: i <= j ==> !OccursAt(s, sub, j))
      && (r != -1 ==> i <= r && OccursAt(s, sub, r) && forall j :: i <= j < r ==> !OccursAt(s, sub, j))
    decreases |s| - i
  {
    if i + |sub| > |s| {
    } else if s[i..i + |sub|] == sub {
      assert OccursAt(s, sub, i);
    } else {
      FindFromSpec(s, sub, i + 1);
    }
  }

  /** `find` returns the first occurrence at or after the search start,
      and -1 exactly when there is none. The index found is never below
      the `start` argument. */
  lemma FindSpec(s: string, sub: string, start: int)
    ensures var r := Find(s, sub, start);
      && (r == -1 <==> forall j :: SearchStart(s, start) <= j ==> !OccursAt(s, sub, j))
      && (r != -1 ==>
            && start <= SearchStart(s, start) <= r
            && OccursAt(s, sub, r)
            && forall j :: SearchStart(s, start) <= j < r ==> !OccursAt(s, sub, j))
  {
    FindFromSpec(s, sub, SearchStart(s, start));
  }

  // ---------------------------------------------------------------------
  // Per-character spans
  // ---------------------------------------------------------------------

  /** A part with a missing or empty `rt` is skipped. */
  predicate HasReading(part: RawFurigana) {
    part.rt.Some? && part.rt.value != ""
  }

  /** The parts that produce a span. */
  function Bearing(parts: seq<RawFurigana>): (r: seq<RawFurigana>)
    ensures |r| <= |parts|
  {
    if parts == [] then []
    else (if HasReading(parts[0]) then [parts[0]] else []) + Bearing(parts[1..])
  }

  /** The parts kept are exactly those with a reading. */
  lemma {:induction false} BearingMembers(parts: seq<RawFurigana>)
    ensures forall p :: p in Bearing(parts) <==> p in parts && HasReading(p)
  {
    if parts != [] {
      BearingMembers(parts[1..]);
      assert parts == [parts[0]] + parts[1..];
    }
  }

  /** The spans of `parts` in `text`, the cursor standing at `rubyEnd`. */
  function PerCharSpec(text: string, parts: seq<RawFurigana>, rubyEnd: int): seq<PronunciationDatum> {
    if parts == [] then []
    else if !HasReading(parts[0]) then PerCharSpec(text, parts[1..], rubyEnd)
    else
      var rubyStart := Find(text, parts[0].ruby, rubyEnd);
      var next := rubyStart + |parts[0].ruby|;
      [PronunciationDatum((rubyStart, next), parts[0].rt.value)] + PerCharSpec(text, parts[1..], next)
  }

  /** A part without a reading neither yields a span nor moves the cursor. */
  lemma {:induction false} PerCharSkipsUnread(text: string, parts: seq<RawFurigana>, rubyEnd: int)
    ensures PerCharSpec(text, parts, rubyEnd) == PerCharSpec(text, Bearing(parts), rubyEnd)
  {
    if parts == [] {
    } else if HasReading(parts[0]) {
      var next := Find(text, parts[0].ruby, rubyEnd) + |parts[0].ruby|;
      PerCharSkipsUnread(text, parts[1..], next);
      var bearing := Bearing(parts);
      assert bearing == [parts[0]] + Bearing(parts[1..]);
      assert bearing[0] == parts[0] && bearing[1..] == Bearing(parts[1..]);
    } else {
      PerCharSkipsUnread(text, parts[1..], rubyEnd);
      assert Bearing(parts) == Bearing(parts[1..]);
    }
  }

  /** Where the search for span `k` starts: the end of span `k - 1`, or
      the initial cursor. */
  function CursorBefore(spans: seq<PronunciationDatum>, k: nat, rubyEnd: int): int
    requires k <= |spans|
  {
    if k == 0 then rubyEnd else spans[k - 1].indices.1
  }

  /** On parts that all carry a reading: one span per part, carrying the
      part's reading, as long as its ruby, found from the end of the
      previous span. */
  lemma {:induction false} PerCharPointwise(text: string, parts: seq<RawFurigana>, rubyEnd: int)
    requires forall k :: 0 <= k < |parts| ==> HasReading(parts[k])
    ensures var spans := PerCharSpec(text, parts, rubyEnd);
      && |spans| == |parts|
      && forall k :: 0 <= k < |parts| ==>
        && Some(spans[k].pronunciation) == parts[k].rt
        && spans[k].indices.0 == Find(text, parts[k].ruby, CursorBefore(spans, k, rubyEnd))
        && spans[k].indices.1 == spans[k].indices.0 + |parts[k].ruby|
  {
    if parts != [] {
      var next := Find(text, parts[0].ruby, rubyEnd) + |parts[0].ruby|;
      PerCharPointwise(text, parts[1..], next);
      var spans := PerCharSpec(text, parts, rubyEnd);
      var rest := PerCharSpec(text, parts[1..], next);
      assert spans[1..] == rest;
      forall k | 1 <= k < |spans|
        ensures CursorBefore(spans, k, rubyEnd) == CursorBefore(rest, k - 1, next)
      {
      }
    }
  }

  /** Every span is as long as its ruby. A ruby found in the text lies
      there exactly, no earlier than where the previous span ended; one not
      found gives the span (-1, |ruby| - 1). */
  lemma PerCharSpans(text: string, parts: seq<RawFurigana>, rubyEnd: int)
    requires forall k :: 0 <= k < |parts| ==> HasReading(parts[k])
    ensures var spans := PerCharSpec(text, parts, rubyEnd);
      && |spans| == |parts|
      && forall k :: 0 <= k < |spans| ==>
        && spans[k].indices.1 - spans[k].indices.0 == |parts[k].ruby|
        && (spans[k].indices.0 == -1 ==> spans[k].indices.1 == |parts[k].ruby| - 1)
        && (spans[k].indices.0 != -1 ==>
              && CursorBefore(spans, k, rubyEnd) <= spans[k].indices.0
              && 0 <= spans[k].indices.0 <= spans[k].indices.1 <= |text|
              && text[spans[k].indices.0..spans[k].indices.1] == parts[k].ruby)
  {
    var spans := PerCharSpec(text, parts, rubyEnd);
    PerCharPointwise(text, parts, rubyEnd);
    forall k | 0 <= k < |spans|
      ensures spans[k].indices.0 != -1 ==>
        && CursorBefore(spans, k, rubyEnd) <= spans[k].indices.0
        && 0 <= spans[k].indices.0 <= spans[k].indices.1 <= |text|
        && text[spans[k].indices.0..spans[k].indices.1] == parts[k].ruby
    {
      FindSpec(text, parts[k].ruby, CursorBefore(spans, k, rubyEnd));
    }
  }

  /** No span at all exactly when no part carries a reading. */
  lemma {:induction false} PerCharEmptyIff(text: string, parts: seq<RawFurigana>, rubyEnd: int)
    ensures PerCharSpec(text, parts, rubyEnd) == [] <==> forall p :: p in parts ==> !HasReading(p)
  {
    if parts != [] {
      if HasReading(parts[0]) {
      } else {
        PerCharEmptyIff(text, parts[1..], rubyEnd);
        assert forall p :: p in parts <==> p == parts[0] || p in parts[1..];
      }
    }
  }

  /** The inner loop of the transform, over one entry's parts. */
  method PerChar(text: string, furigana: seq<RawFurigana>) returns (perChar: seq<PronunciationDatum>)
    ensures perChar == PerCharSpec(text, furigana, 0)
  {
    perChar := [];
    var rubyStart := 0;
    var rubyEnd := 0;
    for i := 0 to |furigana|
      invariant perChar + PerCharSpec(text, furigana[i..], rubyEnd) == PerCharSpec(text, furigana, 0)
    {
      var fg := furigana[i];
      assert furigana[i..][0] == fg && furigana[i..][1..] == furigana[i + 1..];
      if !HasReading(fg) {
        continue;
      }
      rubyStart := Find(text, fg.ruby, rubyEnd);
      rubyEnd := rubyStart + |fg.ruby|;
      perChar := perChar + [PronunciationDatum((rubyStart, rubyEnd), fg.rt.value)];
    }
    assert furigana[|furigana|..] == [];
    assert perChar + [] == perChar;
  }

  // ---------------------------------------------------------------------
  // Grouping by text
  // ---------------------------------------------------------------------

  /** The record an entry contributes, when it has a span. */
  function Transformed(entry: RawEntry): Option<TransformedEntry> {
    var perChar := PerCharSpec(entry.text, entry.furigana, 0);
    if perChar == [] then None else Some(TransformedEntry(entry.reading, perChar))
  }

  /** The grouped dictionary after the first `|entries|` entries: the
      record of each kept entry is appended under its text. */
  function Grouped(entries: seq<RawEntry>): map<string, seq<TransformedEntry>> {
    if entries == [] then map[]
    else
      var before := Grouped(entries[..|entries| - 1]);
      var entry := entries[|entries| - 1];
      match Transformed(entry)
      case None => before
      case Some(record) =>
        before[entry.text := (if entry.text in before then before[entry.text] else []) + [record]]
  }

  /** The records of the entries with text `text`, in input order. */
  function Kept(entries: seq<RawEntry>, text: string): seq<TransformedEntry> {
    if entries == [] then []
    else
      (if entries[0].text == text && Transformed(entries[0]).Some? then [Transformed(entries[0]).value] else [])
      + Kept(entries[1..], text)
  }

  lemma {:induction false} KeptAppend(entries: seq<RawEntry>, entry: RawEntry, text: string)
    ensures Kept(entries + [entry], text)
      == Kept(entries, text) + (if entry.text == text && Transformed(entry).Some? then [Transformed(entry).value] else [])
  {
    if entries == [] {
      assert entries + [entry] == [entry];
    } else {
      assert (entries + [entry])[1..] == entries[1..] + [entry];
      KeptAppend(entries[1..], entry, text);
    }
  }

  /** A text is a key exactly when one of its entries has a span, and its
      list holds the records of those entries in input order. */
  lemma {:induction false} GroupedByText(entries: seq<RawEntry>, text: string)
    ensures text in Grouped(entries) <==> Kept(entries, text) != []
    ensures text in Grouped(entries) ==> Grouped(entries)[text] == Kept(entries, text)
  {
    if entries != [] {
      var init, entry := entries[..|entries| - 1], entries[|entries| - 1];
      GroupedByText(init, text);
      assert entries == init + [entry];
      KeptAppend(init, entry, text);
    }
  }

  /** The transformation loop. */
  method Transform(rawFuriganaData: seq<RawEntry>) returns (transformed: map<string, seq<TransformedEntry>>)
    ensures transformed == Grouped(rawFuriganaData)
  {
    transformed := map[];
    for i := 0 to |rawFuriganaData|
      invariant transformed == Grouped(rawFuriganaData[..i])
    {
      var entry := rawFuriganaData[i];
      assert rawFuriganaData[..i + 1][..i] == rawFuriganaData[..i];
      var perChar := PerChar(entry.text, entry.furigana);
      if perChar == [] {
        continue;
      }
      var previous := if entry.text in transformed then transformed[entry.text] else [];
      transformed := transformed[entry.text := previous + [TransformedEntry(entry.reading, perChar)]];
    }
    assert rawFuriganaData[..|rawFuriganaData|] == rawFuriganaData;
  }

  /** An entry of the downloaded file: 可愛い, whose last part has no
      reading. */
  lemma TransformExample()
    ensures PerCharSpec("可愛い", [RawFurigana("可", Some("か")), RawFurigana("愛", Some("わい")), RawFurigana("い", None)], 0)
      == [PronunciationDatum((0, 1), "か"), PronunciationDatum((1, 2), "わい")]
  {
    assert Find("可愛い", "可", 0) == 0 by {
      assert "可愛い"[0..1] == "可";
    }
    assert Find("可愛い", "愛", 1) == 1 by {
      assert "可愛い"[1..2] == "愛";
    }
  }

  /** A ruby that is not in the text gives (-1, |ruby| - 1). That end is
      the next cursor: here 0, so the search for "b" starts at index 0 and
      finds it at 1. */
  lemma MissingRubyExample()
    ensures PerCharSpec("ab", [RawFurigana("x", Some("え")), RawFurigana("b", Some("び"))], 0)
      == [PronunciationDatum((-1, 0), "え"), PronunciationDatum((1, 2), "び")]
  {
    assert Find("ab", "x", 0) == -1 by {
      assert "ab"[0..1] == "a" && "ab"[1..2] == "b";
    }
    assert Find("ab", "b", 0) == 1 by {
      assert "ab"[0..1] == "a" && "ab"[1..2] == "b";
    }
  }

  /** A cursor can become negative: a long missing ruby moves it past the
      end, an empty ruby searched from there is not found and leaves -1,
      and `find` counts a negative start from the back of the text, so the
      last "b" of "bab" is found instead of the first. */
  lemma NegativeCursorExample()
    ensures PerCharSpec("bab", [RawFurigana("xyzwv", Some("a")), RawFurigana("", Some("b")),
                                RawFurigana("b", Some("c"))], 0)
      == [PronunciationDatum((-1, 4), "a"), PronunciationDatum((-1, -1), "b"), PronunciationDatum((2, 3), "c")]
  {
    assert Find("bab", "xyzwv", 0) == -1;
    assert Find("bab", "", 4) == -1;
    assert Find("bab", "b", -1) == 2 by {
      assert "bab"[2..3] == "b";
    }
  }
}
