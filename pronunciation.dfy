/** The pronunciation dictionary the Furigana annotator reads: for each
    headword, its readings, each with the per-character reading spans. */
module PronunciationDictionary {
  /** The reading `pronunciation` of the characters `indices` (a half-open
      range relative to the headword). */
  datatype PronunciationDatum = PronunciationDatum(indices: (int, int), pronunciation: string)

  /** One reading of the headword `text`, with its per-character data. */
  datatype CjkPronunciationEntry =
    CjkPronunciationEntry(text: string, pronunciation: string, perChar: seq<PronunciationDatum>)

  /** A pronunciation provider: indexing a missing headword raises
      `KeyError`, which is a key outside the map's domain here. */
  type CjkPronunciationProvider = map<string, seq<CjkPronunciationEntry>>
}
