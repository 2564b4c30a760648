/** The part of Python's `difflib` the Furigana annotator calls:
    `get_close_matches(word, possibilities, n=1)` with its default cutoff
    0.6, and the Ratcliff/Obershelp similarity ratio of `SequenceMatcher`
    beneath it (no junk characters; strings shorter than 200 characters,
    so the "popular element" heuristic never applies). */
module Difflib {
  import opened Wrappers

  // ---------------------------------------------------------------------
  // Matching blocks
  // ---------------------------------------------------------------------

  /** A candidate matching block: `size` characters from `a[i]` and `b[j]`. */
  datatype Match = Match(i: nat, j: nat, size: nat)

  /** `m` lies inside `a[alo..ahi]` and `b[blo..bhi]`, and the characters
      it pairs are equal. */
  predicate IsBlock(a: string, b: string, m: Match, alo: nat, ahi: nat, blo: nat, bhi: nat)
    requires ahi <= |a| && bhi <= |b|
  {
    && alo <= m.i && m.i + m.size <= ahi
    && blo <= m.j && m.j + m.size <= bhi
    && a[m.i..m.i + m.size] == b[m.j..m.j + m.size]
  }

  /** The length of the common block that starts at `a[i]` and `b[j]` and
      stays below `ahi` and `bhi`, extended as far as it goes. */
  function BlockLength(a: string, b: string, i: nat, j: nat, ahi: nat, bhi: nat): (k: nat)
    requires ahi <= |a| && bhi <= |b|
    ensures k > 0 ==> i + k <= ahi && j + k <= bhi
    decreases ahi - i
  {
    if i < ahi && j < bhi && a[i] == b[j] then 1 + BlockLength(a, b, i + 1, j + 1, ahi, bhi) else 0
  }

  /** The characters a positive `BlockLength` pairs are equal, and the
      block cannot be extended by one more pair inside the ranges. */
  lemma {:induction false} BlockLengthMatches(a: string, b: string, i: nat, j: nat, ahi: nat, bhi: nat)
    requires ahi <= |a| && bhi <= |b|
    ensures var k := BlockLength(a, b, i, j, ahi, bhi);
      k > 0 ==> a[i..i + k] == b[j..j + k]
    ensures var k := BlockLength(a, b, i, j, ahi, bhi);
      i + k < ahi && j + k < bhi ==> a[i + k] != b[j + k]
    decreases ahi - i
  {
    if i < ahi && j < bhi && a[i] == b[j] {
      var k := BlockLength(a, b, i + 1, j + 1, ahi, bhi);
      BlockLengthMatches(a, b, i + 1, j + 1, ahi, bhi);
      assert a[i..i + 1 + k] == [a[i]] + a[i + 1..i + 1 + k];
      assert b[j..j + 1 + k] == [b[j]] + b[j + 1..j + 1 + k];
    }
  }

  /** The search of `find_longest_match`, start positions in row-major order
      from `(i, j)`, keeping `best` unless a strictly longer block turns up:
      the longest block, the earliest in `a` among those, then the earliest
      in `b`. */
  function ScanLongest(a: string, b: string, alo: nat, ahi: nat, blo: nat, bhi: nat,
                       i: nat, j: nat, best: Match): (m: Match)
    requires alo <= i <= ahi <= |a| && blo <= j <= bhi <= |b|
    ensures m.size >= best.size
    decreases ahi - i, bhi - j
  {
    if i == ahi then best
    else if j == bhi then ScanLongest(a, b, alo, ahi, blo, bhi, i + 1, blo, best)
    else
      var k := BlockLength(a, b, i, j, ahi, bhi);
      ScanLongest(a, b, alo, ahi, blo, bhi, i, j + 1, if k > best.size then Match(i, j, k) else best)
  }

  /** Every block the scan keeps is a common block of the two ranges. */
  lemma {:induction false} ScanLongestIsBlock(a: string, b: string, alo: nat, ahi: nat, blo: nat, bhi: nat,
                                              i: nat, j: nat, best: Match)
    requires alo <= i <= ahi <= |a| && blo <= j <= bhi <= |b|
    requires IsBlock(a, b, best, alo, ahi, blo, bhi)
    ensures IsBlock(a, b, ScanLongest(a, b, alo, ahi, blo, bhi, i, j, best), alo, ahi, blo, bhi)
    decreases ahi - i, bhi - j
  {
    if i == ahi {
    } else if j == bhi {
      ScanLongestIsBlock(a, b, alo, ahi, blo, bhi, i + 1, blo, best);
    } else {
      var k := BlockLength(a, b, i, j, ahi, bhi);
      BlockLengthMatches(a, b, i, j, ahi, bhi);
      ScanLongestIsBlock(a, b, alo, ahi, blo, bhi, i, j + 1, if k > best.size then Match(i, j, k) else best);
    }
  }

  /** `find_longest_match(alo, ahi, blo, bhi)`; `Match(alo, blo, 0)` when
      the two ranges share no character. */
  function LongestMatch(a: string, b: string, alo: nat, ahi: nat, blo: nat, bhi: nat): (m: Match)
    requires alo <= ahi <= |a| && blo <= bhi <= |b|
    ensures IsBlock(a, b, m, alo, ahi, blo, bhi)
  {
    ScanLongestIsBlock(a, b, alo, ahi, blo, bhi, alo, blo, Match(alo, blo, 0));
    ScanLongest(a, b, alo, ahi, blo, bhi, alo, blo, Match(alo, blo, 0))
  }

  /** One step of the scan: the best block after looking at `(i, j)`. */
  function ScanStep(a: string, b: string, alo: nat, ahi: nat, blo: nat, bhi: nat,
                    i: nat, j: nat, best: Match): (next: Match)
    requires alo <= i < ahi <= |a| && blo <= j < bhi <= |b|
    ensures next.size >= best.size && next.size >= BlockLength(a, b, i, j, ahi, bhi)
    ensures ScanLongest(a, b, alo, ahi, blo, bhi, i, j, best) == ScanLongest(a, b, alo, ahi, blo, bhi, i, j + 1, next)
  {
    var k := BlockLength(a, b, i, j, ahi, bhi);
    if k > best.size then Match(i, j, k) else best
  }

  /** The scan from `(i, j)` ends with a block at least as long as the one
      at `(i, y)`, a start position later in the same row. */
  lemma {:induction false} ScanMaximalInRow(a: string, b: string, alo: nat, ahi: nat, blo: nat, bhi: nat,
                                            i: nat, j: nat, best: Match, y: nat)
    requires alo <= i < ahi <= |a| && blo <= j <= y < bhi <= |b|
    ensures ScanLongest(a, b, alo, ahi, blo, bhi, i, j, best).size >= BlockLength(a, b, i, y, ahi, bhi)
    decreases bhi - j
  {
    var next := ScanStep(a, b, alo, ahi, blo, bhi, i, j, best);
    if j < y {
      ScanMaximalInRow(a, b, alo, ahi, blo, bhi, i, j + 1, next, y);
    }
  }

  /** The scan from `(i, j)` ends with a block at least as long as the one
      at `(x, y)`, a start position it still visits. */
  lemma {:induction false} ScanMaximal(a: string, b: string, alo: nat, ahi: nat, blo: nat, bhi: nat,
                                       i: nat, j: nat, best: Match, x: nat, y: nat)
    requires alo <= i <= x < ahi <= |a| && blo <= j <= bhi <= |b| && blo <= y < bhi
    requires i == x ==> j <= y
    ensures ScanLongest(a, b, alo, ahi, blo, bhi, i, j, best).size >= BlockLength(a, b, x, y, ahi, bhi)
    decreases ahi - i, bhi - j
  {
    if i == x {
      ScanMaximalInRow(a, b, alo, ahi, blo, bhi, i, j, best, y);
    } else if j == bhi {
      ScanRowEnd(a, b, alo, ahi, blo, bhi, i, best);
      ScanMaximal(a, b, alo, ahi, blo, bhi, i + 1, blo, best, x, y);
    } else {
      var next := ScanStep(a, b, alo, ahi, blo, bhi, i, j, best);
      ScanMaximal(a, b, alo, ahi, blo, bhi, i, j + 1, next, x, y);
    }
  }

  /** At the end of a row the scan moves on to the start of the next. */
  lemma ScanRowEnd(a: string, b: string, alo: nat, ahi: nat, blo: nat, bhi: nat, i: nat, best: Match)
    requires alo <= i < ahi <= |a| && blo <= bhi <= |b|
    ensures ScanLongest(a, b, alo, ahi, blo, bhi, i, bhi, best) == ScanLongest(a, b, alo, ahi, blo, bhi, i + 1, blo, best)
  {
  }

  /** `find_longest_match` returns a longest common block of the ranges. */
  lemma LongestMatchMaximal(a: string, b: string, alo: nat, ahi: nat, blo: nat, bhi: nat)
    requires alo <= ahi <= |a| && blo <= bhi <= |b|
    ensures forall x, y :: alo <= x < ahi && blo <= y < bhi ==>
      LongestMatch(a, b, alo, ahi, blo, bhi).size >= BlockLength(a, b, x, y, ahi, bhi)
  {
    forall x, y | alo <= x < ahi && blo <= y < bhi
      ensures LongestMatch(a, b, alo, ahi, blo, bhi).size >= BlockLength(a, b, x, y, ahi, bhi)
    {
      ScanMaximal(a, b, alo, ahi, blo, bhi, alo, blo, Match(alo, blo, 0), x, y);
    }
  }

  /** A block with fully matched ranges on both sides of it: the two
      ranges around it are equal. */
  lemma JoinMatched(a: string, b: string, alo: nat, ahi: nat, blo: nat, bhi: nat,
                    m: Match, left: nat, right: nat)
    requires ahi <= |a| && bhi <= |b| && IsBlock(a, b, m, alo, ahi, blo, bhi)
    requires left <= m.i - alo && left <= m.j - blo
    requires right <= ahi - (m.i + m.size) && right <= bhi - (m.j + m.size)
    requires left == m.i - alo == m.j - blo ==> a[alo..m.i] == b[blo..m.j]
    requires right == ahi - (m.i + m.size) == bhi - (m.j + m.size) ==>
               a[m.i + m.size..ahi] == b[m.j + m.size..bhi]
    requires m.size + left + right == ahi - alo == bhi - blo
    ensures a[alo..ahi] == b[blo..bhi]
  {
    var mi, mj := m.i + m.size, m.j + m.size;
    assert a[alo..ahi] == a[alo..m.i] + a[m.i..mi] + a[mi..ahi];
    assert b[blo..bhi] == b[blo..m.j] + b[m.j..mj] + b[mj..bhi];
  }

  /** The total size of `get_matching_blocks()` over `a[alo..ahi]` and
      `b[blo..bhi]`: the longest block, then the same on the parts to its
      left and to its right. At most the length of either range, and the
      full length of both only when the two ranges are equal. */
  function Matched(a: string, b: string, alo: nat, ahi: nat, blo: nat, bhi: nat): (n: nat)
    requires alo <= ahi <= |a| && blo <= bhi <= |b|
    ensures n <= ahi - alo && n <= bhi - blo
    ensures n == ahi - alo == bhi - blo ==> a[alo..ahi] == b[blo..bhi]
    decreases ahi - alo
  {
    var m := LongestMatch(a, b, alo, ahi, blo, bhi);
    if m.size == 0 then 0
    else
      var mi, mj := m.i + m.size, m.j + m.size;
      var left := if alo < m.i && blo < m.j then Matched(a, b, alo, m.i, blo, m.j) else 0;
      var right := if mi < ahi && mj < bhi then Matched(a, b, mi, ahi, mj, bhi) else 0;
      var n := m.size + left + right;
      assert n == ahi - alo == bhi - blo ==> a[alo..ahi] == b[blo..bhi] by {
        if n == ahi - alo == bhi - blo {
          JoinMatched(a, b, alo, ahi, blo, bhi, m, left, right);
        }
      }
      n
  }

  /** `SequenceMatcher(None, a, b).ratio()`: 2M/T for M matched characters
      out of T in all, and 1 when both strings are empty. The float of the
      source is taken as the exact quotient. */
  function Ratio(a: string, b: string): real {
    var total := |a| + |b|;
    if total == 0 then 1.0 else Quotient(2 * Matched(a, b, 0, |a|, 0, |b|), total)
  }

  function Quotient(num: nat, den: nat): real
    requires den > 0
  {
    num as real / den as real
  }

  lemma QuotientAtMostOne(num: nat, den: nat)
    requires 0 < den && num <= den
    ensures 0.0 <= Quotient(num, den) <= 1.0
    ensures Quotient(num, den) == 1.0 <==> num == den
  {
    DivisionBounds(num as real, den as real);
  }

  lemma DivisionBounds(n: real, d: real)
    requires 0.0 <= n <= d && 0.0 < d
    ensures 0.0 <= n / d <= 1.0
    ensures n / d == 1.0 <==> n == d
  {
  }

  lemma RatioAtMostOne(a: string, b: string)
    ensures 0.0 <= Ratio(a, b) <= 1.0
  {
    var total := |a| + |b|;
    if total > 0 {
      QuotientAtMostOne(2 * Matched(a, b, 0, |a|, 0, |b|), total);
    }
  }

  lemma {:induction false} SelfBlockLength(a: string, i: nat, n: nat)
    requires i <= n <= |a|
    ensures BlockLength(a, a, i, i, n, n) == n - i
    decreases n - i
  {
    if i < n {
      SelfBlockLength(a, i + 1, n);
    }
  }

  /** A string matched against itself is matched in full. */
  lemma SelfMatched(a: string)
    ensures Matched(a, a, 0, |a|, 0, |a|) == |a|
  {
    if |a| > 0 {
      SelfBlockLength(a, 0, |a|);
      ScanMaximal(a, a, 0, |a|, 0, |a|, 0, 0, Match(0, 0, 0), 0, 0);
      var m := LongestMatch(a, a, 0, |a|, 0, |a|);
      assert m.size == |a| && m.i == 0 && m.j == 0;
    }
  }

  lemma SelfRatio(a: string)
    ensures Ratio(a, a) == 1.0
  {
    SelfMatched(a);
    if |a| > 0 {
      QuotientAtMostOne(2 * |a|, |a| + |a|);
    }
  }

  /** A ratio of 1 is reached only by a string and itself. */
  lemma RatioOneOnlyEqual(a: string, b: string)
    ensures Ratio(a, b) == 1.0 <==> a == b
  {
    var total := |a| + |b|;
    if Ratio(a, b) == 1.0 && total > 0 {
      var n := Matched(a, b, 0, |a|, 0, |b|);
      QuotientAtMostOne(2 * n, total);
      assert a == a[0..|a|] && b == b[0..|b|];
    }
    if a == b {
      SelfRatio(a);
    }
  }

  // ---------------------------------------------------------------------
  // get_close_matches
  // ---------------------------------------------------------------------

  /** Python's `<` on strings: lexicographic by code point. */
  predicate StrLess(x: string, y: string) {
    if x == [] then y != []
    else y != [] && (x[0] < y[0] || (x[0] == y[0] && StrLess(x[1..], y[1..])))
  }

  lemma {:induction false} StrLessIrreflexive(x: string)
    ensures !StrLess(x, x)
  {
    if x != [] {
      StrLessIrreflexive(x[1..]);
    }
  }

  lemma {:induction false} StrLessTransitive(x: string, y: string, z: string)
    requires StrLess(x, y) && StrLess(y, z)
    ensures StrLess(x, z)
  {
    if x != [] && x[0] == y[0] && y[0] == z[0] {
      StrLessTransitive(x[1..], y[1..], z[1..]);
    }
  }

  lemma {:induction false} StrLessTotal(x: string, y: string)
    ensures x == y || StrLess(x, y) || StrLess(y, x)
  {
    if x != [] && y != [] && x[0] == y[0] {
      StrLessTotal(x[1..], y[1..]);
      if x[1..] == y[1..] {
        assert x == [x[0]] + x[1..] && y == [y[0]] + y[1..];
      }
    }
  }

  /** Python's `>` on `(score, string)` pairs: by score, then by string. */
  predicate Above(p: (real, string), q: (real, string)) {
    p.0 > q.0 || (p.0 == q.0 && StrLess(q.1, p.1))
  }

  lemma AboveTransitive(p: (real, string), q: (real, string), r: (real, string))
    requires Above(p, q) && Above(q, r)
    ensures Above(p, r)
  {
    if p.0 == q.0 && q.0 == r.0 {
      StrLessTransitive(r.1, q.1, p.1);
    }
  }

  lemma AboveAsymmetric(p: (real, string), q: (real, string))
    requires Above(p, q)
    ensures !Above(q, p)
  {
    if p.0 == q.0 && StrLess(p.1, q.1) {
      StrLessTransitive(q.1, p.1, q.1);
      StrLessIrreflexive(q.1);
    }
  }

  /** The `(ratio, x)` pairs that `get_close_matches` collects: those whose
      ratio reaches the cutoff, in the order of `possibilities`. */
  function Scored(word: string, possibilities: seq<string>, cutoff: real): seq<(real, string)> {
    if possibilities == [] then []
    else
      var x := possibilities[0];
      var rest := Scored(word, possibilities[1..], cutoff);
      if Ratio(x, word) >= cutoff then [(Ratio(x, word), x)] + rest else rest
  }

  /** The collected pairs are exactly the possibilities that reach the
      cutoff, each with its ratio. */
  lemma {:induction false} ScoredMembers(word: string, possibilities: seq<string>, cutoff: real)
    ensures forall p :: p in Scored(word, possibilities, cutoff) <==>
      p.1 in possibilities && p.0 == Ratio(p.1, word) && p.0 >= cutoff
  {
    if possibilities != [] {
      ScoredMembers(word, possibilities[1..], cutoff);
      assert possibilities == [possibilities[0]] + possibilities[1..];
    }
  }

  /** `max` over the collected pairs: the first of the greatest. */
  function Greatest(pairs: seq<(real, string)>): (g: (real, string))
    requires pairs != []
    ensures g in pairs
    ensures forall p :: p in pairs ==> !Above(p, g)
  {
    if |pairs| == 1 then StrLessIrreflexive(pairs[0].1); pairs[0]
    else
      var g0 := Greatest(pairs[..|pairs| - 1]);
      var last := pairs[|pairs| - 1];
      assert pairs == pairs[..|pairs| - 1] + [last];
      if Above(last, g0) then
        assert forall p :: p in pairs[..|pairs| - 1] ==> !Above(p, last) by {
          forall p | p in pairs[..|pairs| - 1] ensures !Above(p, last) {
            if Above(p, last) {
              AboveTransitive(p, last, g0);
            }
          }
        }
        AboveAsymmetric(last, g0);
        StrLessIrreflexive(last.1);
        last
      else g0
  }

  /** The default cutoff of `get_close_matches`. */
  const Cutoff: real := 0.6

  /** `get_close_matches(word, possibilities, n=1)`: the possibility ranked
      highest by (ratio against `word`, the string itself) among those whose
      ratio reaches 0.6, or nothing when none does. */
  function GetCloseMatch(word: string, possibilities: seq<string>): Option<string> {
    var scored := Scored(word, possibilities, Cutoff);
    if scored == [] then None else Some(Greatest(scored).1)
  }

  /** Whatever is returned is one of the possibilities. */
  lemma GetCloseMatchFromPossibilities(word: string, possibilities: seq<string>)
    ensures GetCloseMatch(word, possibilities).Some? ==> GetCloseMatch(word, possibilities).value in possibilities
  {
    ScoredMembers(word, possibilities, Cutoff);
  }

  /** Nothing is returned exactly when no possibility reaches the cutoff;
      otherwise the one returned reaches it and no possibility that reaches
      it ranks above it. */
  lemma GetCloseMatchBest(word: string, possibilities: seq<string>)
    ensures var r := GetCloseMatch(word, possibilities);
      && (r.None? <==> forall x :: x in possibilities ==> Ratio(x, word) < Cutoff)
      && (r.Some? ==>
            && r.value in possibilities
            && Ratio(r.value, word) >= Cutoff
            && forall x :: x in possibilities && Ratio(x, word) >= Cutoff ==>
                 !Above((Ratio(x, word), x), (Ratio(r.value, word), r.value)))
  {
    var scored := Scored(word, possibilities, Cutoff);
    ScoredMembers(word, possibilities, Cutoff);
    if scored == [] {
      assert forall x :: x in possibilities ==> (Ratio(x, word), x) !in scored;
    } else {
      var g := Greatest(scored);
      forall x | x in possibilities && Ratio(x, word) >= Cutoff
        ensures !Above((Ratio(x, word), x), (Ratio(g.1, word), g.1))
      {
        assert (Ratio(x, word), x) in scored;
      }
    }
  }

  /** A possibility equal to `word` is always the one returned. */
  lemma ExactMatchChosen(word: string, possibilities: seq<string>)
    requires word in possibilities
    ensures GetCloseMatch(word, possibilities) == Some(word)
  {
    SelfRatio(word);
    GetCloseMatchBest(word, possibilities);
    var r := GetCloseMatch(word, possibilities);
    RatioAtMostOne(r.value, word);
    assert !Above((Ratio(word, word), word), (Ratio(r.value, word), r.value));
    RatioOneOnlyEqual(r.value, word);
  }
}
