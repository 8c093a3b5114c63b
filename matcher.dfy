/** `SmartMatcher.match`: re-score a shortlist of the reference names with a
    weighted blend of four similarity scores, damp by length ratio and by a
    substring penalty, keep the first strict maximum and apply a threshold.
    The similarity scores, the shortlist and the power `x ** 0.5` belong to
    rapidfuzz and to floating point; they are passed in as values. */
module Matcher {
  import opened Wrappers
  import opened Seqs
  import opened Text
  import opened Config

  /** The outside functions the matcher calls: the four rapidfuzz scorers,
      `process.extract(query, choices, scorer=token_set_ratio, limit)` and
      `x ** LENGTH_RATIO_POWER`. */
  datatype Metrics = Metrics(
    tokenSetRatio: (string, string) -> real,
    ratio: (string, string) -> real,
    partialRatio: (string, string) -> real,
    tokenSortRatio: (string, string) -> real,
    extract: (string, seq<string>, nat) -> seq<string>,
    power: real -> real)

  ghost predicate IsScore(f: (string, string) -> real) {
    forall a, b :: 0.0 <= f(a, b) <= 100.0
  }

  /** What the model assumes of the outside functions: scores lie in
      [0, 100]; the shortlist holds `min(limit, len(choices))` of the
      choices; the power maps [0, 1] into [0, 1] and fixes 1. */
  ghost predicate ValidMetrics(m: Metrics) {
    && ValidScorers(m)
    && (forall q: string, cs: seq<string>, n: nat :: |m.extract(q, cs, n)| == Min(n, |cs|))
    && (forall q: string, cs: seq<string>, n: nat :: multiset(m.extract(q, cs, n)) <= multiset(cs))
  }

  /** The part of `ValidMetrics` about the scorers and the power. */
  ghost predicate ValidScorers(m: Metrics) {
    && IsScore(m.tokenSetRatio) && IsScore(m.ratio)
    && IsScore(m.partialRatio) && IsScore(m.tokenSortRatio)
    && (forall x :: 0.0 <= x <= 1.0 ==> 0.0 <= m.power(x) <= 1.0)
    && m.power(1.0) == 1.0
  }

  /** Every scorer gives 100 when a string is compared with itself. */
  ghost predicate ScoresSelf(m: Metrics, s: string) {
    && m.tokenSetRatio(s, s) == 100.0 && m.ratio(s, s) == 100.0
    && m.partialRatio(s, s) == 100.0 && m.tokenSortRatio(s, s) == 100.0
  }

  /** `process.extract(..., limit=5)`. */
  const ShortlistLimit: nat := 5

  function WeightedSum(m: Metrics, q: string, c: string): real {
    m.tokenSetRatio(q, c) * TokenSetWeight + m.ratio(q, c) * RatioWeight
      + m.partialRatio(q, c) * PartialWeight + m.tokenSortRatio(q, c) * TokenSortWeight
  }

  /** `min(len(q), len(c)) / max(len(q), len(c))`; the query is never
      empty where it is used, and two empty strings count as equal length. */
  function LenRatio(q: string, c: string): (r: real)
    ensures 0.0 <= r <= 1.0
    ensures |q| == |c| ==> r == 1.0
  {
    var hi := Max(|q|, |c|);
    if hi == 0 then 1.0 else (Min(|q|, |c|) as real) / (hi as real)
  }

  /** The candidate is strictly shorter than the query and occurs in it. */
  predicate Penalised(q: string, c: string) {
    |c| < |q| && IsSubstring(c, q)
  }

  /** The composite score of one candidate. */
  function Composite(m: Metrics, q: string, c: string): real {
    WeightedSum(m, q, c) * m.power(LenRatio(q, c)) * (if Penalised(q, c) then SubstringPenalty else 1.0)
  }

  function CompositeOf(m: Metrics, q: string): string -> real {
    c => Composite(m, q, c)
  }

  lemma ScaleDown(a: real, d: real, f: real)
    requires 0.0 <= a && 0.0 <= d <= 1.0 && 0.0 <= f <= 1.0
    ensures 0.0 <= a * d * f <= a
  {
    assert 0.0 <= a * d <= a;
    assert 0.0 <= (a * d) * f <= a * d;
  }

  /** The composite lies between 0 and the weighted sum, which lies
      between 0 and 100. */
  lemma CompositeBounds(m: Metrics, q: string, c: string)
    requires ValidScorers(m)
    ensures 0.0 <= Composite(m, q, c) <= WeightedSum(m, q, c) <= 100.0
  {
    var w := WeightedSum(m, q, c);
    WeightedSumBounds(m, q, c);
    var d := m.power(LenRatio(q, c));
    var f := if Penalised(q, c) then SubstringPenalty else 1.0;
    assert 0.0 <= d <= 1.0 && 0.0 <= f <= 1.0;
    ScaleDown(w, d, f);
    assert Composite(m, q, c) == w * d * f;
  }

  lemma WeightedSumBounds(m: Metrics, q: string, c: string)
    requires IsScore(m.tokenSetRatio) && IsScore(m.ratio)
    requires IsScore(m.partialRatio) && IsScore(m.tokenSortRatio)
    ensures 0.0 <= WeightedSum(m, q, c) <= 100.0
  {
    assert 0.0 <= m.tokenSetRatio(q, c) <= 100.0 && 0.0 <= m.ratio(q, c) <= 100.0;
    assert 0.0 <= m.partialRatio(q, c) <= 100.0 && 0.0 <= m.tokenSortRatio(q, c) <= 100.0;
    assert TokenSetWeight == 0.35 && RatioWeight == 0.25 && PartialWeight == 0.25 && TokenSortWeight == 0.15;
  }

  /** `(match, score)`: `match` is `None` when nothing reached the
      threshold. */
  datatype MatchResult = MatchResult(found: Option<string>, score: real)

  /** What `SmartMatcher.match` returns. */
  function MatchSpec(m: Metrics, query: string, choices: seq<string>, threshold: int): (r: MatchResult)
    ensures query == [] || choices == [] ==> r == MatchResult(None, 0.0)
    ensures r.found.Some? ==> r.score >= threshold as real && r.score > 0.0
    ensures r.found.None? ==> r.score < threshold as real || r.score == 0.0
  {
    if query == [] || choices == [] then MatchResult(None, 0.0)
    else
      var candidates := m.extract(query, choices, ShortlistLimit);
      var b := Best(candidates, CompositeOf(m, query));
      if b.score >= threshold as real then
        MatchResult(match b.index case None => None case Some(k) => Some(candidates[k]), b.score)
      else MatchResult(None, b.score)
  }

  /** `SmartMatcher.match`, the loop keeping the running best. */
  method Match(m: Metrics, query: string, choices: seq<string>, threshold: int) returns (r: MatchResult)
    ensures r == MatchSpec(m, query, choices, threshold)
  {
    if query == [] || choices == [] {
      return MatchResult(None, 0.0);
    }
    var candidates := m.extract(query, choices, ShortlistLimit);
    var bestMatch: Option<string> := None;
    var bestScore := 0.0;
    ghost var bestIndex: Option<nat> := None;
    var i := 0;
    while i < |candidates|
      invariant 0 <= i <= |candidates|
      invariant Best(candidates[..i], CompositeOf(m, query)) == Choice(bestIndex, bestScore)
      invariant bestIndex.None? ==> bestMatch.None?
      invariant bestIndex.Some? ==> bestIndex.value < i && bestMatch == Some(candidates[bestIndex.value])
    {
      var candidate := candidates[i];
      var composite := Composite(m, query, candidate);
      assert candidates[..i + 1][..i] == candidates[..i];
      if composite > bestScore {
        bestScore, bestMatch := composite, Some(candidate);
        bestIndex := Some(i);
      }
      i := i + 1;
    }
    assert candidates[..i] == candidates;
    if bestScore >= threshold as real {
      r := MatchResult(bestMatch, bestScore);
    } else {
      r := MatchResult(None, bestScore);
    }
  }

  /** A returned match is one of the choices, and it scores the returned
      score; the score is the greatest composite of the shortlist and lies
      in [0, 100]. */
  lemma {:induction false} MatchIsBestChoice(m: Metrics, query: string, choices: seq<string>, threshold: int)
    requires ValidMetrics(m)
    ensures var r := MatchSpec(m, query, choices, threshold);
      && 0.0 <= r.score <= 100.0
      && (r.found.Some? ==> r.found.value in choices && Composite(m, query, r.found.value) == r.score)
      && (query != [] ==> forall c :: c in m.extract(query, choices, ShortlistLimit) ==> Composite(m, query, c) <= r.score)
  {
    var r := MatchSpec(m, query, choices, threshold);
    if query != [] && choices != [] {
      var candidates := m.extract(query, choices, ShortlistLimit);
      var b := Best(candidates, CompositeOf(m, query));
      if b.index.Some? {
        var c := candidates[b.index.value];
        CompositeBounds(m, query, c);
        assert c in multiset(candidates);
        if r.found.Some? {
          assert r.found.value == c;
        }
      }
      forall c | c in candidates
        ensures Composite(m, query, c) <= r.score
      {
        var k :| 0 <= k < |candidates| && candidates[k] == c;
        assert CompositeOf(m, query)(candidates[k]) <= b.score;
      }
    }
  }

  /** If no shortlisted candidate scores above 0 there is no match, even at
      threshold 0. */
  lemma NoPositiveCompositeNoMatch(m: Metrics, query: string, choices: seq<string>, threshold: int)
    requires forall c :: c in m.extract(query, choices, ShortlistLimit) ==> Composite(m, query, c) <= 0.0
    ensures MatchSpec(m, query, choices, threshold) == MatchResult(None, 0.0)
  {
    var candidates := m.extract(query, choices, ShortlistLimit);
    assert forall i :: 0 <= i < |candidates| ==> CompositeOf(m, query)(candidates[i]) <= 0.0 by {
      forall i | 0 <= i < |candidates|
        ensures CompositeOf(m, query)(candidates[i]) <= 0.0
      {
        assert candidates[i] in candidates;
      }
    }
    BestWithoutPositive(candidates, CompositeOf(m, query));
  }

  /** The score does not depend on the threshold, and lowering the
      threshold keeps a match. */
  lemma ThresholdMonotone(m: Metrics, query: string, choices: seq<string>, low: int, high: int)
    requires low <= high
    ensures MatchSpec(m, query, choices, low).score == MatchSpec(m, query, choices, high).score
    ensures MatchSpec(m, query, choices, high).found.Some? ==>
              MatchSpec(m, query, choices, low) == MatchSpec(m, query, choices, high)
  {
  }

  /** A query that is itself the only choice matches itself with score 100
      at every threshold up to 100. */
  lemma IdenticalChoiceScoresHundred(m: Metrics, query: string, threshold: int)
    requires ValidMetrics(m) && ScoresSelf(m, query)
    requires query != [] && threshold <= 100
    ensures MatchSpec(m, query, [query], threshold) == MatchResult(Some(query), 100.0)
  {
    var candidates := m.extract(query, [query], ShortlistLimit);
    assert |candidates| == 1;
    assert candidates[0] in multiset([query]);
    assert candidates == [query];
    assert Composite(m, query, query) == 100.0;
    assert Best(candidates, CompositeOf(m, query)) == Choice(Some(0), 100.0) by {
      assert candidates[..0] == [];
    }
  }
}
