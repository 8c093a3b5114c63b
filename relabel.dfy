/** The label search shared by the playlist converters: the first entry of
    `eng_to_cn` whose token-set ratio between the cleaned label and the
    cleaned English name is strictly greatest, counted from 0, and kept
    only when it reaches the threshold. */
module Relabel {
  import opened Wrappers
  import opened Seqs
  import opened PyDict
  import opened Matcher
  import opened Cleaner
  import opened Mapper

  /** `fuzz.token_set_ratio(cleaned, FileNameCleaner.clean(eng))` for an
      entry with a localised name. The scan skips the other entries; since
      it keeps only scores strictly above a best that starts at 0, giving
      them 0 is the same as skipping them. */
  function LabelScore(m: Metrics, cleaned: string): ((string, string)) -> real {
    (item: (string, string)) => if item.1 != [] then m.tokenSetRatio(cleaned, Clean(item.0)) else 0.0
  }

  /** The label chosen for the item titled `title`, and the best score seen. */
  function LabelSpec(m: Metrics, title: string, mp: Mapping, threshold: int): (r: MatchResult)
    requires mp.engToCn.Valid()
  {
    var cands := Items(mp.engToCn);
    var b := Best(cands, LabelScore(m, Clean(title)));
    if b.index.Some? && b.score >= threshold as real then MatchResult(Some(cands[b.index.value].1), b.score)
    else MatchResult(None, b.score)
  }

  /** The score of the English name `eng` against the cleaned title. */
  function Similarity(m: Metrics, title: string, eng: string): real {
    m.tokenSetRatio(Clean(title), Clean(eng))
  }

  /** A chosen label is the non-empty localised name of the English entry
      at some position `i` of the dict, whose similarity is the returned
      score, reaches the threshold and is positive, while every entry with a
      localised name before position `i` scores strictly less. */
  lemma LabelIsFirstBest(m: Metrics, title: string, mp: Mapping, threshold: int)
    requires mp.engToCn.Valid()
    ensures var r := LabelSpec(m, title, mp, threshold);
      var d := mp.engToCn;
      r.found.Some? ==>
        && r.score >= threshold as real && r.score > 0.0 && r.found.value != []
        && exists i :: 0 <= i < |d.keys| && d.keys[i] in d.values && d.values[d.keys[i]] == r.found.value
             && Similarity(m, title, d.keys[i]) == r.score
             && forall j :: 0 <= j < i && d.values[d.keys[j]] != [] ==> Similarity(m, title, d.keys[j]) < r.score
  {
    var d := mp.engToCn;
    var items := Items(d);
    var score := LabelScore(m, Clean(title));
    var b := Best(items, score);
    if b.index.Some? && b.score >= threshold as real {
      var r := LabelSpec(m, title, mp, threshold);
      var i := b.index.value;
      assert r.score == b.score && r.found.value == items[i].1;
      assert score(items[i]) == b.score > 0.0;
      assert items[i].1 != [];
      assert d.keys[i] in d.values && d.values[d.keys[i]] == r.found.value && Similarity(m, title, d.keys[i]) == r.score;
      forall j | 0 <= j < i && d.values[d.keys[j]] != []
        ensures Similarity(m, title, d.keys[j]) < r.score
      {
        assert score(items[j]) < b.score;
      }
    }
  }

  /** The returned score is at least 0 and no entry with a localised name
      scores more. */
  lemma LabelScoreIsMaximal(m: Metrics, title: string, mp: Mapping, threshold: int)
    requires mp.engToCn.Valid()
    ensures LabelSpec(m, title, mp, threshold).score >= 0.0
    ensures forall eng :: eng in mp.engToCn.values && mp.engToCn.values[eng] != [] ==>
      Similarity(m, title, eng) <= LabelSpec(m, title, mp, threshold).score
  {
    var d := mp.engToCn;
    var items := Items(d);
    var score := LabelScore(m, Clean(title));
    var b := Best(items, score);
    forall eng | eng in d.values && d.values[eng] != []
      ensures Similarity(m, title, eng) <= b.score
    {
      var i :| 0 <= i < |d.keys| && d.keys[i] == eng;
      assert score(items[i]) <= b.score;
    }
  }

  /** The loop over `mapping['eng_to_cn'].items()`. */
  method ScanEntries(m: Metrics, cleaned: string, items: seq<(string, string)>) returns (bestMatch: Option<string>, bestScore: real)
    ensures var b := Best(items, LabelScore(m, cleaned));
      && bestScore == b.score
      && (b.index.None? ==> bestMatch.None?)
      && (b.index.Some? ==> bestMatch == Some(items[b.index.value].1))
  {
    bestMatch, bestScore := None, 0.0;
    ghost var bestIndex: Option<nat> := None;
    for i := 0 to |items|
      invariant Best(items[..i], LabelScore(m, cleaned)) == Choice(bestIndex, bestScore)
      invariant bestIndex.None? ==> bestMatch.None?
      invariant bestIndex.Some? ==> bestIndex.value < i && bestMatch == Some(items[bestIndex.value].1)
    {
      var eng, cn := items[i].0, items[i].1;
      assert items[..i + 1] == items[..i] + [items[i]];
      BestSnoc(items[..i], items[i], LabelScore(m, cleaned));
      if cn != [] {
        var score := m.tokenSetRatio(cleaned, Clean(eng));
        if score > bestScore {
          bestScore, bestMatch := score, Some(cn);
          bestIndex := Some(i);
        }
      }
    }
    assert items[..|items|] == items;
  }

  /** The converters' loop body from cleaning the title to the threshold
      test. */
  method FindBestLabel(m: Metrics, title: string, mp: Mapping, threshold: int) returns (r: MatchResult)
    requires mp.engToCn.Valid()
    ensures r == LabelSpec(m, title, mp, threshold)
  {
    var cleaned := Clean(title);
    var bestMatch, bestScore := ScanEntries(m, cleaned, Items(mp.engToCn));
    if bestMatch.Some? && bestMatch.value != [] && bestScore >= threshold as real {
      r := MatchResult(bestMatch, bestScore);
    } else {
      r := MatchResult(None, bestScore);
    }
  }

  /** What happens to one playlist item: passed over without being counted,
      no table for it (`no_match` / `no_csv`), left as it is (`skipped`), or
      given a new label (`converted`). */
  datatype ItemOutcome = Ignored | NoMatch | Kept | Relabelled(newLabel: string)

  /** One item of a converter's loop once its table is known: no table is
      a no-match; a table that fails to load gives no outcome (the
      exception ends the whole conversion); otherwise the best label is
      taken when it reaches the threshold and the item is kept as it is
      when it does not. */
  function RelabelWith(m: Metrics, threshold: int, store: CsvStore, cache: map<string, Mapping>,
                       title: string, table: Option<string>): (r: (Option<ItemOutcome>, map<string, Mapping>))
    requires CacheValid(cache)
    ensures CacheValid(r.1)
    ensures r.0 != Some(Ignored)
    ensures r.0.Some? && r.0.value.Relabelled? ==> r.0.value.newLabel != []
    ensures table.None? ==> r == (Some(NoMatch), cache)
    ensures r.0.None? ==> r.1 == cache
  {
    match table
    case None => (Some(NoMatch), cache)
    case Some(csv) =>
      var loaded := LoadStep(cache, store, csv);
      match loaded.0
      case Failure(_) => (None, loaded.1)
      case Success(mp) =>
        var chosen := LabelSpec(m, title, mp, threshold);
        LabelIsFirstBest(m, title, mp, threshold);
        if chosen.found.Some? then (Some(Relabelled(chosen.found.value)), loaded.1) else (Some(Kept), loaded.1)
  }

  /** One item of a converter's loop. The query is the item's title and
      path, or `None` for an item the converter passes over; `resolve` maps
      a path to the table that applies, if any. */
  function RelabelStep(m: Metrics, threshold: int, store: CsvStore, resolve: string -> Option<string>,
                       cache: map<string, Mapping>, q: Option<(string, string)>): (r: (Option<ItemOutcome>, map<string, Mapping>))
    requires CacheValid(cache)
    ensures CacheValid(r.1)
    ensures r.0 == Some(Ignored) <==> q.None?
    ensures r.0.Some? && r.0.value.Relabelled? ==> r.0.value.newLabel != []
    ensures q.Some? && resolve(q.value.1).None? ==> r.0 == Some(NoMatch)
  {
    match q
    case None => (Some(Ignored), cache)
    case Some(query) => RelabelWith(m, threshold, store, cache, query.0, resolve(query.1))
  }

  /** The state of a converter's loop: the outcomes so far, whether a table
      failed to load, and the cache. */
  datatype Relabelling = Relabelling(outcomes: seq<ItemOutcome>, aborted: bool, cache: map<string, Mapping>)

  /** The whole loop over the queries. Unless a table failed to load, every
      item has an outcome, in order, `Ignored` exactly for the items passed
      over, and every new label is non-empty. */
  function RelabelAll(m: Metrics, threshold: int, store: CsvStore, resolve: string -> Option<string>,
                      cache: map<string, Mapping>, qs: seq<Option<(string, string)>>): (r: Relabelling)
    requires CacheValid(cache)
    ensures CacheValid(r.cache)
    ensures !r.aborted ==> |r.outcomes| == |qs|
  {
    if qs == [] then Relabelling([], false, cache)
    else
      var done := RelabelAll(m, threshold, store, resolve, cache, qs[..|qs| - 1]);
      if done.aborted then done
      else
        var step := RelabelStep(m, threshold, store, resolve, done.cache, qs[|qs| - 1]);
        match step.0
        case None => Relabelling(done.outcomes, true, step.1)
        case Some(o) => Relabelling(done.outcomes + [o], false, step.1)
  }

  /** Outcome `i` belongs to query `i`: `Ignored` exactly for the items
      passed over, and a new label is never empty. */
  predicate Shaped(qs: seq<Option<(string, string)>>, outs: seq<ItemOutcome>)
    requires |outs| == |qs|
  {
    forall i :: 0 <= i < |qs| ==> (outs[i] == Ignored <==> qs[i].None?) && (outs[i].Relabelled? ==> outs[i].newLabel != [])
  }

  lemma ShapedSnoc(qs: seq<Option<(string, string)>>, outs: seq<ItemOutcome>, o: ItemOutcome)
    requires qs != [] && |outs| == |qs| - 1 && Shaped(qs[..|qs| - 1], outs)
    requires (o == Ignored <==> qs[|qs| - 1].None?) && (o.Relabelled? ==> o.newLabel != [])
    ensures Shaped(qs, outs + [o])
  {
    assert forall i :: 0 <= i < |outs| ==> (outs + [o])[i] == outs[i] && qs[i] == qs[..|qs| - 1][i];
  }

  /** Unless a table failed to load, `Ignored` marks exactly the items
      passed over, and every new label is non-empty. */
  lemma {:induction false} RelabelAllShape(m: Metrics, threshold: int, store: CsvStore, resolve: string -> Option<string>,
                                           cache: map<string, Mapping>, qs: seq<Option<(string, string)>>)
    requires CacheValid(cache)
    ensures var r := RelabelAll(m, threshold, store, resolve, cache, qs);
      && (!r.aborted ==> forall i :: 0 <= i < |qs| ==> (r.outcomes[i] == Ignored <==> qs[i].None?))
      && (!r.aborted ==> forall i :: 0 <= i < |qs| && r.outcomes[i].Relabelled? ==> r.outcomes[i].newLabel != [])
  {
    RelabelAllShaped(m, threshold, store, resolve, cache, qs);
  }

  lemma {:induction false} RelabelAllShaped(m: Metrics, threshold: int, store: CsvStore, resolve: string -> Option<string>,
                                            cache: map<string, Mapping>, qs: seq<Option<(string, string)>>)
    requires CacheValid(cache)
    ensures var r := RelabelAll(m, threshold, store, resolve, cache, qs);
      !r.aborted ==> Shaped(qs, r.outcomes)
  {
    if qs != [] {
      var front := qs[..|qs| - 1];
      RelabelAllShaped(m, threshold, store, resolve, cache, front);
      var done := RelabelAll(m, threshold, store, resolve, cache, front);
      if !done.aborted {
        var step := RelabelStep(m, threshold, store, resolve, done.cache, qs[|qs| - 1]);
        if step.0.Some? {
          ShapedSnoc(qs, done.outcomes, step.0.value);
        }
      }
    }
  }

  /** Every query whose path has no table has a no-match outcome. */
  predicate MissesUnmapped(resolve: string -> Option<string>, qs: seq<Option<(string, string)>>, outs: seq<ItemOutcome>)
    requires |outs| == |qs|
  {
    forall i :: 0 <= i < |qs| && qs[i].Some? && resolve(qs[i].value.1).None? ==> outs[i] == NoMatch
  }

  lemma MissesUnmappedSnoc(resolve: string -> Option<string>, qs: seq<Option<(string, string)>>, outs: seq<ItemOutcome>, o: ItemOutcome)
    requires qs != [] && |outs| == |qs| - 1 && MissesUnmapped(resolve, qs[..|qs| - 1], outs)
    requires qs[|qs| - 1].Some? && resolve(qs[|qs| - 1].value.1).None? ==> o == NoMatch
    ensures MissesUnmapped(resolve, qs, outs + [o])
  {
    assert forall i :: 0 <= i < |outs| ==> (outs + [o])[i] == outs[i] && qs[i] == qs[..|qs| - 1][i];
  }

  /** Unless a table failed to load, an item with a query whose path has
      no table is a no-match. */
  lemma {:induction false} RelabelAllNoTable(m: Metrics, threshold: int, store: CsvStore, resolve: string -> Option<string>,
                                             cache: map<string, Mapping>, qs: seq<Option<(string, string)>>)
    requires CacheValid(cache)
    ensures var r := RelabelAll(m, threshold, store, resolve, cache, qs);
      !r.aborted ==> forall i :: 0 <= i < |qs| && qs[i].Some? && resolve(qs[i].value.1).None? ==> r.outcomes[i] == NoMatch
  {
    if qs != [] {
      var front := qs[..|qs| - 1];
      RelabelAllNoTable(m, threshold, store, resolve, cache, front);
      var done := RelabelAll(m, threshold, store, resolve, cache, front);
      if !done.aborted {
        var step := RelabelStep(m, threshold, store, resolve, done.cache, qs[|qs| - 1]);
        if step.0.Some? {
          MissesUnmappedSnoc(resolve, qs, done.outcomes, step.0.value);
        }
      }
    }
  }

  /** One more query: from the loop over the first `i` queries and the
      outcome of query `i`, the loop over the first `i + 1`; an item whose
      table fails to load decides the loop over all of them. */
  lemma RelabelProgress(m: Metrics, threshold: int, store: CsvStore, resolve: string -> Option<string>,
                        cache0: map<string, Mapping>, qs: seq<Option<(string, string)>>, i: nat,
                        outs: seq<ItemOutcome>, cache: map<string, Mapping>, o: Option<ItemOutcome>, cache': map<string, Mapping>)
    requires CacheValid(cache0) && CacheValid(cache) && i < |qs|
    requires RelabelAll(m, threshold, store, resolve, cache0, qs[..i]) == Relabelling(outs, false, cache)
    requires (o, cache') == RelabelStep(m, threshold, store, resolve, cache, qs[i])
    ensures o.None? ==> RelabelAll(m, threshold, store, resolve, cache0, qs) == Relabelling(outs, true, cache')
    ensures o.Some? ==> RelabelAll(m, threshold, store, resolve, cache0, qs[..i + 1]) == Relabelling(outs + [o.value], false, cache')
  {
    assert qs[..i + 1][..i] == qs[..i];
    if o.None? {
      AbortSticks(m, threshold, store, resolve, cache0, qs, i + 1);
    }
  }

  /** A table that fails to load ends the loop: the items after it change
      nothing. */
  lemma {:induction false} AbortSticks(m: Metrics, threshold: int, store: CsvStore, resolve: string -> Option<string>,
                                       cache: map<string, Mapping>, qs: seq<Option<(string, string)>>, i: nat)
    requires CacheValid(cache) && i <= |qs|
    requires RelabelAll(m, threshold, store, resolve, cache, qs[..i]).aborted
    ensures RelabelAll(m, threshold, store, resolve, cache, qs) == RelabelAll(m, threshold, store, resolve, cache, qs[..i])
  {
    if i == |qs| {
      assert qs[..i] == qs;
    } else {
      var front := qs[..|qs| - 1];
      assert front[..i] == qs[..i];
      AbortSticks(m, threshold, store, resolve, cache, front, i);
    }
  }

  /** The `stats` dict of a converter. */
  datatype ConvertCounts = ConvertCounts(total: nat, converted: nat, skipped: nat, noMatch: nat)

  /** One item's contribution to the counts. */
  function CountItem(c: ConvertCounts, o: ItemOutcome): ConvertCounts {
    match o
    case Ignored => c
    case NoMatch => c.(total := c.total + 1, noMatch := c.noMatch + 1)
    case Kept => c.(total := c.total + 1, skipped := c.skipped + 1)
    case Relabelled(_) => c.(total := c.total + 1, converted := c.converted + 1)
  }

  /** The counts after a loop: every counted item lands in exactly one of
      converted, skipped and no-match, and only ignored items are left out
      of the total. */
  function CountsOf(outs: seq<ItemOutcome>): (r: ConvertCounts)
    ensures r.total == r.converted + r.skipped + r.noMatch
    ensures r.total <= |outs|
    ensures (forall i :: 0 <= i < |outs| ==> outs[i] != Ignored) ==> r.total == |outs|
  {
    if outs == [] then ConvertCounts(0, 0, 0, 0)
    else CountItem(CountsOf(outs[..|outs| - 1]), outs[|outs| - 1])
  }
}
