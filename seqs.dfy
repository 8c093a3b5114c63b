/** Generic sequence vocabulary: filtering, first match, counting and
    first-occurrence deduplication (the key order of a Python dict). */
module Seqs {
  import opened Wrappers

  /** The elements of `s` that satisfy `p`, in order (a list comprehension
      with an `if`). */
  function Filter<T>(s: seq<T>, p: T -> bool): (r: seq<T>)
    ensures |r| <= |s|
    ensures forall k :: 0 <= k < |r| ==> p(r[k])
    ensures forall k :: 0 <= k < |r| ==> r[k] in s
    ensures forall k :: 0 <= k < |s| && p(s[k]) ==> s[k] in r
  {
    if s == [] then []
    else Filter(s[..|s| - 1], p) + (if p(s[|s| - 1]) then [s[|s| - 1]] else [])
  }

  /** Index of the first element satisfying `p` (a `for ... break` scan). */
  function FirstIndex<T>(s: seq<T>, p: T -> bool): (r: Option<nat>)
    ensures r.Some? ==> r.value < |s| && p(s[r.value])
    ensures r.Some? ==> forall j :: 0 <= j < r.value ==> !p(s[j])
    ensures r.None? <==> forall j :: 0 <= j < |s| ==> !p(s[j])
  {
    if s == [] then None
    else if p(s[0]) then Some(0)
    else match FirstIndex(s[1..], p)
      case None => None
      case Some(k) => Some(k + 1)
  }

  /** An index satisfying `p` with none before it is what `FirstIndex` finds. */
  lemma FirstIndexIsOnlyCandidate<T>(s: seq<T>, p: T -> bool, i: nat)
    requires i < |s| && p(s[i])
    requires forall j :: 0 <= j < i ==> !p(s[j])
    ensures FirstIndex(s, p) == Some(i)
  {
  }

  predicate NoDuplicates<T(==)>(s: seq<T>) {
    forall i, j :: 0 <= i < j < |s| ==> s[i] != s[j]
  }

  /** `s` without repetitions, each element where it first occurs. */
  function Distinct<T(==)>(s: seq<T>): (r: seq<T>)
    ensures forall k :: 0 <= k < |r| ==> r[k] in s
    ensures forall k :: 0 <= k < |s| ==> s[k] in r
    ensures NoDuplicates(r)
  {
    if s == [] then []
    else
      var d := Distinct(s[..|s| - 1]);
      if s[|s| - 1] in d then d else d + [s[|s| - 1]]
  }

  lemma DistinctSnoc<T>(s: seq<T>, x: T)
    ensures Distinct(s + [x]) == if x in Distinct(s) then Distinct(s) else Distinct(s) + [x]
  {
    assert (s + [x])[..|s|] == s;
  }

  /** Order of `Distinct` is order of first occurrence: if `a` comes before
      `b` in `Distinct(s)`, then `a` already occurs in `s` before any
      occurrence of `b`. */
  lemma {:induction false} DistinctKeepsFirstOccurrenceOrder<T>(s: seq<T>, a: nat, b: nat, j: nat)
    requires a < b < |Distinct(s)|
    requires j < |s| && s[j] == Distinct(s)[b]
    ensures Distinct(s)[a] in s[..j]
  {
    var s' := s[..|s| - 1];
    var d' := Distinct(s');
    var y := s[|s| - 1];
    if j < |s'| {
      assert s'[j] == s[j];
      if b < |d'| {
        assert Distinct(s)[a] == d'[a] && Distinct(s)[b] == d'[b];
        DistinctKeepsFirstOccurrenceOrder(s', a, b, j);
        assert s'[..j] == s[..j];
      }
    } else {
      assert s[j] == y;
      if y in s' {
        var j' :| 0 <= j' < |s'| && s'[j'] == y;
        assert y in d';
        var b' :| 0 <= b' < |d'| && d'[b'] == y;
        assert Distinct(s) == d';
        assert b' == b;
        DistinctKeepsFirstOccurrenceOrder(s', a, b', j');
        assert s'[..j'] <= s[..j];
      } else {
        assert Distinct(s) == d' + [y];
        assert Distinct(s)[a] == d'[a] && d'[a] in d';
        assert s[..j] == s';
      }
    }
  }

  /** Number of occurrences of `x` in `s` (`list.count`). */
  function Count<T(==)>(s: seq<T>, x: T): (r: nat)
    ensures r <= |s|
    ensures r > 0 <==> x in s
  {
    if s == [] then 0
    else Count(s[..|s| - 1], x) + (if s[|s| - 1] == x then 1 else 0)
  }

  /** Filtering keeps every occurrence of an element it accepts and none of
      one it rejects: duplicates survive a comprehension with an `if`. */
  lemma {:induction false} FilterKeepsCount<T>(s: seq<T>, p: T -> bool, x: T)
    ensures Count(Filter(s, p), x) == if p(x) then Count(s, x) else 0
  {
    if s != [] {
      var s' := s[..|s| - 1];
      FilterKeepsCount(s', p, x);
      var y := s[|s| - 1];
      var f' := Filter(s', p);
      if p(y) {
        assert Filter(s, p) == f' + [y];
        CountSnoc(f', y, x);
      } else {
        assert Filter(s, p) == f';
      }
      assert Count(s, x) == Count(s', x) + if y == x then 1 else 0;
    }
  }

  lemma CountSnoc<T>(s: seq<T>, y: T, x: T)
    ensures Count(s + [y], x) == Count(s, x) + if y == x then 1 else 0
  {
    assert (s + [y])[..|s|] == s;
  }

  /** Filtering a concatenation filters each part. */
  lemma {:induction false} FilterConcat<T>(a: seq<T>, b: seq<T>, p: T -> bool)
    ensures Filter(a + b, p) == Filter(a, p) + Filter(b, p)
  {
    if b != [] {
      var b' := b[..|b| - 1];
      assert (a + b)[..|a + b| - 1] == a + b';
      assert (a + b)[|a + b| - 1] == b[|b| - 1];
      FilterConcat(a, b', p);
    } else {
      assert a + b == a;
    }
  }

  /** Filtering a sequence whose every element passes leaves it as it is. */
  lemma {:induction false} FilterAllPass<T>(s: seq<T>, p: T -> bool)
    requires forall k :: 0 <= k < |s| ==> p(s[k])
    ensures Filter(s, p) == s
  {
    if s != [] {
      FilterAllPass(s[..|s| - 1], p);
    }
  }

  /** The outcome of a running-best scan: the index of the winner, if any,
      and the best score. */
  datatype Choice = Choice(index: Option<nat>, score: real)

  /** The scan `best, best_score = None, 0; for x in s: if score(x) >
      best_score: best, best_score = x, score(x)`: the first element whose
      score is the greatest, provided that score exceeds 0. */
  function Best<T>(s: seq<T>, score: T -> real): (r: Choice)
    ensures r.score >= 0.0
    ensures forall i :: 0 <= i < |s| ==> score(s[i]) <= r.score
    ensures r.index.None? ==> r.score == 0.0
    ensures r.index.Some? ==> r.index.value < |s| && score(s[r.index.value]) == r.score && r.score > 0.0
    ensures r.index.Some? ==> forall j :: 0 <= j < r.index.value ==> score(s[j]) < r.score
  {
    if s == [] then Choice(None, 0.0)
    else
      var b := Best(s[..|s| - 1], score);
      var x := score(s[|s| - 1]);
      if x > b.score then Choice(Some(|s| - 1), x) else b
  }

  /** Extending a filtered prefix by one element. */
  lemma FilterSnoc<T>(s: seq<T>, i: nat, p: T -> bool)
    requires i < |s|
    ensures Filter(s[..i + 1], p) == Filter(s[..i], p) + (if p(s[i]) then [s[i]] else [])
  {
    assert s[..i + 1][..i] == s[..i];
  }

  /** Extending a scanned sequence by one element. */
  lemma BestSnoc<T>(s: seq<T>, x: T, score: T -> real)
    ensures Best(s + [x], score) == if score(x) > Best(s, score).score then Choice(Some(|s|), score(x)) else Best(s, score)
  {
    assert (s + [x])[..|s|] == s;
  }

  /** One step of a running-best scan that skips the elements `p` rejects. */
  lemma FilteredBestStep<T>(s: seq<T>, i: nat, p: T -> bool, score: T -> real)
    requires i < |s|
    ensures var before, after := Filter(s[..i], p), Filter(s[..i + 1], p);
      && |before| <= |after|
      && (forall k :: 0 <= k < |before| ==> after[k] == before[k])
      && (p(s[i]) ==> |after| == |before| + 1 && after[|before|] == s[i])
      && Best(after, score) ==
           if p(s[i]) && score(s[i]) > Best(before, score).score then Choice(Some(|before|), score(s[i]))
           else Best(before, score)
  {
    FilterSnoc(s, i, p);
    var before := Filter(s[..i], p);
    if p(s[i]) {
      BestSnoc(before, s[i], score);
    } else {
      assert before + [] == before;
    }
  }

  /** With no positive score there is no winner. */
  lemma BestWithoutPositive<T>(s: seq<T>, score: T -> real)
    requires forall i :: 0 <= i < |s| ==> score(s[i]) <= 0.0
    ensures Best(s, score) == Choice(None, 0.0)
  {
  }
}
