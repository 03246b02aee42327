/** `Solver::solve` and the program's `main`: pick the shortest part length,
    build every bucket bottom-up with `permute`, and list the texts of the
    query's bucket that pass the containment test, best score first. */
module Solve {
  import opened Letters
  import opened Containment
  import opened LexOrder
  import opened ScoreIndex
  import opened Combiner
  import opened Ranking

  /** The shortest part `solve` lets `permute` use for a query key of
      `queryLength` letters: half the length (the key length is never negative,
      so the shift `>> 1` halves it) less three, but at least three. */
  function MinLength(queryLength: nat): (m: int)
    ensures m >= 3
    ensures m >= queryLength / 2 - 3
    ensures m == 3 || m == queryLength / 2 - 3
  {
    var m := queryLength / 2 - 3;
    if m < 3 then 3 else m
  }

  /** The loop of `solve` from bucket `from` on: `permute(i, minLength)` for
      every bucket `i` in increasing order, the counts added up. Bucket `i` is
      only written by its own step, so the buckets below `from` never change. */
  function PermuteFrom(scores: seq<Bucket>, from: nat, minLength: int): (r: PermuteResult)
    requires 1 <= minLength
    requires from <= |scores|
    ensures |r.scores| == |scores|
    ensures forall i :: 0 <= i < from ==> r.scores[i] == scores[i]
    decreases |scores| - from
  {
    if from == |scores| then PermuteResult(0, scores)
    else
      var p := Permute(scores, from, minLength, false);
      var rest := PermuteFrom(p.scores, from + 1, minLength);
      PermuteResult(p.iterations + rest.iterations, rest.scores)
  }

  /** The loop keeps every text already filed. */
  lemma {:induction false} PermuteFromKeeps(scores: seq<Bucket>, from: nat, minLength: int)
    requires 1 <= minLength && from <= |scores|
    ensures Grows(scores, PermuteFrom(scores, from, minLength).scores)
    decreases |scores| - from
  {
    if from < |scores| {
      var p := KeepsStep(scores, from, minLength);
      PermuteFromKeeps(p, from + 1, minLength);
      GrowsStep(scores, p, PermuteFrom(p, from + 1, minLength).scores, from);
    }
  }

  /** If bucket `i` of `scores` holds `k`, so does bucket `i` of `r`. */
  predicate Kept(scores: seq<Bucket>, r: seq<Bucket>, i: int, k: string) {
    0 <= i < |scores| && k in scores[i] ==> i < |r| && k in r[i]
  }

  /** Every bucket of `r` holds every text of the same bucket of `scores`. */
  ghost predicate Grows(scores: seq<Bucket>, r: seq<Bucket>) {
    |scores| == |r| && forall i, k {:trigger Kept(scores, r, i, k)} :: Kept(scores, r, i, k)
  }

  lemma GrowsStep(scores: seq<Bucket>, p: seq<Bucket>, r: seq<Bucket>, from: int)
    requires 0 <= from < |scores| == |p|
    requires forall i :: 0 <= i < |scores| && i != from ==> p[i] == scores[i]
    requires forall k :: k in scores[from] ==> k in p[from]
    requires Grows(p, r)
    ensures Grows(scores, r)
  {
    forall i, k
      ensures Kept(scores, r, i, k)
    {
      assert Kept(p, r, i, k);
    }
  }

  /** The first step of the loop keeps bucket `from`'s texts and no other bucket
      changes; the rest of the loop carries on from its result `p`. */
  lemma KeepsStep(scores: seq<Bucket>, from: nat, minLength: int) returns (p: seq<Bucket>)
    requires 1 <= minLength && from < |scores|
    ensures |p| == |scores|
    ensures forall i :: 0 <= i < |scores| && i != from ==> p[i] == scores[i]
    ensures forall k :: k in scores[from] ==> k in p[from]
    ensures PermuteFrom(scores, from, minLength).scores == PermuteFrom(p, from + 1, minLength).scores
  {
    p := Permute(scores, from, minLength, false).scores;
    PermuteKeeps(scores, from, minLength, false);
  }

  /** Every pair a visited split of bucket `L` offers, taken from the final
      buckets, has its text in the final bucket `L`. */
  ghost predicate Closed(scores: seq<Bucket>, from: int, minLength: int)
    requires 1 <= minLength
  {
    forall L, s {:trigger Visited(L, minLength, s)} :: from <= L < |scores| && Visited(L, minLength, s) ==>
      PairsIn(scores[s], scores[L - s], scores[L])
  }


  /** From bucket `from` on, the final table is closed under pairing: the table
      is built bottom-up, so the parts of a bucket are final before it is built. */
  lemma {:induction false} PermuteFromClosed(scores: seq<Bucket>, from: nat, minLength: int)
    requires 1 <= minLength && from <= |scores|
    ensures Closed(PermuteFrom(scores, from, minLength).scores, from, minLength)
    decreases |scores| - from
  {
    if from < |scores| {
      var p := Permute(scores, from, minLength, false).scores;
      PermuteFromClosed(p, from + 1, minLength);
      forall s | Visited(from, minLength, s)
        ensures PairsIn(scores[s], scores[from - s], p[from])
      {
        PermutePairsIn(scores, from, minLength, s);
      }
      ClosedStep(scores, p, PermuteFrom(p, from + 1, minLength).scores, from, minLength);
    }
  }

  /** One step of the loop: bucket `from` of `p` holds the pairs of the visited
      splits of `scores`, and `r` is closed above `from` and agrees with `p` up
      to `from`; then `r` is closed from `from` on. */
  lemma ClosedStep(scores: seq<Bucket>, p: seq<Bucket>, r: seq<Bucket>, from: int, minLength: int)
    requires 1 <= minLength && 0 <= from < |scores| == |p| == |r|
    requires forall i :: 0 <= i < |scores| && i != from ==> p[i] == scores[i]
    requires forall i :: 0 <= i <= from ==> r[i] == p[i]
    requires forall s :: Visited(from, minLength, s) ==> PairsIn(scores[s], scores[from - s], p[from])
    requires Closed(r, from + 1, minLength)
    ensures Closed(r, from, minLength)
  {
    forall L, s | from <= L < |r| && Visited(L, minLength, s)
      ensures PairsIn(r[s], r[L - s], r[L])
    {
      if L == from {
        assert r[s] == scores[s] && r[L - s] == scores[L - s];
      }
    }
  }

  /** Text `k`, if bucket `L` of `scores` holds it, was there in `init` with
      the same score, or is the text of a pair from a visited split of
      `scores`, scored with the pair's sum. */
  ghost predicate DerivedEntry(init: seq<Bucket>, scores: seq<Bucket>, minLength: int, L: int, k: string)
    requires 1 <= minLength && |init| == |scores|
  {
    0 <= L < |scores| && k in scores[L] ==>
      (k in init[L] && scores[L][k] == init[L][k]) ||
      exists s :: Visited(L, minLength, s) && MakesEntry(scores[s], scores[L - s], k, scores[L][k])
  }

  /** Every text of the final table was there at the start with its score, or
      is the text of a pair from a visited split of the final table, scored with
      the pair's sum. */
  ghost predicate Derived(init: seq<Bucket>, scores: seq<Bucket>, minLength: int)
    requires 1 <= minLength && |init| == |scores|
  {
    forall L, k {:trigger DerivedEntry(init, scores, minLength, L, k)} :: DerivedEntry(init, scores, minLength, L, k)
  }

  /** A pair entry stays a pair entry when its two buckets are not touched. */
  lemma EntryFrame(scores: seq<Bucket>, r: seq<Bucket>, L: int, minLength: int, k: string, v: int)
    requires 1 <= minLength && 0 <= L < |scores| == |r|
    requires forall i :: 0 <= i < L ==> r[i] == scores[i]
    requires exists s :: Visited(L, minLength, s) && MakesEntry(scores[s], scores[L - s], k, v)
    ensures exists s :: Visited(L, minLength, s) && MakesEntry(r[s], r[L - s], k, v)
  {
    var s :| Visited(L, minLength, s) && MakesEntry(scores[s], scores[L - s], k, v);
    assert r[s] == scores[s] && r[L - s] == scores[L - s];
  }

  /** The loop adds nothing but pair texts. */
  lemma {:induction false} PermuteFromSound(scores: seq<Bucket>, from: nat, minLength: int)
    requires 1 <= minLength && from <= |scores|
    ensures Derived(scores, PermuteFrom(scores, from, minLength).scores, minLength)
    decreases |scores| - from
  {
    if from < |scores| {
      var p := Permute(scores, from, minLength, false).scores;
      var r := PermuteFrom(p, from + 1, minLength).scores;
      PermuteFromSound(p, from + 1, minLength);
      forall k | k in p[from]
        ensures (k in scores[from] && p[from][k] == scores[from][k]) ||
          exists s :: Visited(from, minLength, s) && MakesEntry(scores[s], scores[from - s], k, p[from][k])
      {
        PermuteSound(scores, from, minLength, false, k);
      }
      SoundStep(scores, p, r, from, minLength);
    }
  }

  /** One step of the loop: bucket `from` of `p` was built from the buckets of
      `scores`, and `r` was derived from `p` without touching buckets up to
      `from`; then `r` is derived from `scores`. */
  lemma SoundStep(scores: seq<Bucket>, p: seq<Bucket>, r: seq<Bucket>, from: int, minLength: int)
    requires 1 <= minLength && 0 <= from < |scores| == |p| == |r|
    requires forall i :: 0 <= i < |scores| && i != from ==> p[i] == scores[i]
    requires forall i :: 0 <= i <= from ==> r[i] == p[i]
    requires forall k :: k in p[from] ==>
      (k in scores[from] && p[from][k] == scores[from][k]) ||
      exists s :: Visited(from, minLength, s) && MakesEntry(scores[s], scores[from - s], k, p[from][k])
    requires Derived(p, r, minLength)
    ensures Derived(scores, r, minLength)
  {
    forall L, k
      ensures DerivedEntry(scores, r, minLength, L, k)
    {
      if 0 <= L < |r| && k in r[L] {
        assert DerivedEntry(p, r, minLength, L, k);
        if L == from {
          if !(k in scores[L] && r[L][k] == scores[L][k]) {
            EntryFrame(scores, r, from, minLength, k, r[from][k]);
          }
        } else {
          assert p[L] == scores[L];
        }
      }
    }
  }

  /** With no visited split whose two buckets both hold texts, `permute`
      changes nothing. */
  lemma PermuteIdle(scores: seq<Bucket>, length: int, minLength: int)
    requires 1 <= minLength && 0 <= length < |scores|
    requires forall s :: Visited(length, minLength, s) ==> scores[s] == map[] || scores[length - s] == map[]
    ensures Permute(scores, length, minLength, false).scores == scores
  {
    var d := Permute(scores, length, minLength, false).scores[length];
    PermuteKeeps(scores, length, minLength, false);
    forall k | k in d
      ensures k in scores[length] && d[k] == scores[length][k]
    {
      PermuteSound(scores, length, minLength, false, k);
    }
    assert d == scores[length];
  }

  /** With no visited split whose two buckets both hold texts, the loop changes
      nothing. */
  lemma {:induction false} PermuteFromIdle(scores: seq<Bucket>, from: nat, minLength: int)
    requires 1 <= minLength && from <= |scores|
    requires forall L, s :: from <= L < |scores| && Visited(L, minLength, s) ==>
      scores[s] == map[] || scores[L - s] == map[]
    ensures PermuteFrom(scores, from, minLength).scores == scores
    decreases |scores| - from
  {
    if from < |scores| {
      PermuteIdle(scores, from, minLength);
      PermuteFromIdle(scores, from + 1, minLength);
    }
  }

  /** A table derived from a consistent one is consistent: every pair joins
      texts of shorter buckets, whose letter counts add up. */
  lemma DerivedIsConsistent(init: seq<Bucket>, scores: seq<Bucket>, minLength: int)
    requires 1 <= minLength && |init| == |scores|
    requires Consistent(init) && Derived(init, scores, minLength)
    ensures Consistent(scores)
  {
    DerivedBelow(init, scores, minLength, |scores|);
  }

  /** Buckets below `L` of a table derived from a consistent one are consistent. */
  lemma {:induction false} DerivedBelow(init: seq<Bucket>, scores: seq<Bucket>, minLength: int, L: int)
    requires 1 <= minLength && |init| == |scores| && 0 <= L <= |scores|
    requires Consistent(init) && Derived(init, scores, minLength)
    ensures forall i :: 0 <= i < L ==> BucketConsistent(scores[i], i)
    decreases L
  {
    if L > 0 {
      DerivedBelow(init, scores, minLength, L - 1);
      assert BucketConsistent(init[L - 1], L - 1);
      forall k | k in scores[L - 1]
        ensures LetterCount(k) == L - 1 && NulFree(k)
      {
        assert DerivedEntry(init, scores, minLength, L - 1, k);
        EntryConsistent(init, scores, minLength, L - 1, k);
      }
    }
  }

  /** A text of bucket `L` is consistent with it when the bucket of `init` and
      every lower bucket of `scores` are. */
  lemma EntryConsistent(init: seq<Bucket>, scores: seq<Bucket>, minLength: int, L: int, k: string)
    requires 1 <= minLength && |init| == |scores| && 0 <= L < |scores| && k in scores[L]
    requires (k in init[L] && scores[L][k] == init[L][k]) ||
      exists s :: Visited(L, minLength, s) && MakesEntry(scores[s], scores[L - s], k, scores[L][k])
    requires BucketConsistent(init[L], L)
    requires forall i :: 0 <= i < L ==> BucketConsistent(scores[i], i)
    ensures LetterCount(k) == L && NulFree(k)
  {
    if !(k in init[L] && scores[L][k] == init[L][k]) {
      var s :| Visited(L, minLength, s) && MakesEntry(scores[s], scores[L - s], k, scores[L][k]);
      assert 0 <= s < L && 0 <= L - s < L;
      assert BucketConsistent(scores[s], s) && BucketConsistent(scores[L - s], L - s);
      PairIsConsistent(scores[s], scores[L - s], s, L - s, k, scores[L][k]);
    }
  }

  /** The texts of `ks`, in order, that pass the containment test against
      `key`, each with its score in `b`. */
  function Filter(key: string, b: Bucket, ks: seq<string>): (r: seq<Entry>)
    requires forall k :: k in ks ==> k in b
    ensures forall e :: e in r <==> e.0 in ks && QueryContains(key, e.0) && e.1 == b[e.0]
    ensures Distinct(ks) ==> Distinct(r)
    decreases |ks|
  {
    if |ks| == 0 then []
    else
      var rest := Filter(key, b, ks[1..]);
      assert forall k :: k in ks <==> k == ks[0] || k in ks[1..] by {
        assert ks == [ks[0]] + ks[1..];
      }
      if !QueryContains(key, ks[0]) then rest
      else if Distinct(ks) then
        assert ks[0] !in ks[1..];
        DistinctCons((ks[0], b[ks[0]]), rest);
        [(ks[0], b[ks[0]])] + rest
      else [(ks[0], b[ks[0]])] + rest
  }

  /** The answer list of `solve` for the query key `key` and the query's
      bucket `found`: exactly the texts of the bucket that pass the containment
      test, with their scores, best score first and alphabetically among equals. */
  function Answers(key: string, found: Bucket): (r: seq<Entry>)
    ensures forall e :: e in r <==> e.0 in found && QueryContains(key, e.0) && e.1 == found[e.0]
    ensures forall i, j :: 0 <= i < j < |r| ==> Before(r[i], r[j])
  {
    var ks := Ascending(found.Keys);
    AscendingKeys(found.Keys);
    assert Distinct(ks) by {
      AscendingIsStrictlyAscending(found.Keys);
      forall i, j | 0 <= i < j < |ks|
        ensures ks[i] != ks[j]
      {
        LessIrreflexive(ks[i]);
      }
    }
    var filtered := Filter(key, found, ks);
    var answers := Rank(filtered);
    forall e
      ensures e in answers <==> e in filtered
    {
      assert e in answers <==> e in multiset(answers);
      assert e in filtered <==> e in multiset(filtered);
    }
    RankedIsStrict(answers);
    answers
  }

  /** What `solve` computes and leaves behind. */
  datatype Solution = Solution(minLength: int, iterations: int, solver: Solver, answers: seq<Entry>)

  /** `Solver::solve`: the table is built bottom-up to the query's bucket with
      the chosen shortest part, so it keeps every seeded text, is closed under
      pairing and holds nothing but seeded texts and pairs; the answers are
      drawn from the query's bucket. */
  function Solve(s: Solver): (r: Solution)
    requires Valid(s)
    ensures Valid(r.solver)
    ensures r.solver.query == s.query && r.solver.sortedQuery == s.sortedQuery
    ensures r.minLength == MinLength(|s.sortedQuery|)
    ensures var found := r.solver.scores[s.maxLength];
      forall e :: e in r.answers <==> e.0 in found && QueryContains(s.sortedQuery, e.0) && e.1 == found[e.0]
    ensures forall i, j :: 0 <= i < j < |r.answers| ==> Before(r.answers[i], r.answers[j])
    ensures Grows(s.scores, r.solver.scores)
    ensures Closed(r.solver.scores, 0, r.minLength)
    ensures Derived(s.scores, r.solver.scores, r.minLength)
  {
    var m := MinLength(|s.sortedQuery|);
    var p := PermuteFrom(s.scores, 0, m);
    PermuteFromKeeps(s.scores, 0, m);
    PermuteFromClosed(s.scores, 0, m);
    PermuteFromSound(s.scores, 0, m);
    Solution(m, p.iterations, s.(scores := p.scores), Answers(s.sortedQuery, p.scores[s.maxLength]))
  }
}
