/** The combiner `Solver::permute(length, minLength, estimateIterations)`: one
    step of the bottom-up table, joining every text of bucket `s` with every
    text of bucket `length - s` into bucket `length`. */
module Combiner {
  import opened Letters
  import opened Containment
  import opened LexOrder
  import opened ScoreIndex

  /** The text `permute` builds for a pair: left, one space, right, in that
      order and with no check against the query. */
  function Combine(a: string, b: string): string {
    a + [Space] + b
  }

  /** A pair's text holds the letters of both parts and one space more. */
  lemma CombineLetters(a: string, b: string)
    ensures LetterBag(Combine(a, b)) == LetterBag(a) + LetterBag(b)
    ensures LetterCount(Combine(a, b)) == LetterCount(a) + LetterCount(b)
    ensures Space in Combine(a, b)
    ensures NulFree(a) && NulFree(b) ==> NulFree(Combine(a, b))
  {
    var k := Combine(a, b);
    assert k[|a|] == Space;
    RemoveSpacesAppend(a, [Space] + b);
    RemoveSpacesAppend([Space], b);
  }

  /** Whether the loop of `permute` runs its body for left length `s`: the loop
      goes down from `length - minLength` to `minLength` and breaks as soon as
      the right part would be longer than the left. */
  predicate Visited(length: int, minLength: int, s: int) {
    minLength <= s <= length - minLength && length <= 2 * s
  }

  /** The left lengths the loop of `permute` visits from `s1` on, in order. */
  function Splits(length: int, minLength: int, s1: int): (ss: seq<int>)
    requires s1 <= length - minLength
    ensures forall s :: s in ss <==> Visited(length, minLength, s) && s <= s1
    ensures forall i :: 0 <= i < |ss| ==>
      minLength <= length - ss[i] <= ss[i] <= length - minLength
    ensures forall i, j :: 0 <= i < j < |ss| ==> ss[j] < ss[i]
    decreases s1 - minLength + 1
  {
    if s1 < minLength then []
    else if length - s1 > s1 then []
    else
      var rest := Splits(length, minLength, s1 - 1);
      assert forall j :: 0 <= j < |rest| ==> rest[j] in rest;
      [s1] + rest
  }

  /** `k` is the text of some pair drawn from `left` and `right`. */
  ghost predicate MakesKey(left: Bucket, right: Bucket, k: string) {
    exists a, b :: a in left && b in right && k == Combine(a, b)
  }

  /** `k` is the text of some pair drawn from `left` and `right`, and `v` is
      the sum of that pair's scores. */
  ghost predicate MakesEntry(left: Bucket, right: Bucket, k: string, v: int) {
    exists a, b :: a in left && b in right && k == Combine(a, b) && v == left[a] + right[b]
  }

  /** `k` is the text of left text `a` paired with one of the right texts `ys`. */
  ghost predicate RowKey(a: string, ys: seq<string>, k: string) {
    exists b :: b in ys && k == Combine(a, b)
  }

  /** As `RowKey`, with `v` the score of left text `a`, `va`, plus that of the right text. */
  ghost predicate RowEntry(a: string, va: int, right: Bucket, ys: seq<string>, k: string, v: int)
    requires forall b :: b in ys ==> b in right
  {
    exists b :: b in ys && k == Combine(a, b) && v == va + right[b]
  }

  /** The inner loop: left text `a` (score `va`) against the right texts `ys`,
      each result written into `dest`, the last write to a key winning. */
  function JoinRow(dest: Bucket, a: string, va: int, right: Bucket, ys: seq<string>): Bucket
    requires forall b :: b in ys ==> b in right
    decreases |ys|
  {
    if |ys| == 0 then dest
    else JoinRow(dest[Combine(a, ys[0]) := va + right[ys[0]]], a, va, right, ys[1..])
  }

  lemma {:induction false} JoinRowSpec(dest: Bucket, a: string, va: int, right: Bucket, ys: seq<string>)
    requires forall b :: b in ys ==> b in right
    ensures var r := JoinRow(dest, a, va, right, ys);
      && (forall k :: k in r <==> k in dest || RowKey(a, ys, k))
      && (forall k :: k in r ==> (k in dest && r[k] == dest[k]) || RowEntry(a, va, right, ys, k, r[k]))
    decreases |ys|
  {
    if |ys| > 0 {
      var next := dest[Combine(a, ys[0]) := va + right[ys[0]]];
      assert forall b :: b in ys <==> b == ys[0] || b in ys[1..] by {
        assert ys == [ys[0]] + ys[1..];
      }
      JoinRowSpec(next, a, va, right, ys[1..]);
    }
  }

  /** `k` is the text of some left text of `xs` paired with some right text of `ys`. */
  ghost predicate RowsKey(xs: seq<string>, ys: seq<string>, k: string) {
    exists a :: a in xs && RowKey(a, ys, k)
  }

  /** As `RowsKey`, with `v` the sum of the pair's scores. */
  ghost predicate RowsEntry(left: Bucket, xs: seq<string>, right: Bucket, ys: seq<string>, k: string, v: int)
    requires forall a :: a in xs ==> a in left
    requires forall b :: b in ys ==> b in right
  {
    exists a :: a in xs && RowEntry(a, left[a], right, ys, k, v)
  }

  /** The outer loop: every left text of `xs` against the right texts `ys`. */
  function JoinRows(dest: Bucket, left: Bucket, xs: seq<string>, right: Bucket, ys: seq<string>): Bucket
    requires forall a :: a in xs ==> a in left
    requires forall b :: b in ys ==> b in right
    decreases |xs|
  {
    if |xs| == 0 then dest
    else JoinRows(JoinRow(dest, xs[0], left[xs[0]], right, ys), left, xs[1..], right, ys)
  }

  lemma {:induction false} JoinRowsSpec(dest: Bucket, left: Bucket, xs: seq<string>, right: Bucket, ys: seq<string>)
    requires forall a :: a in xs ==> a in left
    requires forall b :: b in ys ==> b in right
    ensures var r := JoinRows(dest, left, xs, right, ys);
      && (forall k :: k in r <==> k in dest || RowsKey(xs, ys, k))
      && (forall k :: k in r ==> (k in dest && r[k] == dest[k]) || RowsEntry(left, xs, right, ys, k, r[k]))
    decreases |xs|
  {
    if |xs| > 0 {
      var next := JoinRow(dest, xs[0], left[xs[0]], right, ys);
      JoinRowSpec(dest, xs[0], left[xs[0]], right, ys);
      JoinRowsSpec(next, left, xs[1..], right, ys);
      JoinRowsStep(dest, next, JoinRows(next, left, xs[1..], right, ys), left, xs, right, ys);
    }
  }

  /** One more left text: what the first row adds, followed by what the
      remaining rows add, is what all the rows add. */
  lemma JoinRowsStep(dest: Bucket, next: Bucket, r: Bucket, left: Bucket, xs: seq<string>, right: Bucket, ys: seq<string>)
    requires |xs| > 0
    requires forall a :: a in xs ==> a in left
    requires forall b :: b in ys ==> b in right
    requires forall k :: k in next <==> k in dest || RowKey(xs[0], ys, k)
    requires forall k :: k in next ==>
      (k in dest && next[k] == dest[k]) || RowEntry(xs[0], left[xs[0]], right, ys, k, next[k])
    requires forall k :: k in r <==> k in next || RowsKey(xs[1..], ys, k)
    requires forall k :: k in r ==>
      (k in next && r[k] == next[k]) || RowsEntry(left, xs[1..], right, ys, k, r[k])
    ensures forall k :: k in r <==> k in dest || RowsKey(xs, ys, k)
    ensures forall k :: k in r ==>
      (k in dest && r[k] == dest[k]) || RowsEntry(left, xs, right, ys, k, r[k])
  {
    assert xs == [xs[0]] + xs[1..];
    forall k | k in r
      ensures k in dest || RowsKey(xs, ys, k)
      ensures (k in dest && r[k] == dest[k]) || RowsEntry(left, xs, right, ys, k, r[k])
    {
      if k in next && r[k] == next[k] {
        if !(k in dest && next[k] == dest[k]) {
          assert RowEntry(xs[0], left[xs[0]], right, ys, k, r[k]);
          assert RowKey(xs[0], ys, k);
        }
      } else {
        var a :| a in xs[1..] && RowEntry(a, left[a], right, ys, k, r[k]);
        assert a in xs;
        assert RowKey(a, ys, k);
      }
    }
    forall k | RowsKey(xs, ys, k)
      ensures k in r
    {
      var a :| a in xs && RowKey(a, ys, k);
      if a != xs[0] {
        assert a in xs[1..];
      }
    }
  }

  /** Both loops of one split, over the two buckets in map order. */
  function Join(dest: Bucket, left: Bucket, right: Bucket): Bucket {
    AscendingKeys(left.Keys);
    AscendingKeys(right.Keys);
    JoinRows(dest, left, Ascending(left.Keys), right, Ascending(right.Keys))
  }

  /** One split adds to `dest` the text of every pair of a left and a right
      text and nothing else; a text whose score changed is the text of some
      pair, scored with the sum of that pair's scores. */
  lemma JoinSpec(dest: Bucket, left: Bucket, right: Bucket)
    ensures var r := Join(dest, left, right);
      && (forall k :: k in r <==> k in dest || MakesKey(left, right, k))
      && (forall k :: k in r ==> (k in dest && r[k] == dest[k]) || MakesEntry(left, right, k, r[k]))
  {
    var xs, ys := Ascending(left.Keys), Ascending(right.Keys);
    AscendingKeys(left.Keys);
    AscendingKeys(right.Keys);
    var r := JoinRows(dest, left, xs, right, ys);
    JoinRowsSpec(dest, left, xs, right, ys);
    forall k | k in r
      ensures (k in dest || MakesKey(left, right, k))
      ensures (k in dest && r[k] == dest[k]) || MakesEntry(left, right, k, r[k])
    {
      if !(k in dest && r[k] == dest[k]) {
        var a :| a in xs && RowEntry(a, left[a], right, ys, k, r[k]);
        var b :| b in ys && k == Combine(a, b) && r[k] == left[a] + right[b];
      }
    }
    forall k | MakesKey(left, right, k)
      ensures k in r
    {
      var a, b :| a in left && b in right && k == Combine(a, b);
      assert a in xs && b in ys;
      assert RowKey(a, ys, k);
    }
  }

  /** What `permute` returns and leaves behind. */
  datatype PermuteResult = PermuteResult(iterations: int, scores: seq<Bucket>)

  /** Every split's two buckets exist and lie strictly below the destination. */
  predicate SplitsBelow(scores: seq<Bucket>, length: int, ss: seq<int>) {
    0 <= length < |scores| && forall i :: 0 <= i < |ss| ==> 0 < length - ss[i] <= ss[i] < length
  }

  /** The pairs a list of splits offers: the product of the two bucket sizes,
      summed over the splits. */
  function SplitWork(scores: seq<Bucket>, length: int, ss: seq<int>): int
    requires SplitsBelow(scores, length, ss)
    decreases |ss|
  {
    if |ss| == 0 then 0
    else |scores[ss[0]]| * |scores[length - ss[0]]| + SplitWork(scores, length, ss[1..])
  }

  lemma {:induction false} SplitWorkFrame(scores: seq<Bucket>, scores': seq<Bucket>, length: int, ss: seq<int>)
    requires SplitsBelow(scores, length, ss) && SplitsBelow(scores', length, ss)
    requires forall i :: 0 <= i < |ss| ==>
      scores[ss[i]] == scores'[ss[i]] && scores[length - ss[i]] == scores'[length - ss[i]]
    ensures SplitWork(scores, length, ss) == SplitWork(scores', length, ss)
    decreases |ss|
  {
    if |ss| > 0 {
      SplitWorkFrame(scores, scores', length, ss[1..]);
    }
  }

  /** The loop of `permute` over the visited splits `ss`: a split with an empty
      bucket is skipped, otherwise its pair count is added, and unless only
      estimating, its pairs are joined into bucket `length`. Only bucket
      `length` can change, and the count is the number of pairs offered,
      empty buckets or not. */
  function ApplySplits(scores: seq<Bucket>, length: int, ss: seq<int>, estimate: bool): (r: PermuteResult)
    requires SplitsBelow(scores, length, ss)
    ensures |r.scores| == |scores|
    ensures forall i :: 0 <= i < |scores| && i != length ==> r.scores[i] == scores[i]
    ensures estimate ==> r.scores == scores
    decreases |ss|
  {
    if |ss| == 0 then PermuteResult(0, scores)
    else
      var s1 := ss[0];
      var s2 := length - s1;
      if |scores[s1]| == 0 || |scores[s2]| == 0 then
        ApplySplits(scores, length, ss[1..], estimate)
      else
        var n := |scores[s1]| * |scores[s2]|;
        var next := if estimate then scores else scores[length := Join(scores[length], scores[s1], scores[s2])];
        var rest := ApplySplits(next, length, ss[1..], estimate);
        PermuteResult(n + rest.iterations, rest.scores)
  }

  /** The count is the number of pairs the splits offer: a split skipped for an
      empty bucket offers none. */
  lemma {:induction false} ApplySplitsCount(scores: seq<Bucket>, length: int, ss: seq<int>, estimate: bool)
    requires SplitsBelow(scores, length, ss)
    ensures ApplySplits(scores, length, ss, estimate).iterations == SplitWork(scores, length, ss)
    decreases |ss|
  {
    if |ss| > 0 {
      var s1, s2 := ss[0], length - ss[0];
      if |scores[s1]| == 0 || |scores[s2]| == 0 {
        ApplySplitsCount(scores, length, ss[1..], estimate);
      } else {
        var next := if estimate then scores else scores[length := Join(scores[length], scores[s1], scores[s2])];
        ApplySplitsCount(next, length, ss[1..], estimate);
        CountStep(scores, next, length, ss);
      }
    }
  }

  /** The later splits offer as many pairs after bucket `length` is written as
      before: none of them reads it. */
  lemma CountStep(scores: seq<Bucket>, next: seq<Bucket>, length: int, ss: seq<int>)
    requires SplitsBelow(scores, length, ss) && |ss| > 0
    requires |next| == |scores|
    requires forall i :: 0 <= i < |scores| && i != length ==> next[i] == scores[i]
    ensures SplitsBelow(next, length, ss[1..])
    ensures SplitWork(scores, length, ss) ==
      |scores[ss[0]]| * |scores[length - ss[0]]| + SplitWork(next, length, ss[1..])
  {
    SplitWorkFrame(scores, next, length, ss[1..]);
  }

  /** `k` is the text of a pair from some split of `ss`, and `v` its score. */
  ghost predicate FromSplits(scores: seq<Bucket>, length: int, ss: seq<int>, k: string, v: int)
    requires SplitsBelow(scores, length, ss)
  {
    exists i :: 0 <= i < |ss| && MakesEntry(scores[ss[i]], scores[length - ss[i]], k, v)
  }

  /** What the loop of `permute` over `ss` does to bucket `length`, ending as
      `d`: it keeps every text the bucket held; without estimating, it gains
      the text of every pair of every split; and every text whose score
      changed is the text of some pair, scored with that pair's sum. */
  ghost predicate DestSpec(scores: seq<Bucket>, length: int, ss: seq<int>, estimate: bool, d: Bucket)
    requires SplitsBelow(scores, length, ss)
  {
    && (forall k :: k in scores[length] ==> k in d)
    && (!estimate ==> forall i, a, b :: 0 <= i < |ss| && a in scores[ss[i]] && b in scores[length - ss[i]] ==>
          Combine(a, b) in d)
    && (forall k :: k in d ==>
          (k in scores[length] && d[k] == scores[length][k]) || FromSplits(scores, length, ss, k, d[k]))
  }

  lemma {:induction false} ApplySplitsDest(scores: seq<Bucket>, length: int, ss: seq<int>, estimate: bool)
    requires SplitsBelow(scores, length, ss)
    ensures DestSpec(scores, length, ss, estimate, ApplySplits(scores, length, ss, estimate).scores[length])
    decreases |ss|
  {
    if |ss| > 0 {
      var s1, s2 := ss[0], length - ss[0];
      var d := ApplySplits(scores, length, ss, estimate).scores[length];
      if |scores[s1]| == 0 || |scores[s2]| == 0 || estimate {
        ApplySplitsDest(scores, length, ss[1..], estimate);
        PassStep(scores, length, ss, estimate, d);
      } else {
        var next := scores[length := Join(scores[length], scores[s1], scores[s2])];
        ApplySplitsDest(next, length, ss[1..], estimate);
        JoinStep(scores, length, ss, d);
      }
    }
  }

  /** A split that adds nothing (an empty bucket, or only estimating) leaves
      the description of the later splits valid for all of them. */
  lemma PassStep(scores: seq<Bucket>, length: int, ss: seq<int>, estimate: bool, d: Bucket)
    requires SplitsBelow(scores, length, ss) && |ss| > 0
    requires |scores[ss[0]]| == 0 || |scores[length - ss[0]]| == 0 || estimate
    requires DestSpec(scores, length, ss[1..], estimate, d)
    ensures DestSpec(scores, length, ss, estimate, d)
  {
    var tail := ss[1..];
    forall k | k in d && !(k in scores[length] && d[k] == scores[length][k])
      ensures FromSplits(scores, length, ss, k, d[k])
    {
      var i :| 0 <= i < |tail| && MakesEntry(scores[tail[i]], scores[length - tail[i]], k, d[k]);
      assert ss[i + 1] == tail[i];
    }
    forall i, a, b | !estimate && 0 <= i < |ss| && a in scores[ss[i]] && b in scores[length - ss[i]]
      ensures Combine(a, b) in d
    {
      assert i != 0;
      assert tail[i - 1] == ss[i];
    }
  }

  /** A split whose pairs are joined into the bucket, followed by the later
      splits, satisfies the description for all of them. */
  lemma JoinStep(scores: seq<Bucket>, length: int, ss: seq<int>, d: Bucket)
    requires SplitsBelow(scores, length, ss) && |ss| > 0
    requires var s1, s2 := ss[0], length - ss[0];
      DestSpec(scores[length := Join(scores[length], scores[s1], scores[s2])], length, ss[1..], false, d)
    ensures DestSpec(scores, length, ss, false, d)
  {
    var j := Join(scores[length], scores[ss[0]], scores[length - ss[0]]);
    JoinSpec(scores[length], scores[ss[0]], scores[length - ss[0]]);
    JoinStepSound(scores, length, ss, j, d);
    JoinStepComplete(scores, length, ss, j, d);
  }

  lemma JoinStepSound(scores: seq<Bucket>, length: int, ss: seq<int>, j: Bucket, d: Bucket)
    requires SplitsBelow(scores, length, ss) && |ss| > 0
    requires forall k :: k in j ==>
      (k in scores[length] && j[k] == scores[length][k]) ||
      MakesEntry(scores[ss[0]], scores[length - ss[0]], k, j[k])
    requires forall k :: k in d ==>
      (k in j && d[k] == j[k]) || FromSplits(scores[length := j], length, ss[1..], k, d[k])
    ensures forall k :: k in d ==>
      (k in scores[length] && d[k] == scores[length][k]) || FromSplits(scores, length, ss, k, d[k])
  {
    forall k | k in d && !(k in scores[length] && d[k] == scores[length][k])
      ensures FromSplits(scores, length, ss, k, d[k])
    {
      JoinEntrySound(scores, length, ss, j, k, d[k]);
    }
  }

  /** `JoinStepSound` for one text `k` of the result, with score `v`. */
  lemma JoinEntrySound(scores: seq<Bucket>, length: int, ss: seq<int>, j: Bucket, k: string, v: int)
    requires SplitsBelow(scores, length, ss) && |ss| > 0
    requires k in j ==>
      (k in scores[length] && j[k] == scores[length][k]) ||
      MakesEntry(scores[ss[0]], scores[length - ss[0]], k, j[k])
    requires (k in j && v == j[k]) || FromSplits(scores[length := j], length, ss[1..], k, v)
    requires !(k in scores[length] && v == scores[length][k])
    ensures FromSplits(scores, length, ss, k, v)
  {
    var tail := ss[1..];
    var next := scores[length := j];
    if k in j && v == j[k] {
      assert MakesEntry(scores[ss[0]], scores[length - ss[0]], k, v);
    } else {
      var i :| 0 <= i < |tail| && MakesEntry(next[tail[i]], next[length - tail[i]], k, v);
      assert ss[i + 1] == tail[i];
      assert next[tail[i]] == scores[tail[i]] && next[length - tail[i]] == scores[length - tail[i]];
      assert MakesEntry(scores[ss[i + 1]], scores[length - ss[i + 1]], k, v);
    }
  }

  lemma JoinStepComplete(scores: seq<Bucket>, length: int, ss: seq<int>, j: Bucket, d: Bucket)
    requires SplitsBelow(scores, length, ss) && |ss| > 0
    requires forall k :: k in j <==> k in scores[length] || MakesKey(scores[ss[0]], scores[length - ss[0]], k)
    requires forall k :: k in j ==> k in d
    requires forall i, a, b ::
      (0 <= i < |ss[1..]| && a in scores[length := j][ss[1..][i]] &&
       b in scores[length := j][length - ss[1..][i]]) ==> Combine(a, b) in d
    ensures forall k :: k in scores[length] ==> k in d
    ensures forall i, a, b :: 0 <= i < |ss| && a in scores[ss[i]] && b in scores[length - ss[i]] ==>
      Combine(a, b) in d
  {
    var tail := ss[1..];
    forall i, a, b | 0 <= i < |ss| && a in scores[ss[i]] && b in scores[length - ss[i]]
      ensures Combine(a, b) in d
    {
      if i == 0 {
        assert MakesKey(scores[ss[0]], scores[length - ss[0]], Combine(a, b));
      } else {
        assert tail[i - 1] == ss[i];
        assert scores[length := j][tail[i - 1]] == scores[ss[i]];
      }
    }
  }

  /** `Solver::permute(length, minLength, estimateIterations)`. Only bucket
      `length` changes, and not at all when only estimating; the count returned
      is the number of pairs the visited splits offer. */
  function Permute(scores: seq<Bucket>, length: int, minLength: int, estimate: bool): (r: PermuteResult)
    requires 1 <= minLength
    requires 0 <= length < |scores|
    ensures |r.scores| == |scores|
    ensures forall i :: 0 <= i < |scores| && i != length ==> r.scores[i] == scores[i]
    ensures estimate ==> r.scores == scores
  {
    ApplySplits(scores, length, Splits(length, minLength, length - minLength), estimate)
  }

  /** The count `permute` returns is the number of pairs its visited splits
      offer, with or without estimating. */
  lemma PermuteCount(scores: seq<Bucket>, length: int, minLength: int, estimate: bool)
    requires 1 <= minLength
    requires 0 <= length < |scores|
    ensures var ss := Splits(length, minLength, length - minLength);
      SplitsBelow(scores, length, ss) &&
      Permute(scores, length, minLength, estimate).iterations == SplitWork(scores, length, ss)
  {
    ApplySplitsCount(scores, length, Splits(length, minLength, length - minLength), estimate);
  }

  /** `permute` keeps every text of bucket `length`. */
  lemma PermuteKeeps(scores: seq<Bucket>, length: int, minLength: int, estimate: bool)
    requires 1 <= minLength
    requires 0 <= length < |scores|
    ensures forall k :: k in scores[length] ==> k in Permute(scores, length, minLength, estimate).scores[length]
  {
    ApplySplitsDest(scores, length, Splits(length, minLength, length - minLength), estimate);
  }

  /** Without estimating, `permute` puts into bucket `length` the text of every
      pair of a left text and a right text of a visited split. */
  lemma PermuteComplete(scores: seq<Bucket>, length: int, minLength: int, s: int, a: string, b: string)
    requires 1 <= minLength
    requires 0 <= length < |scores|
    requires Visited(length, minLength, s) && a in scores[s] && b in scores[length - s]
    ensures Combine(a, b) in Permute(scores, length, minLength, false).scores[length]
  {
    var ss := Splits(length, minLength, length - minLength);
    ApplySplitsDest(scores, length, ss, false);
    assert s in ss;
    DestCovers(scores, length, ss, ApplySplits(scores, length, ss, false).scores[length], s, a, b);
  }

  /** `dest` holds the text of every pair of a left and a right text. */
  ghost predicate PairsIn(left: Bucket, right: Bucket, dest: Bucket) {
    forall a, b :: a in left && b in right ==> Combine(a, b) in dest
  }

  /** `PermuteComplete` for all the pairs of one visited split. */
  lemma PermutePairsIn(scores: seq<Bucket>, length: int, minLength: int, s: int)
    requires 1 <= minLength
    requires 0 <= length < |scores|
    requires Visited(length, minLength, s)
    ensures PairsIn(scores[s], scores[length - s], Permute(scores, length, minLength, false).scores[length])
  {
    forall a, b | a in scores[s] && b in scores[length - s]
      ensures Combine(a, b) in Permute(scores, length, minLength, false).scores[length]
    {
      PermuteComplete(scores, length, minLength, s, a, b);
    }
  }

  /** A bucket meeting `DestSpec` holds the pairs of every listed split. */
  lemma DestCovers(scores: seq<Bucket>, length: int, ss: seq<int>, d: Bucket, s: int, a: string, b: string)
    requires SplitsBelow(scores, length, ss)
    requires DestSpec(scores, length, ss, false, d)
    requires s in ss && a in scores[s] && b in scores[length - s]
    ensures Combine(a, b) in d
  {
    var i :| 0 <= i < |ss| && ss[i] == s;
  }

  /** Every text `permute` adds to or rescores in bucket `length` is the text of
      a pair from a visited split, scored with the sum of the pair's scores. */
  lemma PermuteSound(scores: seq<Bucket>, length: int, minLength: int, estimate: bool, k: string)
    requires 1 <= minLength
    requires 0 <= length < |scores|
    ensures var d := Permute(scores, length, minLength, estimate).scores[length];
      k in d ==>
        (k in scores[length] && d[k] == scores[length][k]) ||
        (exists s :: Visited(length, minLength, s) && MakesEntry(scores[s], scores[length - s], k, d[k]))
  {
    var ss := Splits(length, minLength, length - minLength);
    var d := Permute(scores, length, minLength, estimate).scores[length];
    ApplySplitsDest(scores, length, ss, estimate);
    if k in d && !(k in scores[length] && d[k] == scores[length][k]) {
      assert forall i :: 0 <= i < |ss| ==> ss[i] in ss;
      FromVisitedSplits(scores, length, minLength, ss, k, d[k]);
    }
  }

  lemma FromVisitedSplits(scores: seq<Bucket>, length: int, minLength: int, ss: seq<int>, k: string, v: int)
    requires 1 <= minLength
    requires SplitsBelow(scores, length, ss)
    requires forall i :: 0 <= i < |ss| ==> Visited(length, minLength, ss[i])
    requires FromSplits(scores, length, ss, k, v)
    ensures exists s :: Visited(length, minLength, s) && MakesEntry(scores[s], scores[length - s], k, v)
  {
    var i :| 0 <= i < |ss| && MakesEntry(scores[ss[i]], scores[length - ss[i]], k, v);
  }

  /** Every text in bucket `i` has `i` letters and no terminator. */
  ghost predicate Consistent(scores: seq<Bucket>) {
    forall i :: 0 <= i < |scores| ==> BucketConsistent(scores[i], i)
  }

  /** Every text in bucket `b` has `i` letters and no terminator. */
  ghost predicate BucketConsistent(b: Bucket, i: int) {
    forall k :: k in b ==> LetterCount(k) == i && NulFree(k)
  }

  /** The text of a pair drawn from a bucket of texts with `i` letters and
      one of texts with `j` letters has `i + j` letters; pairs of
      terminator-free texts are terminator-free. */
  lemma PairIsConsistent(left: Bucket, right: Bucket, i: int, j: int, k: string, v: int)
    requires BucketConsistent(left, i) && BucketConsistent(right, j)
    requires MakesEntry(left, right, k, v)
    ensures LetterCount(k) == i + j && NulFree(k)
  {
    var a, b :| a in left && b in right && k == Combine(a, b) && v == left[a] + right[b];
    CombineLetters(a, b);
  }
}
