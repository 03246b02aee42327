/** The ranking of the answers: the comparator `sortScores` and the
    `std::sort` call that uses it. */
module Ranking {
  import opened LexOrder

  /** A text with its score (a `WordScore`). */
  type Entry = (string, int)

  /** `sortScores(x, y)`: `x` ranks before `y` when its score is higher, or, on
      equal scores, when its text is alphabetically first. */
  predicate Before(x: Entry, y: Entry) {
    if y.1 == x.1 then Less(x.0, y.0) else y.1 < x.1
  }

  /** `Before` is a strict total order on entries. */
  lemma BeforeIsStrictTotalOrder()
    ensures forall x :: !Before(x, x)
    ensures forall x, y :: Before(x, y) ==> !Before(y, x)
    ensures forall x, y, z :: Before(x, y) && Before(y, z) ==> Before(x, z)
    ensures forall x, y :: x != y ==> Before(x, y) || Before(y, x)
  {
    LessIsStrictTotalOrder();
  }

  /** No entry is followed by one that ranks before it. */
  predicate Ranked(es: seq<Entry>) {
    forall i, j :: 0 <= i < j < |es| ==> !Before(es[j], es[i])
  }

  /** No element occurs twice. */
  predicate Distinct<T(==)>(xs: seq<T>) {
    forall i, j :: 0 <= i < j < |xs| ==> xs[i] != xs[j]
  }

  /** Putting an element that does not occur in front of a list without
      repeats gives a list without repeats. */
  lemma DistinctCons<T>(h: T, t: seq<T>)
    requires Distinct(t) && h !in t
    ensures Distinct([h] + t)
  {
    assert forall j :: 0 <= j < |t| ==> ([h] + t)[j + 1] == t[j];
  }

  /** Inserts an entry into a ranked list, behind every entry that ranks before it. */
  function InsertEntry(e: Entry, es: seq<Entry>): (r: seq<Entry>)
    requires Ranked(es)
    ensures Ranked(r)
    ensures multiset(r) == multiset(es) + multiset{e}
    decreases |es|
  {
    if |es| == 0 || !Before(es[0], e) then
      InsertFrontRanked(e, es);
      [e] + es
    else
      var rest := InsertEntry(e, es[1..]);
      assert es == [es[0]] + es[1..];
      InsertBehindRanked(es[0], e, es[1..], rest);
      [es[0]] + rest
  }

  /** Inserting an entry that does not occur into a list without repeats gives
      a list without repeats. */
  lemma {:induction false} InsertEntryDistinct(e: Entry, es: seq<Entry>)
    requires Ranked(es) && Distinct(es) && e !in es
    ensures Distinct(InsertEntry(e, es))
    decreases |es|
  {
    if |es| == 0 || !Before(es[0], e) {
      DistinctCons(e, es);
    } else {
      var tail := es[1..];
      assert es == [es[0]] + tail;
      assert Ranked(tail) && Distinct(tail) by {
        assert forall i :: 0 <= i < |tail| ==> tail[i] == es[i + 1];
      }
      var rest := InsertEntry(e, tail);
      InsertEntryDistinct(e, tail);
      assert es[0] !in multiset(rest);
      DistinctCons(es[0], rest);
    }
  }

  lemma InsertFrontRanked(e: Entry, es: seq<Entry>)
    requires Ranked(es)
    requires |es| == 0 || !Before(es[0], e)
    ensures Ranked([e] + es)
  {
    BeforeIsStrictTotalOrder();
    forall j | 0 <= j < |es|
      ensures !Before(es[j], e)
    {
      if j > 0 {
        assert !Before(es[j], es[0]);
      }
    }
  }

  lemma InsertBehindRanked(h: Entry, e: Entry, tail: seq<Entry>, rest: seq<Entry>)
    requires Ranked([h] + tail) && Ranked(rest)
    requires Before(h, e)
    requires multiset(rest) == multiset(tail) + multiset{e}
    ensures Ranked([h] + rest)
  {
    BeforeIsStrictTotalOrder();
    forall j | 0 <= j < |rest|
      ensures !Before(rest[j], h)
    {
      assert rest[j] in multiset(rest);
      if rest[j] != e {
        assert rest[j] in multiset(tail);
        var t :| 0 <= t < |tail| && tail[t] == rest[j];
        var ht := [h] + tail;
        assert ht[0] == h && ht[t + 1] == rest[j];
        assert !Before(ht[t + 1], ht[0]);
      }
    }
  }

  /** The answers after `std::sort(answers.begin(), answers.end(), sortScores)`,
      here computed by insertion. */
  function Rank(es: seq<Entry>): (r: seq<Entry>)
    ensures Ranked(r)
    ensures multiset(r) == multiset(es)
    ensures Distinct(es) ==> Distinct(r)
    decreases |es|
  {
    if |es| == 0 then []
    else
      var rest := Rank(es[1..]);
      assert es == [es[0]] + es[1..];
      if Distinct(es) then
        assert es[0] !in multiset(rest);
        InsertEntryDistinct(es[0], rest);
        InsertEntry(es[0], rest)
      else InsertEntry(es[0], rest)
  }

  /** Two ranked lists holding the same entries are the same list: the ranking
      does not depend on the sorting algorithm. */
  lemma {:induction false} RankedUnique(a: seq<Entry>, b: seq<Entry>)
    requires Ranked(a) && Ranked(b)
    requires multiset(a) == multiset(b)
    ensures a == b
    decreases |a|
  {
    assert |b| == |multiset(b)| == |multiset(a)| == |a|;
    if |a| != 0 {
      BeforeIsStrictTotalOrder();
      assert a[0] == b[0] by {
        assert b[0] in multiset(a);
        var i :| 0 <= i < |a| && a[i] == b[0];
        assert a[0] in multiset(b);
        var j :| 0 <= j < |b| && b[j] == a[0];
      }
      assert a == [a[0]] + a[1..];
      assert b == [b[0]] + b[1..];
      assert multiset(a[1..]) == multiset(a) - multiset{a[0]};
      assert multiset(b[1..]) == multiset(b) - multiset{b[0]};
      RankedUnique(a[1..], b[1..]);
    }
  }

  /** Without repeated entries, a ranked list is strictly ordered by `Before`. */
  lemma RankedIsStrict(es: seq<Entry>)
    requires Ranked(es)
    requires Distinct(es)
    ensures forall i, j :: 0 <= i < j < |es| ==> Before(es[i], es[j])
  {
    BeforeIsStrictTotalOrder();
  }
}
