/** The containment test `Solver::queryContains`: a single forward two-pointer
    scan of the sorted query key against the sorted key of a candidate word. */
module Containment {
  import opened Letters

  /** The terminator of a C string. */
  const Nul: char := '\0'

  predicate NulFree(s: string) {
    Nul !in s
  }

  /** What dereferencing a `const char *` cursor into a C string yields: the
      character under it, or the terminator once it has run off the end. */
  function Deref(s: string): char {
    if |s| == 0 then Nul else s[0]
  }

  /** The loop of `queryContains`: `q` and `w` are what remains of the query key
      and of the word key under their cursors. The query cursor always moves on;
      the word cursor moves on when the two characters agree; the scan succeeds
      as soon as the word cursor sees a terminator and fails when the query
      cursor does first. */
  function Scan(q: string, w: string): bool
    decreases |q|
  {
    if Deref(q) == Nul then false
    else
      var w' := if Deref(w) == Deref(q) then w[1..] else w;
      if Deref(w') == Nul then true else Scan(q[1..], w')
  }

  /** `Solver::queryContains(word)` against the sorted query `key`. The empty
      word is rejected outright; otherwise the word is sanitized and scanned. */
  function QueryContains(key: string, word: string): (r: bool)
    ensures |word| == 0 ==> !r
    ensures |key| == 0 ==> !r
  {
    if |word| == 0 then false else Scan(key, Sanitize(word))
  }

  /** On sorted, terminator-free keys, the greedy scan succeeds exactly when the
      word's letters form a sub-multiset of the query's. */
  lemma {:induction false} ScanIsSubMultiset(q: string, w: string)
    requires Sorted(q) && Sorted(w)
    requires NulFree(q) && NulFree(w)
    requires |w| > 0
    ensures Scan(q, w) <==> multiset(w) <= multiset(q)
    decreases |q|
  {
    assert w[0] in w;
    if |q| == 0 {
      assert w[0] in multiset(w);
    } else {
      assert q[0] in q;
      if w[0] == q[0] {
        MatchedHeads(q, w);
        if |w| > 1 {
          assert w[1] in w;
          ScanIsSubMultiset(q[1..], w[1..]);
        }
      } else {
        UnmatchedHeads(q, w);
        ScanIsSubMultiset(q[1..], w);
      }
    }
  }

  /** Equal heads cancel out of the sub-multiset question. */
  lemma MatchedHeads(q: string, w: string)
    requires |q| > 0 && |w| > 0 && w[0] == q[0]
    ensures multiset(w) <= multiset(q) <==> multiset(w[1..]) <= multiset(q[1..])
  {
    assert q == [q[0]] + q[1..];
    assert w == [w[0]] + w[1..];
    var c, a, b := q[0], multiset(w[1..]), multiset(q[1..]);
    assert multiset(q) == b + multiset{c};
    assert multiset(w) == a + multiset{c};
    if a + multiset{c} <= b + multiset{c} {
      forall x
        ensures a[x] <= b[x]
      {
        assert (a + multiset{c})[x] <= (b + multiset{c})[x];
      }
    }
  }

  /** When the heads of two sorted texts differ, the query's head is of no use
      to the word: either the word's head is missing from the query altogether,
      or the query's head is missing from the word. */
  lemma UnmatchedHeads(q: string, w: string)
    requires Sorted(q) && Sorted(w)
    requires |q| > 0 && |w| > 0 && w[0] != q[0]
    ensures multiset(w) <= multiset(q) <==> multiset(w) <= multiset(q[1..])
  {
    assert q == [q[0]] + q[1..];
    assert multiset(q) == multiset{q[0]} + multiset(q[1..]);
    assert w[0] in multiset(w);
    if w[0] < q[0] {
      CharBelowHeadAbsent(w[0], q);
      assert multiset(q[1..])[w[0]] == 0;
    } else {
      CharBelowHeadAbsent(q[0], w);
    }
  }

  /** A character below the head of a sorted text does not occur in it. */
  lemma CharBelowHeadAbsent(c: char, w: string)
    requires Sorted(w) && |w| > 0 && c < w[0]
    ensures multiset(w)[c] == 0
  {
    forall j | 0 <= j < |w|
      ensures w[j] != c
    {
      assert w[0] <= w[j];
    }
    assert c !in w;
  }

  /** A terminator in a word sorts to the front of its key. */
  lemma NulSortsFirst(word: string)
    requires Nul in word
    ensures |Sanitize(word)| > 0 && Sanitize(word)[0] == Nul
  {
    var key := Sanitize(word);
    assert Nul in multiset(word);
    assert Nul in multiset(key);
    var j :| 0 <= j < |key| && key[j] == Nul;
    assert key[0] <= key[j];
  }

  /** The containment test: a non-empty word passes a non-empty query key exactly
      when its letters, spaces not counted, are a sub-multiset of the key's. The
      empty word fails, and so does every word against an empty key. */
  lemma QueryContainsSpec(key: string, word: string)
    requires Sorted(key) && NulFree(key) && NulFree(word)
    ensures QueryContains(key, word) <==>
      |word| > 0 && |key| > 0 && LetterBag(word) <= multiset(key)
  {
    if |word| > 0 {
      var w := Sanitize(word);
      assert multiset(w)[Nul] == multiset(word)[Nul] == 0;
      assert NulFree(w);
      if |w| > 0 {
        ScanIsSubMultiset(key, w);
      }
    }
  }

  /** A word of spaces only has no letters, yet passes every non-empty key: the
      scan sees the word's terminator after its first step. */
  lemma AllSpaceWordPasses(key: string, word: string)
    requires |word| > 0 && forall i :: 0 <= i < |word| ==> word[i] == Space
    requires |key| > 0 && NulFree(key)
    ensures LetterBag(word) == multiset{}
    ensures QueryContains(key, word)
  {
    assert key[0] in key;
    OnlySpaces(word);
  }

  /** A text of spaces only has nothing left once its spaces are erased. */
  lemma {:induction false} OnlySpaces(word: string)
    requires forall i :: 0 <= i < |word| ==> word[i] == Space
    ensures RemoveSpaces(word) == []
    decreases |word|
  {
    if |word| > 0 {
      OnlySpaces(word[1..]);
    }
  }

  /** A word holding a terminator passes every non-empty key, whatever its other
      letters: its key starts with the terminator, so the scan sees an empty word. */
  lemma NulWordPasses(key: string, word: string)
    requires Nul in word
    requires |key| > 0 && NulFree(key)
    ensures QueryContains(key, word)
  {
    assert key[0] in key;
    NulSortsFirst(word);
  }
}
