/** The run `main` makes (construct, seed, solve) and what it promises end to
    end: every answer it lists uses exactly the query's letters (for a
    dictionary of single words), every single word and every two-word phrase
    with long enough parts is found, and the places where the letter test lets
    other texts through. */
module Program {
  import opened Letters
  import opened Containment
  import opened ScoreIndex
  import opened Combiner
  import opened Ranking
  import opened Solve

  /** The whole run for a query: build the solver, seed it from the
      dictionary source (its success flag is ignored), then solve. */
  function Pipeline(query: string, source: Source): (r: Solution)
    ensures Valid(r.solver) && r.solver.query == query
    ensures r.solver.sortedQuery == Sanitize(query)
    ensures |r.solver.scores| == LetterCount(query) + 1
  {
    Solve.Solve(Seed(New(query), source).1)
  }

  /** A dictionary of single words: no line holds a space or a terminator. */
  predicate SingleWords(lines: seq<string>) {
    forall k :: k in lines ==> Space !in k && NulFree(k)
  }

  /** The table as `solve` leaves it, for `main`'s run on `query`. */
  function FinalTable(query: string, source: Source): (t: seq<Bucket>)
    ensures t == Pipeline(query, source).solver.scores
  {
    var s := Seed(New(query), source).1;
    PermuteFrom(s.scores, 0, MinLength(|s.sortedQuery|)).scores
  }

  /** Seeding a fresh solver from single words gives a consistent table: every
      text sits in the bucket of its letter count. */
  lemma SeededConsistent(query: string, lines: seq<string>)
    requires SingleWords(lines)
    ensures Consistent(Seed(New(query), Lines(lines)).1.scores)
  {
    var r := Seed(New(query), Lines(lines)).1;
    SeedFresh(query, lines);
    forall i | 0 <= i < |r.scores|
      ensures BucketConsistent(r.scores[i], i)
    {
      forall k | k in r.scores[i]
        ensures LetterCount(k) == i && NulFree(k)
      {
        LetterCountNoSpaces(k);
      }
    }
  }

  /** The final table of a run on single words is consistent. */
  lemma FinalConsistent(query: string, lines: seq<string>)
    requires SingleWords(lines)
    ensures Consistent(FinalTable(query, Lines(lines)))
  {
    var s := Seed(New(query), Lines(lines)).1;
    var m := MinLength(|s.sortedQuery|);
    SeededConsistent(query, lines);
    PermuteFromSound(s.scores, 0, m);
    DerivedIsConsistent(s.scores, PermuteFrom(s.scores, 0, m).scores, m);
  }

  /** A terminator-free text with as many letters as the query key, whose
      letters the key contains, is an anagram of the query. */
  lemma ContainedFullLengthIsAnagram(query: string, k: string)
    requires NulFree(query) && NulFree(k)
    requires LetterCount(k) == LetterCount(query)
    requires QueryContains(Sanitize(query), k)
    ensures LetterBag(k) == LetterBag(query)
    ensures Sanitize(k) == Sanitize(query)
  {
    var key := Sanitize(query);
    assert multiset(key)[Nul] == 0;
    QueryContainsSpec(key, k);
    SubBagOfSameSize(LetterBag(k), multiset(key));
    SanitizeDecidesAnagram(k, query);
  }

  /** Soundness: on a dictionary of single words, every answer uses exactly
      the letters of the query, spaces aside. */
  lemma AnswersAreAnagrams(query: string, lines: seq<string>)
    requires NulFree(query) && SingleWords(lines)
    ensures forall e :: e in Pipeline(query, Lines(lines)).answers ==>
      LetterBag(e.0) == LetterBag(query) && Sanitize(e.0) == Sanitize(query)
  {
    var r := Pipeline(query, Lines(lines));
    var t := FinalTable(query, Lines(lines));
    FinalConsistent(query, lines);
    var n := LetterCount(query);
    forall e | e in r.answers
      ensures LetterBag(e.0) == LetterBag(query) && Sanitize(e.0) == Sanitize(query)
    {
      assert e.0 in t[n];
      assert BucketConsistent(t[n], n);
      ContainedFullLengthIsAnagram(query, e.0);
    }
  }

  /** A dictionary word whose letters the query holds passes the filter of
      `seed`. */
  lemma SubWordAccepted(query: string, w: string)
    requires NulFree(query) && Space !in w && NulFree(w) && |w| > 0
    requires LetterBag(w) <= LetterBag(query)
    ensures Accepts(New(query), w)
  {
    var key := Sanitize(query);
    assert multiset(key)[Nul] == 0;
    LetterCountNoSpaces(w);
    SubBagSize(LetterBag(w), LetterBag(query));
    QueryContainsSpec(key, w);
  }

  /** Every dictionary word (a line without a space or terminator) whose
      letters the query holds is seeded into the bucket of its length with
      score length squared, whatever the other lines are. */
  lemma SubWordSeeded(query: string, lines: seq<string>, w: string)
    requires NulFree(query) && Space !in w && NulFree(w)
    requires w in lines && |w| > 0
    requires LetterBag(w) <= LetterBag(query)
    ensures var s := Seed(New(query), Lines(lines)).1;
      |w| < |s.scores| && w in s.scores[|w|] && s.scores[|w|][w] == |w| * |w|
  {
    SubWordAccepted(query, w);
    SeedFresh(query, lines);
  }

  /** A text without a space is never the text of a pair. */
  lemma NoPairWithoutSpace(left: Bucket, right: Bucket, k: string, v: int)
    requires Space !in k
    ensures !MakesEntry(left, right, k, v)
  {
    forall a, b | a in left && b in right
      ensures k != Combine(a, b)
    {
      CombineLetters(a, b);
    }
  }

  /** Completeness for single words: a dictionary word that is an anagram of
      the query is listed, scored with its length squared, whatever the other
      lines are. */
  lemma SingleWordFound(query: string, lines: seq<string>, w: string)
    requires NulFree(query) && Space !in w && NulFree(w)
    requires w in lines && |w| > 0
    requires LetterBag(w) == LetterBag(query)
    ensures (w, |w| * |w|) in Pipeline(query, Lines(lines)).answers
  {
    var s := Seed(New(query), Lines(lines)).1;
    var m := MinLength(|s.sortedQuery|);
    var t := FinalTable(query, Lines(lines));
    var n := |w|;
    SubWordSeeded(query, lines, w);
    LetterCountNoSpaces(w);
    assert n == s.maxLength;
    PermuteFromKeeps(s.scores, 0, m);
    PermuteFromSound(s.scores, 0, m);
    assert Kept(s.scores, t, n, w);
    assert DerivedEntry(s.scores, t, m, n, w);
    forall i | Visited(n, m, i)
      ensures !MakesEntry(t[i], t[n - i], w, t[n][w])
    {
      NoPairWithoutSpace(t[i], t[n - i], w, t[n][w]);
    }
    assert t[n][w] == n * n;
    var key := Sanitize(query);
    assert multiset(key)[Nul] == 0;
    QueryContainsSpec(key, w);
  }

  /** A pair of single words that together use exactly the query's letters
      passes the containment test. */
  lemma PhrasePasses(query: string, a: string, b: string)
    requires NulFree(query) && NulFree(a) && NulFree(b)
    requires Space !in a && |a| > 0
    requires LetterBag(a) + LetterBag(b) == LetterBag(query)
    ensures QueryContains(Sanitize(query), Combine(a, b))
  {
    var key := Sanitize(query);
    assert multiset(key)[Nul] == 0;
    LetterCountNoSpaces(a);
    assert |multiset(key)| >= |LetterBag(a)|;
    CombineLetters(a, b);
    QueryContainsSpec(key, Combine(a, b));
  }

  /** If the seeded table holds `a` and `b` in the buckets of their lengths,
      the final table, which keeps every seeded text and is closed under
      pairing, holds the phrase "a b" in the bucket of both lengths together. */
  lemma PhraseBuilt(init: seq<Bucket>, t: seq<Bucket>, minLength: int, a: string, b: string, n: int)
    requires 1 <= minLength && Grows(init, t) && Closed(t, 0, minLength)
    requires n == |a| + |b| && n < |t| && Visited(n, minLength, |a|)
    requires a in init[|a|] && b in init[|b|]
    ensures Combine(a, b) in t[n]
  {
    assert n - |a| == |b|;
    assert Kept(init, t, |a|, a) && Kept(init, t, |b|, b);
    assert PairsIn(t[|a|], t[n - |a|], t[n]);
  }

  /** Completeness for two words: for dictionary words `a` and `b` whose
      letters together are the query's, with `b` no longer than `a` and at
      least the shortest part long, the phrase "a b" is listed, whatever the
      other lines are. */
  lemma TwoWordPhraseFound(query: string, lines: seq<string>, a: string, b: string)
    requires NulFree(query) && Space !in a && NulFree(a) && Space !in b && NulFree(b)
    requires a in lines && b in lines
    requires LetterBag(a) + LetterBag(b) == LetterBag(query)
    requires MinLength(LetterCount(query)) <= |b| <= |a|
    ensures exists v :: (Combine(a, b), v) in Pipeline(query, Lines(lines)).answers
  {
    PhraseLength(query, a, b);
    SubWordSeeded(query, lines, a);
    SubWordSeeded(query, lines, b);
    var k := Combine(a, b);
    PhraseInFinal(query, Lines(lines), a, b);
    PhrasePasses(query, a, b);
    Listed(query, Lines(lines), k);
  }

  /** Two single words that together use exactly the query's letters are as
      long together as the query's key. */
  lemma PhraseLength(query: string, a: string, b: string)
    requires Space !in a && Space !in b
    requires LetterBag(a) + LetterBag(b) == LetterBag(query)
    ensures |a| + |b| == LetterCount(query)
  {
    LetterCountNoSpaces(a);
    LetterCountNoSpaces(b);
  }

  /** The final table holds the phrase "a b" when the seeded table holds `a`
      and `b` and the split of the query's bucket into their lengths is
      visited. */
  lemma PhraseInFinal(query: string, source: Source, a: string, b: string)
    requires |a| + |b| == LetterCount(query)
    requires MinLength(LetterCount(query)) <= |b| <= |a|
    requires var s := Seed(New(query), source).1;
      a in s.scores[|a|] && b in s.scores[|b|]
    ensures Combine(a, b) in FinalTable(query, source)[LetterCount(query)]
  {
    var s := Seed(New(query), source).1;
    var m := MinLength(|s.sortedQuery|);
    PermuteFromKeeps(s.scores, 0, m);
    PermuteFromClosed(s.scores, 0, m);
    PhraseBuilt(s.scores, FinalTable(query, source), m, a, b, LetterCount(query));
  }

  /** A text of the final query bucket that passes the containment test is
      listed with its score. */
  lemma Listed(query: string, source: Source, k: string)
    requires var t := FinalTable(query, source);
      k in t[LetterCount(query)] && QueryContains(Sanitize(query), k)
    ensures var t := FinalTable(query, source);
      (k, t[LetterCount(query)][k]) in Pipeline(query, source).answers
  {
  }

  /** A query of fewer than six letters leaves every split out of reach: the
      shortest part is three, so the run lists dictionary words only. */
  lemma ShortQueryKeepsSeeds(query: string, source: Source)
    requires LetterCount(query) < 6
    ensures FinalTable(query, source) == Seed(New(query), source).1.scores
  {
    var s := Seed(New(query), source).1;
    PermuteFromIdle(s.scores, 0, MinLength(|s.sortedQuery|));
  }

  /** Without a dictionary the run lists nothing. */
  lemma UnavailableSourceNoAnswers(query: string)
    ensures Pipeline(query, Unavailable).answers == []
  {
    var s := New(query);
    PermuteFromIdle(s.scores, 0, MinLength(|s.sortedQuery|));
    var answers := Pipeline(query, Unavailable).answers;
    assert FinalTable(query, Unavailable)[s.maxLength] == map[];
    assert forall e :: e !in answers;
    assert multiset(answers) == multiset{};
  }

  /** Every dictionary line whose letters the query holds and whose length in
      characters, spaces included, is the query's letter count ends up listed:
      `seed` files lines by their raw length while the letter test ignores
      spaces. */
  lemma FullLengthLineListed(query: string, lines: seq<string>, line: string)
    requires NulFree(query) && NulFree(line)
    requires line in lines && |line| == LetterCount(query) > 0
    requires LetterBag(line) <= LetterBag(query)
    ensures exists v :: (line, v) in Pipeline(query, Lines(lines)).answers
  {
    var s := New(query);
    var key := Sanitize(query);
    assert multiset(key)[Nul] == 0;
    QueryContainsSpec(key, line);
    assert Accepts(s, line);
    SeedSpec(s, lines);
    var seeded := Seed(s, Lines(lines)).1;
    var n := LetterCount(query);
    assert line in seeded.scores[n];
    PermuteFromKeeps(seeded.scores, 0, MinLength(|seeded.sortedQuery|));
    assert Kept(seeded.scores, FinalTable(query, Lines(lines)), n, line);
    Listed(query, Lines(lines), line);
  }

  /** For the query "abcd" the line "ab c", three letters and a space, is
      listed though it is no anagram. */
  lemma SpacedLineListed(query: string, line: string)
    requires query == "abcd" && line == "ab c"
    ensures exists v :: (line, v) in Pipeline(query, Lines([line])).answers
    ensures LetterBag(line) != LetterBag(query)
  {
    SpacedLineFacts(query, line);
    FullLengthLineListed(query, [line], line);
  }

  lemma SpacedLineFacts(query: string, line: string)
    requires query == "abcd" && line == "ab c"
    ensures NulFree(query) && NulFree(line)
    ensures |line| == LetterCount(query) > 0
    ensures LetterBag(line) <= LetterBag(query) && LetterBag(line) != LetterBag(query)
  {
    AbcdLetters();
    LetterCountNoSpaces(query);
    SpacedLetters();
  }

  lemma AbcdLetters()
    ensures Space !in "abcd" && NulFree("abcd")
    ensures multiset("abcd") == multiset{'a', 'b', 'c', 'd'}
  {
  }

  lemma SpacedLetters()
    ensures NulFree("ab c")
    ensures LetterBag("ab c") == multiset{'a', 'b', 'c'}
  {
  }

  /** The query's bucket can hold texts that are not anagrams, and the final
      letter test is what keeps them out: for the query "abcdef" and the words
      "abc" and "abd", the phrase "abc abd" is built but not listed. */
  lemma UnlistedPhrase(query: string, a: string, b: string)
    requires query == "abcdef" && a == "abc" && b == "abd"
    ensures Combine(a, b) in FinalTable(query, Lines([a, b]))[LetterCount(query)]
    ensures forall v :: (Combine(a, b), v) !in Pipeline(query, Lines([a, b])).answers
  {
    var lines := [a, b];
    UnlistedPhraseFacts(query, a, b);
    SubWordSeeded(query, lines, a);
    SubWordSeeded(query, lines, b);
    PhraseInFinal(query, Lines(lines), a, b);
    PhraseFails(query, a, b);
  }

  lemma UnlistedPhraseFacts(query: string, a: string, b: string)
    requires query == "abcdef" && a == "abc" && b == "abd"
    ensures SingleWords([a, b]) && NulFree(query)
    ensures LetterBag(a) <= LetterBag(query) && LetterBag(b) <= LetterBag(query)
    ensures |a| + |b| == LetterCount(query) && MinLength(LetterCount(query)) <= |b| <= |a|
    ensures !(LetterBag(Combine(a, b)) <= LetterBag(query))
  {
    AbcdefLetters();
    TwoSingleWords(a, b);
    LetterCountNoSpaces(query);
    LetterCountNoSpaces(a);
    LetterCountNoSpaces(b);
    CombineLetters(a, b);
  }

  lemma TwoSingleWords(a: string, b: string)
    requires Space !in a && Space !in b && NulFree(a) && NulFree(b)
    ensures SingleWords([a, b])
  {
  }

  lemma AbcdefLetters()
    ensures Space !in "abcdef" && NulFree("abcdef")
    ensures Space !in "abc" && Space !in "abd" && NulFree("abc") && NulFree("abd")
    ensures multiset("abc") <= multiset("abcdef") && multiset("abd") <= multiset("abcdef")
    ensures !(multiset("abc") + multiset("abd") <= multiset("abcdef"))
  {
    assert (multiset("abc") + multiset("abd"))['a'] == 2;
  }

  /** A text whose letters the query does not hold fails the letter test. */
  lemma PhraseFails(query: string, a: string, b: string)
    requires NulFree(query) && NulFree(a) && NulFree(b)
    requires !(LetterBag(Combine(a, b)) <= LetterBag(query))
    ensures !QueryContains(Sanitize(query), Combine(a, b))
  {
    var key := Sanitize(query);
    assert multiset(key)[Nul] == 0;
    CombineLetters(a, b);
    QueryContainsSpec(key, Combine(a, b));
  }
}
