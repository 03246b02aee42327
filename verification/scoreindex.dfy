/** The solver's state and how it is filled: the constructor `Solver::Solver`
    sets up one empty score bucket per letter count, and `Solver::seed` files
    dictionary lines into the bucket of their length. */
module ScoreIndex {
  import opened Letters
  import opened Containment

  /** Texts of one length, each with its score (a `std::map<std::string, int>`). */
  type Bucket = map<string, int>

  /** The fields of a `Solver`: the raw query, its key, the key's length, and
      the score buckets `scores[0..maxLength]`. */
  datatype Solver = Solver(query: string, sortedQuery: string, maxLength: int, scores: seq<Bucket>)

  /** What the constructor establishes and no operation breaks. */
  predicate Valid(s: Solver) {
    && s.sortedQuery == Sanitize(s.query)
    && s.maxLength == |s.sortedQuery|
    && |s.scores| == s.maxLength + 1
  }

  /** `Solver::Solver(query)`. */
  function New(query: string): (s: Solver)
    ensures Valid(s) && s.query == query
    ensures s.maxLength == LetterCount(query)
    ensures |s.scores| == LetterCount(query) + 1
    ensures forall i :: 0 <= i < |s.scores| ==> s.scores[i] == map[]
  {
    var key := Sanitize(query);
    Solver(query, key, |key|, seq(|key| + 1, _ => map[]))
  }

  /** The filter `seed` applies to a line: no longer than the query key, and
      passing the containment test. The length counts spaces. */
  predicate Accepts(s: Solver, line: string) {
    |line| <= s.maxLength && QueryContains(s.sortedQuery, line)
  }

  /** One pass of the `seed` loop body. */
  function SeedLine(s: Solver, line: string): (r: Solver)
    requires Valid(s)
    ensures Valid(r) && r.query == s.query
    ensures |r.scores| == |s.scores|
    ensures forall i :: 0 <= i < |s.scores| && i != |line| ==> r.scores[i] == s.scores[i]
    ensures Accepts(s, line) ==> line in r.scores[|line|] && r.scores[|line|][line] == |line| * |line|
    ensures !Accepts(s, line) ==> r == s
    ensures Accepts(s, line) ==> forall k :: k != line ==>
      (k in r.scores[|line|] <==> k in s.scores[|line|])
      && (k in r.scores[|line|] ==> r.scores[|line|][k] == s.scores[|line|][k])
  {
    var n := |line|;
    if n > s.maxLength then s
    else if !QueryContains(s.sortedQuery, line) then s
    else
      var b := s.scores[n][line := n * n];
      Solver(s.query, s.sortedQuery, s.maxLength, s.scores[n := b])
  }

  /** Whether some line of `lines` is `k`, is `i` characters long and passes the filter. */
  predicate Seeds(s: Solver, lines: seq<string>, i: int, k: string) {
    k in lines && |k| == i && Accepts(s, k)
  }

  /** The `seed` loop over every line, in order. */
  function SeedLines(s: Solver, lines: seq<string>): (r: Solver)
    requires Valid(s)
    ensures Valid(r) && r.query == s.query
    decreases |lines|
  {
    if |lines| == 0 then s
    else SeedLines(SeedLine(s, lines[0]), lines[1..])
  }

  /** After the loop, bucket `i` holds the texts it held before and the
      accepted lines of length `i`; an accepted line is scored `i * i`, even if
      the bucket held it already, and every other text keeps its score. */
  lemma SeedLinesSpec(s: Solver, lines: seq<string>)
    requires Valid(s)
    ensures var r := SeedLines(s, lines);
      && (forall i, k :: 0 <= i < |s.scores| ==>
            (k in r.scores[i] <==> k in s.scores[i] || Seeds(s, lines, i, k)))
      && (forall i, k :: 0 <= i < |s.scores| && k in r.scores[i] ==>
            r.scores[i][k] == if Seeds(s, lines, i, k) then i * i else s.scores[i][k])
  {
    forall i, k | 0 <= i < |s.scores| {
      SeedLinesAt(s, lines, i, k);
    }
  }

  /** `SeedLinesSpec` for one bucket and one text. */
  lemma {:induction false} SeedLinesAt(s: Solver, lines: seq<string>, i: int, k: string)
    requires Valid(s) && 0 <= i < |s.scores|
    ensures var r := SeedLines(s, lines);
      && (k in r.scores[i] <==> k in s.scores[i] || Seeds(s, lines, i, k))
      && (k in r.scores[i] ==> r.scores[i][k] == if Seeds(s, lines, i, k) then i * i else s.scores[i][k])
    decreases |lines|
  {
    if |lines| > 0 {
      var next := SeedLine(s, lines[0]);
      SeedLinesAt(next, lines[1..], i, k);
      SeedStep(s, next, SeedLines(next, lines[1..]), lines, i, k);
    }
  }

  /** One pass of the loop followed by the rest of it, at bucket `i` and text `k`. */
  lemma SeedStep(s: Solver, next: Solver, r: Solver, lines: seq<string>, i: int, k: string)
    requires |lines| > 0 && 0 <= i < |s.scores| == |next.scores| == |r.scores|
    requires next.sortedQuery == s.sortedQuery && next.maxLength == s.maxLength
    requires var hit := k == lines[0] && |k| == i && Accepts(s, k);
      && (k in next.scores[i] <==> k in s.scores[i] || hit)
      && (k in next.scores[i] ==> next.scores[i][k] == if hit then i * i else s.scores[i][k])
    requires k in r.scores[i] <==> k in next.scores[i] || Seeds(next, lines[1..], i, k)
    requires k in r.scores[i] ==>
      r.scores[i][k] == if Seeds(next, lines[1..], i, k) then i * i else next.scores[i][k]
    ensures k in r.scores[i] <==> k in s.scores[i] || Seeds(s, lines, i, k)
    ensures k in r.scores[i] ==> r.scores[i][k] == if Seeds(s, lines, i, k) then i * i else s.scores[i][k]
  {
    assert Accepts(next, k) == Accepts(s, k);
    assert k in lines <==> k == lines[0] || k in lines[1..] by {
      assert lines == [lines[0]] + lines[1..];
    }
  }

  /** Where the dictionary lines come from: a source that could not be opened,
      or the lines read from it. */
  datatype Source = Unavailable | Lines(lines: seq<string>)

  /** `Solver::seed`: reports whether the source was available, and runs the
      loop over its lines if it was. */
  function Seed(s: Solver, source: Source): (r: (bool, Solver))
    requires Valid(s)
    ensures r.0 <==> source.Lines?
    ensures !r.0 ==> r.1 == s
    ensures Valid(r.1) && r.1.query == s.query
  {
    match source
    case Unavailable => (false, s)
    case Lines(lines) => (true, SeedLines(s, lines))
  }

  /** Seeding from lines files every accepted line into the bucket of its
      length with score length squared, and keeps every other text and score. */
  lemma SeedSpec(s: Solver, lines: seq<string>)
    requires Valid(s)
    ensures var r := Seed(s, Lines(lines)).1;
      && (forall i, k :: 0 <= i < |s.scores| ==>
            (k in r.scores[i] <==> k in s.scores[i] || Seeds(s, lines, i, k)))
      && (forall i, k :: 0 <= i < |s.scores| && k in r.scores[i] ==>
            r.scores[i][k] == if Seeds(s, lines, i, k) then i * i else s.scores[i][k])
  {
    SeedLinesSpec(s, lines);
  }

  /** Seeding a fresh solver: bucket `i` holds exactly the accepted lines of
      length `i`, each scored `i * i`. */
  lemma SeedFresh(query: string, lines: seq<string>)
    ensures var s := New(query); var r := Seed(s, Lines(lines)).1;
      forall i, k :: 0 <= i < |r.scores| ==>
        (k in r.scores[i] <==> Seeds(s, lines, i, k))
        && (k in r.scores[i] ==> r.scores[i][k] == i * i)
  {
    SeedSpec(New(query), lines);
  }
}
