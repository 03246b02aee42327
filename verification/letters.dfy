/** Letter multiset keys: the canonical form `Solver::sanitize` gives a word or a
    space-joined phrase. Spaces are erased and the remaining characters sorted, so
    two texts have the same key exactly when they use the same letters. */
module Letters {

  const Space: char := ' '

  /** Characters in ascending order (repeats allowed). */
  predicate Sorted(s: string) {
    forall i, j :: 0 <= i < j < |s| ==> s[i] <= s[j]
  }

  /** The letters of a text: its characters as a multiset, spaces not counted. */
  function LetterBag(s: string): multiset<char> {
    multiset(s)[Space := 0]
  }

  /** The text with every space erased and every other character kept in order
      (the erase/remove idiom on a copy of the word). */
  function RemoveSpaces(s: string): (r: string)
    ensures Space !in r
    ensures multiset(r) == LetterBag(s)
  {
    if |s| == 0 then []
    else
      assert s == [s[0]] + s[1..];
      if s[0] == Space then RemoveSpaces(s[1..]) else [s[0]] + RemoveSpaces(s[1..])
  }

  /** Number of non-space characters of a text. */
  function LetterCount(s: string): nat {
    |LetterBag(s)|
  }

  /** Erasing spaces distributes over concatenation. */
  lemma {:induction false} RemoveSpacesAppend(a: string, b: string)
    ensures RemoveSpaces(a + b) == RemoveSpaces(a) + RemoveSpaces(b)
    decreases |a|
  {
    if |a| == 0 {
      assert a + b == b;
    } else {
      assert (a + b)[0] == a[0];
      assert (a + b)[1..] == a[1..] + b;
      RemoveSpacesAppend(a[1..], b);
    }
  }

  /** A text without spaces has as many letters as characters. */
  lemma LetterCountNoSpaces(s: string)
    requires Space !in s
    ensures LetterBag(s) == multiset(s)
    ensures LetterCount(s) == |s|
  {
    assert LetterBag(s) == multiset(s);
  }

  /** Inserts one character into a sorted text. */
  function Insert(c: char, s: string): (r: string)
    requires Sorted(s)
    ensures Sorted(r)
    ensures multiset(r) == multiset(s) + multiset{c}
  {
    if |s| == 0 || c <= s[0] then
      assert forall j :: 0 <= j < |s| ==> s[0] <= s[j];
      SortedCons(c, s);
      [c] + s
    else
      assert s == [s[0]] + s[1..];
      SortedTail(s);
      var rest := Insert(c, s[1..]);
      LowerBound(s[0], c, s[1..], rest);
      SortedCons(s[0], rest);
      [s[0]] + rest
  }

  /** The tail of a sorted text is sorted and sits above its head. */
  lemma SortedTail(s: string)
    requires Sorted(s) && |s| > 0
    ensures Sorted(s[1..])
    ensures forall j :: 0 <= j < |s| - 1 ==> s[0] <= s[1..][j]
  {
    var t := s[1..];
    forall i, j | 0 <= i < j < |t|
      ensures t[i] <= t[j]
    {
      assert t[i] == s[i + 1] && t[j] == s[j + 1];
    }
    forall j | 0 <= j < |t|
      ensures s[0] <= t[j]
    {
      assert t[j] == s[j + 1];
    }
  }

  /** A character no larger than any of a sorted text's, put in front of it. */
  lemma SortedCons(h: char, t: string)
    requires Sorted(t)
    requires forall j :: 0 <= j < |t| ==> h <= t[j]
    ensures Sorted([h] + t)
  {
    var r := [h] + t;
    forall i, j | 0 <= i < j < |r|
      ensures r[i] <= r[j]
    {
      assert r[j] == t[j - 1];
      if i > 0 {
        assert r[i] == t[i - 1];
      }
    }
  }

  /** Every character of a sorted text's tail, and a larger one, sit above its head. */
  lemma LowerBound(h: char, c: char, tail: string, rest: string)
    requires h < c
    requires forall j :: 0 <= j < |tail| ==> h <= tail[j]
    requires multiset(rest) == multiset(tail) + multiset{c}
    ensures forall i :: 0 <= i < |rest| ==> h <= rest[i]
  {
    forall i | 0 <= i < |rest|
      ensures h <= rest[i]
    {
      assert rest[i] in multiset(rest);
      if rest[i] != c {
        assert rest[i] in multiset(tail);
        assert rest[i] in tail;
      }
    }
  }

  /** A sorted permutation of `s`; stands for `std::sort` on a string. */
  function SortChars(s: string): (r: string)
    ensures Sorted(r)
    ensures multiset(r) == multiset(s)
    ensures |r| == |s|
  {
    if |s| == 0 then []
    else
      assert s == [s[0]] + s[1..];
      Insert(s[0], SortChars(s[1..]))
  }

  /** `Solver::sanitize`: erase the spaces, then sort what is left. */
  function Sanitize(word: string): (key: string)
    ensures Space !in key
    ensures Sorted(key)
    ensures multiset(key) == LetterBag(word)
    ensures |key| == LetterCount(word)
  {
    var key := SortChars(RemoveSpaces(word));
    assert multiset(key)[Space] == 0;
    key
  }

  /** Two sorted texts holding the same characters are the same text: a sorted
      permutation is unique, whatever sorting algorithm produced it. */
  lemma {:induction false} SortedUnique(a: string, b: string)
    requires Sorted(a) && Sorted(b)
    requires multiset(a) == multiset(b)
    ensures a == b
    decreases |a|
  {
    assert |b| == |multiset(b)| == |multiset(a)| == |a|;
    if |a| != 0 {
      HeadIsLeast(a, b);
      HeadIsLeast(b, a);
      SplitHead(a);
      SplitHead(b);
      SortedUnique(a[1..], b[1..]);
    }
  }

  /** A non-empty text is its head followed by its tail, and a sorted text has
      a sorted tail. */
  lemma SplitHead(a: string)
    requires |a| > 0
    ensures a == [a[0]] + a[1..]
    ensures multiset(a[1..]) == multiset(a) - multiset{a[0]}
    ensures Sorted(a) ==> Sorted(a[1..])
  {
    assert a == [a[0]] + a[1..];
  }

  /** The head of a sorted text is at most every character of a text with the
      same characters. */
  lemma HeadIsLeast(a: string, b: string)
    requires Sorted(a) && |a| > 0 && |b| > 0
    requires multiset(a) == multiset(b)
    ensures a[0] <= b[0]
  {
    assert b[0] in multiset(a);
    var i :| 0 <= i < |a| && a[i] == b[0];
  }

  /** Any sorted text holding exactly the letters of `word` is `Sanitize(word)`. */
  lemma SanitizeUnique(word: string, key: string)
    requires Sorted(key)
    requires multiset(key) == LetterBag(word)
    ensures key == Sanitize(word)
  {
    SortedUnique(key, Sanitize(word));
  }

  /** Sanitizing a key changes nothing. */
  lemma SanitizeIdempotent(x: string)
    ensures Sanitize(Sanitize(x)) == Sanitize(x)
  {
    var k := Sanitize(x);
    assert LetterBag(k) == multiset(k);
    SanitizeUnique(k, k);
  }

  /** Two texts share a key exactly when they use the same letters: the key
      decides anagrams. */
  lemma SanitizeDecidesAnagram(a: string, b: string)
    ensures Sanitize(a) == Sanitize(b) <==> LetterBag(a) == LetterBag(b)
  {
    if LetterBag(a) == LetterBag(b) {
      SortedUnique(Sanitize(a), Sanitize(b));
    }
  }

  /** A sub-multiset is no larger than the multiset. */
  lemma SubBagSize(x: multiset<char>, y: multiset<char>)
    requires x <= y
    ensures |x| <= |y|
  {
    assert y == x + (y - x);
  }

  /** A sub-multiset of the same size is the whole multiset. */
  lemma {:induction false} SubBagOfSameSize(x: multiset<char>, y: multiset<char>)
    requires x <= y
    requires |x| == |y|
    ensures x == y
    decreases |x|
  {
    if |x| != 0 {
      var c :| c in x;
      SubBagOfSameSize(x - multiset{c}, y - multiset{c});
      assert x == (x - multiset{c}) + multiset{c};
      assert y == (y - multiset{c}) + multiset{c};
    }
  }
}
