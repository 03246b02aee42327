# Multi-word anagram solver, modelled in Dafny

This project models the search engine of the `Solver` class in `src/main.cpp`.
The solver lists the texts of the query's length that pass its letter test.
Such a text is a dictionary line, or a phrase that joins two shorter texts with
a space, each part itself a line or a phrase. For a dictionary of single words
every answer uses exactly the query's letters. A line holding a space can be
listed without that. It works in five steps:

- `sanitize` turns a text into its letter key: spaces erased, characters sorted.
- `queryContains` scans two sorted keys side by side to decide whether a word's
  letters are among the query's.
- `seed` files every dictionary line that passes the length check and the
  letter test into the bucket of its length, scored length squared.
- `permute` joins every text of bucket `s` with every text of bucket
  `length - s` into bucket `length`, as `left + " " + right`.
- `solve` chooses the shortest part length, runs `permute` for every bucket
  from the bottom up, keeps the texts of the query's bucket that pass the letter
  test, and ranks them with `sortScores`.

The model is functional. A bucket is a `map<string, int>` and the table is a
`seq` of buckets. `std::map` iteration is modelled exactly as ascending key
order (`LexOrder.Ascending`). `std::sort` is modelled by insertion, and
`Ranking.RankedUnique` shows that every sort with the same comparator gives the
same list. C-string reads of `c_str()` are modelled by `Containment.Deref`, so
a terminator inside a text behaves as it does in the source.

Modules, in dependency order:

- `Letters`: letter bags, the letter key and its uniqueness.
- `Containment`: the two-pointer scan and its meaning as multiset inclusion.
- `LexOrder`: `std::string` ordering and map iteration order.
- `Ranking`: the comparator and the ranked answer list.
- `ScoreIndex`: the solver record, the constructor and `seed`.
- `Combiner`: `permute`.
- `Solve`: the choice of the shortest part, the bottom-up loop and the answers.
- `Program`: the run `main` makes (construct, seed, solve) and the end-to-end theorems.

Two behaviours of the code are easy to miss, and the model keeps both:

- `permute` joins as `left + " " + right`, without ordering the parts and without pruning with the letter test (`src/main.cpp:150-155`). So the query's bucket can hold non-anagrams, and the final letter test in `solve` is what removes them (`Program.UnlistedPhrase`).
- `seed` files a line by its raw length, spaces included (`src/main.cpp:81-87`). With a dictionary of single words every text sits in the bucket of its letter count (`Program.FinalConsistent`). A line with a space can be listed though it is no anagram (`Program.SpacedLineListed`).

## Model

| member | source | states |
|---|---|---|
| Letters.RemoveSpaces | src/main.cpp:95-96 | The erase/remove step leaves no space and keeps every other character with its multiplicity. |
| Letters.SortChars | src/main.cpp:97 | The sort step returns a sorted permutation of its input. |
| Letters.Sanitize | src/main.cpp:93-99 | The key has no space, is sorted, holds exactly the word's letters, and is as long as the word's letter count. |
| Letters.SortedUnique | src/main.cpp:97 | Two sorted texts with the same characters are equal, so the sort's result does not depend on the algorithm. |
| Letters.SanitizeUnique | src/main.cpp:93-99 | The key is the only sorted text that holds exactly the word's letters. |
| Letters.SanitizeIdempotent | src/main.cpp:93-99 | Sanitizing a key gives the same key. |
| Letters.SanitizeDecidesAnagram | src/main.cpp:93-99 | Two texts have the same key exactly when they have the same letters, spaces aside. |
| Containment.QueryContains | src/main.cpp:48-52 | The empty word fails, and every word fails against an empty key. |
| Containment.ScanIsSubMultiset | src/main.cpp:56-69 | For sorted, terminator-free, non-empty texts, the two-pointer scan succeeds exactly when the word's characters are a sub-multiset of the key's. |
| Containment.QueryContainsSpec | src/main.cpp:48-70 | For terminator-free texts and a sorted key: the test passes iff the word is non-empty, the key is non-empty, and the word's letters are a sub-multiset of the key's. |
| Containment.AllSpaceWordPasses | src/main.cpp:50-66 | A non-empty word of spaces only has no letters, yet passes every non-empty key. |
| Containment.NulSortsFirst | src/main.cpp:54-56 | A word holding a terminator has a key that starts with the terminator. |
| Containment.NulWordPasses | src/main.cpp:54-66 | A word holding a terminator passes every non-empty key, whatever its other letters. |
| LexOrder.LessIsStrictTotalOrder | src/main.cpp:118 | `std::string`'s `<` is irreflexive, asymmetric, transitive and total on distinct texts. |
| LexOrder.Least | src/main.cpp:150 | The first key a map visits is in the map and comes before every other key. |
| LexOrder.AscendingKeys | src/main.cpp:150-151 | Map iteration visits every key exactly once and nothing else. |
| LexOrder.AscendingIsStrictlyAscending | src/main.cpp:150-151 | Map iteration visits keys in strictly ascending order. |
| LexOrder.AscendingUnique | src/main.cpp:150-151 | A strictly ascending listing of a key set is that map's iteration order, so the order is fixed by the keys. |
| Ranking.BeforeIsStrictTotalOrder | src/main.cpp:114-121 | `sortScores` is a strict total order on entries: higher score first, then alphabetical. |
| Ranking.InsertEntry | src/main.cpp:207 | Inserting into a ranked list keeps it ranked and adds exactly the one entry. |
| Ranking.Rank | src/main.cpp:206-207 | The sorted answers are a ranked permutation of the input, and stay free of repeats. |
| Ranking.RankedUnique | src/main.cpp:206-207 | Two ranked lists with the same entries are equal, so the ranking does not depend on the sorting algorithm. |
| Ranking.RankedIsStrict | src/main.cpp:114-121 | A ranked list without repeats is strictly ordered by `sortScores`. |
| ScoreIndex.New | src/main.cpp:34-42 | The new solver's key is the query's key, `maxLength` is the key's length, and there are `maxLength + 1` buckets, all empty. |
| ScoreIndex.SeedLine | src/main.cpp:81-87 | A line no longer than `maxLength` that passes the letter test is filed in the bucket of its raw length with score length squared. Nothing else changes, and a rejected line changes nothing. |
| ScoreIndex.SeedLinesSpec | src/main.cpp:79-88 | After the loop, each bucket holds its old texts plus the accepted lines of its length, scored length squared; every other score is kept. |
| ScoreIndex.Seed | src/main.cpp:72-91 | `seed` reports failure exactly when the source is unavailable, and then leaves the solver unchanged. |
| ScoreIndex.SeedSpec | src/main.cpp:72-91 | Seeding from lines gives each bucket its old texts plus the accepted lines of its length, scored length squared. |
| ScoreIndex.SeedFresh | src/main.cpp:34-42 | Seeding a new solver gives bucket `i` exactly the accepted lines of length `i`, each scored `i * i`. |
| Combiner.CombineLetters | src/main.cpp:152 | A joined pair holds the letters of both parts and one space, and is terminator-free when both parts are. |
| Combiner.Splits | src/main.cpp:126-129 | The loop visits exactly the left lengths `s` with `minLength <= length - s <= s <= length - minLength`, in descending order. |
| Combiner.JoinSpec | src/main.cpp:150-155 | Joining two buckets adds the text of every pair and nothing else. A text whose score changed is some pair's text, scored with that pair's sum. |
| Combiner.ApplySplits | src/main.cpp:126-140 | The split loop changes no bucket but `length`, and when only estimating it changes nothing. |
| Combiner.Permute | src/main.cpp:123-158 | `permute` changes no bucket but `length`, and when only estimating it changes nothing. |
| Combiner.PermuteCount | src/main.cpp:134-137 | The count is the sum, over the visited splits, of the two bucket sizes multiplied, with or without estimating. |
| Combiner.PermuteKeeps | src/main.cpp:150-155 | Bucket `length` only gains texts. |
| Combiner.PermuteComplete | src/main.cpp:126-155 | Without estimating, bucket `length` gains the text of every pair from every visited split. |
| Combiner.PermuteSound | src/main.cpp:150-155 | Every text added to or rescored in bucket `length` is a pair's text from a visited split, scored with the pair's sum. |
| Combiner.PairIsConsistent | src/main.cpp:152-153 | A pair of texts with `i` and `j` letters has `i + j` letters. |
| Solve.MinLength | src/main.cpp:180-182 | The shortest part is half the key length less three, but never below three. |
| Solve.PermuteFromKeeps | src/main.cpp:191-194 | The bottom-up loop keeps every text already in the table. |
| Solve.PermuteFromClosed | src/main.cpp:191-194 | After the loop, every bucket holds every pair of its visited splits, taken from the final table. |
| Solve.PermuteFromSound | src/main.cpp:191-194 | After the loop, every text was in the seeded table with its score, or is a pair's text from a visited split of the final table. |
| Solve.PermuteFromIdle | src/main.cpp:191-194 | When no visited split has two non-empty buckets, the loop changes nothing. |
| Solve.DerivedIsConsistent | src/main.cpp:191-194 | If every seeded text sits in the bucket of its letter count, so does every text of the final table. |
| Solve.Filter | src/main.cpp:200-204 | The filter keeps exactly the bucket's texts that pass the letter test, with their scores, and adds no repeats. |
| Solve.Answers | src/main.cpp:200-207 | The answers are exactly the query bucket's entries that pass the letter test, strictly ordered by `sortScores`. |
| Solve.Solve | src/main.cpp:160-213 | `solve` keeps the query and key and uses `MinLength`. The final table keeps every seeded text, holds every pair of every visited split, and holds nothing but seeded texts with their scores and pairs with their score sums. The answers are the final query bucket's entries that pass the letter test, strictly ranked. |
| Program.Pipeline | src/main.cpp:227-230 | A run keeps the query and its key and has one bucket per letter count up to the query's. |
| Program.FinalConsistent | src/main.cpp:191-194 | With a dictionary of single words, every text of the final table sits in the bucket of its letter count. |
| Program.ContainedFullLengthIsAnagram | src/main.cpp:201-203 | A text with the query's letter count that passes the letter test uses exactly the query's letters. |
| Program.AnswersAreAnagrams | src/main.cpp:200-204 | With a dictionary of single words, every answer uses exactly the query's letters and has the query's key. |
| Program.SubWordSeeded | src/main.cpp:81-87 | A dictionary word whose letters the query holds is seeded into the bucket of its length with score length squared, whatever the other lines are. |
| Program.SingleWordFound | src/main.cpp:200-204 | A dictionary word that is an anagram of the query is listed, scored with its length squared, whatever the other lines are. |
| Program.PhraseInFinal | src/main.cpp:191-194 | Two seeded words whose lengths form a visited split of the query's bucket end up joined in that bucket. |
| Program.TwoWordPhraseFound | src/main.cpp:126-155 | Two dictionary words that together use exactly the query's letters, the second no longer than the first and both at least the shortest part long, are listed as the phrase "a b", whatever the other lines are. |
| Program.ShortQueryKeepsSeeds | src/main.cpp:180-182 | For a query of fewer than six letters, the final table is the seeded table. |
| Program.UnavailableSourceNoAnswers | src/main.cpp:74-77 | Without a dictionary, the run lists nothing. |
| Program.FullLengthLineListed | src/main.cpp:81-87 | Every line whose raw length is the query's letter count and whose letters the query holds is listed. |
| Program.SpacedLineListed | src/main.cpp:81-87 | For the query "abcd", the line "ab c" is listed though its letters differ from the query's. |
| Program.UnlistedPhrase | src/main.cpp:201-204 | For the query "abcdef" and the words "abc" and "abd", the phrase "abc abd" reaches the query's bucket but is not listed. |

## Left out

- All console output: `dump`, and the `printf` calls in `permute` and `solve` (`src/main.cpp:101-112`, `142-148`, `185-198`, `209-212`). They have no effect on the result.
- File access in `seed` (`src/main.cpp:74-80`). The dictionary is a `ScoreIndex.Source`: either unavailable, or the sequence of lines `std::getline` would return.
- `main`'s argument handling (`src/main.cpp:215-226`). It is command-line plumbing. Its call sequence is `Program.Pipeline`.
- The `#if 0` block that estimates a shortest part (`src/main.cpp:164-177`). It is never compiled. `permute`'s estimating mode is still modelled.
- C `int` overflow. `iterations`, `length * length` and the size casts are unbounded integers here.
- Character encoding and signedness. A text is modelled as its bytes, one `char` per byte, and characters are ordered by code point, as with an unsigned `char`. Where `char` is signed, `std::sort` puts bytes from 0x80 upwards before all others, the terminator included. For texts without a terminator this does not change which words pass, since the letter test only needs both keys sorted by one total order. For texts with one it does: see the two lines below.
- Containment.NulSortsFirst: holds only where the terminator is the least character, that is with an unsigned `char` or for a word with no byte from 0x80 upwards. With a signed `char` such bytes sort before the terminator.
- Containment.NulWordPasses: holds only where the terminator is the least character, that is with an unsigned `char` or for a word with no byte from 0x80 upwards. With a signed `char`, the query "ab" and the line "\x80\0" give the key "\x80\0", whose C-string view "\x80" fails the scan, so the source neither seeds nor lists that line, while the model lists it.
- Combiner.Permute: requires `minLength >= 1`. With `minLength` 0 the source and destination buckets alias. `solve` always passes at least 3.
- Solve.Solve: the total iteration count of the loop is returned but not specified. Only the count of one `permute` call is (`Combiner.PermuteCount`).
- Containment.QueryContainsSpec: stated for terminator-free key and word only. Words holding a terminator are covered by `Containment.NulWordPasses`.
- Program.AnswersAreAnagrams: stated for dictionaries of single words. A line with a space can be listed though it is no anagram (`Program.SpacedLineListed`).
- Program.FinalConsistent: stated for dictionaries of single words. A line with a space sits in the bucket of its raw length, not of its letter count.
- Program.TwoWordPhraseFound: covers phrases of two dictionary words only. Longer phrases built from phrases are kept by `Solve.PermuteFromClosed`, but no end-to-end theorem lists them.
