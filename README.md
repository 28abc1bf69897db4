# Vectmo in Dafny

Vectmo is a character-level text model in one C++ class. It learns two things from a
training text:

- a **bigram table**: how many times character `b` followed character `a`;
- a **vocabulary**: the set of whitespace-delimited words.

It persists both to files. It continues an input text in two phases:

1. **Phase 1** grows a greedy chain of characters from the last input character. Each step
   takes the most frequent follower whose trailing six-character window has not occurred
   before; when every follower repeats a window, the step takes a top-count follower anyway.
2. **Phase 2** splits the chain on single spaces and snaps every non-empty piece to the
   vocabulary word whose character histogram has the highest cosine similarity to it.

This project models that class and proves what it computes.

| module | file | models |
|---|---|---|
| `Alphabet` | alphabet.dfy | the 96-character table and `getCharIndex` |
| `Text` | text.dfy | `splitOnSpaces`, the single-space join, and `>>` tokenisation |
| `OrderedSet` | ordered.dfy | `std::set<std::string>` as a strictly ascending sequence |
| `Histogram` | histogram.dfy | `embedWord` and `cosineSimilarity` |
| `Bigram` | bigram.dfy | building, saving and loading the bigram table |
| `WordList` | wordlist.dfy | the word-list file |
| `Similarity` | similarity.dfy | `findMostSimilarWord` and the snap step |
| `Generator` | generator.dfy | phase 1 of `predictNextText` |
| `Model` | vectmo.dfy | the `Vectmo` class itself |

The `Model` module owns the mutable fields `bigramTable` and `pretrainedWords`. Every method
that updates them, and every loop of the source, is a Dafny method with loop invariants. Each
such method is proved against a specification function from one of the other modules, and
the properties of those functions are proved as lemmas.

**Files as values.** Files are values in this model:

- The table file is its sequence of `(fromIdx, toIdx, count)` triples.
- The word file is its text.
- A save returns what it writes.
- A load takes `None` when the file cannot be opened.

**Behaviour of the code that is easy to misread.**

- **Unsupported characters in the table.** `buildBigramTable` also counts pairs with
  characters outside the alphabet (vectmo.cpp:66-67). Only the save skips them
  (vectmo.cpp:93-98). The save/load round trip therefore holds on the supported part of the
  table (`Bigram.SupportedPart`), not on the whole table.
- **Order of equal-count followers.** The followers are sorted with `std::sort`
  (vectmo.cpp:417-419), which is not stable, so the order among equal counts is unspecified.
  - `Generator.Choice` states the step rule without fixing that order.
  - `Generator.PickIsChoice` and `Generator.ChoiceIsSomePick` show that the rule describes
    exactly the characters the candidate loop can pick.
- **Tie-break of the nearest word.** The comment at vectmo.cpp:225-226 says the shorter word
  wins a score tie. The code at vectmo.cpp:243-246 prefers the smaller absolute length
  difference from the query word, and the model does the same.
- **Spacing of snapped text.** Snapping keeps the spacing of its input only when no
  vocabulary word is empty or contains a space (`Similarity.SnapKeepsSpacing`). A vocabulary
  built from a text always meets this (`Model.Vectmo.BuildWordList`). A word file is read
  line by line (vectmo.cpp:148-152), so it can hold a word such as "a b". With that
  vocabulary, the one piece "x" snaps to the two pieces "a" and "b"
  (`Similarity.SpacedWordSplits`).

## Model

| member | source | states |
|---|---|---|
| `Alphabet.Listing` | vectmo.cpp:24-30 | the listing has 96 entries: '!' .. '~' in code order, then ' ' and '\n' |
| `Alphabet.RowStarts` | vectmo.cpp:24-32 | the table has VOCAB_SIZE = 96 entries, and each source row and the last two entries are where the literal table puts them |
| `Alphabet.CharIndex` | vectmo.cpp:50-58 | the slot of a character is in [-1, 96); a non-negative slot holds that character; -1 exactly for characters outside the table |
| `Alphabet.IndexOfEntry` | vectmo.cpp:24-30 | the entries are distinct: the slot of the entry at i is i |
| `Alphabet.IndexRoundTrip` | vectmo.cpp:50-58 | a supported character has a slot, and the entry at that slot maps back to it |
| `Alphabet.GetCharIndex` | vectmo.cpp:50-58 | the linear scan returns the first slot holding the character, or -1 exactly when no slot holds it |
| `Histogram.Embed` | vectmo.cpp:174-190 | the reference embedding: 96 slots, slot i counting the occurrences of entry i of the table |
| `Histogram.EmbedEmpty` | vectmo.cpp:174-190 | the empty word embeds to all zeros |
| `Histogram.EmbedAppend` | vectmo.cpp:177-188 | a supported character bumps only its own slot by one; an unsupported one changes nothing |
| `Histogram.EmbedPermutation` | vectmo.cpp:177-188 | rearranging a word's characters keeps its embedding |
| `Histogram.EmbedCat` | vectmo.cpp:166-167 | "cat" has exactly the slots of 'a', 'c' and 't' at 1 and all others at 0 |
| `Histogram.EmbedTripleA` | vectmo.cpp:174-190 | "aaa" has the slot of 'a' at 3 and all others at 0 |
| `Histogram.EmbedWord` | vectmo.cpp:174-190 | the result has 96 slots, and slot i counts the occurrences of entry i in the word |
| `Histogram.Dot` | vectmo.cpp:208-213 | the sum of slotwise products; a squared magnitude is 0 exactly when every slot is 0 |
| `Histogram.DotAppend` | vectmo.cpp:208-213 | one more slot adds its product to the dot product |
| `Histogram.CauchySchwarz` | vectmo.cpp:193-195 | dot^2 <= magA^2 magB^2, so the cosine of two histograms lies in [0, 1] |
| `Histogram.ZeroNorm` | vectmo.cpp:197-199 | a histogram of zero magnitude is orthogonal to every other |
| `Histogram.Score` | vectmo.cpp:201-221 | the squared cosine lies in [0, 1], and it is 0 exactly when the dot product is 0, including the zero-magnitude case |
| `Histogram.ScoreOf` | vectmo.cpp:215-220 | the score is 0 when a magnitude is zero, and dot^2 / (magA^2 magB^2) otherwise |
| `Histogram.DotSymmetric` | vectmo.cpp:208-210 | the dot product does not depend on the order of its arguments |
| `Histogram.ScoreSymmetric` | vectmo.cpp:195 | the similarity of a to b equals that of b to a |
| `Histogram.ScoreSelf` | vectmo.cpp:195 | a non-zero histogram scores exactly 1 against itself |
| `Histogram.DotZeroIff` | vectmo.cpp:170-172 | a dot product is zero exactly when no slot is non-zero in both histograms |
| `Histogram.ScoreZeroIffDisjoint` | vectmo.cpp:170-172 | two words score 0 exactly when they share no supported character |
| `Histogram.CosineSimilarity` | vectmo.cpp:201-221 | the single accumulating pass returns the (squared) cosine, 0 when a magnitude is zero |
| `Text.SplitOn` | vectmo.cpp:259-277 | every separator closes a piece and the last piece is always pushed, so there is at least one piece |
| `Text.Join` | vectmo.cpp:289-301 | the pieces with one separator between neighbours: the result starts with the first piece, and has no separator only when there is at most one piece |
| `Text.JoinPair` | vectmo.cpp:289-301 | two pieces join around one separator |
| `Text.SplitOnSpaces` | vectmo.cpp:259-277 | the loop that closes a piece at each ' ' and pushes the last piece yields the pieces of the split |
| `Text.JoinSplit` | vectmo.cpp:257 | the split is lossless: joining the pieces with one separator gives back the input |
| `Text.SplitJoin` | vectmo.cpp:257 | conversely, separator-free pieces joined and split again come back unchanged |
| `Text.SplitCount` | vectmo.cpp:265-275 | there is exactly one more piece than there are separators |
| `Text.SplitPiecesFree` | vectmo.cpp:265-268 | no piece contains the separator |
| `Text.SplitFree` | vectmo.cpp:270-275 | a text without the separator is a single piece |
| `Text.SplitAppendSep` | vectmo.cpp:265-268 | a trailing separator opens a new empty piece |
| `Text.SplitAppendFree` | vectmo.cpp:270-273 | appending separator-free text only extends the last piece |
| `Text.JoinSnoc` | vectmo.cpp:289-291 | joining one more piece adds one separator before it, unless it is the first piece |
| `Text.IsSpace` | vectmo.cpp:78 | the separators of `>>`: the six characters `std::isspace` accepts in the "C" locale, ' ' and codes 9 to 13 (tab, newline, vertical tab, form feed, carriage return) |
| `Text.RunLength` | vectmo.cpp:78 | the leading run has no whitespace and ends at whitespace or at the end of the text |
| `Text.Tokens` | vectmo.cpp:76-78 | the tokens `>>` extracts, in order; every token is non-empty and free of whitespace |
| `Text.TokensAreMaximalRuns` | vectmo.cpp:76-78 | the tokens `>>` extracts are exactly the maximal whitespace-free runs of the text |
| `Text.TokenIsRun` | vectmo.cpp:76-78 | every token is a maximal whitespace-free run |
| `Text.RunIsToken` | vectmo.cpp:76-78 | every maximal whitespace-free run is a token |
| `OrderedSet.BelowIff` | vectmo.cpp:38 | the set order is `std::string`'s `<`: a is below b exactly when a is a proper prefix of b or a is smaller at the first difference |
| `OrderedSet.BelowIrreflexive` | vectmo.cpp:38 | no string is below itself in the set order |
| `OrderedSet.BelowTransitive` | vectmo.cpp:38 | the set order is transitive |
| `OrderedSet.BelowTotal` | vectmo.cpp:38 | any two distinct strings are ordered one way or the other |
| `OrderedSet.Insert` | vectmo.cpp:81 | inserting keeps the set in strictly ascending order and adds exactly the new word |
| `OrderedSet.SortedUnique` | vectmo.cpp:38 | a set's iteration order is determined by its elements |
| `Bigram.Inc` | vectmo.cpp:67 | `++`: the pair's new count is its old count, or 0 when missing, plus one; row a gains b if missing, its other followers and every other row keep their counts |
| `Bigram.Bigrams` | vectmo.cpp:63-68 | the table built from a text; a text of fewer than two characters gives an empty table, and every row is a character of the text |
| `Bigram.PairCountAppend` | vectmo.cpp:66-67 | one more character adds exactly the pair it closes to the count |
| `Bigram.BigramsCount` | vectmo.cpp:63-68 | a built table holds a pair exactly when it occurs in the text, with its number of occurrences |
| `Bigram.BigramsRows` | vectmo.cpp:63-68 | every row of a built table is non-empty |
| `Bigram.Put` | vectmo.cpp:120 | after a store the pair holds the stored count; only row a can change or appear |
| `Bigram.Loaded` | vectmo.cpp:115-122 | the table loaded from the triples in order; every row is a supported character |
| `Bigram.PutOther` | vectmo.cpp:120 | a store leaves every other pair as it was |
| `Bigram.LoadedHas` | vectmo.cpp:115-122 | a pair is loaded exactly when some triple with in-range indices names it |
| `Bigram.LoadedValue` | vectmo.cpp:115-122 | a loaded count is that of the last triple naming its pair |
| `Bigram.LastTripleWins` | vectmo.cpp:120 | a later triple overwrites the count of an earlier one (`=`, not `+=`) |
| `Bigram.LoadedShape` | vectmo.cpp:117-120 | a loaded table holds only supported characters and has no empty row |
| `Bigram.LoadedEmpty` | vectmo.cpp:113-124 | loading yields an empty table exactly when no triple is in range |
| `Bigram.InOrder` | vectmo.cpp:91 | a `std::map<char, …>` is visited in ascending key order, and only its keys are visited |
| `Bigram.InOrderComplete` | vectmo.cpp:91 | every key is visited |
| `Bigram.AscendingUnique` | vectmo.cpp:91 | the visiting order of a key set is unique |
| `Bigram.SortedKeys` | vectmo.cpp:91-95 | extracts the keys of a map in its iteration order |
| `Bigram.RowFile` | vectmo.cpp:95-100 | the lines of one row: at most one per follower, each with the row's index and a follower index in [0, 96) |
| `Bigram.RowOf` | vectmo.cpp:93-100 | the lines of one row, none for a row without a slot; every line is accepted by the loader |
| `Bigram.TableFile` | vectmo.cpp:91-101 | the lines of the rows in the visiting order; every line written is accepted by the loader |
| `Bigram.TableFileSnoc` | vectmo.cpp:91-101 | visiting one more row appends exactly that row's lines |
| `Bigram.RowFileSnoc` | vectmo.cpp:95-100 | visiting one more follower appends its line if it has a slot, and nothing otherwise |
| `Bigram.RowFileLines` | vectmo.cpp:95-100 | every line of a row is the line of one of that row's followers |
| `Bigram.RowFileOrdered` | vectmo.cpp:95-100 | a row's lines are in follower order |
| `Bigram.RowFileCovers` | vectmo.cpp:95-100 | every supported follower of a row has its line |
| `Bigram.TableFileLines` | vectmo.cpp:91-101 | every line written is the line of a table entry |
| `Bigram.TableFileOrdered` | vectmo.cpp:91-101 | the lines come in the table's iteration order |
| `Bigram.TableFileCovers` | vectmo.cpp:91-101 | every entry with two supported characters has its line |
| `Bigram.SavedDescribes` | vectmo.cpp:86-103 | what the save writes is one line per supported entry with its indices and count, no other line, in table order |
| `Bigram.RoundTripEntry` | vectmo.cpp:86-125 | entry by entry, loading the saved lines gives the supported part of the table |
| `Bigram.RowKeyRoundTrip` | vectmo.cpp:86-125 | a row is loaded back exactly when its supported part was non-empty |
| `Bigram.RowRoundTrip` | vectmo.cpp:86-125 | a loaded row equals the supported part of the saved row |
| `Bigram.SaveLoadRoundTrip` | vectmo.cpp:86-125 | loading what was saved gives back exactly the supported part of the table |
| `WordList.WordFile` | vectmo.cpp:133-134 | every word followed by a newline; empty exactly for an empty vocabulary, and otherwise ends with a newline |
| `WordList.InsertAll` | vectmo.cpp:148-155 | inserting words one by one gives a sorted set of the old elements plus the words |
| `WordList.NonEmptyLines` | vectmo.cpp:150 | exactly the non-empty lines are kept |
| `WordList.LoadStep` | vectmo.cpp:148-155 | reading one more line inserts it into the set, unless it is empty |
| `WordList.LoadedWords` | vectmo.cpp:139-158 | the loaded vocabulary is sorted and holds exactly the non-empty lines of the file |
| `WordList.WordFileJoin` | vectmo.cpp:133-134 | the word file is the words joined by newlines plus a final newline |
| `WordList.WordFileRoundTrip` | vectmo.cpp:128-158 | a vocabulary of non-empty, newline-free words reads back exactly as written |
| `Similarity.Scan` | vectmo.cpp:233-251 | the scan as a left fold from the query word with score -1, a candidate replacing the best on a higher score or an equal score with a smaller length gap; with a candidate, the score returned is that of the word returned |
| `Similarity.ScanSelects` | vectmo.cpp:236-251 | on a non-empty vocabulary the scan returns some word with its own score: no word outranks it on score then length gap, and it outranks every earlier word |
| `Similarity.ScanEmpty` | vectmo.cpp:233-234 | with no vocabulary the scan returns the query word with the floor score -1 |
| `Similarity.ScanMember` | vectmo.cpp:236-251 | with a vocabulary, the scan returns a vocabulary word |
| `Similarity.FullTieGoesToFirst` | vectmo.cpp:243-246 | a word that ties the result on score and length gap is the result or comes after it in set order |
| `Similarity.AnagramTie` | vectmo.cpp:238-239 | two words with the same characters (a permutation of each other) score the same against any query |
| `Similarity.TieGoesToFirst` | vectmo.cpp:243-246 | of two words tied on score and length, the earlier one is kept |
| `Similarity.CatTacExample` | vectmo.cpp:224-254 | with vocabulary {"cat", "tac"} the query "act" resolves to "cat" |
| `Similarity.SnapToken` | vectmo.cpp:293-301 | an empty piece stays empty; a non-empty piece becomes a vocabulary word, or stays as it is when there is no vocabulary |
| `Similarity.Snapped` | vectmo.cpp:284-305 | split on ' ', snap each piece, join with one ' ' per gap; with no vocabulary the input comes back unchanged |
| `Similarity.SpacedWord` | vectmo.cpp:282-301 | a one-word vocabulary whose word is a + ' ' + b snaps a space-free piece into the two pieces a and b |
| `Similarity.SpacedWordSplits` | vectmo.cpp:282-301 | with vocabulary ["a b"], the input "x" (one piece) snaps to "a b" (two pieces) |
| `Similarity.SnapKeepsSpacing` | vectmo.cpp:284-305 | when no vocabulary word is empty or contains a space, the output has as many pieces as the input, empty exactly where the input's were, each non-empty one a vocabulary word (the input piece when there is no vocabulary) |
| `Similarity.SplitDoubleSpace` | vectmo.cpp:259-277 | two space-free words around a double space split into the words and one empty piece |
| `Similarity.DoubleSpaceExample` | vectmo.cpp:284-305 | a double space between two words survives snapping |
| `Generator.FindFrom` | vectmo.cpp:433 | `find` returns the first occurrence at or after the start, or none when there is no occurrence |
| `Generator.Find` | vectmo.cpp:433 | `find` from the start: the first occurrence, or none when there is none |
| `Generator.Blocked` | vectmo.cpp:428-438 | the cycle test; it can only block a prediction longer than six characters |
| `Generator.BlockedIffRepeats` | vectmo.cpp:428-438 | the cycle test rejects a candidate exactly when the trailing six-character window also occurs at an earlier start |
| `Generator.Position` | vectmo.cpp:417-419 | a follower's place in a count-ordered list: after all larger counts, before the rest |
| `Generator.InsertAtPosition` | vectmo.cpp:415-419 | inserting a follower at its place keeps the list distinct and ordered by non-increasing count |
| `Generator.FollowersByCount` | vectmo.cpp:415-419 | the sorted followers are each follower of the row once, by non-increasing count |
| `Generator.FilterKeepsOrder` | vectmo.cpp:417-419 | filtering keeps a list distinct and count-ordered |
| `Generator.Pick` | vectmo.cpp:424-446 | the candidate loop: the pick is a candidate, and the first candidate when it is not blocked |
| `Generator.PickFrom` | vectmo.cpp:424-446 | the candidate loop from position k: the pick is a candidate |
| `Generator.PickFromFirstOpen` | vectmo.cpp:424-446 | the candidate loop takes the first unblocked follower, or the first follower when all are blocked |
| `Generator.FirstOpen` | vectmo.cpp:424-443 | there is a first unblocked candidate at or after any position, or none |
| `Generator.Choice` | vectmo.cpp:415-446 | the step rule: the chosen character is a follower, and every follower with a larger count would have repeated a window |
| `Generator.PickIsChoice` | vectmo.cpp:415-446 | for any admissible sort order, the pick is a follower; if some follower is unblocked, the pick is unblocked with the top count among those; otherwise it has the top count overall |
| `Generator.Promoted` | vectmo.cpp:417-419 | larger counts, then c, then counts at most c's is an admissible sort order |
| `Generator.PromoteOrder` | vectmo.cpp:417-419 | moving a follower in front of its equal counts gives another admissible sort order |
| `Generator.ChoiceIsSomePick` | vectmo.cpp:415-446 | every character the step rule allows is picked under some admissible sort order |
| `Generator.Generated` | vectmo.cpp:406-450 | the result of phase 1: the seed, then at most maxChars characters each obeying the step rule; with maxChars <= 0 it is the seed alone |
| `Generator.NextChar` | vectmo.cpp:411-446 | one iteration of phase 1 chooses a character the step rule allows |
| `Generator.StepsExtend` | vectmo.cpp:448-449 | appending a chosen character keeps every earlier step and adds one |
| `Generator.Chain` | vectmo.cpp:406-450 | the chain is the seed plus at most maxChars characters, each allowed by the step rule from the one before, and stops early only at a character without followers |
| `Generator.ChainAvoidsCycles` | vectmo.cpp:424-443 | a step that could avoid repeating a window did avoid it |
| `Generator.ChainStopsAtOrphanSeed` | vectmo.cpp:411-413 | a seed without followers yields the seed alone |
| `Generator.ChainFollowers` | vectmo.cpp:409-449 | every appended character is a recorded follower of the character before it |
| `Model.Vectmo.constructor` | vectmo.cpp:35-38 | a new model has an empty table and an empty vocabulary |
| `Model.Vectmo.BuildBigramTable` | vectmo.cpp:63-68 | the table becomes the bigram counts of the text, replacing the old table; the vocabulary is untouched |
| `Model.Vectmo.BuildWordList` | vectmo.cpp:73-83 | the vocabulary becomes exactly the set of whitespace-delimited tokens of the text, each non-empty and free of spaces; the table is untouched |
| `Model.Vectmo.SaveBigramTable` | vectmo.cpp:86-103 | the lines written describe the table, and loading them gives back its supported part |
| `Model.Vectmo.LoadBigramTable` | vectmo.cpp:106-125 | the table is cleared, then refilled from the in-range triples; the result is true exactly when the table is non-empty; an unopened file leaves it empty |
| `Model.Vectmo.SaveWordList` | vectmo.cpp:128-136 | one line per word in set order, and it reads back as the same vocabulary |
| `Model.Vectmo.LoadWordList` | vectmo.cpp:139-158 | an opened file replaces the vocabulary by its non-empty lines, and the result says whether there were any; an unopened file changes nothing |
| `Model.Vectmo.FindMostSimilarWord` | vectmo.cpp:229-254 | with no vocabulary, returns the query word and -1; otherwise a vocabulary word with its own score that no other word outranks |
| `Model.Vectmo.SnapWordsToVocabulary` | vectmo.cpp:284-305 | the output is the snapped pieces of the input joined by single spaces, and the input itself when there is no vocabulary |
| `Model.Vectmo.PretrainModel` | vectmo.cpp:345-363 | with no working file nothing changes; otherwise table and vocabulary are built from the text, and the files written load back as the table's supported part and as the vocabulary |
| `Model.Vectmo.PredictNextText` | vectmo.cpp:385-466 | the early returns for empty input and an untrained model, the lazy loads, a phase-1 chain from the last input character, and the no-continuation, raw and snapped outputs |
| `Model.RowLines` | vectmo.cpp:95-100 | the lines of one row, followers in character order, those without a slot skipped |
| `Model.TokenAt` | vectmo.cpp:76-81 | a token read at a non-space position is the run up to the next whitespace |

## Left out

- `main` and all console output (the `[SIM]`, `[PREDICT]` and `[PRETRAIN]` logging) are not modelled. They are user interface and do not affect any result.
- `setWorkingFile`, `createFile`, `isFileNameSet` and the naming of the `.txt` and `.words` files are not modelled, because they are file-system plumbing. `PretrainModel` takes a flag `haveFile` that stands for `isFileNameSet()`.
- The `.vec` dump in `pretrainModel` and `embedInputToVector` are not modelled. The dump is write-only diagnostic I/O, and `embedInputToVector` only calls `embedWord`, which is `Histogram.EmbedWord`.
- The `VectmoErrors` message strings are not modelled, because they only feed console output.
- Opening, writing and parsing files are left out. A load takes `None` for a file that cannot be opened. A save whose file cannot be opened is not modelled, because it writes nothing and changes no state. The table file is modelled as already parsed triples, so a stream that stops at malformed text is not modelled.
- Histogram.Score: this is the exact squared cosine on rationals, not the double-precision cosine. The histograms hold non-negative counts, so the cosine is never negative, and comparing squares orders and ties candidates exactly as comparing cosines does. Rounding of `sqrt` and of the division, and exact `==` on doubles, are idealised away.
- Model.Vectmo.FindMostSimilarWord: the score it returns is the squared cosine (see `Histogram.Score`), not the cosine itself. The returned word is unaffected.
- Generator.Choice: the order of followers with equal counts is not fixed, because `std::sort` is not stable. The step rule says which characters may be chosen, not which one a given standard library picks.
- `int` counts in the table are unbounded integers. Overflow of a count after more than 2^31 - 1 occurrences of one pair is not modelled.
- Characters are Dafny `char`s, so the signed-`char` key order of `std::map` is not modelled. It affects only the order of rows and followers for characters outside the alphabet, and those are never saved.
- Strings are sequences of Unicode code points, while the source's `std::string` is a sequence of bytes. On text outside ASCII the model and the source differ: the pairs of `Bigram.Bigrams`, the seed character and the `maxChars` budget and six-character window of `Generator.Chain` and `Generator.Blocked`, the length gap of `Similarity.LengthGap` and `Similarity.Scan`, and the tokens of `Text.Tokens` all count characters where the source counts bytes. On ASCII text the two agree.
- The default argument `maxChars = 50` of `predictNextText` is not modelled; `Model.Vectmo.PredictNextText` always takes `maxChars` explicitly.
- Model.Vectmo.PredictNextText: the chain of phase 1 is returned as a ghost out-parameter so that the contract can name it.
