# A verified model of the `base` and `coding` libraries

This project models the algorithms of the two libraries under the map application in Dafny and proves what
they are for. `dafny verify dfyconfig.toml` checks all of it. Each group of modules follows one part of the
program and ends in one or two theorems about all inputs or all runs.

**Fuzzy search.** `EditScripts` says what a distance between strings is: the least price of a script of edits.
`EditDistance` proves the two-row table right against that. `Osa` is the distance with swaps of neighbours that
the automaton is meant to decide. `LevenshteinStates` and `LevenshteinMoves` are the positions, the pruning of
subsumed positions and the moves; `LevenshteinLanguage` proves that the pruned runs decide the distance exactly.
`LevenshteinPrefixes` says what a restricted prefix forbids and allows, and `LevenshteinPrefixLanguage` finds the
prefix sizes and limits for which the pruned runs still decide the distance under these restrictions.
`LevenshteinDfa` is the breadth-first construction, its termination and the finished tables; `PrefixDfa` is the
modifier for prefixes, and `PrefixDfaErrors` says for which patterns and limits the number of errors that it
reports can be relied on.

**Text compression.** `SuffixOrder`, `RadixSort`, `SkewOrder` and `Skew` are the linear suffix array, with its
recursion, its fake suffix and its merge. `BwtOrder` and `Bwt` are the transform and its inverse by rank and
select. `MoveToFront`, `Bits` and `BitStreams` are what their names say. `Kraft` and `HuffmanTree` prove that
merging is optimal among all codes and that its tree depends on the frequencies only, `HuffmanCodes` and
`Huffman` are the tables, the serialized code and the coded text, and `HuffmanOrder` says which way its bits go.
`Frequencies` and `ShortestCodes` carry the optimality over to the text that is written. `BlockCodec` puts the
layers together, `HuffmanDepth` finds the shortest texts that need long codes, and `TextStorage` is the file of
blocks with its index and its cache.

**Differences.** `MyersDiff` is the greedy search for a least patch; `RollingHash` and `RollingDiff` are the
hashed one, sound for any hash.

**State.** `Queues`, `ThreadPoolRuns`, `ThreadPoolSafety`, `ThreadPoolProgress` and `ThreadPool` are the pool of
workers: its queues, the state machine of all interleavings, the safety of whole runs, what its workers get done,
and the class whose sections under the lock are steps of that machine. `ClusteringMap` is the union-find with values, against the history of calls;
`MemTrie` the path-compressed trie, against a multimap; `FileSorter`, `FixedBits` and `ReaderCache` are the
external sort, the packed vector with exceptions and the page cache.

**Geometry.** `PointDeltas` and `TriangleChains` are the deltas of points and the two stack machines that write
and read a tree of triangles.

`Options` and `Sequences` hold what several of them use. Objects that the program changes in place are classes
with the program's fields; ghost fields give their meaning (the word read, the history of calls, the strings
appended). Ghost parameters of readers name the data that was written.

Where the code and its documentation disagree, the model follows the code:

* With a restricted prefix (base/levenshtein_dfa.cpp:61-67) the pruning at lines 168-193 still takes deletions for
  granted. The automata of a prefix size and a limit accept exactly the words within the limit, for all patterns and
  misprints, if and only if the prefix size or the limit is at most one (`ExactIff`); search uses prefix size one
  (indexer/search_string_utils.cpp:100). Otherwise some words with two misprints are lost.
* The comment at base/dfa_helpers.hpp:49 says that the number of errors cannot decrease after an increase. That
  holds for all words if and only if the pattern or the limit is at most one, or both are two
  (`RisesForGoodIff`). The modifier, which relies on it to pass characters over, reports the least number of any
  prefix from the first accepted one on if and only if the pattern has at most two characters or the limit is at
  most two (`ReportsLeastIff`); otherwise it may report fewer errors than any prefix has.
* The comment at coding/huffman.cpp:102 asks for more than 2^32 symbols before a code exceeds 32 bits. The bound
  is the Fibonacci number 9227465: no text of n symbols fails the check if and only if n is less than that
  (`ShortCodesIff`), and the texts that fail are given.
* base/thread_pool_delayed.hpp:56-57 promises that an immediate task is executed after all those pushed before
  it. Tasks are taken in that order, but they are executed in it in all runs if and only if there is at most one
  worker (`OrderKeptIffAlone`).
* coding/diff.hpp:146-149 speaks of finding equal blocks. The loop at line 178 ends before the window that touches
  the end of the destination is looked up, so that a block there is copied only by the fine-grained differ. With
  a hash without collisions these are exactly the blocks that are missed (`CopiedIff`).
* Erasing under the empty key at base/mem_trie.hpp:532-548 may merge the root with its only child, after which
  other keys are no longer found; `EraseIsRightIff` gives the exact condition.

## Model

| member | source | states |
|---|---|---|
| `Osa.DistIsTheDistance` | base/levenshtein_dfa.hpp:11-19 | The recursive `Dist` is the least price of an edit script with insertions, deletions, replacements and swaps of neighbours, in which no piece is edited twice: some script reaches it and none is cheaper. |
| `Osa.AbToBca` | base/levenshtein_dfa.hpp:14-17 | The distance of "ab" and "bca" is three for any three different characters. |
| `Osa.GreedyMatch` | base/levenshtein_dfa.cpp:50-54 | Pairing equal first characters never costs anything, which is why a standard position that can match makes no other move. |
| `EditDistance.Compute` | base/string_utils.hpp:706-738 | The two-row table returns the least price of a script of insertions, deletions and replacements, for all pairs of strings, in whichever order they come. |
| `EditDistance.LevIsTheDistance` | base/string_utils.hpp:697-699 | One cell of the table is the true distance of two prefixes: reached by a script and undercut by none. |
| `EditDistance.DistanceSymmetric` | base/string_utils.hpp:712-713 | The distance does not depend on the order of the strings, which justifies exchanging them. |
| `EditDistance.SwapsOnlyHelp` | base/levenshtein_dfa.hpp:13-19 | Allowing swaps never increases the distance. |
| `LevenshteinStates.SubsumptionIsTransitive` | base/levenshtein_dfa.cpp:131-150 | Subsumption over all four combinations of standard and transposed positions is transitive. |
| `LevenshteinStates.State.Normalize` | base/levenshtein_dfa.cpp:168-193 | The in-place loop leaves exactly the positions that no other position of the state subsumes, sorted and without repetitions, whatever order it meets them in. |
| `LevenshteinStates.State.FindSubsumer` | base/levenshtein_dfa.cpp:177-179 | Finds the first live position that subsumes the current one, or the end of the live part if there is none. |
| `LevenshteinStates.SortedIsUnique` | base/levenshtein_dfa.cpp:191-192 | Two normalized states with the same positions are the same vector, so that the table of visited states identifies states by meaning. |
| `LevenshteinStates.SortUnique` | base/levenshtein_dfa.cpp:152-165 | Sorting by `operator<` and removing repetitions gives the one strictly sorted sequence with the same elements. |
| `LevenshteinMoves.TransitionTable.FindRelevant` | base/levenshtein_dfa.cpp:86-96 | Finds the first occurrence of the character within reach of the errors left, and fails exactly when there is none. |
| `LevenshteinMoves.TransitionTable.GetMoves` | base/levenshtein_dfa.cpp:37-84 | Appends exactly the moves of one position, for every prefix size and every set of misprints; what these moves are worth is said by `MoveIsSound`, `MoveIsComplete`, `PrefixMoveIsSound` and `PrefixMoveIsComplete`. |
| `LevenshteinMoves.TransitionTable.Move` | base/levenshtein_dfa.cpp:28-34 | The next state is the canonical form of the maximal positions among all moves of all positions. |
| `LevenshteinMoves.TransitionTable.NextFits` | base/levenshtein_dfa.cpp:312-325 | Every position of a next state lies in the pattern, and has no more errors left than some position that it came from. |
| `LevenshteinMoves.TransitionTable.UnknownCharsAgree` | base/levenshtein_dfa.cpp:216-222 | All characters that neither the pattern nor the relevant misprint sets contain lead to the same state, so that one letter can stand for them. |
| `LevenshteinLanguage.SubsumedIsWorse` | base/levenshtein_dfa.hpp:40-45 | Whatever remains to be read, a subsumed position ends with no more errors left than the position that subsumes it. |
| `LevenshteinLanguage.MaximalFinishes` | base/levenshtein_dfa.cpp:168-193 | Removing subsumed positions changes neither the words that a state can finish on nor with how many errors left. |
| `LevenshteinLanguage.FirstCharacter` | base/levenshtein_dfa.cpp:56-83 | A cheapest script for a mismatching first character inserts it, replaces by it, deletes up to its first occurrence, or swaps it with its neighbour; nothing else need be considered. |
| `LevenshteinLanguage.MoveIsSound` | base/levenshtein_dfa.cpp:37-84 | No move gains an error compared with the true distance. |
| `LevenshteinLanguage.MoveIsComplete` | base/levenshtein_dfa.cpp:37-84 | For every position and remaining word there is a move that loses nothing. |
| `LevenshteinLanguage.NextIsExact` | base/levenshtein_dfa.cpp:28-34 | A state and its pruned successor on c can finish on exactly the same words, with the same number of errors left. |
| `LevenshteinLanguage.RunIsExact` | base/levenshtein_dfa.cpp:28-96 | After reading u the state can finish on w with v errors left if and only if the distance of the pattern to u + w leaves that many; for all patterns, words and error limits. |
| `LevenshteinLanguage.AcceptsIffClose` | base/levenshtein_dfa.cpp:327-353 | Without a restricted prefix a word is accepted if and only if its distance to the pattern is at most maxErrors, and the reported number of errors is then that distance. |
| `LevenshteinLanguage.EmptyIsASink` | base/levenshtein_dfa.cpp:307-310 | The rejecting state leads only to itself. |
| `LevenshteinLanguage.RejectedForever` | base/levenshtein_dfa.hpp:123-124 | Once a run has lost all positions, so it stays on every continuation. |
| `LevenshteinPrefixes.PrefixIsRespected` | base/levenshtein_dfa.cpp:59-83 | For every prefix size: an accepted word comes from a script, followed by the deletion of what is left of the pattern, that costs as much as is reported; within the prefix this script only keeps characters, puts others between them, or replaces one by a character that shares a set of misprints with it. |
| `LevenshteinPrefixes.MisprintIsAccepted` | base/levenshtein_dfa.cpp:61-67 | For every prefix size and every limit but 0: the pattern with one character of the prefix replaced by a misprint is accepted, with one error. |
| `LevenshteinPrefixes.MisprintIff` | base/levenshtein_dfa.cpp:98-111 | With a limit of one, the pattern with one character of the prefix replaced is accepted if and only if some set of misprints contains both characters. |
| `LevenshteinPrefixLanguage.PrefixDistIsTheDistance` | base/levenshtein_dfa.cpp:59-83 | The recursive `PrefixDist` is the least price of a script that respects the prefix, together with the deletion of what is left of the pattern: some script reaches it and none is cheaper. |
| `LevenshteinPrefixLanguage.PrefixMoveIsSound` | base/levenshtein_dfa.cpp:37-84 | For every prefix size no move gains an error compared with that distance. |
| `LevenshteinPrefixLanguage.PrefixMoveIsComplete` | base/levenshtein_dfa.cpp:37-84 | For every prefix size, position and remaining word there is a move that loses nothing. |
| `LevenshteinPrefixLanguage.PrefixSubsumedIsWorse` | base/levenshtein_dfa.cpp:131-150 | A subsumed position is no better on any word, unless the one that subsumes it lies within the prefix and behind it. |
| `LevenshteinPrefixLanguage.PrefixRunIsExact` | base/levenshtein_dfa.cpp:28-96 | With a prefix size or a limit of at most one: after u the state can finish on w with v errors left if and only if the distance to u + w leaves that many. |
| `LevenshteinPrefixLanguage.PrefixAcceptsIffClose` | base/levenshtein_dfa.cpp:327-353 | In these cases a word is accepted if and only if its distance is within the limit, and the number of errors reported is that distance. |
| `LevenshteinPrefixLanguage.PrefixAcceptsOnlyClose` | base/levenshtein_dfa.cpp:327-353 | In all cases an accepted word is no further away than is reported, and than the limit. |
| `LevenshteinPrefixLanguage.SomeWordIsLost` | base/levenshtein_dfa.cpp:168-193 | For every prefix size and every limit of two or more, a pattern, its misprints and a word with two of them that is not accepted. |
| `LevenshteinPrefixLanguage.ExactIff` | base/levenshtein_dfa.cpp:37-193 | All automata of a prefix size and a limit accept exactly the words within the limit if and only if one of the two numbers is at most one. |
| `LevenshteinPrefixLanguage.CompletionIff` | base/levenshtein_dfa.cpp:355-361 | In these cases some position has v errors left if and only if some continuation of the word can be made with them. |
| `LevenshteinDfa.AcceptsByEditDistance` | base/levenshtein_dfa.hpp:11-19 | A word within `maxErrors` by `strings::EditDistance` is accepted. |
| `LevenshteinDfa.LevenshteinDFA.constructor` | base/levenshtein_dfa.cpp:197-282 | The breadth-first construction ends, for all prefix sizes, misprints and error limits, and leaves tables that describe the automaton of the transition table state by state. |
| `LevenshteinDfa.Construct` | base/levenshtein_dfa.cpp:224-281 | Every id has the transitions, the acceptance and both error counts of its own state; ids are distinct states, 0 is the start and 1 the empty state. |
| `LevenshteinDfa.MakeAlphabet` | base/levenshtein_dfa.cpp:201-222 | The alphabet holds every letter that a move can tell from others, sorted, and a last letter that stands for all the rest. |
| `LevenshteinDfa.Missed` | base/levenshtein_dfa.cpp:216-222 | The stand-in is the least character missing from the sorted alphabet. |
| `LevenshteinDfa.StatesAreFinite` | base/levenshtein_dfa.cpp:248-281 | Every state that can be met belongs to one finite set that depends on the pattern's length and on maxErrors only; it bounds the search. |
| `LevenshteinDfa.LevenshteinDFA.Move` | base/levenshtein_dfa.cpp:363-376 | From the id of a state any character at all, in the alphabet or not, leads to the id of that state's successor. |
| `LevenshteinDfa.LowerBound` | base/levenshtein_dfa.cpp:369-373 | The bisection splits the sorted alphabet at the letter. |
| `LevenshteinDfa.ErrorsMade` | base/levenshtein_dfa.cpp:342-353 | The least number of errors over the accepting positions, or maxErrors if there is none. |
| `LevenshteinDfa.PrefixErrorsMade` | base/levenshtein_dfa.cpp:355-361 | The least number of errors over all positions, or maxErrors if there is none. |
| `LevenshteinDfa.PrefixErrorsNeverDecrease` | base/levenshtein_dfa.hpp:130-132 | From a state to its successor the number of errors already made cannot decrease, for any prefix size and misprints. |
| `LevenshteinDfa.PrefixErrorsMean` | base/levenshtein_dfa.hpp:130-132 | With a prefix size or a limit of at most one, the errors already made are the least distance that any word beginning so can have, or the limit if that is less. |
| `LevenshteinDfa.RejectsIff` | base/levenshtein_dfa.hpp:123-124 | In these cases no position is left if and only if every continuation is further away than the limit. |
| `LevenshteinDfa.Iterator.Move` | base/levenshtein_dfa.hpp:75-79 | The iterator's id stays that of the run on all characters read; the errors of the prefix do not decrease and a rejection is final. |
| `LevenshteinDfa.Iterator.Accepts` | base/levenshtein_dfa.hpp:81 | On the finished tables acceptance is that of the run; with a prefix size or a limit of at most one it decides the distance. |
| `LevenshteinDfa.Iterator.ErrorsMade` | base/levenshtein_dfa.hpp:84 | On the finished tables the report is the limit for a word that is not accepted and, with a prefix size or a limit of at most one, the distance of the word, capped at the limit. |
| `LevenshteinDfa.Iterator.PrefixErrorsMade` | base/levenshtein_dfa.hpp:85 | On the finished tables the number is the least distance of any continuation, capped at the limit, in the same cases. |
| `LevenshteinDfa.Iterator.Rejects` | base/levenshtein_dfa.hpp:82 | The id is that of the rejecting state if and only if the run has no position left; in the same cases, if and only if no continuation is within the limit. |
| `PrefixDfa.PrefixIterator.Accepts` | base/dfa_helpers.hpp:62 | The modifier accepts if and only if some prefix of all characters given is accepted by the automaton, although it skips characters. |
| `PrefixDfa.PrefixIterator.Move` | base/dfa_helpers.hpp:17-60 | Keeps that invariant in all three branches; an acceptance is final and the reported errors do not increase after it. |
| `PrefixDfa.PrefixIterator.Rejects` | base/dfa_helpers.hpp:63 | After a rejection no continuation has an accepted prefix; with a prefix size or a limit of at most one it rejects if and only if that is so. |
| `PrefixDfa.PrefixIterator.ErrorsMade` | base/dfa_helpers.hpp:64 | Before a prefix is accepted the limit, for every prefix size. Afterwards the automaton's number for the characters kept, which are defined for every prefix size; with a prefix size or a limit of at most one, their distance, capped at the limit. |
| `PrefixDfa.PrefixIterator.PrefixErrorsMade` | base/dfa_helpers.hpp:65 | The least number of errors over the positions that the run on the characters kept has left. |
| `PrefixDfa.PlainKept` | base/dfa_helpers.hpp:24-53 | Without a restricted prefix the characters kept are given by the distances of the pattern alone. |
| `PrefixDfa.DFAMove` | base/dfa_helpers.hpp:84-89 | Moving over a text equals moving over its characters one by one. |
| `PrefixDfaErrors.KeepsAllIff` | base/dfa_helpers.hpp:24-53 | The modifier passes over no character of a word if and only if none raises the report after the first accepted prefix. |
| `PrefixDfaErrors.FallsAgain` | base/dfa_helpers.hpp:49 | Words on which the number of errors rises and falls again: for every pattern that ends in "aba" with a limit of two or more, and for every one that ends in "ab" with three or more. |
| `PrefixDfaErrors.RisesForGoodIff` | base/dfa_helpers.hpp:49 | The comment holds for all patterns of a length and all words if and only if the length or the limit is at most one, or both are two. |
| `PrefixDfaErrors.ReportsTooFew` | base/dfa_helpers.hpp:24-53 | With a limit of three or more, for every pattern that ends in "aab" there is a word for which the modifier reports one error although every prefix has two or more. |
| `PrefixDfaErrors.ReportsLeastIff` | base/dfa_helpers.hpp:24-53 | The report after the first accepted prefix is the least one of all prefixes from there on, for all patterns of a length and all words, if and only if the length or the limit is at most two. |
| `SuffixOrder.BeforeIsLexLess` | base/suffix_array.cpp:86-90 | The recursive order of suffixes is the lexicographic order of the strings. |
| `SuffixOrder.SuffixArrayIsPermutation` | base/suffix_array.cpp:86-90 | Listing all non-empty suffixes strictly in order makes every position occur exactly once. |
| `SuffixOrder.SuffixArrayIsUnique` | base/suffix_array.cpp:86-90 | A string has only one suffix array. |
| `RadixSort.Sort` | base/suffix_array.cpp:25-42 | The counting sort over arrays is a stable sort: a rearrangement by value in which equal values keep their order; nothing behind the result is touched. |
| `RadixSort.PlacesPermute` | base/suffix_array.cpp:38-41 | The places given to the keys are all different and fill the result. |
| `RadixSort.PlaceOrder` | base/suffix_array.cpp:38-41 | Places follow values first and old positions second. |
| `SkewOrder.RestoreRoundTrip` | base/suffix_array.cpp:44-49 | The index of a sampled position and `RestoreIndex` are inverse, the fake position included. |
| `SkewOrder.NamesKeepOrder` | base/suffix_array.cpp:146-168 | The suffixes of the string of names are ordered exactly as the sampled suffixes of the text. |
| `SkewOrder.RanksOrder` | base/suffix_array.cpp:170-186 | Comparing ranks compares sampled suffixes, the empty one included. |
| `SkewOrder.FakeIsFirst` | base/suffix_array.cpp:207-210 | The fake suffix, if there is one, has the least rank, so that starting the merge behind it skips just that. |
| `SkewOrder.SampleIsLeqMeans` | base/suffix_array.cpp:11-23 | The two- and three-part comparison of the merge decides the order of the two suffixes. |
| `Skew.FillSample` | base/suffix_array.cpp:127-136 | The sample lists all positions not divisible by three, and the fake one if n = 1 modulo 3. |
| `Skew.SortTriples` | base/suffix_array.cpp:138-144 | Three stable passes sort the sampled positions by their triples. |
| `Skew.NameTriples` | base/suffix_array.cpp:146-168 | The names order the triples: equal names exactly for equal triples, and no name left out. |
| `Skew.SortNames` | base/suffix_array.cpp:170-183 | By recursion, or directly if all names differ, sa12 becomes the suffix array of the names and s12 the ranks; the recursion is on a strictly shorter string. |
| `Skew.RankedByNames` | base/suffix_array.cpp:170-186 | The suffix array of the names ranks all sampled suffixes of the text. |
| `Skew.SortZero` | base/suffix_array.cpp:188-200 | The remaining positions end up in the order of their suffixes. |
| `Skew.CompleteZero` | base/suffix_array.cpp:197-200 | A stable sort by first characters, after an order by what follows, is the order of the suffixes. |
| `Skew.TakeLess` | base/suffix_array.cpp:210-232 | One step of the merge keeps the output sorted and below everything that is still to come. |
| `Skew.Merge` | base/suffix_array.cpp:205-238 | The merge, with both its remainders, writes the suffix array. |
| `Skew.RawSkew` | base/suffix_array.cpp:96-239 | For every padded string of positive characters the array becomes its suffix array; termination of the recursion included. |
| `Skew.Skew` | base/suffix_array.cpp:244-248 | The suffix array of every byte string, zero bytes included. |
| `Skew.WrapKeepsOrder` | base/suffix_array.cpp:51-67 | Adding one to every byte and zeros behind leaves the order of suffixes as it was. |
| `BwtOrder.FirstColumn` | coding/bwt.cpp:47-74 | Binary search over the group starts gives the character and the rank of every row of the sorted column, through empty groups. |
| `BwtOrder.StepsToNextSuffix` | coding/bwt.cpp:182-183 | From the row of the suffix at i, rank and select lead to the row of the suffix at i + 1, and the first column shows the character at i. |
| `BwtOrder.WalkVisitsSuffixes` | coding/bwt.cpp:176-186 | After i steps the walk is in the row of the suffix at i; it meets the row of '$' only after the last character. |
| `Bwt.FirstColumnOf.constructor` | coding/bwt.cpp:30-43 | Counting and prefix sums leave, for each byte, the number of smaller bytes. |
| `Bwt.LastColumnOf.constructor` | coding/bwt.cpp:87-97 | The table lists, for each byte, the rows of the canonical last column that end in it, in order. |
| `Bwt.LastColumnOf.Select` | coding/bwt.cpp:116-128 | The rank-th row that ends in the byte. |
| `Bwt.Forward` | coding/bwt.cpp:140-159 | Writes the last column of the sorted rotations without '$', and returns the row of the text itself. |
| `Bwt.Reverse` | coding/bwt.cpp:168-187 | Writes the characters that the walk by rank and select meets, on every input on which the walk is defined. |
| `Bwt.ReverseUndoesForward` | coding/bwt.cpp:138-187 | The reverse transform of the transform of any byte string, periodic or with zeros, is defined, is that string, and ends in the row of '$'. |
| `Bwt.RoundTrip` | coding/bwt.cpp:140-187 | Running the one after the other gives the text back. |
| `MoveToFrontCoding.MoveToFront.constructor` | coding/move_to_front.cpp:16-19 | The list starts with all bytes in order. |
| `MoveToFrontCoding.Rotate` | coding/move_to_front.cpp:29 | The in-place rotation moves one element to the front and keeps the order of the others. |
| `MoveToFrontCoding.MoveToFront.Transform` | coding/move_to_front.cpp:21-32 | Returns the place of the byte, moves it to the front, and keeps the list a permutation of all bytes. |
| `MoveToFrontCoding.EncodedConcat` | coding/bwt_coder.hpp:31-33 | The code of a text in two parts is that of the first, then that of the second from the list the first leaves. |
| `MoveToFrontCoding.EncodeBuffer` | coding/bwt_coder.hpp:31-33 | The encoder's loop rewrites the buffer in place by its code. |
| `MoveToFrontCoding.OrderIsByRecency` | coding/move_to_front.cpp:21-32 | After any text the list holds the bytes used last first, and the unused ones in order behind them. |
| `MoveToFrontCoding.NumberMeans` | coding/bwt_coder.hpp:31-33 | The number written for a byte is how many other bytes have been used since its last use or, at its first use, how many have been used or are smaller. |
| `MoveToFrontCoding.DecodeBuffer` | coding/bwt_coder.hpp:85-92 | The decoder's loop turns the code of any text into the text, in place. |
| `Bits.RoundTrip` | coding/bit_streams.hpp:42-74 | Bits make a number and the number gives the same bits back. |
| `Bits.ValueOfBits` | coding/bit_streams.hpp:49 | The n low bits of a number have its value modulo 2^n. |
| `Bits.UnpackPackAll` | coding/bit_streams.hpp:119-127 | Unpacking packed bits gives them back, followed by less than a byte of zeros. |
| `Bits.PackedBit` | coding/bit_streams.hpp:42-74 | Bit k of the list is bit k % 8 of byte k / 8, the least significant first. |
| `Bits.PaddingIsZero` | coding/bit_streams.hpp:119-127 | The bits of the last byte that are not used are zeros. |
| `BitStreams.BitWriter.Write` | coding/bit_streams.hpp:42-74 | Up to eight bits are appended to the bits before, across a byte boundary or not; exactly the full bytes are passed on and bits above n are ignored. |
| `BitStreams.BitWriter.Flush` | coding/bit_streams.hpp:119-127 | The bits that are pending, and no byte if there are none, padded with zeros. |
| `BitStreams.WriteAtMost32Bits` | coding/bit_streams.hpp:85-97 | Up to 32 bits of a value are appended, least significant first. |
| `BitStreams.BitReader.Read` | coding/bit_streams.hpp:143-171 | Returns and removes the next n bits of the stream, across byte boundaries, with at most one byte read ahead. |
| `BitStreams.VarUintMeans` | coding/varint.hpp:18-27 | Byte i holds the seven bits of the number from 7i on, and all bytes but the last have bit 7 set. |
| `BitStreams.VarUintIsShort` | coding/varint.hpp:15 | The number of bytes is the least one that holds the number in groups of seven bits. |
| `BitStreams.ReadVarUint` | coding/varint.hpp:32-69 | A number is read back whatever follows it, and nothing more is taken. |
| `BitStreams.FixedMeans` | coding/write_to_sink.hpp:28-32 | Byte i of a number of fixed size is its digit of weight 256^i. |
| `Kraft.GreedyIsLeast` | coding/huffman.cpp:79-92 | No code lengths that satisfy Kraft's inequality cost less than merging the two least weights again and again (exchange argument, any weights). |
| `HuffmanTree.PoppedAreLeast` | coding/huffman.hpp:232-240 | The two trees popped are those of the two least weights in the queue. |
| `HuffmanTree.TreeFillsCode` | coding/huffman.cpp:87-91 | The leaf depths of every binary tree satisfy Kraft's inequality with equality. |
| `HuffmanTree.GreedyIsBest` | coding/huffman.cpp:79-92 | No binary tree over the same frequencies costs less than the greedy cost. |
| `HuffmanTree.GreedyIsOptimal` | coding/huffman.cpp:67-98 | A tree with the greedy cost is at least as good as any code lengths for its leaves, in whatever order they come. |
| `HuffmanTree.BuildHuffmanTree` | coding/huffman.cpp:67-98 | The tree is what the rounds of merging make of the table, with exactly its symbols and frequencies and the least total frequency times depth; no tree exactly for the empty table. |
| `HuffmanTree.TreeOfTable` | coding/huffman.cpp:79-95 | Whatever order the queue is filled in, the rounds of merging make an optimal tree of the table, and a heavy one if every symbol occurs. |
| `HuffmanTree.TreeIsUnique` | coding/huffman.hpp:232-240 | The tree for a table does not depend on the order in which the symbols enter the queue. |
| `HuffmanTree.MergedIsHeavy` | coding/huffman.cpp:79-92 | Merging keeps subtrees at least as heavy as the Fibonacci number of their height. |
| `HuffmanCodes.EntriesArePrefixFree` | coding/huffman.cpp:35-48 | No code of a tree is a prefix of another one. |
| `HuffmanCodes.PathLengths` | coding/huffman.cpp:39-44 | The code of a leaf is as long as the leaf is deep. |
| `HuffmanCodes.TableSymbols` | coding/huffman.cpp:70-71 | Every symbol of the table has exactly one code. |
| `HuffmanOrder.TreeIsOrdered` | coding/huffman.cpp:85-90 | Every inner node of a tree that is built takes its symbol from its left child, and that of the right child is greater. |
| `HuffmanOrder.OneMeansGreater` | coding/huffman.cpp:46-47 | Wherever a code has a 1, another one agrees with it up to there, has a 0 and stands for a smaller symbol. |
| `HuffmanCodes.ShortCodes` | coding/huffman.cpp:102-109 | A tree of total frequency below 9227465 whose subtrees are heavy has no code of more than 32 bits. |
| `HuffmanDepth.FibonacciIsDeep` | coding/huffman.cpp:79-98 | For every h above 0, the only tree for the text whose symbols occur 1, 1, 1, 2, 3, 5, ..., Fib(h) times is h deep, and the text has Fib(h + 2) symbols; the last symbol may occur more often. |
| `HuffmanDepth.HeightWithinIff` | coding/huffman.cpp:79-98 | The trees of all texts of n symbols are at most h deep if and only if n < Fib(h + 3), for all n and h. |
| `HuffmanDepth.ShortCodesIff` | coding/huffman.cpp:102-109 | No text of n symbols fails the check on depths if and only if n < 9227465. |
| `Huffman.SetDepths` | coding/huffman.cpp:100-113 | The check on depths passes if and only if the whole tree is at most 32 deep. |
| `Huffman.HuffmanCoder.Init` | coding/huffman.hpp:97-105 | The coder has the tree and the codes of an optimal tree, or fails exactly if that tree is too deep; each symbol of the table has a code, and no other. |
| `Huffman.BuiltNodes` | coding/huffman.cpp:94-97 | The nodes of a built tree lead along every code to its symbol, and to no other leaf. |
| `Huffman.HuffmanCoder.BuildTables` | coding/huffman.cpp:35-48 | Both tables hold exactly the codes of the tree below the given path. |
| `Huffman.HuffmanCoder.LeastCode` | coding/huffman.hpp:83-91 | The next entry in the table's order: by bits, then by length. |
| `Huffman.HuffmanCoder.WriteEncoding` | coding/huffman.hpp:113-124 | Every code is written once with its symbol, in the order of the codes. |
| `Huffman.HuffmanCoder.ReadEncoding` | coding/huffman.hpp:126-166 | Reading what was written, whatever follows it, gives the same codes and a tree in which every code leads to its symbol, and takes no byte more. |
| `Huffman.HuffmanCoder.AddCode` | coding/huffman.hpp:143-164 | One more code grows the tree and leaves all codes before it intact. |
| `Huffman.HuffmanCoder.WriteSymbol` | coding/huffman.hpp:244-258 | Appends exactly the bits of the symbol's code, byte by byte. |
| `Huffman.HuffmanCoder.EncodeAndWrite` | coding/huffman.hpp:260-272 | Writes the length and the packed codes of the text, and returns the number of bits of the codes. |
| `Huffman.HuffmanCoder.ReadSymbol` | coding/huffman.hpp:274-290 | If the stream starts with the code of a symbol, that symbol is returned and exactly its code is taken. |
| `Huffman.HuffmanCoder.ReadAndDecode` | coding/huffman.hpp:199-207 | What was encoded is read back and no byte more is taken, whatever follows, by a coder that has built its tree or read it. |
| `Frequencies.CountSymbols` | coding/huffman.hpp:65-71 | The table has exactly the symbols of the block, each with the number of its occurrences. |
| `Frequencies.TotalsAgree` | coding/bwt_coder.hpp:37-38 | Any amount that counts once for every occurrence of a symbol comes to the same total along the text and over the leaves with their frequencies. |
| `Frequencies.CountsAddUp` | coding/bwt_coder.hpp:37-38 | The frequencies of all leaves add up to the length of the block. |
| `ShortestCodes.KraftInequality` | coding/huffman.cpp:35-48 | Codes of which none is a prefix of another one satisfy Kraft's inequality, whatever their number and lengths. |
| `ShortestCodes.MessageLength` | coding/huffman.hpp:261-272 | The number of bits of a coded text is the total of the code lengths along it. |
| `ShortestCodes.OptimalIsShortest` | coding/huffman.cpp:67-98 | No prefix-free code that can write a text makes it shorter than the code of the optimal tree of its frequencies. |
| `BlockCodec.EncodeAndWriteBlock` | coding/bwt_coder.hpp:24-41 | Writes a block of the string whose coded text no prefix-free code would have made shorter; can fail only for a block of 9227465 bytes or more. |
| `BlockCodec.ShortBlock` | coding/huffman.cpp:102-109 | A shorter block cannot meet the limit on depths. |
| `BlockCodec.ReadAndDecodeBlock` | coding/bwt_coder.hpp:73-100 | Any block of a string, empty and single-symbol ones included, is read back as that string and consumed to the byte, whatever follows. |
| `BlockCodec.EncodeAndWrite` | coding/bwt_coder.hpp:56-71 | Writes as many blocks as announced, each the shortest of its kind, whose strings one behind the other are the input; all but the last have the block size, and the last is not empty. |
| `BlockCodec.ReadAndDecode` | coding/bwt_coder.hpp:110-122 | Concatenated blocks are read in order as the concatenation of their strings. |
| `BlockCodec.RoundTrip` | coding/bwt_coder.hpp:16-123 | For every byte string and every block size but 0 the text comes back. |
| `TextStorage.IndexIsContiguous` | coding/text_storage.hpp:130-141 | The blocks of the index divide the strings without gap or overlap. |
| `TextStorage.BlockedTextStorageIndex.GetBlockIx` | coding/text_storage.hpp:155-180 | The binary search finds the block that holds the string, and the number of blocks exactly if no block does. |
| `TextStorage.BlockedTextStorageIndex.Read` | coding/text_storage.hpp:182-206 | Delta-decoding gives every block its place in the file, its first string and its number of strings. |
| `TextStorage.BlockedTextStorageWriter.constructor` | coding/text_storage.hpp:38-44 | The writer starts behind eight bytes kept for the place of the index, with no string. |
| `TextStorage.BlockedTextStorageWriter.Append` | coding/text_storage.hpp:77-94 | Adds one string at the end of the contents, whether or not the pool becomes a block; every block reaches the block size, and does so with its last string only. |
| `TextStorage.BlockedTextStorageWriter.FlushPool` | coding/text_storage.hpp:108-114 | Writes the lengths and the compressed pool. |
| `TextStorage.BlockedTextStorageWriter.WriteIndex` | coding/text_storage.hpp:62-74 | The number of blocks and a row for each, places as differences. |
| `TextStorage.BlockedTextStorageWriter.Close` | coding/text_storage.hpp:46-75 | What is in the sink is the stored form of exactly the strings appended, with the place of the index put in front; only the last block may stay below the block size. |
| `TextStorage.BlockedTextStorageReader.ExtractString` | coding/text_storage.hpp:230-277 | The stringIx-th appended string, from the cache or not, or an abort exactly if there is no such string; its block is cached afterwards, and every valid cache entry stays that of its block and unchanged. |
| `TextStorage.BlockedTextStorageReader.ReadBlock` | coding/text_storage.hpp:247-263 | A block's strings, each at the place that its entry says. |
| `TextStorage.BlockedTextStorageReader.ClearCache` | coding/text_storage.hpp:279 | Dropping the cache keeps the reader valid. |
| `TextStorage.BlockedTextStorageReader.GetNumStrings` | coding/text_storage.hpp:224-228 | The number of strings stored. |
| `TextStorage.Serve` | coding/text_storage.hpp:212-279 | Any sequence of extractions and cache clearings is answered as from the plain list of strings. |
| `TextStorage.Store` | coding/text_storage.hpp:34-125 | Appending any strings and closing leaves a storage of exactly these strings. |
| `MyersDiff.EditsIsTheDistance` | coding/diff.hpp:84-85 | The edits counted on the grid are the least number of insertions and deletions that turn A into B. |
| `MyersDiff.SnakeIsFurthest` | coding/diff.hpp:105-114 | Starting behind the better neighbour and following matches reaches the furthest point of the round on its diagonal, also off the grid. |
| `MyersDiff.EndIsFurthest` | coding/diff.hpp:115-116 | In the round with as many edits as needed the furthest point on the last diagonal is the end itself, not one beyond it. |
| `MyersDiff.NotYet` | coding/diff.hpp:101-119 | A round that does not find the end shows that more edits are needed. |
| `MyersDiff.DiffMyersSimple` | coding/diff.hpp:94-121 | Returns the least number of edits if it is at most maxPatchSize and -1 otherwise, for all sequences. |
| `MyersDiff.MinimalPatch` | coding/diff.hpp:84-87 | In terms of edit scripts: a result is the price of a cheapest one, and -1 means that every one is dearer than allowed. |
| `RollingDiff.ReplayConcat` | coding/diff.hpp:22-51 | Patches can be replayed piece by piece. |
| `RollingDiff.ReplacementIsRight` | coding/diff.hpp:123-143 | Replacing all but the common ends makes the destination of the source, and takes the source up completely. |
| `RollingDiff.SimpleReplaceDiff` | coding/diff.hpp:125-144 | Emits exactly that patch, the common end not overlapping the common beginning. |
| `RollingDiff.LongestSuffix` | coding/diff.hpp:137-139 | The common end is the longest one. |
| `RollingDiff.WholePatchIsRight` | coding/diff.hpp:193-208 | Whichever equal blocks are copied in order, with replacements between them, the patch makes the destination of the source. |
| `RollingDiff.HashBlocks` | coding/diff.hpp:170-174 | The table holds every whole block of the source under its hash, and nothing else. |
| `RollingDiff.LookUp` | coding/diff.hpp:180-188 | Finds the first block with the hash that does not lie before the end of the last copy. |
| `RollingDiff.Diff` | coding/diff.hpp:159-209 | For any hash function and block size but 0 the calls made replay to exactly dst and take all of src up; every block copied is the first one behind the last copy with the hash of its window, no window copied to touches the end of dst, and every other window before the end was looked up in vain. |
| `RollingDiff.NoBlockMissed` | coding/diff.hpp:146-149 | With a hash that does not confuse a block with a window, no equal block behind the last copy is missed at a window that does not touch the end of dst. |
| `RollingDiff.CopiedIff` | coding/diff.hpp:178-206 | Without collisions, a window with an equal block behind the last copy is copied to if and only if it does not touch the end of dst. |
| `RollingDiff.LastWindowIsMissed` | coding/diff.hpp:178 | For "123" and "42" block by block the patch deletes everything and inserts everything, although the last block is in both. |
| `RollingHash.PowUint` | base/math.hpp:135-146 | Repeated squaring in words of any size is the power modulo that size. |
| `RollingHash.DropFirst` | base/rolling_hash.hpp:50-51 | The first element of a window counts with the highest power, which is what is subtracted. |
| `RollingHash.RabinKarpRollingHasher.Init` | base/rolling_hash.hpp:22-39 | The hash is the polynomial of the window modulo the word. |
| `RollingHash.RabinKarpRollingHasher.Scroll` | base/rolling_hash.hpp:41-53 | After every scroll the hash is again the polynomial of the window moved by one, wrap-around included. |
| `RollingHash.RemoveMultiplierIsOdd` | base/rolling_hash.hpp:43 | With an odd multiplier the factor for the element that leaves never becomes 0 in a word of even size, as the assertion demands. |
| `Queues.LinkedMap.Emplace` | base/linked_map.hpp:19-28 | Appends a new key at the end and refuses a known one, list and index in agreement. |
| `Queues.LinkedMap.PopFront` | base/linked_map.hpp:30-35 | Takes the first pair away from list and index. |
| `Queues.LinkedMap.Erase` | base/linked_map.hpp:37-46 | Takes exactly the pair of the key away, the others in their order, and succeeds exactly if it is there. |
| `Queues.BidirectionalMap.Add` | base/bidirectional_map.hpp:30-38 | Adds a pair exactly if neither side is known; the two maps stay inverse. |
| `Queues.BidirectionalMap.RemoveKey` | base/bidirectional_map.hpp:40 | Takes the pair of a key out of both maps. |
| `Queues.BidirectionalMap.RemoveValue` | base/bidirectional_map.hpp:42 | Takes the pair of a value out of both maps. |
| `ThreadPoolRuns.WakeMoves` | base/thread_pool_delayed.cpp:102-156 | What a worker's section takes out of the queues is exactly what the worker then holds. |
| `ThreadPoolRuns.GoStartsNext` | base/thread_pool_delayed.cpp:158-183 | Outside the lock a worker starts one task that it holds and keeps the others. |
| `ThreadPoolRuns.StepKeepsPlaces` | base/thread_pool_delayed.cpp:58-222 | Every step of every client and worker keeps each accepted task in exactly one place: queued, held by one worker, cancelled or started. |
| `ThreadPoolSafety.RunIsSafe` | base/thread_pool_delayed.cpp:58-222 | All invariants hold after any interleaving of pushes, cancellations, shutdowns, workers and the clock. |
| `ThreadPoolSafety.EveryTaskInOnePlace` | base/thread_pool_delayed.hpp:52-82 | In every reachable state an accepted task is in exactly one of the four places once, and any other id is nowhere. |
| `ThreadPoolSafety.NoTaskStartsTwice` | base/thread_pool_delayed.cpp:158-183 | No two entries of the history of starts are of the same task. |
| `ThreadPoolSafety.CancelledNeverStarts` | base/thread_pool_delayed.hpp:79-82 | A task that was cancelled with success has not started and never will, whatever happens later. |
| `ThreadPoolSafety.TakenInOrder` | base/thread_pool_delayed.cpp:145-149 | The immediate tasks taken so far and those still queued are, in this order, in the order of their ids. |
| `ThreadPoolSafety.LaterPushLargerId` | base/thread_pool_delayed.cpp:59-67 | A later push gets a larger id than every accepted immediate task, so the order of ids is that of the pushes. |
| `ThreadPoolSafety.NoDelayedTaskStartsEarly` | base/thread_pool_delayed.hpp:65-66 | No delayed task starts before its time, neither in normal work nor while a worker drains the queues. |
| `ThreadPoolSafety.NothingLeftPending` | base/thread_pool_delayed.cpp:124-136 | When all workers of a pool that executes what is pending have ended, every accepted task was either cancelled or started, once. |
| `ThreadPoolSafety.SkippedStays` | base/thread_pool_delayed.cpp:135-138 | After a shutdown that skips what is pending, no step changes the queues. |
| `ThreadPoolSafety.SkippedNeverStarts` | base/thread_pool_delayed.cpp:135-138 | What was queued at such a shutdown never starts. |
| `ThreadPoolSafety.AloneStartsInOrder` | base/thread_pool_delayed.hpp:56-57 | With one worker immediate tasks start in the order of their pushes. |
| `ThreadPoolSafety.SomeMayOvertake` | base/thread_pool_delayed.hpp:56-57 | With two workers or more there is a run in which a task starts before one pushed earlier. |
| `ThreadPoolSafety.OrderKeptIffAlone` | base/thread_pool_delayed.hpp:56-57 | The documented order of execution holds in all runs if and only if there is at most one worker. |
| `ThreadPoolProgress.NobodySleepsOn` | base/thread_pool_delayed.cpp:104-122 | Whenever a worker's wait began, its condition holds or its time is over once a task is queued or due or the pool is shut down. |
| `ThreadPoolProgress.OneRound` | base/thread_pool_delayed.cpp:98-163 | A round of a worker starts what it has taken from the queues, in order, and leaves the worker waiting. |
| `ThreadPoolProgress.DueTaskStarts` | base/thread_pool_delayed.cpp:98-163 | From every state in which a worker waits and a task is due, delayed or immediate, events of this worker alone lead to the start of the task. |
| `ThreadPoolProgress.DrainsInOrder` | base/thread_pool_delayed.cpp:166-183 | After a shutdown pending immediate tasks start first, and then always the delayed task that no other one precedes, not before its time. |
| `ThreadPoolProgress.WorkerEnds` | base/thread_pool_delayed.cpp:98-183 | After a shutdown every worker can come to its end, whatever it is doing, with nobody else taking part. |
| `ThreadPoolProgress.AllCanEnd` | base/thread_pool_delayed.cpp:224-234 | From every reached state with a shutdown, events of the workers and the clock lead to the end of all workers; if what is pending is executed, every accepted task has then been cancelled or started, once. |
| `ThreadPoolProgress.FirstShutdownCounts` | base/thread_pool_delayed.cpp:213-222 | After a shutdown no later one changes how pending tasks are treated, and nothing is accepted or cancelled any more. |
| `ThreadPoolProgress.CancelIff` | base/thread_pool_delayed.cpp:186-211 | In every reached state a cancellation succeeds if and only if the pool is not shut down and the task is queued; it takes away this task and no other one, and keeps the order. |
| `ThreadPool.ThreadPool.AddImmediate` | base/thread_pool_delayed.cpp:58-67 | On the real queues: the step of the state machine, and the task is filed under its new id; a pool that was shut down accepts nothing. |
| `ThreadPool.ThreadPool.AddDelayed` | base/thread_pool_delayed.cpp:69-79 | The same for delayed tasks. |
| `ThreadPool.ThreadPool.CancelTask` | base/thread_pool_delayed.cpp:186-211 | Succeeds exactly if the pool runs and the task is in the queue of its range of ids, and takes just that task away. |
| `ThreadPool.ThreadPool.ShutDown` | base/thread_pool_delayed.cpp:213-222 | Only the first shutdown has an effect: it sets the exit, and leaves the queues as they are. |
| `ThreadPool.ThreadPool.WakeUp` | base/thread_pool_delayed.cpp:102-156 | A worker's section on the real queues is the step of the state machine. It takes the first immediate task if there is one, and a delayed task if and only if some task is due: a due one that no queued task precedes, and it alone leaves the queue. |
| `ThreadPool.GetFirstValue` | base/thread_pool_delayed.hpp:139-145 | A delayed task that no other one precedes. |
| `ThreadPool.LeastIsFirst` | base/thread_pool_delayed.hpp:112-118 | The least delayed task by time and id is the one that the state machine takes. |
| `ClusteringMap.ConnectedIffSameName` | base/clustering_map.hpp:41-55 | Being connected by unions is being in the same class of the history; so it is an equivalence. |
| `ClusteringMap.ConnectedIsLeast` | base/clustering_map.hpp:41-55 | It is the least equivalence that contains all unions. |
| `ClusteringMap.Compress` | base/clustering_map.hpp:121-130 | Path compression changes neither roots nor meaning, and keeps ranks rising towards the root. |
| `ClusteringMap.AddKey` | base/clustering_map.hpp:132-141 | A key that is new becomes a class of its own, and nothing else changes. |
| `ClusteringMap.AddValue` | base/clustering_map.hpp:35-39 | A value at the root of its key is a value of exactly the keys connected to it. |
| `ClusteringMap.Unite` | base/clustering_map.hpp:143-158 | Attaching one root to another makes one class of two, with the values of both, and keeps a root of rank r above at least 2^r keys. |
| `ClusteringMap.AlreadyUnited` | base/clustering_map.hpp:48-49 | A union within a class changes nothing. |
| `ClusteringMap.PathsAreShort` | base/clustering_map.hpp:22-26 | A chain of d links needs at least 2^d keys. |
| `ClusteringMap.ClusteringMap.GetEntry` | base/clustering_map.hpp:132-141 | Finds the entry, or makes a new one that is its own root. |
| `ClusteringMap.ClusteringMap.GetRoot` | base/clustering_map.hpp:121-130 | Terminates under compression, returns the root of the key's class and links the key to it directly, ranks and values untouched. |
| `ClusteringMap.ClusteringMap.AppendValue` | base/clustering_map.hpp:34-39 | Adds one call to the history that the table stands for. |
| `ClusteringMap.ClusteringMap.Get` | base/clustering_map.hpp:57-64 | Exactly the values appended to keys connected to the key, as a multiset. |
| `ClusteringMap.ClusteringMap.UnionKeys` | base/clustering_map.hpp:41-55 | Adds one union to the history that the table stands for. |
| `ClusteringMap.ClusteringMap.Attach` | base/clustering_map.hpp:143-158 | The same when one root is attached; the shorter list of values is appended to the longer one. |
| `ClusteringMap.ClusteringMap.ForEachCluster` | base/clustering_map.hpp:66-109 | Every class is visited once, with each of its keys once and with its values. |
| `MemTrie.AddedLookup` | base/mem_trie.hpp:234-282 | Adding changes the values of the key alone, by one value at the end, through every split of an edge. |
| `MemTrie.AddedIsTrie` | base/mem_trie.hpp:234-282 | Adding keeps every node below the root non-empty. |
| `MemTrie.ErasedLookup` | base/mem_trie.hpp:529-566 | Erasing under a key that is not empty takes its first such value away and changes no other key, through every merge of an edge. |
| `MemTrie.ErasedIsTrie` | base/mem_trie.hpp:529-566 | Erasing keeps every node below the root non-empty. |
| `MemTrie.EraseIsRightIff` | base/mem_trie.hpp:532-548 | Erasing is right for every key if and only if it does not merge the root with its only child, which takes the empty key, no value left at the root and a single child. |
| `MemTrie.MoveTo` | base/mem_trie.hpp:486-527 | Behind a prefix, or at a whole key, the place found holds exactly the values of the keys that go on from there; none is found only if there are none. |
| `MemTrie.ForEachInSubtree` | base/mem_trie.hpp:574-590 | All keys below a node in lexicographic order, each with its values in the order of their addition. |
| `MemTrie.MemTrie.Add` | base/mem_trie.hpp:234-282 | The multimap gains one value under one key. |
| `MemTrie.MemTrie.Erase` | base/mem_trie.hpp:284-287 | The multimap loses one value of one key if the root is not merged. |
| `MemTrie.MemTrie.EraseAt` | base/mem_trie.hpp:529-566 | The recursion with its removal of empty children is the erasure above. |
| `MemTrie.MemTrie.HasKey` | base/mem_trie.hpp:330-338 | True exactly if the key has a value. |
| `MemTrie.MemTrie.HasPrefix` | base/mem_trie.hpp:340-346 | True exactly if some key with a value starts so. |
| `MemTrie.MemTrie.ForEachInNode` | base/mem_trie.hpp:297-307 | The values of the key. |
| `MemTrie.MemTrie.ForEachWithPrefix` | base/mem_trie.hpp:316-328 | All keys that start with the prefix, with their values, in order. |
| `MemTrie.MemTrie.ForEachInTrie` | base/mem_trie.hpp:289-295 | All keys with their values, in order. |
| `PointDeltas.ZigZagRoundTrip` | base/bits.hpp:113-125 | Decoding undoes the zig-zag code of every 32-bit word. |
| `PointDeltas.ZigZagMeans` | base/bits.hpp:113-118 | The zig-zag code of x is 2x, or 2|x| - 1 if x is negative. |
| `PointDeltas.ShuffleRoundTrip` | base/bits.hpp:127-143 | Unshuffling undoes the perfect shuffle. |
| `PointDeltas.SplitUndoesMerge` | base/bits.hpp:145-164 | Splitting undoes merging, for all pairs of words. |
| `PointDeltas.MergeUndoesSplit` | base/bits.hpp:145-164 | Merging undoes splitting, for all words. |
| `PointDeltas.MergeInterleaves` | base/bits.hpp:145-156 | Bit i of x is bit 2i of the merged word and bit i of y is bit 2i + 1, for all words. |
| `PointDeltas.DeltaRoundTrip` | coding/geometry_coding.cpp:70-82 | A point is restored from its delta whatever was predicted. |
| `PointDeltas.DeltaBits` | coding/geometry_coding.cpp:70-75 | Bit 2i of the delta is bit i of the zig-zag code of the difference in x, and bit 2i + 1 that of the difference in y. |
| `PointDeltas.DecodedBits` | coding/geometry_coding.cpp:77-82 | The point decoded differs from the prediction by the number with these bits in x and in y. |
| `PointDeltas.DeltaOnto` | coding/geometry_coding.cpp:70-82 | Every word is the delta of the point that is decoded from it. |
| `PointDeltas.DeltaFitsIff` | coding/geometry_coding.cpp:406 | A delta leaves its two high bits free if and only if both coordinates differ from the prediction by at least -2^30 and less than 2^30. |
| `TriangleChains.FitsIff` | coding/geometry_coding.cpp:406 | The saver's check passes for a point exactly in that case. |
| `TriangleChains.LowerBound` | coding/geometry_coding.cpp:411 | The binary search splits the sorted edges at a node. |
| `TriangleChains.ChildrenFound` | coding/geometry_coding.cpp:410-437 | The lookup of a node finds the edges to its children and no others, the one on side 0 first. |
| `TriangleChains.NumberMeans` | coding/geometry_coding.cpp:406-430 | Bit 0 of a node's number is set if and only if an edge on side 0 leads on from it, bit 1 likewise for side 1, and the other bits are its delta. |
| `TriangleChains.NextEdges` | coding/geometry_coding.cpp:406-437 | One round gives the number of the node, delta and child bits, and the edges to go on with. |
| `TriangleChains.SaveChain` | coding/geometry_coding.cpp:398-453 | The stack machine writes the tree in preorder and ends. |
| `TriangleChains.Save` | coding/geometry_coding.cpp:390-454 | The numbers written are the first two points and then the tree in preorder. |
| `TriangleChains.ReadNext` | coding/geometry_coding.cpp:477-515 | Each combination of child bits selects the neighbour, its shared rib and its third known point, and leaves the right rest. |
| `TriangleChains.ReadTriangle` | coding/geometry_coding.cpp:477-514 | Appends the three points of the neighbour, behind the rib 1-2 if bit 0 was set and else behind 2-0, the third one from the delta and the prediction, and takes its child bits. |
| `TriangleChains.DecodeTriangles` | coding/geometry_coding.cpp:456-519 | From the saver's numbers all triangles come back in preorder with the right ribs, and no bit and no stack entry is left at the end. |
| `TriangleChains.RoundTrip` | coding/geometry_coding.cpp:390-519 | For every binary tree of triangles whose edges are listed in any order, and any predictor, decoding what was saved gives the triangles back. |
| `FileSorter.AppendRun` | coding/file_sort.hpp:119-127 | A sorted run behind full runs keeps every run at a multiple of the capacity sorted. |
| `FileSorter.LeastHeadIsLeast` | coding/file_sort.hpp:73-80 | The least head in the queue precedes everything that is left in any run. |
| `FileSorter.Heads` | coding/file_sort.hpp:70-71 | The queue starts with the first item of every run. |
| `FileSorter.Merge` | coding/file_sort.hpp:73-80 | The output is sorted and a rearrangement of the file; the queue always holds the head of every unfinished run. |
| `FileSorter.FileSorter.constructor` | coding/file_sort.hpp:39-49 | Starts with nothing added and room for the items asked for, but for 16 at least. |
| `FileSorter.FileSorter.Add` | coding/file_sort.hpp:51-57 | Adds one item; the buffer goes to the file first if and only if it is full. |
| `FileSorter.FileSorter.FlushToTmpFile` | coding/file_sort.hpp:119-127 | Leaves an empty buffer, and sorted runs of all items added. |
| `FileSorter.FileSorter.SortAndFinish` | coding/file_sort.hpp:59-83 | The output is a sorted rearrangement of all items added, for every strict weak order. |
| `FixedBits.ExceptsAreSorted` | coding/fixed_bits_ddvector.hpp:160-166 | The exceptions are sorted by index, each the value of its element. |
| `FixedBits.BitsAt` | coding/fixed_bits_ddvector.hpp:160-182 | The bits at index times Bits are the code of that element. |
| `FixedBits.CutOut` | coding/fixed_bits_ddvector.hpp:107-109 | Shifting and masking a number cuts out just these bits. |
| `FixedBits.Window` | coding/fixed_bits_ddvector.hpp:102-107 | Four bytes of the data are the 32 bits from their place on. |
| `FixedBits.Builder.PushBack` | coding/fixed_bits_ddvector.hpp:160-174 | Appends a value, as its bits or as an exception. |
| `FixedBits.Builder.PushBackUndefined` | coding/fixed_bits_ddvector.hpp:176-182 | Appends an undefined element. |
| `FixedBits.Builder.Close` | coding/fixed_bits_ddvector.hpp:141-158 | Writes the size, the bits padded to at least four bytes, and the exceptions. |
| `FixedBits.FixedBitsDDVector.Create` | coding/fixed_bits_ddvector.hpp:85-95 | Opening what was written represents the elements pushed. |
| `FixedBits.FixedBitsDDVector.FindInVector` | coding/fixed_bits_ddvector.hpp:68-73 | The binary search finds the value of an exception. |
| `FixedBits.FixedBitsDDVector.Get` | coding/fixed_bits_ddvector.hpp:97-115 | Undefined exactly for an undefined element, and its value otherwise; for Bits from 1 to 16 and up to the end of the buffer. |
| `ReaderCache.FirstKeysDiffer` | base/cache.hpp:71-99 | The keys 0 and 1 never share a slot, so that the search of Reset ends at once. |
| `ReaderCache.Cache.Reset` | base/cache.hpp:71-79 | No slot holds a key that belongs there. |
| `ReaderCache.Cache.Find` | base/cache.hpp:45-62 | Found exactly if the slot holds the key, which it holds afterwards; no other slot changes. |
| `ReaderCache.Cache.constructor` | base/cache.hpp:29-38 | A new cache has no slot with a key that belongs there. |
| `ReaderCache.ReaderCache.constructor` | coding/reader_cache.hpp:50-53 | A new cache is right for any reader, so no first hit is false. |
| `ReaderCache.ReaderCache.ReadPage` | coding/reader_cache.hpp:90-103 | The bytes of the page up to the end of the reader, from the cache or not; the page is in its slot afterwards, and no other slot changes. |
| `ReaderCache.ReaderCache.Read` | coding/reader_cache.hpp:55-80 | Exactly the bytes of the reader, for every range within it and after any earlier reads. |

## Left out

- LevenshteinLanguage.AcceptsIffClose: stated for prefixSize = 0; `PrefixAcceptsIffClose` is the statement with a restricted prefix.
- LevenshteinPrefixLanguage.PrefixAcceptsIffClose: stated for a prefix size or a limit of at most one, which by `ExactIff` are the cases in which it holds.
- BitStreams.ReadVarUint: a loop stands for the unrolled readers of 32 and 64 bits, and numbers are not limited to these widths; reading bytes that no writer has written is left out.
- BitStreams.WriteAtMost32Bits: the variant for 64 bits repeats the same step more often and is left out, like reading more than eight bits at once.
- Huffman.HuffmanCoder.ReadEncoding: the tree that is read is a map from paths to nodes instead of pointers, and the tree that is built is a value, so that ownership and aliasing of nodes are not modelled; a malformed code or a stream that ends early is not modelled either.
- BlockCodec.EncodeAndWriteBlock: shortest is the coded text; the size of the table of codes in front of it plays no part in the choice. A failure stands for the aborting check on depths; what was already written then is not described.
- TextStorage.Store: the file must be shorter than 2^64 bytes, since the place of the index is written in eight bytes.
- Bwt.Reverse: for inputs that are no transform of any text only the walk is described, under the condition that it is defined.
- MemTrie.MemTrie.Erase: nodes are values that are rebuilt along the path instead of pointers changed in place, so that moved-from nodes are not modelled; an edge is kept in reading order, not reversed.
- MemTrie.ForEachInSubtree: for moves in an ordered map; with unordered moves the keys come in another order.
- ThreadPoolProgress.DueTaskStarts: says that the task can be started without anybody's help, not that a scheduler of the operating system gives the worker its turn.
- ThreadPool.ThreadPool.WakeUp: a worker may wake up at any time, so that every safety statement holds for more runs than the program has; the conditions of its waiting appear in `NobodySleepsOn` only, and notifications are left out.
- ThreadPool.ThreadPool.AddImmediate: ids must not have wrapped around to one in use.
- RollingDiff.NoBlockMissed: a patch is the sequence of calls; the packed operation codes of PatchCoder (coding/diff.hpp:59-82) have no decoder to be proved against and are left out.
- MyersDiff.DiffMyersSimple: the trace that is written to tmpSink is left out.
- TriangleChains.DecodeTriangles: predictors are arbitrary functions, since the real ones compute in floating point; numbers are not passed through their variable-length form here.
- FileSorter.FileSorter.SortAndFinish: item counts are not limited to 32 bits, and an item is one place in the file instead of sizeof(T) bytes.
- FixedBits.FixedBitsDDVector.Create: the number of elements and all values must fit 32 bits, as the file format demands.
- ReaderCache.ReaderCache.Read: the statistics are left out.
- Sorting, binary search and priority queues of the standard library are methods that do what the standard promises, with simpler loops; of equal items any may come first.
- Widths of integers are modelled where they matter (hashes, point deltas, words of the triangle chain, fixed-size numbers in files, ids); other sums and lengths are unbounded.
- Closing by a destructor is a method `Close`; exceptions while closing are left out.
- Debug assertions and debug-only fields are left out, except where they are proved as invariants.
- coding/compressed_bit_vector.*: not modelled; union and subtraction of dense vectors do not meet the set laws as written, and intersection would add an easy member.
- Quantisation of points, traffic encoding, sunrise tables and everything else in floating point.
- Real threads, mutexes and condition variables: a section under the lock is one step, and time is a counter that does not go back.
- Files, containers, XML, JSON, Unicode tables, hexadecimal and base-64 conversion: plumbing, tables or easy members.
