# Wordle solver core in Dafny

This project models the core of a Wordle solver written in C++. The solver plays up to twenty rounds. In each round it:

- picks a guess (the only word left in both pools, or else the best word by entropy);
- gets the result string over `g` (green), `y` (yellow) and `b` (black);
- folds that result into a constraint state;
- erases from its two pools of words (all allowed words, and allowed answers) every word that no longer fits.

The model has six modules, one file each:

- `Parameters` (`parameters.dfy`): `WORD_LENGTH`, `ROUNDS`, `THREADS_LIMIT`, the `'\0'` sentinel, and the shapes of words (`[a-z]{5}`) and results (`[byg]{5}`).
- `Feedback` (`feedback.dfy`): `Score`, a definition by position of the result `compare` produces, and the duplicate-letter rule proved about it. Greens are exact matches. The other positions get yellow from left to right while the answer has an unconsumed copy of the letter.
- `Tools` (`tools.dfy`): covers `tools.cpp`.
  - `Compare` is the four passes of `compare` over a mutable result string and count maps. The count maps are multisets. It is proved equal to `Score`.
  - `TallyBins` is the integer bin tally of `iterate_over_subset_of_words`.
  - `NumThreads` and `PartitionGuesses` are the chunk arithmetic of `calculate_entropies`.
- `Constraints` (`constraints.dfy`):
  - `State`, the three fields of `filter_t`.
  - `Observe`, what one (guess, result) pair adds to the state.
  - `Matches`, what the filtering keeps. The regular expression the source builds is stated as the per-position predicate it encodes.
  - Consistency with a target word, and the proof that the target survives every round.
- `Filter` (`filter.dfy`): the loops of `filter_t::filter` as methods. The class `FilterT` has the three fields and a `Filter` method that updates them. `main.cpp` repeats the same loops inline on two pools. `UpdateRound` models that repetition by calling the same methods.
- `Round` (`round.dfy`): `main`'s round loop (`PlayRounds`, one round per `PlayRound`) played automatically against a target word, and the whole game with the target facts (`AutoPlay`). The entropy ranking is a function parameter `choose`.

The central property is stated by `Round.AutoPlay`. When every result is `compare(target, guess)`:

- the target is never erased from either pool that holds it;
- everything the constraint state records is true of the target;
- the game is solved exactly when the target is guessed;
- at most `ROUNDS` rounds are played.

Behaviour of the source worth noting:

- compare gives `gbbbg` for answer `abcda` and guess `azaza`, as the comment at tools.cpp:122-127 says. `Feedback.DuplicateLetterExample` proves it.
- The guard before a black letter is marked unused checks only the yellow sets, not `known_letters` (filter.cpp:56-78). `Constraints.ObservePreservesConsistent` proves this guard is sound for results from `compare`.
- A green at a position that already holds a different known letter overwrites it (filter.cpp:44-45). There is no assertion.
- The "only one word left" rule looks at the intersection of both pools (main.cpp:97-114), not at the answer pool alone.

## Model

| member | source | states |
|---|---|---|
| Feedback.Score | tools.cpp:87-150 | The result has one symbol in {g, y, b} per position. A position is green exactly when guess and answer agree there. A letter absent from the answer is black. A yellow is always a letter of the answer out of place. |
| Feedback.MarkedIsMin | tools.cpp:99-145 | For every letter, the number of its guess positions marked green or yellow is min(copies in the guess, copies in the answer): the multiset intersection. |
| Feedback.YellowsTrackMin | tools.cpp:128-146 | Scanning left to right, greens plus the yellows given so far for a letter equal min(greens plus the non-green copies offered so far, the copies in the answer). |
| Feedback.LeftmostYellowFirst | tools.cpp:128-146 | Among non-green positions holding the same letter, a yellow to the right implies a yellow here: yellows go to the leftmost copies first. |
| Feedback.BlackLetterAllGreen | tools.cpp:128-146 | If a letter is black and none of its copies is yellow, every copy of it in the answer is matched by a green. |
| Feedback.ScoreBlackMeansAllGreen | tools.cpp:128-146 | The result of compare satisfies the duplicate-letter rule at every pair of positions. |
| Feedback.AllGreenIffSame | tools.cpp:106-113 | The result is "ggggg" exactly when guess and answer are the same word. |
| Feedback.AllGreenWhenAllMatch | tools.cpp:106-113 | Any result whose greens are exactly the agreeing positions is all green exactly when the words are equal. |
| Feedback.ExampleGreens | tools.cpp:122-127 | In the worked example, the green pass consumes both 'a's of "abcda". |
| Feedback.ExampleMiddleIsBlack | tools.cpp:122-127 | In the worked example, the middle 'a' of "azaza" gets black, not yellow. |
| Feedback.DuplicateLetterExample | tools.cpp:122-127 | compare("abcda", "azaza") is "gbbbg". |
| Feedback.GreensWithinAnswer | tools.cpp:105-113 | The letters the green pass marks are, with multiplicity, letters of the answer. |
| Tools.Compare | tools.cpp:87-150 | The four passes return exactly Score(answer, guess). The final while loop's body runs at most once: zero times when no '*' is left after the black pass, else once, leaving no '*'. |
| Tools.CountLetters | tools.cpp:98-103 | The two count maps are the letter multisets of the answer and of the guess. |
| Tools.MarkGreens | tools.cpp:105-113 | Agreeing positions become 'g', all others stay '*'. The marked count is the multiset of green letters. |
| Tools.MarkAbsent | tools.cpp:115-120 | After the pass, every non-green square whose letter the answer lacks is 'b'. Every other square is unchanged. |
| Tools.MarkRemaining | tools.cpp:128-147 | One run of the inner loop turns the squares after the first two passes into Score(answer, guess). The marked count becomes greens plus yellows. |
| Tools.MarkSquare | tools.cpp:130-146 | A square still '*' becomes 'y' while fewer copies are marked than the answer holds, else 'b'. Decided squares are skipped. The count grows by one exactly on 'y'. |
| Tools.ScoreHasNoStar | tools.cpp:128 | No result position is '*', so the while condition fails after one pass. |
| Tools.NoneLeftIsScore | tools.cpp:115-128 | If no '*' is left after the black pass, the result is already complete. |
| Tools.TallyBins | tools.cpp:257-260 | Each key of the tally is the compare result of some answer. Each count is the number of answers with that result. The counts sum to the number of answers. |
| Tools.CountAnswer | tools.cpp:259-260 | One increment of bins[compare(answer, guess)] keeps the tally exact and its total equal to the number of answers counted. |
| Tools.TallyAdvance | tools.cpp:259-260 | Adding one answer to the map keeps it the exact tally of the answers counted, with total one larger. |
| Tools.TallyStep | tools.cpp:259-260 | Adding one answer to the map keeps it the exact tally. |
| Tools.TotalBump | tools.cpp:260 | Incrementing one key (inserting it at 0 if absent) raises the sum of the counts by one. |
| Tools.NumThreads | tools.cpp:22-31 | NUM_THREADS is at least 1 and at most THREADS_LIMIT. It equals the hardware parallelism when that is reported, and 1 otherwise. |
| Tools.PartitionGuesses | tools.cpp:49-65 | numThreads chunks. Chunk i starts at i*q, with q = n / numThreads, and is q long. The last chunk is q + n % numThreads long. Together they cover [0, n) with no overlap. |
| Tools.ChunksTile | tools.cpp:56-65 | Such chunks are laid end to end from 0 to n. |
| Tools.TilesPartition | tools.cpp:56-65 | Ranges laid end to end cover every index below n, and each lies entirely before the next. |
| Constraints.Observe | filter.cpp:36-81 | Greens set the known letter. Yellows join that position's set. Only the positions the result names change. The yellow sets and the unused set only grow. A black letter becomes unused exactly when it is yellow at no position, this call's yellows included. |
| Constraints.Empty | filter.cpp:12-15 | The state of a fresh filter: five '\0' known letters, five empty yellow sets, no unused letters. |
| Constraints.PositionRule | filter.cpp:89-122 | The test the regex encodes: a word of five characters that has the known letter wherever one is set, and elsewhere a character that is neither unused nor yellow at that position. |
| Constraints.Filtered | filter.cpp:107-157 | The pool after both passes: a subset of the pool holding exactly the words that pass the position rule and contain every required letter. |
| Constraints.ObserveIdempotent | filter.cpp:36-81 | Folding the same observation twice gives the state of folding it once. |
| Constraints.FilterIdempotent | filter.cpp:111-157 | Filtering an already filtered pool with the same state removes nothing. |
| Constraints.EmptyConsistent | filter.cpp:12-15 | A freshly constructed filter records nothing false about any word. |
| Constraints.ConsistentMatches | filter.cpp:89-157 | A state consistent with a word passes that word through both filtering passes. |
| Constraints.ObserveKeepsConsistent | filter.cpp:26-81 | Folding any result that is true of the target keeps the state consistent with the target. True of the target means: greens exactly where the words agree, yellows only for its letters out of place, blacks under the duplicate-letter rule. |
| Constraints.ObservePreservesConsistent | filter.cpp:26-81 | Folding compare(target, guess) keeps the state consistent with the target. |
| Constraints.TargetSurvivesRound | main.cpp:167-320 | After one round against the target, the state is still consistent with it and the target survives filtering of any pool that held it. |
| Filter.FoldObservation | filter.cpp:36-81 | The two loops over the result compute exactly Observe: greens and yellows first, then guarded blacks. |
| Filter.IsUnmarked | filter.cpp:56-78 | The scan reports true exactly when the letter is in no position's yellow set. |
| Filter.ErasePositionMismatches | filter.cpp:107-122 | The pool keeps exactly its words that meet the per-position rule. |
| Filter.CollectRequired | filter.cpp:124-143 | The set built is exactly the yellow letters that are known at no position. |
| Filter.EraseLacking | filter.cpp:145-157 | The pool keeps exactly its words that contain every required letter. |
| Filter.FilterPool | filter.cpp:107-157 | Both passes together keep exactly the words of the pool that match the state. |
| Filter.FilterT.constructor | filter.cpp:12-15 | A new filter has no unused letters, five empty yellow sets and every known letter '\0'. |
| Filter.FilterT.Filter | filter.cpp:17-158 | The fields become the old state folded with the observation. The pool becomes the old pool filtered by the new state. |
| Filter.RepeatedFilterChangesNothing | filter.cpp:17-158 | Calling filter again with the same guess and result changes neither the fields nor the pool. |
| Round.Intersection | main.cpp:97-105 | The set built by insertion holds exactly the words in both pools. |
| Round.ChooseGuess | main.cpp:107-125 | If exactly one word is in both pools, it is the guess. Otherwise the guess is the chooser's pick, a function of the filtered answers (the picked word need not be one of them). |
| Round.UpdateRound | main.cpp:177-320 | The state becomes the observation folded in. Both pools are filtered by the same new state. |
| Round.ReplayConsistent | main.cpp:80-221 | The state built by folding the compare result of every guess in turn, starting from the empty state, is consistent with the target after any number of rounds. |
| Round.TargetNeverSifted | main.cpp:167-320 | A pool filtered after every round by that round's state never loses the target, in any number of rounds. |
| Round.SiftAgree | main.cpp:250-320 | Because both pools are filtered by the same states, a word in both pools is kept in one exactly when it is kept in the other, after any number of rounds. |
| Round.TargetKept | main.cpp:80-320 | After any sequence of rounds, the replayed state is consistent with the target, both pools keep it, and the pools agree on shared words. |
| Round.FollowAllStep | main.cpp:97-117 | A guess chosen by the rule on the pools after the earlier rounds extends a game in which every guess followed the rule. |
| Round.FollowAllEach | main.cpp:97-117 | A game followed the rule exactly when, for every round k, guess k is the only word in both pools sifted by the k earlier guesses (when exactly one is left), and otherwise the chooser's pick on the sifted answers. |
| Round.PlayRound | main.cpp:97-320 | One round: the guess follows the single-common-word rule or else the chooser, so the game so far, this guess included, followed the rule. The round is won exactly when the guess is the target. Otherwise the state and both pools are extended by this guess's compare result. |
| Round.PlayRounds | main.cpp:85-323 | The round loop: at most ROUNDS guesses, all words, every one chosen by the rule on the pools of its round. It stops at the first "ggggg", so a solved game ends with the target and holds it nowhere before. An unsolved game played all ROUNDS rounds. The final state and pools are the replay of every guess except a winning one. |
| Round.AutoPlay | main.cpp:80-323 | At most ROUNDS guesses, all words. Every guess followed the rule: the only word left in both pools, or else the chooser's pick on the filtered answers. The game is solved exactly when the target was guessed; it is then the last guess and appears nowhere before, so the loop stops at the first "ggggg". If unsolved, all ROUNDS rounds were played. The final state is the empty state created once before the loop, folded with the result of every guess except a winning one (`Replay`). Each final pool is its original pool filtered after each such round by that round's state (`Sift`). Both pools only shrink. The target stays in each pool that held it, and the state stays consistent with it. A word in both original pools survives in one exactly when it survives in the other. |

## Left out

- The entropy computation is left out: the `long double` probabilities, `log2`, the sum, and the ordering of the multimap with its order among ties (tools.cpp:262-273). `Round.AutoPlay` takes the "best guess by entropy" as an arbitrary function `choose` of the filtered answer pool that returns a word. The probabilities divide by the number of all words, not the number of answers, and that normalisation is not modelled. Only the integer tally is (`Tools.TallyBins`).
- Threads are left out: `async`, `future`, merging the per-thread results, the print mutex, and the call to `hardware_concurrency`. The reported parallelism is the parameter of `Tools.NumThreads`. `Tools.PartitionGuesses` models only the chunk bounds, as index pairs rather than iterators.
- I/O is left out: reading word lists, user prompts, all printing, argument handling, the manual-mode branch, and the disabled `#if 0` block of `main.cpp`. The target word `main` checks against the word list is a precondition of `Round.AutoPlay` (`target in allWords`). The manual-mode results typed by the user are not modelled. `Round.UpdateRound` and `Filter.FilterT.Filter` accept any well-formed result.
- The regular expression engine is left out. The regex filtering is modelled by the predicate it encodes, `Constraints.PositionRule`. `[^...]` with an empty set accepts any character, which the predicate also does.
- `Filter.ErasePositionMismatches` and `Filter.FilterPool` agree with the regex only for states built from guesses of letters `[a-z]`. A recorded character that is special in a regex (`.`, `\`, `-` between two letters, `]`) would change the pattern or make its construction throw; this is not modelled. So `Filter.FilterT.Filter` and `Round.UpdateRound` require the guess to be a word. Every guess the game loop makes is a word, given the word-list assumption below.
- Iteration order over `std::set` is left out. Loops over sets pick elements in an unspecified order, and the filtering results do not depend on the order.
- `Tools.Compare` requires both words to have five characters, as the source's two `assert`s do. `Feedback.Score` is defined for any equal lengths.
- Round.AutoPlay (and Round.PlayRounds, which it calls): requires every entry of the word list to be a word of five letters `[a-z]`. The source does not check this: `load_words` inserts every line of both files as read (tools.cpp:193-194, 213-216). A line of another shape could become a guess, and the model does not cover that case.
- `Tools.NumThreads` assumes the value `hardware_concurrency` reports fits in an unsigned int, as its return type guarantees.
- Unsigned overflow of the counters and of `i * guesses_per_thread` is not modelled, because every value stays below the number of words.
