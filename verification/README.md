# WordleBot greedy solver, modelled in Dafny

WordleBot plays Wordle by greedy search. It has four parts:

- **Feedback oracle** (`get_feedback`). It colours each letter of a guess against the answer: 2 (green) for the right letter in the right place, 1 (yellow) for a letter that appears elsewhere, and 0 (black) otherwise. Duplicate letters get yellows only up to the number of times the answer still holds the letter, and the yellows go to the leftmost occurrences.
- **Candidate filter** (`get_compatible_words`). It builds a boolean mask over a pool of words. The mask is read straight from the guess and its feedback, without re-running the oracle.
- **Scorer** (`get_num_compatible_words`). For one guess, it gives the size of the surviving pool for every possible answer.
- **Greedy loop** (`solve`, `get_best_guess`). Each round filters the pool and picks the first guess with the lowest average score. When 3 to 20 very similar words remain, it falls back to the whole word list. The loop gives up after six guesses.

The repository has each of these twice: readable loops in `solve_wordle.py` and compressed numpy one-liners in `optimized_functions.py`.

The model is organised in six modules:

- `Words` (words.dfy): 5-letter words, feedback rows, and masked letter counting. This is numpy's `count_nonzero(w[mask] == letter)` over a `seq<bool>` mask.
- `Oracle` (oracle.dfy):
  - `Feedback` is the compressed oracle as a pure function.
  - `ComputeFeedback` is the readable per-letter loop, proved to return the same row.
  - Lemmas give the colouring rule in closed form.
- `Filter` (filter.dfy):
  - `Allows` and `Compatible` are the per-position and per-candidate constraints, branch for branch as in the code.
  - `CompatibleWords` is the compressed mask. `CompatibleMask` is the readable mask loop, proved equal to it.
  - `Select` is numpy boolean indexing, and `Survivors` is the filtered pool.
- `Consistency` (consistency.dfy): the filter agrees with the oracle. A candidate survives exactly when the oracle gives it the same feedback as the answer.
- `Selector` (selector.dfy): scores, `np.argmin`, the fallback to the whole word list, and `get_best_guess`.
- `Solver` (solver.dfy): the six-round loop.
  - `Solve` is the compressed `solve` as a recursive function. `SolveLoop` is the readable loop, proved to return the same outcome.
  - The loop's properties are proved for any round function (`Play`, `Run`). `RoundsKeep` shows that the game's own round function keeps the answer, and the `Solve…` lemmas apply the general results to it.

Some numpy and Python details are modelled as follows:

- **Averages.** `np.mean` over a row of counts becomes the row's integer sum. Every row that is compared has one entry per word of the same pool, so sums and means order the guesses alike. The shared-letter test `mean >= 3` becomes `sum >= 3 * |pool|`.
- **Empty pool.** The scoring and the argmin over an empty pool raise an error. The model returns `Outcome.NoCandidates` or `None` instead, and `Solver.SolveNeverStuck` proves this cannot happen while the answer is in the word list.
- **Giving up.** `solve` returns nothing after six wrong guesses. This is `Outcome.OutOfGuesses`.

## Model

| member | source | states |
|---|---|---|
| Oracle.Feedback | optimized_functions.py:30-38 | A position is green exactly when guess and answer hold the same letter there, and every entry is 0, 1 or 2. |
| Oracle.FeedbackRank | optimized_functions.py:33-37 | An open (non-green) position is yellow exactly when fewer earlier open guess positions hold its letter than the answer holds at open positions. Otherwise it is black. This is the "first N occurrences" rule in closed form. |
| Oracle.FeedbackLeftmost | solve_wordle.py:143-147 | Yellows go to the leftmost occurrences. If an open occurrence of a letter is yellow, every earlier open occurrence of that letter is yellow too. |
| Oracle.YellowCount | solve_wordle.py:143-147 | The number of yellows on a letter is the smaller of two counts: its open occurrences in the guess, and its open occurrences in the answer. |
| Oracle.BlackExhausts | solve_wordle.py:142-147 | An open black letter has used up the answer. Its yellow count equals the answer's open count, which is below the guess's open count. |
| Oracle.MarksBounded | solve_wordle.py:137-147 | Greens plus yellows on a letter never exceed the letter's occurrences in the answer. |
| Oracle.FeedbackSelf | solve_wordle.py:135-137 | Guessing the answer itself gives five greens. |
| Oracle.FeedbackSpeedErase | solve_wordle.py:132-148 | Duplicate letters: guess "speed" against answer "erase" gives [1,0,1,1,0]. |
| Oracle.MarkGreens | solve_wordle.py:135-137 | The first pass leaves a position green exactly where guess and answer match, and black everywhere else. |
| Oracle.MarkYellows | solve_wordle.py:143-147 | The letter loop gives every handled letter its yellows, whatever order the set of letters is visited in. |
| Oracle.MarkFirstOpen | solve_wordle.py:144-147 | One pass of the per-letter loop marks exactly the positions that the closed-form rule colours for that letter, and leaves every other position as it was. |
| Oracle.SettledIsFeedback | solve_wordle.py:142-148 | Once every letter that occurs open in both words has been handled, the row is the oracle's row. |
| Oracle.ComputeFeedback | solve_wordle.py:132-148 | The readable oracle returns the same row as the compressed one, for all inputs. |
| Filter.Allows | optimized_functions.py:14-26 | A definition with no contract of its own: the constraint one position of the guess puts on a candidate, branch for branch. A black letter with no green or yellow copy bans the letter everywhere. A black letter with a yellow copy fixes its count at the other open positions to the yellow count, and bans it here. A black letter with only green copies bans it away from those greens. A yellow letter needs at least as many open copies as it has yellows, and not here. A green letter must be here. Its meaning is stated by `Consistency.CompatibleIffSameFeedback`. |
| Filter.Compatible | optimized_functions.py:13-27 | A definition with no contract of its own: a candidate survives when all five positions allow it, the AND that builds the mask. Its meaning is stated by `Consistency.CompatibleIffSameFeedback`. |
| Filter.CompatibleWords | optimized_functions.py:12-27 | The mask has one entry per pool word. |
| Filter.TallyIsCount | optimized_functions.py:24 | `np.sum` over the 0/1 indicator of a letter equals its `count_nonzero`. So the compressed yellow rule and the readable yellow rule impose the same at-least bound. |
| Filter.CompatibleMask | solve_wordle.py:80-129 | The readable filter, which ANDs in one position's constraint at a time, builds the same mask as the compressed filter, for all inputs. |
| Filter.Select | solve_wordle.py:173 | Boolean indexing gives an order-preserving subsequence whose length is the number of set bits. Every selected entry is in it, and every entry of it is a selected entry. |
| Filter.SelectOrder | solve_wordle.py:173 | Boolean indexing keeps order and multiplicity. A selected entry k lands at the position given by the number of set bits before k, so the result is fixed even when the input repeats words. |
| Filter.Survivors | solve_wordle.py:172-173 | The filtered pool is an order-preserving subsequence no longer than the pool. Its members are exactly the pool words the filter accepts. |
| Filter.SurvivorsIdempotent | solve_wordle.py:195-196 | Filtering the filtered pool again with the same guess and feedback keeps every word. |
| Consistency.SelfCompatible | optimized_functions.py:12-38 | Soundness: every word passes the filter built from its own feedback. |
| Consistency.CompatibleSameGreens | solve_wordle.py:89-128 | A candidate the filter keeps has its greens exactly where the answer had them. |
| Consistency.CompatibleSameYellows | solve_wordle.py:89-124 | A candidate the filter keeps leaves, for every letter, the same number of yellows as the answer did. |
| Consistency.CompatibleSameFeedback | solve_wordle.py:80-148 | Completeness: a candidate the filter keeps gets the same feedback from the oracle as the answer. |
| Consistency.CompatibleIffSameFeedback | optimized_functions.py:12-38 | For feedback from the oracle, the filter keeps a candidate exactly when the oracle gives that candidate the same feedback. Both directions are proved. |
| Consistency.AnswerSurvives | solve_wordle.py:171-173 | The true answer is never filtered out. |
| Consistency.SurvivorsAreOracleFilter | solve_wordle.py:171-173 | Filtering with the oracle's feedback equals keeping the pool words to which the oracle gives that same feedback. |
| Selector.NumCompatible | optimized_functions.py:41-42 | There is one count per answer, and each lies between 1 and the pool size. |
| Selector.NumCompatibleIsFeedbackClassSize | solve_wordle.py:151-157 | The count for answer k is the number of pool words to which the oracle gives the same feedback as to answer k. |
| Selector.CountCompatible | solve_wordle.py:151-157 | The readable scorer returns the same counts as the compressed one. |
| Selector.Score | solve_wordle.py:175-177 | A definition with no contract of its own: a guess's row of surviving-pool sizes, summed, which is the row's mean times the pool size. Its range is stated by `Selector.ScoreBounds`, and its use by `Selector.PickBest`. |
| Selector.ScoreBounds | solve_wordle.py:175-177 | A guess's summed score lies between \|pool\| and \|pool\|², so its mean lies between 1 and \|pool\|. |
| Selector.ScoreAll | solve_wordle.py:175-177 | The readable scoring of every guess gives each guess's score. |
| Selector.ArgMin | solve_wordle.py:178 | `np.argmin` returns an index holding the minimum that no earlier index ties. |
| Selector.PickBest | solve_wordle.py:175-178 | The chosen guess has the lowest score, and no earlier guess ties it. |
| Selector.PickBestIsFirstMinimiser | solve_wordle.py:175-178 | The chosen guess is a first minimiser of the list it is chosen from. |
| Selector.SharedLetters | solve_wordle.py:181 | A definition with no contract of its own: the same-position matches between the guess and each pool word, summed, which is the mean of `np.count_nonzero(guess == remaining_words, axis=1)` times the pool size. Its use is stated by `Selector.NextGuess`. |
| Selector.FallbackApplies | solve_wordle.py:180-182 | A definition with no contract of its own: the pool has more than 2 and at most 20 words, and the shared-letter sum is at least 3 times the pool size. When it holds is stated by `Selector.NextGuess`. |
| Selector.NextGuess | solve_wordle.py:175-186 | There is no guess exactly when the pool is empty, or when the fallback fires over an empty word list. Without the fallback, the guess is the first minimiser over the pool. With it, the guess is the first minimiser over the word list. Pools of one or two words never fall back, and a one-word pool yields that word. |
| Selector.BestGuess | solve_wordle.py:189-202 | There is no result exactly when no pool word is compatible. Otherwise the new pool is an order-preserving subsequence holding exactly the compatible pool words, and the guess is its first minimiser. |
| Selector.BestGuessAfterOracle | solve_wordle.py:189-202 | With the oracle's feedback for an answer in the pool, the live step succeeds and keeps the answer. It proposes a guess that would have produced the same feedback. |
| Solver.SurvivorsShareFeedback | solve_wordle.py:171-173 | Every word left after filtering gets the same feedback as the answer. |
| Solver.Step | optimized_functions.py:50-53 | One round after a wrong guess. The new pool is a subsequence of the old one, and all its words share the answer's feedback. The step succeeds and keeps the answer while the answer is in a pool drawn from the word list. |
| Solver.StepKeeps | optimized_functions.py:50-53 | From a pool that holds the answer and is a subsequence of the word list, a step succeeds and the new pool has the same two properties. |
| Solver.RoundsKeep | optimized_functions.py:50-53 | The game's round function keeps the answer in the pool, and keeps the pool a subsequence of the word list. |
| Solver.Play | solve_wordle.py:167-186 | From round r, a Solved(n) outcome has r < n <= 6. |
| Solver.Solve | optimized_functions.py:45-53 | A Solved(n) outcome has 1 <= n <= 6, and a correct first guess gives Solved(1). |
| Solver.PlaySolvedIff | solve_wordle.py:167-169 | From round r, the loop returns Solved(n) exactly when r < n <= 6, the (n-r)-th guess from there is the answer, and no earlier one is. |
| Solver.SolvedIffFrom | optimized_functions.py:47-49 | From the first round, the loop returns Solved(n) exactly when the n-th guess is the answer, n <= 6, and no earlier guess is. |
| Solver.SolvedIff | optimized_functions.py:45-53 | `solve` returns n exactly when n <= 6, the n-th guess is the answer, and no earlier guess is. |
| Solver.PlayNeverStuck | solve_wordle.py:171-178 | While the round function keeps the answer, the pool never empties, so scoring and argmin always have a candidate. |
| Solver.SolveNeverStuck | optimized_functions.py:45-53 | With the answer in the word list, `solve` never reaches an empty pool. |
| Solver.PlayOutOfGuessesIff | solve_wordle.py:167-186 | While the round function keeps the answer, the loop runs out of guesses exactly when none of the remaining guesses is the answer. |
| Solver.SolveOutOfGuessesIff | optimized_functions.py:45-53 | With the answer in the word list, `solve` returns nothing exactly when none of the six guesses is the answer. |
| Solver.RunKeepsAnswer | solve_wordle.py:171-173 | While the round function keeps the answer, every reachable pool holds the answer and is a subsequence of the word list. |
| Solver.SolveLoop | solve_wordle.py:160-186 | The readable loop, built from the readable oracle, filter and scorer, returns the same outcome as the compressed `solve`. |

## Left out

- The `NYT` class (solve_wordle.py:24-72) is not modelled. It drives a browser with Selenium, scrapes tiles, sleeps and reads an `'empty'` tile colour. This is I/O against an external site.
- The read of `answers.txt` (solve_wordle.py:17-20) is not modelled. The word list is a parameter (`words`).
- Floating-point `np.mean` is replaced by integer sums. This preserves the argmin and the `>= 3` test for the small integer counts involved, but float rounding itself is not modelled.
- Float feedback from `np.zeros(5)` is not modelled. Feedback rows are rows of integers.
- numpy broadcasting and `np.apply_along_axis` are not modelled as such. They are sequence comprehensions over the pool.
- Filter.CompatibleWords: its own contract states only the mask length. What each entry means is stated by `Consistency.CompatibleIffSameFeedback` and `Filter.Survivors`.
- Feedback rows with entries outside {0, 1, 2} are accepted by the filter, which puts no constraint on them, as the code does. No property is claimed for them.
- Performance, and the neural-network training mentioned in optimized_functions.py:3-4, are left out. No training code is part of this model.
