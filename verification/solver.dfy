/**
 The greedy solving loop.

 Starting from a first guess and the whole answer list, each round either
 stops because the guess is the answer, or filters the pool with the oracle's
 feedback and picks the next guess. There are at most six rounds. `Solve` is
 the compressed loop written as a recursive function; `SolveLoop` is the
 readable loop and returns the same outcome.
 */
module Solver {
  import opened Words
  import opened Oracle
  import opened Filter
  import opened Consistency
  import opened Selector

  const MaxRounds: nat := 6

  /**
   Solved(n): the n-th guess was the answer. OutOfGuesses: six wrong guesses.
   NoCandidates: the pool emptied, and scoring and argmin over it raise.
   */
  datatype Outcome = Solved(rounds: nat) | OutOfGuesses | NoCandidates

  /** The current guess and the words still possible. */
  datatype State = State(guess: Word, pool: seq<Word>)

  /** Every word of the filtered pool gets the same feedback as the answer. */
  lemma SurvivorsShareFeedback(guess: Word, answer: Word, pool: seq<Word>)
    ensures forall w | w in Survivors(guess, Feedback(guess, answer), pool) ::
      Feedback(guess, w) == Feedback(guess, answer)
  {
    forall w | w in Survivors(guess, Feedback(guess, answer), pool)
      ensures Feedback(guess, w) == Feedback(guess, answer)
    {
      CompatibleSameFeedback(guess, answer, w);
    }
  }

  /**
   One round after a wrong guess. The new pool is an order-preserving
   subsequence of the old one, holds only words consistent with the feedback,
   and keeps the answer; the step cannot fail while the answer is in the pool.
   */
  function Step(s: State, answer: Word, words: seq<Word>): (r: Option<State>)
    ensures r.Some? ==> IsSubsequence(r.value.pool, s.pool)
    ensures r.Some? ==> forall w | w in r.value.pool :: Feedback(s.guess, w) == Feedback(s.guess, answer)
    ensures answer in s.pool && IsSubsequence(s.pool, words) ==> r.Some? && answer in r.value.pool
  {
    var remaining := Survivors(s.guess, Feedback(s.guess, answer), s.pool);
    SurvivorsShareFeedback(s.guess, answer, s.pool);
    assert answer in s.pool && IsSubsequence(s.pool, words) ==> answer in remaining && answer in words by {
      if answer in s.pool && IsSubsequence(s.pool, words) {
        AnswerSurvives(s.guess, answer, s.pool);
        SubsequenceMembers(s.pool, words);
      }
    }
    match NextGuess(remaining, words)
    case None => None
    case Some(g) => Some(State(g, remaining))
  }

  /** The round function of one game: a wrong guess's step, with the answer and word list fixed. */
  function Rounds(answer: Word, words: seq<Word>): State -> Option<State> {
    s => Step(s, answer, words)
  }

  /**
   The loop from round `round` (0-based) on, for any round function `step`.
   Stating the loop over an arbitrary step keeps the loop's properties apart
   from the scoring inside one step.
   */
  function Play(step: State -> Option<State>, s: State, answer: Word, round: nat): (o: Outcome)
    requires round <= MaxRounds
    ensures o.Solved? ==> round < o.rounds <= MaxRounds
    decreases MaxRounds - round
  {
    if round == MaxRounds then OutOfGuesses
    else if s.guess == answer then Solved(round + 1)
    else
      match step(s)
      case None => NoCandidates
      case Some(next) => Play(step, next, answer, round + 1)
  }

  /** `solve(guess, answer, all_possible_guesses)`; the word list is both the first pool and the fallback list. */
  function Solve(guess: Word, answer: Word, words: seq<Word>): (o: Outcome)
    ensures o.Solved? ==> 1 <= o.rounds <= MaxRounds
    ensures guess == answer ==> o == Solved(1)
  {
    Play(Rounds(answer, words), State(guess, words), answer, 0)
  }

  /** The state after k steps, or None once a step has failed. */
  function Run(step: State -> Option<State>, s: State, k: nat): Option<State>
    decreases k
  {
    if k == 0 then Some(s)
    else
      match step(s)
      case None => None
      case Some(next) => Run(step, next, k - 1)
  }

  /** The (k+1)-th guess hits the answer. */
  predicate Hit(step: State -> Option<State>, s: State, answer: Word, k: nat) {
    Run(step, s, k).Some? && Run(step, s, k).value.guess == answer
  }

  lemma {:induction false} PlaySolvedIff(step: State -> Option<State>, s: State, answer: Word, round: nat, n: nat)
    requires round <= MaxRounds
    ensures Play(step, s, answer, round) == Solved(n) <==>
      && round < n <= MaxRounds
      && Hit(step, s, answer, n - 1 - round)
      && forall k | 0 <= k < n - 1 - round :: !Hit(step, s, answer, k)
    decreases MaxRounds - round
  {
    if round < MaxRounds && s.guess != answer {
      assert !Hit(step, s, answer, 0);
      match step(s)
      case None =>
        assert forall k: nat | k > 0 :: Run(step, s, k) == None;
      case Some(next) =>
        PlaySolvedIff(step, next, answer, round + 1, n);
        assert forall k: nat :: Hit(step, s, answer, k + 1) == Hit(step, next, answer, k);
        if round + 1 < n <= MaxRounds {
          forall k | 0 <= k < n - 1 - round
            ensures !Hit(step, s, answer, k) <== forall k' | 0 <= k' < n - 2 - round :: !Hit(step, next, answer, k')
          {
            if k > 0 {
              assert Hit(step, s, answer, k) == Hit(step, next, answer, k - 1);
            }
          }
        }
    } else if round < MaxRounds && n > round + 1 {
      assert Hit(step, s, answer, 0);
    }
  }

  /** `PlaySolvedIff` from the first round. */
  lemma SolvedIffFrom(step: State -> Option<State>, s: State, answer: Word, n: nat)
    ensures Play(step, s, answer, 0) == Solved(n) <==>
      && 1 <= n <= MaxRounds
      && Hit(step, s, answer, n - 1)
      && forall k | 0 <= k < n - 1 :: !Hit(step, s, answer, k)
  {
    PlaySolvedIff(step, s, answer, 0, n);
  }

  /**
   `solve` returns n exactly when the n-th guess (n <= 6) is the answer and no
   earlier guess was.
   */
  lemma SolvedIff(guess: Word, answer: Word, words: seq<Word>, n: nat)
    ensures Solve(guess, answer, words) == Solved(n) <==>
      && 1 <= n <= MaxRounds
      && Hit(Rounds(answer, words), State(guess, words), answer, n - 1)
      && forall k | 0 <= k < n - 1 :: !Hit(Rounds(answer, words), State(guess, words), answer, k)
  {
    SolvedIffFrom(Rounds(answer, words), State(guess, words), answer, n);
  }

  /** The answer is in the pool, and the pool is a subsequence of the word list. */
  predicate Keeps(answer: Word, words: seq<Word>, s: State) {
    answer in s.pool && IsSubsequence(s.pool, words)
  }

  /** From a state that keeps the answer, a step succeeds and keeps it. */
  lemma StepKeeps(s: State, answer: Word, words: seq<Word>)
    requires Keeps(answer, words, s)
    ensures Step(s, answer, words).Some?
    ensures Keeps(answer, words, Step(s, answer, words).value)
  {
    SubsequenceTransitive(Step(s, answer, words).value.pool, s.pool, words);
  }

  lemma RoundsKeep(answer: Word, words: seq<Word>)
    ensures forall t | Keeps(answer, words, t) ::
      Rounds(answer, words)(t).Some? && Keeps(answer, words, Rounds(answer, words)(t).value)
  {
    forall t | Keeps(answer, words, t)
      ensures Rounds(answer, words)(t).Some? && Keeps(answer, words, Rounds(answer, words)(t).value)
    {
      StepKeeps(t, answer, words);
    }
  }

  lemma {:induction false} PlayNeverStuck(step: State -> Option<State>, s: State, answer: Word, words: seq<Word>, round: nat)
    requires round <= MaxRounds
    requires Keeps(answer, words, s)
    requires forall t | Keeps(answer, words, t) :: step(t).Some? && Keeps(answer, words, step(t).value)
    ensures Play(step, s, answer, round) != NoCandidates
    decreases MaxRounds - round
  {
    if round < MaxRounds && s.guess != answer {
      PlayNeverStuck(step, step(s).value, answer, words, round + 1);
    }
  }

  /** While the answer is in the word list, the pool never empties. */
  lemma SolveNeverStuck(guess: Word, answer: Word, words: seq<Word>)
    requires answer in words
    ensures Solve(guess, answer, words) != NoCandidates
  {
    SubsequenceReflexive(words);
    RoundsKeep(answer, words);
    PlayNeverStuck(Rounds(answer, words), State(guess, words), answer, words, 0);
  }

  /** While the answer stays reachable, the game runs out of guesses exactly when no guess hits it. */
  lemma {:induction false} PlayOutOfGuessesIff(step: State -> Option<State>, s: State, answer: Word, words: seq<Word>, round: nat)
    requires round <= MaxRounds
    requires Keeps(answer, words, s)
    requires forall t | Keeps(answer, words, t) :: step(t).Some? && Keeps(answer, words, step(t).value)
    ensures Play(step, s, answer, round) == OutOfGuesses <==>
      forall k | 0 <= k < MaxRounds - round :: !Hit(step, s, answer, k)
    decreases MaxRounds - round
  {
    if round < MaxRounds {
      if s.guess == answer {
        assert Hit(step, s, answer, 0);
      } else {
        var next := step(s).value;
        PlayOutOfGuessesIff(step, next, answer, words, round + 1);
        assert !Hit(step, s, answer, 0);
        assert forall k: nat :: Hit(step, s, answer, k + 1) == Hit(step, next, answer, k);
        forall k | 0 <= k < MaxRounds - round
          ensures !Hit(step, s, answer, k) <== forall k' | 0 <= k' < MaxRounds - round - 1 :: !Hit(step, next, answer, k')
        {
          if k > 0 {
            assert Hit(step, s, answer, k) == Hit(step, next, answer, k - 1);
          }
        }
      }
    }
  }

  /**
   With the answer in the word list, `solve` reports failure exactly when none
   of the six guesses is the answer.
   */
  lemma SolveOutOfGuessesIff(guess: Word, answer: Word, words: seq<Word>)
    requires answer in words
    ensures Solve(guess, answer, words) == OutOfGuesses <==>
      forall k | 0 <= k < MaxRounds :: !Hit(Rounds(answer, words), State(guess, words), answer, k)
  {
    SubsequenceReflexive(words);
    RoundsKeep(answer, words);
    PlayOutOfGuessesIff(Rounds(answer, words), State(guess, words), answer, words, 0);
  }

  /**
   For a round function that keeps the answer, every reachable pool is a
   subsequence of the word list that still holds the answer.
   */
  lemma {:induction false} RunKeepsAnswer(step: State -> Option<State>, s: State, answer: Word, words: seq<Word>, k: nat)
    requires Keeps(answer, words, s)
    requires forall t | Keeps(answer, words, t) :: step(t).Some? && Keeps(answer, words, step(t).value)
    ensures Run(step, s, k).Some?
    ensures Keeps(answer, words, Run(step, s, k).value)
    decreases k
  {
    if k > 0 {
      RunKeepsAnswer(step, step(s).value, answer, words, k - 1);
    }
  }

  /** The readable loop: the same six rounds, with the readable oracle, filter and scorer. */
  method SolveLoop(guess: Word, answer: Word, words: seq<Word>) returns (o: Outcome)
    ensures o == Solve(guess, answer, words)
  {
    var remaining := words;
    var current := guess;
    for round := 0 to MaxRounds
      invariant Play(Rounds(answer, words), State(current, remaining), answer, round) == Solve(guess, answer, words)
    {
      if current == answer {
        return Solved(round + 1);
      }
      ghost var before := State(current, remaining);
      var feedback := ComputeFeedback(current, answer);
      var possibleAnswers := CompatibleMask(current, feedback, remaining);
      remaining := Select(remaining, possibleAnswers);
      if |remaining| == 0 {
        return NoCandidates;
      }
      var average := ScoreAll(remaining, remaining);
      current := remaining[ArgMin(average)];
      if FallbackMinPool < |remaining| <= FallbackMaxPool {
        var shared := SharedLetters(current, remaining);
        if shared >= SharedThreshold * |remaining| {
          if |words| == 0 {
            return NoCandidates;
          }
          average := ScoreAll(words, remaining);
          current := words[ArgMin(average)];
        }
      }
      assert Step(before, answer, words) == Some(State(current, remaining));
    }
    return OutOfGuesses;
  }
}
