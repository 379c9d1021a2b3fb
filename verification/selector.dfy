/**
 Guess selection: score every candidate guess by how many pool words would
 survive it on average, take the first guess with the lowest score, and fall
 back to the whole word list when a small pool of very similar words remains.

 `np.mean` over a row is replaced by the row's integer sum. Every row that is
 compared has one entry per answer in the same pool, so the sums order the
 guesses exactly as the means do, and `mean >= 3` becomes `sum >= 3 * |pool|`.
 */
module Selector {
  import opened Words
  import opened Oracle
  import opened Filter
  import opened Consistency

  /** The fallback fires for pools of size in (FallbackMinPool, FallbackMaxPool]. */
  const FallbackMinPool: nat := 2
  const FallbackMaxPool: nat := 20
  /** ... whose words share at least this many same-position letters with the pick, on average. */
  const SharedThreshold: nat := 3

  /**
   For one guess, the size of the surviving pool for every possible answer in
   the pool: each is at least 1 (the answer survives its own feedback) and at
   most the pool size.
   */
  function NumCompatible(guess: Word, answers: seq<Word>): (counts: seq<nat>)
    ensures |counts| == |answers|
    ensures forall k | 0 <= k < |answers| :: 1 <= counts[k] <= |answers|
  {
    SurvivorCountsBounded(guess, answers);
    seq(|answers|, k requires 0 <= k < |answers| =>
      CountTrue(CompatibleWords(guess, Feedback(guess, answers[k]), answers)))
  }

  lemma SurvivorCountsBounded(guess: Word, answers: seq<Word>)
    ensures forall k | 0 <= k < |answers| ::
      1 <= CountTrue(CompatibleWords(guess, Feedback(guess, answers[k]), answers)) <= |answers|
  {
    forall k | 0 <= k < |answers|
      ensures 1 <= CountTrue(CompatibleWords(guess, Feedback(guess, answers[k]), answers)) <= |answers|
    {
      SelfCompatible(guess, answers[k]);
      CountTrueBounds(CompatibleWords(guess, Feedback(guess, answers[k]), answers), k);
    }
  }

  /**
   The count for answer k is the number of pool words to which the oracle
   gives the same feedback as to answer k.
   */
  lemma NumCompatibleIsFeedbackClassSize(guess: Word, answers: seq<Word>, k: nat)
    requires k < |answers|
    ensures NumCompatible(guess, answers)[k] == |OracleFilter(guess, Feedback(guess, answers[k]), answers)|
  {
    SurvivorsAreOracleFilter(guess, answers[k], answers);
  }

  /** A guess's score: its row of surviving-pool sizes, summed (the mean times |answers|). */
  function Score(guess: Word, answers: seq<Word>): int {
    Sum(NumCompatible(guess, answers))
  }

  /** A score lies between |answers| (every answer singled out) and |answers|^2 (nothing learnt). */
  lemma ScoreBounds(guess: Word, answers: seq<Word>)
    ensures |answers| <= Score(guess, answers) <= |answers| * |answers|
  {
    SumBounds(NumCompatible(guess, answers), 1, |answers|);
  }

  function Scores(guesses: seq<Word>, answers: seq<Word>): seq<int> {
    seq(|guesses|, k requires 0 <= k < |guesses| => Score(guesses[k], answers))
  }

  /** `np.argmin`: the first index holding the minimum. */
  function ArgMin(xs: seq<int>): (i: nat)
    requires |xs| > 0
    ensures i < |xs|
    ensures forall j | 0 <= j < |xs| :: xs[i] <= xs[j]
    ensures forall j | 0 <= j < i :: xs[j] > xs[i]
  {
    if |xs| == 1 then 0
    else
      var k := ArgMin(xs[..|xs| - 1]);
      if xs[|xs| - 1] < xs[k] then |xs| - 1 else k
  }

  /** Index of the first guess with the lowest score against the answers. */
  function PickBest(guesses: seq<Word>, answers: seq<Word>): (i: nat)
    requires |guesses| > 0
    ensures i < |guesses|
    ensures forall j | 0 <= j < |guesses| :: Score(guesses[i], answers) <= Score(guesses[j], answers)
    ensures forall j | 0 <= j < i :: Score(guesses[j], answers) > Score(guesses[i], answers)
  {
    var scores := Scores(guesses, answers);
    var i := ArgMin(scores);
    assert forall j | 0 <= j < |guesses| :: scores[j] == Score(guesses[j], answers);
    i
  }

  /** g has the lowest score among the guesses, and no earlier guess ties it. */
  ghost predicate IsFirstMinimiser(guesses: seq<Word>, answers: seq<Word>, g: Word) {
    exists i | 0 <= i < |guesses| ::
      && guesses[i] == g
      && (forall j | 0 <= j < |guesses| :: Score(g, answers) <= Score(guesses[j], answers))
      && (forall j | 0 <= j < i :: Score(guesses[j], answers) > Score(g, answers))
  }

  lemma PickBestIsFirstMinimiser(guesses: seq<Word>, answers: seq<Word>)
    requires |guesses| > 0
    ensures guesses[PickBest(guesses, answers)] in guesses
    ensures IsFirstMinimiser(guesses, answers, guesses[PickBest(guesses, answers)])
  {
  }

  /** Number of positions where two words hold the same letter. */
  function Matches(g: Word, w: Word): nat {
    CountTrue(seq(WordLength, i requires 0 <= i < WordLength => g[i] == w[i]))
  }

  /** Same-position matches of g summed over the pool (the mean times |pool|). */
  function SharedLetters(g: Word, pool: seq<Word>): int {
    Sum(seq(|pool|, k requires 0 <= k < |pool| => Matches(g, pool[k])))
  }

  /** The pool is small but not tiny, and its words share at least 3 letters with g on average. */
  predicate FallbackApplies(g: Word, pool: seq<Word>) {
    FallbackMinPool < |pool| <= FallbackMaxPool && SharedLetters(g, pool) >= SharedThreshold * |pool|
  }

  /**
   The next guess: the first minimiser over the pool, replaced by the first
   minimiser over the whole word list when the fallback applies. None where
   scoring and argmin over an empty pool would raise.
   */
  function NextGuess(pool: seq<Word>, universe: seq<Word>): (r: Option<Word>)
    ensures r.None? <==> |pool| == 0 || (FallbackApplies(pool[PickBest(pool, pool)], pool) && |universe| == 0)
    ensures r.Some? && !FallbackApplies(pool[PickBest(pool, pool)], pool) ==>
      r.value in pool && IsFirstMinimiser(pool, pool, r.value)
    ensures r.Some? && FallbackApplies(pool[PickBest(pool, pool)], pool) ==>
      r.value in universe && IsFirstMinimiser(universe, pool, r.value)
    ensures 0 < |pool| <= FallbackMinPool ==> r.Some? && r.value in pool && IsFirstMinimiser(pool, pool, r.value)
    ensures |pool| == 1 ==> r == Some(pool[0])
  {
    if |pool| == 0 then None
    else
      var i := PickBest(pool, pool);
      PickBestIsFirstMinimiser(pool, pool);
      if FallbackApplies(pool[i], pool) then
        if |universe| == 0 then None
        else
          var u := PickBest(universe, pool);
          PickBestIsFirstMinimiser(universe, pool);
          Some(universe[u])
      else
        Some(pool[i])
  }

  /**
   The live-play step: filter the pool with the feedback, then take the first
   minimiser over the new pool (no fallback here). Returns the guess and the
   new pool, or None when no pool word is consistent with the feedback.
   */
  function BestGuess(guess: Word, feedback: FeedbackRow, pool: seq<Word>): (r: Option<(Word, seq<Word>)>)
    ensures r.None? <==> forall w | w in pool :: !Compatible(guess, feedback, w)
    ensures r.Some? ==> IsSubsequence(r.value.1, pool)
    ensures r.Some? ==> forall w :: w in r.value.1 <==> w in pool && Compatible(guess, feedback, w)
    ensures r.Some? ==> r.value.0 in r.value.1 && IsFirstMinimiser(r.value.1, r.value.1, r.value.0)
  {
    var remaining := Survivors(guess, feedback, pool);
    if |remaining| == 0 then None
    else
      var i := PickBest(remaining, remaining);
      assert remaining[0] in remaining;
      PickBestIsFirstMinimiser(remaining, remaining);
      Some((remaining[i], remaining))
  }

  /**
   With feedback from the oracle for an answer in the pool, the live-play step
   always succeeds, keeps the answer, and proposes a guess that is itself
   consistent with the feedback.
   */
  lemma BestGuessAfterOracle(guess: Word, answer: Word, pool: seq<Word>)
    requires answer in pool
    ensures BestGuess(guess, Feedback(guess, answer), pool).Some?
    ensures answer in BestGuess(guess, Feedback(guess, answer), pool).value.1
    ensures Feedback(guess, BestGuess(guess, Feedback(guess, answer), pool).value.0) == Feedback(guess, answer)
  {
    SelfCompatible(guess, answer);
    var r := BestGuess(guess, Feedback(guess, answer), pool);
    CompatibleSameFeedback(guess, answer, r.value.0);
  }

  /**
   The readable scorer: the oracle's row for every answer first, then the
   size of the filtered pool for each row.
   */
  method CountCompatible(guess: Word, answers: seq<Word>) returns (counts: seq<nat>)
    ensures counts == NumCompatible(guess, answers)
  {
    var feedbackArray: seq<FeedbackRow> := [];
    for k := 0 to |answers|
      invariant |feedbackArray| == k
      invariant forall j | 0 <= j < k :: feedbackArray[j] == Feedback(guess, answers[j])
    {
      var fb := ComputeFeedback(guess, answers[k]);
      feedbackArray := feedbackArray + [fb];
    }
    counts := [];
    for k := 0 to |answers|
      invariant |counts| == k
      invariant forall j | 0 <= j < k :: counts[j] == CountTrue(CompatibleWords(guess, feedbackArray[j], answers))
    {
      var mask := CompatibleMask(guess, feedbackArray[k], answers);
      counts := counts + [CountTrue(mask)];
    }
  }

  /** Scores of every guess against the answers (the row means, scaled by |answers|). */
  method ScoreAll(guesses: seq<Word>, answers: seq<Word>) returns (scores: seq<int>)
    ensures scores == Scores(guesses, answers)
  {
    scores := [];
    for k := 0 to |guesses|
      invariant |scores| == k
      invariant forall j | 0 <= j < k :: scores[j] == Score(guesses[j], answers)
    {
      var counts := CountCompatible(guesses[k], answers);
      scores := scores + [Sum(counts)];
    }
  }
}
