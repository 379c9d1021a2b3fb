/**
 The filter agrees with the oracle.

 For feedback produced by the oracle for some answer, the filter keeps a
 candidate exactly when the oracle would give that candidate the same
 feedback. So the filter never drops the true answer, and filtering a pool is
 the same as re-running the oracle on every pool word, only cheaper.
 */
module Consistency {
  import opened Words
  import opened Oracle
  import opened Filter

  /** The open positions of the oracle's row are exactly its non-green entries. */
  lemma OpenIsNotGreen(guess: Word, answer: Word)
    ensures ColorIsNot(Feedback(guess, answer), Correct) == Unmatched(guess, answer)
  {
  }

  /** Position idx of a word's own feedback allows that word. */
  lemma SelfAllows(guess: Word, c: Word, idx: nat)
    requires idx < WordLength
    ensures Allows(guess, Feedback(guess, c), c, idx)
  {
    var f := Feedback(guess, c);
    var letter := guess[idx];
    var open := Unmatched(guess, c);
    OpenIsNotGreen(guess, c);
    if f[idx] == Present {
      TallyIsCount(open, c, letter);
      YellowCount(guess, c, letter);
    } else if f[idx] == Absent {
      BlackExhausts(guess, c, idx);
      CountZero(open, c, letter);
      CountZero(ColorIs(f, Correct), guess, letter);
      CountAgree(OtherOpen(f, idx), c, open, c, letter);
    }
  }

  /** Soundness: every word passes the filter built from its own feedback. */
  lemma SelfCompatible(guess: Word, c: Word)
    ensures Compatible(guess, Feedback(guess, c), c)
  {
    forall idx | 0 <= idx < WordLength
      ensures Allows(guess, Feedback(guess, c), c, idx)
    {
      SelfAllows(guess, c, idx);
    }
  }

  /** A candidate the filter keeps has its greens exactly where the answer had them. */
  lemma CompatibleSameGreens(guess: Word, answer: Word, c: Word)
    requires Compatible(guess, Feedback(guess, answer), c)
    ensures Unmatched(guess, c) == Unmatched(guess, answer)
  {
    var f := Feedback(guess, answer);
    forall i | 0 <= i < WordLength
      ensures (guess[i] != c[i]) == (guess[i] != answer[i])
    {
      assert Allows(guess, f, c, i);
    }
  }

  /**
   A candidate the filter keeps leaves, for every letter, as many yellows
   available as the answer did (up to the guess's own open count).
   */
  lemma CompatibleSameYellows(guess: Word, answer: Word, c: Word, letter: char)
    requires Compatible(guess, Feedback(guess, answer), c)
    requires Unmatched(guess, c) == Unmatched(guess, answer)
    ensures Min(GuessLeft(guess, c, letter), AnswerLeft(guess, c, letter))
         == Min(GuessLeft(guess, answer, letter), AnswerLeft(guess, answer, letter))
  {
    var f := Feedback(guess, answer);
    var open := Unmatched(guess, answer);
    YellowCount(guess, answer, letter);
    OpenIsNotGreen(guess, answer);
    var yellows := Yellows(guess, f, letter);
    if j :| 0 <= j < WordLength && f[j] == Absent && guess[j] == letter {
      BlackExhausts(guess, answer, j);
      assert Allows(guess, f, c, j);
      CountZero(open, c, letter);
      if yellows >= 1 {
        CountAgree(OtherOpen(f, j), c, open, c, letter);
      }
    } else {
      CountAgree(ColorIs(f, Present), guess, open, guess, letter);
      if yellows > 0 {
        CountZero(ColorIs(f, Present), guess, letter);
        var j :| 0 <= j < WordLength && f[j] == Present && guess[j] == letter;
        assert Allows(guess, f, c, j);
        TallyIsCount(ColorIsNot(f, Correct), c, letter);
      }
    }
  }

  /**
   The oracle's row is fixed by the green positions and, per letter, the
   number of yellows available.
   */
  lemma FeedbackFromCounts(guess: Word, answer: Word, c: Word)
    requires Unmatched(guess, c) == Unmatched(guess, answer)
    requires forall i | 0 <= i < WordLength ::
      Min(GuessLeft(guess, c, guess[i]), AnswerLeft(guess, c, guess[i]))
      == Min(GuessLeft(guess, answer, guess[i]), AnswerLeft(guess, answer, guess[i]))
    ensures Feedback(guess, c) == Feedback(guess, answer)
  {
    forall i | 0 <= i < WordLength
      ensures Feedback(guess, c)[i] == Feedback(guess, answer)[i]
    {
      FeedbackRank(guess, c, i);
      FeedbackRank(guess, answer, i);
      if guess[i] != answer[i] {
        CountToBelow(Unmatched(guess, answer), guess, guess[i], i, WordLength);
      }
    }
  }

  /** Completeness: a candidate the filter keeps would have produced the same feedback. */
  lemma CompatibleSameFeedback(guess: Word, answer: Word, c: Word)
    requires Compatible(guess, Feedback(guess, answer), c)
    ensures Feedback(guess, c) == Feedback(guess, answer)
  {
    CompatibleSameGreens(guess, answer, c);
    forall i | 0 <= i < WordLength
      ensures Min(GuessLeft(guess, c, guess[i]), AnswerLeft(guess, c, guess[i]))
           == Min(GuessLeft(guess, answer, guess[i]), AnswerLeft(guess, answer, guess[i]))
    {
      CompatibleSameYellows(guess, answer, c, guess[i]);
    }
    FeedbackFromCounts(guess, answer, c);
  }

  /** The central theorem: kept exactly when the oracle gives the same feedback. */
  lemma CompatibleIffSameFeedback(guess: Word, answer: Word, c: Word)
    ensures Compatible(guess, Feedback(guess, answer), c) <==> Feedback(guess, c) == Feedback(guess, answer)
  {
    if Compatible(guess, Feedback(guess, answer), c) {
      CompatibleSameFeedback(guess, answer, c);
    } else {
      SelfCompatible(guess, c);
    }
  }

  /** The true answer is never filtered out. */
  lemma AnswerSurvives(guess: Word, answer: Word, pool: seq<Word>)
    requires answer in pool
    ensures answer in Survivors(guess, Feedback(guess, answer), pool)
  {
    SelfCompatible(guess, answer);
  }

  /** The reference filter: keep the pool words the oracle gives this feedback. */
  function OracleFilter(guess: Word, feedback: FeedbackRow, pool: seq<Word>): seq<Word> {
    Select(pool, seq(|pool|, k requires 0 <= k < |pool| => Feedback(guess, pool[k]) == feedback))
  }

  /** Filtering from the feedback equals re-running the oracle on every pool word. */
  lemma SurvivorsAreOracleFilter(guess: Word, answer: Word, pool: seq<Word>)
    ensures Survivors(guess, Feedback(guess, answer), pool) == OracleFilter(guess, Feedback(guess, answer), pool)
  {
    var f := Feedback(guess, answer);
    forall k | 0 <= k < |pool|
      ensures Compatible(guess, f, pool[k]) == (Feedback(guess, pool[k]) == f)
    {
      CompatibleIffSameFeedback(guess, answer, pool[k]);
    }
    assert CompatibleWords(guess, f, pool)
        == seq(|pool|, k requires 0 <= k < |pool| => Feedback(guess, pool[k]) == f);
  }
}
