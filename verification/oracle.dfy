/**
 The feedback oracle: colours a guess against an answer.

 Green (2) marks the positions where guess and answer agree. Among the other
 ("open") positions, each letter of the guess is yellow (1) for its first n
 open occurrences, where n is the number of open answer positions holding that
 letter, and black (0) after that.

 `Feedback` follows the compressed oracle (indices of the open occurrences,
 sliced to the first n); `ComputeFeedback` follows the readable one (a loop
 over the distinct yellow letters). Both are tied to the rank form of the rule
 by `FeedbackRank`.
 */
module Oracle {
  import opened Words

  /** Positions that are not green: `feedback != 2` after the green pass. */
  function Unmatched(guess: Word, answer: Word): seq<bool> {
    seq(WordLength, i requires 0 <= i < WordLength => guess[i] != answer[i])
  }

  /** Indices j < n, ascending, with mask[j] set and w[j] == letter. */
  function Occurrences(mask: seq<bool>, w: seq<char>, letter: char, n: nat): seq<nat>
    requires |mask| == |w| && n <= |w|
  {
    if n == 0 then []
    else Occurrences(mask, w, letter, n - 1) + (if mask[n - 1] && w[n - 1] == letter then [n - 1] else [])
  }

  /** numpy's slice `s[:n]`, which clamps at the end of the sequence. */
  function Take(s: seq<nat>, n: nat): seq<nat> {
    if n <= |s| then s[..n] else s
  }

  /** `np.in1d`: does the letter occur at a selected position of w? */
  predicate OccursAt(mask: seq<bool>, w: seq<char>, letter: char)
    requires |mask| == |w|
  {
    exists j | 0 <= j < |w| :: mask[j] && w[j] == letter
  }

  /** Number of open guess positions holding the letter. */
  function GuessLeft(guess: Word, answer: Word, letter: char): nat {
    Count(Unmatched(guess, answer), guess, letter)
  }

  /** Number of open answer positions holding the letter: how many yellows it can earn. */
  function AnswerLeft(guess: Word, answer: Word, letter: char): nat {
    Count(Unmatched(guess, answer), answer, letter)
  }

  /** Number of open guess positions before i that hold the letter at i. */
  function Rank(guess: Word, answer: Word, i: nat): nat
    requires i < WordLength
  {
    CountTo(Unmatched(guess, answer), guess, guess[i], i)
  }

  function Feedback(guess: Word, answer: Word): (f: FeedbackRow)
    ensures forall i | 0 <= i < WordLength :: (f[i] == Correct) == (guess[i] == answer[i])
    ensures forall i | 0 <= i < WordLength :: f[i] == Absent || f[i] == Present || f[i] == Correct
  {
    var open := Unmatched(guess, answer);
    seq(WordLength, i requires 0 <= i < WordLength =>
      if !open[i] then Correct
      else if OccursAt(open, answer, guess[i])
           && i in Take(Occurrences(open, guess, guess[i], WordLength), Count(open, answer, guess[i]))
      then Present
      else Absent)
  }

  /** Length of the occurrence list and what its entries are: entry k is the k-th occurrence. */
  lemma {:induction false} OccurrencesEntries(mask: seq<bool>, w: seq<char>, letter: char, n: nat)
    requires |mask| == |w| && n <= |w|
    ensures |Occurrences(mask, w, letter, n)| == CountTo(mask, w, letter, n)
    ensures forall k | 0 <= k < |Occurrences(mask, w, letter, n)| ::
              Occurrences(mask, w, letter, n)[k] < n
              && mask[Occurrences(mask, w, letter, n)[k]] && w[Occurrences(mask, w, letter, n)[k]] == letter
              && CountTo(mask, w, letter, Occurrences(mask, w, letter, n)[k]) == k
    decreases n
  {
    if n > 0 {
      OccurrencesEntries(mask, w, letter, n - 1);
      var prev := Occurrences(mask, w, letter, n - 1);
      var occ := Occurrences(mask, w, letter, n);
      assert forall k | 0 <= k < |prev| :: occ[k] == prev[k];
    }
  }

  /** Every occurrence sits in the occurrence list at the index given by its rank. */
  lemma {:induction false} OccurrencesIndex(mask: seq<bool>, w: seq<char>, letter: char, n: nat, i: nat)
    requires |mask| == |w| && i < n <= |w|
    requires mask[i] && w[i] == letter
    ensures CountTo(mask, w, letter, i) < |Occurrences(mask, w, letter, n)|
    ensures Occurrences(mask, w, letter, n)[CountTo(mask, w, letter, i)] == i
    decreases n
  {
    OccurrencesEntries(mask, w, letter, n);
    OccurrencesEntries(mask, w, letter, n - 1);
    if i < n - 1 {
      OccurrencesIndex(mask, w, letter, n - 1, i);
      var prev := Occurrences(mask, w, letter, n - 1);
      assert Occurrences(mask, w, letter, n)[CountTo(mask, w, letter, i)] == prev[CountTo(mask, w, letter, i)];
    }
  }

  /**
   The rank form of the rule: an open position is yellow exactly when fewer
   open guess positions before it hold its letter than the answer has left.
   */
  lemma FeedbackRank(guess: Word, answer: Word, i: nat)
    requires i < WordLength
    ensures Feedback(guess, answer)[i] ==
      if guess[i] == answer[i] then Correct
      else if Rank(guess, answer, i) < AnswerLeft(guess, answer, guess[i]) then Present
      else Absent
  {
    var open := Unmatched(guess, answer);
    var letter := guess[i];
    if open[i] {
      var occ := Occurrences(open, guess, letter, WordLength);
      var n := Count(open, answer, letter);
      var r := CountTo(open, guess, letter, i);
      OccurrencesEntries(open, guess, letter, WordLength);
      OccurrencesIndex(open, guess, letter, WordLength, i);
      CountZero(open, answer, letter);
      if r < n {
        assert Take(occ, n)[r] == i;
      } else {
        forall k | 0 <= k < |Take(occ, n)|
          ensures Take(occ, n)[k] != i
        {
          assert Take(occ, n)[k] == occ[k];
        }
      }
    }
  }

  /** The yellows on a letter go to its leftmost open guess positions. */
  lemma FeedbackLeftmost(guess: Word, answer: Word, i: nat, j: nat)
    requires j < i < WordLength
    requires guess[j] == guess[i] && guess[j] != answer[j]
    requires Feedback(guess, answer)[i] == Present
    ensures Feedback(guess, answer)[j] == Present
  {
    FeedbackRank(guess, answer, i);
    FeedbackRank(guess, answer, j);
    CountToBelow(Unmatched(guess, answer), guess, guess[j], j, i);
  }

  /** Prefix form of the yellow count: yellows among the first n positions, for one letter. */
  lemma {:induction false} YellowCountTo(guess: Word, answer: Word, letter: char, n: nat)
    requires n <= WordLength
    ensures CountTo(ColorIs(Feedback(guess, answer), Present), guess, letter, n)
         == Min(CountTo(Unmatched(guess, answer), guess, letter, n), AnswerLeft(guess, answer, letter))
    decreases n
  {
    if n > 0 {
      YellowCountTo(guess, answer, letter, n - 1);
      FeedbackRank(guess, answer, n - 1);
    }
  }

  /**
   The number of yellows on a letter is the smaller of its open guess count
   and its open answer count.
   */
  lemma YellowCount(guess: Word, answer: Word, letter: char)
    ensures Count(ColorIs(Feedback(guess, answer), Present), guess, letter)
         == Min(GuessLeft(guess, answer, letter), AnswerLeft(guess, answer, letter))
  {
    YellowCountTo(guess, answer, letter, WordLength);
  }

  /**
   A black letter has used up the answer: its yellow count equals what the
   answer had left, which is below the guess's open count.
   */
  lemma BlackExhausts(guess: Word, answer: Word, j: nat)
    requires j < WordLength && Feedback(guess, answer)[j] == Absent
    ensures Count(ColorIs(Feedback(guess, answer), Present), guess, guess[j])
         == AnswerLeft(guess, answer, guess[j])
    ensures AnswerLeft(guess, answer, guess[j]) < GuessLeft(guess, answer, guess[j])
  {
    FeedbackRank(guess, answer, j);
    YellowCount(guess, answer, guess[j]);
    CountToBelow(Unmatched(guess, answer), guess, guess[j], j, WordLength);
  }

  /**
   Greens and yellows on a letter never outnumber the letter's occurrences in
   the answer.
   */
  lemma MarksBounded(guess: Word, answer: Word, letter: char)
    ensures Count(ColorIsNot(Feedback(guess, answer), Absent), guess, letter)
         <= Count(Everywhere(), answer, letter)
  {
    var f := Feedback(guess, answer);
    var open := Unmatched(guess, answer);
    var green := ColorIs(f, Correct);
    var matched := seq(WordLength, i requires 0 <= i < WordLength => !open[i]);
    CountUnion(ColorIsNot(f, Absent), green, ColorIs(f, Present), guess, letter);
    CountAgree(green, guess, matched, answer, letter);
    YellowCount(guess, answer, letter);
    CountUnion(Everywhere(), matched, open, answer, letter);
  }

  /** Guessing the answer itself gives five greens. */
  lemma FeedbackSelf(w: Word)
    ensures Feedback(w, w) == [Correct, Correct, Correct, Correct, Correct]
  {
  }

  /** The counts behind the "speed" / "erase" row: no greens, and what the answer has left per letter. */
  lemma SpeedEraseCounts()
    ensures Unmatched("speed", "erase") == [true, true, true, true, true]
    ensures AnswerLeft("speed", "erase", 's') == 1 && AnswerLeft("speed", "erase", 'p') == 0
    ensures AnswerLeft("speed", "erase", 'e') == 2 && AnswerLeft("speed", "erase", 'd') == 0
    ensures Rank("speed", "erase", 2) == 0 && Rank("speed", "erase", 3) == 1
  {
    assert Unmatched("speed", "erase") == [true, true, true, true, true];
  }

  lemma SpeedEraseCountsFor(g: Word, a: Word)
    requires g == "speed" && a == "erase"
    ensures Unmatched(g, a) == [true, true, true, true, true]
    ensures AnswerLeft(g, a, 's') == 1 && AnswerLeft(g, a, 'p') == 0
    ensures AnswerLeft(g, a, 'e') == 2 && AnswerLeft(g, a, 'd') == 0
    ensures Rank(g, a, 2) == 0 && Rank(g, a, 3) == 1
  {
    SpeedEraseCounts();
  }

  /** Duplicate letters: the answer "erase" has two e's, so both e's of "speed" are yellow. */
  lemma FeedbackSpeedErase()
    ensures Feedback("speed", "erase") == [Present, Absent, Present, Present, Absent]
  {
    forall i | 0 <= i < WordLength
      ensures Feedback("speed", "erase")[i] == [Present, Absent, Present, Present, Absent][i]
    {
      SpeedEraseAt("speed", "erase", i);
    }
  }

  lemma SpeedEraseAt(g: Word, a: Word, i: nat)
    requires g == "speed" && a == "erase" && i < WordLength
    ensures Feedback(g, a)[i] == [Present, Absent, Present, Present, Absent][i]
  {
    SpeedEraseCountsFor(g, a);
    FeedbackRank(g, a, i);
  }

  /** Colour of an open or green position once the yellow letters in `done` have been handled. */
  function Settled(guess: Word, answer: Word, done: set<char>, j: nat): int
    requires j < WordLength
  {
    if guess[j] == answer[j] then Correct
    else if guess[j] in done && Rank(guess, answer, j) < AnswerLeft(guess, answer, guess[j]) then Present
    else Absent
  }

  /**
   One iteration of the readable oracle's letter loop: the first `numYellows`
   open positions holding `letter` become yellow, every other position keeps
   its colour.
   */
  method MarkFirstOpen(fb: seq<int>, guess: Word, answer: Word, done: set<char>, letter: char)
    returns (marked: seq<int>)
    requires |fb| == WordLength && letter !in done
    requires forall k | 0 <= k < WordLength :: fb[k] == Settled(guess, answer, done, k)
    ensures |marked| == WordLength
    ensures forall k | 0 <= k < WordLength :: marked[k] == Settled(guess, answer, done + {letter}, k)
  {
    var open := Unmatched(guess, answer);
    var numYellows := Count(open, answer, letter);
    var seen := 0;
    marked := fb;
    for j := 0 to WordLength
      invariant |marked| == WordLength
      invariant seen == CountTo(open, guess, letter, j)
      invariant forall k | 0 <= k < WordLength ::
        marked[k] == Settled(guess, answer, if guess[k] == letter && k < j then done + {letter} else done, k)
    {
      if open[j] && guess[j] == letter {
        if seen < numYellows {
          marked := marked[j := Present];
        }
        seen := seen + 1;
      }
    }
  }

  /** Handling every letter that occurs open in both words settles the whole row. */
  lemma SettledIsFeedback(guess: Word, answer: Word, letters: set<char>, j: nat)
    requires j < WordLength
    requires forall k | 0 <= k < WordLength && guess[k] != answer[k]
               && OccursAt(Unmatched(guess, answer), answer, guess[k]) :: guess[k] in letters
    ensures Settled(guess, answer, letters, j) == Feedback(guess, answer)[j]
  {
    FeedbackRank(guess, answer, j);
    CountZero(Unmatched(guess, answer), answer, guess[j]);
  }

  /** The readable oracle's first pass: all black, then green wherever the letters match. */
  method MarkGreens(guess: Word, answer: Word) returns (fb: seq<int>)
    ensures |fb| == WordLength
    ensures forall j | 0 <= j < WordLength :: fb[j] == Settled(guess, answer, {}, j)
  {
    fb := seq(WordLength, _ => Absent);
    for i := 0 to WordLength
      invariant |fb| == WordLength
      invariant forall j | 0 <= j < WordLength :: fb[j] == (if j < i && guess[j] == answer[j] then Correct else Absent)
    {
      if guess[i] == answer[i] {
        fb := fb[i := Correct];
      }
    }
  }

  /** The readable oracle's letter loop: each letter of `letters`, in any order, gets its yellows. */
  method MarkYellows(fb: seq<int>, guess: Word, answer: Word, letters: set<char>) returns (marked: seq<int>)
    requires |fb| == WordLength
    requires forall j | 0 <= j < WordLength :: fb[j] == Settled(guess, answer, {}, j)
    ensures |marked| == WordLength
    ensures forall j | 0 <= j < WordLength :: marked[j] == Settled(guess, answer, letters, j)
  {
    marked := fb;
    var todo := letters;
    while todo != {}
      invariant todo <= letters
      invariant |marked| == WordLength
      invariant forall j | 0 <= j < WordLength :: marked[j] == Settled(guess, answer, letters - todo, j)
      decreases |todo|
    {
      var letter :| letter in todo;
      marked := MarkFirstOpen(marked, guess, answer, letters - todo, letter);
      assert letters - todo + {letter} == letters - (todo - {letter});
      todo := todo - {letter};
    }
  }

  /**
   The readable oracle: greens first, then for each distinct yellow letter
   (visited in any order) the first n open occurrences become yellow.
   */
  method ComputeFeedback(guess: Word, answer: Word) returns (f: FeedbackRow)
    ensures f == Feedback(guess, answer)
  {
    var fb := MarkGreens(guess, answer);
    var open := seq(WordLength, j requires 0 <= j < WordLength => fb[j] != Correct);
    assert open == Unmatched(guess, answer);
    var yellowLetters := set j | 0 <= j < WordLength && open[j] && OccursAt(open, answer, guess[j]) :: guess[j];
    fb := MarkYellows(fb, guess, answer, yellowLetters);
    forall j | 0 <= j < WordLength
      ensures fb[j] == Feedback(guess, answer)[j]
    {
      SettledIsFeedback(guess, answer, yellowLetters, j);
    }
    f := fb;
  }
}
