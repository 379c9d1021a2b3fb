/**
 The candidate filter: which pool words are still possible after a guess and
 its feedback.

 The constraints are read straight from (guess, feedback), one position at a
 time, without re-running the oracle. `Allows` is the constraint of one
 position on one candidate, `Compatible` their conjunction, `CompatibleWords`
 the boolean mask over a pool (the compressed filter) and `CompatibleMask` the
 readable filter, which builds the same mask one position at a time.
 */
module Filter {
  import opened Words

  /** Positions other than idx that are not green: `(arange(5) != idx) & (feedback != 2)`. */
  function OtherOpen(feedback: FeedbackRow, idx: nat): seq<bool> {
    seq(WordLength, j requires 0 <= j < WordLength => j != idx && feedback[j] != Correct)
  }

  /** Positions that are not a green of this letter: `~((feedback == 2) & (guess == letter))`. */
  function NotGreenFor(guess: Word, feedback: FeedbackRow, letter: char): seq<bool> {
    seq(WordLength, j requires 0 <= j < WordLength => !(feedback[j] == Correct && guess[j] == letter))
  }

  /** `np.all(word[mask] != letter)`. */
  predicate Lacks(c: Word, letter: char, mask: seq<bool>)
    requires |mask| == WordLength
  {
    forall j | 0 <= j < WordLength && mask[j] :: c[j] != letter
  }

  /** How many times the letter is yellow in the guess. */
  function Yellows(guess: Word, feedback: FeedbackRow, letter: char): nat {
    Count(ColorIs(feedback, Present), guess, letter)
  }

  /** How many times the letter is green in the guess. */
  function Greens(guess: Word, feedback: FeedbackRow, letter: char): nat {
    Count(ColorIs(feedback, Correct), guess, letter)
  }

  /** `np.sum(word[mask] == letter)`: the count as a sum of 0/1 indicators. */
  function Tally(mask: seq<bool>, w: seq<char>, letter: char): int
    requires |mask| == |w|
  {
    Sum(seq(|w|, j requires 0 <= j < |w| => if mask[j] && w[j] == letter then 1 else 0))
  }

  /** The constraint that position idx of (guess, feedback) puts on candidate c. */
  predicate Allows(guess: Word, feedback: FeedbackRow, c: Word, idx: nat)
    requires idx < WordLength
  {
    var letter := guess[idx];
    if feedback[idx] == Absent then
      var numYellows := Yellows(guess, feedback, letter);
      var numGreens := Greens(guess, feedback, letter);
      && (numGreens == 0 && numYellows == 0 ==> Lacks(c, letter, Everywhere()))
      && (if numYellows >= 1 then
            Count(OtherOpen(feedback, idx), c, letter) == numYellows && c[idx] != letter
          else if numGreens >= 1 then
            Lacks(c, letter, NotGreenFor(guess, feedback, letter))
          else true)
    else if feedback[idx] == Present then
      Tally(ColorIsNot(feedback, Correct), c, letter) >= Yellows(guess, feedback, letter) && c[idx] != letter
    else if feedback[idx] == Correct then
      c[idx] == letter
    else
      true
  }

  /** A candidate survives when every position of the guess allows it. */
  predicate Compatible(guess: Word, feedback: FeedbackRow, c: Word) {
    forall idx | 0 <= idx < WordLength :: Allows(guess, feedback, c, idx)
  }

  /** The compressed filter's mask over a pool: one entry per pool word. */
  function CompatibleWords(guess: Word, feedback: FeedbackRow, pool: seq<Word>): (mask: seq<bool>)
    ensures |mask| == |pool|
  {
    seq(|pool|, k requires 0 <= k < |pool| => Compatible(guess, feedback, pool[k]))
  }

  /** The integer sum of indicators equals the count. */
  lemma {:induction false} TallyIsCountTo(mask: seq<bool>, w: seq<char>, letter: char, n: nat)
    requires |mask| == |w| && n <= |w|
    ensures Sum(seq(n, j requires 0 <= j < n => if mask[j] && w[j] == letter then 1 else 0))
         == CountTo(mask, w, letter, n)
    decreases n
  {
    if n > 0 {
      var xs := seq(n, j requires 0 <= j < n => if mask[j] && w[j] == letter then 1 else 0);
      assert xs[..n - 1] == seq(n - 1, j requires 0 <= j < n - 1 => if mask[j] && w[j] == letter then 1 else 0);
      TallyIsCountTo(mask, w, letter, n - 1);
    }
  }

  lemma TallyIsCount(mask: seq<bool>, w: seq<char>, letter: char)
    requires |mask| == |w|
    ensures Tally(mask, w, letter) == Count(mask, w, letter)
  {
    TallyIsCountTo(mask, w, letter, |w|);
  }

  function And(a: seq<bool>, b: seq<bool>): seq<bool>
    requires |a| == |b|
  {
    seq(|a|, k requires 0 <= k < |a| => a[k] && b[k])
  }

  /**
   The readable filter: start from an all-true mask and, position by
   position, AND in the constraint that position's colour imposes.
   */
  method CompatibleMask(guess: Word, feedback: FeedbackRow, pool: seq<Word>) returns (mask: seq<bool>)
    ensures mask == CompatibleWords(guess, feedback, pool)
  {
    mask := seq(|pool|, _ => true);
    for idx := 0 to WordLength
      invariant |mask| == |pool|
      invariant forall k | 0 <= k < |pool| ::
        mask[k] == forall j | 0 <= j < idx :: Allows(guess, feedback, pool[k], j)
    {
      var letter := guess[idx];
      var color := feedback[idx];
      ghost var before := mask;
      if color == Absent {
        var numYellows := Count(ColorIs(feedback, Present), guess, letter);
        var numGreens := Count(ColorIs(feedback, Correct), guess, letter);
        if numGreens == 0 && numYellows == 0 {
          var updated := seq(|pool|, k requires 0 <= k < |pool| => Lacks(pool[k], letter, Everywhere()));
          mask := And(mask, updated);
        }
        if numYellows >= 1 {
          var removeBlack := seq(|pool|, k requires 0 <= k < |pool| => pool[k][idx] != letter);
          var included := OtherOpen(feedback, idx);
          var countYellows := seq(|pool|, k requires 0 <= k < |pool| => Count(included, pool[k], letter));
          var properNumber := seq(|pool|, k requires 0 <= k < |pool| => countYellows[k] == numYellows);
          mask := And(mask, And(properNumber, removeBlack));
        } else if numGreens >= 1 {
          var notGreen := NotGreenFor(guess, feedback, letter);
          var updated := seq(|pool|, k requires 0 <= k < |pool| => Lacks(pool[k], letter, notGreen));
          mask := And(mask, updated);
        }
      } else if color == Present {
        var removeIdentical := seq(|pool|, k requires 0 <= k < |pool| => pool[k][idx] != letter);
        var numYellows := Count(ColorIs(feedback, Present), guess, letter);
        var countYellows := seq(|pool|, k requires 0 <= k < |pool| => Count(ColorIsNot(feedback, Correct), pool[k], letter));
        var properNumber := seq(|pool|, k requires 0 <= k < |pool| => countYellows[k] >= numYellows);
        mask := And(mask, And(properNumber, removeIdentical));
        forall k | 0 <= k < |pool| {
          TallyIsCount(ColorIsNot(feedback, Correct), pool[k], letter);
        }
      } else if color == Correct {
        var updated := seq(|pool|, k requires 0 <= k < |pool| => pool[k][idx] == letter);
        mask := And(mask, updated);
      }
      assert forall k | 0 <= k < |pool| :: mask[k] == (before[k] && Allows(guess, feedback, pool[k], idx));
    }
  }

  /** numpy boolean indexing `xs[mask]`: the entries whose mask bit is set, in order. */
  function Select<T>(xs: seq<T>, mask: seq<bool>): (r: seq<T>)
    requires |mask| == |xs|
    ensures |r| == CountTrue(mask)
    ensures forall k | 0 <= k < |xs| && mask[k] :: xs[k] in r
    ensures forall x | x in r :: exists k | 0 <= k < |xs| :: mask[k] && xs[k] == x
    ensures IsSubsequence(r, xs)
  {
    if |xs| == 0 then []
    else
      var rest := Select(xs[1..], mask[1..]);
      assert forall k | 1 <= k < |xs| :: xs[k] == xs[1..][k - 1] && mask[k] == mask[1..][k - 1];
      if mask[0] then
        assert ([xs[0]] + rest)[1..] == rest;
        [xs[0]] + rest
      else
        rest
  }

  /** Counting a non-empty prefix: its head, then the rest of the prefix. */
  lemma CountTruePrefix(mask: seq<bool>, k: nat)
    requires 1 <= k <= |mask|
    ensures CountTrue(mask[..k]) == (if mask[0] then 1 else 0) + CountTrue(mask[1..][..k - 1])
  {
    assert mask[..k][1..] == mask[1..][..k - 1];
  }

  /**
   Selection keeps order and multiplicity: a selected entry lands at the
   position given by the number of set bits before it.
   */
  lemma {:induction false} SelectOrder<T>(xs: seq<T>, mask: seq<bool>)
    requires |mask| == |xs|
    ensures forall k | 0 <= k < |xs| && mask[k] ::
      CountTrue(mask[..k]) < |Select(xs, mask)| && Select(xs, mask)[CountTrue(mask[..k])] == xs[k]
    decreases |xs|
  {
    if |xs| > 0 {
      SelectOrder(xs[1..], mask[1..]);
      var r := Select(xs, mask);
      var rest := Select(xs[1..], mask[1..]);
      assert r == if mask[0] then [xs[0]] + rest else rest;
      forall k | 0 <= k < |xs| && mask[k]
        ensures CountTrue(mask[..k]) < |r| && r[CountTrue(mask[..k])] == xs[k]
      {
        if k == 0 {
          assert mask[..0] == [];
        } else {
          CountTruePrefix(mask, k);
          assert xs[1..][k - 1] == xs[k] && mask[1..][k - 1] == mask[k];
        }
      }
    }
  }

  /** xs is an order-preserving subsequence of ys. */
  predicate IsSubsequence<T(==)>(xs: seq<T>, ys: seq<T>)
    decreases |ys|
  {
    |xs| == 0
    || (|ys| > 0 && ((xs[0] == ys[0] && IsSubsequence(xs[1..], ys[1..])) || IsSubsequence(xs, ys[1..])))
  }

  lemma {:induction false} SubsequenceTransitive<T>(xs: seq<T>, ys: seq<T>, zs: seq<T>)
    requires IsSubsequence(xs, ys) && IsSubsequence(ys, zs)
    ensures IsSubsequence(xs, zs)
    decreases |zs|
  {
    if |xs| > 0 {
      if ys[0] == zs[0] && IsSubsequence(ys[1..], zs[1..]) {
        if xs[0] == ys[0] && IsSubsequence(xs[1..], ys[1..]) {
          SubsequenceTransitive(xs[1..], ys[1..], zs[1..]);
        } else {
          SubsequenceTransitive(xs, ys[1..], zs[1..]);
        }
      } else {
        SubsequenceTransitive(xs, ys, zs[1..]);
      }
    }
  }

  lemma {:induction false} SubsequenceMembers<T>(xs: seq<T>, ys: seq<T>)
    requires IsSubsequence(xs, ys)
    ensures forall x | x in xs :: x in ys
    decreases |ys|
  {
    if |xs| > 0 {
      if xs[0] == ys[0] && IsSubsequence(xs[1..], ys[1..]) {
        SubsequenceMembers(xs[1..], ys[1..]);
        assert forall x | x in xs :: x == xs[0] || x in xs[1..];
      } else {
        SubsequenceMembers(xs, ys[1..]);
      }
    }
  }

  lemma {:induction false} SubsequenceReflexive<T>(xs: seq<T>)
    ensures IsSubsequence(xs, xs)
    decreases |xs|
  {
    if |xs| > 0 {
      SubsequenceReflexive(xs[1..]);
    }
  }

  /** `remaining_words[get_compatible_words(guess, feedback, remaining_words)]`. */
  function Survivors(guess: Word, feedback: FeedbackRow, pool: seq<Word>): (r: seq<Word>)
    ensures |r| <= |pool|
    ensures forall w | w in r :: w in pool && Compatible(guess, feedback, w)
    ensures forall w | w in pool && Compatible(guess, feedback, w) :: w in r
    ensures IsSubsequence(r, pool)
  {
    var mask := CompatibleWords(guess, feedback, pool);
    CountTrueAtMost(mask);
    Select(pool, mask)
  }

  /** Selecting with an all-true mask gives the sequence back. */
  lemma {:induction false} SelectAll<T>(xs: seq<T>, mask: seq<bool>)
    requires |mask| == |xs| && forall k | 0 <= k < |mask| :: mask[k]
    ensures Select(xs, mask) == xs
    decreases |xs|
  {
    if |xs| > 0 {
      SelectAll(xs[1..], mask[1..]);
    }
  }

  /** Filtering an already filtered pool with the same guess and feedback keeps every word. */
  lemma SurvivorsIdempotent(guess: Word, feedback: FeedbackRow, pool: seq<Word>)
    ensures Survivors(guess, feedback, Survivors(guess, feedback, pool)) == Survivors(guess, feedback, pool)
  {
    var once := Survivors(guess, feedback, pool);
    SelectAll(once, CompatibleWords(guess, feedback, once));
  }
}
