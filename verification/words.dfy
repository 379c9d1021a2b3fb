/**
 Words, feedback colours and the letter counting every other module is built on.

 The solver works on 5-letter words and 5-entry feedback rows. A numpy boolean
 column mask (`feedback != 2`, `arange(5) != idx`, ...) is modelled as a
 `seq<bool>` of the same length as the word it selects from, and
 `count_nonzero(word[mask] == letter)` becomes `Count(mask, word, letter)`.
 */
module Words {

  const WordLength: nat := 5

  /** Feedback colours, numbered as in the source. */
  const Absent: int := 0
  const Present: int := 1
  const Correct: int := 2

  type Word = w: seq<char> | |w| == WordLength witness "aaaaa"

  /** One colour per letter of a guess. The filter accepts any integers here. */
  type FeedbackRow = f: seq<int> | |f| == WordLength witness [0, 0, 0, 0, 0]

  datatype Option<T> = None | Some(value: T)

  function Min(a: int, b: int): int {
    if a <= b then a else b
  }

  /** Number of positions j < n with mask[j] set and w[j] == letter. */
  function CountTo(mask: seq<bool>, w: seq<char>, letter: char, n: nat): nat
    requires |mask| == |w| && n <= |w|
  {
    if n == 0 then 0
    else CountTo(mask, w, letter, n - 1) + (if mask[n - 1] && w[n - 1] == letter then 1 else 0)
  }

  /** numpy's `count_nonzero(w[mask] == letter)`. */
  function Count(mask: seq<bool>, w: seq<char>, letter: char): nat
    requires |mask| == |w|
  {
    CountTo(mask, w, letter, |w|)
  }

  /** Mask of the positions holding a given colour (`feedback == color`). */
  function ColorIs(feedback: seq<int>, color: int): seq<bool> {
    seq(|feedback|, j requires 0 <= j < |feedback| => feedback[j] == color)
  }

  /** Mask of the positions not holding a given colour (`feedback != color`). */
  function ColorIsNot(feedback: seq<int>, color: int): seq<bool> {
    seq(|feedback|, j requires 0 <= j < |feedback| => feedback[j] != color)
  }

  /** The all-true mask of a word. */
  function Everywhere(): seq<bool> {
    seq(WordLength, _ => true)
  }

  /** numpy's `count_nonzero` of a boolean vector. */
  function CountTrue(mask: seq<bool>): nat {
    if |mask| == 0 then 0 else (if mask[0] then 1 else 0) + CountTrue(mask[1..])
  }

  /** Integer sum; stands in for `np.sum` and, scaled by the row length, for `np.mean`. */
  function Sum(xs: seq<int>): int {
    if |xs| == 0 then 0 else Sum(xs[..|xs| - 1]) + xs[|xs| - 1]
  }

  /** The rank of a matching position is below the total count: it counts itself. */
  lemma {:induction false} CountToBelow(mask: seq<bool>, w: seq<char>, letter: char, i: nat, n: nat)
    requires |mask| == |w| && i < n <= |w|
    requires mask[i] && w[i] == letter
    ensures CountTo(mask, w, letter, i) < CountTo(mask, w, letter, n)
    decreases n
  {
    if n > i + 1 {
      CountToBelow(mask, w, letter, i, n - 1);
    }
  }

  /** A count is zero exactly when no selected position holds the letter. */
  lemma {:induction false} CountToZero(mask: seq<bool>, w: seq<char>, letter: char, n: nat)
    requires |mask| == |w| && n <= |w|
    ensures CountTo(mask, w, letter, n) == 0 <==> forall j | 0 <= j < n :: !(mask[j] && w[j] == letter)
    decreases n
  {
    if n > 0 {
      CountToZero(mask, w, letter, n - 1);
    }
  }

  lemma CountZero(mask: seq<bool>, w: seq<char>, letter: char)
    requires |mask| == |w|
    ensures Count(mask, w, letter) == 0 <==> forall j | 0 <= j < |w| :: !(mask[j] && w[j] == letter)
  {
    CountToZero(mask, w, letter, |w|);
  }

  /** Two (mask, word) pairs that select the letter at the same positions count it equally. */
  lemma {:induction false} CountToAgree(m1: seq<bool>, w1: seq<char>, m2: seq<bool>, w2: seq<char>, letter: char, n: nat)
    requires |m1| == |w1| && |m2| == |w2| && n <= |w1| && n <= |w2|
    requires forall j | 0 <= j < n :: (m1[j] && w1[j] == letter) == (m2[j] && w2[j] == letter)
    ensures CountTo(m1, w1, letter, n) == CountTo(m2, w2, letter, n)
    decreases n
  {
    if n > 0 {
      CountToAgree(m1, w1, m2, w2, letter, n - 1);
    }
  }

  lemma CountAgree(m1: seq<bool>, w1: seq<char>, m2: seq<bool>, w2: seq<char>, letter: char)
    requires |m1| == |w1| && |m2| == |w2| == |w1|
    requires forall j | 0 <= j < |w1| :: (m1[j] && w1[j] == letter) == (m2[j] && w2[j] == letter)
    ensures Count(m1, w1, letter) == Count(m2, w2, letter)
  {
    CountToAgree(m1, w1, m2, w2, letter, |w1|);
  }

  /** Counting over a disjoint union of two masks adds the counts. */
  lemma {:induction false} CountToUnion(m: seq<bool>, m1: seq<bool>, m2: seq<bool>, w: seq<char>, letter: char, n: nat)
    requires |m| == |m1| == |m2| == |w| && n <= |w|
    requires forall j | 0 <= j < |w| :: m[j] == (m1[j] || m2[j]) && !(m1[j] && m2[j])
    ensures CountTo(m, w, letter, n) == CountTo(m1, w, letter, n) + CountTo(m2, w, letter, n)
    decreases n
  {
    if n > 0 {
      CountToUnion(m, m1, m2, w, letter, n - 1);
    }
  }

  lemma CountUnion(m: seq<bool>, m1: seq<bool>, m2: seq<bool>, w: seq<char>, letter: char)
    requires |m| == |m1| == |m2| == |w|
    requires forall j | 0 <= j < |w| :: m[j] == (m1[j] || m2[j]) && !(m1[j] && m2[j])
    ensures Count(m, w, letter) == Count(m1, w, letter) + Count(m2, w, letter)
  {
    CountToUnion(m, m1, m2, w, letter, |w|);
  }

  /** Counting a mask's set entries: bounded by its length, positive when one entry is set. */
  lemma {:induction false} CountTrueBounds(mask: seq<bool>, k: nat)
    requires k < |mask| && mask[k]
    ensures 1 <= CountTrue(mask) <= |mask|
    decreases |mask|
  {
    if k > 0 {
      CountTrueBounds(mask[1..], k - 1);
    } else {
      CountTrueAtMost(mask[1..]);
    }
  }

  lemma {:induction false} CountTrueAtMost(mask: seq<bool>)
    ensures CountTrue(mask) <= |mask|
    decreases |mask|
  {
    if |mask| > 0 {
      CountTrueAtMost(mask[1..]);
    }
  }

  /** An integer sum of entries that all lie in [lo, hi] lies in [n*lo, n*hi]. */
  lemma {:induction false} SumBounds(xs: seq<int>, lo: int, hi: int)
    requires forall k | 0 <= k < |xs| :: lo <= xs[k] <= hi
    ensures |xs| * lo <= Sum(xs) <= |xs| * hi
    decreases |xs|
  {
    if |xs| > 0 {
      var init := xs[..|xs| - 1];
      assert forall k | 0 <= k < |init| :: init[k] == xs[k];
      SumBounds(init, lo, hi);
      assert |xs| * lo == |init| * lo + lo;
      assert |xs| * hi == |init| * hi + hi;
    }
  }
}
