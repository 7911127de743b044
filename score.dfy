/** The rolling score of the tutor: the outcomes of the last ten answers
    (1 for correct, 0 for wrong) and the percentage shown after each answer. */
module Score {

  /** The length of the window: deque(maxlen=10), score[-10:]. */
  const WindowSize: nat := 10

  /** The last n elements of xs, or all of xs when it has fewer: xs[-n:]
      for n > 0 (the windows use n = 10). */
  function LastN<T>(xs: seq<T>, n: nat): (r: seq<T>)
    ensures |r| == if |xs| < n then |xs| else n
    ensures r == xs[|xs| - |r|..]
  {
    if |xs| <= n then xs else xs[|xs| - n..]
  }

  /** Trimming before appending does not change the last n: a deque with
      maxlen n holds the last n values ever appended. */
  lemma LastNAppend<T>(xs: seq<T>, x: T, n: nat)
    requires n > 0
    ensures LastN(LastN(xs, n) + [x], n) == LastN(xs + [x], n)
  {
    var w := LastN(xs, n);
    var k := |xs| - |w|;
    assert xs + [x] == xs[..k] + (w + [x]);
    assert (xs + [x])[k..] == w + [x];
  }

  /** The outcome recorded for one answer. */
  function Point(correct: bool): int
  {
    if correct then 1 else 0
  }

  /** Every entry is 0 or 1. */
  predicate Outcomes(xs: seq<int>)
  {
    forall i :: 0 <= i < |xs| ==> xs[i] == 0 || xs[i] == 1
  }

  /** Appending an outcome keeps a sequence of outcomes. */
  lemma OutcomesAppend(xs: seq<int>, correct: bool)
    requires Outcomes(xs)
    ensures Outcomes(xs + [Point(correct)])
  {
    var ys := xs + [Point(correct)];
    assert forall i :: 0 <= i < |xs| ==> ys[i] == xs[i];
  }

  /** The last n of a sequence of outcomes are outcomes. */
  lemma OutcomesLastN(xs: seq<int>, n: nat)
    requires Outcomes(xs)
    ensures Outcomes(LastN(xs, n))
  {
    var r := LastN(xs, n);
    var k := |xs| - |r|;
    assert forall i :: 0 <= i < |r| ==> r[i] == xs[k + i];
  }

  function Sum(xs: seq<int>): int
    decreases |xs|
  {
    if xs == [] then 0 else Sum(xs[..|xs| - 1]) + xs[|xs| - 1]
  }

  /** The number of correct answers in a sequence of outcomes. */
  lemma {:induction false} SumBounds(xs: seq<int>)
    requires Outcomes(xs)
    ensures 0 <= Sum(xs) <= |xs|
    ensures Sum(xs) == |xs| <==> forall i :: 0 <= i < |xs| ==> xs[i] == 1
    decreases |xs|
  {
    if xs != [] {
      var init := xs[..|xs| - 1];
      assert forall i :: 0 <= i < |init| ==> init[i] == xs[i];
      SumBounds(init);
    }
  }

  /** The sum of outcomes is the number of correct answers (ones), and the
      rest of the entries are the wrong answers (zeros). */
  lemma {:induction false} SumCountsOnes(xs: seq<int>)
    requires Outcomes(xs)
    ensures Sum(xs) == multiset(xs)[1]
    ensures |xs| == multiset(xs)[0] + multiset(xs)[1]
    decreases |xs|
  {
    if xs != [] {
      var init := xs[..|xs| - 1];
      assert xs == init + [xs[|xs| - 1]];
      assert forall i :: 0 <= i < |init| ==> init[i] == xs[i];
      SumCountsOnes(init);
      assert multiset(xs) == multiset(init) + multiset{xs[|xs| - 1]};
    }
  }

  /** Sum counts from the front as well as from the back. */
  lemma {:induction false} SumCons(x: int, xs: seq<int>)
    ensures Sum([x] + xs) == x + Sum(xs)
    decreases |xs|
  {
    if xs != [] {
      var init := xs[..|xs| - 1];
      assert ([x] + xs)[..|xs|] == [x] + init;
      SumCons(x, init);
    }
  }

  /** int(sum(xs) / len(xs) * 100): the share of ones as a percentage,
      truncated towards zero. */
  function Percent(xs: seq<int>): (p: int)
    requires |xs| > 0
    ensures p * |xs| <= 100 * Sum(xs) < (p + 1) * |xs|
  {
    (100 * Sum(xs)) / |xs|
  }

  /** The percentage lies between 0 and 100 and is 100 exactly when every
      answer was correct. */
  lemma PercentBounds(xs: seq<int>)
    requires |xs| > 0 && Outcomes(xs)
    ensures 0 <= Percent(xs) <= 100
    ensures Percent(xs) == 100 <==> forall i :: 0 <= i < |xs| ==> xs[i] == 1
  {
    SumBounds(xs);
    var n, t, p := |xs|, Sum(xs), Percent(xs);
    // p * n <= 100 * t <= 100 * n, and 0 <= 100 * t < (p + 1) * n
    MulStrict(p, 100, n);
    MulStrict(-1, p, n);
    if p == 100 {
      MulStrict(t, n, 100);
    }
    if t == n {
      MulStrict(p, 100, n);
      MulStrict(100, p + 1, n);
    }
  }

  /** Multiplying by a positive number keeps the order. */
  lemma MulStrict(a: int, b: int, n: int)
    requires n > 0
    ensures a < b <==> a * n < b * n
  {
    if a < b {
      assert b * n - a * n == (b - a) * n;
    } else {
      assert a * n - b * n == (a - b) * n;
    }
  }

  /** The deque(maxlen=10) of outcomes: appending beyond ten entries drops
      the oldest.  `history` is every outcome ever appended. */
  class ScoreWindow {
    var entries: seq<int>
    ghost var history: seq<int>

    ghost predicate Valid()
      reads this
    {
      entries == LastN(history, WindowSize) && Outcomes(history)
    }

    constructor()
      ensures Valid() && entries == [] && history == []
    {
      entries := [];
      history := [];
    }

    /** score.append(1) or score.append(0). */
    method Record(correct: bool)
      requires Valid()
      modifies this
      ensures Valid()
      ensures history == old(history) + [Point(correct)]
      ensures entries == LastN(old(entries) + [Point(correct)], WindowSize)
      ensures |entries| <= WindowSize && entries != []
    {
      LastNAppend(history, Point(correct), WindowSize);
      entries := LastN(entries + [Point(correct)], WindowSize);
      OutcomesAppend(history, correct);
      history := history + [Point(correct)];
    }

    /** The percentage main prints after each answer. */
    function Percentage(): (p: int)
      reads this
      requires entries != []
      ensures p == Percent(entries)
    {
      Percent(entries)
    }
  }

  /** The window is made of outcomes, so its percentage is between 0 and 100. */
  lemma WindowPercentBounds(w: ScoreWindow)
    requires w.Valid() && w.entries != []
    ensures 0 <= w.Percentage() <= 100
  {
    OutcomesLastN(w.history, WindowSize);
    PercentBounds(w.entries);
  }
}
