/** `AverageMeter`: a running, weighted average of a stream of observations.
    The source keeps four fields and updates them in place; the model keeps
    the same four fields and, as ghost state, the observations received since
    the last reset, so that the fields can be tied to that history. */
module Meter {
  import opened PyArith

  /** One call `update(val, n)`: a value and its weight (for example a
      per-batch loss and the batch size). */
  datatype Observation = Observation(val: real, n: int)

  /** `sum` after a sequence of updates: the weighted total of the values. */
  function WeightedSum(h: seq<Observation>): real {
    if h == [] then 0.0 else WeightedSum(h[..|h| - 1]) + h[|h| - 1].val * (h[|h| - 1].n as real)
  }

  /** `count` after a sequence of updates: the total weight. */
  function TotalWeight(h: seq<Observation>): int {
    if h == [] then 0 else TotalWeight(h[..|h| - 1]) + h[|h| - 1].n
  }

  class AverageMeter {
    var val: real
    var avg: real
    var sum: real
    var count: int
    /** The observations passed to `Update` since the last `Reset`. */
    ghost var history: seq<Observation>

    /** `sum` and `count` are the weighted totals of the history; before any
        update everything is zero, and after one `val` is the latest value and
        `avg` is `sum / count`. */
    ghost predicate Valid()
      reads this
    {
      && sum == WeightedSum(history)
      && count == TotalWeight(history)
      && (history == [] ==> val == 0.0 && avg == 0.0)
      && (history != [] ==>
            val == history[|history| - 1].val && count != 0 && avg == sum / (count as real))
    }

    /** `__init__`: a fresh meter is reset. */
    constructor ()
      ensures Valid() && history == []
      ensures val == 0.0 && avg == 0.0 && sum == 0.0 && count == 0
    {
      new;
      Reset();
    }

    /** `reset`: all four fields become zero, whatever came before. */
    method Reset()
      modifies this
      ensures Valid() && history == []
      ensures val == 0.0 && avg == 0.0 && sum == 0.0 && count == 0
    {
      val := 0.0;
      avg := 0.0;
      sum := 0.0;
      count := 0;
      history := [];
    }

    /** `update(val, n=1)`: records the value, adds `val * n` to the sum and
        `n` to the count, and recomputes the average. The division is
        unguarded in the source, so the new count must not be zero. */
    method Update(v: real, n: int := 1)
      requires Valid()
      requires count + n != 0
      modifies this
      ensures Valid() && history == old(history) + [Observation(v, n)]
      ensures val == v && sum == old(sum) + v * (n as real) && count == old(count) + n
      ensures avg == sum / (count as real)
    {
      val := v;
      sum := sum + v * (n as real);
      count := count + n;
      avg := sum / (count as real);
      history := history + [Observation(v, n)];
      assert history[..|history| - 1] == old(history);
    }
  }

  // -----------------------------------------------------------------------
  // What the average means

  /** When every weight is positive and every value lies in [lo, hi], the
      weighted sum lies between lo and hi times the total weight. */
  lemma {:induction false} WeightedSumBounds(h: seq<Observation>, lo: real, hi: real)
    requires forall i :: 0 <= i < |h| ==> h[i].n > 0 && lo <= h[i].val <= hi
    ensures lo * (TotalWeight(h) as real) <= WeightedSum(h) <= hi * (TotalWeight(h) as real)
  {
    if h != [] {
      var init, last := h[..|h| - 1], h[|h| - 1];
      assert forall i :: 0 <= i < |init| ==> init[i] == h[i];
      WeightedSumBounds(init, lo, hi);
      AddWeighted(lo, hi, WeightedSum(init), TotalWeight(init) as real, last.val, last.n as real);
    }
  }

  /** One more observation keeps a weighted total between the bounds. */
  lemma AddWeighted(lo: real, hi: real, sum: real, count: real, v: real, w: real)
    requires lo * count <= sum <= hi * count && lo <= v <= hi && w > 0.0
    ensures lo * (count + w) <= sum + v * w <= hi * (count + w)
  {
    MulMonotoneReal(w, lo, v);
    MulMonotoneReal(w, v, hi);
    assert lo * (count + w) == lo * count + w * lo;
    assert hi * (count + w) == hi * count + w * hi;
  }

  /** With positive weights the total weight is positive once anything has
      been observed. */
  lemma {:induction false} TotalWeightPositive(h: seq<Observation>)
    requires h != [] && forall i :: 0 <= i < |h| ==> h[i].n > 0
    ensures TotalWeight(h) > 0
  {
    if |h| > 1 {
      TotalWeightPositive(h[..|h| - 1]);
    }
  }

  /** With positive weights the running average is a true weighted mean: it
      lies between the smallest and the largest value observed since the last
      reset. */
  lemma AverageWithinRange(m: AverageMeter, lo: real, hi: real)
    requires m.Valid() && m.history != []
    requires forall i :: 0 <= i < |m.history| ==> m.history[i].n > 0 && lo <= m.history[i].val <= hi
    ensures lo <= m.avg <= hi
  {
    WeightedSumBounds(m.history, lo, hi);
    TotalWeightPositive(m.history);
    QuotientBetween(m.sum, m.count as real, lo, hi);
  }

  lemma QuotientBetween(s: real, c: real, lo: real, hi: real)
    requires c > 0.0 && lo * c <= s <= hi * c
    ensures lo <= s / c <= hi
  {
    var ic := 1.0 / c;
    assert ic * c == 1.0 && ic > 0.0;
    assert s / c == s * ic;
    assert (s - lo * c) * ic >= 0.0 && (hi * c - s) * ic >= 0.0;
    assert (s - lo * c) * ic == s * ic - lo;
    assert (hi * c - s) * ic == hi - s * ic;
  }

  /** When every value is `v`, the weighted sum is `v` times the total
      weight, whatever the weights. */
  lemma {:induction false} ConstantStreamSum(h: seq<Observation>, v: real)
    requires forall i :: 0 <= i < |h| ==> h[i].val == v
    ensures WeightedSum(h) == v * (TotalWeight(h) as real)
  {
    if h != [] {
      ConstantStreamSum(h[..|h| - 1], v);
    }
  }

  /** Averaging a constant stream gives back the constant, whatever the
      weights (as long as the meter holds an average, so they do not sum to
      zero). */
  lemma ConstantStreamAverage(m: AverageMeter, v: real)
    requires m.Valid() && m.history != []
    requires forall i :: 0 <= i < |m.history| ==> m.history[i].val == v
    ensures m.avg == v
  {
    ConstantStreamSum(m.history, v);
  }
}
