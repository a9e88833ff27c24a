/** `accuracy(output, target, topk)`: precision@k for several k at once.
    The score tensor is a sequence of rows (one per example, one score per
    class), the targets one class label per example. The tensor library's
    `output.topk(maxk, 1, True, True)` is not modelled as code: its result
    `pred` is a parameter, constrained by `IsTopK` to be one of the answers the
    library may give. When scores tie, which of those answers is returned
    decides which rows count as hit; every contract here holds for any of
    them, and `HitNeedsFewAbove` and `FewAtOrAboveGivesHit` give conditions on
    the scores alone under which a row is hit or missed whatever the
    tie-break. */
module TopKAccuracy {

  /** The indices in `idx` are pairwise different. */
  predicate Distinct(idx: seq<nat>) {
    forall i, j :: 0 <= i < j < |idx| ==> idx[i] != idx[j]
  }

  /** Whatever the tie-break, the first prediction of a non-empty selection
      scores highest in its row. */
  lemma TopFirst(row: seq<real>, k: nat, idx: seq<nat>)
    requires IsTopK(row, k, idx) && k > 0
    ensures idx[0] < |row| && forall c :: 0 <= c < |row| ==> row[c] <= row[idx[0]]
  {
    forall c | 0 <= c < |row|
      ensures row[c] <= row[idx[0]]
    {
      if c in idx {
        var j :| 0 <= j < k && idx[j] == c;
        assert j == 0 || row[idx[0]] >= row[idx[j]];
      }
    }
  }

  /** `idx` is an answer of `topk(k)` (largest first, sorted) on one row of
      scores: `k` distinct column indices, in non-increasing order of score,
      every one of them scoring at least as high as every column left out. */
  predicate IsTopK(row: seq<real>, k: nat, idx: seq<nat>)
  {
    && |idx| == k
    && (forall j :: 0 <= j < k ==> idx[j] < |row|)
    && Distinct(idx)
    && (forall i, j :: 0 <= i < j < k ==> row[idx[i]] >= row[idx[j]])
    && (forall j, c :: 0 <= j < k && 0 <= c < |row| && c !in idx ==> row[idx[j]] >= row[c])
  }

  /** `max(topk)`: the largest requested k. */
  function MaxK(topk: seq<nat>): (m: nat)
    requires topk != []
    ensures m in topk
    ensures forall i :: 0 <= i < |topk| ==> topk[i] <= m
  {
    if |topk| == 1 then topk[0]
    else
      var rest := MaxK(topk[1..]);
      if topk[0] >= rest then topk[0] else rest
  }

  /** How many positions of `s` hold `x`. */
  function Occurrences(s: seq<nat>, x: int): (n: nat)
    ensures n <= |s|
    ensures n == 0 <==> x !in s
  {
    if s == [] then 0 else (if s[0] == x then 1 else 0) + Occurrences(s[1..], x)
  }

  /** Every row of `pred` has at least `k` predictions. */
  predicate RanksAtLeast(pred: seq<seq<nat>>, k: nat) {
    forall r :: 0 <= r < |pred| ==> k <= |pred[r]|
  }

  /** `correct[:k].sum()`: the number of pairs (rank below k, row) at which
      the row's prediction equals the row's target. */
  function CorrectCount(pred: seq<seq<nat>>, target: seq<int>, k: nat): (n: nat)
    requires |pred| == |target| && RanksAtLeast(pred, k)
    ensures n >= HitRows(pred, target, k)
  {
    if pred == [] then 0
    else Occurrences(pred[0][..k], target[0]) + CorrectCount(pred[1..], target[1..], k)
  }

  /** The number of rows whose target is among the row's first `k`
      predictions: what precision@k counts. */
  function HitRows(pred: seq<seq<nat>>, target: seq<int>, k: nat): nat
    requires |pred| == |target| && RanksAtLeast(pred, k)
  {
    if pred == [] then 0
    else (if target[0] in pred[0][..k] then 1 else 0) + HitRows(pred[1..], target[1..], k)
  }

  /** `correct_k.mul_(100.0 / batch_size)`. */
  function Percent(correct: nat, batchSize: nat): (p: real)
    requires batchSize > 0
    ensures correct == 0 ==> p == 0.0
    ensures correct == batchSize ==> p == 100.0
  {
    var b := batchSize as real;
    assert (100.0 / b) * b == 100.0;
    (correct as real) * (100.0 / (batchSize as real))
  }

  /** The result of `accuracy`, one percentage per requested k, in the order
      of `topk`. `pred` is the tensor library's top-`maxk` selection for each
      row. Every percentage is 100 times the share of rows whose target is
      among that row's first k predictions, so it lies in [0, 100], and a
      larger k never gives a smaller percentage. */
  method Accuracy(output: seq<seq<real>>, target: seq<int>, topk: seq<nat>, pred: seq<seq<nat>>)
    returns (res: seq<real>)
    requires topk != []
    requires |target| > 0 && |output| == |target| && |pred| == |target|
    requires forall r :: 0 <= r < |pred| ==> IsTopK(output[r], MaxK(topk), pred[r])
    ensures |res| == |topk|
    ensures forall i :: 0 <= i < |topk| ==> RanksAtLeast(pred, topk[i])
    ensures forall i :: 0 <= i < |topk| ==> res[i] == Percent(HitRows(pred, target, topk[i]), |target|)
    ensures forall i :: 0 <= i < |topk| ==> 0.0 <= res[i] <= 100.0
    ensures forall i, j :: 0 <= i < |topk| && 0 <= j < |topk| && topk[i] <= topk[j] ==> res[i] <= res[j]
  {
    var maxk := MaxK(topk);
    var batchSize := |target|;
    res := [];
    for i := 0 to |topk|
      invariant |res| == i
      invariant forall j :: 0 <= j < i ==> RanksAtLeast(pred, topk[j])
      invariant forall j :: 0 <= j < i ==>
        res[j] == Percent(HitRows(pred, target, topk[j]), batchSize) && 0.0 <= res[j] <= 100.0
    {
      var k := topk[i];
      PrecisionAtK(output, pred, target, maxk, k);
      var correctK := CorrectCount(pred, target, k);
      res := res + [Percent(correctK, batchSize)];
    }
    forall i, j | 0 <= i < |topk| && 0 <= j < |topk| && topk[i] <= topk[j]
      ensures res[i] <= res[j]
    {
      HitRowsMonotone(pred, target, topk[i], topk[j]);
      PercentMonotone(HitRows(pred, target, topk[i]), HitRows(pred, target, topk[j]), batchSize);
    }
  }

  /** One entry of the result: the percentage of matches among the first k
      ranks is the percentage of rows hit at k, and lies in [0, 100]. */
  lemma PrecisionAtK(output: seq<seq<real>>, pred: seq<seq<nat>>, target: seq<int>, maxk: nat, k: nat)
    requires |target| > 0 && |output| == |pred| == |target| && k <= maxk
    requires forall r :: 0 <= r < |pred| ==> IsTopK(output[r], maxk, pred[r])
    ensures RanksAtLeast(pred, k)
    ensures Percent(CorrectCount(pred, target, k), |target|) == Percent(HitRows(pred, target, k), |target|)
    ensures 0.0 <= Percent(HitRows(pred, target, k), |target|) <= 100.0
  {
    CorrectCountIsHitRows(output, pred, target, maxk, k);
    HitRowsAtMost(pred, target, k);
    PercentBounds(HitRows(pred, target, k), |target|);
  }

  // -----------------------------------------------------------------------
  // Counting: each row contributes at most once

  /** A value occurs at most once among distinct indices. */
  lemma {:induction false} OccurrencesDistinct(s: seq<nat>, x: int)
    requires Distinct(s)
    ensures Occurrences(s, x) == if x in s then 1 else 0
  {
    if s != [] {
      assert Distinct(s[1..]);
      OccurrencesDistinct(s[1..], x);
      assert x in s <==> s[0] == x || x in s[1..];
    }
  }

  /** Because a row's predictions are distinct, counting matches in the
      first k ranks counts each row whose target is among them exactly once. */
  lemma {:induction false} CorrectCountIsHitRows(
    output: seq<seq<real>>, pred: seq<seq<nat>>, target: seq<int>, maxk: nat, k: nat)
    requires |output| == |pred| == |target| && k <= maxk
    requires forall r :: 0 <= r < |pred| ==> IsTopK(output[r], maxk, pred[r])
    ensures RanksAtLeast(pred, k)
    ensures CorrectCount(pred, target, k) == HitRows(pred, target, k)
  {
    if pred != [] {
      CorrectCountIsHitRows(output[1..], pred[1..], target[1..], maxk, k);
      var s := pred[0][..k];
      assert Distinct(s) by {
        assert Distinct(pred[0]);
      }
      OccurrencesDistinct(s, target[0]);
    }
  }

  /** No more rows are hit than there are rows. */
  lemma {:induction false} HitRowsAtMost(pred: seq<seq<nat>>, target: seq<int>, k: nat)
    requires |pred| == |target| && RanksAtLeast(pred, k)
    ensures HitRows(pred, target, k) <= |pred|
  {
    if pred != [] {
      HitRowsAtMost(pred[1..], target[1..], k);
    }
  }

  /** The first k1 predictions of a row are a prefix of its first k2, so a
      row hit at k1 is hit at k2. */
  lemma RowHitMonotone(row: seq<nat>, x: int, k1: nat, k2: nat)
    requires k1 <= k2 <= |row|
    ensures x in row[..k1] ==> x in row[..k2]
  {
    if x in row[..k1] {
      var j :| 0 <= j < k1 && row[..k1][j] == x;
      assert row[..k2][j] == x;
    }
  }

  /** Hence no fewer rows are hit at k2 than at k1. */
  lemma {:induction false} HitRowsMonotone(pred: seq<seq<nat>>, target: seq<int>, k1: nat, k2: nat)
    requires |pred| == |target| && k1 <= k2 && RanksAtLeast(pred, k2)
    ensures HitRows(pred, target, k1) <= HitRows(pred, target, k2)
  {
    if pred != [] {
      HitRowsMonotone(pred[1..], target[1..], k1, k2);
      RowHitMonotone(pred[0], target[0], k1, k2);
    }
  }

  lemma PercentBounds(correct: nat, batchSize: nat)
    requires 0 < batchSize && correct <= batchSize
    ensures 0.0 <= Percent(correct, batchSize) <= 100.0
  {
    var b := batchSize as real;
    var unit := 100.0 / b;
    assert unit * b == 100.0;
    assert (correct as real) * unit <= b * unit;
  }

  lemma PercentMonotone(c1: nat, c2: nat, batchSize: nat)
    requires 0 < batchSize && c1 <= c2
    ensures Percent(c1, batchSize) <= Percent(c2, batchSize)
  {
    var unit := 100.0 / (batchSize as real);
    assert (c2 as real) * unit - (c1 as real) * unit == ((c2 - c1) as real) * unit;
  }

  // -----------------------------------------------------------------------
  // Which rows are hit, in terms of the scores

  /** The set of values in a sequence. */
  function Elems(s: seq<nat>): set<nat> {
    set x | x in s
  }

  /** The classes of a row scoring strictly more than `x`. */
  function StrictlyAbove(row: seq<real>, x: real): set<nat> {
    set c: nat | c < |row| && row[c] > x
  }

  /** The classes of a row scoring at least `x`. */
  function AtOrAbove(row: seq<real>, x: real): set<nat> {
    set c: nat | c < |row| && row[c] >= x
  }

  lemma {:induction false} ElemsCard(s: seq<nat>)
    ensures |Elems(s)| <= |s|
    ensures Distinct(s) ==> |Elems(s)| == |s|
  {
    if s != [] {
      ElemsCard(s[1..]);
      assert Elems(s) == {s[0]} + Elems(s[1..]);
      assert Distinct(s) ==> Distinct(s[1..]) && s[0] !in Elems(s[1..]);
    }
  }

  lemma SubsetCard(a: set<nat>, b: set<nat>)
    requires a <= b
    ensures |a| <= |b|
  {
    assert b == a + (b - a);
  }

  /** A hit at k needs fewer than k classes scoring strictly above the
      target: they all sit before the target in the selection. */
  lemma HitNeedsFewAbove(row: seq<real>, maxk: nat, idx: seq<nat>, k: nat, t: nat)
    requires IsTopK(row, maxk, idx) && k <= maxk && t < |row|
    ensures t in idx[..k] ==> |StrictlyAbove(row, row[t])| < k
  {
    if t in idx[..k] {
      var p :| 0 <= p < k && idx[p] == t;
      var above := StrictlyAbove(row, row[t]);
      forall c | c in above
        ensures c in Elems(idx[..p])
      {
        assert c in idx;
        var q :| 0 <= q < maxk && idx[q] == c;
        assert q < p;
        assert idx[..p][q] == c;
      }
      SubsetCard(above, Elems(idx[..p]));
      ElemsCard(idx[..p]);
    }
  }

  /** When the target is not among the first k predictions, each of those
      scores at least as high as the target: either the target was selected
      later, or it was left out. */
  lemma MissedTargetScoresBelow(row: seq<real>, maxk: nat, idx: seq<nat>, k: nat, t: nat, j: nat)
    requires IsTopK(row, maxk, idx) && k <= maxk && t < |row|
    requires t !in idx[..k] && j < k
    ensures row[idx[j]] >= row[t]
  {
    assert forall q :: 0 <= q < k ==> idx[q] == idx[..k][q];
    if t in idx {
      var p :| 0 <= p < maxk && idx[p] == t;
      assert j < p;
    }
  }

  /** A miss at k means the first k predictions and the target itself, k + 1
      distinct classes, all score at least the target's score. */
  lemma MissLeavesManyAtOrAbove(row: seq<real>, maxk: nat, idx: seq<nat>, k: nat, t: nat)
    requires IsTopK(row, maxk, idx) && k <= maxk && t < |row|
    ensures t !in idx[..k] ==> |AtOrAbove(row, row[t])| > k
  {
    if t !in idx[..k] {
      var first := idx[..k];
      DistinctPrefix(idx, k);
      var chosen := Elems(first) + {t};
      AddFreshCard(first, t);
      forall c | c in chosen
        ensures c in AtOrAbove(row, row[t])
      {
        if c != t {
          SelectedScoresAbove(row, maxk, idx, k, t, c);
        }
      }
      SubsetCard(chosen, AtOrAbove(row, row[t]));
    }
  }

  lemma SelectedScoresAbove(row: seq<real>, maxk: nat, idx: seq<nat>, k: nat, t: nat, c: nat)
    requires IsTopK(row, maxk, idx) && k <= maxk && t < |row|
    requires t !in idx[..k] && c in Elems(idx[..k])
    ensures c < |row| && row[c] >= row[t]
  {
    var j :| 0 <= j < k && idx[..k][j] == c;
    MissedTargetScoresBelow(row, maxk, idx, k, t, j);
  }

  lemma DistinctPrefix(idx: seq<nat>, k: nat)
    requires Distinct(idx) && k <= |idx|
    ensures Distinct(idx[..k])
  {
    assert forall q :: 0 <= q < k ==> idx[..k][q] == idx[q];
  }

  /** Adding a new element to the values of a duplicate-free sequence gives
      one more element than the sequence has. */
  lemma AddFreshCard(s: seq<nat>, t: nat)
    requires Distinct(s) && t !in s
    ensures |Elems(s) + {t}| == |s| + 1
  {
    ElemsCard(s);
    assert t !in Elems(s);
  }

  /** Conversely, when at most k classes score at least the target's score,
      whichever way the ties are broken the target is among the first k. */
  lemma FewAtOrAboveGivesHit(row: seq<real>, maxk: nat, idx: seq<nat>, k: nat, t: nat)
    requires IsTopK(row, maxk, idx) && k <= maxk && t < |row|
    ensures |AtOrAbove(row, row[t])| <= k ==> t in idx[..k]
  {
    MissLeavesManyAtOrAbove(row, maxk, idx, k, t);
  }

  /** If every row's target scores strictly above every other class of its
      row, top-1 precision is 100. */
  lemma {:induction false} ArgmaxTargetsHitTop1(
    output: seq<seq<real>>, pred: seq<seq<nat>>, target: seq<int>, maxk: nat)
    requires |output| == |pred| == |target| && 1 <= maxk
    requires forall r :: 0 <= r < |pred| ==> IsTopK(output[r], maxk, pred[r])
    requires forall r :: 0 <= r < |target| ==>
      0 <= target[r] < |output[r]| &&
      forall c :: 0 <= c < |output[r]| && c != target[r] ==> output[r][c] < output[r][target[r]]
    ensures RanksAtLeast(pred, 1) && HitRows(pred, target, 1) == |pred|
    ensures |pred| > 0 ==> Percent(HitRows(pred, target, 1), |pred|) == 100.0
  {
    if pred != [] {
      ArgmaxTargetsHitTop1(output[1..], pred[1..], target[1..], maxk);
      var row, t := output[0], target[0] as nat;
      assert AtOrAbove(row, row[t]) == {t};
      FewAtOrAboveGivesHit(row, maxk, pred[0], 1, t);
      var b := |pred| as real;
      assert (100.0 / b) * b == 100.0;
    }
  }

  /** If in every row at least k classes score strictly above the target,
      precision@k is 0. */
  lemma {:induction false} BuriedTargetsMiss(
    output: seq<seq<real>>, pred: seq<seq<nat>>, target: seq<int>, maxk: nat, k: nat)
    requires |output| == |pred| == |target| && k <= maxk
    requires forall r :: 0 <= r < |pred| ==> IsTopK(output[r], maxk, pred[r])
    requires forall r :: 0 <= r < |target| ==>
      0 <= target[r] < |output[r]| && |StrictlyAbove(output[r], output[r][target[r]])| >= k
    ensures RanksAtLeast(pred, k) && HitRows(pred, target, k) == 0
  {
    if pred != [] {
      BuriedTargetsMiss(output[1..], pred[1..], target[1..], maxk, k);
      HitNeedsFewAbove(output[0], maxk, pred[0], k, target[0] as nat);
    }
  }
}
