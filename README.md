# deep_clustering training utilities, modelled in Dafny

This project models the helpers in `utils.py` that a training loop uses:

- **`AverageMeter`** keeps a running, weighted average of a stream of values, such as per-batch losses weighted by batch size.
  - `average_meter.dfy` models it as a class with the same four fields (`val`, `avg`, `sum`, `count`), updated in place.
  - A ghost history of the observations since the last reset ties those fields to the weighted sums they stand for.
- **`accuracy`** computes precision@k for several k at once: the percentage of rows whose target class is among the row's k highest scores.
  - `accuracy.dfy` models it as a method with a loop over `topk`.
  - The method is specified by counting functions over the top-k selection.
  - That selection is passed in and constrained by `IsTopK` to be one of the answers the tensor library's `topk` may give. When scores tie, which answer is returned decides which rows count as hit. Every contract holds for each of those answers, and `HitNeedsFewAbove` and `FewAtOrAboveGivesHit` give conditions on the scores alone under which a row is missed or hit whatever the tie-break.
- **`CyclicLr` and `StepMinLr`** are the two learning-rate schedules.
  - `lr_schedule.dfy` models each as a datatype of its constructor arguments, with a pure function from epoch to rate.
  - Python's floor `%`, the truncating `int(a / b)` and `x ** e` with an integer exponent of either sign are written out explicitly in `py_arith.dfy`.
- **The unit table of `timed_operation`**, which turns elapsed seconds into minutes, hours or days, is modelled in `timed_operation.dfy`, both as written and as corrected (see Findings).

`wrappers.dfy` holds the `Option` and `Result` datatypes.

Points where the code behaves in a way a reader might not expect, and which the model follows:

- **`StepMinLr` rounds toward zero.** The `int(...)` at utils.py:77 truncates rather than floors. So epochs less than one period *before* the start epoch also get exponent 0. Epochs one period or more before it get a negative exponent. For a factor in (0, 1) and a positive `init_lr` that means a rate above `init_lr` (`StepMinLrBeforeStart` with `StepMinLrUnclampedNonIncreasing`).
- **`AverageMeter.update` has no zero guard.** It divides by the new count unconditionally (utils.py:31).
- **`timed_operation` rejects `'s'`.** The docstring at utils.py:91 lists `s`, `m` and `h`, and `'s'` is the default, yet the `if`/`elif` chain at utils.py:108-117 raises ValueError for `'s'`. `ElapsedInAsWritten` models the code as written. `ElapsedIn` is built on the corrected table `TimeDivisor`, which differs from the code only for `'s'` (`ElapsedInCorrectsOnlySeconds`).
- **Batch size 0 divides by zero.** `100.0 / batch_size` at utils.py:47 has no guard, so the model requires a non-empty batch.
- **Labels are not checked.** The comparison at utils.py:42 does not require a label to be a valid class index, so a label that is out of range simply never matches a prediction.

## Model

| member | source | states |
|---|---|---|
| Meter.AverageMeter.constructor | utils.py:18-19 | a new meter has all four fields zero and an empty history, and satisfies the invariant |
| Meter.AverageMeter.Reset | utils.py:21-25 | from any prior state, val, avg, sum and count become 0 and the history is emptied; the invariant holds afterwards |
| Meter.AverageMeter.Update | utils.py:27-31 | with the weight n defaulting to 1, keeps the invariant: val is the new value, sum grows by val*n, count grows by n, avg = sum/count; the history gains exactly this observation |
| Meter.WeightedSumBounds | utils.py:29-30 | with positive weights and every value in [lo, hi], the accumulated sum lies between lo*count and hi*count |
| Meter.TotalWeightPositive | utils.py:30 | with positive weights the count is positive once anything has been observed |
| Meter.AverageWithinRange | utils.py:27-31 | with positive weights, avg lies between the smallest and largest value observed since the last reset |
| Meter.ConstantStreamSum | utils.py:29-30 | when every value is v, sum = v * count, whatever the weights |
| Meter.ConstantStreamAverage | utils.py:27-31 | averaging a constant stream gives back that constant |
| TopKAccuracy.TopFirst | utils.py:40 | in every answer of `topk` with k > 0 the first index is a valid column whose score is the row's highest |
| TopKAccuracy.MaxK | utils.py:37 | max(topk) is one of the requested k and bounds all of them |
| TopKAccuracy.Occurrences | utils.py:42-46 | the matches of a label in a row of `correct` number at most the row's length, and are zero exactly when the label is absent |
| TopKAccuracy.CorrectCount | utils.py:46 | the number of matches in the first k ranks is at least the number of rows hit at k |
| TopKAccuracy.Percent | utils.py:47 | no hits scale to 0 and a hit in every row scales to 100 |
| TopKAccuracy.PrecisionAtK | utils.py:45-47 | for every k up to maxk each row has k predictions, the percentage of matches equals the percentage of rows hit, and lies in [0, 100] |
| TopKAccuracy.Accuracy | utils.py:34-48 | one result per requested k, in order; each is 100 * (rows whose target is among their first k predictions) / batch size, lies in [0, 100], and never decreases as k grows |
| TopKAccuracy.OccurrencesDistinct | utils.py:42-46 | among distinct predictions a label matches at most once |
| TopKAccuracy.CorrectCountIsHitRows | utils.py:40-46 | the sum of the boolean matches in the first k ranks equals the number of rows hit at k |
| TopKAccuracy.HitRowsAtMost | utils.py:46-47 | no more rows are hit than there are rows |
| TopKAccuracy.RowHitMonotone | utils.py:46 | a row whose target is among its first k1 predictions has it among its first k2, for every k2 >= k1 |
| TopKAccuracy.HitRowsMonotone | utils.py:46 | the number of rows hit at k1 is at most the number hit at every k2 >= k1 |
| TopKAccuracy.PercentBounds | utils.py:47 | a count between 0 and the batch size scales to a percentage in [0, 100] |
| TopKAccuracy.PercentMonotone | utils.py:47 | scaling to a percentage preserves order |
| TopKAccuracy.HitNeedsFewAbove | utils.py:40-46 | a row hit at k has fewer than k classes scoring strictly above its target |
| TopKAccuracy.MissLeavesManyAtOrAbove | utils.py:40-46 | a row missed at k has more than k classes scoring at least its target's score |
| TopKAccuracy.FewAtOrAboveGivesHit | utils.py:40-46 | when at most k classes score at least the target's score, the row is hit at k, however ties are broken |
| TopKAccuracy.ArgmaxTargetsHitTop1 | utils.py:34-48 | when every target is its row's unique highest score, precision@1 is 100 |
| TopKAccuracy.BuriedTargetsMiss | utils.py:34-48 | when at least k classes score strictly above every target, no row is hit at k, so precision@k is 0 |
| PyArith.FloorDiv | utils.py:61 | Python's `//`: the quotient q satisfies d*q <= a < d*q + d for a positive divisor, and the mirrored bracket for a negative one |
| PyArith.FloorMod | utils.py:61 | Python's `%`: the remainder lies between 0 and the divisor, has the divisor's sign, and satisfies a = m*(a//m) + r |
| PyArith.FloorModPositive | utils.py:61 | for a positive divisor Python's `%` agrees with Dafny's |
| PyArith.FloorModShift | utils.py:61 | adding whole periods does not change the remainder |
| PyArith.TruncDiv | utils.py:62 | `int(a / d)`: the quotient is non-negative when a and d agree in sign, non-positive when they differ, and 0 when abs(a) < abs(d) |
| PyArith.TruncDivRemainder | utils.py:62 | `int(a / d)` rounds toward zero: the remainder is smaller than the divisor and never of the opposite sign to a |
| PyArith.TruncDivVersusFloorDiv | utils.py:62 | truncation equals flooring, except for an inexact negative quotient, where it is one above |
| PyArith.TruncDivMonotone | utils.py:77 | for a positive divisor `int(a / d)` is monotone in a |
| PyArith.NatPow | utils.py:77 | a power of a non-zero base is non-zero, and of a positive base is positive |
| PyArith.Pow | utils.py:77 | `x ** e` with an integer exponent: for e >= 0 it is the repeated product, it is non-zero for a non-zero base and positive for a positive base |
| PyArith.PowNegative | utils.py:77 | for a negative exponent `x ** e` is the reciprocal of `x ** -e` |
| PyArith.PowAntitone | utils.py:77 | for a base in (0, 1], `x ** e` is non-increasing in the integer exponent, negative exponents included |
| PyArith.ScaledPow | utils.py:62 | `c * x ** e` lies in [0, c] for c >= 0, a base in (0, 1] and e >= 0, and is positive for positive c and x |
| PyArith.ScaledPowAntitone | utils.py:77 | for c >= 0 and a base in (0, 1], `c * x ** e` is non-increasing in e |
| PyArith.ScaledPowNegativeOne | utils.py:77 | for c > 0 and a base in (0, 1), `c * x ** -1` exceeds c |
| LrSchedule.CyclicLr.EpochInCycle | utils.py:61 | the position in the cycle lies in [0, period) for a positive period, in (period, 0] for a negative one, and differs from the epoch offset by whole periods |
| LrSchedule.CyclicLr.Exponent | utils.py:62 | the number of decays is non-negative for positive periods, and 0 while the position in the cycle is smaller than the decay interval |
| LrSchedule.CyclicLr.LrAt | utils.py:60-63 | with positive periods, a factor in (0, 1] and a non-negative initial rate, the rate lies in [0, init_lr]; it is positive for a positive init_lr and factor |
| LrSchedule.CyclicLrAtStart | utils.py:60-63 | at the start epoch the rate is init_lr |
| LrSchedule.CyclicLrPeriodic | utils.py:61-62 | the rate is periodic with period num_epochs_per_cycle, before the start epoch as well |
| LrSchedule.CyclicLrRestartsEachCycle | utils.py:60-63 | every cycle begins again at init_lr |
| LrSchedule.CyclicLrExponentBounds | utils.py:61-62 | with positive periods the number of decays lies in [0, (num_epochs_per_cycle - 1) // epochs_pro_decay] |
| LrSchedule.CyclicLrNonIncreasingInCycle | utils.py:61-62 | within a cycle the rate never rises (factor in (0, 1]) |
| LrSchedule.CyclicLrRange | utils.py:60-63 | every rate lies between init_lr * factor ** ((num_epochs_per_cycle - 1) // epochs_pro_decay), the most-decayed rate of a cycle, and init_lr |
| LrSchedule.DefaultCyclicLrRange | utils.py:52-63 | with the default arguments every rate lies in [0.01 * 0.5^5, 0.01] |
| LrSchedule.CyclicLrFirstCycleIsStep | utils.py:60-80 | in the first cycle the cyclic schedule coincides with the step schedule without a floor |
| LrSchedule.StepMinLr.Exponent | utils.py:76-77 | the number of decays is non-negative when epoch - start_epoch and epochs_pro_decay agree in sign, non-positive when they differ, and 0 within one period of the start epoch, on either side |
| LrSchedule.StepMinLr.Unclamped | utils.py:76-77 | from the start epoch on, for a positive decay interval, a factor in (0, 1] and a non-negative initial rate, the decayed rate lies in [0, init_lr]; it is positive for a positive init_lr and factor |
| LrSchedule.StepMinLr.LrAt | utils.py:75-80 | without min_lr the rate is the decayed rate; with it the rate is the larger of the floor and the decayed rate |
| LrSchedule.StepMinLrNoDecayNearStart | utils.py:76-77 | within one period of the start epoch, on either side, no decay is applied |
| LrSchedule.StepMinLrBeforeStart | utils.py:76-77 | one full period before the start epoch the exponent is -1 and the rate exceeds init_lr |
| LrSchedule.StepMinLrUnclampedNonIncreasing | utils.py:76-77 | the decayed rate never rises as the epoch grows (factor in (0, 1]) |
| LrSchedule.StepMinLrNonIncreasing | utils.py:75-80 | the returned rate never rises as the epoch grows, with or without min_lr |
| LrSchedule.StepMinLrExponentStep | utils.py:76-77 | from the start epoch on, with a positive decay interval, the number of decays is non-negative and one period later it is one more |
| LrSchedule.StepMinLrDecaysEachPeriod | utils.py:76-77 | from the start epoch on, each period multiplies the decayed rate by the factor once |
| LrSchedule.DefaultStepMinLrHalves | utils.py:67-80 | with the default arguments the rate starts at 0.01 and halves every two epochs |
| LrSchedule.StepMinLrFloorExample | utils.py:75-80 | init 1.0, factor 0.5, one epoch per decay, floor 0.1: at epoch 10 the decayed rate is 1/1024 and the rate is 0.1 |
| TimedOperation.TimeDivisorAsWritten | utils.py:108-117 | the table as written: m, h and d get 60, 3600 and 86400 seconds, and no other unit gets a divisor; any other unit, `'s'` included, is the error "Unknown tformat=" followed by the unit |
| TimedOperation.DefaultUnitRejectedAsWritten | utils.py:108-117 | the table as written rejects `'s'`, the default unit, with "Unknown tformat=s" |
| TimedOperation.TimeDivisor | utils.py:108-117 | corrected table: a divisor exactly for s, m, h and d, at least 1; `'s'` maps to 1.0, and every other unit agrees with the code, so m, h and d get 60, 3600 and 86400 |
| TimedOperation.InUnit | utils.py:119 | dividing by a divisor of at least 1: the result times the divisor is the input, and a non-negative input shrinks into [0, input]; an error divisor passes through |
| TimedOperation.ElapsedInAsWritten | utils.py:108-119 | the code as written: an error exactly for units other than m, h and d, with the code's message; otherwise the reported duration times the divisor is the elapsed time |
| TimedOperation.ElapsedIn | utils.py:108-119 | on the corrected table: the reported duration times the divisor is the elapsed time, lies in [0, elapsed] for a forward clock, is the elapsed seconds for `'s'`, and is an error exactly for unknown units |
| TimedOperation.ElapsedInUnits | utils.py:108-119 | the corrected conversion reports the elapsed seconds for s, and divides them by 60, by 60 twice, and by 60, 60 and 24 for m, h and d |
| TimedOperation.ElapsedInCorrectsOnlySeconds | utils.py:108-119 | the corrected and the as-written durations agree for every unit except `'s'`, which the code rejects and the correction reports in seconds |

## Left out

- `save_checkpoint` is not modelled. It is file I/O only (`torch.save`, `shutil.copyfile`).
- The clock, the printing and the context-manager protocol of `timed_operation` are not modelled.
  - Start and end times are parameters of `ElapsedIn` and `ElapsedInAsWritten`.
  - The `{:.4f}` formatting is not modelled.
- Floating point is not modelled: rates, scores, sums and percentages are exact `real`s, so float rounding is absent.
- Tensor details are not modelled:
  - `torch.no_grad`, dtypes and the in-place `mul_`;
  - the success of `correct[:k].view(-1)`, which the model assumes. `correct` inherits the transposed layout of `pred.t()`, and the tensor library's `view` can refuse such a non-contiguous tensor for k >= 2 with more than one row, where `reshape` would not. That error path is not modelled;
  - a single target broadcast by `expand_as` (the model takes one target per row);
  - the tensor library's `topk` itself, which is a parameter constrained by `IsTopK`.
- Meter.AverageMeter.Update: requires `count + n != 0`. In the source, a zero count raises ZeroDivisionError after `val`, `sum` and `count` have already changed. That half-updated state is not modelled. Weights are integers, not floats.
- TopKAccuracy.Accuracy: several of the source's cases are excluded or not modelled.
  - The default `topk=(1,)` is not modelled: callers pass `topk` explicitly.
  - An empty `topk` makes `max(())` raise ValueError; it is excluded by `requires topk != []`.
  - A batch of size 0 raises ZeroDivisionError at utils.py:47; it is excluded by requiring a non-empty batch.
  - A maxk larger than the number of classes makes the tensor library's `topk` raise; it is excluded because no selection satisfies `IsTopK` then.
  - Each k is a natural number. Python's negative-index slicing `correct[:k]` with k < 0 is not modelled.
- TopKAccuracy.CorrectCount: states only a lower bound by itself; its equality with the number of rows hit needs the distinctness of the selection and is `CorrectCountIsHitRows`.
- LrSchedule.CyclicLr.Exponent: states signs and the zero case only; the exact value of `int(a / d)` is given by `TruncDivRemainder` and `TruncDivVersusFloorDiv`.
- LrSchedule.StepMinLr.Exponent: the same holds.
- LrSchedule.CyclicLr.LrAt: a zero period or decay interval (ZeroDivisionError) and `0.0 ** negative` are excluded by the `WellFormed`/`Defined` preconditions rather than modelled as errors.
- LrSchedule.StepMinLr.LrAt: the same exclusions apply.
- Epochs are integers. The source would also accept float epochs; that case is not modelled.

## Findings

| source | as written | input that shows it | evidently intended | confidence | as-written member | corrected member |
|---|---|---|---|---|---|---|
| utils.py:108-117 | `if tformat == 's'` stands apart from the following `if`/`elif`/`else` chain, so `'s'` falls into the `else` and raises ValueError | `tformat='s'`, the default argument | seconds use divisor 1.0 and the elapsed time is printed | high, not executed | TimedOperation.DefaultUnitRejectedAsWritten | TimedOperation.TimeDivisor |
