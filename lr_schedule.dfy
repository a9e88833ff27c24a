/** The two learning-rate schedules: pure maps from an epoch number to a
    rate, over configuration fixed when the schedule object is built.
    Rates are `real`s; the float rounding of the source is not modelled. */
module LrSchedule {
  import opened PyArith
  import opened Wrappers

  /** `CyclicLr`: the rate decays by `lrDecayFactor` every `epochsProDecay`
      epochs and returns to `initLr` at the start of every cycle of
      `numEpochsPerCycle` epochs. */
  datatype CyclicLr = CyclicLr(
    startEpoch: int,
    initLr: real,
    numEpochsPerCycle: int,
    epochsProDecay: int,
    lrDecayFactor: real)
  {
    /** Both divisors are non-zero (otherwise the source raises
        ZeroDivisionError on every call). */
    predicate WellFormed() {
      numEpochsPerCycle != 0 && epochsProDecay != 0
    }

    /** `cur_epoch_in_cycle`: the offset from the start epoch, taken with
        Python's `%`. */
    function EpochInCycle(epoch: int): (pos: int)
      requires numEpochsPerCycle != 0
      ensures numEpochsPerCycle > 0 ==> 0 <= pos < numEpochsPerCycle
      ensures numEpochsPerCycle < 0 ==> numEpochsPerCycle < pos <= 0
      ensures epoch - startEpoch - pos == numEpochsPerCycle * FloorDiv(epoch - startEpoch, numEpochsPerCycle)
    {
      FloorMod(epoch - startEpoch, numEpochsPerCycle)
    }

    /** The number of decays applied: `int(cur_epoch_in_cycle / epochs_pro_decay)`,
        the number of whole decay intervals in the offset, with the sign of the
        quotient. */
    function Exponent(epoch: int): (x: int)
      requires WellFormed()
      ensures numEpochsPerCycle > 0 && epochsProDecay > 0 ==> x >= 0
      ensures Abs(EpochInCycle(epoch)) < Abs(epochsProDecay) ==> x == 0
    {
      TruncDiv(EpochInCycle(epoch), epochsProDecay)
    }

    /** The call returns a value rather than raising: a zero factor is never
        raised to a negative power. */
    predicate Defined(epoch: int)
      requires WellFormed()
    {
      lrDecayFactor != 0.0 || Exponent(epoch) >= 0
    }

    /** `CyclicLr.__call__(epoch)`. With positive periods, a factor in (0, 1]
        and a non-negative initial rate, the rate is never negative and never
        above `initLr`. */
    function LrAt(epoch: int): (lr: real)
      requires WellFormed() && Defined(epoch)
      ensures numEpochsPerCycle > 0 && epochsProDecay > 0 && 0.0 < lrDecayFactor <= 1.0 && initLr >= 0.0
        ==> 0.0 <= lr <= initLr
      ensures initLr > 0.0 && lrDecayFactor > 0.0 ==> lr > 0.0
    {
      ScaledPow(initLr, lrDecayFactor, Exponent(epoch))
    }
  }

  /** `CyclicLr(start_epoch)` with the constructor's default arguments. */
  function DefaultCyclicLr(startEpoch: int): CyclicLr {
    CyclicLr(startEpoch, 0.01, 12, 2, 0.5)
  }

  /** `StepMinLr`: the rate decays by `lrDecayFactor` every `epochsProDecay`
      epochs counted from `startEpoch`, and is never below `minLr` when one
      is given. */
  datatype StepMinLr = StepMinLr(
    startEpoch: int,
    initLr: real,
    epochsProDecay: int,
    lrDecayFactor: real,
    minLr: Option<real>)
  {
    /** The divisor is non-zero (otherwise the source raises
        ZeroDivisionError on every call). */
    predicate WellFormed() {
      epochsProDecay != 0
    }

    /** The number of decays applied: `int(cur_epoch / epochs_pro_decay)`,
        truncated toward zero, so negative before the start epoch. */
    function Exponent(epoch: int): (x: int)
      requires WellFormed()
      ensures (epoch >= startEpoch) == (epochsProDecay > 0) ==> x >= 0
      ensures (epoch <= startEpoch) == (epochsProDecay > 0) ==> x <= 0
      ensures Abs(epoch - startEpoch) < Abs(epochsProDecay) ==> x == 0
    {
      TruncDiv(epoch - startEpoch, epochsProDecay)
    }

    /** The call returns a value rather than raising: a zero factor is never
        raised to a negative power. */
    predicate Defined(epoch: int)
      requires WellFormed()
    {
      lrDecayFactor != 0.0 || Exponent(epoch) >= 0
    }

    /** The decayed rate before the floor is applied. From the start epoch
        on, for a positive decay interval, a factor in (0, 1] and a
        non-negative initial rate, it lies in [0, `initLr`]. */
    function Unclamped(epoch: int): (lr: real)
      requires WellFormed() && Defined(epoch)
      ensures epoch >= startEpoch && epochsProDecay > 0 && 0.0 < lrDecayFactor <= 1.0 && initLr >= 0.0
        ==> 0.0 <= lr <= initLr
      ensures initLr > 0.0 && lrDecayFactor > 0.0 ==> lr > 0.0
    {
      ScaledPow(initLr, lrDecayFactor, Exponent(epoch))
    }

    /** `StepMinLr.__call__(epoch)`: the decayed rate, raised to `minLr` when
        a floor is set (Python's `max(lr, min_lr)`). */
    function LrAt(epoch: int): (lr: real)
      requires WellFormed() && Defined(epoch)
      ensures minLr.None? ==> lr == Unclamped(epoch)
      ensures minLr.Some? ==> lr >= minLr.value && lr >= Unclamped(epoch)
      ensures minLr.Some? ==> lr == minLr.value || lr == Unclamped(epoch)
    {
      var lr := Unclamped(epoch);
      match minLr
      case None => lr
      case Some(floor) => if floor > lr then floor else lr
    }
  }

  /** `StepMinLr(start_epoch)` with the constructor's default arguments. */
  function DefaultStepMinLr(startEpoch: int): StepMinLr {
    StepMinLr(startEpoch, 0.01, 2, 0.5, None)
  }

  // ---------------------------------------------------------------------
  // CyclicLr

  /** At the start epoch no decay has happened: the rate is `initLr`. */
  lemma CyclicLrAtStart(c: CyclicLr)
    requires c.WellFormed()
    ensures c.EpochInCycle(c.startEpoch) == 0 && c.Exponent(c.startEpoch) == 0
    ensures c.Defined(c.startEpoch) && c.LrAt(c.startEpoch) == c.initLr
  {
    DivUnique(0, Abs(c.epochsProDecay), 0, 0);
    if c.numEpochsPerCycle > 0 {
      DivUnique(0, c.numEpochsPerCycle, 0, 0);
    } else {
      DivUnique(0, -c.numEpochsPerCycle, 0, 0);
    }
  }

  /** The schedule is periodic with period `numEpochsPerCycle`, on both
      sides of the start epoch, since Python's `%` is a floor modulo. */
  lemma CyclicLrPeriodic(c: CyclicLr, epoch: int, j: int)
    requires c.WellFormed()
    ensures c.EpochInCycle(epoch + j * c.numEpochsPerCycle) == c.EpochInCycle(epoch)
    ensures c.Exponent(epoch + j * c.numEpochsPerCycle) == c.Exponent(epoch)
    ensures c.Defined(epoch) ==>
      c.Defined(epoch + j * c.numEpochsPerCycle) &&
      c.LrAt(epoch + j * c.numEpochsPerCycle) == c.LrAt(epoch)
  {
    var m := c.numEpochsPerCycle;
    assert epoch + j * m - c.startEpoch == (epoch - c.startEpoch) + j * m;
    FloorModShift(epoch - c.startEpoch, j, m);
  }

  /** Every cycle starts again at `initLr`. */
  lemma CyclicLrRestartsEachCycle(c: CyclicLr, j: int)
    requires c.WellFormed()
    ensures c.Defined(c.startEpoch + j * c.numEpochsPerCycle)
    ensures c.LrAt(c.startEpoch + j * c.numEpochsPerCycle) == c.initLr
  {
    CyclicLrAtStart(c);
    CyclicLrPeriodic(c, c.startEpoch, j);
  }

  /** With positive periods the number of decays is never negative and never
      more than `(numEpochsPerCycle - 1) / epochsProDecay`, so the call is
      defined for every factor. */
  lemma CyclicLrExponentBounds(c: CyclicLr, epoch: int)
    requires c.numEpochsPerCycle > 0 && c.epochsProDecay > 0
    ensures 0 <= c.Exponent(epoch) <= (c.numEpochsPerCycle - 1) / c.epochsProDecay
    ensures c.Defined(epoch)
  {
    DivMonotone(c.EpochInCycle(epoch), c.numEpochsPerCycle - 1, c.epochsProDecay);
    DivMonotone(0, c.EpochInCycle(epoch), c.epochsProDecay);
    DivUnique(0, c.epochsProDecay, 0, 0);
  }

  /** Within a cycle the rate never rises, for a factor in (0, 1] and a
      non-negative initial rate. */
  lemma CyclicLrNonIncreasingInCycle(c: CyclicLr, e1: int, e2: int)
    requires c.numEpochsPerCycle > 0 && c.epochsProDecay > 0
    requires 0.0 < c.lrDecayFactor <= 1.0 && c.initLr >= 0.0
    requires c.EpochInCycle(e1) <= c.EpochInCycle(e2)
    ensures c.LrAt(e2) <= c.LrAt(e1)
  {
    CyclicLrExponentBounds(c, e1);
    CyclicLrExponentBounds(c, e2);
    TruncDivMonotone(c.EpochInCycle(e1), c.EpochInCycle(e2), c.epochsProDecay);
    ScaledPowAntitone(c.initLr, c.lrDecayFactor, c.Exponent(e1), c.Exponent(e2));
  }

  /** For a factor in (0, 1] and a non-negative initial rate every rate lies
      between the most-decayed rate of a cycle and `initLr`. */
  lemma CyclicLrRange(c: CyclicLr, epoch: int)
    requires c.numEpochsPerCycle > 0 && c.epochsProDecay > 0
    requires 0.0 < c.lrDecayFactor <= 1.0 && c.initLr >= 0.0
    ensures ScaledPow(c.initLr, c.lrDecayFactor, (c.numEpochsPerCycle - 1) / c.epochsProDecay)
      <= c.LrAt(epoch) <= c.initLr
  {
    var deepest := (c.numEpochsPerCycle - 1) / c.epochsProDecay;
    var e := c.Exponent(epoch);
    CyclicLrExponentBounds(c, epoch);
    ScaledPowAntitone(c.initLr, c.lrDecayFactor, e, deepest);
  }

  /** With the default arguments the rate runs 0.01, 0.01, 0.005, 0.005, ...
      down to 0.01 * 0.5^5 within each twelve-epoch cycle. */
  lemma DefaultCyclicLrRange(startEpoch: int, epoch: int)
    ensures 0.01 * NatPow(0.5, 5) <= DefaultCyclicLr(startEpoch).LrAt(epoch) <= 0.01
  {
    var c := DefaultCyclicLr(startEpoch);
    CyclicLrRange(c, epoch);
    assert (c.numEpochsPerCycle - 1) / c.epochsProDecay == 5;
  }

  /** In the first cycle after the start epoch the cyclic schedule is the
      step schedule with the same parameters and no floor. */
  lemma CyclicLrFirstCycleIsStep(c: CyclicLr, epoch: int)
    requires c.numEpochsPerCycle > 0 && c.epochsProDecay > 0
    requires c.startEpoch <= epoch < c.startEpoch + c.numEpochsPerCycle
    ensures var s := StepMinLr(c.startEpoch, c.initLr, c.epochsProDecay, c.lrDecayFactor, None);
      && c.Defined(epoch) && s.WellFormed() && s.Defined(epoch)
      && c.LrAt(epoch) == s.LrAt(epoch)
  {
    CyclicLrExponentBounds(c, epoch);
    DivUnique(epoch - c.startEpoch, c.numEpochsPerCycle, 0, epoch - c.startEpoch);
  }

  // ---------------------------------------------------------------------
  // StepMinLr

  /** Because `int(...)` truncates toward zero, every epoch less than one
      decay period away from the start epoch, on either side, uses exponent
      0; the rate there is `initLr`, floored. */
  lemma StepMinLrNoDecayNearStart(s: StepMinLr, epoch: int)
    requires s.epochsProDecay > 0
    requires s.startEpoch - s.epochsProDecay < epoch < s.startEpoch + s.epochsProDecay
    ensures s.WellFormed() && s.Exponent(epoch) == 0
    ensures s.Defined(epoch) && s.Unclamped(epoch) == s.initLr
  {
    var a := Abs(epoch - s.startEpoch);
    DivUnique(a, s.epochsProDecay, 0, a);
  }

  /** Before the start epoch the exponent is negative once a whole period
      has been passed, so the rate is above `initLr` for a factor in (0, 1). */
  lemma StepMinLrBeforeStart(s: StepMinLr)
    requires s.epochsProDecay > 0 && 0.0 < s.lrDecayFactor < 1.0 && s.initLr > 0.0
    ensures s.WellFormed() && s.Exponent(s.startEpoch - s.epochsProDecay) == -1
    ensures s.Unclamped(s.startEpoch - s.epochsProDecay) > s.initLr
  {
    var d := s.epochsProDecay;
    DivUnique(d, d, 1, 0);
    assert s.Exponent(s.startEpoch - d) == -1;
    ScaledPowNegativeOne(s.initLr, s.lrDecayFactor);
  }

  /** Before the floor, for a factor in (0, 1] and a non-negative initial
      rate, the decayed rate is non-increasing over all epochs, before the
      start epoch as well. */
  lemma StepMinLrUnclampedNonIncreasing(s: StepMinLr, e1: int, e2: int)
    requires s.epochsProDecay > 0 && 0.0 < s.lrDecayFactor <= 1.0 && s.initLr >= 0.0
    requires e1 <= e2
    ensures s.WellFormed() && s.Defined(e1) && s.Defined(e2)
    ensures s.Unclamped(e2) <= s.Unclamped(e1)
  {
    var x1, x2 := s.Exponent(e1), s.Exponent(e2);
    TruncDivMonotone(e1 - s.startEpoch, e2 - s.startEpoch, s.epochsProDecay);
    assert x1 <= x2;
    ScaledPowAntitone(s.initLr, s.lrDecayFactor, x1, x2);
  }

  /** The same after the floor: the schedule never rises, with or without
      `minLr`. */
  lemma StepMinLrNonIncreasing(s: StepMinLr, e1: int, e2: int)
    requires s.epochsProDecay > 0 && 0.0 < s.lrDecayFactor <= 1.0 && s.initLr >= 0.0
    requires e1 <= e2
    ensures s.WellFormed() && s.Defined(e1) && s.Defined(e2)
    ensures s.LrAt(e2) <= s.LrAt(e1)
  {
    StepMinLrUnclampedNonIncreasing(s, e1, e2);
  }

  /** From the start epoch on, each further period multiplies the decayed
      rate by the factor once. */
  lemma StepMinLrDecaysEachPeriod(s: StepMinLr, epoch: int)
    requires s.epochsProDecay > 0 && epoch >= s.startEpoch
    ensures s.WellFormed() && s.Defined(epoch) && s.Defined(epoch + s.epochsProDecay)
    ensures s.Unclamped(epoch + s.epochsProDecay) == s.Unclamped(epoch) * s.lrDecayFactor
  {
    StepMinLrExponentStep(s, epoch);
    ScaledPowStep(s.initLr, s.lrDecayFactor, s.Exponent(epoch));
  }

  /** From the start epoch on, one more period is one more decay. */
  lemma StepMinLrExponentStep(s: StepMinLr, epoch: int)
    requires s.epochsProDecay > 0 && epoch >= s.startEpoch
    ensures s.WellFormed() && s.Exponent(epoch) >= 0
    ensures s.Exponent(epoch + s.epochsProDecay) == s.Exponent(epoch) + 1
  {
    var d, a := s.epochsProDecay, epoch - s.startEpoch;
    var q := a / d;
    assert a == d * q + a % d;
    assert a + d == d * (q + 1) + a % d;
    DivUnique(a + d, d, q + 1, a % d);
    assert epoch + d - s.startEpoch == a + d;
    DivNonneg(a, d);
  }

  /** With the default arguments the rate starts at 0.01 and halves every
      two epochs. */
  lemma DefaultStepMinLrHalves(startEpoch: int, epoch: int)
    requires epoch >= startEpoch
    ensures DefaultStepMinLr(startEpoch).LrAt(startEpoch) == 0.01
    ensures DefaultStepMinLr(startEpoch).LrAt(epoch + 2) == DefaultStepMinLr(startEpoch).LrAt(epoch) / 2.0
  {
    var s := DefaultStepMinLr(startEpoch);
    StepMinLrNoDecayNearStart(s, startEpoch);
    StepMinLrDecaysEachPeriod(s, epoch);
  }

  /** The worked case: initial rate 1.0 halved every epoch with floor 0.1
      gives 0.1 at epoch 10, not 0.5^10. */
  lemma StepMinLrFloorExample()
    ensures StepMinLr(0, 1.0, 1, 0.5, Some(0.1)).Unclamped(10) == 1.0 / 1024.0
    ensures StepMinLr(0, 1.0, 1, 0.5, Some(0.1)).LrAt(10) == 0.1
  {
    var s := StepMinLr(0, 1.0, 1, 0.5, Some(0.1));
    DivUnique(10, 1, 10, 0);
    assert NatPow(0.5, 10) == 1.0 / 1024.0 by {
      assert NatPow(0.5, 2) == 0.25;
      assert NatPow(0.5, 4) == 0.0625 by { assert NatPow(0.5, 3) == 0.125; }
      assert NatPow(0.5, 6) == 1.0 / 64.0 by { assert NatPow(0.5, 5) == 1.0 / 32.0; }
      assert NatPow(0.5, 8) == 1.0 / 256.0 by { assert NatPow(0.5, 7) == 1.0 / 128.0; }
      assert NatPow(0.5, 9) == 1.0 / 512.0;
    }
  }
}
