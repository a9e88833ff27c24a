/** The unit conversion of `timed_operation`: the divisor that turns elapsed
    seconds into the unit named by `tformat`. The clock and the printing are
    not modelled; the start and end times are parameters. */
module TimedOperation {
  import opened Wrappers

  /** The unit symbols the code gives a divisor for: the docstring announces
      `s`, `m` and `h`, and the `if`/`elif` chain adds `d`. */
  predicate KnownUnit(tformat: string) {
    tformat == "s" || tformat == "m" || tformat == "h" || tformat == "d"
  }

  /** The divisor as the code is written: the test for `'s'` stands apart
      from the `if`/`elif`/`else` chain that follows it, so `'s'` (the default
      unit) falls through that chain to `raise ValueError`. Only minutes,
      hours and days succeed. */
  function TimeDivisorAsWritten(tformat: string): (r: Result<real>)
    ensures r.Ok? <==> KnownUnit(tformat) && tformat != "s"
    ensures r.Ok? ==> r.value >= 60.0
    ensures r.Err? ==> r.message == "Unknown tformat=" + tformat
    ensures tformat == "m" ==> r == Ok(60.0)
    ensures tformat == "h" ==> r == Ok(3600.0)
    ensures tformat == "d" ==> r == Ok(86400.0)
  {
    if tformat == "m" then Ok(60.0)
    else if tformat == "h" then Ok(60.0 * 60.0)
    else if tformat == "d" then Ok(60.0 * 60.0 * 24.0)
    else Err("Unknown tformat=" + tformat)
  }

  /** As written, the default unit is rejected: a `timed_operation` opened
      with its default arguments raises when the enclosed block ends. */
  lemma DefaultUnitRejectedAsWritten()
    ensures TimeDivisorAsWritten("s") == Err("Unknown tformat=s")
    ensures KnownUnit("s")
  {
  }

  /** The divisor as intended: one divisor per known unit symbol, seconds
      counting as 1. */
  function TimeDivisor(tformat: string): (r: Result<real>)
    ensures r.Ok? <==> KnownUnit(tformat)
    ensures r.Ok? ==> r.value >= 1.0
    ensures tformat == "s" ==> r == Ok(1.0)
    ensures tformat != "s" ==> r == TimeDivisorAsWritten(tformat)
  {
    if tformat == "s" then Ok(1.0) else TimeDivisorAsWritten(tformat)
  }

  /** Elapsed seconds expressed with a divisor, or the divisor's error. */
  function InUnit(seconds: real, divisor: Result<real>): (r: Result<real>)
    requires divisor.Ok? ==> divisor.value >= 1.0
    ensures r.Ok? <==> divisor.Ok?
    ensures r.Err? ==> r == divisor
    ensures r.Ok? ==> r.value * divisor.value == seconds
    ensures r.Ok? && seconds >= 0.0 ==> 0.0 <= r.value <= seconds
  {
    match divisor
    case Err(message) => Err(message)
    case Ok(ns) =>
      ShrinkByDivisor(seconds, ns);
      Ok(seconds / ns)
  }

  /** The value printed on exit, `(end - start) / ns`, or the error raised,
      as the code is written: only minutes, hours and days reach the print. */
  function ElapsedInAsWritten(start: real, end: real, tformat: string): (r: Result<real>)
    ensures r.Ok? <==> KnownUnit(tformat) && tformat != "s"
    ensures r.Err? ==> r.message == "Unknown tformat=" + tformat
    ensures r.Ok? ==> r.value * TimeDivisorAsWritten(tformat).value == end - start
  {
    InUnit(end - start, TimeDivisorAsWritten(tformat))
  }

  /** The same with the corrected table: every known unit, seconds included,
      reports the elapsed time divided by its divisor. */
  function ElapsedIn(start: real, end: real, tformat: string): (r: Result<real>)
    ensures r.Ok? <==> KnownUnit(tformat)
    ensures r.Ok? ==> r.value * TimeDivisor(tformat).value == end - start
    ensures r.Ok? && start <= end ==> 0.0 <= r.value <= end - start
    ensures tformat == "s" ==> r == Ok(end - start)
  {
    InUnit(end - start, TimeDivisor(tformat))
  }

  /** A minute is 60 seconds, an hour 60 minutes and a day 24 hours: the
      elapsed time is reported in those units on both tables. */
  lemma ElapsedInUnits(start: real, end: real)
    ensures ElapsedIn(start, end, "s") == Ok(end - start)
    ensures ElapsedIn(start, end, "m") == Ok((end - start) / 60.0)
    ensures ElapsedIn(start, end, "h") == Ok((end - start) / 60.0 / 60.0)
    ensures ElapsedIn(start, end, "d") == Ok((end - start) / 60.0 / 60.0 / 24.0)
  {
  }

  /** The correction changes only the default unit: for every other symbol
      both versions report the same value or raise the same error, and for
      `'s'` the code as written raises where the corrected one reports the
      elapsed seconds. */
  lemma ElapsedInCorrectsOnlySeconds(start: real, end: real, tformat: string)
    ensures tformat != "s" ==> ElapsedIn(start, end, tformat) == ElapsedInAsWritten(start, end, tformat)
    ensures ElapsedInAsWritten(start, end, "s") == Err("Unknown tformat=s")
    ensures ElapsedIn(start, end, "s") == Ok(end - start)
  {
  }

  lemma ShrinkByDivisor(seconds: real, ns: real)
    requires ns >= 1.0
    ensures (seconds / ns) * ns == seconds
    ensures seconds >= 0.0 ==> 0.0 <= seconds / ns <= seconds
  {
    var q := seconds / ns;
    assert q * ns == seconds;
    assert q * (ns - 1.0) == seconds - q;
  }
}
