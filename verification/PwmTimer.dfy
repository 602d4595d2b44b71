/** PWM timer arithmetic: from a requested period and duty in nanoseconds to the reload and compare
    values of a counter, through truncating divisions. The double-precision expressions are taken over
    exact reals. */
module PwmTimer {
  import opened Hdf

  const PER_SEC_NSEC: nat := 1_000_000_000

  /** Input clock of every timer; the table has fourteen entries and thirteen initialisers. */
  const TIM_FREQ: seq<nat> := [
    168_000_000, 84_000_000, 84_000_000, 84_000_000, 84_000_000, 84_000_000, 84_000_000,
    168_000_000, 168_000_000, 168_000_000, 168_000_000, 84_000_000, 84_000_000, 0]

  const PWM_TIM14: nat := 13

  /** Timers 1 and 8 to 11 run at twice the clock of the others, except the last, which has none. */
  lemma TimerClocks(tim: nat)
    requires tim < |TIM_FREQ|
    ensures TIM_FREQ[tim] ==
      if tim == PWM_TIM14 then 0 else if tim + 1 == 1 || 8 <= tim + 1 <= 11 then 168_000_000 else 84_000_000
  {
  }

  datatype Request = Request(duty: nat, period: nat, normalPolarity: bool, enable: bool)

  datatype Counts = Counts(period: nat, duty: nat) | Invalid

  /** Counter clock after the prescaler. */
  function RealHz(timFreq: nat, prescaler: nat): nat
    ensures RealHz(timFreq, prescaler) == timFreq / (prescaler + 1)
  {
    FloorOfQuotient(timFreq, prescaler + 1);
    (timFreq as real / (prescaler + 1) as real).Floor
  }

  function InitPwmFreqAndPeriod(r: Request, timFreq: nat, prescaler: nat): Counts {
    if r.period == 0 then Invalid
    else
      var freq := PER_SEC_NSEC / r.period;
      var realHz := RealHz(timFreq, prescaler);
      if freq == 0 then Invalid
      else
        var period := realHz / freq;
        if period == 0 then Invalid
        else
          FloorOfProduct(r.duty, r.period, period);
          Counts(period, (r.duty as real / r.period as real * period as real).Floor)
  }

  // ---- Arithmetic ----

  lemma FloorIs(x: real, q: int)
    requires q as real <= x < (q + 1) as real
    ensures x.Floor == q
  {
  }

  lemma QuotientBounds(a: nat, b: nat)
    requires b > 0
    ensures a / b * b <= a < (a / b + 1) * b
  {
  }

  lemma FloorOfQuotient(a: nat, b: nat)
    requires b > 0
    ensures (a as real / b as real).Floor == a / b
  {
    var q, x := a / b, a as real / b as real;
    QuotientBounds(a, b);
    assert x * b as real == a as real;
    assert (q * b) as real == q as real * b as real;
    assert ((q + 1) * b) as real == (q + 1) as real * b as real;
    FloorIs(x, q);
  }

  lemma FloorOfProduct(d: nat, p: nat, n: nat)
    requires p > 0
    ensures (d as real / p as real * n as real).Floor == d * n / p
  {
    assert d as real / p as real * n as real == (d * n) as real / p as real;
    FloorOfQuotient(d * n, p);
  }

  lemma MulKeepsOrder(a: int, b: int, c: nat)
    requires a <= b
    ensures a * c <= b * c
  {
  }

  // ---- The period ----

  /** A configuration succeeds exactly when the counter clock is at least the requested frequency. */
  lemma SucceedsIffFastEnough(r: Request, timFreq: nat, prescaler: nat)
    ensures InitPwmFreqAndPeriod(r, timFreq, prescaler).Counts? <==>
      1 <= r.period <= PER_SEC_NSEC && timFreq / (prescaler + 1) >= PER_SEC_NSEC / r.period
  {
  }

  /** `m` ticks at the requested frequency, rounded to whole hertz, take no more than the counter clock. */
  predicate Fits(m: nat, r: Request, realHz: nat)
    requires r.period > 0
  {
    m * (PER_SEC_NSEC / r.period) <= realHz
  }

  /** The counted period is the greatest number of ticks of the requested frequency, rounded to whole hertz,
      that the counter clock holds. */
  lemma PeriodIsGreatest(r: Request, timFreq: nat, prescaler: nat, m: nat)
    requires InitPwmFreqAndPeriod(r, timFreq, prescaler).Counts?
    ensures r.period > 0
    ensures m <= InitPwmFreqAndPeriod(r, timFreq, prescaler).period <==> Fits(m, r, timFreq / (prescaler + 1))
  {
    var freq, realHz := PER_SEC_NSEC / r.period, timFreq / (prescaler + 1);
    var n := realHz / freq;
    assert InitPwmFreqAndPeriod(r, timFreq, prescaler).period == n;
    hide InitPwmFreqAndPeriod;
    QuotientBounds(realHz, freq);
    if m <= n {
      MulKeepsOrder(m, n, freq);
    } else {
      MulKeepsOrder(n + 1, m, freq);
    }
  }

  /** The counted period `n` is the requested one up to the two truncations: at counter clock `realHz`
      it is less than one tick short, and long by no more than the rounding of the frequency. */
  lemma PeriodBounds(r: Request, timFreq: nat, prescaler: nat)
    requires InitPwmFreqAndPeriod(r, timFreq, prescaler).Counts?
    ensures var n := InitPwmFreqAndPeriod(r, timFreq, prescaler).period;
      var realHz := timFreq / (prescaler + 1);
      && n >= 1
      && (n + 1) * PER_SEC_NSEC > realHz * r.period
      && n * (PER_SEC_NSEC - r.period) <= realHz * r.period
  {
    var p, realHz := r.period, timFreq / (prescaler + 1);
    var freq := PER_SEC_NSEC / p;
    var n := realHz / freq;
    QuotientBounds(PER_SEC_NSEC, p);
    QuotientBounds(realHz, freq);
    calc {
      realHz * p;
    <  { MulKeepsOrder(realHz + 1, (n + 1) * freq, p); }
      (n + 1) * freq * p;
    == { assert (n + 1) * freq * p == freq * p * (n + 1); }
      freq * p * (n + 1);
    <= { MulKeepsOrder(freq * p, PER_SEC_NSEC, n + 1); }
      (n + 1) * PER_SEC_NSEC;
    }
    calc {
      n * (PER_SEC_NSEC - p);
    == (PER_SEC_NSEC - p) * n;
    <= { MulKeepsOrder(PER_SEC_NSEC - p, freq * p, n); }
      freq * p * n;
    == { assert freq * p * n == n * freq * p; }
      n * freq * p;
    <= { MulKeepsOrder(n * freq, realHz, p); }
      realHz * p;
    }
  }

  // ---- The duty ----

  lemma MulReflectsOrder(a: int, b: int, c: nat)
    requires a * c < b * c
    ensures a < b
  {
  }

  lemma CompareAgainstPeriod(d: nat, p: nat, n: nat, c: nat)
    requires n > 0 && c * p <= d * n < (c + 1) * p
    ensures c < n <==> d < p
    ensures d == p ==> c == n
  {
    assert d * n == n * d && p * n == n * p;
    if d < p {
      MulKeepsOrder(d + 1, p, n);
      assert (d + 1) * n == d * n + n;
      MulReflectsOrder(c, n, p);
    } else {
      MulKeepsOrder(p, d, n);
      MulReflectsOrder(n, c + 1, p);
    }
    if d == p {
      MulReflectsOrder(c, n + 1, p);
    }
  }

  lemma DutyIsQuotient(r: Request, timFreq: nat, prescaler: nat)
    requires InitPwmFreqAndPeriod(r, timFreq, prescaler).Counts?
    ensures var t := InitPwmFreqAndPeriod(r, timFreq, prescaler);
      r.period > 0 && t.period > 0 && t.duty == r.duty * t.period / r.period
  {
    FloorOfProduct(r.duty, r.period, InitPwmFreqAndPeriod(r, timFreq, prescaler).period);
  }

  /** The compare value is the requested fraction of the period, truncated to a tick; it reaches the
      period exactly when the whole period is requested or more. */
  lemma DutyBounds(r: Request, timFreq: nat, prescaler: nat)
    requires InitPwmFreqAndPeriod(r, timFreq, prescaler).Counts?
    ensures var t := InitPwmFreqAndPeriod(r, timFreq, prescaler);
      && t.duty * r.period <= r.duty * t.period < (t.duty + 1) * r.period
      && (t.duty < t.period <==> r.duty < r.period)
      && (r.duty == r.period ==> t.duty == t.period)
  {
    DutyIsQuotient(r, timFreq, prescaler);
    hide InitPwmFreqAndPeriod;
    var t := InitPwmFreqAndPeriod(r, timFreq, prescaler);
    QuotientBounds(r.duty * t.period, r.period);
    CompareAgainstPeriod(r.duty, r.period, t.period, t.duty);
  }

  /** The same error bound as a statement about fractions. */
  lemma DutyRatioError(r: Request, timFreq: nat, prescaler: nat)
    requires InitPwmFreqAndPeriod(r, timFreq, prescaler).Counts?
    ensures var t := InitPwmFreqAndPeriod(r, timFreq, prescaler);
      var wanted, got := r.duty as real / r.period as real, t.duty as real / t.period as real;
      0.0 <= wanted - got < 1.0 / t.period as real
  {
  }

  lemma DutyIsMonotone(r: Request, more: nat, timFreq: nat, prescaler: nat)
    requires InitPwmFreqAndPeriod(r, timFreq, prescaler).Counts? && r.duty <= more
    ensures var t := InitPwmFreqAndPeriod(r.(duty := more), timFreq, prescaler);
      && t.Counts? && t.period == InitPwmFreqAndPeriod(r, timFreq, prescaler).period
      && InitPwmFreqAndPeriod(r, timFreq, prescaler).duty <= t.duty
  {
    var t := InitPwmFreqAndPeriod(r, timFreq, prescaler);
    var t' := InitPwmFreqAndPeriod(r.(duty := more), timFreq, prescaler);
    DutyBounds(r, timFreq, prescaler);
    DutyBounds(r.(duty := more), timFreq, prescaler);
    MulKeepsOrder(r.duty, more, t.period);
    if t'.duty < t.duty {
      MulKeepsOrder(t'.duty + 1, t.duty, r.period);
      assert false;
    }
  }

  /** The last timer has no clock entry: no request for it ever succeeds. */
  lemma Tim14NeverRuns(r: Request, prescaler: nat)
    ensures InitPwmFreqAndPeriod(r, TIM_FREQ[PWM_TIM14], prescaler) == Invalid
  {
  }

  // ---- The device ----

  class PwmDevice {
    const pwmTim: nat
    const prescaler: nat
    var autoreload: nat
    var compareValue: nat
    var timerPrescaler: nat
    var polarityHigh: bool
    var running: bool

    constructor (pwmTim: nat, prescaler: nat)
      requires pwmTim < |TIM_FREQ|
      ensures this.pwmTim == pwmTim && this.prescaler == prescaler && !running
    {
      this.pwmTim, this.prescaler := pwmTim, prescaler;
      autoreload, compareValue, timerPrescaler, polarityHigh, running := 0, 0, 0, false, false;
    }

    /** A request is refused for a period above one second or a period too short for the timer, and then
        changes nothing; disabling always succeeds. */
    method SetConfig(r: Request) returns (ret: int)
      requires pwmTim < |TIM_FREQ|
      modifies this
      ensures ret == HDF_SUCCESS || ret == HDF_FAILURE
      ensures ret == HDF_SUCCESS <==>
        && r.period <= PER_SEC_NSEC
        && (r.enable ==> r.period > 0 && TIM_FREQ[pwmTim] / (prescaler + 1) >= PER_SEC_NSEC / r.period)
      ensures ret == HDF_SUCCESS && r.enable ==>
        && running && timerPrescaler == prescaler && polarityHigh == r.normalPolarity
        && Counts(autoreload + 1, compareValue) == InitPwmFreqAndPeriod(r, TIM_FREQ[pwmTim], prescaler)
        && Fits(autoreload + 1, r, TIM_FREQ[pwmTim] / (prescaler + 1))
        && !Fits(autoreload + 2, r, TIM_FREQ[pwmTim] / (prescaler + 1))
        && compareValue * r.period <= r.duty * (autoreload + 1) < (compareValue + 1) * r.period
      ensures ret == HDF_FAILURE || !r.enable ==>
        unchanged(`autoreload) && unchanged(`compareValue) && unchanged(`timerPrescaler) && unchanged(`polarityHigh)
      ensures ret == HDF_FAILURE ==> running == old(running)
      ensures ret == HDF_SUCCESS && !r.enable ==> !running
    {
      SucceedsIffFastEnough(r, TIM_FREQ[pwmTim], prescaler);
      if r.period > PER_SEC_NSEC {
        return HDF_FAILURE;
      }
      if r.enable {
        var arg := InitPwmFreqAndPeriod(r, TIM_FREQ[pwmTim], prescaler);
        if arg == Invalid {
          return HDF_FAILURE;
        }
        PeriodIsGreatest(r, TIM_FREQ[pwmTim], prescaler, arg.period);
        PeriodIsGreatest(r, TIM_FREQ[pwmTim], prescaler, arg.period + 1);
        DutyBounds(r, TIM_FREQ[pwmTim], prescaler);
        InitTimPwm(arg, r);
      } else {
        running := false;
      }
      return HDF_SUCCESS;
    }

    method InitTimPwm(arg: Counts, r: Request)
      requires arg.Counts? && arg.period >= 1
      modifies this
      ensures autoreload + 1 == arg.period && compareValue == arg.duty
      ensures timerPrescaler == prescaler && polarityHigh == r.normalPolarity && running
    {
      autoreload := arg.period - 1;
      timerPrescaler := prescaler;
      compareValue := arg.duty;
      polarityHigh := r.normalPolarity;
      running := true;
    }
  }
}
