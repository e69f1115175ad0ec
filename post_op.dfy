/** Model of the anomaly-report suppression rule of sphinx_utils/post_op.py.

    `post_suppress` blends two signals into one score: the anomalies counted
    since the last report, scaled by a gain, and the number of whole
    suppression windows elapsed since that report, divided by `maxEpoch`.
    It subtracts a significance bar `delta` and reports (1) exactly when the
    result is positive, otherwise it stays suppressed (0).

    The wall clock and the PERCENT environment variable are parameters here:
    `now` stands for the current Unix time and `envPercent` for the value of
    PERCENT (None when the variable is unset).
 */
module PostOp {

  datatype Option<T> = None | Some(value: T)

  /** Why a call raises instead of returning 0 or 1, in the order Python meets them. */
  datatype Failure =
    | MissingMaxEpoch      // `None > 1` raises TypeError in the first assert
    | MaxEpochTooSmall     // first assert: maxEpoch must exceed 1
    | WindowNotPositive    // second assert: the window length must be positive
    | ZeroGainDenominator  // 1 / 0 when cf * W * percent is exactly -0.001
    | MissingReportNum     // `None * gain` raises TypeError
    | MissingLastTime      // `now - None` raises TypeError

  datatype Result<T> = Ok(value: T) | Err(failure: Failure)

  /** Default fraction of a window's requests that must be anomalous. */
  const DEFAULT_PERCENT: real := 0.35
  /** Default significance bar `delta` of `post_suppress`. */
  const DEFAULT_DELTA: real := 0.95
  /** Default expected requests per hour `cf` of `post_suppress`. */
  const DEFAULT_CF: real := 12.0
  /** Keeps the gain's denominator away from zero. */
  const GAIN_EPSILON: real := 0.001
  const SECONDS_PER_HOUR: real := 3600.0

  /** The state kept per monitored entity: anomalies since the last report,
      the window length in hours, the Unix time of the last report in seconds
      and the reset divisor. */
  datatype SuppressParam = SuppressParam(
    reportNum: Option<int>,
    suppressWinSize: real,
    lastTime: Option<real>,
    maxEpoch: Option<int>)

  /** A freshly constructed record: no anomaly count yet, 4-hour windows,
      never reported, reset divisor 2. */
  const DefaultParam: SuppressParam := SuppressParam(None, 4.0, Some(0.0), Some(2))

  /** The percent actually used: the explicit argument when one is given,
      otherwise the environment's value, otherwise 0.35. */
  function ResolvePercent(percent: Option<real>, envPercent: Option<real>): (p: real)
    ensures percent.Some? ==> p == percent.value
    ensures percent.None? && envPercent.Some? ==> p == envPercent.value
    ensures percent.None? && envPercent.None? ==> p == DEFAULT_PERCENT
  {
    match percent
    case Some(v) => v
    case None => match envPercent { case Some(e) => e case None => DEFAULT_PERCENT }
  }

  /** Denominator of the gain: expected anomalous requests per window plus epsilon. */
  function GainDenominator(cf: real, winSize: real, percent: real): real
  {
    cf * winSize * percent + GAIN_EPSILON
  }

  /** The score gain per anomaly.  It has the sign of its denominator and, for
      non-negative rate, window and percent, lies in (0, 1000]. */
  function Gain(cf: real, winSize: real, percent: real): (g: real)
    requires GainDenominator(cf, winSize, percent) != 0.0
    ensures (g > 0.0) == (GainDenominator(cf, winSize, percent) > 0.0)
    ensures cf >= 0.0 && winSize >= 0.0 && percent >= 0.0 ==> 0.0 < g <= 1000.0
  {
    ReciprocalFacts(GainDenominator(cf, winSize, percent));
    if cf >= 0.0 && winSize >= 0.0 && percent >= 0.0 then
      DenominatorAtLeastEpsilon(cf, winSize, percent);
      ReciprocalAtMost(GainDenominator(cf, winSize, percent), GAIN_EPSILON);
      1.0 / GainDenominator(cf, winSize, percent)
    else 1.0 / GainDenominator(cf, winSize, percent)
  }

  // Monotonicity of multiplication by a positive factor, which the solver
  // does not find on its own once the factor is a variable.

  lemma MulLe(a: real, b: real, c: real)
    requires a <= b && c >= 0.0
    ensures a * c <= b * c
  {
    assert b * c - a * c == (b - a) * c;
  }

  lemma MulLt(a: real, b: real, c: real)
    requires a < b && c > 0.0
    ensures a * c < b * c
  {
    assert b * c - a * c == (b - a) * c;
  }

  lemma MulLtCancel(a: real, b: real, c: real)
    requires c > 0.0 && a * c < b * c
    ensures a < b
  {
    if b <= a {
      MulLe(b, a, c);
    }
  }

  /** If `x <= y`, `a*c <= x` and `y < b*c` with `c > 0`, then `a < b`. */
  lemma BracketOrder(a: real, b: real, c: real, x: real, y: real)
    requires c > 0.0 && a * c <= x && x <= y && y < b * c
    ensures a < b
  {
    MulLtCancel(a, b, c);
  }

  lemma MulLeCancel(a: real, b: real, c: real)
    requires c > 0.0 && a * c <= b * c
    ensures a <= b
  {
    if b < a {
      MulLt(b, a, c);
    }
  }

  lemma ReciprocalFacts(d: real)
    requires d != 0.0
    ensures (1.0 / d > 0.0) == (d > 0.0)
  {
    var g := 1.0 / d;
    assert g * d == 1.0;
    if d > 0.0 && g <= 0.0 {
      MulLe(g, 0.0, d);
    }
    if d < 0.0 && g > 0.0 {
      MulLt(d, 0.0, g);
    }
  }

  lemma ReciprocalAtMost(d: real, lo: real)
    requires 0.0 < lo <= d
    ensures 1.0 / d <= 1.0 / lo
  {
    assert (1.0 / d) * d == 1.0;
    assert (1.0 / lo) * lo == 1.0;
    assert (1.0 / d) * lo <= (1.0 / d) * d;
  }

  /** The `+ 0.001` keeps the denominator at least 0.001 for non-negative factors. */
  lemma DenominatorAtLeastEpsilon(cf: real, winSize: real, percent: real)
    requires cf >= 0.0 && winSize >= 0.0 && percent >= 0.0
    ensures GainDenominator(cf, winSize, percent) >= GAIN_EPSILON
  {
    MulLe(0.0, cf, winSize);
    MulLe(0.0, cf * winSize, percent);
  }

  /** Length of one suppression window in seconds. */
  function WindowSeconds(winSize: real): real
  {
    winSize * SECONDS_PER_HOUR
  }

  /** The number of whole windows between `lastTime` and `now`, rounded toward
      minus infinity: it is the unique `k` with `k` windows at most the elapsed
      time and `k + 1` windows more than it, and it is negative when the last
      report lies in the future. */
  function ElapsedWindows(now: real, lastTime: real, winSize: real): (k: int)
    requires winSize > 0.0
    ensures k as real * WindowSeconds(winSize) <= now - lastTime
    ensures now - lastTime < (k + 1) as real * WindowSeconds(winSize)
    ensures (k >= 0) == (now >= lastTime)
  {
    FloorBounds(now - lastTime, WindowSeconds(winSize));
    ((now - lastTime) / WindowSeconds(winSize)).Floor
  }

  lemma FloorBounds(x: real, len: real)
    requires len > 0.0
    ensures (x / len).Floor as real * len <= x < ((x / len).Floor + 1) as real * len
    ensures ((x / len).Floor >= 0) == (x >= 0.0)
  {
    var q := x / len;
    var f := q.Floor as real;
    assert q * len == x;
    MulLe(f, q, len);
    var g := (q.Floor + 1) as real;
    MulLt(q, g, len);
    assert x < g * len;
    if f < 0.0 {
      MulLe(f, -1.0, len);
    } else {
      MulLe(0.0, f, len);
    }
  }

  /** Windows are unique: whichever integer `n` brackets the elapsed time is
      the elapsed window count. */
  lemma ElapsedWindowsUnique(now: real, lastTime: real, winSize: real, n: int)
    requires winSize > 0.0
    requires n as real * WindowSeconds(winSize) <= now - lastTime < (n + 1) as real * WindowSeconds(winSize)
    ensures ElapsedWindows(now, lastTime, winSize) == n
  {
    var k := ElapsedWindows(now, lastTime, winSize);
    BracketOrder(k as real, (n + 1) as real, WindowSeconds(winSize), now - lastTime, now - lastTime);
    BracketOrder(n as real, (k + 1) as real, WindowSeconds(winSize), now - lastTime, now - lastTime);
  }

  /** A later `now` never counts fewer windows. */
  lemma ElapsedWindowsMonotone(now: real, now': real, lastTime: real, lastTime': real, winSize: real)
    requires winSize > 0.0
    requires now - lastTime <= now' - lastTime'
    ensures ElapsedWindows(now, lastTime, winSize) <= ElapsedWindows(now', lastTime', winSize)
  {
    var k := ElapsedWindows(now, lastTime, winSize);
    var k' := ElapsedWindows(now', lastTime', winSize);
    BracketOrder(k as real, (k' + 1) as real, WindowSeconds(winSize), now - lastTime, now' - lastTime');
  }

  /** The time term: elapsed whole windows divided by `maxEpoch` with true
      (real) division, so it need not be a whole number, and nothing caps it. */
  function TimeTerm(now: real, lastTime: real, winSize: real, maxEpoch: int): (t: real)
    requires winSize > 0.0 && maxEpoch > 1
    ensures t * maxEpoch as real == ElapsedWindows(now, lastTime, winSize) as real
    ensures (t >= 0.0) == (now >= lastTime)
  {
    QuotientSign(ElapsedWindows(now, lastTime, winSize), maxEpoch);
    ElapsedWindows(now, lastTime, winSize) as real / maxEpoch as real
  }

  lemma QuotientSign(k: int, m: int)
    requires m > 1
    ensures (k as real / m as real) * m as real == k as real
    ensures (k as real / m as real >= 0.0) == (k >= 0)
  {
    var t := k as real / m as real;
    assert t * m as real == k as real;
    if t < 0.0 {
      MulLt(t, 0.0, m as real);
    } else {
      MulLe(0.0, t, m as real);
    }
  }

  /** `post_suppress`: fail as Python would, otherwise 1 to report and 0 to
      stay suppressed. */
  function PostSuppress(suppress: SuppressParam, delta: real, cf: real, percent: Option<real>,
                        envPercent: Option<real>, now: real): (r: Result<int>)
    ensures r.Ok? ==> r.value == 0 || r.value == 1
    ensures r.Ok? ==> suppress.maxEpoch.Some? && suppress.maxEpoch.value > 1 && suppress.suppressWinSize > 0.0
  {
    var p := ResolvePercent(percent, envPercent);
    if suppress.maxEpoch.None? then Err(MissingMaxEpoch)
    else if suppress.maxEpoch.value <= 1 then Err(MaxEpochTooSmall)
    else if suppress.suppressWinSize <= 0.0 then Err(WindowNotPositive)
    else if GainDenominator(cf, suppress.suppressWinSize, p) == 0.0 then Err(ZeroGainDenominator)
    else
      var gain := Gain(cf, suppress.suppressWinSize, p);
      if suppress.reportNum.None? then Err(MissingReportNum)
      else if suppress.lastTime.None? then Err(MissingLastTime)
      else
        var score := suppress.reportNum.value as real * gain
          + TimeTerm(now, suppress.lastTime.value, suppress.suppressWinSize, suppress.maxEpoch.value)
          - delta;
        Ok(if score > 0.0 then 1 else 0)
  }

  /** Every precondition the source relies on, stated independently of the
      order in which it checks them. */
  predicate Admissible(suppress: SuppressParam, cf: real, p: real)
  {
    && suppress.reportNum.Some?
    && suppress.lastTime.Some?
    && suppress.maxEpoch.Some?
    && suppress.maxEpoch.value > 1
    && suppress.suppressWinSize > 0.0
    && GainDenominator(cf, suppress.suppressWinSize, p) != 0.0
  }

  /** A call returns a decision exactly when the record and the arguments are admissible. */
  lemma SucceedsIffAdmissible(suppress: SuppressParam, delta: real, cf: real, percent: Option<real>,
                              envPercent: Option<real>, now: real)
    ensures PostSuppress(suppress, delta, cf, percent, envPercent, now).Ok?
        <==> Admissible(suppress, cf, ResolvePercent(percent, envPercent))
  {
  }

  /** `maxEpoch <= 1` fails at the first assertion, whatever the other inputs are. */
  lemma FailsWhenMaxEpochTooSmall(suppress: SuppressParam, delta: real, cf: real, percent: Option<real>,
                                  envPercent: Option<real>, now: real)
    requires suppress.maxEpoch.Some? && suppress.maxEpoch.value <= 1
    ensures PostSuppress(suppress, delta, cf, percent, envPercent, now) == Err(MaxEpochTooSmall)
  {
  }

  /** A non-positive window fails at the second assertion once `maxEpoch` has passed the first. */
  lemma FailsWhenWindowNotPositive(suppress: SuppressParam, delta: real, cf: real, percent: Option<real>,
                                   envPercent: Option<real>, now: real)
    requires suppress.maxEpoch.Some? && suppress.maxEpoch.value > 1
    requires suppress.suppressWinSize <= 0.0
    ensures PostSuppress(suppress, delta, cf, percent, envPercent, now) == Err(WindowNotPositive)
  {
  }

  /** A record with a missing field never yields a decision. */
  lemma FailsWhenFieldMissing(suppress: SuppressParam, delta: real, cf: real, percent: Option<real>,
                              envPercent: Option<real>, now: real)
    requires suppress.reportNum.None? || suppress.lastTime.None? || suppress.maxEpoch.None?
    ensures PostSuppress(suppress, delta, cf, percent, envPercent, now).Err?
    ensures suppress.maxEpoch.None? ==> PostSuppress(suppress, delta, cf, percent, envPercent, now) == Err(MissingMaxEpoch)
  {
  }

  /** A freshly constructed record cannot be evaluated: its anomaly count is unset. */
  lemma DefaultParamNeedsReportNum(delta: real, cf: real, percent: Option<real>,
                                   envPercent: Option<real>, now: real)
    requires cf >= 0.0 && ResolvePercent(percent, envPercent) >= 0.0
    ensures PostSuppress(DefaultParam, delta, cf, percent, envPercent, now) == Err(MissingReportNum)
  {
    DenominatorAtLeastEpsilon(cf, 4.0, ResolvePercent(percent, envPercent));
  }

  /** The decision in closed form: given the number `n` of whole windows
      elapsed (any integer that brackets the elapsed time), the call reports
      exactly when `reportNum / (cf*W*percent + GAIN_EPSILON) + n / maxEpoch` exceeds `delta`. */
  lemma DecisionInClosedForm(suppress: SuppressParam, delta: real, cf: real, percent: Option<real>,
                             envPercent: Option<real>, now: real, n: int)
    requires Admissible(suppress, cf, ResolvePercent(percent, envPercent))
    requires n as real * WindowSeconds(suppress.suppressWinSize) <= now - suppress.lastTime.value
    requires now - suppress.lastTime.value < (n + 1) as real * WindowSeconds(suppress.suppressWinSize)
    ensures PostSuppress(suppress, delta, cf, percent, envPercent, now)
         == Ok(if suppress.reportNum.value as real / (cf * suppress.suppressWinSize * ResolvePercent(percent, envPercent) + GAIN_EPSILON)
                  + n as real / suppress.maxEpoch.value as real > delta
               then 1 else 0)
  {
    var w := suppress.suppressWinSize;
    var p := ResolvePercent(percent, envPercent);
    var d := cf * w * p + GAIN_EPSILON;
    ElapsedWindowsUnique(now, suppress.lastTime.value, w, n);
    var k := suppress.reportNum.value as real;
    assert k * (1.0 / d) == k / d;
  }

  /** With a positive gain, more anomalies never turn a report into a suppression. */
  lemma MonotoneInReportNum(suppress: SuppressParam, delta: real, cf: real, percent: Option<real>,
                            envPercent: Option<real>, now: real, more: int)
    requires Admissible(suppress, cf, ResolvePercent(percent, envPercent))
    requires GainDenominator(cf, suppress.suppressWinSize, ResolvePercent(percent, envPercent)) > 0.0
    requires suppress.reportNum.value <= more
    requires PostSuppress(suppress, delta, cf, percent, envPercent, now) == Ok(1)
    ensures PostSuppress(suppress.(reportNum := Some(more)), delta, cf, percent, envPercent, now) == Ok(1)
  {
    var g := Gain(cf, suppress.suppressWinSize, ResolvePercent(percent, envPercent));
    assert suppress.reportNum.value as real * g <= more as real * g;
  }

  /** Time only raises the score: a later `now` never turns a report into a suppression. */
  lemma MonotoneInNow(suppress: SuppressParam, delta: real, cf: real, percent: Option<real>,
                      envPercent: Option<real>, now: real, later: real)
    requires Admissible(suppress, cf, ResolvePercent(percent, envPercent))
    requires now <= later
    requires PostSuppress(suppress, delta, cf, percent, envPercent, now) == Ok(1)
    ensures PostSuppress(suppress, delta, cf, percent, envPercent, later) == Ok(1)
  {
    var last := suppress.lastTime.value;
    var w := suppress.suppressWinSize;
    var m := suppress.maxEpoch.value;
    ElapsedWindowsMonotone(now, later, last, last, w);
    TimeTermMonotone(now, last, later, last, w, m);
  }

  /** An earlier last report never turns a report into a suppression. */
  lemma MonotoneInLastTime(suppress: SuppressParam, delta: real, cf: real, percent: Option<real>,
                           envPercent: Option<real>, now: real, earlier: real)
    requires Admissible(suppress, cf, ResolvePercent(percent, envPercent))
    requires earlier <= suppress.lastTime.value
    requires PostSuppress(suppress, delta, cf, percent, envPercent, now) == Ok(1)
    ensures PostSuppress(suppress.(lastTime := Some(earlier)), delta, cf, percent, envPercent, now) == Ok(1)
  {
    TimeTermMonotone(now, suppress.lastTime.value, now, earlier, suppress.suppressWinSize, suppress.maxEpoch.value);
  }

  lemma TimeTermMonotone(now: real, lastTime: real, now': real, lastTime': real, winSize: real, maxEpoch: int)
    requires winSize > 0.0 && maxEpoch > 1
    requires now - lastTime <= now' - lastTime'
    ensures TimeTerm(now, lastTime, winSize, maxEpoch) <= TimeTerm(now', lastTime', winSize, maxEpoch)
  {
    ElapsedWindowsMonotone(now, now', lastTime, lastTime', winSize);
    QuotientMonotone(ElapsedWindows(now, lastTime, winSize), ElapsedWindows(now', lastTime', winSize), maxEpoch);
  }

  lemma QuotientMonotone(k: int, k': int, m: int)
    requires k <= k' && m > 1
    ensures k as real / m as real <= k' as real / m as real
  {
    QuotientSign(k, m);
    QuotientSign(k', m);
    MulLeCancel(k as real / m as real, k' as real / m as real, m as real);
  }

  lemma QuotientAbove(delta: real, k: int, m: int)
    requires m > 1 && delta * m as real < k as real
    ensures delta < k as real / m as real
  {
    QuotientSign(k, m);
    MulLtCancel(delta, k as real / m as real, m as real);
  }

  /** The decision changes only at whole-window boundaries: any two times in
      the same window `[lastTime + n*W*3600, lastTime + (n+1)*W*3600)` give
      the same result. */
  lemma ConstantWithinWindow(suppress: SuppressParam, delta: real, cf: real, percent: Option<real>,
                             envPercent: Option<real>, now: real, now': real, n: int)
    requires suppress.lastTime.Some? && suppress.suppressWinSize > 0.0
    requires n as real * WindowSeconds(suppress.suppressWinSize) <= now - suppress.lastTime.value
    requires now - suppress.lastTime.value < (n + 1) as real * WindowSeconds(suppress.suppressWinSize)
    requires n as real * WindowSeconds(suppress.suppressWinSize) <= now' - suppress.lastTime.value
    requires now' - suppress.lastTime.value < (n + 1) as real * WindowSeconds(suppress.suppressWinSize)
    ensures PostSuppress(suppress, delta, cf, percent, envPercent, now)
         == PostSuppress(suppress, delta, cf, percent, envPercent, now')
  {
    ElapsedWindowsUnique(now, suppress.lastTime.value, suppress.suppressWinSize, n);
    ElapsedWindowsUnique(now', suppress.lastTime.value, suppress.suppressWinSize, n);
  }

  /** Nothing caps the time term: with a non-negative anomaly count and a
      positive gain, once more than `delta * maxEpoch` whole windows have
      elapsed the call reports. */
  lemma EventuallyReports(suppress: SuppressParam, delta: real, cf: real, percent: Option<real>,
                          envPercent: Option<real>, now: real, n: nat)
    requires Admissible(suppress, cf, ResolvePercent(percent, envPercent))
    requires GainDenominator(cf, suppress.suppressWinSize, ResolvePercent(percent, envPercent)) > 0.0
    requires suppress.reportNum.value >= 0
    requires n as real > delta * suppress.maxEpoch.value as real
    requires now - suppress.lastTime.value >= n as real * WindowSeconds(suppress.suppressWinSize)
    ensures PostSuppress(suppress, delta, cf, percent, envPercent, now) == Ok(1)
  {
    var w := suppress.suppressWinSize;
    TimeTermExceeds(now, suppress.lastTime.value, w, suppress.maxEpoch.value, n, delta);
    var g := Gain(cf, w, ResolvePercent(percent, envPercent));
    MulLe(0.0, suppress.reportNum.value as real, g);
  }

  /** After `n` whole windows the time term exceeds any `delta` below `n / maxEpoch`. */
  lemma TimeTermExceeds(now: real, lastTime: real, winSize: real, maxEpoch: int, n: int, delta: real)
    requires winSize > 0.0 && maxEpoch > 1
    requires n as real > delta * maxEpoch as real
    requires now - lastTime >= n as real * WindowSeconds(winSize)
    ensures TimeTerm(now, lastTime, winSize, maxEpoch) > delta
  {
    var k := ElapsedWindows(now, lastTime, winSize);
    BracketOrder(n as real, (k + 1) as real, WindowSeconds(winSize), now - lastTime, now - lastTime);
    assert n <= k;
    QuotientAbove(delta, k, maxEpoch);
  }

  /** A last report in the future counts negative windows and lowers the score:
      a zero anomaly count with a non-negative `delta` is then suppressed. */
  lemma FutureLastTimeSuppresses(suppress: SuppressParam, delta: real, cf: real, percent: Option<real>,
                                 envPercent: Option<real>, now: real)
    requires Admissible(suppress, cf, ResolvePercent(percent, envPercent))
    requires suppress.reportNum.value == 0 && delta >= 0.0
    requires now < suppress.lastTime.value
    ensures PostSuppress(suppress, delta, cf, percent, envPercent, now) == Ok(0)
  {
  }

  /** An explicit percent is used unchanged, whatever the environment holds. */
  lemma ExplicitPercentIgnoresEnvironment(suppress: SuppressParam, delta: real, cf: real, p: real,
                                          env1: Option<real>, env2: Option<real>, now: real)
    ensures PostSuppress(suppress, delta, cf, Some(p), env1, now)
         == PostSuppress(suppress, delta, cf, Some(p), env2, now)
  {
  }

  /** Without an explicit percent the environment's value is used, and 0.35 when it is unset. */
  lemma MissingPercentFromEnvironment(suppress: SuppressParam, delta: real, cf: real,
                                      envPercent: Option<real>, now: real)
    ensures PostSuppress(suppress, delta, cf, None, envPercent, now)
         == PostSuppress(suppress, delta, cf, Some(if envPercent.Some? then envPercent.value else DEFAULT_PERCENT), None, now)
  {
  }

  /** The record used by the worked examples: `reportNum` anomalies, 4-hour
      windows, reset divisor 2, last report at `lastTime`. */
  function ExampleParam(reportNum: int, lastTime: real): SuppressParam
  {
    SuppressParam(Some(reportNum), 4.0, Some(lastTime), Some(2))
  }

  /** Default delta, cf and percent (0.95, 12, 0.35), last report just now, no anomalies: suppressed. */
  lemma ExampleNoAnomaliesSuppressed(now: real)
    ensures PostSuppress(ExampleParam(0, now), DEFAULT_DELTA, DEFAULT_CF, None, None, now) == Ok(0)
  {
    ElapsedWindowsUnique(now, now, 4.0, 0);
  }

  /** Same, with 20 anomalies: 20 / 16.801 - 0.95 > 0, so reported. */
  lemma ExampleTwentyAnomaliesReported(now: real)
    ensures PostSuppress(ExampleParam(20, now), DEFAULT_DELTA, DEFAULT_CF, None, None, now) == Ok(1)
  {
    ElapsedWindowsUnique(now, now, 4.0, 0);
    assert 20.0 / 16.801 > 0.95;
  }

  /** Five whole windows elapsed with `maxEpoch` 2 give a time term of 2.5, not 2. */
  lemma ExampleFiveWindowsTimeTerm(now: real)
    ensures TimeTerm(now, now - 5.0 * 4.0 * 3600.0, 4.0, 2) == 2.5
  {
    ElapsedWindowsUnique(now, now - 5.0 * 4.0 * 3600.0, 4.0, 5);
  }

  /** The fractional time term decides: three windows, no anomalies and
      delta 1.2 report, since 3/2 = 1.5 > 1.2 (a whole-number quotient, 1,
      would not). */
  lemma ExampleFractionalTimeTermReports(now: real)
    ensures PostSuppress(ExampleParam(0, now - 3.0 * 4.0 * 3600.0), 1.2, DEFAULT_CF, None, None, now) == Ok(1)
  {
    ElapsedWindowsUnique(now, now - 3.0 * 4.0 * 3600.0, 4.0, 3);
  }

  /** No anomalies, five whole windows since the last report: reported on time alone. */
  lemma ExampleFiveWindowsReported(now: real)
    ensures PostSuppress(ExampleParam(0, now - 5.0 * 4.0 * 3600.0), DEFAULT_DELTA, DEFAULT_CF, None, None, now) == Ok(1)
  {
    ExampleFiveWindowsTimeTerm(now);
  }
}
