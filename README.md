# Anomaly-report suppression rule (sphinx-study `post_op`)

This project models the one piece of logic in the sphinx-study repository:
`post_suppress` from `sphinx_study/sphinx_utils/post_op.py`. It decides whether
a monitored entity should emit an anomaly report now (1) or stay suppressed (0).
It reads a `SuppressParam` record with four fields:

- `reportNum`: anomalies since the last report.
- `suppressWinSize`: window length in hours.
- `lastTime`: Unix seconds of the last report.
- `maxEpoch`: the reset divisor.

It also takes a significance bar `delta`, an hourly request rate `cf` and a
target `percent`. The score is

    reportNum / (cf * W * percent + 0.001) + floor((now - lastTime) / (W * 3600)) / maxEpoch - delta

and the call reports when the score is positive.

The model is one module, `PostOp` in `post_op.dfy`. The record
(post_op.py lines 13-36) is the datatype `SuppressParam`, with `Option` for the
three fields the code declares `Optional`. The constant `DefaultParam` holds
the field defaults of lines 33-36. The constants `DEFAULT_DELTA` (0.95),
`DEFAULT_CF` (12) and `DEFAULT_PERCENT` (0.35) are the defaults of line 39 and
line 55; a Dafny function has no default arguments, so callers pass `delta` and
`cf` explicitly, and the worked examples pass these constants.
The operation is a total function `PostSuppress` that returns
`Result<int>`. Each way the Python code raises is an `Err` with its own
`Failure` value, tried in the same order Python meets them:

- `maxEpoch` is `None` (TypeError at the first assert).
- `maxEpoch <= 1` (first assert).
- `suppressWinSize <= 0` (second assert).
- A zero gain denominator (ZeroDivisionError).
- `reportNum` is `None`.
- `lastTime` is `None`.

The code's two hidden inputs become parameters:

- `now` is the current Unix time that `time.time()` would return.
- `envPercent` is the `PERCENT` environment variable. `None` means it is unset,
  and then 0.35 is used.

Arithmetic is over `real`. Python's `math.floor` is Dafny's `.Floor`. The
division by `maxEpoch` is true division, as in the code. With 5 whole windows
elapsed and `maxEpoch = 2`, the time term is 2.5, not 2
(`ExampleFiveWindowsTimeTerm`). `ExampleFractionalTimeTermReports` shows an
input where the fraction decides the outcome. `maxEpoch` is sometimes described
as a cap on the time term, but the code only divides by it. The time term grows
without bound (`EventuallyReports`), and this model follows the code. The
docstring formula (post_op.py line 29) is not the one the code computes. The
model follows the code.

## Model

| member | source | states |
|---|---|---|
| `PostOp.ResolvePercent` | sphinx_study/sphinx_utils/post_op.py:54-55 | an explicit percent is used unchanged; only a missing one is replaced, by `PERCENT`'s value or else 0.35 (partner lemmas: `ExplicitPercentIgnoresEnvironment`, `MissingPercentFromEnvironment`) |
| `PostOp.PostSuppress` | sphinx_study/sphinx_utils/post_op.py:39-66 | a successful call returns exactly 0 or 1, and only when `maxEpoch` is present and above 1 and the window is positive |
| `PostOp.Gain` | sphinx_study/sphinx_utils/post_op.py:60 | the gain has the sign of `cf*W*percent + 0.001`; when `cf`, `W` and `percent` are non-negative it is strictly positive and at most 1000 |
| `PostOp.DenominatorAtLeastEpsilon` | sphinx_study/sphinx_utils/post_op.py:60 | the `+0.001` keeps the gain's denominator at least 0.001 whenever `cf`, `W` and `percent` are non-negative, so the division cannot fail there |
| `PostOp.ElapsedWindows` | sphinx_study/sphinx_utils/post_op.py:63 | the floored window count `k` satisfies `k*W*3600 <= now - lastTime < (k+1)*W*3600`; it is negative exactly when `lastTime` is later than `now` |
| `PostOp.ElapsedWindowsUnique` | sphinx_study/sphinx_utils/post_op.py:63 | any integer that brackets the elapsed time this way is the window count |
| `PostOp.ElapsedWindowsMonotone` | sphinx_study/sphinx_utils/post_op.py:63 | more elapsed time never gives fewer whole windows |
| `PostOp.TimeTerm` | sphinx_study/sphinx_utils/post_op.py:63 | the time term times `maxEpoch` is the window count (true division, not integer division); it is non-negative exactly when `now >= lastTime` |
| `PostOp.TimeTermMonotone` | sphinx_study/sphinx_utils/post_op.py:63 | the time term never decreases as the elapsed time grows |
| `PostOp.TimeTermExceeds` | sphinx_study/sphinx_utils/post_op.py:63 | after `n` whole windows the time term exceeds every `delta` with `delta*maxEpoch < n` |
| `PostOp.SucceedsIffAdmissible` | sphinx_study/sphinx_utils/post_op.py:57-64 | a call yields a decision if and only if all three optional fields are present, `maxEpoch > 1`, `W > 0` and the gain denominator is non-zero |
| `PostOp.FailsWhenMaxEpochTooSmall` | sphinx_study/sphinx_utils/post_op.py:57 | `maxEpoch <= 1` fails at the first assertion for every other input, including a missing count or time |
| `PostOp.FailsWhenWindowNotPositive` | sphinx_study/sphinx_utils/post_op.py:58 | with a valid `maxEpoch`, a window `<= 0` fails at the second assertion before anything is computed |
| `PostOp.FailsWhenFieldMissing` | sphinx_study/sphinx_utils/post_op.py:57-63 | a `None` in `reportNum`, `lastTime` or `maxEpoch` never yields a decision; a `None` `maxEpoch` fails at the first assertion |
| `PostOp.DefaultParamNeedsReportNum` | sphinx_study/sphinx_utils/post_op.py:33-36 | `DefaultParam`, the record built with the field defaults (count unset, 4 h, time 0, divisor 2), fails on the missing count when `cf` and `percent` are non-negative |
| `PostOp.DecisionInClosedForm` | sphinx_study/sphinx_utils/post_op.py:60-66 | for an admissible call, given the integer `n` of whole windows elapsed, the result is 1 exactly when `reportNum/(cf*W*percent+0.001) + n/maxEpoch > delta`, else 0 |
| `PostOp.MonotoneInReportNum` | sphinx_study/sphinx_utils/post_op.py:60-66 | with a positive gain, raising `reportNum` never turns a report into a suppression |
| `PostOp.MonotoneInNow` | sphinx_study/sphinx_utils/post_op.py:62-66 | a later `now` never turns a report into a suppression |
| `PostOp.MonotoneInLastTime` | sphinx_study/sphinx_utils/post_op.py:62-66 | an earlier `lastTime` never turns a report into a suppression |
| `PostOp.ConstantWithinWindow` | sphinx_study/sphinx_utils/post_op.py:63-66 | two times within the same whole window since `lastTime` give the same result, failure included |
| `PostOp.EventuallyReports` | sphinx_study/sphinx_utils/post_op.py:62-66 | nothing caps the time term: with a non-negative count and positive gain, once more than `delta*maxEpoch` whole windows have elapsed the call reports |
| `PostOp.FutureLastTimeSuppresses` | sphinx_study/sphinx_utils/post_op.py:63-66 | a `lastTime` later than `now` is not clamped: with no anomalies and `delta >= 0` the call suppresses |
| `PostOp.ExplicitPercentIgnoresEnvironment` | sphinx_study/sphinx_utils/post_op.py:54-55 | an explicitly supplied percent is used unchanged, whatever `PERCENT` holds |
| `PostOp.MissingPercentFromEnvironment` | sphinx_study/sphinx_utils/post_op.py:54-55 | without an explicit percent the call behaves as if given `PERCENT`'s value, or 0.35 when it is unset |
| `PostOp.ExampleNoAnomaliesSuppressed` | sphinx_study/sphinx_utils/post_op.py:54-66 | defaults (`delta` 0.95, `cf` 12, percent 0.35, W 4, divisor 2), `lastTime = now`, no anomalies: 0 |
| `PostOp.ExampleTwentyAnomaliesReported` | sphinx_study/sphinx_utils/post_op.py:54-66 | same with 20 anomalies: 20/16.801 - 0.95 > 0, so 1 |
| `PostOp.ExampleFiveWindowsTimeTerm` | sphinx_study/sphinx_utils/post_op.py:63 | five whole windows with divisor 2 give a time term of 2.5 |
| `PostOp.ExampleFiveWindowsReported` | sphinx_study/sphinx_utils/post_op.py:54-66 | no anomalies and five whole windows elapsed: reported on time alone |
| `PostOp.ExampleFractionalTimeTermReports` | sphinx_study/sphinx_utils/post_op.py:54-66 | three windows, divisor 2, `delta` 1.2: 1.5 > 1.2 reports, although an integer quotient would not |

## Left out

- Wall clock: `time.time()` (post_op.py line 63) is the parameter `now`.
- Environment: `os.getenv("PERCENT", 0.35)` (line 55) is the parameter `envPercent`. A `PERCENT` value that `float()` cannot parse raises ValueError in Python. This model does not cover that case: it takes the already-parsed number.
- Floating point: everything is exact `real` arithmetic. IEEE-754 rounding can flip a decision whose score is within rounding error of 0. Infinite and NaN inputs are not modelled.
- Pydantic validation and type coercion when a `SuppressParam` is built (lines 9, 13). The record is a plain datatype with `int`/`real` fields.
- PostSuppress: the two checks at lines 57-58 are `assert` statements, which Python drops when run with `-O`. The model keeps them, as in a normal run. Under `-O`, `maxEpoch = 1` or a negative window yields a decision, and `maxEpoch = 0` or a zero window raises ZeroDivisionError at line 63. The error order above holds only with assertions enabled.
- Exception types: Python's AssertionError, TypeError and ZeroDivisionError are not modelled. Each is a distinct `Failure` value instead.
- `cf`: it is modelled as a real number. The code leaves it untyped, and its documented type and default are integers.
- `docs/source/conf.py`: static documentation-builder configuration with no behaviour.
