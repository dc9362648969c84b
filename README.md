# quotaaisp: the quota analysis, modelled in Dafny

quotaaisp reads the broadband quota of an account from the provider's status
API. `parse` turns the attributes of each `<broadband>` element into a
dictionary holding `monthly` (the allowance in bytes), `left` (what is left of
it), `time` (when it was measured) and `expiry` (when the billing period
ends). `analyse` then adds two entries to that same dictionary, in place:

- `percent_remaining`: `left * 100 / monthly`, with Python 2 integer division.
  That division rounds toward negative infinity.
- `percent_time`: how much of the billing period has elapsed. The period
  starts at `last_month`, which is the expiry moved back one calendar month.
  The value is `int((time - last_month) * 100 / (expiry - last_month))`,
  which truncates toward zero.

Before computing anything, `analyse` asserts the Python types of the four
entries.

The project has three files:

- `division.dfy` (module `PyDivision`) defines the two roundings. Each one is
  proved to be the only integer that satisfies its bracket, and each is proved
  non-decreasing in the numerator for a positive divisor.
- `quota.dfy` (module `Quota`) holds the model itself:
  - the dictionary is a `map<string, Value>`. A `Value` is a Python 2 `int`,
    a `long` or a `float` timestamp.
  - `Parse` models `parse`.
  - `FirstFailure` runs the type assertions in source order; `FailureOf`
    says that a missing key raises `KeyError` before any `AssertionError`.
  - `PercentRemaining` and `PercentTime` are the two computations.
  - `Analysis` states what `analyse` does to the dictionary and how the call
    ends: it returns, or it raises `KeyError`, `AssertionError` or
    `ZeroDivisionError`.
  - the class `QuotaData` holds the dictionary, and its method `Analyse`
    updates it step by step as the source does. Its contract ties it to
    `Analysis`.
- `quota_properties.dfy` (module `QuotaProperties`) holds the promised
  properties:
  - the range of both percentages and their values at the endpoints;
  - monotonicity of both percentages, for a positive allowance and for
    `last_month < expiry`;
  - when `analyse` returns, when it raises, and what it has stored then;
  - that running it twice changes nothing more;
  - the unit test's two vectors.

  That `analyse` touches only the two derived keys, and that a failed
  assertion raises its error with nothing written, are contracts of
  `Analysis` itself.

Timestamps are whole seconds (`int`). Three things from outside the analysis
are parameters:

- `parseTime`, the local-time `strptime`/`mktime` conversion;
- `monthBefore`, which moves the expiry back one calendar month
  (`monthdelta` plus a local-time round trip);
- the two counters, which come in already converted by `int()`.

Python 2's `int` has the width of `sys.maxint` of a 64-bit CPython (2^63 − 1).
Larger values parse to `long`, and `analyse`'s `isinstance(..., int)`
assertion rejects a `long` (`ParsedLongCounterRejected`). On a build whose
`sys.maxint` is 2^31 − 1, the unit test's allowance of 200000000000 would
already be a `long` there.

Behaviour of the code worth noting:

- `percent_time` truncates toward zero. This differs from a floor only for
  an observation before `last_month`.
- A zero allowance raises `ZeroDivisionError`.
- A negative allowance is accepted, and the division floors.
- The stored percentages are Python 2 integers of either type:
  `percent_remaining` is a `long` whenever `left*100` falls outside
  [−2^63, 2^63 − 1] (|left| > 92233720368547758), even when the quotient is
  small; `percent_time` is a `long` only when the truncated value itself is.

## Model

| member | source | states |
|---|---|---|
| PyDivision.FloorDiv | quotaaisp.py:34 | Python 2 int division: for d > 0, d·q ≤ n < d·q + d; for d < 0 the mirrored bracket (rounds toward −∞) |
| PyDivision.TruncDiv | quotaaisp.py:38 | `int()` of the exact quotient: \|q\|·\|d\| ≤ \|n\| < (\|q\|+1)·\|d\|, with q's sign that of n/d (rounds toward 0) |
| PyDivision.FloorDivUnique | quotaaisp.py:34 | any q satisfying the floor bracket equals FloorDiv(n, d), so the bracket fully specifies it |
| PyDivision.TruncDivUnique | quotaaisp.py:38 | any q satisfying the truncation bracket and sign rule equals TruncDiv(n, d) |
| PyDivision.FloorDivMonotone | quotaaisp.py:34 | for d > 0, n1 ≤ n2 implies FloorDiv(n1, d) ≤ FloorDiv(n2, d) |
| PyDivision.TruncDivMonotone | quotaaisp.py:38 | for d > 0, n1 ≤ n2 implies TruncDiv(n1, d) ≤ TruncDiv(n2, d), across the sign change |
| PyDivision.TruncAgreesWithFloor | quotaaisp.py:38 | on n ≥ 0, d > 0 the truncating and flooring divisions agree |
| Quota.PyInt | quotaaisp.py:20-21 | `int()` keeps the number and yields an `int` exactly when it lies in [−2^63, 2^63 − 1], else a `long` (also used for line 38's `int()`, within the 2^53 range where the float quotient is exact) |
| Quota.Parse | quotaaisp.py:14-25 | the dictionary has exactly the keys monthly, left, time, expiry; counters hold the attribute values, time and expiry are the parsed instants of quota-time and quota-expiry (not swapped) |
| Quota.FirstFailure | quotaaisp.py:29-32 | no failure iff every assertion passes; otherwise the error is that of the first failing assertion, all earlier ones having passed, and is a KeyError when its key is missing, an AssertionError otherwise (FailureOf) |
| Quota.ChecksPassIffWellTyped | quotaaisp.py:29-32 | the four assertions pass exactly when left and monthly are ints and expiry and time are floats |
| Quota.PercentRemaining | quotaaisp.py:34 | ZeroDivisionError iff monthly == 0; otherwise the floor of left·100/monthly, as a bracket |
| Quota.PercentTime | quotaaisp.py:38 | ZeroDivisionError iff expiry == last_month; otherwise (time − last_month)·100/(expiry − last_month) truncated toward zero, as a bracket and sign |
| Quota.PyQuotient | quotaaisp.py:34 | `left*100 / monthly` keeps the quotient and is an `int` exactly when the product `left*100` fits in [−2^63, 2^63 − 1], a `long` otherwise |
| Quota.Analysis | quotaaisp.py:28-38 | keys other than percent_remaining and percent_time keep their values and no other key appears; the first failing assertion raises its KeyError or AssertionError with the dictionary unchanged; any failure before line 38 leaves the dictionary unchanged; on return both derived entries are integers |
| Quota.QuotaData.Analyse | quotaaisp.py:28-38 | the in-place update leaves exactly the dictionary and outcome given by Analysis, and every other key untouched |
| QuotaProperties.PercentRemainingWithinQuota | quotaaisp.py:34 | 0 ≤ left ≤ monthly, monthly > 0 gives 0 ≤ percent_remaining ≤ 100 |
| QuotaProperties.PercentRemainingEndpoints | quotaaisp.py:34 | left == monthly gives 100 and left == 0 gives 0 (any nonzero monthly) |
| QuotaProperties.PercentRemainingMonotone | quotaaisp.py:34 | for monthly > 0, percent_remaining is non-decreasing in left |
| QuotaProperties.PercentRemainingOutsideQuota | quotaaisp.py:34 | for monthly > 0, an overdrawn allowance (left < 0) reads negative, a credit (left ≥ monthly) reads at least 100 |
| QuotaProperties.PercentRemainingTestVector | quotaaisp.py:56-62 | monthly 200000000000, left 156575605264 give 78 |
| QuotaProperties.PercentTimeEndpoints | quotaaisp.py:38 | time == last_month gives 0, time == expiry gives 100 |
| QuotaProperties.PercentTimeWithinPeriod | quotaaisp.py:38 | last_month ≤ time < expiry gives 0 ≤ percent_time ≤ 99 |
| QuotaProperties.PercentTimeMonotone | quotaaisp.py:38 | over a non-empty period, percent_time is non-decreasing in time |
| QuotaProperties.PercentTimeShift | quotaaisp.py:38 | shifting all three instants by one offset leaves percent_time unchanged |
| QuotaProperties.PercentTimeTestVector | quotaaisp.py:58-63 | 1098000 s into a 2678400 s period gives 40 |
| QuotaProperties.AnalysisReturns | quotaaisp.py:28-38 | analyse returns iff the assertions hold, monthly ≠ 0 and expiry ≠ last_month; it then adds exactly the two percentages, percent_remaining tagged by the width of `left*100` and percent_time by its own width |
| QuotaProperties.AnalysisZeroAllowance | quotaaisp.py:34 | monthly == 0 raises ZeroDivisionError with the dictionary unchanged |
| QuotaProperties.AnalysisEmptyPeriod | quotaaisp.py:34-38 | expiry == last_month raises ZeroDivisionError after percent_remaining has been stored |
| QuotaProperties.AnalysisLargeAllowanceStoresLong | quotaaisp.py:34 | with left = monthly = 10^17 (both ints) analyse stores percent_remaining as the `long` 100 |
| QuotaProperties.AnalysisIdempotent | quotaaisp.py:28-38 | analysing an analysed dictionary again gives the same dictionary and outcome |
| QuotaProperties.ParsedIsWellTyped | quotaaisp.py:19-32 | a parsed dictionary passes analyse's assertions iff both counters fit in a Python 2 int |
| QuotaProperties.ParsedLongCounterRejected | quotaaisp.py:20-30 | a counter beyond 64 bits makes analyse raise AssertionError at the first check of a long counter, dictionary unchanged |
| QuotaProperties.UnitTest | quotaaisp.py:55-63 | for the test element, given the local-time offsets of its instants, analyse returns and stores 78 and 40 |

## Left out

- HTTP fetch with embedded credentials, `urllib.urlopen`, `ET.parse`, `ET.dump` and the loop over `<broadband>` elements (quotaaisp.py:3-4, 42-49): network and XML-library I/O.
- `parseTime` (quotaaisp.py:9-11): `strptime`/`mktime` depend on the local time zone and DST, so the conversion is a parameter `string -> Seconds`. Its errors on malformed strings are not modelled.
- The calendar step on line 36 (`fromtimestamp`, `monthdelta.MonthDelta(1)`, `mktime`): this is external calendar-library behaviour, so `last_month` is `monthBefore(expiry)` for a caller-supplied function. Its possible exceptions are not modelled.
- Attribute lookup and `int()` string parsing in `parse` (quotaaisp.py:20-23): the counters come in as integers, and a missing or malformed attribute is not modelled.
- Floating point: timestamps are whole seconds. For integer operands, the float quotient on line 38 truncates to the exact truncated quotient as long as |(time − last_month) × 100| < 2^53.
- Quota.PyInt: assumes a 64-bit `sys.maxint`. Platforms with a 32-bit `int` are not modelled.
- `bool` values (a subclass of `int` that `isinstance` also accepts) are not among the modelled values.
- The `unittest` harness (quotaaisp.py:52-54): only its vectors are used, as lemmas.
