/** What `analyse` and `parse` of quotaaisp.py promise, proved about the
    model in module Quota. */
module QuotaProperties {
  import opened PyDivision
  import opened Quota

  // ------------------------------------------------- percent_remaining

  /** With the remaining allowance between nothing and the whole allowance,
      percent_remaining is a percentage. */
  lemma {:induction false} PercentRemainingWithinQuota(left: int, monthly: int)
    requires 0 <= left <= monthly && 0 < monthly
    ensures PercentRemaining(left, monthly).Some?
    ensures 0 <= PercentRemaining(left, monthly).value <= 100
  {
    var q := PercentRemaining(left, monthly).value;
    if q > 100 {
      MulMonotone(101, q, monthly);
    }
    if q < 0 {
      MulMonotone(q, -1, monthly);
    }
  }

  /** A full allowance reads 100 and an empty one 0. */
  lemma {:induction false} PercentRemainingEndpoints(monthly: int)
    requires monthly != 0
    ensures PercentRemaining(monthly, monthly) == Some(100)
    ensures PercentRemaining(0, monthly) == Some(0)
  {
    FloorDivUnique(monthly * 100, monthly, 100);
    FloorDivUnique(0, monthly, 0);
  }

  /** More allowance left never reads as less. */
  lemma {:induction false} PercentRemainingMonotone(left1: int, left2: int, monthly: int)
    requires 0 < monthly && left1 <= left2
    ensures PercentRemaining(left1, monthly).value <= PercentRemaining(left2, monthly).value
  {
    FloorDivMonotone(left1 * 100, left2 * 100, monthly);
  }

  /** Outside the quota the floor division keeps the reading outside
      [0, 100): an overdrawn allowance reads negative (never rounded up to
      0), a carried-over credit reads 100 or more. */
  lemma {:induction false} PercentRemainingOutsideQuota(left: int, monthly: int)
    requires 0 < monthly
    ensures left < 0 ==> PercentRemaining(left, monthly).value < 0
    ensures monthly <= left ==> 100 <= PercentRemaining(left, monthly).value
  {
    var q := PercentRemaining(left, monthly).value;
    if left < 0 && q >= 0 {
      MulMonotone(0, q, monthly);
    }
    if monthly <= left && q < 100 {
      MulMonotone(q + 1, 100, monthly);
    }
  }

  /** The allowance figures of the unit test read 78 percent. */
  lemma PercentRemainingTestVector()
    ensures PercentRemaining(156575605264, 200000000000) == Some(78)
  {
    FloorDivUnique(15657560526400, 200000000000, 78);
  }

  // ------------------------------------------------------ percent_time

  /** At the start of the period no time has elapsed; at the expiry all of
      it has. */
  lemma {:induction false} PercentTimeEndpoints(lastMonth: Seconds, expiry: Seconds)
    requires lastMonth != expiry
    ensures PercentTime(lastMonth, lastMonth, expiry) == Some(0)
    ensures PercentTime(expiry, lastMonth, expiry) == Some(100)
  {
    TruncDivUnique(0, expiry - lastMonth, 0);
    TruncDivUnique((expiry - lastMonth) * 100, expiry - lastMonth, 100);
  }

  /** An observation inside the period [lastMonth, expiry) reads 0 to 99. */
  lemma {:induction false} PercentTimeWithinPeriod(time: Seconds, lastMonth: Seconds, expiry: Seconds)
    requires lastMonth <= time < expiry
    ensures PercentTime(time, lastMonth, expiry).Some?
    ensures 0 <= PercentTime(time, lastMonth, expiry).value <= 99
  {
    var q := PercentTime(time, lastMonth, expiry).value;
    if q >= 100 {
      MulMonotone(100, q, expiry - lastMonth);
    }
  }

  /** Over a non-empty period, a later observation never reads less elapsed
      time (inside or outside the period). */
  lemma {:induction false} PercentTimeMonotone(time1: Seconds, time2: Seconds, lastMonth: Seconds, expiry: Seconds)
    requires lastMonth < expiry && time1 <= time2
    ensures PercentTime(time1, lastMonth, expiry).value <= PercentTime(time2, lastMonth, expiry).value
  {
    TruncDivMonotone((time1 - lastMonth) * 100, (time2 - lastMonth) * 100, expiry - lastMonth);
  }

  /** Only offsets from the period start matter: moving all three instants
      by the same amount (a fixed time-zone offset, say) changes nothing. */
  lemma PercentTimeShift(time: Seconds, lastMonth: Seconds, expiry: Seconds, offset: int)
    ensures PercentTime(time + offset, lastMonth + offset, expiry + offset) ==
            PercentTime(time, lastMonth, expiry)
  {
  }

  /** The unit test: a 31-day period (1 July to 1 August 2015) observed at
      17:00 on 13 July, 1098000 seconds in, reads 40 percent. */
  lemma PercentTimeTestVector(lastMonth: Seconds)
    ensures PercentTime(lastMonth + 1098000, lastMonth, lastMonth + 2678400) == Some(40)
  {
    TruncDivUnique(109800000, 2678400, 40);
  }

  // ------------------------------------------------------------ analyse

  /** `analyse` returns normally exactly when its assertions hold and
      neither division is by zero; it then adds the two percentages and
      nothing else. */
  lemma {:induction false} AnalysisReturns(d: Data, monthBefore: Seconds -> Seconds)
    ensures Analysis(d, monthBefore).outcome.Returned? <==>
      WellTyped(d) && d[MonthlyKey].n != 0 &&
      d[ExpiryKey].seconds != monthBefore(d[ExpiryKey].seconds)
    ensures Analysis(d, monthBefore).outcome.Returned? ==>
      var expiry := d[ExpiryKey].seconds;
      Analysis(d, monthBefore).data ==
        d[PercentRemainingKey := PyQuotient(d[LeftKey].n * 100,
                                            PercentRemaining(d[LeftKey].n, d[MonthlyKey].n).value)]
         [PercentTimeKey := PyInt(PercentTime(d[TimeKey].seconds, monthBefore(expiry), expiry).value)]
  {
    ChecksPassIffWellTyped(d);
  }

  /** A zero allowance raises at line 34, before anything is written. */
  lemma {:induction false} AnalysisZeroAllowance(d: Data, monthBefore: Seconds -> Seconds)
    requires WellTyped(d) && d[MonthlyKey].n == 0
    ensures Analysis(d, monthBefore) == Analysed(d, Raised(ZeroDivisionError(PercentRemainingKey)))
  {
    ChecksPassIffWellTyped(d);
  }

  /** An empty period raises at line 38, after percent_remaining has
      already been stored. */
  lemma {:induction false} AnalysisEmptyPeriod(d: Data, monthBefore: Seconds -> Seconds)
    requires WellTyped(d) && d[MonthlyKey].n != 0
    requires d[ExpiryKey].seconds == monthBefore(d[ExpiryKey].seconds)
    ensures Analysis(d, monthBefore) == Analysed(
      d[PercentRemainingKey := PyQuotient(d[LeftKey].n * 100,
                                          PercentRemaining(d[LeftKey].n, d[MonthlyKey].n).value)],
      Raised(ZeroDivisionError(PercentTimeKey)))
  {
    ChecksPassIffWellTyped(d);
  }

  /** Analysing an analysed dictionary again changes nothing: the inputs
      are untouched, so the same percentages are recomputed. */
  lemma {:induction false} AnalysisIdempotent(d: Data, monthBefore: Seconds -> Seconds)
    requires Analysis(d, monthBefore).outcome.Returned?
    ensures Analysis(Analysis(d, monthBefore).data, monthBefore) == Analysis(d, monthBefore)
  {
    var d1 := Analysis(d, monthBefore).data;
    AnalysisReturns(d, monthBefore);
    assert d1[LeftKey] == d[LeftKey] && d1[MonthlyKey] == d[MonthlyKey];
    assert d1[TimeKey] == d[TimeKey] && d1[ExpiryKey] == d[ExpiryKey];
    AnalysisReturns(d1, monthBefore);
  }

  /** An allowance of 10^17 bytes, all of it left: both counters are
      `int`s, but `left*100` is past 2^63 - 1, so the stored 100 is a
      `long`. */
  lemma {:induction false} AnalysisLargeAllowanceStoresLong(d: Data, monthBefore: Seconds -> Seconds)
    requires WellTyped(d) && d[LeftKey].n == d[MonthlyKey].n == 100000000000000000
    requires d[ExpiryKey].seconds != monthBefore(d[ExpiryKey].seconds)
    ensures Analysis(d, monthBefore).outcome == Returned
    ensures Analysis(d, monthBefore).data[PercentRemainingKey] == Long(100)
  {
    AnalysisReturns(d, monthBefore);
    PercentRemainingEndpoints(100000000000000000);
  }

  // ---------------------------------------------------- parse, then analyse

  /** A parsed element passes the assertions of `analyse` exactly when both
      counters fit in a Python 2 `int`. */
  lemma {:induction false} ParsedIsWellTyped(b: Broadband, parseTime: string -> Seconds)
    ensures WellTyped(Parse(b, parseTime)) <==> FitsInt(b.quotaMonthly) && FitsInt(b.quotaLeft)
  {
    var d := Parse(b, parseTime);
    assert d[MonthlyKey] == PyInt(b.quotaMonthly) && d[LeftKey] == PyInt(b.quotaLeft);
  }

  /** A counter beyond 64 bits parses to a `long` and `analyse` stops at
      its first assertion that sees it, leaving the dictionary unchanged. */
  lemma {:induction false} ParsedLongCounterRejected(b: Broadband, parseTime: string -> Seconds,
                                                     monthBefore: Seconds -> Seconds)
    requires !FitsInt(b.quotaLeft) || !FitsInt(b.quotaMonthly)
    ensures var d := Parse(b, parseTime);
      Analysis(d, monthBefore) ==
        Analysed(d, Raised(AssertionError(if FitsInt(b.quotaLeft) then MonthlyKey else LeftKey)))
  {
    var d := Parse(b, parseTime);
    assert d[MonthlyKey] == PyInt(b.quotaMonthly) && d[LeftKey] == PyInt(b.quotaLeft);
    assert !Passes(d, AnalyseChecks[0]) || !Passes(d, AnalyseChecks[1]);
    assert Passes(d, AnalyseChecks[0]) ==> !Passes(d, AnalyseChecks[1]);
  }

  const TestTime := "2015-07-13 17:00:00"
  const TestExpiry := "2015-08-01 00:00:00"

  /** The element of the unit test. */
  const TestElement := Broadband(200000000000, 156575605264, TestTime, TestExpiry)

  /** The unit test: in local time the expiry is 1580400 seconds after the
      observation and 31 days (2678400 seconds) after the month before it;
      `analyse` then stores 78 and 40. */
  lemma {:induction false} UnitTest(parseTime: string -> Seconds, monthBefore: Seconds -> Seconds)
    requires parseTime(TestExpiry) - parseTime(TestTime) == 1580400
    requires parseTime(TestExpiry) - monthBefore(parseTime(TestExpiry)) == 2678400
    ensures var r := Analysis(Parse(TestElement, parseTime), monthBefore);
      r.outcome == Returned &&
      r.data[PercentRemainingKey] == Int(78) && r.data[PercentTimeKey] == Int(40)
  {
    var d := Parse(TestElement, parseTime);
    ParsedIsWellTyped(TestElement, parseTime);
    AnalysisReturns(d, monthBefore);
    PercentRemainingTestVector();
    var expiry := parseTime(TestExpiry);
    var lastMonth := monthBefore(expiry);
    assert parseTime(TestTime) == lastMonth + 1098000;
    PercentTimeTestVector(lastMonth);
  }
}
