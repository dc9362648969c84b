/** The quota analysis of quotaaisp.py: `parse` turns the attributes of a
    <broadband> element into a dictionary, and `analyse` adds to that
    dictionary, in place, the percentage of the monthly quota left and the
    percentage of the billing period elapsed.

    The dictionary is a `map<string, Value>`; a Value keeps the Python type
    of what is stored (an `int`, a `long`, or a `float` timestamp) because
    `analyse` asserts those types before it computes anything. */
module Quota {
  import opened PyDivision

  /** Whole seconds since the epoch, as `time.mktime` returns them. */
  type Seconds = int

  /** `sys.maxint` of a 64-bit CPython 2: larger `int()` results are `long`s. */
  const MaxInt: int := 0x7fff_ffff_ffff_ffff
  const MinInt: int := -MaxInt - 1

  /** n is representable as a Python 2 `int` (a machine word). */
  predicate FitsInt(n: int) { MinInt <= n <= MaxInt }

  datatype Value =
    | Int(n: int)           // Python 2 `int`
    | Long(n: int)          // Python 2 `long`
    | Float(seconds: Seconds)  // a timestamp from `parseTime`

  datatype PyType = IntType | LongType | FloatType

  function TypeOf(v: Value): PyType
  {
    match v
    case Int(_) => IntType
    case Long(_) => LongType
    case Float(_) => FloatType
  }

  /** The exceptions `analyse` can raise. The key names the dictionary entry
      being read (KeyError), checked (AssertionError) or computed
      (ZeroDivisionError). */
  datatype PyError =
    | KeyError(key: string)
    | AssertionError(key: string)
    | ZeroDivisionError(key: string)

  datatype Option<T> = None | Some(value: T)

  /** How a call of `analyse` ended. */
  datatype Outcome = Returned | Raised(error: PyError)

  type Data = map<string, Value>

  /** The dictionary after a call of `analyse`, and how the call ended. */
  datatype Analysed = Analysed(data: Data, outcome: Outcome)

  const MonthlyKey := "monthly"
  const LeftKey := "left"
  const TimeKey := "time"
  const ExpiryKey := "expiry"
  const PercentRemainingKey := "percent_remaining"
  const PercentTimeKey := "percent_time"

  // ---------------------------------------------------------------- parse

  /** The four attributes of a <broadband> element that `parse` reads; the
      two counters are already converted by `int()`. */
  datatype Broadband = Broadband(
    quotaMonthly: int,
    quotaLeft: int,
    quotaTime: string,
    quotaExpiry: string)

  /** Python 2 `int(s)` of a decimal string denoting n: an `int` when it fits
      in a machine word, a `long` otherwise. It also tags the `int()` of the
      float quotient on line 38, where it is exact for results of magnitude
      below 2^53; CPython 2 gives a `long` already for a float equal to -2^63,
      far outside that range. */
  function PyInt(n: int): (v: Value)
    ensures !v.Float? && v.n == n
    ensures v.Int? <==> FitsInt(n)
  {
    if FitsInt(n) then Int(n) else Long(n)
  }

  /** `parse`: the dictionary built from a <broadband> element. `parseTime`
      (strptime then local-time mktime) is supplied by the caller. */
  function Parse(b: Broadband, parseTime: string -> Seconds): (d: Data)
    ensures d.Keys == {MonthlyKey, LeftKey, TimeKey, ExpiryKey}
    ensures !d[MonthlyKey].Float? && d[MonthlyKey].n == b.quotaMonthly
    ensures !d[LeftKey].Float? && d[LeftKey].n == b.quotaLeft
    ensures d[TimeKey] == Float(parseTime(b.quotaTime))
    ensures d[ExpiryKey] == Float(parseTime(b.quotaExpiry))
  {
    map[MonthlyKey := PyInt(b.quotaMonthly),
        LeftKey := PyInt(b.quotaLeft),
        TimeKey := Float(parseTime(b.quotaTime)),
        ExpiryKey := Float(parseTime(b.quotaExpiry))]
  }

  // ------------------------------------------------- the type assertions

  /** One `assert(isinstance(data[key], type))`. */
  datatype TypeCheck = TypeCheck(key: string, expected: PyType)

  /** The assertions at the head of `analyse`, in the order they run. */
  const AnalyseChecks: seq<TypeCheck> := [
    TypeCheck(LeftKey, IntType),
    TypeCheck(MonthlyKey, IntType),
    TypeCheck(ExpiryKey, FloatType),
    TypeCheck(TimeKey, FloatType)]

  predicate Passes(d: Data, c: TypeCheck)
  {
    c.key in d && TypeOf(d[c.key]) == c.expected
  }

  /** What a failing check raises: the lookup fails first if the key is
      missing, otherwise the assertion does. */
  function FailureOf(d: Data, c: TypeCheck): PyError
  {
    if c.key !in d then KeyError(c.key) else AssertionError(c.key)
  }

  /** Runs the checks in order and reports the first that fails. */
  function FirstFailure(d: Data, checks: seq<TypeCheck>): (r: Option<PyError>)
    ensures r.None? <==> forall i :: 0 <= i < |checks| ==> Passes(d, checks[i])
    ensures r.Some? ==>
      exists i :: 0 <= i < |checks| && !Passes(d, checks[i]) &&
        r.value == FailureOf(d, checks[i]) &&
        (forall j :: 0 <= j < i ==> Passes(d, checks[j]))
  {
    if checks == [] then None
    else if !Passes(d, checks[0]) then Some(FailureOf(d, checks[0]))
    else
      var r := FirstFailure(d, checks[1..]);
      assert forall i :: 0 < i < |checks| ==> checks[i] == checks[1..][i - 1];
      if r.Some? then
        var k :| 0 <= k < |checks[1..]| && !Passes(d, checks[1..][k]) &&
          r.value == FailureOf(d, checks[1..][k]) &&
          forall j :: 0 <= j < k ==> Passes(d, checks[1..][j]);
        assert !Passes(d, checks[k + 1]) && forall j :: 0 <= j < k + 1 ==> Passes(d, checks[j]);
        r
      else r
  }

  /** The dictionary holds everything `analyse` reads, with the types it
      asserts. */
  predicate WellTyped(d: Data)
  {
    LeftKey in d && d[LeftKey].Int? &&
    MonthlyKey in d && d[MonthlyKey].Int? &&
    ExpiryKey in d && d[ExpiryKey].Float? &&
    TimeKey in d && d[TimeKey].Float?
  }

  /** The assertions of `analyse` all pass exactly on well-typed
      dictionaries. */
  lemma {:induction false} ChecksPassIffWellTyped(d: Data)
    ensures FirstFailure(d, AnalyseChecks).None? <==> WellTyped(d)
  {
    if FirstFailure(d, AnalyseChecks).None? {
      assert Passes(d, AnalyseChecks[0]) && Passes(d, AnalyseChecks[1]);
      assert Passes(d, AnalyseChecks[2]) && Passes(d, AnalyseChecks[3]);
    }
  }

  // ---------------------------------------------------- the arithmetic

  /** `data['left']*100 / data['monthly']`: Python 2 floor division, which
      raises ZeroDivisionError (here None) when the allowance is 0. */
  function PercentRemaining(left: int, monthly: int): (r: Option<int>)
    ensures r.None? <==> monthly == 0
    ensures r.Some? && monthly > 0 ==>
      monthly * r.value <= left * 100 < monthly * r.value + monthly
    ensures r.Some? && monthly < 0 ==>
      monthly * r.value + monthly < left * 100 <= monthly * r.value
  {
    if monthly == 0 then None else Some(FloorDiv(left * 100, monthly))
  }

  /** `int((time - last_month) * 100 / (expiry - last_month))`: the share of
      the period elapsed, truncated toward zero; None when the period is
      empty (ZeroDivisionError). */
  function PercentTime(time: Seconds, lastMonth: Seconds, expiry: Seconds): (r: Option<int>)
    ensures r.None? <==> expiry == lastMonth
    ensures r.Some? ==>
      Abs(r.value) * Abs(expiry - lastMonth) <= Abs((time - lastMonth) * 100) <
      (Abs(r.value) + 1) * Abs(expiry - lastMonth)
    ensures r.Some? && r.value != 0 ==>
      (r.value > 0 <==> (time > lastMonth) == (expiry > lastMonth))
  {
    if expiry == lastMonth then None
    else Some(TruncDiv((time - lastMonth) * 100, expiry - lastMonth))
  }

  // ------------------------------------------------------------ analyse

  /** The Python 2 type of `left*100 / monthly` for int operands: the
      product turns into a `long` outside the machine word, and a `long`
      divided by an `int` stays a `long`. (The product is never -2^63, the
      one `int` whose division by -1 overflows, as 2^63 is no multiple of
      100.) */
  function PyQuotient(product: int, q: int): (v: Value)
    ensures !v.Float? && v.n == q
    ensures v.Int? <==> FitsInt(product)
  {
    if FitsInt(product) then Int(q) else Long(q)
  }

  /** `analyse` as a function of the dictionary it is given: the new
      dictionary and how the call ended. `monthBefore(expiry)` is
      `last_month`, the expiry moved back one calendar month in local time. */
  function Analysis(d: Data, monthBefore: Seconds -> Seconds): (r: Analysed)
    // only the two derived entries may be added or replaced
    ensures forall k :: k in d && k != PercentRemainingKey && k != PercentTimeKey ==>
      k in r.data && r.data[k] == d[k]
    ensures forall k :: k in r.data ==>
      k in d || k == PercentRemainingKey || k == PercentTimeKey
    // the first failing assertion raises its error, nothing written
    ensures FirstFailure(d, AnalyseChecks).Some? ==>
      r == Analysed(d, Raised(FirstFailure(d, AnalyseChecks).value))
    // a failure before line 34 finishes leaves the dictionary untouched
    ensures r.outcome.Raised? && r.outcome.error != ZeroDivisionError(PercentTimeKey) ==>
      r.data == d
    // on return both derived entries are integers (`int` or `long`)
    ensures r.outcome.Returned? ==>
      PercentRemainingKey in r.data && !r.data[PercentRemainingKey].Float? &&
      PercentTimeKey in r.data && !r.data[PercentTimeKey].Float?
  {
    var failure := FirstFailure(d, AnalyseChecks);
    if failure.Some? then Analysed(d, Raised(failure.value))
    else
      ChecksPassIffWellTyped(d);
      var left, monthly := d[LeftKey].n, d[MonthlyKey].n;
      var time, expiry := d[TimeKey].seconds, d[ExpiryKey].seconds;
      match PercentRemaining(left, monthly)
      case None => Analysed(d, Raised(ZeroDivisionError(PercentRemainingKey)))
      case Some(remaining) =>
        var d1 := d[PercentRemainingKey := PyQuotient(left * 100, remaining)];
        var lastMonth := monthBefore(expiry);
        match PercentTime(time, lastMonth, expiry)
        case None => Analysed(d1, Raised(ZeroDivisionError(PercentTimeKey)))
        case Some(elapsed) => Analysed(d1[PercentTimeKey := PyInt(elapsed)], Returned)
  }

  /** The dictionary that `analyse` mutates. */
  class QuotaData {
    var entries: Data

    constructor (d: Data)
      ensures entries == d
    {
      entries := d;
    }

    /** `analyse(data)`, updating the dictionary in place step by step. */
    method Analyse(monthBefore: Seconds -> Seconds) returns (outcome: Outcome)
      modifies this
      ensures entries == Analysis(old(entries), monthBefore).data
      ensures outcome == Analysis(old(entries), monthBefore).outcome
      ensures forall k :: k in old(entries) && k != PercentRemainingKey && k != PercentTimeKey ==>
        k in entries && entries[k] == old(entries)[k]
    {
      var failure := FirstFailure(entries, AnalyseChecks);
      if failure.Some? {
        return Raised(failure.value);
      }
      ChecksPassIffWellTyped(entries);
      var left, monthly := entries[LeftKey].n, entries[MonthlyKey].n;
      if monthly == 0 {
        return Raised(ZeroDivisionError(PercentRemainingKey));
      }
      entries := entries[PercentRemainingKey := PyQuotient(left * 100, FloorDiv(left * 100, monthly))];
      var expiry := entries[ExpiryKey].seconds;
      var lastMonth := monthBefore(expiry);
      if expiry - lastMonth == 0 {
        return Raised(ZeroDivisionError(PercentTimeKey));
      }
      var time := entries[TimeKey].seconds;
      entries := entries[PercentTimeKey := PyInt(TruncDiv((time - lastMonth) * 100, expiry - lastMonth))];
      return Returned;
    }
  }
}
