/** Real-time settings of a pod: their validation, the budget admission asks for, and the whole
    millicores the controller records. */
module Settings {
  import opened GoTypes
  import opened Criticality
  import opened Accounting

  datatype RTSettings = RTSettings(period: int, runtimeLow: int, runtimeHi: int, core: Option<string>)

  datatype SettingsError =
    | PeriodNotPositive
    | LowNotPositive
    | LowExceedsPeriod
    | HiNotPositive
    | HiExceedsPeriod
    | LowExceedsHi
    | HiExceedsCapacity
    | CoreEmpty

  function Validate(s: RTSettings): Option<SettingsError> {
    if s.period <= 0 then Some(PeriodNotPositive)
    else if s.runtimeLow <= 0 then Some(LowNotPositive)
    else if s.runtimeLow > s.period then Some(LowExceedsPeriod)
    else if s.runtimeHi <= 0 then Some(HiNotPositive)
    else if s.runtimeHi > s.period then Some(HiExceedsPeriod)
    else if s.runtimeLow > s.runtimeHi then Some(LowExceedsHi)
    else if s.runtimeHi > 95 * s.period / 100 then Some(HiExceedsCapacity)
    else if s.core == Some("") then Some(CoreEmpty)
    else None
  }

  /** The chain of guards amounts to four conditions; the cap is exact, not the rounded quotient. */
  lemma ValidIff(s: RTSettings)
    ensures Validate(s).None? <==>
      0 < s.runtimeLow <= s.runtimeHi && 20 * s.runtimeHi <= 19 * s.period && s.period > 0 && s.core != Some("")
  {
    if s.period > 0 {
      assert s.runtimeHi <= 95 * s.period / 100 <==> 100 * s.runtimeHi <= 95 * s.period;
    }
  }

  const BEYOND_ANY_BUDGET := 0x1_0000_0000_0000_0000 as real

  /** The budget admission asks for, in millicores. A zero period makes the source's quotient infinite
      (or not a number), which no core satisfies, or minus infinity, which every core satisfies; stand-ins
      outside the 64-bit range of usages have the same effect. */
  function Required(s: RTSettings): real {
    if s.period != 0 then 1000.0 * s.runtimeHi as real / s.period as real
    else if s.runtimeHi >= 0 then BEYOND_ANY_BUDGET
    else -BEYOND_ANY_BUDGET
  }

  lemma QuotientOrder(x: int, y: int, bound: int)
    requires y > 0
    ensures 1000.0 * x as real / y as real <= bound as real <==> 1000 * x <= bound * y
  {
    var q := 1000.0 * x as real / y as real;
    assert q * y as real == (1000 * x) as real;
    ScaleOrder(q, bound as real, y as real);
    assert bound as real * y as real == (bound * y) as real;
  }

  /** Whether a free budget of x millicores covers the high budget of the settings, without a quotient. */
  predicate Covers(x: int, s: RTSettings) {
    if s.period > 0 then 1000 * s.runtimeHi <= x * s.period
    else if s.period < 0 then 1000 * s.runtimeHi >= x * s.period
    else s.runtimeHi < 0
  }

  /** What admission asks for is the high budget, whatever the settings; for a zero period, budgets of
      64 bits are meant. */
  lemma RequiredIff(s: RTSettings, x: int)
    requires s.period != 0 || -MAX_INT64 <= x <= MAX_INT64
    ensures x as real >= Required(s) <==> Covers(x, s)
  {
    if s.period > 0 {
      QuotientOrder(s.runtimeHi, s.period, x);
    } else if s.period < 0 {
      var q := Required(s);
      assert q == 1000.0 * (-s.runtimeHi) as real / (-s.period) as real;
      QuotientOrder(-s.runtimeHi, -s.period, x);
      assert x * -s.period == -(x * s.period);
    }
  }

  lemma ScaleOrder(a: real, b: real, y: real)
    requires y > 0.0
    ensures a <= b <==> a * y <= b * y
  {
  }

  /** Validated settings never ask for more than an empty core offers. */
  lemma ValidNeedsAtMostOneCore(s: RTSettings)
    requires Validate(s).None?
    ensures Required(s) <= 950.0
  {
    ValidIff(s);
    QuotientOrder(s.runtimeHi, s.period, 950);
  }

  // ---------- Recorded millicores ----------

  /** The conversion to an integer drops the fraction; a zero result is replaced by a default. */
  function RecordedMillis(runtime: int, period: int): int {
    var millis :=
      if period <= 0 then 0
      else if runtime >= 0 then 1000 * runtime / period
      else -(1000 * -runtime / period);
    if millis == 0 then 100 else millis
  }

  /** The recorded millicores of a runtime: its share of the period in thousandths, rounded towards zero;
      100 stands in when that is zero or the period is not positive. */
  predicate IsRecordOf(millis: int, runtime: int, period: int) {
    if period <= 0 || -period < 1000 * runtime < period then millis == 100
    else if runtime > 0 then millis * period <= 1000 * runtime < (millis + 1) * period
    else (millis - 1) * period < 1000 * runtime <= millis * period
  }

  lemma RecordedMillisIsRecord(runtime: int, period: int)
    ensures IsRecordOf(RecordedMillis(runtime, period), runtime, period)
  {
    if period > 0 {
      var x := if runtime >= 0 then 1000 * runtime else 1000 * -runtime;
      FloorBounds(x, period, x / period);
      if runtime < 0 {
        var q := x / period;
        assert q * period <= x < (q + 1) * period;
        assert (-q) * period == -(q * period) && (-q - 1) * period == -((q + 1) * period);
      }
    }
  }

  /** For either runtime of validated settings the record lies in 1..950 and the true share is less than
      one millicore above it; from one millicore up the record never exceeds the share, and below that the
      default stands in. */
  lemma RecordedBounds(s: RTSettings, runtime: int)
    requires Validate(s).None? && (runtime == s.runtimeLow || runtime == s.runtimeHi)
    ensures 1 <= RecordedMillis(runtime, s.period) <= 950
    ensures (1000.0 * runtime as real / s.period as real) < (RecordedMillis(runtime, s.period) + 1) as real
    ensures 1000 * runtime >= s.period ==> RecordedMillis(runtime, s.period) * s.period <= 1000 * runtime
    ensures 1000 * runtime < s.period ==> RecordedMillis(runtime, s.period) == 100
  {
    ValidIff(s);
    var m := 1000 * runtime / s.period;
    FloorBounds(1000 * runtime, s.period, 950);
    BelowNext(runtime, s.period, m + 1);
  }

  lemma FloorBounds(x: int, y: int, bound: int)
    requires x >= 0 && y > 0
    ensures x / y >= 0 && x < (x / y + 1) * y
    ensures x <= bound * y ==> x / y <= bound
    ensures (x / y) * y <= x && (x < y ==> x / y == 0) && (x >= y ==> x / y >= 1)
  {
    ScaleOrder((x / y) as real, bound as real, y as real);
    assert (x / y) * y <= x;
  }

  lemma BelowNext(x: int, y: int, next: int)
    requires y > 0 && 1000 * x < next * y
    ensures (1000.0 * x as real / y as real) < next as real
  {
    var q := 1000.0 * x as real / y as real;
    assert q * y as real == (1000 * x) as real;
    ScaleOrder(next as real, q, y as real);
    assert next as real * y as real == (next * y) as real;
  }

  /** The part of a core a pod really uses: its settings and the runtime in force. */
  datatype Share = Share(settings: RTSettings, runtime: int) {
    ghost predicate Valid() {
      Validate(settings).None? && (runtime == settings.runtimeLow || runtime == settings.runtimeHi)
    }

    function Exact(): real
      requires settings.period != 0
    {
      1000.0 * runtime as real / settings.period as real
    }
  }

  ghost predicate Describes(shares: map<string, Share>, pods: map<string, PodInfo>) {
    && shares.Keys == pods.Keys
    && forall name | name in pods ::
         shares[name].Valid() && pods[name].cpuMillis == RecordedMillis(shares[name].runtime, shares[name].settings.period)
  }

  /** The true utilisations, in millicores. */
  function Exacts(shares: map<string, Share>): map<string, real>
    requires forall name | name in shares :: shares[name].settings.period != 0
  {
    map name | name in shares :: shares[name].Exact()
  }

  ghost function Total(parts: map<string, real>): real
    decreases |parts|
  {
    if parts == map[] then 0.0
    else
      var name :| name in parts;
      parts[name] + Total(parts - {name})
  }

  lemma {:induction false} TotalBelow(parts: map<string, real>, pods: map<string, PodInfo>)
    requires parts.Keys == pods.Keys
    requires forall name | name in parts :: parts[name] < (pods[name].cpuMillis + 1) as real
    ensures pods == map[] ==> Total(parts) == 0.0
    ensures pods != map[] ==> Total(parts) < (PodSum(pods) + |pods|) as real
    decreases |parts|
  {
    if parts != map[] {
      var name :| name in parts && Total(parts) == parts[name] + Total(parts - {name});
      assert name in pods;
      PodSumSplit(pods, name);
      assert (pods - {name}).Keys == pods.Keys - {name};
      TotalBelow(parts - {name}, pods - {name});
    } else {
      assert pods == map[];
    }
  }

  /** On a core whose cache is exact, holding n > 0 pods of validated settings, the true utilisation is
      below the cached usage plus n millicores: rounding hides less than one millicore a pod. */
  lemma RoundingHidesLessThanOnePerPod(core: Core, shares: map<string, Share>)
    requires Exact(core) && core.pods != map[] && Describes(shares, core.pods)
    ensures forall name | name in shares :: shares[name].settings.period != 0
    ensures Total(Exacts(shares)) < (core.usage + |core.pods|) as real
  {
    forall name | name in shares
      ensures shares[name].settings.period != 0
      ensures shares[name].Exact() < (core.pods[name].cpuMillis + 1) as real
    {
      assert name in core.pods;
      ValidIff(shares[name].settings);
      RecordedBounds(shares[name].settings, shares[name].runtime);
    }
    TotalBelow(Exacts(shares), core.pods);
  }
}
