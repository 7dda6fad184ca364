/**
 * The year-over-year growth that `display_net_income` reports next to each
 * record: the change from the previous record's value as a percentage of
 * that value's magnitude, or "N/A" (here `None`) when there is no previous
 * value or it is zero. Values are exact; the float rounding and the
 * printing are not modelled.
 */
module Growth {
  import opened Wrappers
  import opened Filings

  /** `abs` of a JSON number. */
  function Magnitude(x: real): real {
    if x < 0.0 then -x else x
  }

  /** `((val - prev) / abs(prev)) * 100` when `prev` is present and non-zero. */
  function GrowthPct(prev: Option<real>, val: real): (g: Option<real>)
    ensures g.None? <==> prev.None? || prev.value == 0.0
  {
    if prev.Some? && prev.value != 0.0 then
      Some((val - prev.value) / Magnitude(prev.value) * 100.0)
    else None
  }

  /** The previous value and the growth give back the current value. */
  lemma GrowthRecoversValue(prev: real, val: real)
    requires prev != 0.0
    ensures val == prev + GrowthPct(Some(prev), val).value * Magnitude(prev) / 100.0
  {
    var m := Magnitude(prev);
    var d := val - prev;
    assert d / m * 100.0 * m / 100.0 == d;
  }

  /** Growth is positive exactly when the value rose, zero exactly when it stayed, negative exactly when it fell. */
  lemma GrowthSign(prev: real, val: real)
    requires prev != 0.0
    ensures GrowthPct(Some(prev), val).value > 0.0 <==> val > prev
    ensures GrowthPct(Some(prev), val).value == 0.0 <==> val == prev
    ensures GrowthPct(Some(prev), val).value < 0.0 <==> val < prev
  {
    var m := Magnitude(prev);
    var d := val - prev;
    assert m > 0.0;
    assert GrowthPct(Some(prev), val).value == d / m * 100.0;
    if d > 0.0 {
      assert d / m > 0.0;
    } else if d < 0.0 {
      assert d / m < 0.0;
    }
  }

  /** The value of the record before record `i`, if there is one. */
  function Previous(filings: seq<Fact>, i: nat): Option<real>
    requires i <= |filings|
  {
    if i == 0 then None else filings[i - 1].val
  }

  /**
   * The loop of `display_net_income` with its `prev_val`: the growth of
   * each record relative to the record before it. Every record is expected
   * to carry `val`.
   */
  method YearOverYear(filings: seq<Fact>) returns (growth: seq<Option<real>>)
    requires forall f :: f in filings ==> f.val.Some?
    ensures |growth| == |filings|
    ensures forall i :: 0 <= i < |filings| ==>
      growth[i] == GrowthPct(Previous(filings, i), filings[i].val.value)
    ensures |filings| > 0 ==> growth[0] == None
    ensures forall i :: 0 < i < |filings| ==> (growth[i].None? <==> filings[i - 1].val.value == 0.0)
  {
    growth := [];
    var prevVal: Option<real> := None;
    var i := 0;
    while i < |filings|
      invariant 0 <= i <= |filings|
      invariant |growth| == i
      invariant prevVal == Previous(filings, i)
      invariant forall j :: 0 <= j < i ==>
        growth[j] == GrowthPct(Previous(filings, j), filings[j].val.value)
    {
      var val := filings[i].val.value;
      growth := growth + [GrowthPct(prevVal, val)];
      prevVal := Some(val);
      i := i + 1;
    }
    forall i | 0 < i < |filings|
      ensures growth[i].None? <==> filings[i - 1].val.value == 0.0
    {
      assert filings[i - 1] in filings;
    }
  }
}
