/**
 * What `extract_metric` promises its callers, proved of its specification
 * `ExtractSpec`: the records it returns, their order, the record it keeps
 * for each fiscal year, and when it returns `[]` or lets a `ValueError`
 * escape.
 */
module Guarantees {
  import opened Wrappers
  import opened Filings
  import opened Ordering
  import opened Resolution

  /** Every group holds only facts of its own year. */
  predicate GroupsByYear(m: map<int, seq<Fact>>) {
    forall y :: y in m ==> forall f :: f in m[y] ==> f.fy == Some(y)
  }

  /** A year's choice is one of that year's facts. */
  lemma YearChoiceInGroup(m: map<int, seq<Fact>>, y: int)
    requires GroupsByYear(m)
    requires YearChoice(m, y).Ok? && YearChoice(m, y).value.Some?
    ensures y in m && YearChoice(m, y).value.value in m[y] && YearChoice(m, y).value.value.fy == Some(y)
  {
    ResolveYearInGroup(m[y], y);
  }

  lemma ChoiceInOwnYear(m: map<int, seq<Fact>>, ys: seq<int>)
    requires GroupsByYear(m)
    ensures PicksOwnYear(ChoiceIn(m), ys)
  {
    forall i | 0 <= i < |ys| && ChoiceIn(m)(ys[i]).Ok? && ChoiceIn(m)(ys[i]).value.Some?
      ensures ChoiceIn(m)(ys[i]).value.value.fy == Some(ys[i])
    {
      YearChoiceInGroup(m, ys[i]);
    }
  }

  /**
   * The records returned are input `USD` records of the concept, each from
   * an annual 10-K report, at most one per fiscal year and in strictly
   * ascending fiscal-year order.
   */
  lemma ExtractReturnsAnnualInputs(data: CompanyFacts, metric: string)
    requires ExtractSpec(data, metric).Returned?
    ensures forall r :: r in ExtractSpec(data, metric).records ==>
      UsdFilings(data, metric).Some? && r in UsdFilings(data, metric).value && IsAnnual(r)
    ensures StrictlyAscending(ExtractSpec(data, metric).records)
  {
    if TryExtract(data, metric).Ok? {
      var annual := Annual(UsdFilings(data, metric).value);
      var m := ByYear(annual);
      var ys := SortedYears(m.Keys);
      var rs := ResolveYears(m, ys).value;
      forall r | r in rs
        ensures r in annual
      {
        var j :| 0 <= j < |ys| && ChoiceIn(m)(ys[j]) == Ok(Some(r));
        YearChoiceInGroup(m, ys[j]);
      }
      ChoiceInOwnYear(m, ys);
      WalkAscending(ChoiceIn(m), ys);
    }
  }

  /**
   * When the extraction completes, each fiscal year of the annual records
   * has the entry that year's own choice gives, nothing when that choice
   * is nothing, independently of the other years.
   */
  lemma ExtractPerYear(data: CompanyFacts, metric: string)
    requires TryExtract(data, metric).Ok?
    ensures UsdFilings(data, metric).Some?
    ensures var annual := Annual(UsdFilings(data, metric).value);
      forall y :: y in YearsOf(annual) ==>
        Group(annual, y) != [] && ResolveYear(Group(annual, y), y) == Ok(EntryFor(TryExtract(data, metric).value, y))
  {
    var annual := Annual(UsdFilings(data, metric).value);
    var m := ByYear(annual);
    var ys := SortedYears(m.Keys);
    ChoiceInOwnYear(m, ys);
    WalkEntries(ChoiceIn(m), ys);
    forall y | y in YearsOf(annual)
      ensures Group(annual, y) != [] && ResolveYear(Group(annual, y), y) == Ok(EntryFor(TryExtract(data, metric).value, y))
    {
      var i :| 0 <= i < |ys| && ys[i] == y;
      assert ChoiceIn(m)(ys[i]) == YearChoice(m, y);
    }
  }

  /** A `ValueError` escapes only when some annual record has a malformed date that is read before any missing key. */
  lemma ValueErrorNeedsMalformedDate(data: CompanyFacts, metric: string)
    requires ExtractSpec(data, metric) == RaisesValueError
    ensures UsdFilings(data, metric).Some?
    ensures exists f :: f in Annual(UsdFilings(data, metric).value) && RaisesOnDate(f)
  {
    var annual := Annual(UsdFilings(data, metric).value);
    var m := ByYear(annual);
    var ys := SortedYears(m.Keys);
    assert TryExtract(data, metric) == Raise(ValueError);
    assert AllHaveYear(annual);
    var walk := Gather(ChoiceIn(m), ys);
    assert walk == Raise(ValueError);
    var i :| 0 <= i < |ys| && ChoiceIn(m)(ys[i]) == Raise(walk.exc);
    var y := ys[i];
    assert YearChoice(m, y) == Raise(ValueError);
    ResolveYearValueError(m[y], y);
    var f :| f in m[y] && RaisesOnDate(f);
    assert f in annual;
  }

  /**
   * A missing key makes the call return `[]`: the concept or its `USD`
   * unit, the `fy` of an annual record, or, when no date is malformed, a
   * date of a record in a duration year or the `filed` of a record in an
   * instant year.
   */
  lemma MissingKeyGivesEmpty(data: CompanyFacts, metric: string, y: int)
    ensures UsdFilings(data, metric).None? ==> ExtractSpec(data, metric) == Returned([])
    ensures UsdFilings(data, metric).Some? && !AllHaveYear(Annual(UsdFilings(data, metric).value)) ==>
      ExtractSpec(data, metric) == Returned([])
    ensures UsdFilings(data, metric).Some? && MissingKeyInYear(Annual(UsdFilings(data, metric).value), y) ==>
      ExtractSpec(data, metric) == Returned([])
  {
    if UsdFilings(data, metric).Some? && MissingKeyInYear(Annual(UsdFilings(data, metric).value), y) {
      MissingKeyInYearGivesEmpty(data, metric, y);
    }
  }

  /**
   * Every annual record has its `fy` and no date of them is malformed, and
   * year `y` holds a record missing a key its kind of year reads: a date in
   * a duration year, `filed` in an instant year.
   */
  predicate MissingKeyInYear(annual: seq<Fact>, y: int) {
    AllHaveYear(annual) && (forall f :: f in annual ==> !RaisesOnDate(f))
    && var g := Group(annual, y);
    g != []
    && ((g[0].start.Some? && exists f :: f in g && !Dated(f))
        || (g[0].start.None? && exists f :: f in g && f.filed.None?))
  }

  lemma MissingKeyInYearGivesEmpty(data: CompanyFacts, metric: string, y: int)
    requires UsdFilings(data, metric).Some? && MissingKeyInYear(Annual(UsdFilings(data, metric).value), y)
    ensures ExtractSpec(data, metric) == Returned([])
  {
    var annual := Annual(UsdFilings(data, metric).value);
    WalkRaises(annual, y);
    var body := TryExtract(data, metric);
    assert body.Raise?;
    if body.exc == ValueError {
      ValueErrorNeedsMalformedDate(data, metric);
      assert false;
    }
  }

  /** A year whose choice raises makes the whole walk over the years raise. */
  lemma WalkRaises(annual: seq<Fact>, y: int)
    requires MissingKeyInYear(annual, y)
    ensures var m := ByYear(annual); ResolveYears(m, SortedYears(m.Keys)).Raise?
  {
    var m := ByYear(annual);
    var ys := SortedYears(m.Keys);
    YearRaises(annual, y);
    assert y in m.Keys && m[y] == Group(annual, y);
    assert YearChoice(m, y).Raise?;
    assert ChoiceIn(m)(y) == YearChoice(m, y);
    var i :| 0 <= i < |ys| && ys[i] == y;
  }

  lemma YearRaises(annual: seq<Fact>, y: int)
    requires MissingKeyInYear(annual, y)
    ensures ResolveYear(Group(annual, y), y).Raise?
  {
    var g := Group(annual, y);
    if g[0].start.Some? {
      DurationChoice(g, y);
    } else {
      InstantChoice(g, y);
    }
  }
}
