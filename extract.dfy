/**
 * `extract_metric` as the loops it is written as: the grouping loop that
 * fills `by_year`, the walk over the sorted years that fills `results`, and
 * the duration loop that fills `candidates`. Each is proved to compute what
 * the functions of `Resolution` specify.
 */
module Extract {
  import opened Wrappers
  import opened Calendar
  import opened Filings
  import opened Ordering
  import opened Resolution

  /**
   * The duration branch for one fiscal year: test every fact of the group,
   * keep the full-year ones with their sort key, sort stably, and take the
   * first. An exception ends the loop at once.
   */
  method PickDuration(group: seq<Fact>, year: int) returns (choice: Step<Option<Fact>>)
    requires group != [] && group[0].start.Some?
    ensures choice == ResolveYear(group, year)
  {
    var candidates: seq<Candidate> := [];
    var j := 0;
    while j < |group|
      invariant 0 <= j <= |group|
      invariant DurationCandidates(group[..j], year) == Ok(candidates)
    {
      var kept := Examine(group[j], year);
      assert AssessFor(year)(group[j]) == kept;
      if kept.Raise? {
        GatherStop(AssessFor(year), group, j);
        return Raise(kept.exc);
      }
      GatherExtend(AssessFor(year), group, j, candidates);
      candidates := candidates + Kept(kept.value);
      j := j + 1;
    }
    assert group[..j] == group;
    if candidates == [] {
      return Ok(None);
    }
    candidates := StableSorted(candidates);
    return Ok(Some(candidates[0].fact));
  }

  /**
   * One pass of the duration loop: parse `start` and `end`, compute the
   * span in days, and keep the fact with its sort key when it is a full
   * year close to `year`.
   */
  method Examine(filing: Fact, year: int) returns (kept: Step<Option<Candidate>>)
    ensures kept == Assess(filing, year)
  {
    if filing.start.None? {
      return Raise(KeyError);
    }
    var start := ParseDate(filing.start.value);
    if start.None? {
      return Raise(ValueError);
    }
    if filing.end.None? {
      return Raise(KeyError);
    }
    var end := ParseDate(filing.end.value);
    if end.None? {
      return Raise(ValueError);
    }
    var days := DaysBetween(start.value, end.value);
    if days >= 350 && start.value.year >= year - 1 && end.value.year >= year - 1 {
      var score := Abs(end.value.year - year);
      return Ok(Some(Candidate(filing, score, -days)));
    }
    return Ok(None);
  }

  /**
   * The branch for one fiscal year: a group whose first fact has `start` is
   * a duration metric, any other an instant metric whose most recently
   * filed fact is taken (`max` raises `KeyError` on a fact without `filed`).
   */
  method PickYear(group: seq<Fact>, year: int) returns (choice: Step<Option<Fact>>)
    requires group != []
    ensures choice == ResolveYear(group, year)
  {
    if group[0].start.Some? {
      choice := PickDuration(group, year);
    } else if forall f :: f in group ==> f.filed.Some? {
      choice := Ok(Some(group[MaxFiledIndex(group)]));
    } else {
      choice := Raise(KeyError);
    }
  }

  /**
   * The grouping loop: `by_year` with every annual fact appended to its
   * fiscal year, or `None` when a fact has no `fy` (the `KeyError`).
   */
  method GroupByYear(annual: seq<Fact>) returns (byYear: Option<map<int, seq<Fact>>>)
    ensures byYear.Some? <==> AllHaveYear(annual)
    ensures byYear.Some? ==> byYear.value == ByYear(annual)
  {
    var groups: map<int, seq<Fact>> := map[];
    var i := 0;
    while i < |annual|
      invariant 0 <= i <= |annual|
      invariant AllHaveYear(annual[..i])
      invariant groups == ByYear(annual[..i])
    {
      var filing := annual[i];
      if filing.fy.None? {
        assert !AllHaveYear(annual);
        return None;
      }
      var year := filing.fy.value;
      assert annual[..i + 1][..i] == annual[..i];
      groups := groups[year := (if year in groups then groups[year] else []) + [filing]];
      i := i + 1;
    }
    assert annual[..i] == annual;
    return Some(groups);
  }

  /**
   * The year loop: walk the years in order, appending each year's choice to
   * `results`; the first exception ends the walk.
   */
  method ResolveAll(byYear: map<int, seq<Fact>>, years: seq<int>) returns (results: Step<seq<Fact>>)
    requires forall y :: y in years ==> y in byYear && byYear[y] != []
    ensures results == ResolveYears(byYear, years)
  {
    var picked: seq<Fact> := [];
    var k := 0;
    while k < |years|
      invariant 0 <= k <= |years|
      invariant ResolveYears(byYear, years[..k]) == Ok(picked)
    {
      var year := years[k];
      var choice := PickYear(byYear[year], year);
      assert YearChoice(byYear, year) == choice;
      if choice.Raise? {
        ResolveYearsStop(byYear, years, k);
        return Raise(choice.exc);
      }
      ResolveYearsExtend(byYear, years, k, picked);
      picked := picked + Kept(choice.value);
      k := k + 1;
    }
    assert years[..k] == years;
    return Ok(picked);
  }

  /** `extract_metric(data, metric_name)`, with its `KeyError` handler. */
  method ExtractMetric(data: CompanyFacts, metric: string) returns (out: Outcome)
    ensures out == ExtractSpec(data, metric)
  {
    var filings := UsdFilings(data, metric);
    if filings.None? {
      return Returned([]);
    }
    var annual := Annual(filings.value);
    var byYear := GroupByYear(annual);
    if byYear.None? {
      return Returned([]);
    }
    var years := SortedYears(byYear.value.Keys);
    var results := ResolveAll(byYear.value, years);
    if results.Ok? {
      return Returned(results.value);
    } else if results.exc == KeyError {
      return Returned([]);
    }
    return RaisesValueError;
  }
}
