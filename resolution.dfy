/**
 * What `extract_metric` computes, as functions: the per-fact test of the
 * duration loop, the choice of one fact per fiscal year, the walk over the
 * years in ascending order, and the whole call with its exception handling.
 * Evaluation order is kept, because the first exception raised decides the
 * outcome: a `KeyError` is caught and turns the call into `[]`, a
 * `ValueError` escapes.
 */
module Resolution {
  import opened Wrappers
  import opened Calendar
  import opened Filings
  import opened Ordering

  datatype Exception = KeyError | ValueError

  /** A computation that yields a value or raises. */
  datatype Step<T> = Ok(value: T) | Raise(exc: Exception)

  /** What a call does: return a list, or let a `ValueError` escape. */
  datatype Outcome = Returned(records: seq<Fact>) | RaisesValueError

  function Abs(x: int): int {
    if x < 0 then -x else x
  }

  /**
   * Both dates of `f` parse, it spans at least 350 days, and both its start
   * and end years are at least `fy - 1`.
   */
  predicate FullYearFor(f: Fact, fy: int) {
    f.start.Some? && f.end.Some?
    && var s, e := ParseDate(f.start.value), ParseDate(f.end.value);
    s.Some? && e.Some?
    && DaysBetween(s.value, e.value) >= 350 && s.value.year >= fy - 1 && e.value.year >= fy - 1
  }

  /** The sort entry `(filing, abs(end.year - fy), -days)` of a full-year fact. */
  function RankOf(f: Fact, fy: int): Candidate
    requires FullYearFor(f, fy)
  {
    var s, e := ParseDate(f.start.value).value, ParseDate(f.end.value).value;
    Candidate(f, Abs(e.year - fy), -DaysBetween(s, e))
  }

  /**
   * One pass of the duration loop over fact `f`: read and parse `start`,
   * then read and parse `end`, then keep the fact if it is a full year.
   */
  function Assess(f: Fact, fy: int): Step<Option<Candidate>> {
    if f.start.None? then Raise(KeyError)
    else if ParseDate(f.start.value).None? then Raise(ValueError)
    else if f.end.None? then Raise(KeyError)
    else if ParseDate(f.end.value).None? then Raise(ValueError)
    else if FullYearFor(f, fy) then Ok(Some(RankOf(f, fy)))
    else Ok(None)
  }

  /**
   * The list a loop builds by running `step` on each element of `xs` in
   * turn and appending what it yields; the first exception ends the loop.
   */
  function Gather<X, Y(==)>(step: X -> Step<Option<Y>>, xs: seq<X>): (r: Step<seq<Y>>)
    ensures r.Ok? <==> forall j :: 0 <= j < |xs| ==> step(xs[j]).Ok?
    ensures r.Ok? ==> (r.value == [] <==> forall j :: 0 <= j < |xs| ==> step(xs[j]) == Ok(None))
    ensures r.Ok? ==> forall y :: y in r.value ==> exists j :: 0 <= j < |xs| && step(xs[j]) == Ok(Some(y))
    ensures r.Raise? ==> exists i :: 0 <= i < |xs| && step(xs[i]) == Raise(r.exc)
                                && forall j :: 0 <= j < i ==> step(xs[j]).Ok?
  {
    if xs == [] then Ok([])
    else
      var p := xs[..|xs| - 1];
      assert forall j :: 0 <= j < |p| ==> p[j] == xs[j];
      var prior := Gather(step, p);
      var last := step(xs[|xs| - 1]);
      if prior.Raise? then prior
      else if last.Raise? then Raise(last.exc)
      else if last.value.None? then prior
      else Ok(prior.value + [last.value.value])
  }

  /** The `candidates` list the duration loop builds from `group`. */
  function DurationCandidates(group: seq<Fact>, fy: int): Step<seq<Candidate>> {
    Gather(AssessFor(fy), group)
  }

  /** The duration loop's test of one fact, for fiscal year `fy`. */
  function AssessFor(fy: int): Fact -> Step<Option<Candidate>> {
    f => Assess(f, fy)
  }

  /**
   * The choice for one fiscal year. The first fact decides the kind: with a
   * `start` key the group is a duration metric and yields the head of the
   * sorted candidates (nothing if there are none); otherwise it is an
   * instant metric and yields the fact with the greatest `filed`.
   */
  function ResolveYear(group: seq<Fact>, fy: int): Step<Option<Fact>>
    requires group != []
  {
    if group[0].start.Some? then
      var candidates := DurationCandidates(group, fy);
      if candidates.Raise? then Raise(candidates.exc)
      else if candidates.value == [] then Ok(None)
      else Ok(Some(StableSorted(candidates.value)[0].fact))
    else if forall f :: f in group ==> f.filed.Some? then Ok(Some(group[MaxFiledIndex(group)]))
    else Raise(KeyError)
  }

  /** The choice for year `y` of the grouped facts `m`; every year walked is a key of `m`. */
  function YearChoice(m: map<int, seq<Fact>>, y: int): Step<Option<Fact>> {
    if y in m && m[y] != [] then ResolveYear(m[y], y) else Ok(None)
  }

  /** The `results` list after the loop has walked the years `ys`. */
  function ResolveYears(m: map<int, seq<Fact>>, ys: seq<int>): Step<seq<Fact>> {
    Gather(ChoiceIn(m), ys)
  }

  /** The year loop's choice for one year of `m`. */
  function ChoiceIn(m: map<int, seq<Fact>>): int -> Step<Option<Fact>> {
    y => YearChoice(m, y)
  }

  /** The body of the `try` block of `extract_metric(data, metric)`. */
  function TryExtract(data: CompanyFacts, metric: string): Step<seq<Fact>> {
    var filings := UsdFilings(data, metric);
    if filings.None? then Raise(KeyError)
    else
      var annual := Annual(filings.value);
      if !AllHaveYear(annual) then Raise(KeyError)
      else
        var m := ByYear(annual);
        ResolveYears(m, SortedYears(m.Keys))
  }

  /** `extract_metric(data, metric)`: a `KeyError` is caught and yields `[]`. */
  function ExtractSpec(data: CompanyFacts, metric: string): Outcome {
    var body := TryExtract(data, metric);
    if body.Ok? then Returned(body.value)
    else if body.exc == KeyError then Returned([])
    else RaisesValueError
  }

  /** The fact of `rs` for fiscal year `y`, if there is one. */
  function EntryFor(rs: seq<Fact>, y: int): Option<Fact> {
    if rs == [] then None
    else if rs[|rs| - 1].fy == Some(y) then Some(rs[|rs| - 1])
    else EntryFor(rs[..|rs| - 1], y)
  }

  predicate StrictlyAscending(rs: seq<Fact>) {
    forall i, j :: 0 <= i < j < |rs| ==> rs[i].fy.Some? && rs[j].fy.Some? && rs[i].fy.value < rs[j].fy.value
  }

  /** Whatever `pick` yields for a year is a fact of that fiscal year. */
  predicate PicksOwnYear(pick: int -> Step<Option<Fact>>, ys: seq<int>) {
    forall i :: 0 <= i < |ys| && pick(ys[i]).Ok? && pick(ys[i]).value.Some? ==> pick(ys[i]).value.value.fy == Some(ys[i])
  }

  lemma {:induction false} EntryForAbsent(rs: seq<Fact>, y: int)
    requires forall r :: r in rs ==> r.fy != Some(y)
    ensures EntryFor(rs, y) == None
  {
    if rs != [] {
      assert rs[|rs| - 1] in rs;
      assert forall r :: r in rs[..|rs| - 1] ==> r in rs;
      EntryForAbsent(rs[..|rs| - 1], y);
    }
  }

  /** Walking strictly ascending years, each yielding a fact of its own year, gives facts strictly ascending by year. */
  lemma {:induction false} WalkAscending(pick: int -> Step<Option<Fact>>, ys: seq<int>)
    requires forall i, j :: 0 <= i < j < |ys| ==> ys[i] < ys[j]
    requires PicksOwnYear(pick, ys) && Gather(pick, ys).Ok?
    ensures StrictlyAscending(Gather(pick, ys).value)
    ensures forall r :: r in Gather(pick, ys).value ==> r.fy.Some? && r.fy.value in ys
  {
    if ys != [] {
      var p := ys[..|ys| - 1];
      var y := ys[|ys| - 1];
      assert forall i :: 0 <= i < |p| ==> p[i] == ys[i];
      WalkAscending(pick, p);
      var prev := Gather(pick, p).value;
      var rs := Gather(pick, ys).value;
      var o := pick(y);
      if o.value.Some? {
        var r := o.value.value;
        assert rs == prev + [r];
        assert r.fy == Some(y);
        forall i, j | 0 <= i < j < |rs|
          ensures rs[i].fy.Some? && rs[j].fy.Some? && rs[i].fy.value < rs[j].fy.value
        {
          if j == |prev| {
            assert rs[i] in prev;
          }
        }
      } else {
        assert rs == prev;
      }
    }
  }

  /** Each year of `ys` has as its entry in `rs` exactly what `pick` yields for it. */
  predicate Entries(pick: int -> Step<Option<Fact>>, ys: seq<int>, rs: seq<Fact>) {
    forall i :: 0 <= i < |ys| ==> pick(ys[i]) == Ok(EntryFor(rs, ys[i]))
  }

  /** What one step of a loop appends: the item yielded, or nothing. */
  function Kept<Y>(o: Option<Y>): seq<Y> {
    if o.Some? then [o.value] else []
  }

  /**
   * After a walk over strictly ascending years, each yielding a fact of its
   * own year, the entry of each year is exactly that year's choice: a year
   * that yields nothing has no entry, and the other years are unaffected.
   */
  lemma {:induction false} WalkEntries(pick: int -> Step<Option<Fact>>, ys: seq<int>)
    requires forall i, j :: 0 <= i < j < |ys| ==> ys[i] < ys[j]
    requires PicksOwnYear(pick, ys) && Gather(pick, ys).Ok?
    ensures Entries(pick, ys, Gather(pick, ys).value)
  {
    if ys != [] {
      var p := ys[..|ys| - 1];
      var y := ys[|ys| - 1];
      assert ys == p + [y];
      assert forall i :: 0 <= i < |p| ==> p[i] == ys[i];
      WalkEntries(pick, p);
      WalkAscending(pick, p);
      var prev := Gather(pick, p).value;
      forall r | r in prev
        ensures r.fy != Some(y)
      {
      }
      var o := pick(y).value;
      assert Gather(pick, ys).value == prev + Kept(o);
      EntriesStep(pick, p, y, prev, o);
    }
  }

  /** One more year, later than all before it, adds its own entry and leaves the others. */
  lemma EntriesStep(pick: int -> Step<Option<Fact>>, p: seq<int>, y: int, prev: seq<Fact>, o: Option<Fact>)
    requires Entries(pick, p, prev)
    requires forall i :: 0 <= i < |p| ==> p[i] < y
    requires forall r :: r in prev ==> r.fy != Some(y)
    requires pick(y) == Ok(o) && (o.Some? ==> o.value.fy == Some(y))
    ensures Entries(pick, p + [y], prev + Kept(o))
  {
    EntryForAbsent(prev, y);
    var ys := p + [y];
    var rs := prev + Kept(o);
    forall i | 0 <= i < |ys|
      ensures pick(ys[i]) == Ok(EntryFor(rs, ys[i]))
    {
      if o.Some? {
        EntryForAppend(prev, o.value, ys[i]);
      } else {
        assert rs == prev;
      }
      if i < |p| {
        assert ys[i] == p[i];
      }
    }
  }

  lemma EntryForAppend(rs: seq<Fact>, r: Fact, y: int)
    ensures EntryFor(rs + [r], y) == if r.fy == Some(y) then Some(r) else EntryFor(rs, y)
  {
    assert (rs + [r])[..|rs|] == rs;
  }

  /** One more element that does not raise extends the loop's list by what it yields. */
  lemma GatherExtend<X, Y>(step: X -> Step<Option<Y>>, xs: seq<X>, k: nat, ys: seq<Y>)
    requires k < |xs| && Gather(step, xs[..k]) == Ok(ys) && step(xs[k]).Ok?
    ensures Gather(step, xs[..k + 1]) == Ok(ys + Kept(step(xs[k]).value))
  {
    assert xs[..k + 1][..k] == xs[..k];
    assert ys + [] == ys;
  }

  /** An element that raises, after elements that did not, ends the loop with its exception. */
  lemma GatherStop<X, Y>(step: X -> Step<Option<Y>>, xs: seq<X>, k: nat)
    requires k < |xs| && Gather(step, xs[..k]).Ok? && step(xs[k]).Raise?
    ensures Gather(step, xs) == Raise(step(xs[k]).exc)
  {
    assert xs[..k + 1][..k] == xs[..k];
    GatherFirstRaise(step, xs, k);
  }

  /** The year loop extended by one year whose choice does not raise. */
  lemma ResolveYearsExtend(m: map<int, seq<Fact>>, ys: seq<int>, k: nat, picked: seq<Fact>)
    requires k < |ys| && ResolveYears(m, ys[..k]) == Ok(picked) && YearChoice(m, ys[k]).Ok?
    ensures ResolveYears(m, ys[..k + 1]) == Ok(picked + Kept(YearChoice(m, ys[k]).value))
  {
    assert ChoiceIn(m)(ys[k]) == YearChoice(m, ys[k]);
    GatherExtend(ChoiceIn(m), ys, k, picked);
  }

  /** The year loop ends with the exception of the first year whose choice raises. */
  lemma ResolveYearsStop(m: map<int, seq<Fact>>, ys: seq<int>, k: nat)
    requires k < |ys| && ResolveYears(m, ys[..k]).Ok? && YearChoice(m, ys[k]).Raise?
    ensures ResolveYears(m, ys) == Raise(YearChoice(m, ys[k]).exc)
  {
    assert ChoiceIn(m)(ys[k]) == YearChoice(m, ys[k]);
    GatherStop(ChoiceIn(m), ys, k);
  }

  /** An exception at element `k` ends the loop with that exception. */
  lemma {:induction false} GatherFirstRaise<X, Y>(step: X -> Step<Option<Y>>, xs: seq<X>, k: nat)
    requires k < |xs|
    requires Gather(step, xs[..k + 1]).Raise?
    ensures Gather(step, xs) == Gather(step, xs[..k + 1])
    decreases |xs|
  {
    if |xs| > k + 1 {
      var p := xs[..|xs| - 1];
      assert p[..k + 1] == xs[..k + 1];
      GatherFirstRaise(step, p, k);
    } else {
      assert xs[..k + 1] == xs;
    }
  }

  /**
   * The entry `c` comes from fact `i` of `g`, ranks no worse than any entry
   * `assess` keeps from `g`, and strictly better than every kept entry of a
   * fact before `i`.
   */
  predicate BestAt(assess: Fact -> Step<Option<Candidate>>, g: seq<Fact>, c: Candidate, i: int) {
    0 <= i < |g| && assess(g[i]) == Ok(Some(c))
    && (forall j :: 0 <= j < |g| && assess(g[j]).Ok? && assess(g[j]).value.Some? ==> RankLe(c, assess(g[j]).value.value))
    && (forall j :: 0 <= j < i && assess(g[j]).Ok? && assess(g[j]).value.Some? ==> RankLess(c, assess(g[j]).value.value))
  }

  /** The first smallest candidate the loop collects is the best entry of the group, earliest on ties. */
  lemma {:induction false} GatherBest(assess: Fact -> Step<Option<Candidate>>, g: seq<Fact>)
    requires Gather(assess, g).Ok? && Gather(assess, g).value != []
    ensures var cs := Gather(assess, g).value; exists i :: BestAt(assess, g, cs[FirstMinimal(cs)], i)
  {
    var p := g[..|g| - 1];
    var x := g[|g| - 1];
    assert g == p + [x];
    var prev := Gather(assess, p).value;
    var cs := Gather(assess, g).value;
    var o := assess(x);
    if o == Ok(None) {
      assert cs == prev;
      GatherBest(assess, p);
      var i :| BestAt(assess, p, prev[FirstMinimal(prev)], i);
      BestAtSkip(assess, p, x, prev[FirstMinimal(prev)], i);
    } else if prev == [] {
      assert cs == [o.value.value];
      assert FirstMinimal(cs) == 0;
      assert forall j :: 0 <= j < |p| ==> assess(p[j]) == Ok(None);
      BestAtFresh(assess, p, x);
      assert BestAt(assess, g, cs[FirstMinimal(cs)], |p|);
    } else {
      var cx := o.value.value;
      assert cs == prev + [cx];
      GatherBest(assess, p);
      var k := FirstMinimal(prev);
      var i :| BestAt(assess, p, prev[k], i);
      FirstMinimalAppend(prev, cx);
      if RankLess(cx, prev[k]) {
        BestAtOvertaken(assess, p, x, prev[k], i);
      } else {
        BestAtKept(assess, p, x, prev[k], i);
      }
    }
  }

  lemma BestAtSkip(assess: Fact -> Step<Option<Candidate>>, p: seq<Fact>, x: Fact, c: Candidate, i: int)
    requires BestAt(assess, p, c, i) && assess(x) == Ok(None)
    ensures BestAt(assess, p + [x], c, i)
  {
    assert forall j :: 0 <= j < |p| ==> (p + [x])[j] == p[j];
  }

  lemma BestAtFresh(assess: Fact -> Step<Option<Candidate>>, p: seq<Fact>, x: Fact)
    requires forall j :: 0 <= j < |p| ==> assess(p[j]) == Ok(None)
    requires assess(x).Ok? && assess(x).value.Some?
    ensures BestAt(assess, p + [x], assess(x).value.value, |p|)
  {
    assert forall j :: 0 <= j < |p| ==> (p + [x])[j] == p[j];
  }

  lemma BestAtOvertaken(assess: Fact -> Step<Option<Candidate>>, p: seq<Fact>, x: Fact, c: Candidate, i: int)
    requires BestAt(assess, p, c, i)
    requires assess(x).Ok? && assess(x).value.Some? && RankLess(assess(x).value.value, c)
    ensures BestAt(assess, p + [x], assess(x).value.value, |p|)
  {
    assert forall j :: 0 <= j < |p| ==> (p + [x])[j] == p[j];
  }

  lemma BestAtKept(assess: Fact -> Step<Option<Candidate>>, p: seq<Fact>, x: Fact, c: Candidate, i: int)
    requires BestAt(assess, p, c, i)
    requires assess(x).Ok? && assess(x).value.Some? && !RankLess(assess(x).value.value, c)
    ensures BestAt(assess, p + [x], c, i)
  {
    assert forall j :: 0 <= j < |p| ==> (p + [x])[j] == p[j];
  }

  /** Both dates of `f` are present and parse. */
  predicate Dated(f: Fact) {
    f.start.Some? && f.end.Some? && ParseDate(f.start.value).Some? && ParseDate(f.end.value).Some?
  }

  /** Reading the dates of `f` meets a malformed date before any missing key. */
  predicate RaisesOnDate(f: Fact) {
    f.start.Some? && (ParseDate(f.start.value).None? || (f.end.Some? && ParseDate(f.end.value).None?))
  }

  /** What one pass of the duration loop does with a fact. */
  lemma AssessMeaning(f: Fact, fy: int)
    ensures Assess(f, fy).Ok? <==> Dated(f)
    ensures Assess(f, fy) == Raise(ValueError) <==> RaisesOnDate(f)
    ensures Assess(f, fy).Ok? ==> (Assess(f, fy).value.Some? <==> FullYearFor(f, fy))
    ensures FullYearFor(f, fy) ==> Assess(f, fy) == Ok(Some(RankOf(f, fy))) && RankOf(f, fy).fact == f
  {
  }

  /**
   * Fact `i` is a full year for `fy`, ranks no worse than any full-year fact
   * of the group and strictly better than every full-year fact before it.
   */
  predicate BestFullYear(group: seq<Fact>, fy: int, i: int) {
    0 <= i < |group| && FullYearFor(group[i], fy)
    && (forall j :: 0 <= j < |group| && FullYearFor(group[j], fy) ==> RankLe(RankOf(group[i], fy), RankOf(group[j], fy)))
    && (forall j :: 0 <= j < i && FullYearFor(group[j], fy) ==> RankLess(RankOf(group[i], fy), RankOf(group[j], fy)))
  }

  lemma BestAtFullYear(group: seq<Fact>, fy: int, c: Candidate, i: int)
    requires BestAt(AssessFor(fy), group, c, i)
    ensures BestFullYear(group, fy, i) && c.fact == group[i]
  {
    forall j | 0 <= j < |group|
      ensures AssessFor(fy)(group[j]) == Assess(group[j], fy)
    {
      AssessMeaning(group[j], fy);
    }
    AssessMeaning(group[i], fy);
  }

  /**
   * A duration year: the choice fails exactly when some fact lacks a date or
   * has a malformed one, with the exception of the first such fact; it is
   * nothing exactly when no fact is a full year; otherwise it is the first
   * best-ranked full-year fact.
   */
  lemma DurationChoice(group: seq<Fact>, fy: int)
    requires group != [] && group[0].start.Some?
    ensures ResolveYear(group, fy).Ok? <==> forall j :: 0 <= j < |group| ==> Dated(group[j])
    ensures ResolveYear(group, fy).Raise? ==>
      exists i :: 0 <= i < |group| && !Dated(group[i]) && (forall j :: 0 <= j < i ==> Dated(group[j]))
        && (ResolveYear(group, fy).exc == ValueError <==> RaisesOnDate(group[i]))
    ensures ResolveYear(group, fy) == Ok(None) <==>
      forall j :: 0 <= j < |group| ==> Dated(group[j]) && !FullYearFor(group[j], fy)
    ensures ResolveYear(group, fy).Ok? && ResolveYear(group, fy).value.Some? ==>
      exists i :: BestFullYear(group, fy, i) && ResolveYear(group, fy).value.value == group[i]
  {
    var assess := AssessFor(fy);
    forall j | 0 <= j < |group|
      ensures assess(group[j]) == Assess(group[j], fy)
      ensures Assess(group[j], fy).Ok? <==> Dated(group[j])
      ensures Assess(group[j], fy) == Raise(ValueError) <==> RaisesOnDate(group[j])
      ensures Assess(group[j], fy) == Ok(None) <==> Dated(group[j]) && !FullYearFor(group[j], fy)
    {
      AssessMeaning(group[j], fy);
    }
    var r := DurationCandidates(group, fy);
    if r.Ok? && r.value != [] {
      var cs := r.value;
      GatherBest(assess, group);
      var i :| BestAt(assess, group, cs[FirstMinimal(cs)], i);
      StableSortedHead(cs);
      BestAtFullYear(group, fy, cs[FirstMinimal(cs)], i);
    }
  }

  /**
   * An instant year: the choice fails with a `KeyError` exactly when some
   * fact lacks `filed`; otherwise it is the first fact with the greatest
   * `filed`.
   */
  lemma InstantChoice(group: seq<Fact>, fy: int)
    requires group != [] && group[0].start.None?
    ensures ResolveYear(group, fy).Ok? <==> forall j :: 0 <= j < |group| ==> group[j].filed.Some?
    ensures ResolveYear(group, fy).Raise? ==> ResolveYear(group, fy).exc == KeyError
    ensures ResolveYear(group, fy).Ok? ==>
      exists i :: 0 <= i < |group| && ResolveYear(group, fy).value == Some(group[i])
        && (forall j :: 0 <= j < |group| ==> !StrLess(group[i].filed.value, group[j].filed.value))
        && (forall j :: 0 <= j < i ==> StrLess(group[j].filed.value, group[i].filed.value))
  {
    if forall f :: f in group ==> f.filed.Some? {
      var i := MaxFiledIndex(group);
      assert ResolveYear(group, fy).value == Some(group[i]);
    } else {
      var f :| f in group && f.filed.None?;
    }
  }

  /** The year's choice is one of the year's facts. */
  lemma ResolveYearInGroup(group: seq<Fact>, fy: int)
    requires group != [] && ResolveYear(group, fy).Ok? && ResolveYear(group, fy).value.Some?
    ensures ResolveYear(group, fy).value.value in group
  {
    if group[0].start.Some? {
      DurationChoice(group, fy);
    } else {
      InstantChoice(group, fy);
    }
  }

  /** A `ValueError` from a year's choice comes from a malformed date of one of its facts. */
  lemma ResolveYearValueError(group: seq<Fact>, fy: int)
    requires group != [] && ResolveYear(group, fy) == Raise(ValueError)
    ensures exists f :: f in group && RaisesOnDate(f)
  {
    if group[0].start.Some? {
      DurationChoice(group, fy);
    } else {
      InstantChoice(group, fy);
    }
  }
}
