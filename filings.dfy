/**
 * The company-facts document of the SEC EDGAR API, reduced to the parts the
 * extraction reads, and the pure first stages of the extraction: the lookup
 * of a concept's USD records, the annual filter and the grouping by fiscal
 * year.
 */
module Filings {
  import opened Wrappers

  /**
   * One reported fact. Every field is a key of the JSON object that may be
   * absent; `None` stands for the missing key.
   */
  datatype Fact = Fact(
    form: Option<string>,
    fp: Option<string>,
    fy: Option<int>,
    start: Option<string>,
    end: Option<string>,
    filed: Option<string>,
    val: Option<real>)

  /** A concept's entry: its `units` object maps a unit name to its facts. */
  datatype ConceptEntry = ConceptEntry(units: Option<map<string, seq<Fact>>>)

  /** The document: `facts` maps a taxonomy to its concepts. */
  datatype CompanyFacts = CompanyFacts(facts: Option<map<string, map<string, ConceptEntry>>>)

  /**
   * `data['facts']['us-gaap'][metric]['units']['USD']`; `None` when any of
   * the five keys is missing (the `KeyError`).
   */
  function UsdFilings(data: CompanyFacts, metric: string): Option<seq<Fact>> {
    if data.facts.None? || "us-gaap" !in data.facts.value then None
    else
      var concepts := data.facts.value["us-gaap"];
      if metric !in concepts || concepts[metric].units.None? then None
      else
        var units := concepts[metric].units.value;
        if "USD" !in units then None else Some(units["USD"])
  }

  /** `f.get('form') == '10-K' and f.get('fp') == 'FY'` */
  predicate IsAnnual(f: Fact) {
    f.form == Some("10-K") && f.fp == Some("FY")
  }

  /** The annual facts of `s`, in their order. */
  function Annual(s: seq<Fact>): (r: seq<Fact>)
    ensures forall f :: f in r <==> f in s && IsAnnual(f)
  {
    if s == [] then []
    else Annual(s[..|s| - 1]) + (if IsAnnual(s[|s| - 1]) then [s[|s| - 1]] else [])
  }

  /** No fact lacks the `fy` key. */
  predicate AllHaveYear(s: seq<Fact>) {
    forall f :: f in s ==> f.fy.Some?
  }

  /** The facts of `s` whose fiscal year is `y`, in their order. */
  function Group(s: seq<Fact>, y: int): (r: seq<Fact>)
    ensures forall f :: f in r <==> f in s && f.fy == Some(y)
  {
    if s == [] then []
    else Group(s[..|s| - 1], y) + (if s[|s| - 1].fy == Some(y) then [s[|s| - 1]] else [])
  }

  /** The fiscal years that occur in `s`. */
  function YearsOf(s: seq<Fact>): set<int> {
    set f | f in s && f.fy.Some? :: f.fy.value
  }

  /** `by_year[f['fy']].append(f)` on the grouped facts `m`. */
  function AddToYear(m: map<int, seq<Fact>>, f: Fact): map<int, seq<Fact>>
    requires f.fy.Some?
  {
    var y := f.fy.value;
    m[y := (if y in m then m[y] else []) + [f]]
  }

  /**
   * `by_year` after the grouping loop has appended the facts of `s` in turn:
   * each fiscal year of `s` mapped to the facts of that year, in their order.
   */
  function ByYear(s: seq<Fact>): (m: map<int, seq<Fact>>)
    ensures m.Keys == YearsOf(s)
    ensures forall y :: y in m ==> m[y] == Group(s, y) && m[y] != []
  {
    if s == [] then map[]
    else
      var p, f := s[..|s| - 1], s[|s| - 1];
      assert s == p + [f];
      GroupedStep(p, f, ByYear(p));
      if f.fy.None? then ByYear(p) else AddToYear(ByYear(p), f)
  }

  /** Appending one more fact keeps the grouped facts equal to the groups of each year. */
  lemma GroupedStep(p: seq<Fact>, f: Fact, m: map<int, seq<Fact>>)
    requires m.Keys == YearsOf(p)
    requires forall y :: y in m ==> m[y] == Group(p, y) && m[y] != []
    ensures var n := if f.fy.None? then m else AddToYear(m, f);
      n.Keys == YearsOf(p + [f]) && forall y :: y in n ==> n[y] == Group(p + [f], y) && n[y] != []
  {
    var n := if f.fy.None? then m else AddToYear(m, f);
    YearsOfAppend(p, f);
    assert n.Keys == YearsOf(p + [f]);
    forall y | y in n
      ensures n[y] == Group(p + [f], y) && n[y] != []
    {
      GroupAppend(p, f, y);
      if y !in YearsOf(p) {
        GroupOutside(p, y);
      }
    }
  }

  lemma GroupAppend(s: seq<Fact>, f: Fact, y: int)
    ensures Group(s + [f], y) == Group(s, y) + (if f.fy == Some(y) then [f] else [])
  {
    assert (s + [f])[..|s|] == s;
  }

  lemma YearsOfAppend(s: seq<Fact>, f: Fact)
    ensures YearsOf(s + [f]) == YearsOf(s) + (if f.fy.Some? then {f.fy.value} else {})
  {
    forall g | g in s + [f] ensures g in s || g == f { }
  }

  lemma GroupOutside(s: seq<Fact>, y: int)
    requires y !in YearsOf(s)
    ensures Group(s, y) == []
  {
    assert forall f :: f in s && f.fy.Some? ==> f.fy.value in YearsOf(s);
    assert forall i :: 0 <= i < |Group(s, y)| ==> Group(s, y)[i] in Group(s, y);
  }
}
