# Annual figures from SEC EDGAR company facts, in Dafny

This project models the core of `step2.py`: `extract_metric(data, metric_name)`,
which takes a company-facts document of the SEC EDGAR API and returns one
annual record per fiscal year for a US-GAAP concept, and the year-over-year
growth rule of `display_net_income`.

`extract_metric` reads `data['facts']['us-gaap'][metric]['units']['USD']`,
keeps the records of 10-K reports with fiscal period `FY`, groups them by
fiscal year (`fy`), and walks the years in ascending order. For each year:

- when the year's first record has a `start` date, the concept is a duration
  metric. Every record of the year has its `start` and `end` parsed with
  `strptime('%Y-%m-%d')`. A record spanning at least 350 days whose start and
  end years are both at least `fy - 1` becomes a candidate, keyed by
  `(abs(end.year - fy), -days)`. The first candidate after a stable sort is
  the year's record; no candidate means no record for that year;
- otherwise the concept is an instant metric and the year's record is the
  one with the greatest `filed` string (the first such, as Python's `max`).

A `KeyError` anywhere in the `try` block (a missing key of the document or of
a record) makes the call return `[]`. A `ValueError` from `strptime` escapes.
The first exception in execution order decides which of the two happens, and
the model keeps that order.

The model is layered:

- `Filings` holds the document, the records and the pure first stages: the
  USD lookup, the annual filter, the grouping.
- `Calendar` holds dates: `strptime` on `%Y-%m-%d` and the day count of
  `(end - start).days`.
- `Ordering` holds Python's string order for `filed`, `max`, the stable
  `list.sort` by `(score, -days)`, and `sorted` on the years.
- `Resolution` holds the specification as functions: the test of one record,
  the choice for one year, the walk over the years, and the whole call
  `ExtractSpec` with its exception handling.
- `Extract` holds the loops of `extract_metric` as methods. Each is proved
  equal to its specification function.
- `Guarantees` holds what the call promises its callers, proved of
  `ExtractSpec`.
- `Growth` holds the growth of each record over the previous one.

For a fiscal year running from 2020-10-01 to 2021-09-30, `(end - start).days`
is 364 (`Calendar.DaysBetween`), which passes the `days >= 350` test.

## Model

| member | source | states |
|---|---|---|
| Extract.ExtractMetric | step2.py:19-64 | the method computes exactly `ExtractSpec`: the records, `[]` on a caught `KeyError`, or an escaping `ValueError` |
| Extract.GroupByYear | step2.py:29-31 | the grouping loop succeeds iff every annual record has `fy`, and then yields the map from each year to that year's records in input order |
| Extract.ResolveAll | step2.py:33-34 | the loop over the sorted years builds the same list as the walk `ResolveYears`, and ends with the first year's exception |
| Extract.PickYear | step2.py:37-58 | the branch for one year (duration if the first record has `start`, instant otherwise) yields that year's specified choice |
| Extract.PickDuration | step2.py:39-54 | the candidate loop, the stable sort and the head give the year's specified choice, and the first failing record's exception ends it |
| Extract.Examine | step2.py:42-50 | one pass over a record: the `KeyError`/`ValueError` of the first date missing or malformed, else the record with its key when it is a full year, else nothing |
| Resolution.Gather | step2.py:41-50 | a loop appending what each step yields succeeds iff every step does; it is empty iff every step yields nothing; each element comes from some step; on failure it carries the exception of the first failing step |
| Resolution.AssessMeaning | step2.py:42-50 | testing a record succeeds iff both dates are present and parse; `ValueError` iff a date read before any missing one is malformed; it keeps the record iff it is a full year, with the key `(abs(end.year - fy), -days)` |
| Resolution.DurationChoice | step2.py:39-54 | a duration year succeeds iff every record has two well-formed dates; otherwise the first record that does not have them decides, with `ValueError` iff it raises on a date; no record iff none is a full year; else the first full-year record of least key |
| Resolution.InstantChoice | step2.py:55-58 | an instant year succeeds iff every record has `filed`, and otherwise raises `KeyError`; its record is the first with the greatest `filed` |
| Resolution.ResolveYearInGroup | step2.py:37-58 | a year's record is one of that year's records |
| Resolution.ResolveYearValueError | step2.py:43-44 | a year raises `ValueError` only if one of its records has a malformed date |
| Resolution.WalkAscending | step2.py:33-34 | walking ascending years, each yielding a record of its own year, gives records in strictly ascending `fy`, each from a walked year |
| Resolution.WalkEntries | step2.py:33-34 | after such a walk each year's entry in the result is exactly that year's own choice |
| Resolution.EntriesStep | step2.py:54 | appending a later year's choice adds that year's entry and leaves the earlier years' entries unchanged |
| Resolution.GatherBest | step2.py:52-54 | the first minimal candidate of the loop's list comes from a record whose key is least, and strictly less than the keys of all records before it |
| Resolution.BestAtFullYear | step2.py:48-54 | the best candidate is a full-year record ranking no worse than any full-year record of the year and strictly better than those before it |
| Resolution.GatherStop | step2.py:42-44 | a step that raises after steps that did not ends the loop with its exception |
| Resolution.GatherExtend | step2.py:50 | a step that does not raise extends the loop's list by what it yields |
| Resolution.ResolveYearsExtend | step2.py:52-58 | the year walk extended by a year that does not raise appends that year's record, if any |
| Resolution.ResolveYearsStop | step2.py:33-58 | the year walk ends with the exception of the first year that raises |
| Guarantees.ExtractReturnsAnnualInputs | step2.py:26-34 | returned records are input USD records of the concept from annual 10-K/FY reports, in strictly ascending fiscal-year order |
| Guarantees.ExtractPerYear | step2.py:29-58 | when the call completes, each fiscal year of the annual records has as its entry in the result exactly that year's own choice, independent of the other years |
| Guarantees.ValueErrorNeedsMalformedDate | step2.py:43-44 | a `ValueError` escapes only if the concept exists and some annual record has a malformed date read before any missing one |
| Guarantees.MissingKeyGivesEmpty | step2.py:25-64 | a missing concept or `USD` unit, a missing `fy`, or (with no malformed date) a missing date in a duration year or a missing `filed` in an instant year makes the call return `[]` |
| Guarantees.YearChoiceInGroup | step2.py:52-58 | a year's record has that fiscal year and comes from its group |
| Guarantees.YearRaises | step2.py:42-57 | a year holding a record without a date it reads (duration) or without `filed` (instant) raises |
| Guarantees.WalkRaises | step2.py:33-34 | a year that raises makes the whole walk over the years raise |
| Filings.Annual | step2.py:27 | a record is kept iff it is in the input and its form is `10-K` and its fiscal period `FY` |
| Filings.Group | step2.py:31 | a year's group holds exactly the input records with that `fy` |
| Filings.ByYear | step2.py:29-31 | the keys are exactly the years present, and each year maps to its non-empty group in input order |
| Filings.GroupAppend | step2.py:31 | appending a record extends only its own year's group |
| Ordering.SortedYears | step2.py:34 | holds exactly the given years, strictly ascending |
| Ordering.MaxFiledIndex | step2.py:57 | no record has a greater `filed` than the chosen one, and every record before it has a smaller one, as Python's `max` returns the first maximum |
| Ordering.StrLessTotal | step2.py:57 | Python's string order compares any two distinct `filed` strings |
| Ordering.StrLessTransitive | step2.py:57 | Python's string order is transitive |
| Ordering.StrLessIrreflexive | step2.py:57 | Python's string order is irreflexive |
| Ordering.StableSorted | step2.py:53 | the sorted candidates are a permutation of the candidates, ordered by `(score, -days)` |
| Ordering.InsertOrdered | step2.py:53 | inserting a candidate keeps an ordered list ordered |
| Ordering.StableSortedHead | step2.py:53-54 | the head after the stable sort is the first candidate of least key |
| Ordering.FirstMinimal | step2.py:53-54 | the index of a candidate ranking no worse than any other and strictly better than every one before it |
| Calendar.ParseFormatDate | step2.py:43-44 | any valid date with a four-digit year, written as `%Y-%m-%d`, parses back to itself |
| Calendar.ParseDate | step2.py:43-44 | a parsed date is a valid Gregorian date with year at most 9999 |
| Calendar.DayNumberDistance | step2.py:45 | the day count between a date and the date `k` days later is `k` |
| Calendar.DayNumberNextDay | step2.py:45 | the next day's number is one more |
| Calendar.YearLength | step2.py:45 | a year has 366 days if it is a leap year and 365 otherwise |
| Filings.UsdFilings | step2.py:26 | reference definition of the five-key lookup `data['facts']['us-gaap'][metric]['units']['USD']`, `None` on the `KeyError`; `Guarantees.MissingKeyGivesEmpty` and `Guarantees.ExtractReturnsAnnualInputs` state what the call does with it |
| Resolution.Assess | step2.py:42-50 | reference definition of one pass of the duration loop, reading `start` then `end` in the source's order; characterised by `Resolution.AssessMeaning` and implemented by `Extract.Examine` |
| Resolution.ResolveYear | step2.py:37-58 | reference definition of one fiscal year's choice; characterised by `Resolution.DurationChoice` and `Resolution.InstantChoice`, implemented by `Extract.PickYear` |
| Resolution.TryExtract | step2.py:25-60 | reference definition of the `try` block: lookup, annual filter, grouping and the walk over the sorted years; characterised by the `Guarantees` lemmas |
| Resolution.ExtractSpec | step2.py:25-64 | reference definition of the call with its handler: a `KeyError` gives `[]`, a `ValueError` escapes; characterised by the `Guarantees` lemmas, implemented by `Extract.ExtractMetric` |
| Calendar.DayNumber | step2.py:45 | reference definition of the proleptic Gregorian day number (`toordinal`); characterised by `Calendar.DayNumberNextDay`, `Calendar.DayNumberDistance` and `Calendar.YearLength` |
| Calendar.DaysBetween | step2.py:45 | reference definition of `(end - start).days` as the difference of day numbers; by `Calendar.DayNumberDistance` it is `k` for a date and the date `k` days later |
| Ordering.StrLess | step2.py:57 | reference definition of Python's `str` `<` (code-point lexicographic) behind `max(..., key=lambda x: x['filed'])`; characterised as a strict total order by the three `Ordering.StrLess*` lemmas |
| Ordering.Insert | step2.py:53 | inserting a candidate ahead of the first candidate whose key is not smaller (so ahead of equal keys, as the stable sort inserts each earlier candidate into the sorted rest) gives the list plus that candidate, as a multiset; `Ordering.InsertOrdered` and `Ordering.InsertHead` state the order it keeps and its head |
| Growth.GrowthPct | step2.py:82-86 | no growth (`N/A`) exactly when there is no previous value or it is zero |
| Growth.GrowthRecoversValue | step2.py:83 | the previous value and the growth give back the current value |
| Growth.GrowthSign | step2.py:83 | the growth is positive, zero or negative exactly when the value rose, stayed or fell |
| Growth.YearOverYear | step2.py:74-89 | the loop with `prev_val` yields one growth per record, relative to the record before it; the first is `N/A`, and a later one is `N/A` exactly when the previous value is zero |

## Left out

- `fetch_company_facts` and the other steps (`step1.py`, `step3.py`, `step4.py`, `step5.py`) are not part of this model. The document is a parameter.
- All printing is left out: the error message in the handler, and the table of `display_net_income` with its billions, `PROFIT`/`LOSS` status and formatted growth string. Only the growth value is modelled.
- The `TypeError` half of the handler is left out. JSON `null`, and values of the wrong type (a non-string date, a non-list `units`), cannot be expressed: every field is either absent or of its expected type.
- `fy` is modelled as an integer. Other JSON types as dictionary keys are not modelled.
- `Calendar.ParseDate` accepts only ASCII digits. Python's `strptime` also accepts other Unicode decimal digits.
- `Growth.GrowthPct` uses exact real arithmetic on `val`, a JSON number of any kind. It does not model Python's `int`/`float` distinction, the float division of `(val - prev_val) / abs(prev_val)` or its rounding.
- `Growth.YearOverYear` requires every record to carry `val`. The source raises an uncaught `KeyError` on a record without it, and the model does not represent that crash.
- `Extract.PickDuration` models `candidates.sort(...)` as reassigning `candidates` to its stable sort. The in-place sort algorithm itself is not modelled.
- The `__main__` block (file loading, the choice of concept, the calls to `display_net_income`) is left out.
