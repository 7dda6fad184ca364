/**
 * The orders the extraction relies on: Python's `<` on `str` (used by
 * `max(..., key=lambda x: x['filed'])`), the tuple order of the sort key
 * `(score, -days)`, the stable sort, and `sorted` on the fiscal years.
 */
module Ordering {
  import opened Filings

  /** Python's `a < b` on `str`: lexicographic by code point, a proper prefix first. */
  predicate StrLess(a: string, b: string)
    decreases |a|
  {
    if a == [] then b != []
    else if b == [] then false
    else if a[0] != b[0] then a[0] < b[0]
    else StrLess(a[1..], b[1..])
  }

  lemma {:induction false} StrLessIrreflexive(a: string)
    ensures !StrLess(a, a)
  {
    if a != [] {
      StrLessIrreflexive(a[1..]);
    }
  }

  lemma {:induction false} StrLessTransitive(a: string, b: string, c: string)
    requires StrLess(a, b) && StrLess(b, c)
    ensures StrLess(a, c)
    decreases |a|
  {
    if a != [] && a[0] == b[0] && b[0] == c[0] {
      StrLessTransitive(a[1..], b[1..], c[1..]);
    }
  }

  lemma {:induction false} StrLessTotal(a: string, b: string)
    ensures a == b || StrLess(a, b) || StrLess(b, a)
    decreases |a|
  {
    if a != [] && b != [] && a[0] == b[0] {
      StrLessTotal(a[1..], b[1..]);
      if a[1..] == b[1..] {
        assert a == [a[0]] + a[1..] && b == [b[0]] + b[1..];
      }
    }
  }

  /**
   * `max(group, key=lambda x: x['filed'])` on a group whose facts all carry
   * `filed`: Python keeps the first fact and replaces it only by a strictly
   * greater one, so the index is that of the first greatest `filed`.
   */
  function MaxFiledIndex(s: seq<Fact>): (k: nat)
    requires s != [] && forall f :: f in s ==> f.filed.Some?
    ensures k < |s|
    ensures forall j :: 0 <= j < |s| ==> !StrLess(s[k].filed.value, s[j].filed.value)
    ensures forall j :: 0 <= j < k ==> StrLess(s[j].filed.value, s[k].filed.value)
  {
    if |s| == 1 then
      StrLessIrreflexive(s[0].filed.value);
      0
    else
      var p := s[..|s| - 1];
      var k := MaxFiledIndex(p);
      assert forall j :: 0 <= j < |p| ==> p[j] == s[j];
      var last := |s| - 1;
      if StrLess(s[k].filed.value, s[last].filed.value) then
        assert forall j :: 0 <= j < last ==> StrLess(s[j].filed.value, s[last].filed.value) by {
          forall j | 0 <= j < last
            ensures StrLess(s[j].filed.value, s[last].filed.value)
          {
            StrLessTotal(s[j].filed.value, s[k].filed.value);
            if s[j].filed.value != s[k].filed.value {
              StrLessTransitive(s[j].filed.value, s[k].filed.value, s[last].filed.value);
            }
          }
        }
        assert forall j :: 0 <= j < |s| ==> !StrLess(s[last].filed.value, s[j].filed.value) by {
          forall j | 0 <= j < |s|
            ensures !StrLess(s[last].filed.value, s[j].filed.value)
          {
            StrLessIrreflexive(s[last].filed.value);
            if j < last && StrLess(s[last].filed.value, s[j].filed.value) {
              StrLessTransitive(s[last].filed.value, s[j].filed.value, s[last].filed.value);
            }
          }
        }
        last
      else
        k
  }

  /** A duration candidate with its sort key `(score, -days)`. */
  datatype Candidate = Candidate(fact: Fact, score: int, negDays: int)

  /** Tuple comparison `(a.score, a.negDays) < (b.score, b.negDays)`. */
  predicate RankLess(a: Candidate, b: Candidate) {
    a.score < b.score || (a.score == b.score && a.negDays < b.negDays)
  }

  predicate RankLe(a: Candidate, b: Candidate) {
    !RankLess(b, a)
  }

  predicate Ordered(s: seq<Candidate>) {
    forall i, j :: 0 <= i < j < |s| ==> RankLe(s[i], s[j])
  }

  /**
   * Insert `c` into an ordered `s` ahead of every candidate whose key is not
   * smaller, so that `c`, which came first in the input, stays ahead of its
   * equals.
   */
  function Insert(c: Candidate, s: seq<Candidate>): (r: seq<Candidate>)
    ensures multiset(r) == multiset{c} + multiset(s)
  {
    if s == [] || RankLe(c, s[0]) then [c] + s
    else
      assert s == [s[0]] + s[1..];
      [s[0]] + Insert(c, s[1..])
  }

  lemma {:induction false} InsertOrdered(c: Candidate, s: seq<Candidate>)
    requires Ordered(s)
    ensures Ordered(Insert(c, s))
  {
    if s != [] && !RankLe(c, s[0]) {
      InsertOrdered(c, s[1..]);
      var t := Insert(c, s[1..]);
      forall x | x in t ensures RankLe(s[0], x) {
        assert x in multiset(t);
      }
    }
  }

  /** The stable sort of `s` by `(score, -days)`, as `list.sort` leaves it. */
  function StableSorted(s: seq<Candidate>): (r: seq<Candidate>)
    ensures multiset(r) == multiset(s)
    ensures Ordered(r)
  {
    if s == [] then []
    else
      assert s == [s[0]] + s[1..];
      InsertOrdered(s[0], StableSorted(s[1..]));
      Insert(s[0], StableSorted(s[1..]))
  }

  /** The index of the first candidate with the smallest key. */
  function FirstMinimal(s: seq<Candidate>): (k: nat)
    requires s != []
    ensures k < |s|
    ensures forall j :: 0 <= j < |s| ==> RankLe(s[k], s[j])
    ensures forall j :: 0 <= j < k ==> RankLess(s[k], s[j])
  {
    if |s| == 1 then 0
    else
      var p := s[..|s| - 1];
      assert forall j :: 0 <= j < |p| ==> p[j] == s[j];
      var k := FirstMinimal(p);
      if RankLess(s[|s| - 1], s[k]) then |s| - 1 else k
  }

  /** `k` is the first index holding a smallest key of `s`. */
  predicate IsFirstMin(s: seq<Candidate>, k: int) {
    0 <= k < |s|
    && (forall j :: 0 <= j < |s| ==> RankLe(s[k], s[j]))
    && (forall j :: 0 <= j < k ==> RankLess(s[k], s[j]))
  }

  /** The first smallest key has one position only, the one `FirstMinimal` finds. */
  lemma FirstMinimalUnique(s: seq<Candidate>, k: int)
    requires s != [] && IsFirstMin(s, k)
    ensures FirstMinimal(s) == k
  {
  }

  /** Appending one candidate moves the first minimum to it exactly when it is strictly smaller. */
  lemma FirstMinimalAppend(s: seq<Candidate>, c: Candidate)
    requires s != []
    ensures FirstMinimal(s + [c]) == if RankLess(c, s[FirstMinimal(s)]) then |s| else FirstMinimal(s)
  {
    assert (s + [c])[..|s|] == s;
  }

  /** The first minimum of `s` is its head unless the rest holds a strictly smaller key. */
  lemma FirstMinimalCons(s: seq<Candidate>)
    requires |s| > 1
    ensures var k := FirstMinimal(s[1..]);
      FirstMinimal(s) == if RankLe(s[0], s[1 + k]) then 0 else 1 + k
  {
    var t := s[1..];
    var k := FirstMinimal(t);
    if RankLe(s[0], t[k]) {
      forall j | 0 <= j < |s|
        ensures RankLe(s[0], s[j])
      {
        if j > 0 {
          assert s[j] == t[j - 1];
        }
      }
      FirstMinimalUnique(s, 0);
    } else {
      forall j | 0 <= j < |s|
        ensures RankLe(s[k + 1], s[j]) && (j < k + 1 ==> RankLess(s[k + 1], s[j]))
      {
        if j > 0 {
          assert s[j] == t[j - 1];
        }
      }
      FirstMinimalUnique(s, k + 1);
    }
  }

  lemma InsertHead(c: Candidate, s: seq<Candidate>)
    ensures Insert(c, s)[0] == if s == [] || RankLe(c, s[0]) then c else s[0]
  {
  }

  /** After the stable sort the head is the first candidate with the smallest key. */
  lemma {:induction false} StableSortedHead(s: seq<Candidate>)
    requires s != []
    ensures StableSorted(s)[0] == s[FirstMinimal(s)]
  {
    if |s| > 1 {
      StableSortedHead(s[1..]);
      FirstMinimalCons(s);
      InsertHead(s[0], StableSorted(s[1..]));
    }
  }

  /** The smallest element of a non-empty set of years. */
  function Smallest(s: set<int>): (m: int)
    requires s != {}
    ensures m in s && forall y :: y in s ==> m <= y
  {
    SmallestExists(s);
    var m :| m in s && forall y :: y in s ==> m <= y; m
  }

  lemma Inhabited(s: set<int>)
    requires s != {}
    ensures exists x :: x in s
  {
    if forall x :: x !in s {
      assert false;
    }
  }

  lemma {:induction false} SmallestExists(s: set<int>)
    requires s != {}
    ensures exists m :: m in s && forall y :: y in s ==> m <= y
    decreases |s|
  {
    Inhabited(s);
    var x :| x in s;
    var rest := s - {x};
    if rest == {} {
      forall y | y in s
        ensures x <= y
      {
        assert y !in rest;
      }
    } else {
      assert s == rest + {x} && x !in rest;
      SmallestExists(rest);
      var m :| m in rest && forall y :: y in rest ==> m <= y;
      var least := if x < m then x else m;
      forall y | y in s
        ensures least <= y
      {
        if y != x {
          assert y in rest;
        }
      }
      assert least in s;
    }
  }

  /** `sorted(years)`: the years in strictly ascending order. */
  function SortedYears(s: set<int>): (r: seq<int>)
    ensures forall y :: y in r <==> y in s
    ensures forall i, j :: 0 <= i < j < |r| ==> r[i] < r[j]
    decreases |s|
  {
    if s == {} then []
    else
      var m := Smallest(s);
      [m] + SortedYears(s - {m})
  }
}
