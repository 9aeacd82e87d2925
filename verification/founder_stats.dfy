/** The founder statistics script: the employers and universities that
    occur most often across all founders, and the ages derived from the
    estimated birth years (oldest, youngest, the sum and count behind the
    average, and the upper median). */
module FounderStats {
  import opened Records
  import opened Lists
  import opened Sorting

  /** The list a founder contributes: nothing when the column is null or
      empty. */
  function Contribution(xs: Option<seq<string>>): (r: seq<string>)
    ensures xs.None? ==> r == []
    ensures xs.Some? ==> r == xs.value
  {
    if xs.Some? && xs.value != [] then xs.value else []
  }

  /** All employers of all founders, in order. */
  function Employers(rows: seq<FounderRow>): seq<string> {
    Flatten(seq(|rows|, i requires 0 <= i < |rows| => Contribution(rows[i].employers)))
  }

  /** All universities of all founders, in order. */
  function Universities(rows: seq<FounderRow>): seq<string> {
    Flatten(seq(|rows|, i requires 0 <= i < |rows| => Contribution(rows[i].education)))
  }

  /** Counting over two groups of founders adds up: every occurrence is
      counted once, from whichever founder it comes. */
  lemma EmployersConcat(a: seq<FounderRow>, b: seq<FounderRow>)
    ensures Employers(a + b) == Employers(a) + Employers(b)
    ensures multiset(Employers(a + b)) == multiset(Employers(a)) + multiset(Employers(b))
  {
    var f := (rows: seq<FounderRow>) => seq(|rows|, i requires 0 <= i < |rows| => Contribution(rows[i].employers));
    assert f(a + b) == f(a) + f(b);
    FlattenConcat(f(a), f(b));
  }

  lemma UniversitiesConcat(a: seq<FounderRow>, b: seq<FounderRow>)
    ensures Universities(a + b) == Universities(a) + Universities(b)
    ensures multiset(Universities(a + b)) == multiset(Universities(a)) + multiset(Universities(b))
  {
    var f := (rows: seq<FounderRow>) => seq(|rows|, i requires 0 <= i < |rows| => Contribution(rows[i].education));
    assert f(a + b) == f(a) + f(b);
    FlattenConcat(f(a), f(b));
  }

  /** One founder contributes exactly the list in the column. */
  lemma EmployersOfOne(row: FounderRow)
    ensures Employers([row]) == Contribution(row.employers)
    ensures Universities([row]) == Contribution(row.education)
  {
    FlattenSingle(Contribution(row.employers));
    FlattenSingle(Contribution(row.education));
    assert seq(1, i requires 0 <= i < 1 => Contribution([row][i].employers)) == [Contribution(row.employers)];
    assert seq(1, i requires 0 <= i < 1 => Contribution([row][i].education)) == [Contribution(row.education)];
  }

  function Min(a: nat, b: nat): nat {
    if a <= b then a else b
  }

  /** Each distinct element with the number of times it occurs in `all`. */
  function Tally<T(==,!new)>(all: seq<T>, distinct: seq<T>): (r: seq<(T, nat)>)
    ensures |r| == |distinct|
  {
    seq(|distinct|, i requires 0 <= i < |distinct| => (distinct[i], multiset(all)[distinct[i]]))
  }

  /** Higher counts first. */
  predicate ByCountDesc<T>(a: (T, nat), b: (T, nat)) {
    a.1 >= b.1
  }

  lemma ByCountDescIsTotalPreorder<T(!new)>()
    ensures TotalPreorder(ByCountDesc<T>)
  {
  }

  /** `Counter(all).most_common(n)`: the distinct elements of `all` with
      their number of occurrences, highest count first, cut to `n`
      entries. Every element left out occurs no more often than the last
      one reported. */
  function MostCommon<T(==,!new)>(all: seq<T>, n: nat): (r: seq<(T, nat)>)
    ensures |r| == Min(n, |Dedup(all)|)
    ensures forall i :: 0 <= i < |r| ==> r[i].0 in all && r[i].1 == multiset(all)[r[i].0]
    ensures forall i, j :: 0 <= i < j < |r| ==> r[i].1 >= r[j].1
    ensures forall i, j :: 0 <= i < j < |r| ==> r[i].0 != r[j].0
    ensures forall x :: x in all && (forall i :: 0 <= i < |r| ==> r[i].0 != x) ==>
              |r| == n && (n > 0 ==> multiset(all)[x] <= r[n - 1].1)
  {
    var distinct := Dedup(all);
    var tally := Tally(all, distinct);
    ByCountDescIsTotalPreorder<T>();
    var sorted := SortBy(tally, ByCountDesc);
    TallyFacts(all, distinct, tally, sorted);
    TopOfSorted(all, sorted, n);
    sorted[..Min(n, |sorted|)]
  }

  /** The first `n` entries of the sorted tally are the most common ones. */
  lemma TopOfSorted<T(!new)>(all: seq<T>, sorted: seq<(T, nat)>, n: nat)
    requires SortedBy(sorted, ByCountDesc)
    requires forall k :: 0 <= k < |sorted| ==> sorted[k].0 in all && sorted[k].1 == multiset(all)[sorted[k].0]
    requires forall x :: x in all ==> exists k :: 0 <= k < |sorted| && sorted[k].0 == x
    ensures var r := sorted[..Min(n, |sorted|)];
            forall x :: x in all && (forall i :: 0 <= i < |r| ==> r[i].0 != x) ==>
              |r| == n && (n > 0 ==> multiset(all)[x] <= r[n - 1].1)
  {
    var r := sorted[..Min(n, |sorted|)];
    forall x | x in all && (forall i :: 0 <= i < |r| ==> r[i].0 != x)
      ensures |r| == n && (n > 0 ==> multiset(all)[x] <= r[n - 1].1)
    {
      var k :| 0 <= k < |sorted| && sorted[k].0 == x;
      assert forall i :: 0 <= i < |r| ==> r[i] == sorted[i];
      assert k >= |r|;
      assert n > 0 ==> ByCountDesc(sorted[n - 1], sorted[k]);
    }
  }

  /** The sorted tally holds each distinct element once, with its count. */
  lemma TallyFacts<T(!new)>(all: seq<T>, distinct: seq<T>, tally: seq<(T, nat)>, sorted: seq<(T, nat)>)
    requires distinct == Dedup(all) && tally == Tally(all, distinct)
    requires multiset(sorted) == multiset(tally)
    ensures forall k :: 0 <= k < |sorted| ==> sorted[k].0 in all && sorted[k].1 == multiset(all)[sorted[k].0]
    ensures forall i, j :: 0 <= i < j < |sorted| ==> sorted[i].0 != sorted[j].0
    ensures forall x :: x in all ==> exists k :: 0 <= k < |sorted| && sorted[k].0 == x
  {
    forall x | x in all ensures exists k :: 0 <= k < |sorted| && sorted[k].0 == x {
      var i :| 0 <= i < |distinct| && distinct[i] == x;
      assert tally[i] in multiset(sorted);
    }
    assert forall k :: 0 <= k < |sorted| ==> sorted[k] in tally by {
      forall k | 0 <= k < |sorted| ensures sorted[k] in tally {
        assert sorted[k] in multiset(tally);
      }
    }
    assert NoDuplicates(tally) by {
      assert forall i :: 0 <= i < |tally| ==> tally[i].0 == distinct[i];
    }
    NoDuplicatesPermutation(tally, sorted);
  }

  /** `top_ten_most_common_companies`: the hundred most common employers. */
  function TopCompanies(rows: seq<FounderRow>): (r: seq<(string, nat)>)
    ensures |r| == Min(100, |Dedup(Employers(rows))|)
    ensures forall i :: 0 <= i < |r| ==> r[i].0 in Employers(rows) && r[i].1 == multiset(Employers(rows))[r[i].0]
    ensures forall i, j :: 0 <= i < j < |r| ==> r[i].1 >= r[j].1
    ensures forall i, j :: 0 <= i < j < |r| ==> r[i].0 != r[j].0
    ensures forall x :: x in Employers(rows) && (forall i :: 0 <= i < |r| ==> r[i].0 != x) ==>
              |r| == 100 && multiset(Employers(rows))[x] <= r[99].1
  {
    MostCommon(Employers(rows), 100)
  }

  /** `top_ten_most_common_universities`: the eleven most common
      universities. */
  function TopUniversities(rows: seq<FounderRow>): (r: seq<(string, nat)>)
    ensures |r| == Min(11, |Dedup(Universities(rows))|)
    ensures forall i :: 0 <= i < |r| ==> r[i].0 in Universities(rows) && r[i].1 == multiset(Universities(rows))[r[i].0]
    ensures forall i, j :: 0 <= i < j < |r| ==> r[i].1 >= r[j].1
    ensures forall i, j :: 0 <= i < j < |r| ==> r[i].0 != r[j].0
    ensures forall x :: x in Universities(rows) && (forall i :: 0 <= i < |r| ==> r[i].0 != x) ==>
              |r| == 11 && multiset(Universities(rows))[x] <= r[10].1
  {
    MostCommon(Universities(rows), 11)
  }

  /** A founder without employers or education changes neither ranking. */
  lemma EmptyListsCountNothing(rows: seq<FounderRow>, row: FounderRow)
    requires row.employers.None? || row.employers == Some([])
    requires row.education.None? || row.education == Some([])
    ensures TopCompanies(rows + [row]) == TopCompanies(rows)
    ensures TopUniversities(rows + [row]) == TopUniversities(rows)
  {
    EmptyListsAddNothing(rows, row);
  }

  lemma EmptyListsAddNothing(rows: seq<FounderRow>, row: FounderRow)
    requires row.employers.None? || row.employers == Some([])
    requires row.education.None? || row.education == Some([])
    ensures Employers(rows + [row]) == Employers(rows)
    ensures Universities(rows + [row]) == Universities(rows)
  {
    EmployersConcat(rows, [row]);
    UniversitiesConcat(rows, [row]);
    EmployersOfOne(row);
    assert Employers(rows) + [] == Employers(rows);
    assert Universities(rows) + [] == Universities(rows);
  }

  /** The year ages are counted from. */
  const CurrentYear: int := 2024

  /** The ages of the founders with a known birth year; a missing or zero
      year counts as unknown. */
  function Ages(rows: seq<FounderRow>): (r: seq<int>)
    ensures |r| <= |rows|
  {
    if |rows| == 0 then []
    else
      var b := rows[0].estimatedBirthYear;
      (if b.Some? && b.value != 0 then [CurrentYear - b.value] else []) + Ages(rows[1..])
  }

  lemma {:induction false} AgesConcat(a: seq<FounderRow>, b: seq<FounderRow>)
    ensures Ages(a + b) == Ages(a) + Ages(b)
    decreases |a|
  {
    if |a| == 0 {
      assert a + b == b;
    } else {
      assert (a + b)[1..] == a[1..] + b;
      AgesConcat(a[1..], b);
    }
  }

  /** Every age comes from one founder's birth year, and every founder with
      a known birth year gives one. */
  lemma {:induction false} AgesFromBirthYears(rows: seq<FounderRow>)
    ensures forall a :: a in Ages(rows) <==>
              exists i :: 0 <= i < |rows| && rows[i].estimatedBirthYear.Some?
                && rows[i].estimatedBirthYear.value != 0 && a == CurrentYear - rows[i].estimatedBirthYear.value
    decreases |rows|
  {
    if |rows| > 0 {
      AgesFromBirthYears(rows[1..]);
      assert forall i :: 1 <= i < |rows| ==> rows[i] == rows[1..][i - 1];
      forall a | a in Ages(rows)
        ensures exists i :: 0 <= i < |rows| && rows[i].estimatedBirthYear.Some?
                  && rows[i].estimatedBirthYear.value != 0 && a == CurrentYear - rows[i].estimatedBirthYear.value
      {
        if a !in Ages(rows[1..]) {
          assert rows[0].estimatedBirthYear.Some? && a == CurrentYear - rows[0].estimatedBirthYear.value;
        } else {
          var i :| 0 <= i < |rows[1..]| && rows[1..][i].estimatedBirthYear.Some?
                   && rows[1..][i].estimatedBirthYear.value != 0 && a == CurrentYear - rows[1..][i].estimatedBirthYear.value;
          assert rows[i + 1] == rows[1..][i];
        }
      }
    }
  }

  /** How many elements of `s` are below `v`. */
  function CountLess(s: seq<int>, v: int): (r: nat)
    ensures r <= |s|
  {
    if |s| == 0 then 0 else (if s[0] < v then 1 else 0) + CountLess(s[1..], v)
  }

  lemma {:induction false} CountLessConcat(a: seq<int>, b: seq<int>, v: int)
    ensures CountLess(a + b, v) == CountLess(a, v) + CountLess(b, v)
    decreases |a|
  {
    if |a| == 0 {
      assert a + b == b;
    } else {
      assert (a + b)[1..] == a[1..] + b;
      CountLessConcat(a[1..], b, v);
    }
  }

  /** Counting does not depend on the order. */
  lemma {:induction false} CountLessPermutation(a: seq<int>, b: seq<int>, v: int)
    requires multiset(a) == multiset(b)
    ensures CountLess(a, v) == CountLess(b, v)
    decreases |a|
  {
    if |a| > 0 {
      var x := a[0];
      assert x in multiset(b);
      var k :| 0 <= k < |b| && b[k] == x;
      RemoveMatching(a, b, k);
      CountLessPermutation(a[1..], b[..k] + b[k + 1..], v);
      CountLessRemove(b, k, v);
    }
  }

  /** Counting in a list is counting one of its elements and the rest. */
  lemma CountLessRemove(b: seq<int>, k: int, v: int)
    requires 0 <= k < |b|
    ensures CountLess(b, v) == (if b[k] < v then 1 else 0) + CountLess(b[..k] + b[k + 1..], v)
  {
    var x := b[k];
    assert b == b[..k] + ([x] + b[k + 1..]);
    CountLessConcat(b[..k], [x] + b[k + 1..], v);
    CountLessConcat([x], b[k + 1..], v);
    CountLessConcat(b[..k], b[k + 1..], v);
    assert [x][1..] == [];
  }

  lemma {:induction false} CountLessNone(s: seq<int>, v: int)
    requires forall i :: 0 <= i < |s| ==> s[i] >= v
    ensures CountLess(s, v) == 0
    decreases |s|
  {
    if |s| > 0 {
      CountLessNone(s[1..], v);
    }
  }

  lemma {:induction false} CountLessAll(s: seq<int>, v: int)
    requires forall i :: 0 <= i < |s| ==> s[i] < v
    ensures CountLess(s, v) == |s|
    decreases |s|
  {
    if |s| > 0 {
      CountLessAll(s[1..], v);
    }
  }

  /** `v` is an upper median of `s`: at most half of the (rounded-down)
      length lies below it, and more than that lies at or below it. */
  predicate IsUpperMedian(s: seq<int>, v: int) {
    CountLess(s, v) <= |s| / 2 < CountLess(s, v + 1)
  }

  /** The upper median is a single value. */
  lemma UpperMedianUnique(s: seq<int>, v: int, w: int)
    requires IsUpperMedian(s, v) && IsUpperMedian(s, w)
    ensures v == w
  {
    if v < w {
      CountLessMonotone(s, v + 1, w);
    } else if w < v {
      CountLessMonotone(s, w + 1, v);
    }
  }

  lemma {:induction false} CountLessMonotone(s: seq<int>, v: int, w: int)
    requires v <= w
    ensures CountLess(s, v) <= CountLess(s, w)
    decreases |s|
  {
    if |s| > 0 {
      CountLessMonotone(s[1..], v, w);
    }
  }

  function Max(s: seq<int>): (r: int)
    requires |s| > 0
    ensures r in s && forall i :: 0 <= i < |s| ==> s[i] <= r
  {
    if |s| == 1 then s[0]
    else
      var m := Max(s[1..]);
      assert forall i :: 1 <= i < |s| ==> s[i] == s[1..][i - 1];
      if s[0] >= m then s[0] else m
  }

  function MinOf(s: seq<int>): (r: int)
    requires |s| > 0
    ensures r in s && forall i :: 0 <= i < |s| ==> r <= s[i]
  {
    if |s| == 1 then s[0]
    else
      var m := MinOf(s[1..]);
      assert forall i :: 1 <= i < |s| ==> s[i] == s[1..][i - 1];
      if s[0] <= m then s[0] else m
  }

  function Sum(s: seq<int>): int {
    if |s| == 0 then 0 else s[0] + Sum(s[1..])
  }

  predicate IntLe(a: int, b: int) {
    a <= b
  }

  /** `sorted(ages)[len(ages) // 2]` */
  function UpperMedian(s: seq<int>): (r: int)
    requires |s| > 0
    ensures r in s
    ensures IsUpperMedian(s, r)
  {
    assert TotalPreorder(IntLe);
    var sorted := SortBy(s, IntLe);
    var m := |s| / 2;
    MedianOfSorted(sorted, m);
    CountLessPermutation(s, sorted, sorted[m]);
    CountLessPermutation(s, sorted, sorted[m] + 1);
    assert sorted[m] in multiset(s);
    sorted[m]
  }

  lemma MedianOfSorted(sorted: seq<int>, m: int)
    requires SortedBy(sorted, IntLe) && 0 <= m < |sorted|
    ensures CountLess(sorted, sorted[m]) <= m
    ensures CountLess(sorted, sorted[m] + 1) >= m + 1
  {
    BelowMedian(sorted, m);
    UpToMedian(sorted, m);
  }

  lemma BelowMedian(sorted: seq<int>, m: int)
    requires SortedBy(sorted, IntLe) && 0 <= m < |sorted|
    ensures CountLess(sorted, sorted[m]) <= m
  {
    var v := sorted[m];
    var lo, hi := sorted[..m], sorted[m..];
    assert sorted == lo + hi;
    assert forall i :: 0 <= i < |hi| ==> hi[i] == sorted[m + i] && IntLe(sorted[m], sorted[m + i]);
    CountLessConcat(lo, hi, v);
    CountLessNone(hi, v);
  }

  lemma UpToMedian(sorted: seq<int>, m: int)
    requires SortedBy(sorted, IntLe) && 0 <= m < |sorted|
    ensures CountLess(sorted, sorted[m] + 1) >= m + 1
  {
    var v := sorted[m];
    var lo := sorted[..m + 1];
    forall i | 0 <= i < |lo| ensures lo[i] < v + 1 {
      if i < m {
        assert IntLe(sorted[i], sorted[m]);
      }
    }
    CountLessAll(lo, v + 1);
    CountLessPrefix(sorted, m + 1, v + 1);
  }

  lemma CountLessPrefix(s: seq<int>, n: int, v: int)
    requires 0 <= n <= |s|
    ensures CountLess(s[..n], v) <= CountLess(s, v)
  {
    CountLessConcat(s[..n], s[n..], v);
    assert s[..n] + s[n..] == s;
  }

  /** What `get_age_data` returns: the three-value tuple of nothing when no
      age is known, otherwise the oldest and youngest age, the sum and
      count the average is taken from, and the upper median. */
  datatype AgeData = NoAges | AgeStats(oldest: int, youngest: int, total: int, count: nat, median: int)

  function GetAgeData(rows: seq<FounderRow>): (r: AgeData)
    ensures r.NoAges? <==> Ages(rows) == []
    ensures r.AgeStats? ==>
              && r.oldest in Ages(rows) && r.youngest in Ages(rows) && r.median in Ages(rows)
              && (forall a :: a in Ages(rows) ==> r.youngest <= a <= r.oldest)
              && IsUpperMedian(Ages(rows), r.median)
              && r.count == |Ages(rows)|
              && r.total == Sum(Ages(rows))
  {
    var ages := Ages(rows);
    if ages == [] then NoAges
    else AgeStats(Max(ages), MinOf(ages), Sum(ages), |ages|, UpperMedian(ages))
  }

  /** The median lies between the youngest and the oldest age. */
  lemma MedianBetweenExtremes(rows: seq<FounderRow>)
    requires GetAgeData(rows).AgeStats?
    ensures var d := GetAgeData(rows); d.youngest <= d.median <= d.oldest
  {
  }

  /** The average the script takes, `total / count`, lies between the
      youngest and the oldest age. */
  lemma AverageBetweenExtremes(rows: seq<FounderRow>)
    requires GetAgeData(rows).AgeStats?
    ensures var d := GetAgeData(rows);
            d.count > 0 && d.count * d.youngest <= d.total <= d.count * d.oldest
  {
    var d := GetAgeData(rows);
    SumBounds(Ages(rows), d.youngest, d.oldest);
  }

  lemma SumBounds(s: seq<int>, lo: int, hi: int)
    requires forall a :: a in s ==> lo <= a <= hi
    ensures |s| * lo <= Sum(s) <= |s| * hi
  {
    SumAtLeast(s, lo);
    SumAtMost(s, hi);
  }

  lemma {:induction false} SumAtLeast(s: seq<int>, lo: int)
    requires forall a :: a in s ==> lo <= a
    ensures |s| * lo <= Sum(s)
    decreases |s|
  {
    if |s| > 0 {
      var n := |s| - 1;
      assert s[0] in s;
      assert forall a :: a in s[1..] ==> a in s;
      SumAtLeast(s[1..], lo);
      assert (n + 1) * lo == n * lo + lo;
    }
  }

  lemma {:induction false} SumAtMost(s: seq<int>, hi: int)
    requires forall a :: a in s ==> a <= hi
    ensures Sum(s) <= |s| * hi
    decreases |s|
  {
    if |s| > 0 {
      var n := |s| - 1;
      assert s[0] in s;
      assert forall a :: a in s[1..] ==> a in s;
      SumAtMost(s[1..], hi);
      assert (n + 1) * hi == n * hi + hi;
    }
  }

  /** Founders without a known birth year change nothing. */
  lemma UnknownBirthYearIgnored(rows: seq<FounderRow>, row: FounderRow)
    requires row.estimatedBirthYear.None? || row.estimatedBirthYear == Some(0)
    ensures GetAgeData(rows + [row]) == GetAgeData(rows)
  {
    AgesConcat(rows, [row]);
    assert Ages([row]) == [];
    assert Ages(rows + [row]) == Ages(rows);
  }
}
