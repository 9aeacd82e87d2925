/** The "in numbers" statistics the browser computes from the loaded
    company list: the total, a count per status, the number of distinct
    industry tags and the span of founding years. */
module InNumbers {
  import opened Records
  import opened Lists

  /** `yearsActive` is `None` where the browser computes `0 - Infinity`
      (no company has a truthy founding year). */
  datatype Stats = Stats(
    total: nat,
    active: nat,
    inactive: nat,
    acquired: nat,
    industries: nat,
    yearsActive: Option<int>)

  // ---------------------------------------------------------------------
  // Counts per status
  // ---------------------------------------------------------------------

  /** `data.filter((company) => company.status === s).length` */
  function CountStatus(data: seq<Company>, s: Status): (n: nat)
    ensures n <= |data|
  {
    if |data| == 0 then 0
    else (if data[0].status == s then 1 else 0) + CountStatus(data[1..], s)
  }

  /** `data.map((company) => company.status)` */
  function Statuses(data: seq<Company>): (r: seq<Status>)
    ensures |r| == |data|
    ensures forall i :: 0 <= i < |data| ==> r[i] == data[i].status
  {
    seq(|data|, i requires 0 <= i < |data| => data[i].status)
  }

  /** The count for `s` is the number of times `s` occurs among the
      statuses. */
  lemma {:induction false} CountStatusIsOccurrences(data: seq<Company>, s: Status)
    ensures CountStatus(data, s) == multiset(Statuses(data))[s]
    decreases |data|
  {
    if |data| > 0 {
      CountStatusIsOccurrences(data[1..], s);
      StatusesCons(data);
    }
  }

  lemma StatusesCons(data: seq<Company>)
    requires |data| > 0
    ensures multiset(Statuses(data)) == multiset{data[0].status} + multiset(Statuses(data[1..]))
  {
    assert Statuses(data) == [data[0].status] + Statuses(data[1..]);
  }

  lemma {:induction false} CountStatusConcat(a: seq<Company>, b: seq<Company>, s: Status)
    ensures CountStatus(a + b, s) == CountStatus(a, s) + CountStatus(b, s)
    decreases |a|
  {
    if |a| == 0 {
      assert a + b == b;
    } else {
      assert (a + b)[1..] == a[1..] + b;
      CountStatusConcat(a[1..], b, s);
    }
  }

  /** Since the status is one of exactly three values, the three counts add
      up to the total. */
  lemma {:induction false} StatusCountsAddUp(data: seq<Company>)
    ensures CountStatus(data, Active) + CountStatus(data, Inactive)
            + CountStatus(data, Acquired) == |data|
    decreases |data|
  {
    if |data| > 0 {
      StatusCountsAddUp(data[1..]);
    }
  }

  /** Reordering the companies does not change any status count. */
  lemma {:induction false} CountStatusPermutation(a: seq<Company>, b: seq<Company>, s: Status)
    requires multiset(a) == multiset(b)
    ensures CountStatus(a, s) == CountStatus(b, s)
    decreases |a|
  {
    if |a| > 0 {
      assert a[0] in multiset(b);
      var k :| 0 <= k < |b| && b[k] == a[0];
      RemoveMatching(a, b, k);
      CountStatusPermutation(a[1..], b[..k] + b[k + 1..], s);
      CountStatusRemove(b, k, s);
    }
  }

  /** Counting in a list is counting one of its elements and the rest. */
  lemma CountStatusRemove(b: seq<Company>, k: int, s: Status)
    requires 0 <= k < |b|
    ensures CountStatus(b, s) == (if b[k].status == s then 1 else 0)
                                 + CountStatus(b[..k] + b[k + 1..], s)
  {
    var x := b[k];
    assert b == b[..k] + ([x] + b[k + 1..]);
    CountStatusConcat(b[..k], [x] + b[k + 1..], s);
    CountStatusConcat([x], b[k + 1..], s);
    CountStatusConcat(b[..k], b[k + 1..], s);
    assert [x][1..] == [];
  }

  // ---------------------------------------------------------------------
  // Founding-year span
  // ---------------------------------------------------------------------

  /** `if (company.founding_year)`: null and 0 are falsy. */
  predicate HasYear(c: Company) {
    c.foundingYear.Some? && c.foundingYear.value != 0
  }

  /** The founding years the loop takes into account. */
  ghost function CountedYears(data: seq<Company>): set<int> {
    set c | c in data && HasYear(c) :: c.foundingYear.value
  }

  /** Reference description of the span the browser shows: undefined when
      no year counts; otherwise `top - lo`, where `lo` is the earliest year
      and `top` the larger of 0 and the latest year. */
  ghost predicate IsSpan(years: set<int>, r: Option<int>) {
    && (r.None? <==> years == {})
    && (r.Some? ==> exists lo, top :: IsEarliest(years, lo) && IsTop(years, top)
                                      && r.value == top - lo)
  }

  ghost predicate IsEarliest(years: set<int>, lo: int) {
    lo in years && forall y :: y in years ==> lo <= y
  }

  /** `top` is `max(0, latest year)`. */
  ghost predicate IsTop(years: set<int>, top: int) {
    top >= 0 && (top == 0 || top in years) && forall y :: y in years ==> y <= top
  }

  /** The description determines the span. */
  lemma SpanUnique(years: set<int>, r1: Option<int>, r2: Option<int>)
    requires IsSpan(years, r1) && IsSpan(years, r2)
    ensures r1 == r2
  {
    if r1.Some? {
      var lo1, top1 :| IsEarliest(years, lo1) && IsTop(years, top1) && r1.value == top1 - lo1;
      var lo2, top2 :| IsEarliest(years, lo2) && IsTop(years, top2) && r2.value == top2 - lo2;
      assert lo1 <= lo2 && lo2 <= lo1;
      assert top1 <= top2 && top2 <= top1;
    }
  }

  /** The `for` loop over the companies: `minYear` (`None` for `Infinity`)
      and `maxYear` after visiting `data`, starting from `lo` and `hi`. */
  function YearLoop(data: seq<Company>, lo: Option<int>, hi: int): (r: (Option<int>, int))
    ensures r.0.None? <==> lo.None? && CountedYears(data) == {}
    ensures r.0.Some? ==> (r.0.value in CountedYears(data) || lo == r.0)
                          && (forall y :: y in CountedYears(data) ==> r.0.value <= y)
                          && (lo.Some? ==> r.0.value <= lo.value)
    ensures r.1 >= hi && (r.1 == hi || r.1 in CountedYears(data))
    ensures forall y :: y in CountedYears(data) ==> y <= r.1
  {
    if |data| == 0 then (lo, hi)
    else
      var c := data[0];
      CountedYearsCons(data);
      if HasYear(c) then
        var y := c.foundingYear.value;
        YearLoop(data[1..], Some(if lo.None? || y < lo.value then y else lo.value),
                 if y > hi then y else hi)
      else
        YearLoop(data[1..], lo, hi)
  }

  lemma CountedYearsCons(data: seq<Company>)
    requires |data| > 0
    ensures forall y :: y in CountedYears(data) <==>
              (y in CountedYears(data[1..]) || (HasYear(data[0]) && y == data[0].foundingYear.value))
  {
    assert forall d :: d in data <==> d == data[0] || d in data[1..];
  }

  /** `yearsActive`: `maxYear - minYear` after the loop, with `maxYear`
      starting at 0 and `minYear` at `Infinity`. */
  function YearsActive(data: seq<Company>): (r: Option<int>)
    ensures IsSpan(CountedYears(data), r)
  {
    var (lo, hi) := YearLoop(data, None, 0);
    if lo.None? then None
    else
      assert IsEarliest(CountedYears(data), lo.value) && IsTop(CountedYears(data), hi);
      Some(hi - lo.value)
  }

  /** With only positive years the span is never negative. */
  lemma YearsActiveNonNegative(data: seq<Company>)
    requires forall c :: c in data && HasYear(c) ==> c.foundingYear.value > 0
    requires YearsActive(data).Some?
    ensures YearsActive(data).value >= 0
  {
    var years := CountedYears(data);
    var lo, top :| IsEarliest(years, lo) && IsTop(years, top)
                   && YearsActive(data).value == top - lo;
    var c :| c in data && HasYear(c) && c.foundingYear.value == lo;
  }

  /** Companies without a year, or with year 0, do not move the span. */
  lemma YearlessCompanyIgnored(data: seq<Company>, c: Company)
    requires !HasYear(c)
    ensures YearsActive(data + [c]) == YearsActive(data)
  {
    assert CountedYears(data + [c]) == CountedYears(data);
    SpanUnique(CountedYears(data), YearsActive(data + [c]), YearsActive(data));
  }

  // ---------------------------------------------------------------------
  // The statistics
  // ---------------------------------------------------------------------

  /** The `stats` memo of the "in numbers" panel (the hard-coded founder
      figures aside). */
  function Summarize(data: seq<Company>): (r: Stats)
    ensures r.total == |data|
    ensures r.active == multiset(Statuses(data))[Active]
    ensures r.inactive == multiset(Statuses(data))[Inactive]
    ensures r.acquired == multiset(Statuses(data))[Acquired]
    ensures r.active + r.inactive + r.acquired == r.total
    ensures r.industries == |TagSet(data)|
    ensures IsSpan(CountedYears(data), r.yearsActive)
  {
    CountStatusIsOccurrences(data, Active);
    CountStatusIsOccurrences(data, Inactive);
    CountStatusIsOccurrences(data, Acquired);
    StatusCountsAddUp(data);
    var tags := DistinctTags(data);
    DistinctCardinality(tags);
    assert Elements(tags) == TagSet(data);
    Stats(|data|,
          CountStatus(data, Active),
          CountStatus(data, Inactive),
          CountStatus(data, Acquired),
          |tags|,
          YearsActive(data))
  }

  /** The statistics depend on the companies, not on their order. */
  lemma SummarizePermutation(a: seq<Company>, b: seq<Company>)
    requires multiset(a) == multiset(b)
    ensures Summarize(a) == Summarize(b)
  {
    CountStatusPermutation(a, b, Active);
    CountStatusPermutation(a, b, Inactive);
    CountStatusPermutation(a, b, Acquired);
    assert |a| == |multiset(a)| == |b|;
    SameElements(a, b);
    SameElements(b, a);
    assert CountedYears(a) == CountedYears(b);
    SpanUnique(CountedYears(a), YearsActive(a), YearsActive(b));
    TagSetIncluded(a, b);
    TagSetIncluded(b, a);
    assert TagSet(a) == TagSet(b);
    assert Summarize(a).industries == Summarize(b).industries;
  }

  lemma SameElements(a: seq<Company>, b: seq<Company>)
    requires multiset(a) == multiset(b)
    ensures forall c :: c in a ==> c in b
  {
    forall c | c in a ensures c in b {
      assert c in multiset(a);
    }
  }

  /** Every tag of a company that is also in `b` is a tag of `b`. */
  lemma TagSetIncluded(a: seq<Company>, b: seq<Company>)
    requires forall c :: c in a ==> c in b
    ensures TagSet(a) <= TagSet(b)
  {
    forall t | t in TagSet(a) ensures t in TagSet(b) {
      var i, j :| 0 <= i < |a| && 0 <= j < |a[i].industryTags| && a[i].industryTags[j] == t;
      assert a[i] in a;
      var k :| 0 <= k < |b| && b[k] == a[i];
      assert b[k].industryTags[j] == t;
    }
  }

  /** Two companies, one active from 2015 and one acquired from 2012, in
      two industries. */
  lemma TwoCompanyExample()
    ensures var acme := Company(1, "Acme", "", None, None, Some(2015), ["fintech"], Active);
            var zenith := Company(2, "Zenith", "", None, None, Some(2012), ["health"], Acquired);
            Summarize([acme, zenith]) == Stats(2, 1, 0, 1, 2, Some(3))
  {
    var acme := Company(1, "Acme", "", None, None, Some(2015), ["fintech"], Active);
    var zenith := Company(2, "Zenith", "", None, None, Some(2012), ["health"], Acquired);
    var data := [acme, zenith];
    assert data[1..] == [zenith];
    assert YearLoop(data, None, 0) == (Some(2012), 2015);
    assert CountStatus(data, Active) == 1;
    assert CountStatus(data, Inactive) == 0;
    assert CountStatus(data, Acquired) == 1;
    assert TagLists(data) == [["fintech"], ["health"]];
    var lists: seq<seq<string>> := [["fintech"], ["health"]];
    assert lists[1..] == [["health"]];
    assert lists[1..][1..] == [];
    assert Flatten(lists) == ["fintech", "health"];
    assert Dedup(["fintech", "health"]) == ["fintech", "health"];
    assert |DistinctTags(data)| == 2;
  }
}
