/** The pure parts of the companies table: the industry options offered
    by the industry filter, the target of the company-name link, and the
    badge each status is shown with. */
module CompaniesTable {
  import opened Chars
  import opened Records
  import opened Lists
  import opened Sorting

  /** `uniqueIndustries`: the distinct tags of all companies, in the
      ascending order of their UTF-16 code units. */
  function UniqueIndustries(data: seq<Company>): (r: seq<string>)
    ensures SortedBy(r, CodeUnitLe)
    ensures NoDuplicates(r)
    ensures forall t :: t in r <==> t in TagSet(data)
  {
    CodeUnitLeIsTotalPreorder();
    var tags := DistinctTags(data);
    var r := SortBy(tags, CodeUnitLe);
    NoDuplicatesPermutation(tags, r);
    assert forall t :: t in r <==> t in tags by {
      forall t ensures t in r <==> t in tags {
        assert t in r <==> t in multiset(r);
        assert t in tags <==> t in multiset(tags);
      }
    }
    r
  }

  /** No company, no industry option. */
  lemma UniqueIndustriesOfNothing()
    ensures UniqueIndustries([]) == []
  {
    assert TagSet([]) == {};
  }

  /** The options are strictly ascending: sorted and without repeats. */
  lemma UniqueIndustriesStrictlyAscending(data: seq<Company>, i: int, j: int)
    requires 0 <= i < j < |UniqueIndustries(data)|
    ensures CodeUnitLe(UniqueIndustries(data)[i], UniqueIndustries(data)[j])
    ensures UniqueIndustries(data)[i] != UniqueIndustries(data)[j]
  {
  }

  /** Fallback target of the company-name link when there is no website. */
  const RestInPeace: string := "https://en.wikipedia.org/wiki/Rest_in_peace"

  /** `href` of the company-name link: the website when it is a non-empty
      string, the fallback page otherwise. */
  function NameHref(c: Company): (r: string)
    ensures r != ""
    ensures c.websiteUrl.Some? && c.websiteUrl.value != "" ==> r == c.websiteUrl.value
    ensures c.websiteUrl.None? || c.websiteUrl.value == "" ==> r == RestInPeace
  {
    match c.websiteUrl
    case Some(url) => if url != "" then url else RestInPeace
    case None => RestInPeace
  }

  /** The status as stored in the database. */
  function StatusName(s: Status): string {
    match s
    case Active => "active"
    case Inactive => "inactive"
    case Acquired => "acquired"
  }

  /** `statusLabels[status]` */
  function StatusLabel(s: Status): string {
    match s
    case Active => "Active"
    case Inactive => "Inactive"
    case Acquired => "Acquired"
  }

  /** The Tailwind colour of each status badge. */
  function StatusColour(s: Status): string {
    match s
    case Active => "emerald"
    case Inactive => "rose"
    case Acquired => "purple"
  }

  /** `statusStyles[status]`: background, text and border in the status's
      colour, e.g. "bg-emerald-100 text-emerald-800 border-2
      border-emerald-300". */
  function StatusStyle(s: Status): string {
    var c := StatusColour(s);
    "bg-" + c + "-100 text-" + c + "-800 border-2 border-" + c + "-300"
  }

  /** Different statuses get different badges, both in wording and in
      colour. */
  lemma StatusBadgesDistinct(a: Status, b: Status)
    requires a != b
    ensures StatusLabel(a) != StatusLabel(b)
    ensures StatusStyle(a) != StatusStyle(b)
  {
    assert forall s :: StatusLabel(s)[2] == match s case Active => 't' case Inactive => 'a' case Acquired => 'q';
    assert forall s :: StatusStyle(s)[3] == StatusColour(s)[0];
  }

  /** The label is the stored value with its first letter capitalised, so
      it never equals the stored value itself. */
  lemma StatusLabelCapitalises(s: Status)
    ensures var n := StatusName(s);
            StatusLabel(s) == [ToUpper(n[0])] + n[1..]
    ensures StatusLabel(s) != StatusName(s)
  {
    var n := StatusName(s);
    assert StatusLabel(s)[0] != n[0];
  }
}
