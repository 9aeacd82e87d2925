/** The records the browser and the scraper exchange through the database:
    a company with a closed three-value status, and a founder, both as the
    frontend types declare them and, for founders, as a database row whose
    list columns may be null. Display-only and audit columns (logo, demo
    video, revenue, funding, employee count, timestamps) are not carried. */
module Records {
  import opened Lists

  datatype Option<+T> = None | Some(value: T) {
    function GetOr(default: T): T {
      match this
      case Some(v) => v
      case None => default
    }
  }

  /** `"active" | "inactive" | "acquired"` */
  datatype Status = Active | Inactive | Acquired

  datatype Company = Company(
    id: int,
    name: string,
    efWebsiteUrl: string,
    description: Option<string>,
    websiteUrl: Option<string>,
    foundingYear: Option<int>,
    industryTags: seq<string>,
    status: Status)

  /** A founder as the frontend shows it: both lists present. */
  datatype Founder = Founder(
    id: int,
    firstName: string,
    lastName: Option<string>,
    linkedinUrl: Option<string>,
    estimatedBirthYear: Option<int>,
    education: seq<string>,
    employers: seq<string>,
    companyId: int)

  /** A row of the founders table as the database client returns it: the
      list columns may be null. */
  datatype FounderRow = FounderRow(
    id: int,
    firstName: string,
    lastName: Option<string>,
    linkedinUrl: Option<string>,
    estimatedBirthYear: Option<int>,
    education: Option<seq<string>>,
    employers: Option<seq<string>>,
    companyId: int)

  /** The tag lists of the companies, in order. */
  function TagLists(data: seq<Company>): (r: seq<seq<string>>)
    ensures |r| == |data|
    ensures forall i :: 0 <= i < |data| ==> r[i] == data[i].industryTags
  {
    if |data| == 0 then [] else [data[0].industryTags] + TagLists(data[1..])
  }

  /** Every tag some company carries. */
  ghost function TagSet(data: seq<Company>): set<string> {
    set i, j | 0 <= i < |data| && 0 <= j < |data[i].industryTags| :: data[i].industryTags[j]
  }

  /** `new Set(data.flatMap((company) => company.industry_tags))`, in the
      set's iteration order: each tag once, compared exactly, in order of
      first appearance. */
  function DistinctTags(data: seq<Company>): (r: seq<string>)
    ensures NoDuplicates(r)
    ensures forall t :: t in r <==> t in TagSet(data)
  {
    var all := Flatten(TagLists(data));
    assert forall t :: t in all <==> t in TagSet(data) by {
      forall t ensures t in all <==> t in TagSet(data) {
        if t in all {
          var i :| 0 <= i < |data| && t in TagLists(data)[i];
          var j :| 0 <= j < |data[i].industryTags| && data[i].industryTags[j] == t;
        }
      }
    }
    Dedup(all)
  }
}
