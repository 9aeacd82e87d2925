/** The company detail view's founder state: the founders fetched for the
    selected company, with each founder's education and employer lists
    de-duplicated, and the loading flag around the fetch. */
module CompanyModal {
  import opened Records
  import opened Lists

  /** `xs ? [...new Set(xs)] : []` */
  function DistinctOrEmpty(xs: Option<seq<string>>): (r: seq<string>)
    ensures xs.None? ==> r == []
    ensures NoDuplicates(r)
    ensures forall x :: x in r <==> xs.Some? && x in xs.value
    ensures r == FirstOccurrences(xs.GetOr([]))
  {
    match xs
    case None => []
    case Some(v) => DedupKeepsFirstOccurrences(v); Dedup(v)
  }

  /** One founder row as `fetchFounders` rewrites it: only the two lists
      change. */
  function ProcessFounder(row: FounderRow): (f: Founder)
    ensures f.id == row.id && f.firstName == row.firstName && f.lastName == row.lastName
    ensures f.linkedinUrl == row.linkedinUrl && f.companyId == row.companyId
    ensures f.estimatedBirthYear == row.estimatedBirthYear
    ensures f.education == DistinctOrEmpty(row.education)
    ensures f.employers == DistinctOrEmpty(row.employers)
  {
    Founder(row.id, row.firstName, row.lastName, row.linkedinUrl, row.estimatedBirthYear,
            DistinctOrEmpty(row.education), DistinctOrEmpty(row.employers), row.companyId)
  }

  /** Lists a processed founder shows without repeats. */
  predicate Tidy(f: Founder) {
    NoDuplicates(f.education) && NoDuplicates(f.employers)
  }

  /** `processedFounders`: every row processed, count and order kept. */
  function ProcessFounders(rows: seq<FounderRow>): (r: seq<Founder>)
    ensures |r| == |rows|
    ensures forall i :: 0 <= i < |rows| ==> r[i] == ProcessFounder(rows[i])
    ensures forall i :: 0 <= i < |r| ==> Tidy(r[i])
  {
    if |rows| == 0 then [] else [ProcessFounder(rows[0])] + ProcessFounders(rows[1..])
  }

  /** Processing is idempotent: the lists it produces are already free of
      repeats, so de-duplicating them again changes nothing. */
  lemma ProcessFoundersIdempotent(rows: seq<FounderRow>, i: int)
    requires 0 <= i < |rows|
    ensures var f := ProcessFounders(rows)[i];
            Dedup(f.education) == f.education && Dedup(f.employers) == f.employers
  {
    var f := ProcessFounders(rows)[i];
    DedupOfDistinct(f.education);
    DedupOfDistinct(f.employers);
  }

  /** A founder who studied at MIT twice is shown with MIT once. */
  lemma RepeatedEducationCollapses(row: FounderRow)
    requires row.education == Some(["MIT", "MIT"])
    ensures ProcessFounder(row).education == ["MIT"]
  {
    assert ["MIT", "MIT"][..1] == ["MIT"];
    assert ["MIT"][..0] == [];
  }

  /** `founders` and `isLoading`. */
  datatype ModalState = ModalState(founders: seq<Founder>, isLoading: bool)

  const Initial: ModalState := ModalState([], false)

  /** What the founders query resolves to: `{ data, error }`. */
  datatype Response = Response(data: Option<seq<FounderRow>>, error: bool)

  /** The effect's first step, before the query resolves: with a company
      selected, loading starts. */
  function Started(st: ModalState, company: Option<Company>): (r: ModalState)
    ensures company.None? ==> r == st
    ensures company.Some? ==> r.isLoading && r.founders == st.founders
  {
    if company.None? then st else st.(isLoading := true)
  }

  /** The effect once the query has resolved: on success the processed
      rows replace the founders, on error they stay; loading ends either
      way. With no company selected nothing happens. */
  function Settled(st: ModalState, company: Option<Company>, resp: Response): (r: ModalState)
    ensures company.None? ==> r == st
    ensures company.Some? ==> !r.isLoading
    ensures (company.Some? && !resp.error && resp.data.Some?)
              ==> r.founders == ProcessFounders(resp.data.value)
    ensures company.Some? && (resp.error || resp.data.None?) ==> r.founders == st.founders
  {
    if company.None? then st
    else
      var started := Started(st, company);
      var founders := if !resp.error && resp.data.Some? then ProcessFounders(resp.data.value)
                      else started.founders;
      ModalState(founders, false)
  }

  /** Every founder on show has repeat-free lists. */
  predicate Shown(st: ModalState) {
    forall i :: 0 <= i < |st.founders| ==> Tidy(st.founders[i])
  }

  /** The view starts tidy and every fetch keeps it tidy. */
  lemma FetchKeepsFoundersTidy(st: ModalState, company: Option<Company>, resp: Response)
    requires Shown(st)
    ensures Shown(Initial)
    ensures Shown(Started(st, company))
    ensures Shown(Settled(st, company, resp))
  {
  }

  /** After a successful query the founders on show are those of the
      selected company, provided the query returns only rows with that
      company id. */
  lemma FetchKeepsCompany(st: ModalState, c: Company, resp: Response)
    requires resp.data.Some? ==> forall i :: 0 <= i < |resp.data.value| ==> resp.data.value[i].companyId == c.id
    ensures var r := Settled(st, Some(c), resp);
            !resp.error && resp.data.Some? ==>
              forall i :: 0 <= i < |r.founders| ==> r.founders[i].companyId == c.id
  {
  }

  /** A failed query leaves the previous company's founders on show under
      the newly selected company. */
  lemma FailedFetchShowsStaleFounders(st: ModalState, c: Company, resp: Response)
    requires |st.founders| > 0 && st.founders[0].companyId != c.id
    requires resp.error || resp.data.None?
    ensures var r := Settled(st, Some(c), resp);
            |r.founders| > 0 && r.founders[0].companyId != c.id
  {
  }

  /** The effect as designed: a failed query shows no founders instead of
      keeping the old ones. */
  function SettledAsDesigned(st: ModalState, company: Option<Company>, resp: Response): (r: ModalState)
    ensures company.None? ==> r == st
    ensures company.Some? ==> !r.isLoading
    ensures (company.Some? && !resp.error && resp.data.Some?)
              ==> r.founders == ProcessFounders(resp.data.value)
    ensures company.Some? && (resp.error || resp.data.None?) ==> r.founders == []
  {
    if company.None? then st
    else if !resp.error && resp.data.Some? then ModalState(ProcessFounders(resp.data.value), false)
    else ModalState([], false)
  }

  /** As designed, whatever was on show before, every founder on show after
      a fetch belongs to the selected company. */
  lemma DesignedFetchKeepsCompany(st: ModalState, c: Company, resp: Response)
    requires resp.data.Some? ==> forall i :: 0 <= i < |resp.data.value| ==> resp.data.value[i].companyId == c.id
    ensures var r := SettledAsDesigned(st, Some(c), resp);
            forall i :: 0 <= i < |r.founders| ==> r.founders[i].companyId == c.id
  {
  }

  /** As designed, fetches keep the founders tidy too. */
  lemma DesignedFetchKeepsFoundersTidy(st: ModalState, company: Option<Company>, resp: Response)
    requires Shown(st)
    ensures Shown(SettledAsDesigned(st, company, resp))
  {
  }
}
