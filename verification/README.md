# ef-db core, modelled in Dafny

ef-db is a read-only browser for the companies of the Entrepreneur First
accelerator, plus a Python scraper that fills its database. Most of the
repository is rendering, HTTP and database calls. This project models the
small pure computations spread over seven of its files, with contracts and
lemmas for each one.

- `in_numbers.dfy` (`InNumbers`): the "in numbers" statistics. It covers the
  total, the count for each status, the number of distinct industry tags and
  the span of founding years. Where the browser would compute
  `0 - Infinity`, the span is `None`.
- `companies_table.dfy` (`CompaniesTable`): the industry filter's options,
  which are the distinct tags in ascending order of their UTF-16 code units. Also the link target of a
  company's name and the badge shown for each status.
- `company_modal.dfy` (`CompanyModal`): the tidying of fetched founders,
  whose education and employer lists are de-duplicated keeping first
  occurrences. Also the `(founders, isLoading)` state around the fetch.
- `industry_tags.dfy` (`IndustryTags`): `clean_industry_tags`. Tags are split
  on the four separators and on `/`, each part is renamed by the rule table,
  and the result is a set. Also the `update_data` record with its field
  truncations.
- `founder_names.dfy` (`FounderNames`): `split_name_by_capitals`, which puts a
  space before every capital and strips at most one honorific. Also the
  split of a clean name into first and last name, and the pairing of founder
  `i` with LinkedIn link `i`.
- `duplicate_founders.dfy` (`DuplicateFounders`): `clean_string`, the lenient
  key and the keep-or-delete loop. The loop is separated from the database
  calls and written for any key type.
- `founder_stats.dfy` (`FounderStats`): the employer and university
  frequency tables cut to the top `n`, and the age statistics.
- Shared helpers:
  - `records.dfy`: the company and founder records of
    `frontend/types/index.ts`.
  - `chars.dfy`: ASCII character classes.
  - `strings.dfy`: Python's `lower`, `strip`, `split()`, `split("/")` and
    `replace`, and `str(int)`.
  - `lists.dfy`: `[...new Set(xs)]` and `flatMap`.
  - `sorting.dfy`: a stable insertion sort by a total preorder, and
    JavaScript's string order by UTF-16 code units.

Every operation is a pure function or a method over immutable values.
Database failures are a parameter: `failing` is the set of ids whose delete
call raises.

## Model

| member | source | states |
|---|---|---|
| InNumbers.Summarize | frontend/components/in-numbers.tsx:43-65 | `total` is the number of companies. Each status count is the number of occurrences of that status. The three counts add up to the total. `industries` is the size of the set of all tags. The span meets the reference description `IsSpan`. |
| InNumbers.CountStatusIsOccurrences | frontend/components/in-numbers.tsx:47-49 | The filtered count for a status equals that status's multiplicity among the companies' statuses. |
| InNumbers.StatusCountsAddUp | frontend/types/index.ts:18 | Status has exactly three values, so active + inactive + acquired equals the list length. |
| InNumbers.CountStatusPermutation | frontend/components/in-numbers.tsx:47-49 | Reordering the companies leaves every status count unchanged. |
| InNumbers.YearLoop | frontend/components/in-numbers.tsx:53-60 | The loop's minimum stays "Infinity" exactly when no year is truthy. Otherwise it is the least counted year (or the start value). The maximum is at least its start of 0 and is either that start or a counted year, bounding every counted year. |
| InNumbers.YearsActive | frontend/components/in-numbers.tsx:52-62 | The span is None exactly when no company has a truthy year. Otherwise it is `max(0, latest) - earliest` over the counted years. |
| InNumbers.SpanUnique | frontend/components/in-numbers.tsx:52-62 | The span's reference description admits one value only, so it determines the result. |
| InNumbers.YearsActiveNonNegative | frontend/components/in-numbers.tsx:52-62 | When every counted year is positive, the span is not negative. |
| InNumbers.YearlessCompanyIgnored | frontend/components/in-numbers.tsx:56 | Appending a company whose year is null or 0 leaves the span unchanged. |
| InNumbers.SummarizePermutation | frontend/components/in-numbers.tsx:43-65 | The whole statistics record depends only on the multiset of companies, not on their order. |
| InNumbers.TwoCompanyExample | frontend/components/in-numbers.tsx:43-65 | Two companies (active 2015 "fintech", acquired 2012 "health") give total 2, counts 1/0/1, 2 industries and span 3. |
| Records.DistinctTags | frontend/components/in-numbers.tsx:50-51 | The tags of all companies, each listed once, and exactly the tags some company carries. |
| CompaniesTable.UniqueIndustries | frontend/components/companies-table.tsx:118-120 | The options are sorted ascending by UTF-16 code units, the order of JavaScript's default `sort()`, and have no repeats. A string is an option exactly when some company carries it as a tag. |
| CompaniesTable.UniqueIndustriesOfNothing | frontend/components/companies-table.tsx:118-120 | No companies give no industry options. |
| CompaniesTable.UniqueIndustriesStrictlyAscending | frontend/components/companies-table.tsx:118-120 | Any two options are in order and different. |
| Sorting.Units | frontend/components/companies-table.tsx:120 | A character below U+10000 is one code unit, any other is two, and the first unit is a high surrogate exactly in the second case. |
| Sorting.Utf16Injective | frontend/components/companies-table.tsx:120 | Two strings with the same UTF-16 code units are equal. |
| Sorting.CodeUnitLeIsTotalPreorder | frontend/components/companies-table.tsx:120 | Comparing code units orders any two strings and is transitive. |
| Sorting.CodeUnitLeAntisymmetric | frontend/components/companies-table.tsx:120 | Strings ordered both ways are equal, so the order is total. |
| Sorting.OrdersAgreeBelowSurrogates | frontend/components/companies-table.tsx:120 | For strings without characters above U+FFFF, code-unit order and code-point order coincide. |
| Sorting.OrdersDisagreeAboveFFFF | frontend/components/companies-table.tsx:120 | U+FF61 precedes U+1F600 by code point but follows it by code unit. |
| CompaniesTable.NameHref | frontend/components/companies-table.tsx:24-28 | The link is the website when it is a non-empty string and the Wikipedia fallback otherwise, so it is never empty. |
| CompaniesTable.StatusBadgesDistinct | frontend/components/companies-table.tsx:41-50 | Two different statuses get different labels and different styles. |
| CompaniesTable.StatusLabelCapitalises | frontend/components/companies-table.tsx:46-50 | Each label is the stored status with its first letter upper-cased, so it never equals the stored value (the mismatch behind the status dropdown). |
| Lists.Dedup | frontend/components/company-modal.tsx:38-39 | The result has no repeats, holds the same elements as the input and is no longer than it. |
| Lists.DedupKeepsFirstOccurrences | frontend/components/company-modal.tsx:38-39 | De-duplication equals the reference definition: each element at its first occurrence, in input order. |
| Lists.DedupIdempotent | frontend/components/company-modal.tsx:38-39 | De-duplicating twice is de-duplicating once. |
| Lists.DedupOfDistinct | frontend/components/company-modal.tsx:38-39 | A list without repeats is returned unchanged. |
| CompanyModal.DistinctOrEmpty | frontend/components/company-modal.tsx:38-39 | A null list gives `[]`. Otherwise the result is the first occurrences of the list, with no repeats and the same elements. |
| CompanyModal.ProcessFounder | frontend/components/company-modal.tsx:36-40 | Every field but the two lists is copied unchanged, and the two lists are de-duplicated. |
| CompanyModal.ProcessFounders | frontend/components/company-modal.tsx:36-40 | The count and order of founders are kept, each row is processed, and every result has repeat-free lists. |
| CompanyModal.ProcessFoundersIdempotent | frontend/components/company-modal.tsx:36-40 | Processing a processed founder's lists again changes nothing. |
| CompanyModal.RepeatedEducationCollapses | frontend/components/company-modal.tsx:38 | `["MIT", "MIT"]` is shown as `["MIT"]`. |
| CompanyModal.Started | frontend/components/company-modal.tsx:24-26 | With no company nothing changes. With one, loading starts and the founders are kept. |
| CompanyModal.Settled | frontend/components/company-modal.tsx:22-47 | With no company nothing changes. Otherwise loading ends. On success the founders become the processed rows. On error or missing data they keep their previous value. |
| CompanyModal.FetchKeepsFoundersTidy | frontend/components/company-modal.tsx:22-47 | The initial state is tidy (repeat-free lists), and starting or settling a fetch keeps it so. |
| CompanyModal.FetchKeepsCompany | frontend/components/company-modal.tsx:29-43 | Whatever was shown before: if the query succeeds with only rows of the selected company, the founders shown all belong to it. |
| CompanyModal.FailedFetchShowsStaleFounders | frontend/components/company-modal.tsx:34-43 | When the query fails or returns no data, founders of a previously shown company stay on show under the newly selected one. |
| CompanyModal.SettledAsDesigned | frontend/components/company-modal.tsx:22-47 | As `Settled`, except that a failed query or missing data leaves no founders. |
| CompanyModal.DesignedFetchKeepsCompany | frontend/components/company-modal.tsx:29-43 | With failures clearing the list, every founder on show after a fetch belongs to the selected company, whatever was shown before. |
| CompanyModal.DesignedFetchKeepsFoundersTidy | frontend/components/company-modal.tsx:34-43 | The corrected fetch also keeps the lists on show repeat-free. |
| IndustryTags.Parts | scraper/db.py:51-57 | A tag splits into at least one part, and no part contains `/`. |
| IndustryTags.NoSeparatorInPhrase | scraper/db.py:52-55 | No separator occurs in a phrase: letters, digits and spaces with no word "or" or "Or". |
| IndustryTags.NoSeparatorAt | scraper/db.py:52-55 | In two phrases joined by a separator or `/`, no separator occurs anywhere except as the joint itself. |
| IndustryTags.SeparatorSplitsLikeSlash | scraper/db.py:51-57 | Between two phrases, each of the four separators splits the tag exactly as `/` does, into those two phrases. |
| IndustryTags.CanonicalByRule | scraper/db.py:59-86 | Each rule key is renamed to that rule's tags, whatever the part's original spelling. |
| IndustryTags.NoRuleMentionsDevelopment | scraper/db.py:59-86 | No rule key contains "development", so the position of the "development" test among the rules makes no difference. |
| IndustryTags.CanonicalDevelopment | scraper/db.py:67-68 | A key containing "development" becomes "Developer Tools". |
| IndustryTags.CanonicalFallback | scraper/db.py:87-88 | A key that matches no rule and does not contain "development" keeps the stripped original part. |
| IndustryTags.CanonicalIgnoresCase | scraper/db.py:60-86 | Two parts with the same lower-cased, stripped form that some rule matches are renamed alike. |
| IndustryTags.TagCanonical | scraper/db.py:51-88 | A tag contributes exactly the renamed forms of its parts. |
| IndustryTags.CleanedList | scraper/db.py:48-88 | The loop collects exactly the renamed parts of every tag. |
| IndustryTags.CleanIndustryTags | scraper/db.py:44-90 | A null or empty tag list gives the empty set. Otherwise a string is in the result exactly when it is a renamed form of some part of some tag. |
| IndustryTags.CleanIndustryTagsUnion | scraper/db.py:48-90 | Cleaning a concatenation of tag lists is the union of cleaning each. |
| IndustryTags.PhraseIsPlain | scraper/db.py:51-57 | A phrase holds neither a separator nor `/`. |
| IndustryTags.PartsOfPlainTag | scraper/db.py:51-57 | A tag without separators and `/` is a single part. |
| IndustryTags.PlainTagClean | scraper/db.py:44-90 | Such a tag alone gives exactly the renamed forms of itself. |
| IndustryTags.PlainTagByRule | scraper/db.py:59-86 | Such a tag whose lower-cased, stripped form is a rule key gives exactly that rule's tags. |
| IndustryTags.PlainTagDevelopment | scraper/db.py:67-68 | Such a tag mentioning "development" gives exactly {"Developer Tools"}. |
| IndustryTags.PlainTagFallback | scraper/db.py:87-88 | Such a tag matching no rule gives exactly itself, stripped. |
| IndustryTags.ArVrXrExpands | scraper/db.py:77-80 | Such a tag reading "ar vr xr" in any case gives exactly the three tags AR, VR and XR. |
| IndustryTags.OneTagMembers | scraper/db.py:49-88 | One tag alone gives exactly the renamed forms of its parts. |
| IndustryTags.TwoPartTag | scraper/db.py:49-88 | A tag of two parts gives the renamed forms of both. |
| IndustryTags.CompoundTag | scraper/db.py:44-90 | Two phrases joined by a separator or `/` give the union of the renamed forms of each. |
| IndustryTags.OptionalPrefix | scraper/db.py:114-122 | A missing or empty value gives None. Otherwise the result is the value's prefix of length `min(n, length)`. |
| IndustryTags.BuildUpdate | scraper/db.py:111-126 | Name and EF URL are their first min(255, length) characters. Description, logo and demo video are None exactly when missing or empty, and otherwise their first min(2000, length) or min(255, length) characters. The tags are the cleaned tag set. |
| Strings.Strip | scraper/db.py:60 | The result is a slice of the input with only whitespace cut from either end, and it starts and ends with a non-space. |
| Strings.StripTrimmed | scraper/db.py:60 | A string without whitespace at its ends is left alone. |
| Strings.Split | scraper/db.py:56 | `split("/")` gives at least one field, no field contains the delimiter, and joining the fields with it gives back the input. |
| Strings.ReplaceFirst | scraper/db.py:52-55 | `replace` keeps everything before the first occurrence, substitutes it and carries on after it. |
| Strings.ReplaceOnce | scraper/db.py:52-55 | With a single occurrence of the pattern, `replace` substitutes exactly that occurrence. |
| Strings.ReplaceAbsent | scraper/db.py:52-55 | Without an occurrence of the pattern, `replace` changes nothing. |
| Strings.Truncate | scraper/db.py:112-113 | Slicing to `n` gives a prefix of length `min(n, length)`. |
| FounderNames.CapitalWords | scraper/scrape.py:95-102 | The loop produces at least one word. Every word after the first starts with a capital. The first word keeps the case shape of the starting character. |
| FounderNames.CapitalWordsKeepText | scraper/scrape.py:95-102 | Removing whitespace from the concatenated words gives the whitespace-free input: no other character is lost, added or moved. |
| FounderNames.JoinSeparatesCapitals | scraper/scrape.py:96-103 | In the joined name, every capital after position 0 is preceded by a space. |
| FounderNames.JoinedNameKeepsText | scraper/scrape.py:95-103 | The joined name has the same non-space characters, in order, as the input name. |
| FounderNames.TitlesHaveNoSpace | scraper/scrape.py:79-94 | No honorific contains a space. |
| FounderNames.OpeningTitleUnique | scraper/scrape.py:104-108 | At most one honorific without spaces can open a name, so the set's iteration order cannot matter. |
| FounderNames.StripTitle | scraper/scrape.py:104-108 | Removing a title keeps every capital after the first preceded by a space. |
| FounderNames.StripTitleCuts | scraper/scrape.py:104-108 | If no title opens the name, it is unchanged. If title `t` (space-free) opens it, the result is the stripped rest after `t` and its space. |
| FounderNames.StripTitleKeepsText | scraper/scrape.py:104-108 | With no title, the non-space text is unchanged. With title `t`, the non-space text is `t` followed by that of the result. |
| FounderNames.SplitNameByCapitals | scraper/scrape.py:78-109 | For a non-empty name, the result separates every capital after position 0 by a space. |
| FounderNames.SplitNameKeepsText | scraper/scrape.py:78-109 | The result holds exactly the non-space characters of the input, minus a leading title if one was stripped. |
| FounderNames.DoctorWords | scraper/scrape.py:95-102 | "Dr" followed by two capitalised names breaks into the words "Dr", first and last. |
| FounderNames.DoctorExample | scraper/scrape.py:78-109 | "Dr" + first + last yields "first last", so "DrJohnSmith" gives "John Smith". |
| Strings.Tokens | scraper/scrape.py:131 | `split()` gives non-empty, space-free tokens. |
| Strings.TokensOfLayout | scraper/scrape.py:131 | A string laid out as whitespace runs alternating with non-empty words (non-empty runs between words) splits into exactly those words. |
| Strings.TokensLayout | scraper/scrape.py:131 | Every string is so laid out with its tokens as the words, so the tokens are the maximal runs of non-whitespace. |
| Strings.TokensKeepText | scraper/scrape.py:131 | The tokens together hold exactly the non-space characters of the input. |
| Strings.TokensOfJoin | scraper/scrape.py:133 | Splitting words joined by single spaces gives the words back. |
| Strings.JoinSingleSpaced | scraper/scrape.py:133 | Words joined by `" "` have no whitespace at either end and only single spaces between non-space characters. |
| Strings.SingleSpacedCons | scraper/scrape.py:133 | A word, a space and a single-spaced string make a single-spaced string. |
| FounderNames.NameFields | scraper/scrape.py:131-133 | With no tokens both names are empty. Otherwise the first name is the first token and the last name's tokens are the rest. The last name is empty with at most one token, and is always single-spaced with no surrounding whitespace. Together they keep the whole non-space text. |
| FounderNames.PairedFounder | scraper/scrape.py:130-143 | The first name has no whitespace, and the link is the one given. |
| FounderNames.PairFounders | scraper/scrape.py:128-143 | An empty name makes the scrape fail. Otherwise there is one founder per name, in order, and founder `i` gets link `i` when there is one, else None. |
| FounderNames.PairedFounderKeepsText | scraper/scrape.py:129-143 | First name plus last name holds the scraped name's non-space characters, minus a title that was stripped. |
| DuplicateFounders.CleanChars | scraper/remove_duplicate_founders.py:16 | The result has only lower-case letters and digits and is no longer than the input. A character occurs in it exactly when it is the lower-cased form of some letter or digit of the input. |
| DuplicateFounders.CleanCharsOfOne | scraper/remove_duplicate_founders.py:16 | One letter or digit is kept, lower-cased, and any other character is dropped; with CleanCharsConcat this fixes the cleaning of every string in order. |
| DuplicateFounders.CleanString | scraper/remove_duplicate_founders.py:12-16 | None and "" give "", and any other value gives the cleaning of its characters. |
| DuplicateFounders.CleanCharsIdempotent | scraper/remove_duplicate_founders.py:16 | Cleaning twice is cleaning once. |
| DuplicateFounders.CleanCharsConcat | scraper/remove_duplicate_founders.py:16 | Cleaning works character by character: the cleaning of a concatenation is the concatenation of the cleanings. |
| DuplicateFounders.CleanCharsIgnoresSpaces | scraper/remove_duplicate_founders.py:16 | Whitespace never reaches the key. |
| DuplicateFounders.CleanCharsIgnoresCase | scraper/remove_duplicate_founders.py:16 | Case never matters to the key. |
| DuplicateFounders.LenientKeyMergesCompanies | scraper/remove_duplicate_founders.py:40-44 | "Ann Lee1" at company 2 and "Ann Lee" at company 12 share a lenient key although their companies differ. |
| DuplicateFounders.LenientKeyExactWithoutDigits | scraper/remove_duplicate_founders.py:40-44 | When the cleaned names hold no digit, equal lenient keys mean equal names and equal companies. |
| DuplicateFounders.FounderKeySeparatesCompanies | scraper/remove_duplicate_founders.py:40-44 | Founders sharing the corrected key belong to the same company and have the same cleaned name. |
| DuplicateFounders.FounderKeyRefinesLenientKey | scraper/remove_duplicate_founders.py:40-44 | Whatever the corrected key groups, the lenient key groups too. |
| DuplicateFounders.Processed | scraper/remove_duplicate_founders.py:30-37 | The loop gets through the longest prefix of founders that all have a last name. The strict key's `.lower()` raises on the first founder without one. |
| DuplicateFounders.CrashesOnMissingLastName | scraper/remove_duplicate_founders.py:32-37 | The run stops early exactly when some founder has no last name. |
| DuplicateFounders.VisitFrom | scraper/remove_duplicate_founders.py:50-81 | From any point of the loop, the dictionary holds the lowest-id founder of each key seen, each other founder has had one delete call, and the count is the number of calls that did not raise. |
| DuplicateFounders.DecideDeletions | scraper/remove_duplicate_founders.py:50-81 | Each key maps to its founder of lowest id. With unique ids, a founder gets a delete call exactly when it is not the one kept. Calls number founders minus keys. The reported count is the calls that did not raise, which is founders minus distinct keys when none fails. |
| DuplicateFounders.DeletionsByKey | scraper/remove_duplicate_founders.py:61-77 | With unique ids, a founder is deleted exactly when another founder with the same key has a lower id. |
| DuplicateFounders.RemoveByKey | scraper/remove_duplicate_founders.py:30-81 | The loop stops at a missing last name. The count is the non-raising calls. A founder is deleted exactly when a founder with the same key has a lower id. |
| DuplicateFounders.RemoveDuplicatesAsWritten | scraper/remove_duplicate_founders.py:30-81 | The script with its lenient key: a founder gets a delete call exactly when another founder with the same lenient key has a lower id. |
| DuplicateFounders.DeletionsByKeyOf | scraper/remove_duplicate_founders.py:61-77 | Deletion by precomputed keys is deletion by the key function that computed them. |
| DuplicateFounders.RemoveDuplicates | scraper/remove_duplicate_founders.py:30-81 | With the corrected key: a founder is deleted exactly when a founder with the same cleaned name, at the same company, has a lower id. |
| FounderStats.Contribution | scraper/process_founder_data.py:15-16 | A missing list contributes nothing, and a present one contributes all its entries. |
| FounderStats.EmployersConcat | scraper/process_founder_data.py:13-16 | The flattened employers of two groups of founders are those of each group, in order, and their counts add. |
| FounderStats.UniversitiesConcat | scraper/process_founder_data.py:22-25 | The same for education. |
| FounderStats.EmptyListsAddNothing | scraper/process_founder_data.py:15-16 | A founder with a missing or empty list adds nothing to the flattened lists. |
| FounderStats.EmptyListsCountNothing | scraper/process_founder_data.py:11-26 | Such a founder changes neither frequency table. |
| FounderStats.MostCommon | scraper/process_founder_data.py:17 | There are `min(n, distinct values)` entries. Each entry holds a value with its true number of occurrences. Counts do not increase, no value repeats, and a value left out is no more common than the last entry. |
| FounderStats.TopCompanies | scraper/process_founder_data.py:11-17 | min(100, number of distinct employers) entries, repeat-free, each an employer with its total number of occurrences, counts non-increasing, and any employer left out is no more common than the last entry. |
| FounderStats.TopUniversities | scraper/process_founder_data.py:20-26 | min(11, number of distinct universities) entries, repeat-free, each a university with its total number of occurrences, counts non-increasing, and any university left out is no more common than the last entry. |
| FounderStats.AgesFromBirthYears | scraper/process_founder_data.py:32-37 | An age is present exactly when some founder has a truthy birth year and the age is 2024 minus it. |
| FounderStats.AgesConcat | scraper/process_founder_data.py:34-37 | Ages are collected founder by founder, in order. |
| FounderStats.UpperMedian | scraper/process_founder_data.py:42 | `sorted(ages)[len // 2]` is an element of the list. At most half of the list (rounded down) is below it, and more than that is at or below it. |
| FounderStats.UpperMedianUnique | scraper/process_founder_data.py:42 | That description fixes the median uniquely. |
| FounderStats.GetAgeData | scraper/process_founder_data.py:30-44 | No ages give the "nothing" result. Otherwise the oldest and youngest are ages bounding every age, the total is the sum of the ages, the count is the number of ages, and the median is an age that is the upper median. |
| FounderStats.AverageBetweenExtremes | scraper/process_founder_data.py:44 | The average, total over count, lies between the youngest and the oldest age. |
| FounderStats.MedianBetweenExtremes | scraper/process_founder_data.py:42-44 | The median lies between the youngest and the oldest age. |
| FounderStats.UnknownBirthYearIgnored | scraper/process_founder_data.py:35-37 | A founder whose birth year is missing or 0 changes nothing. |
| Sorting.SortBy | scraper/process_founder_data.py:42 | Sorting gives an ordered permutation of the input. |

## Left out

- Rendering, styling, routing and layout: the JSX of every component, `frontend/app/page.tsx` and `frontend/app/layout.tsx`. These are user interface only.
- Table text search, the status and industry filters, and column sorting. These happen inside the table library, which is not part of this model. The status dropdown offers capitalised names while the data holds lower-case ones; `CompaniesTable.StatusLabelCapitalises` records the mismatch, but the outcome depends on that library.
- The hard-coded figures of the "in numbers" panel (`foundersCount`, the age data and the top-ten lists). They are constants with nothing to state.
- Every database query, upsert and delete, and `check_website_status`. These are network calls. A failing delete is modelled by the `failing` parameter of the de-duplication methods.
- Page scraping, the thread pool and the retry-and-sleep loop of `fetch_company_details`. These are I/O, concurrency and timing; only the pairing of names with links is modelled. `PairFounders` treats an empty scraped name as a failure, where `name[0]` raises an IndexError and the surrounding `except` returns no details for that company.
- The float division of `get_age_data`'s average. `GetAgeData` returns the sum and count it divides, and `AverageBetweenExtremes` bounds the quotient.
- The strict key of the de-duplication script. It is only printed. Its one effect, the crash on a founder without a last name, is modelled by `Processed`, so last names stay optional rather than non-null.
- Unicode: `isupper`, `isalnum`, `lower` and `isspace` are modelled on ASCII only (whitespace includes the characters 0x1c-0x1f, as Python's `isspace` does).
- `clean_industry_tags` returns `list(set(...))`, whose order Python leaves unspecified. `CleanIndustryTags` returns the set.
- The company modal does not guard against a response arriving for a company that is no longer selected; `Settled` applies it to whatever is shown, as the code does.
- FounderStats.MostCommon: ties are ordered by first appearance, because `Counter.most_common` lists equal counts in insertion order and the sort here is stable. The contract does not state the order among equal counts.
- IndustryTags.SeparatorSplitsLikeSlash: stated only for phrases made of ASCII letters, digits and spaces, so a part such as "E-commerce" or "Retail & Travel" is outside it (and outside CompoundTag); and only for phrases without the word "or" or "Or". Such a word next to a separator changes the split: "Foo Or or Bar" gives ["Foo Or", "Bar"], because " or " is replaced first, while "Foo/or Bar" gives ["Foo", "or Bar"].

## Findings

| source | as written | input that shows it | evidently intended | confidence | as-written member | corrected member |
|---|---|---|---|---|---|---|
| scraper/remove_duplicate_founders.py:40-44 | The lenient key joins the cleaned first name, the cleaned last name and the company id with no separator. | "Ann Lee1" at company 2 and "Ann Lee" at company 12 both get the key "annlee12", so the founder with the higher id is deleted although the companies differ. | Only founders of the same company with the same cleaned name are duplicates. | low; not executed | DuplicateFounders.LenientKeyMergesCompanies, DuplicateFounders.RemoveDuplicatesAsWritten | DuplicateFounders.FounderKeySeparatesCompanies, DuplicateFounders.RemoveDuplicates |
| frontend/components/company-modal.tsx:34-43 | Only a successful query calls `setFounders`. On an error or missing data the previous founders stay in state, and the modal stays mounted while the selection changes. | Show company A, whose founders load; then select company B and let its query fail. B's modal lists A's founders. | A failed founder query shows no founders. | medium; not executed | CompanyModal.Settled, CompanyModal.FailedFetchShowsStaleFounders | CompanyModal.SettledAsDesigned, CompanyModal.DesignedFetchKeepsCompany |
