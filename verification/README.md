# Drug catalog: a verified model of the listing logic

The system is a drug catalog. An Express/Mongoose backend serves one collection of drugs. A
React frontend lists, searches and sorts those drugs. This project models the logic under
that plumbing in Dafny and proves what it does.

Backend, modules `QueryDto`, `DrugModel`, `DrugService` and `TableConfig`:
- The query schema turns the query-string values into a typed query with defaults. It reports every offending field.
- The drug collection is a store class. Save and bulk insert reject documents that lack a required field. Every operation keeps codes unique. Update does not re-check the required fields, as `findByIdAndUpdate` runs no validators.
- The listing service runs over one snapshot of the store, in these steps:
  - it clamps page and limit;
  - it builds the filter document and the sort document by adding fields one by one;
  - the store evaluates both documents;
  - it takes the page window;
  - it numbers the response records by rank;
  - it computes the pagination block.
- The service also computes two aggregates: the sorted distinct companies and the statistics.
- The table descriptor is a constant. It agrees with the query schema.

Frontend, modules `Helpers`, `Responsive`, `PaginationHook`, `UseDrugs` and `ClientService`:
- The string helpers: `parseDrugName`, `searchDrugs`, `sortDrugs`, `validateDrugCode`, `validateEmail`, `truncateText` and `getCompanyInitials`.
- The breakpoint arithmetic, with the window width passed in as a parameter.
- The pagination state cell and its setters.
- The default-filling of `useDrugs`.
- The query string that `DrugService.getDrugs` builds.

The last module closes the loop between the two halves. The backend's query parser reads the
frontend's query string back. It recovers exactly the values the frontend sent. It accepts the
request exactly when the page and limit are in range.

`Common` holds the JavaScript string primitives the code relies on:
- white space and `trim`;
- ASCII case mapping;
- character-by-character ordering of strings;
- `includes`, `split` and `join`;
- the decimal text of integers.

## Model

| member | source | states |
|---|---|---|
| Common.Trim | frontend/src/utils/helpers.ts:62 | `trim()`: the result has no white space at either end; a trimmed input is unchanged; the result is empty exactly when the input is all white space |
| Common.TrimInfix | frontend/src/utils/helpers.ts:62 | the result of `trim()` occurs in the input between a prefix and a suffix that are all white space |
| Common.Contains | frontend/src/utils/helpers.ts:67-69 | `includes`: true exactly when the pattern occurs at some position |
| Common.Split | frontend/src/utils/helpers.ts:123 | `split(' ')`: at least one piece, no piece holds the separator, and joining the pieces gives back the text |
| Common.SplitJoin | frontend/src/utils/helpers.ts:122-127 | splitting text joined from separator-free pieces gives back the pieces |
| Common.IntCompare | frontend/src/utils/helpers.ts:99-101 | comparison of timestamps: zero exactly on equal values, negative exactly when the first is smaller |
| Common.NatToString | frontend/src/services/drugService.ts:39-40 | `toString()` of a natural number: non-empty, all digits, and the digits' value is the number |
| QueryDto.ParseSortKey | backend/src/types/dto.ts:17-20 | the `sortBy` enum accepts exactly the four key names, and the accepted key's name is the text |
| QueryDto.ParseSortOrder | backend/src/types/dto.ts:21 | the `sortOrder` enum accepts exactly `asc` and `desc`, and the accepted direction's name is the text |
| QueryDto.SortNamesRoundTrip | backend/src/types/dto.ts:17-21 | every sort key and direction written out is parsed back to itself |
| QueryDto.DigitsDenote | backend/src/types/dto.ts:14-15 | `Number()` of a non-empty run of decimal digits is their decimal value, a whole number |
| QueryDto.NegatedDigitsDenote | backend/src/types/dto.ts:14-15 | `Number()` of a minus sign followed by a run of digits is the negated decimal value, a whole number |
| QueryDto.NumberOfNatToString | backend/src/types/dto.ts:14-15 | `Number()` of a natural number's decimal text is that number |
| QueryDto.CheckNumber | backend/src/types/dto.ts:14-15 | a numeric field: absent gives the default; present is accepted exactly when its text denotes a whole number ≥ 1, and ≤ 100 for the limit, which is then the value; a rejection carries at least one issue |
| QueryDto.NumberIssuesEmpty | backend/src/types/dto.ts:14-15 | `.int().positive()[.max(100)]` raise no issue exactly for whole values > 0, and ≤ 100 when capped |
| QueryDto.AllIssuesReport | backend/src/types/dto.ts:13-23 | the issue list names a field exactly when that field's raw value is invalid |
| QueryDto.ParseQuery | backend/src/types/dto.ts:13-23 | the parse succeeds exactly when every field is valid, and a failure reports every invalid field and no other; a success has page ≥ 1 and limit in 1..100; absent fields take the defaults page 1, limit 20, `launchDate`, `desc`; present ones denote the parsed values; company and search pass through |
| QueryDto.ParseDefaults | backend/src/types/dto.ts:14-22 | an empty query gives page 1, limit 20, `launchDate`, `desc`, with no company and no search |
| QueryDto.ParseAccepts | backend/src/types/dto.ts:13-23 | a raw query whose page denotes a whole number ≥ 1, whose limit denotes one in 1..100 and whose sort key and direction are names of the enums parses to exactly those values, with the defaults for absent keys and company and search passed through |
| QueryDto.PageOnly | backend/src/types/dto.ts:14 | a text that denotes the whole number `n`, sent as the only key, is accepted as a page exactly when `n ≥ 1`, and the page is then `n` |
| QueryDto.LimitOnly | backend/src/types/dto.ts:15 | a text that denotes the whole number `n`, sent as the only key, is accepted as a limit exactly when `1 ≤ n ≤ 100`, and the limit is then `n` |
| QueryDto.PageFromNat | backend/src/types/dto.ts:14 | a page written as a natural number is accepted exactly when it is ≥ 1, and is read as that number |
| QueryDto.LimitFromNat | backend/src/types/dto.ts:15 | a limit written as a natural number is accepted exactly when it lies in 1..100, and is read as that number |
| QueryDto.NegativePageRejected | backend/src/types/dto.ts:14 | the text `-n` of any natural `n`, `-0` included, denotes `-n` and is rejected as a page |
| DrugModel.MissingFields | backend/src/models/Drug.ts:11-36 | the required-field validation lists exactly the missing fields, each once, and lists none exactly when the document is complete; an empty string counts as missing |
| DrugModel.IndexOfId | backend/src/models/Drug.ts:3-9 | the position of the record with an id, or none exactly when no record has it |
| DrugModel.Apply | backend/src/models/Drug.ts:3-9 | a single-field update sets that field and keeps the id and every other field |
| DrugModel.RemovePreserves | backend/src/models/Drug.ts:12-17 | removing a record keeps codes unique and ids ascending, and removes its id |
| DrugModel.DrugStore.constructor | backend/src/models/Drug.ts:45 | an empty collection satisfies the invariant |
| DrugModel.DrugStore.FindById | backend/src/models/Drug.ts:45 | `findById` finds a record exactly when one has the id, and the one it finds has that id |
| DrugModel.DrugStore.Save | backend/src/models/Drug.ts:11-39 | `save` succeeds exactly for a complete document with an unused code and appends it unchanged with a fresh id; a missing field fails with the missing fields and a used code fails as a duplicate; a failure changes nothing; codes stay unique |
| DrugModel.DrugStore.InsertMany | backend/src/models/Drug.ts:11-39 | `insertMany` validates every document first: if any is incomplete it writes nothing and fails with the missing fields of the first incomplete document; otherwise it succeeds exactly when the codes stay unique, appending all documents in order and reporting their count, and every failure is a duplicate code that stops it with the documents before the duplicate written |
| DrugModel.DrugStore.Update | backend/src/models/Drug.ts:12-17 | `findByIdAndUpdate`: no such id gives none and no change; otherwise only the named field of that record changes, unless the new code is used by another record, which fails and changes nothing |
| DrugModel.DrugStore.Delete | backend/src/models/Drug.ts:12-17 | `findByIdAndDelete` returns the record that had the id and removes exactly it; afterwards no record has the id |
| DrugModel.StoreIdsDistinct | backend/src/services/DrugService.ts:64 | the records of a valid store have distinct ids, so a snapshot of the store meets the listing's precondition |
| DrugModel.NotUniqueExtended | backend/src/models/Drug.ts:15 | a duplicate code met partway through a batch makes the whole batch non-unique |
| DrugService.ClampPage | backend/src/services/DrugService.ts:35 | `Math.max(1, page)`: at least 1, and equal to the page when that is ≥ 1 |
| DrugService.ClampLimit | backend/src/services/DrugService.ts:36 | `Math.min(100, Math.max(1, limit))`: in 1..100, equal to the limit when it is in range, else the nearer end |
| DrugService.ClampIdentityOnParsed | backend/src/services/DrugService.ts:35-36 | the clamp changes nothing on a query the schema accepted |
| DrugService.RankBeforeStrictTotal | backend/src/services/DrugService.ts:53-58 | the listing order is irreflexive, transitive and asymmetric, and orders any two records with different ids |
| DrugService.RankingUnique | backend/src/services/DrugService.ts:57-58 | two listings of the same query over the same records are equal, so repeated requests give the same order |
| DrugService.AdmitsSnoc | backend/src/services/DrugService.ts:39-51 | adding a condition to a filter document keeps exactly the records that met the document and meet the condition |
| DrugService.SearchCondition | backend/src/services/DrugService.ts:45-51 | the `$or` of the four case-insensitive pattern conditions holds exactly when the search occurs in generic name, brand name, company or code |
| DrugService.BuildFilter | backend/src/services/DrugService.ts:39-51 | the built filter admits a record exactly when the company (if given) equals its company and the search (if given) occurs in one of its four text fields |
| DrugService.FilterDocs | backend/src/services/DrugService.ts:64 | `find(filter)` returns exactly the records the filter admits, with distinct ids |
| DrugService.CmpAntisymmetric | backend/src/services/DrugService.ts:53-58 | swapping two records negates the sort document's comparison |
| DrugService.CmpTransitive | backend/src/services/DrugService.ts:53-58 | the sort document's order is transitive |
| DrugService.CmpIdTieBreak | backend/src/services/DrugService.ts:58 | a sort document ending in ascending `_id` ties no two records with different ids |
| DrugService.BuildSort | backend/src/services/DrugService.ts:53-58 | the built sort document ends with ascending `_id` and orders records exactly as the chosen key in the chosen direction, `name` meaning the generic name, ties by ascending id |
| DrugService.Insert | backend/src/services/DrugService.ts:65 | placing a record into a sorted sequence keeps it sorted and adds exactly that record |
| DrugService.SortDocs | backend/src/services/DrugService.ts:65 | the store's sort returns a sorted permutation of its input |
| DrugService.UntiedByIds | backend/src/services/DrugService.ts:58 | with the `_id` tie-break, records with distinct ids are never tied |
| DrugService.Listing | backend/src/services/DrugService.ts:64-65 | `find(filter).sort(sort)` holds exactly the admitted records, as many as the count, in sort-document order |
| DrugService.ListingIsRanking | backend/src/services/DrugService.ts:39-65 | the store's answer to the built documents is the query's listing: exactly the matching records, in listing order |
| DrugService.Window | backend/src/services/DrugService.ts:66-67 | `.skip(s).limit(l)`: the elements from `s` on, as many as `l` and the remaining elements allow |
| DrugService.CeilDiv | backend/src/services/DrugService.ts:76 | `Math.ceil(n / m)`: the least count of `m`-sized pages that holds `n` items |
| DrugService.Paginate | backend/src/services/DrugService.ts:76-87 | the pagination block: page, limit and total copied; total pages is the ceiling; `hasNextPage` exactly when page < total pages; `hasPreviousPage` exactly when page > 1; a page past the end starts past the last item, has no next page, and has a previous one unless the listing is empty |
| DrugService.PastLastPage | backend/src/services/DrugService.ts:61-87 | a page after the last one starts at or after the end of the listing |
| DrugService.Dtos | backend/src/services/DrugService.ts:16-24 | record `i` of the page becomes a response record numbered `skip + i + 1` with code and company copied and name `generic (brand)` |
| DrugService.GetDrugs | backend/src/services/DrugService.ts:29-88 | the response is the window at `(page - 1) * limit` of the query's listing, numbered by absolute rank, under the clamped page and limit, with the pagination block of the whole listing; a page past the end has no data |
| DrugService.InsertName | backend/src/services/DrugService.ts:93-94 | adding a name to an ascending list of distinct names keeps it so, with exactly one more member unless it was there |
| DrugService.Companies | backend/src/services/DrugService.ts:92-95 | `distinct('company')` then `sort()`: strictly ascending, holding exactly the companies present |
| DrugService.CompaniesUnique | backend/src/services/DrugService.ts:92-95 | any strictly ascending list of exactly the companies present is the company list |
| DrugService.EarliestLaunch | backend/src/services/DrugService.ts:111 | none exactly for an empty store, else a launch date present and no later than any other |
| DrugService.LatestLaunch | backend/src/services/DrugService.ts:112 | none exactly for an empty store, else a launch date present and no earlier than any other |
| DrugService.Mean | backend/src/services/DrugService.ts:116-117 | the average is 0 with no companies, else total over companies, which is at least 1 when companies do not outnumber drugs |
| DrugService.GetStatistics | backend/src/services/DrugService.ts:107-126 | total is the store size; companies the distinct count, 0 exactly for an empty store; the average as above; oldest and newest absent exactly for an empty store, else bounding every launch date |
| TableConfig.GetTableConfiguration | backend/src/config/tableConfig.ts:30-93 | the descriptor has columns with distinct keys; the sortable keys are exactly the schema's sort keys, and `id` is not sortable; the default sort is the schema's default; the default page size is the schema's default limit, is among the options, and every option lies in 1..100 |
| TableConfig.PageSizeOptionsAccepted | backend/src/config/tableConfig.ts:85 | every offered page size, sent as a limit, is accepted as that limit |
| Helpers.SpaceRunEnd | frontend/src/utils/helpers.ts:46 | the greedy `\s*` of the name pattern: the white-space run ends at the first non-space character |
| Helpers.FirstSplit | frontend/src/utils/helpers.ts:46 | the lazy first group: the least split point at or after `i` that lets the pattern match, or none |
| Helpers.ParseDrugName | frontend/src/utils/helpers.ts:42-59 | a name the pattern matches gives the trimmed groups of the least split; any other name gives its trimmed text and an empty brand |
| Helpers.DisplayNameSplits | frontend/src/utils/helpers.ts:46-51 | a display name `g (b)` matches with the first group ending after `g`, and its groups trim to `g` and `b` |
| Helpers.DisplayNameNoEarlierSplit | frontend/src/utils/helpers.ts:46 | when `g` has no `(`, no earlier split lets the pattern match |
| Helpers.ParseDisplayName | frontend/src/utils/helpers.ts:42-52 | `parseDrugName` inverts the backend's display name: non-empty trimmed `g` without `(` and non-empty trimmed `b`, both without line breaks, give back `(g, b)` |
| Helpers.KeepHits | frontend/src/utils/helpers.ts:65-70 | the filter keeps, in order, every drug whose lowercased name, company or code contains the lowercased term, and no other |
| Helpers.SearchDrugs | frontend/src/utils/helpers.ts:61-71 | a blank term returns the input itself; otherwise an order-preserving selection holding each drug that matches the untrimmed lowercased term as often as the input does, and no other |
| Helpers.KeepHitsIdempotent | frontend/src/utils/helpers.ts:65-70 | filtering twice by the same term is filtering once |
| Helpers.SearchDrugsIdempotent | frontend/src/utils/helpers.ts:61-71 | searching the result again with the same term changes nothing |
| Helpers.LexFacts | frontend/src/utils/helpers.ts:99-101 | comparing strings with `<` and `>` is antisymmetric, zero only on equal strings, and transitive |
| Helpers.SortValueFacts | frontend/src/utils/helpers.ts:82-101 | the comparison of the chosen sort values is antisymmetric and transitive, and ties are an equivalence |
| Helpers.ComparatorFacts | frontend/src/utils/helpers.ts:78-102 | the comparator is antisymmetric in both directions, zero exactly on tied sort values, and transitive |
| Helpers.InsertStable | frontend/src/utils/helpers.ts:78 | stable insertion adds exactly the new element |
| Helpers.InsertStableOrdered | frontend/src/utils/helpers.ts:78 | stable insertion into an ordered sequence keeps it ordered |
| Helpers.InsertStableTies | frontend/src/utils/helpers.ts:78 | stable insertion puts the new element after the elements tied with it |
| Helpers.StableSort | frontend/src/utils/helpers.ts:78 | a stable sort for a consistent comparator: a permutation, ordered, and elements tied with one another keep their input order |
| Helpers.ComparatorConsistent | frontend/src/utils/helpers.ts:78-102 | the `sortDrugs` comparator meets the consistency `Array.prototype.sort` requires |
| Helpers.SortDrugs | frontend/src/utils/helpers.ts:73-103 | a new permutation of the drugs, ordered by the lowercased name, lowercased company or launch time in the given direction, with equal keys in input order |
| Helpers.TiesAreEqualValues | frontend/src/utils/helpers.ts:82-101 | the comparator returns 0 exactly when the two sort values are equal |
| Helpers.AllCodeChars | frontend/src/utils/helpers.ts:107 | the character class `[0-9A-Za-z-]` holds for every character |
| Helpers.ValidateDrugCode | frontend/src/utils/helpers.ts:105-109 | true exactly when the code has at least 3 characters, each a digit, an ASCII letter or `-` |
| Helpers.ValidateEmail | frontend/src/utils/helpers.ts:111-114 | true exactly when the text is `a@b.c` with `a`, `b`, `c` non-empty and free of white space and `@` |
| Helpers.EmailDecided | frontend/src/utils/helpers.ts:112 | deciding at the first `@` and any later `.` agrees with the pattern's existential reading, both ways |
| Helpers.EmailWitness | frontend/src/utils/helpers.ts:112 | an address accepted at its first `@` has a split of the required shape |
| Helpers.EmailAtIsFirst | frontend/src/utils/helpers.ts:112 | in every split of the required shape the `@` is the first one |
| Helpers.EmailNecessary | frontend/src/utils/helpers.ts:112 | an address with a split of the required shape is accepted at its first `@` |
| Helpers.TruncateText | frontend/src/utils/helpers.ts:116-119 | a text within the limit is unchanged; a longer one is its first `max(0, limit)` characters followed by `...` |
| Helpers.TruncateTextIdempotent | frontend/src/utils/helpers.ts:116-119 | truncating a truncated text again with the same limit changes nothing |
| Helpers.KeptWords | frontend/src/utils/helpers.ts:124 | the filter keeps, in order, exactly the non-empty words that do not start with a character in `&`..`.` or `，`, each as many times as it occurs |
| Helpers.Initials | frontend/src/utils/helpers.ts:125-127 | the upper-cased first characters of the first two kept words, at most 2 |
| Helpers.GetCompanyInitials | frontend/src/utils/helpers.ts:121-128 | at most 2 characters: the initials of the kept words of the space-split name |
| Helpers.InitialsOfWords | frontend/src/utils/helpers.ts:121-128 | a name made of space-free words joined by spaces gives the initials of its kept words |
| Helpers.InitialsOfEmpty | frontend/src/utils/helpers.ts:121-128 | the empty name gives the empty text |
| Responsive.Rank | frontend/src/utils/responsive.ts:123 | each breakpoint has a position in the largest-first scan order |
| Responsive.ThresholdsIncrease | frontend/src/utils/responsive.ts:7-13 | the thresholds 0, 600, 900, 1200 and 1536 strictly increase with the breakpoint |
| Responsive.GetCurrentBreakpoint | frontend/src/utils/responsive.ts:20-30 | the largest breakpoint whose threshold the width reaches, and `xs` below 600 |
| Responsive.BreakpointMonotonic | frontend/src/utils/responsive.ts:20-30 | a wider window never has a smaller breakpoint |
| Responsive.IsMobile | frontend/src/utils/responsive.ts:35-38 | true exactly when the breakpoint is `xs` |
| Responsive.IsTablet | frontend/src/utils/responsive.ts:43-47 | true exactly when the breakpoint is `sm` or `md` |
| Responsive.IsDesktop | frontend/src/utils/responsive.ts:52-55 | true exactly when the breakpoint is `lg` or `xl` |
| Responsive.DeviceClassesPartition | frontend/src/utils/responsive.ts:35-55 | every width is exactly one of mobile, tablet and desktop |
| Responsive.FloorDiv | frontend/src/utils/responsive.ts:104 | `Math.floor(a / b)` for a non-zero divisor, as bounds on the quotient |
| Responsive.PossibleColumns | frontend/src/utils/responsive.ts:103-104 | the number of columns that fit, exact for a non-zero divisor |
| Responsive.GetOptimalColumns | frontend/src/utils/responsive.ts:97-106 | `NaN` exactly when both the divisor and the available width are 0; otherwise a value in 1..maxColumns when maxColumns ≥ 1; for a positive divisor the fitting count clamped to that range |
| Responsive.FloorDivMonotonic | frontend/src/utils/responsive.ts:104 | floor division by a positive number is monotonic |
| Responsive.OptimalColumnsMonotonic | frontend/src/utils/responsive.ts:103-105 | a wider container never gets fewer columns |
| Responsive.DefaultColumns | frontend/src/utils/responsive.ts:97-106 | with the defaults 280, 5 and 24: between 1 and 5 columns, 5 from width 1544, 1 below width 632 |
| Responsive.GetResponsiveValue | frontend/src/utils/responsive.ts:111-134 | the value of the current breakpoint or, failing that, of the nearest smaller breakpoint that has one, never a larger breakpoint's; the fallback when no breakpoint up to the current one has a value |
| PaginationHook.MergeEmpty | frontend/src/hooks/usePagination.ts:31-33 | merging an empty patch changes nothing |
| PaginationHook.MergeThen | frontend/src/hooks/usePagination.ts:31-33 | two successive merges are one merge of the combined patch |
| PaginationHook.MergeIdempotent | frontend/src/hooks/usePagination.ts:31-33 | merging the same patch twice is merging it once |
| PaginationHook.MergeKeepsAbsent | frontend/src/hooks/usePagination.ts:31-33 | a merge keeps every field the patch leaves out |
| PaginationHook.ResetToFirstPageIdempotent | frontend/src/hooks/usePagination.ts:70-72 | resetting to the first page sets only the page to 1, and doing it twice is doing it once |
| PaginationHook.PaginationState.constructor | frontend/src/hooks/usePagination.ts:20-24 | the params start as the given initial params, else page 1, limit 20, ascending |
| PaginationHook.PaginationState.UpdateParams | frontend/src/hooks/usePagination.ts:31-33 | the params become the old params with exactly the patch's present fields overwritten, `undefined` included |
| PaginationHook.PaginationState.SetPage | frontend/src/hooks/usePagination.ts:35-40 | only the page changes |
| PaginationHook.PaginationState.SetLimit | frontend/src/hooks/usePagination.ts:42-47 | the limit is set and the page goes back to 1; nothing else changes |
| PaginationHook.PaginationState.SetSearch | frontend/src/hooks/usePagination.ts:49-54 | the search is set or cleared and the page goes back to 1; nothing else changes |
| PaginationHook.PaginationState.SetSortBy | frontend/src/hooks/usePagination.ts:56-61 | the sort key is set or cleared and the page goes back to 1; nothing else changes |
| PaginationHook.PaginationState.SetSortOrder | frontend/src/hooks/usePagination.ts:63-68 | the direction is set and the page goes back to 1; nothing else changes |
| PaginationHook.PaginationState.ResetToFirstPage | frontend/src/hooks/usePagination.ts:70-72 | only the page changes, to 1 |
| UseDrugs.Normalize | frontend/src/hooks/useDrugs.ts:7-13 | an absent or 0 page becomes 1 and an absent or 0 limit 20, others kept; an absent or empty search becomes absent, others kept; the sort key is kept; an absent direction becomes ascending; the result is in normal form |
| UseDrugs.NormalizeFixesNormal | frontend/src/hooks/useDrugs.ts:7-13 | params already in normal form are left as they are |
| UseDrugs.NormalizeIdempotent | frontend/src/hooks/useDrugs.ts:6-13 | normalising twice is normalising once, so the query key is stable |
| ClientService.DecodeEncode | frontend/src/services/drugService.ts:37-45 | the query string of entries with no `&` anywhere and no `=` in a name decodes back to those entries |
| ClientService.Lookup | frontend/src/services/drugService.ts:39-43 | a key's lookup is found exactly when an entry has that name, and then it is one of that name's values |
| ClientService.LookupConcat | frontend/src/services/drugService.ts:39-43 | a lookup in a concatenation takes the first part's value when it has one |
| ClientService.KeyNameInjective | frontend/src/services/drugService.ts:39-43 | the six query key names are distinct |
| ClientService.Named | frontend/src/services/drugService.ts:39-43 | writing keyed entries names each entry by its key and keeps its value and position |
| ClientService.LookupNamed | frontend/src/services/drugService.ts:39-43 | looking a key up by its name in the written entries finds that key's value |
| ClientService.ValueOfConcat | frontend/src/services/drugService.ts:39-43 | a key's value in a concatenation is the first part's value when it has one |
| ClientService.ValueOfEntry | frontend/src/services/drugService.ts:39-43 | an optional entry gives its value for its own key and nothing for any other key |
| ClientService.EntriesForValue | frontend/src/services/drugService.ts:39-43 | appending keys in increasing order gives each walked key its sent value and any other key none |
| ClientService.EntriesForOrdered | frontend/src/services/drugService.ts:39-43 | appending keys in increasing order gives entries whose keys increase, each a walked key |
| ClientService.EntriesForCarry | frontend/src/services/drugService.ts:39-43 | every appended entry carries the value sent for its key |
| ClientService.SentEntriesSpec | frontend/src/services/drugService.ts:39-43 | the query carries the page and limit in decimal when they are non-zero, the search when non-empty, the sort key and direction when set, and never a company, each key at most once and in the order page, limit, search, sortBy, sortOrder |
| ClientService.NamedConcat | frontend/src/services/drugService.ts:39-43 | writing a concatenation is concatenating the writings |
| ClientService.UrlSearchParams.constructor | frontend/src/services/drugService.ts:37 | `new URLSearchParams()` starts with no entries |
| ClientService.UrlSearchParams.Append | frontend/src/services/drugService.ts:39-43 | `append` adds exactly one entry at the end |
| ClientService.SentEntriesUnfold | frontend/src/services/drugService.ts:39-43 | the sent entries are the five optional entries in the order of the appends |
| ClientService.SentPairs | frontend/src/services/drugService.ts:39-43 | the written query entries are the five optional `name=value` entries in order |
| ClientService.GetDrugsUrl | frontend/src/services/drugService.ts:36-45 | the request path is `/drugs?` followed by the written entries `getDrugs` sends, joined by `&` |
| ClientService.EmptyParamsUrl | frontend/src/services/drugService.ts:45 | empty params request exactly `/drugs?` |
| ClientService.KeyNamePlain | frontend/src/services/drugService.ts:39-43 | no key name holds `=` or `&` |
| ClientService.IntTextPlain | frontend/src/services/drugService.ts:39-40 | the decimal text of an integer holds no `&` |
| ClientService.SentValuePlain | frontend/src/services/drugService.ts:39-43 | a sent value holds no `&` when the search text has none |
| ClientService.SentEncodable | frontend/src/services/drugService.ts:37-45 | every written entry survives the unescaped query string when the search text has no `&` |
| ClientService.NamedRawQuery | backend/src/types/dto.ts:13-23 | the backend reads each field of the written entries as that key's value |
| ClientService.SentEntryValue | frontend/src/services/drugService.ts:39-43 | the value the query carries for each key is the value `getDrugs` sends for it |
| ClientService.ReceivedValues | frontend/src/services/drugService.ts:37-45 | the backend reads back, key by key, exactly the values sent, and no company |
| ClientService.SentNumberDenotes | backend/src/types/dto.ts:14-15 | a sent natural page or limit is read as itself and as nothing else |
| ClientService.ParseSentValues | backend/src/types/dto.ts:13-23 | the sent values with a page ≥ 0 and a limit in 0..100 pass the schema with the sent values or the backend defaults |
| ClientService.RequestAccepted | frontend/src/services/drugService.ts:36-45 | the backend accepts every request `getDrugs` makes from a page ≥ 0 and a limit in 0..100: it reads the sent page, limit, search, sort key and direction; a page or limit of 0, an empty search and an unset sort fall back to page 1, limit 20, `launchDate` and `desc`; it filters on no company |
| ClientService.SentNegativeDenotes | backend/src/types/dto.ts:14-15 | a sent negative number is read as itself |
| ClientService.ParseSentValuesRejected | backend/src/types/dto.ts:14-15 | the sent values with a negative page, or a limit below 0 or above 100, fail the schema |
| ClientService.RequestRejected | frontend/src/services/drugService.ts:36-45 | the backend rejects every request `getDrugs` makes from a negative page, or from a limit below 0 or above 100 |

## Left out

- HTTP layer: Express wiring, the controller's mapping of a parse failure to status 400, and the route table. Only the parse function the controller calls is modelled.
- Store execution is not modelled:
  - the collection is a sequence of records with an increasing `id` standing for `_id`;
  - indexes, connections and concurrency are left out;
  - the two reads that `Promise.all` runs in parallel are sequential reads of one snapshot.
- The `$regex` search is modelled as case-insensitive substring matching. This is exact only for search texts free of regular-expression metacharacters.
- Case folding (`toLowerCase`, `toUpperCase`, the `i` regex option) maps ASCII letters only. `toUpperCase` of `ß` giving two characters is left out.
- Number coercion: `Number(text)` is modelled for optionally signed decimal literals and blank text. Hexadecimal, exponents, `Infinity` and non-string query values such as repeated keys are left out.
- QueryDto.NumberOf: a number is kept as its sign, its whole part and whether a non-zero digit follows the point. That is all `.int()`, `.positive()` and `.max(100)` look at. Rounding to the nearest double is not modelled, so a literal with more than about 15 significant digits is read exactly.
- Floating point: the average is exact real division, and `Math.floor` works on integers.
- DrugService.GetStatistics: the average is exact division, not IEEE-754 division.
- Responsive.GetOptimalColumns: the widths are integers; fractional pixel widths are not modelled.
- Dates: launch dates are integer timestamps on both sides. `toISOString`, `formatDate` and `formatDateTime` are left out.
- UTF-16: JavaScript strings are sequences of UTF-16 code units. The model's strings are sequences of characters. This matters for string order, for `length` and `substring` in `truncateText`, and for `charAt(0)` in `getCompanyInitials`. The model agrees with the source for text in the Basic Multilingual Plane. Outside it, a character counts as one where JavaScript counts two code units, so `truncateText` can cut the text differently and `getCompanyInitials` can take a whole character where the source takes half a surrogate pair.
- URL encoding: `URLSearchParams` percent-encodes its values. The model writes them unescaped.
- ClientService.RequestAccepted: stated only for search texts without `&`, because percent-encoding is not modelled.
- ClientService.RequestRejected: stated only for search texts without `&`, because percent-encoding is not modelled.
- DrugService.SortDocs: specified only for records that the sort document does not tie. With the final `_id` term, listings never tie records.
- DrugModel.DrugStore.InsertMany: only the ordered mode is modelled. Every document is validated before the first write, and writing stops at the first duplicate code.
- Mongoose: casting of field types and the `timestamps` fields are not modelled. `required` on a string counts the empty string as missing.
- The frontend's `window === undefined` branches are left out: the width is always a parameter.
- `useBreakpoint`, `useIsMobile`, `debounce`, React effects, react-query caching and mutations, and the CRUD wrappers of the frontend service are left out.
- Page, limit and width are whole numbers throughout. Fractional values from the frontend are not modelled.
- An unset direction is handled differently on the two sides. `useDrugs` fills it with `asc`, while the backend schema defaults it to `desc`. The model keeps both defaults as written.
