# Notice service model

A Dafny model of the notice query and scrap service of a notice-aggregation
backend (`NoticeService` in `src/notice/notice.service.ts`). The service keeps
notices scraped from university providers. It lists them in pages of ten,
newest first, filtered by date range, category label, provider name, category
id, provider id or keyword. It marks each listed notice as scrapped or not for
the requesting user. It toggles a user's scrap (bookmark) of a notice. It counts
a view every time a notice's detail is read.

The two repositories are in-memory tables:

- the notice table is a `seq<Notice>`. Each row carries its category and
  provider columns: `categoryId`, `categoryName`, `mappedCategory`,
  `providerId` and `providerName`.
- the scrap table is a `seq<Scrap>` of `(userId, noticeId)` rows. A row stands
  for "this notice is in this user's scrap box".

Modules, one per part of the service:

- `Outcomes`: `Option` for an optional request field, `Result` for an answer or an error.
- `Dates`: notice dates are ISO date strings compared character by character.
  This is a total order, proved here, and for that format it is chronological order.
- `Text`: JavaScript `split(',')` and its inverse `Join`. Also `LIKE '%k%'`, read as a substring test.
- `Tables`: the rows, selection (`Filter`), lookup (`FirstIndex`, `FindNotice`),
  the scrap mark (`IsScrapped`), the scrap-to-notice join, and the store invariant.
- `Paging`: the pipeline every listing shares. It sorts by date descending,
  cuts the window `skip (page-1)*10, take 10`, annotates each entry, and
  reports `page`, `totalNotice` and `totalPage`.
- `Listings`: the six listing operations. Each is written as the shared pipeline with its own row predicate.
- `Service`: the class `NoticeService`, which holds both tables. Its methods
  `GetNoticeInfoById` and `ScrapNotice` change them in place. Each is proved
  against a function (`ViewNotice`, `ToggleScrap`) whose properties are lemmas.
- `Examples`: the two-notice filter scenario and the scrap-twice scenario.

Modelling decisions:

- The listings only read the store, so they are functions of the two tables.
  Call `Listings.GetNoticesByTime(s.notices, s.scraps, user, page)` on a
  `NoticeService` `s`.
- Ties between equal dates are broken by table order. This comes from the
  stable insertion sort `SortByDateDesc`. The source leaves the tie order to the
  database. Every contract relies only on "sorted non-increasing by date, and a
  permutation of the matching rows".
- The Scrap-to-Notice relation is treated as a foreign key of the store. The
  store invariant (`StoreInvariant`) has three parts: notice ids are unique, no
  (user, notice) scrap row appears twice, and every scrap row references an
  existing notice. `scrapNotice` asked to insert a row for a notice that does
  not exist fails with `UnknownNoticeReference`, and the tables do not change.
  The entity definitions are not part of this model. This behaviour is what a
  many-to-one relation gives by default.
- `getNoticeInfoById` on an unknown id is the error `NoticeNotFound`: the
  source dereferences the missing row.
- Two behaviours of the code are kept as written:
  - A present but empty `categories` (or `providers`) string splits to `[""]`.
    That list is not empty, so it admits only the label `""`
    (`EmptyCategoryStringKeepsOnlyEmptyLabel`). Only an absent list imposes no constraint.
  - The detail response's `scrapped` and `scrapCount` are always `false` and `0`.
    They are not computed from the scrap table.
- `page` must be at least 1. A smaller page gives a negative skip, which the source does not define.

## Model

| member | source | states |
|---|---|---|
| `Dates.DateLe` | src/notice/notice.service.ts:81 | the character-wise date order behind `Between` and `order: { date: 'DESC' }` (a helper without a contract; its order properties are stated by `Dates.DateLeTotal`, `Dates.DateLeTransitive`, `Dates.DateLeAntisymmetric` and `Dates.DateLeAtFirstDifference`) |
| `Dates.DateLeTotal` | src/notice/notice.service.ts:91-93 | any two dates are comparable, so ordering by date is defined on every pair of rows |
| `Dates.DateLeTransitive` | src/notice/notice.service.ts:91-93 | the date order is transitive |
| `Dates.DateLeAntisymmetric` | src/notice/notice.service.ts:81 | two dates each at most the other are equal |
| `Dates.DateLeAtFirstDifference` | src/notice/notice.service.ts:91-93 | at the first position where two dates differ, the smaller character gives the strictly earlier date |
| `Text.Split` | src/notice/notice.service.ts:67-68 | `split(',')` returns at least one piece, no piece holds a comma, and joining the pieces with commas gives back the input |
| `Text.SplitJoin` | src/notice/notice.service.ts:67-68 | splitting a comma-join of comma-free pieces returns exactly those pieces |
| `Text.ContainsIff` | src/notice/notice.service.ts:285-287 | `LIKE '%k%'` holds exactly when `k` occurs at some position of the text |
| `Tables.Filter` | src/notice/notice.service.ts:79-88 | the selected rows are exactly the rows satisfying the predicate, with their multiplicities |
| `Tables.FirstIndex` | src/notice/notice.service.ts:250-258 | the `findOne` of `scrapNotice`: the position returned holds a matching row and no earlier row matches, and none is returned exactly when no row matches |
| `Tables.FindNotice` | src/notice/notice.service.ts:226-229 | the lookup finds a row with the requested id, and finds none exactly when no notice has that id |
| `Tables.AnyRefers` | src/notice/notice.service.ts:45 | `some(scrap => scrap.notice.id === id)` holds exactly when some row references the notice |
| `Tables.UserScraps` | src/notice/notice.service.ts:22-29 | the user's scrap rows are exactly the rows of the table owned by that user, each with its multiplicity in the table |
| `Tables.IsScrapped` | src/notice/notice.service.ts:22-29 | an entry is marked scrapped exactly when the scrap table holds the row (userId, noticeId) |
| `Tables.Joined` | src/notice/notice.service.ts:195-207 | joining scrap rows with their notices gives, row for row, a notice of the table with the referenced id |
| `Paging.Skip` | src/notice/notice.service.ts:31 | `(page - 1) * 10` (a helper without a contract; its effect on the window is stated by `Paging.PageWindow` and `Paging.PageOfPosition`) |
| `Paging.TotalPages` | src/notice/notice.service.ts:52 | `totalPage` is the ceiling of `totalNotice / 10`: the least number of ten-entry pages that hold every match |
| `Paging.PageInRange` | src/notice/notice.service.ts:31-37 | page `p` reaches a matching row exactly when `p <= totalPage` |
| `Paging.PageOfPosition` | src/notice/notice.service.ts:31-32 | position `k` of an ordering lies in the window of page `k / 10 + 1`, at offset `k % 10` |
| `Paging.PageWindow` | src/notice/notice.service.ts:32-33 | `skip (page-1)*10, take 10`: the window holds positions `(page-1)*10 ..` of its input, at most 10 of them, clipped to the end |
| `Paging.SortByDateDesc` | src/notice/notice.service.ts:34-36 | the ordering is non-increasing by date and a permutation of its input |
| `Paging.Annotate` | src/notice/notice.service.ts:39-47 | the `map` to `{id, title, date, scrapped}`, entry for entry and in order, `scrapped` taken from the mark (a helper without a contract; its effect is stated by `Paging.Paged`) |
| `Paging.Summarize` | src/notice/notice.service.ts:38-46 | the `{ id, title, date, scrapped }` object of one entry (a helper without a contract; its use is stated by `Paging.Paged`) |
| `Paging.Paged` | src/notice/notice.service.ts:31-53 | `page` is echoed back; `totalNotice` counts the selected rows and `totalPage` is its ceiling; at most 10 entries, exactly positions `(page-1)*10 ..` of the date-ordered rows; entries in non-increasing date order; empty exactly past the last page |
| `Listings.Ordered` | src/notice/notice.service.ts:79-94 | the rows a listing pages through are sorted newest first and are exactly the matching notices with their multiplicities |
| `Listings.Listing` | src/notice/notice.service.ts:21-54 | the shared listing: window positions of the ordered matches, every entry from a matching notice with `scrapped` set by the user's scrap rows, `totalNotice` independent of the page, empty exactly past `totalPage` |
| `Listings.PagedEntries` | src/notice/notice.service.ts:31-47 | entry `i` of a page is the ordered match at position `(page-1)*10 + i`, marked by the user's scrap rows, so every entry comes from a matching notice |
| `Listings.ListingComplete` | src/notice/notice.service.ts:125-134 | every matching notice appears, with its mark, on some page |
| `Listings.PositionOf` | src/notice/notice.service.ts:30-36 | a matching notice holds some position of the date ordering |
| `Listings.ListingHolds` | src/notice/notice.service.ts:30-47 | the row at position `k` of the ordering is listed, with its mark, on the page whose window covers `k` |
| `Listings.ListingReaches` | src/notice/notice.service.ts:30-36 | the page whose window covers an existing position `k` is long enough to show it |
| `Listings.ScrapsOnlyMark` | src/notice/notice.service.ts:39-47 | the scrap table and the user change only the `scrapped` flags: not which notices are listed, nor their order, nor the totals |
| `Listings.ListingCongruent` | src/notice/notice.service.ts:79-88 | predicates that agree on every notice give the same listing |
| `Listings.GetNoticesByTime` | src/notice/notice.service.ts:21-54 | `totalNotice` is the size of the notice table and every entry is a notice of the table |
| `Listings.StartDate` | src/notice/notice.service.ts:64 | `start_date = '2020-01-01'`: the request's start date or the default (a helper without a contract; stated by `Listings.MatchesFilterMeans`) |
| `Listings.EndDate` | src/notice/notice.service.ts:65 | `end_date = '2040-01-01'`: the request's end date or the default (stated by `Listings.MatchesFilterMeans`) |
| `Listings.CategoryList` | src/notice/notice.service.ts:67 | `categories?.split(',')`, falling back to `[]`: the split pieces, or `[]` when absent (stated by `Listings.MatchesFilterMeans` and `Listings.EmptyCategoryStringKeepsOnlyEmptyLabel`) |
| `Listings.ProviderList` | src/notice/notice.service.ts:68 | `providers?.split(',')`, falling back to `[]`: the split pieces, or `[]` when absent (stated by `Listings.MatchesFilterMeans`) |
| `Listings.InDateRange` | src/notice/notice.service.ts:81 | `Between(start_date, end_date)`: both bounds inclusive (stated by `Listings.MatchesFilterMeans`) |
| `Listings.MatchesFilter` | src/notice/notice.service.ts:80-88 | the `where` clause: `Between` on the date, and `In` on label and provider name when the list is non-empty (its meaning is stated by `Listings.MatchesFilterMeans`) |
| `Listings.MatchesFilterMeans` | src/notice/notice.service.ts:61-88 | a notice passes the filter exactly when its date lies in `[start_date, end_date]` (defaults `2020-01-01`, `2040-01-01`) and each list admits it: an absent list admits every value, a present list exactly its comma-split pieces |
| `Listings.GetNoticesByFilterOrderByDate` | src/notice/notice.service.ts:56-111 | every entry comes from a notice with date within the bounds or their defaults, and with label and provider admitted by the category and provider lists; `totalNotice` counts the notices passing the filter |
| `Listings.AbsentListsConstrainNothing` | src/notice/notice.service.ts:67-86 | without category and provider lists the filter listing is the date-range listing |
| `Listings.EmptyFilterListsEverything` | src/notice/notice.service.ts:61-94 | an empty filter over notices dated within the default window lists exactly what `getNoticesByTime` lists |
| `Listings.EmptyCategoryStringKeepsOnlyEmptyLabel` | src/notice/notice.service.ts:67-83 | a present empty `categories` string admits only notices whose label is `""` |
| `Listings.SingleCategoryFilter` | src/notice/notice.service.ts:67-83 | a comma-free category list, with no provider list, keeps exactly the notices of that label whose date lies within the bounds |
| `Listings.CategoryKeep` | src/notice/notice.service.ts:127 | the predicate `category.id == categoryId` (its effect on the listing is stated by `Listings.GetNoticesByCategoryIdOrderByDate`) |
| `Listings.GetNoticesByCategoryIdOrderByDate` | src/notice/notice.service.ts:112-151 | every entry is a notice of category `categoryId`; `totalNotice` counts the notices of that category |
| `Listings.ProviderKeep` | src/notice/notice.service.ts:168 | the predicate `category.provider.id == providerId` (its effect is stated by `Listings.GetNoticesByProviderIdOrderByDate`) |
| `Listings.GetNoticesByProviderIdOrderByDate` | src/notice/notice.service.ts:152-192 | every entry is a notice whose category belongs to provider `providerId`; `totalNotice` counts them |
| `Text.Contains` | src/notice/notice.service.ts:285-287 | `LIKE '%keyword%'` as a substring test (its meaning is stated by `Text.ContainsIff`) |
| `Listings.MatchesKeyword` | src/notice/notice.service.ts:285-287 | title, or content, or writer contains the keyword (its effect is stated by `Listings.SearchNotice`) |
| `Listings.SearchNotice` | src/notice/notice.service.ts:273-308 | every entry is a notice whose title, content or writer contains the keyword at some position; `totalNotice` counts those notices |
| `Listings.EmptyKeywordListsEverything` | src/notice/notice.service.ts:283-291 | the empty keyword (`%%`) lists exactly what `getNoticesByTime` lists |
| `Listings.GetScrappedNotices` | src/notice/notice.service.ts:194-223 | entry `i` is position `(page-1)*10 + i` of the user's joined scrap rows sorted by date descending, marked scrapped; the page holds `min(10, totalNotice - skip)` entries when the skip is in range; every entry is a notice the user has scrapped; `totalNotice` is the user's scrap-row count; entries newest first; empty exactly past `totalPage` |
| `Listings.ScrappedEntries` | src/notice/notice.service.ts:194-223 | every entry of a page of the joined scrap box is a notice the user scrapped, marked scrapped |
| `Listings.JoinedRowScrapped` | src/notice/notice.service.ts:195-207 | a notice reached through the user's scrap rows is a notice of the table that the user has scrapped |
| `Listings.ScrappedComplete` | src/notice/notice.service.ts:194-216 | under the store invariant, every notice the user has scrapped appears, marked scrapped, on some page of the scrap listing |
| `Listings.ScrappedPosition` | src/notice/notice.service.ts:195-206 | a scrapped notice holds a position of the date-ordered joined scrap rows |
| `Listings.ScrappedHolds` | src/notice/notice.service.ts:201-216 | the row at position `k` of the ordered scrap rows is listed on the page whose window covers `k` |
| `Service.Detail` | src/notice/notice.service.ts:233-245 | the detail response built from the saved row, with `scrapped` fixed to `false` and `scrapCount` to `0` (its use is stated by `Service.ViewNotice`) |
| `Service.ViewNotice` | src/notice/notice.service.ts:225-247 | an unknown id is `NoticeNotFound` and changes nothing; otherwise exactly the notice with that id has its `view` raised by 1 and every other row and field is unchanged; the answer carries the new view count, `scrapped == false` and `scrapCount == 0` |
| `Service.ViewKeepsStoreInvariant` | src/notice/notice.service.ts:230-231 | counting a view keeps the store invariant |
| `Service.RemoveAt` | src/notice/notice.service.ts:260 | deleting the found row removes one copy of it and keeps the other rows unique |
| `Service.ToggleScrap` | src/notice/notice.service.ts:249-271 | a present row is deleted and the answer is `false`; an absent row is appended and the answer is `true`; no other (user, notice) row changes; on a duplicate-free table the row exists afterwards exactly when the answer is `true` |
| `Service.ToggleKeepsStoreInvariant` | src/notice/notice.service.ts:259-269 | a toggle keeps rows unique and every row's notice present |
| `Service.ToggleTwiceRestores` | src/notice/notice.service.ts:249-271 | two toggles in a row give opposite answers and restore the scrap table: exactly when the row was absent, and up to row order when it was present |
| `Service.NoticeService.constructor` | src/notice/notice.service.ts:14-19 | the service starts on the two given tables, which satisfy the store invariant |
| `Service.NoticeService.GetNoticeInfoById` | src/notice/notice.service.ts:225-247 | the response and the new notice table are those of `ViewNotice`; the scrap table is unchanged; the store invariant is kept |
| `Service.NoticeService.ScrapNotice` | src/notice/notice.service.ts:249-271 | the answer and the new scrap table are those of `ToggleScrap`; the notice table is unchanged; the store invariant is kept |
| `Examples.CategoryWindowListing` | src/notice/notice.service.ts:56-111 | of a 2021 "공지사항" notice and a 2025 "학사" notice, filtering on "공지사항" from 2020-01-01 to 2024-01-01 lists only the first |
| `Examples.UnfilteredListing` | src/notice/notice.service.ts:56-111 | with no filter fields both notices are listed, the 2025 one first |
| `Examples.UnfilteredPair` | src/notice/notice.service.ts:56-111 | two notices inside the default date window and no scraps: the empty filter lists the newer one first, neither marked, `totalNotice == 2` |
| `Examples.FirstPageUnscrapped` | src/notice/notice.service.ts:30-47 | with an empty scrap table, page 1 of at most ten rows is their whole date ordering with no entry marked scrapped |
| `Examples.ToggleScenario` | src/notice/notice.service.ts:249-271 | a user with no scraps scraps notice 5 (answer `true`), then un-scraps it (answer `false`), leaving no scrap row |

## Left out

- `src/notice/notice.controller.ts`: HTTP routing, guards and decorators. It also calls `getNoticeList` and `addNoticeRequest`, which the service does not define. It passes a `scrapBoxId` that the service ignores, and an extra user id to `getNoticeInfoById`. The model follows the service: a toggle always targets the caller's own scrap box.
- `addNoticeRequest`: not present in the service. It is not part of this model.
- `src/categry/category.service.ts`: only an injected repository, and no operations.
- `src/interfaces/auth.ts`: JWT and user payload types. Authentication is external. The user id is a parameter.
- The filter DTO (`NoticeFilterRequest.dto.ts`) is only the shape of `Listings.NoticeFilter`.
- ORM mechanics: query building, relation loading, `Between`/`In` operator objects, async/await, and any store failure other than the foreign key. The `null` in the `where` clause is read as "no constraint".
- `Text.Contains`: `LIKE` is a plain case-sensitive substring test. Collation, case folding and `%`/`_` wildcards inside the keyword are not modelled. The store's collation also decides equality in `In(categoryList)` and `In(providerList)`. `Listings.MatchesFilter` models those as exact sequence membership, so a case- or accent-insensitive collation is not modelled there either.
- Dates are ISO strings compared character by character. Date parsing, time zones and timestamps are not modelled.
- `Paging.TotalPages`: `Math.ceil` on a float is integer ceiling division. Floating point is not modelled.
- Concurrency is not modelled. That covers the staleness between the scrap read and the notice read, and the lost updates in `view += 1` and in the toggle. Without those races the "at most one row per (user, notice)" invariant holds, and the model keeps it as part of `StoreInvariant`.
- `Service.ToggleScrap`: the scrap box is folded into its user. A scrap row references a scrap box, which references a user. The model assumes each user has exactly one box and that it exists. It reads the nested insert `scrapBox: { user: { id: userId } }` as inserting into that box. Whether the store resolves a box given only its user is not modelled.
- Ties between equal dates are ordered by table position in the model. The store promises no particular tie order, and pages cut from an ordering with ties need not partition the matches. `Listings.ListingComplete` and `Listings.ScrappedComplete` hold because every page is cut from the model's one fixed ordering. A store that orders ties differently from one query to the next can leave a match off every page.
- Integer widths: ids and view counts are unbounded integers. The store's column widths are not modelled.
- The source's default `page: number = 1` (on every listing method) is not modelled as a default: every listing takes `page` explicitly, so a call without a page is the call with `page == 1`.
