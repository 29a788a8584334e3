# CSV book listing — request path model

This project models the listing path of a small Next.js application that stores books imported
from CSV files. It covers four parts:

- **The home page** (`src/app/page.tsx`) keeps a sort state that header clicks toggle. The same
  state decides whether a sort arrow is drawn. The page also builds the address of each data
  request from its filters.
- **`createQueryFilter`** (`src/lib/getData.ts`) turns those filters into a query string.
- **The data route** (`src/app/api/data/route.ts`) answers the request:
  - GET reads `page`, `limit` and `publishedyear`, counts the records and returns one page in
    year order with its pagination block.
  - PUT updates one record, or answers 404 when the record does not exist.
  - DELETE removes a record and always reports success.
- **The store** is abstract: a map from identifier to book plus the store's natural order of
  identifiers.

Modules:

- `Common`: optional values, and joining and splitting text at a separator.
- `Objects`: JavaScript objects as ordered entry lists, with property reads, assignment and
  spread.
- `Numbers`: `${n}` for integral numbers, and `parseInt(text, 10)`.
- `QueryFilter`: `createQueryFilter` as written, next to a reference definition of the string it
  should build.
- `SearchParams`: how the route reads the query back: `URL.searchParams` and `.get`.
- `HomePage`: the sort state, header clicks, the arrow, and the request address.
- `Books`: book records and the store.
- `YearSort`: ordering by `PublishedYear`.
- `DataRoute`: the GET, PUT and DELETE decisions.
- `RequestFlow`: the page and the route together. The listing the page receives is the one its
  sort state asks for.

I/O is left out: the database connection, `fetch` and JSON. The store is a value passed in, and
each handler returns the new store together with its response.

## Model

| member | source | states |
|---|---|---|
| QueryFilter.CreateQueryFilter | src/lib/getData.ts:6-26 | builds exactly the reference string: empty for no entries, otherwise "?" and the `key=value` pairs in entry order joined by "&"; empty if and only if there are no entries; always starts with "?" and the first pair |
| QueryFilter.Step | src/lib/getData.ts:11-22 | one pass of the loop body always lengthens the text: on empty text it writes "?" and the pair; on any other text it writes "&" and the pair, so the branch that would drop an entry is never taken |
| QueryFilter.Loop | src/lib/getData.ts:9-23 | the loop only appends to the text it starts from, and leaves it as it is exactly when there are no entries |
| QueryFilter.LoopMatchesExpected | src/lib/getData.ts:9-23 | the loop with its three guarded branches, as written, produces the reference string for every list of entries |
| QueryFilter.LoopAfterFirst | src/lib/getData.ts:11-22 | once the text has two or more characters, every later entry is appended after exactly one "&" and none is dropped |
| QueryFilter.SeparatorsBetweenPairs | src/lib/getData.ts:11-22 | when no pair contains "&", the text after "?" splits at "&" back into the pairs, in order |
| QueryFilter.NoEscaping | src/lib/getData.ts:16 | values are not escaped: the value "1&b=2" under key "a" gives the same string as two entries a=1 and b=2 |
| QueryFilter.SingleEntry | src/lib/getData.ts:15-18 | a single entry gives "?" followed by its pair |
| QueryFilter.AppendEntry | src/lib/getData.ts:11-22 | adding an entry at the end appends "&" and that entry's pair to a non-empty result |
| SearchParams.ReadBack | src/app/api/data/route.ts:8 | for plain-text filters appended to a path with no "?" or "#", the route's query reading returns exactly the filter names and rendered values, in order |
| SearchParams.EntriesOfPairs | src/app/api/data/route.ts:8 | when every name and every rendered value is plain text (ASCII letters, digits and "-", "_", ".", "~"), the `name=value` pieces read back as those names and values, in order |
| Numbers.ParseInt | src/app/api/data/route.ts:9-10 | `parseInt(text, 10)` gives a number exactly when, after leading white space, the text starts with a digit or with a sign followed by a digit; a negative result needs a leading "-" |
| Numbers.ParseIntOfDecimal | src/app/api/data/route.ts:9-10 | `parseInt` undoes `${n}`: any integer rendered in decimal, followed by text that does not start with a digit, parses back to that integer |
| Numbers.DigitsValueOfDecimal | src/lib/getData.ts:16 | the decimal digits rendered for a natural number read back as that number |
| Objects.Put | src/app/page.tsx:143-146 | after assigning `k`, reading `k` gives the new value and every other key reads as before; an existing key keeps its position and a new key goes last |
| Objects.SpreadLookup | src/app/page.tsx:48 | in `{...base, ...extra}` a key of `extra` reads its value from `extra` and any other key reads from `base`; the keys of `base` come first in their order, and the keys are those of both objects |
| Objects.SpreadNewPair | src/app/page.tsx:48 | spreading two new, distinct keys onto an object appends them in order |
| Objects.PutRestores | src/app/page.tsx:145 | assigning a key's old value back after another assignment restores the object exactly |
| HomePage.ToLower | src/app/page.tsx:142 | lower-casing keeps the length, leaves no capital letter, keeps every character that is not a capital, and moves each capital 32 code points up to its small letter |
| HomePage.ToLowerIdempotent | src/app/page.tsx:142 | lower-casing twice is lower-casing once, and text without capitals is unchanged |
| HomePage.Click | src/app/page.tsx:141-146 | a header other than PublishedYear or Author leaves the state unchanged; for those two, "asc" becomes "desc" and any other value, or no value, becomes "asc"; no other key changes, and the key order is kept when the key is already present |
| HomePage.ClickTwice | src/app/page.tsx:141-146 | clicking the same header twice restores the state whenever the clicked key holds "asc" or "desc" |
| HomePage.ClickTwiceFromEmpty | src/app/page.tsx:145 | from an empty state two Author clicks give `author: "desc"`, not the empty state: the toggle is an involution only on direction values |
| HomePage.ClickKeepsWellFormed | src/app/page.tsx:141-146 | a click keeps exactly the keys publishedyear and author, in that order, each holding "asc" or "desc" |
| HomePage.ReplayKeepsWellFormed | src/app/page.tsx:141-146 | any sequence of clicks keeps the state well formed |
| HomePage.Indicator | src/app/page.tsx:152-153 | as written, an arrow is drawn exactly when the header's sort value equals the header's own lower-cased name, so only for a header whose key is present; its direction then depends on the header's name, not on the sort value: it points down unless the header lower-cases to "asc" |
| HomePage.NoIndicator | src/app/page.tsx:152-153 | in a well-formed state no header shows an arrow, because no sort value ever equals a header's lower-cased name |
| HomePage.NoIndicatorEver | src/app/page.tsx:152-153 | from the initial state, after any clicks, none of the five headers shows an arrow |
| HomePage.IntendedIndicator | src/app/page.tsx:152-153 | the corrected arrow is shown exactly for headers whose key has a sort value |
| HomePage.IntendedIndicatorShows | src/app/page.tsx:152-153 | with the corrected condition, PublishedYear and Author show the arrow of their direction, the other three headers show none, and a click on a sortable header turns its arrow |
| HomePage.FetchFilters | src/app/page.tsx:48 | `page` and `limit` are the first two keys whatever the sort state holds, and keep the values passed in unless the sort state has a key of that name |
| HomePage.FetchUrl | src/app/page.tsx:48-49 | the request address is `/api/data` followed by the query string, which is never empty, so the address always continues with "?" |
| HomePage.FetchFiltersOrder | src/app/page.tsx:48 | in a well-formed state the request filters are page, limit, publishedyear and author, in that order, with their values |
| HomePage.FetchUrlShape | src/app/page.tsx:48-49 | in a well-formed state the request goes to `/api/data?page=P&limit=L&publishedyear=Y&author=A` |
| HomePage.InitialFetchUrl | src/app/page.tsx:31-49 | the first request is `/api/data?page=1&limit=10&publishedyear=asc&author=asc` |
| Books.CountIsOrderLength | src/app/api/data/route.ts:14 | in a valid store the record count equals the number of identifiers in the natural order |
| Books.Remove | src/app/api/data/route.ts:80 | removing an identifier drops it and keeps every other identifier; the order is unchanged when the identifier was absent, and distinctness is kept; in a list of distinct identifiers that holds it, the result is the list with exactly that one position cut out, the others in their order |
| YearSort.Insert | src/app/api/data/route.ts:20 | inserting into a year-sorted list keeps it sorted, adds exactly the new document, and loses none |
| YearSort.SortByYear | src/app/api/data/route.ts:20 | the result is sorted by `PublishedYear` in the requested direction, with missing years first when ascending, and is a permutation of the input |
| DataRoute.CeilDiv | src/app/api/data/route.ts:15 | `Math.ceil(count / limit)`: the pages hold all rows, one page fewer would not, and there are zero pages exactly when there are no rows |
| DataRoute.CeilDivUnique | src/app/api/data/route.ts:15 | those two bounds determine the page count |
| DataRoute.OffsetSteps | src/app/api/data/route.ts:18 | page 1 starts at offset 0, and each page starts `limit` rows after the one before |
| DataRoute.PastLastPage | src/app/api/data/route.ts:15-18 | a page lies past the last page exactly when its offset `(page-1)*limit` reaches the row count |
| DataRoute.Window | src/app/api/data/route.ts:18-19 | `.skip(o).limit(l)` returns at most `l` consecutive rows starting at offset `o`, the exact count being min(l, rows after o), and nothing when o is at or past the end |
| DataRoute.List | src/app/api/data/route.ts:14-30 | the response echoes page and limit, reports the full count and its ceiling as totalPages, and holds the year-ordered rows from offset `(page-1)*limit`: exactly min(limit, rows after the offset) of them when the offset is inside the collection; the data is empty exactly when page exceeds totalPages |
| DataRoute.PagesCoverAll | src/app/api/data/route.ts:14-20 | the listings of pages 1 to totalPages, one after another, are the whole year-ordered collection, each record once; every later page is empty |
| DataRoute.YearDirection | src/app/api/data/route.ts:11-20 | `publishedyear=asc` sorts years ascending and `publishedyear=desc` descending; every other value, or none, selects no direction of the model |
| DataRoute.HandleGet | src/app/api/data/route.ts:8-20 | a listing is produced exactly when `page` and `limit` (after their fallbacks) parse to numbers of at least 1 and `publishedyear` is "asc" or "desc", and it is then the listing of that page and limit in that direction |
| DataRoute.DefaultPageApplies | src/app/api/data/route.ts:9 | a missing or empty `page` gives the same outcome as `page=1`, whatever `limit` is, and a listing then reports page 1 |
| DataRoute.DefaultLimitApplies | src/app/api/data/route.ts:10 | a missing or empty `limit` gives the same outcome as `limit=10`, whatever `page` is, and a listing then reports limit 10 |
| DataRoute.DefaultsApply | src/app/api/data/route.ts:9-11 | with both `page` and `limit` missing or empty and a valid `publishedyear`, the answer is page 1 of ten rows in that direction |
| DataRoute.DefaultsParse | src/app/api/data/route.ts:9-10 | the fallback texts "1" and "10" parse to 1 and 10 |
| DataRoute.OnlyThreeParameters | src/app/api/data/route.ts:9-12 | two queries that agree on page, limit and publishedyear give the same outcome, whatever else they carry |
| DataRoute.AuthorIgnored | src/app/api/data/route.ts:11-12 | setting `author` to any value does not change the outcome |
| DataRoute.HandlePut | src/app/api/data/route.ts:43-63 | an unknown `_id` gives 404 and leaves the store unchanged; otherwise the response is 200 with the updated document, each field follows the payload (absent means kept, present means set, possibly to null), the timestamps and every other record are kept, and store validity is preserved |
| DataRoute.FullPayloadReplaces | src/app/api/data/route.ts:44-50 | a payload with all five fields leaves the record holding exactly those values and its timestamps |
| DataRoute.PutIdempotent | src/app/api/data/route.ts:46-50 | sending the same update twice gives the same store and response as sending it once |
| DataRoute.HandleDelete | src/app/api/data/route.ts:78-81 | the status is always 200; with an `id`, that record is removed from the map, every other record keeps its fields, and the natural order loses exactly that identifier's position, the others keeping their relative order; without an `id`, or with an unknown one, the store is unchanged; validity is preserved |
| DataRoute.DeleteIdempotent | src/app/api/data/route.ts:78-81 | deleting twice gives the same store as deleting once |
| DataRoute.DeleteCount | src/app/api/data/route.ts:80 | deleting a stored record lowers the count by exactly one |
| RequestFlow.RequestQuery | src/app/page.tsx:48-49 | the route reads the page's request as the four pairs page, limit, publishedyear and author, in that order |
| RequestFlow.ServerSeesClientRequest | src/app/page.tsx:44-50 | for any page from 1 and any well-formed sort state, the route answers with that page of ten rows in the direction of the publishedyear value |
| RequestFlow.InitialRequest | src/app/page.tsx:64-66 | the first request lists page 1 with ten rows, years ascending |
| RequestFlow.AuthorClickKeepsListing | src/app/page.tsx:141-146 | clicking Author changes the request address but not the listing returned |
| RequestFlow.AuthorClickChangesRequest | src/app/page.tsx:145 | after an Author click the request carries the other author value, so its address differs |
| RequestFlow.YearClickReverses | src/app/page.tsx:141-146 | clicking PublishedYear makes the route return the listing in the opposite direction |

## Left out

- Database connection, `fetch`, JSON encoding and the 500 responses of the `catch` blocks: I/O. Malformed identifiers, which make the store library throw a cast error and so produce a 500, are among these.
- The count and the page are read by two separate store calls, so a concurrent change between them can make them disagree. The model reads both from one store value.
- DataRoute.HandleGet gives `OutsideModel` for the inputs the store library alone decides:
  - a `page` or `limit` that does not parse (NaN);
  - a page below 1, which gives a negative skip;
  - a limit below 1 (a limit of 0 means "no limit");
  - a `publishedyear` other than "asc" or "desc", including a missing one.
- YearSort.SortByYear: records with equal years keep their natural order, but the store does not promise any order among ties.
- Books.Book: `PublishedYear` is a schema `Number`, modelled as an exact real number. JavaScript stores it as a double, so rounding is not modelled; NaN and the infinities, which JSON cannot carry, are left out.
- DataRoute.PagesCoverAll: "each record once" rests on every page query using that one tie order. In the source each page is a separate `find().skip().limit().sort()` query, and the store promises no order among records with equal `PublishedYear` (records without a year all tie). Across pages, real paging can therefore repeat or skip records that share a year; the model does not cover that.
- DataRoute.CeilDiv: computes on whole numbers, while the source divides in floating point; the two differ only for counts of 2^53 or more.
- DataRoute.HandlePut: the payload carries the five book fields only, as the edit form sends. A payload that sets `createdAt` or `updatedAt` would change them, and keys outside the schema are dropped by the store library. A payload without `_id` is not modelled.
- HomePage.ToLower: lower-cases ASCII letters only. All five headers are ASCII.
- Objects.Put: JavaScript orders integer-like keys before other keys. Every key here is a plain word.
- Numbers.IntToDecimal: covers integral numbers only. JavaScript switches to exponent notation at 1e21 and above.
- Numbers.ParseInt: returns an exact integer, while JavaScript rounds values above 2^53 to the nearest double.
- SearchParams.ParseQuery: does not decode percent escapes or "+". It is exact for the plain text the page sends.
- The pagination state is left out. Its `limit` stays 10 because the update at src/app/page.tsx:53 is commented out.
- Out of scope:
  - the prev/next buttons;
  - CSV upload and chunked ingestion (src/app/api/upload/route.ts);
  - download;
  - the progress bar and the edit modal;
  - React state and effects.
- The `Conditional` wrapper renders its children exactly when its condition holds. The indicator functions stand for it by returning `None` for "nothing rendered".

## Findings

| source | as written | input that shows it | evidently intended | confidence | as-written member | corrected member |
|---|---|---|---|---|---|---|
| src/app/page.tsx:152 | the arrow is shown when `sort[header.toLowerCase()] === header.toLowerCase()`, which compares a direction value with a column name | the initial state `{publishedyear: "asc", author: "asc"}` with header PublishedYear: "asc" is not "publishedyear", so no arrow is drawn, and no sequence of clicks ever produces one | show the arrow for the sortable columns, pointing the way their sort value says | high (proved in the model, not executed) | HomePage.NoIndicatorEver | HomePage.IntendedIndicatorShows |
