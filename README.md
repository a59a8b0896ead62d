# lingua — a verified model of the data routes and the export

lingua is a small language-learning application. Phrases ("entries") are grouped by
domain and intent, each entry can have recorded audio ("audio items") kept in a storage
bucket, learners can ask for phrases that are missing, and administrators read those
requests. This project models, in Dafny, the server-side logic behind that:

- the entry listing of a domain (`GET /api/conversation/intents`): the search pattern, the
  fallback query for an older schema, and the first audio URL of each entry;
- the studio listing (`GET /api/studio`): `ilikeSafe`, the page window, grouping every audio
  row under its entry, and the recursive storage walk `listAll`;
- the missing-request counter (`POST /api/missing`): normalising the request key, refusing
  an empty query, and the upsert followed by the count increment. The `missing_requests`
  table is a class holding a map from key to row;
- the administrators' listing of requests (`GET /api/requests`): the token check, the
  clamped page parameters, the unescaped search and the reported total;
- the list of domains (`GET /api/meta/domains`): trim, drop empty, deduplicate, sort;
- the export script: the storage walk `listAllFiles`, the paginated `fetchAllRows` and
  the CSV writer `toCSV`/`esc`;
- the favourites page: the search `filtered` and the "Retirer" removal.

The hosted store (Supabase/PostgREST) is not part of the program. Each store call is a
function parameter that answers a query. Each route returns its response together with the
queries it issued, so statements such as "an unauthorised request issues no query" can be
proved. Two reference definitions give meaning to what the program produces: an ILIKE
matcher (section 9.7.1 of the PostgreSQL manual) says which rows a search pattern selects
in the store, and a CSV reader (RFC 4180) reads back the text the export writes. Both are
used only in lemmas.

Some behaviours of the code that a reader might not expect, all modelled as written:

- the entry listing takes the first audio row of an entry, newest first, whatever its
  type or status;
- the studio listing filters audio rows by type only, never by status;
- an audio row whose storage path is empty still claims its entry's slot in the entry
  listing, with no URL;
- the first recording of a missing request reports a count of 2, because the route
  upserts a row with the default count and then increments it;
- the administrators' search does not escape `%` and `_`, while the other two searches do.

Files: `base.dfy` (Option, Result, JavaScript `||`, `trim`, `toLowerCase`, `includes`),
`like.dfy`, `pagination.dfy`, `storage_walk.dfy`, `entry_listing.dfy`, `studio.dfy`,
`missing_requests.dfy`, `admin_requests.dfy`, `domain_list.dfy`, `export.dfy`, `csv.dfy`,
`favorites.dfy`.

## Model

| member | source | states |
|---|---|---|
| Base.Or | app/api/studio/route.ts:46-49 | `v \|\| d` on a string: the default replaces a missing and an empty value, any other value is kept |
| Base.ErrorText | app/api/studio/route.ts:128-130 | the catch-all message is the error's message, or "Unknown error" when that is empty; never empty |
| Base.Trim | app/api/conversation/intents/route.ts:10-12 | `trim` returns the infix of the text with only whitespace around it, and its ends are not whitespace |
| Base.TrimEmptyIffBlank | app/api/missing/route.ts:21-23 | a text trims to nothing exactly when it is all whitespace |
| Base.TrimIdempotent | app/api/meta/domains/route.ts:21 | trimming twice is trimming once |
| Base.TrimPadded | app/api/missing/route.ts:4-8 | trimming removes exactly the whitespace around a text whose ends are not whitespace |
| Base.Lower | app/api/missing/route.ts:16 | `toLowerCase` maps each character to its lower case and keeps the length |
| Like.ReplaceCharAbsent | app/api/studio/route.ts:8 | `replaceAll` leaves a text without the searched character unchanged |
| Like.EscapeCons | app/api/studio/route.ts:8 | the two `replaceAll` passes escape one character at a time; the backslashes of the first pass are not touched by the second |
| Like.UnescapeEscape | app/api/studio/route.ts:8 | for a text without backslash, unescaping the escaped text gives the text back |
| Like.LikePattern | app/api/conversation/intents/route.ts:25 | the search pattern starts and ends with the `%` wildcard |
| Like.Escape | app/api/studio/route.ts:8 | text without `%` and `_` is left unchanged by the two `replaceAll` passes |
| Like.EscapeKeepsOut | app/api/studio/route.ts:8 | escaping adds no character other than the backslash |
| Like.StarIsAWildcard | app/api/conversation/intents/route.ts:25 | a search for "a*b" finds "axb", which does not contain "a*b", because PostgREST reads `*` as `%` |
| Like.IlikeSafe | app/api/studio/route.ts:4-9 | no pattern exactly when the text is blank; otherwise the pattern of the trimmed text |
| Like.IlikeSafeRoundTrip | app/api/studio/route.ts:4-9 | the trimmed text is recovered from `ilikeSafe`'s pattern when it holds no backslash |
| Like.PatternMeansSubstring | app/api/conversation/intents/route.ts:24-27 | ILIKE with the escaped pattern, `*` read as `%` as PostgREST does, holds exactly when the column contains the search text, case ignored (text without backslash or `*`) |
| Like.BackslashDefeatsSubstringSearch | app/api/studio/route.ts:8 | a search for `a\` does not find the text `a\`, because the backslash is not escaped |
| Pagination.PageSize | app/api/studio/route.ts:52 | the page size is 20 by default, otherwise the parameter clamped to [5, 50] |
| Pagination.StudioPage | app/api/studio/route.ts:51 | the studio page is 1 by default and is not clamped |
| Pagination.AdminPage | app/api/requests/route.ts:19 | the request page is 1 by default and for a parameter below 1, otherwise the parameter |
| Pagination.RowWindow | app/api/studio/route.ts:54-55 | the inclusive window spans exactly one page of rows and starts at offset 0 or later for page 1 and up |
| Pagination.WindowsAreAdjacent | app/api/requests/route.ts:22-23 | the next page's window starts right after this page's window ends |
| Pagination.OffsetOnItsPage | app/api/requests/route.ts:22-23 | a row offset lies in the window of page p exactly when p is offset / size + 1 |
| StorageWalk.JoinPath | app/api/studio/route.ts:23 | the full path is the name at the root, otherwise the path, `/` and the name |
| StorageWalk.ThenAssociates | scripts/export_lingua.mjs:28-44 | collecting the results of consecutive children does not depend on grouping |
| StorageWalk.ChildrenLeavesSnoc | scripts/export_lingua.mjs:28-44 | visiting one more child appends that child's leaves, or stops at its error |
| StorageWalk.Walk | app/api/studio/route.ts:14-35 | the walk appends to `out` exactly the leaves of the reference depth-first definition, or fails with the first listing error |
| StorageWalk.WalkFailsIffSomeListingFails | scripts/export_lingua.mjs:25 | the walk fails exactly when some listing in the tree fails |
| StorageWalk.WalkCountsEveryObject | scripts/export_lingua.mjs:33-43 | a successful walk returns one leaf per listed object |
| StorageWalk.LeavesLieBeneathPrefix | scripts/export_lingua.mjs:29 | every leaf path lies beneath the walked prefix and ends with the leaf's name |
| EntryListing.FetchEntries | app/api/conversation/intents/route.ts:17-52 | the first query is always issued; the fallback is issued exactly when the first fails with a missing-column message, and its rows or error are used |
| EntryListing.PrimaryQuery | app/api/conversation/intents/route.ts:17-33 | the domain's entries by order in the intent ascending, no limit; a search pattern exactly when there is search text; an intent filter exactly when the intent is neither empty nor "general" |
| EntryListing.FallbackQuery | app/api/conversation/intents/route.ts:38-45 | the domain's entries, newest first, at most 300, with no search and no intent filter |
| EntryListing.MissingColumnIgnoresCase | app/api/conversation/intents/route.ts:36-37 | the test for a missing column gives the same answer for the message and its lower-cased form |
| EntryListing.EntryIdsAppend | app/api/conversation/intents/route.ts:54 | the ids keep the order of the entries |
| EntryListing.AudioUrl | app/api/conversation/intents/route.ts:70-76 | no URL without a non-empty storage path; otherwise the public URL of that path in the bucket |
| EntryListing.EntryIds | app/api/conversation/intents/route.ts:54-55 | the ids are exactly the entries' non-empty entry ids, no more ids than entries; none exactly when no entry has one |
| EntryListing.FirstAudioSnoc | app/api/conversation/intents/route.ts:65-79 | one more audio row only fills an entry slot that is still free |
| EntryListing.FirstAudioKeys | app/api/conversation/intents/route.ts:65-79 | an entry has a slot exactly when some audio row names it |
| EntryListing.FirstAudioFirstWins | app/api/conversation/intents/route.ts:67-78 | the slot holds the URL of the first row naming the entry, even when that row has no storage path |
| EntryListing.FirstAudioByEntry | app/api/conversation/intents/route.ts:65-79 | the loop over the audio rows builds exactly the map of first URLs described by `FirstAudio` |
| EntryListing.Merge | app/api/conversation/intents/route.ts:81-84 | every entry is kept in order, with its slot's URL or null |
| EntryListing.ListEntries | app/api/conversation/intents/route.ts:4-90 | empty domain: no items and no query; store errors give a 500 with the store's message; no ids: no audio query; otherwise one audio query for the ids, newest first, and the entries merged with the first audio of each |
| EntryListing.PrimaryQueryMeaning | app/api/conversation/intents/route.ts:17-33 | the first query selects the domain's entries, narrowed to the intent unless empty or "general", and to those whose lemma or translation contains the search (search without backslash or `*`) |
| EntryListing.FallbackQueryMeaning | app/api/conversation/intents/route.ts:38-45 | the fallback selects every entry of the domain, whatever its intent or text |
| Studio.WhenSet | app/api/studio/route.ts:69-70 | a filter is applied exactly when its value is not empty |
| Studio.Resolve | app/api/studio/route.ts:102-111 | the row is kept as is; no URL without a non-empty storage path, otherwise the public URL of that path in the bucket |
| Studio.GroupShape | app/api/studio/route.ts:100-115 | no list is empty, no list holds more rows than were fetched, and every row of a list is a fetched row naming that list's entry |
| Studio.PlanEntries | app/api/studio/route.ts:59-70 | newest first; a window of `pageSize` rows starting at (page − 1) · pageSize; a search pattern exactly when the trimmed text is not empty; each equality filter exactly when its value is not empty |
| Studio.AnswerPage | app/api/studio/route.ts:72-127 | the entries query is issued first; errors give a 500; no rows: total is the count or 0 and no audio query; otherwise one audio query for the ids, newest first, and each entry with its audio rows |
| Studio.EntryIds | app/api/studio/route.ts:75 | one id per entry, in order, none dropped |
| Studio.GroupSnoc | app/api/studio/route.ts:113-114 | pushing one audio row appends it to its entry's list |
| Studio.GroupIsRowsOf | app/api/studio/route.ts:100-115 | an entry's list is exactly its audio rows in fetched order, and an entry has a list exactly when some row names it |
| Studio.GroupByEntry | app/api/studio/route.ts:100-115 | the loop over the audio rows builds exactly the grouping described by `Group` |
| Studio.EveryRowLands | app/api/studio/route.ts:102-115 | no fetched audio row is dropped |
| Studio.Merge | app/api/studio/route.ts:117-120 | every entry is kept in order, with its list of audio rows or an empty one |
| Studio.StudioList | app/api/studio/route.ts:41-131 | the entries query for the page window and filters, newest first, is issued first; errors give a 500; no rows: total is the count or 0 and no audio query; otherwise one audio query for the ids, newest first, optionally of one type, and total is the count or the number of items, with each entry's audio rows |
| Studio.WindowSpansPageSize | app/api/studio/route.ts:51-55 | the page size lies in [5, 50] and the window spans exactly that many rows |
| MissingRequests.NormStr | app/api/missing/route.ts:4-8 | null becomes the empty string, any other value its trimmed form |
| MissingRequests.TargetLanguageDefault | app/api/missing/route.ts:18 | the target language is "fr" when missing or empty; an all-whitespace value becomes empty |
| MissingRequests.PaddingAndCaseShareAKey | app/api/missing/route.ts:16-19 | surrounding whitespace and letter case of the query do not change the key |
| MissingRequests.Bumped | app/api/missing/route.ts:50 | the new count is 2 for a missing count, always greater than the old count, and max(count, 1) + 1 for a non-negative count |
| MissingRequests.NormalizeKey | app/api/missing/route.ts:4-19 | the key is the query trimmed and lower-cased, the source language and domain trimmed, the target language trimmed with "fr" for a missing or empty one; its fields carry no surrounding whitespace, the query no capital letter, and the query is empty exactly when it is missing or blank |
| MissingRequests.RecordKey | app/api/missing/route.ts:10-62 | an empty query is refused with 400 and changes nothing; a failed upsert gives a 500 with its message and changes nothing; a failed update gives a 500 and leaves the upserted row; otherwise only the key's row changes, with a new time and a bumped count, a new row gets a fresh id; the table stays valid |
| MissingRequests.Record | app/api/missing/route.ts:10-62 | the answer is the 400 refusal exactly when the query is missing or blank, and then the table is unchanged; the table stays valid |
| MissingRequests.FailedUpdateLeavesRow | app/api/missing/route.ts:44-57 | after a failed update the new key's row stays with the default count, so the next recording reports 2 |
| MissingRequests.FirstTwoRecordings | app/api/missing/route.ts:29-57 | the first two recordings of a new key report counts 2 and 3 |
| MissingRequests.SameKeyOneRow | app/api/missing/route.ts:25-44 | two requests with the same normalised key add at most one row |
| MissingRequests.MissingRequestTable.constructor | app/api/missing/route.ts:29-30 | an empty, valid table |
| MissingRequests.MissingRequestTable.Upsert | app/api/missing/route.ts:29-44 | a store error leaves the table unchanged; otherwise the row of the key gets the new time, or is inserted with a fresh id and the default count |
| MissingRequests.MissingRequestTable.SetCount | app/api/missing/route.ts:47-57 | a store error leaves the table unchanged; otherwise every row with the id gets the count and time, and the updated row is returned exactly when one has the id |
| MissingRequests.Post | app/api/missing/route.ts:10-62 | the table and the response after a `POST`, including the 500 answers of a failed upsert or update, are those of `Record` on the old table |
| AdminRequests.IsAdmin | app/api/requests/route.ts:4-8 | admitted exactly when a non-empty token is configured and the header equals it |
| AdminRequests.NoTokenNoAdmin | app/api/requests/route.ts:6-7 | without a configured token nobody is admitted |
| AdminRequests.SearchText | app/api/requests/route.ts:18 | the search is the parameter trimmed and lower-cased; empty exactly when the parameter is blank; it has no upper-case letter |
| AdminRequests.SearchPattern | app/api/requests/route.ts:33 | no filter for an empty search, otherwise `%q%` with the search unescaped |
| AdminRequests.PlanRequests | app/api/requests/route.ts:18-33 | order by count then last seen, both descending; the window of the clamped page; the search filter |
| AdminRequests.ListRequests | app/api/requests/route.ts:10-47 | unauthorised: 401 and no query; otherwise one query; a store error gives a 500; the total is the exact count, or the number of rows returned |
| AdminRequests.SearchMeansSubstring | app/api/requests/route.ts:33 | for a search without `%`, `_`, `*` or `\`, the filter keeps exactly the requests containing the trimmed parameter, case ignored |
| AdminRequests.UnderscoreIsAWildcard | app/api/requests/route.ts:33 | a search for "a_c" lists "abc", which does not contain "a_c" |
| DomainList.BelowTransitive | app/api/meta/domains/route.ts:22 | the order used for sorting is transitive |
| DomainList.BelowTotal | app/api/meta/domains/route.ts:22 | any two different domains are ordered one way or the other |
| DomainList.Trimmed | app/api/meta/domains/route.ts:21 | each row's domain, or "", trimmed |
| DomainList.Cleaned | app/api/meta/domains/route.ts:21 | the kept domains are trimmed and non-empty, and are exactly the non-empty trimmed domains of the rows |
| DomainList.Distinct | app/api/meta/domains/route.ts:20-21 | the `Set` keeps the same elements without duplicates |
| DomainList.Insert | app/api/meta/domains/route.ts:22 | inserting a domain that is not yet in a strictly ascending list keeps it strictly ascending and adds exactly that domain |
| DomainList.Sort | app/api/meta/domains/route.ts:22 | the result is strictly ascending and a permutation of its input |
| DomainList.ListDomains | app/api/meta/domains/route.ts:8-38 | a store error gives a 500; otherwise the domains of the rows fetched with limit 10000 |
| DomainList.DomainsOfMeaning | app/api/meta/domains/route.ts:20-22 | the list is strictly ascending, has no duplicates, holds only trimmed non-empty domains, and holds every non-empty domain of the rows |
| DomainList.SortedListingIsUnique | app/api/meta/domains/route.ts:20-22 | two strictly ascending lists with the same elements are equal: the result depends only on the set of domains |
| Export.BucketName | scripts/export_lingua.mjs:7 | the configured bucket when it is set and not empty, otherwise "lingua-audio" |
| Export.ExportPrefix | scripts/export_lingua.mjs:8 | the configured prefix with the whitespace around it removed, and empty when not configured |
| Export.ListAllFiles | scripts/export_lingua.mjs:17-49 | the files are the leaves of the walk from the prefix, or the first listing error |
| Export.Answer | scripts/export_lingua.mjs:56 | a window fails exactly when the store fails it, with its message; otherwise it holds at most a page of rows: nothing past the table's end, the table's slice inside it, and the rest of the table for a window reaching past the end |
| Export.FetchAllRows | scripts/export_lingua.mjs:51-63 | the loop returns the rows and requests the windows of the reference pagination |
| Export.FetchAllRowsIsTheTable | scripts/export_lingua.mjs:51-63 | without store errors, all rows of the table are returned in order |
| Export.FetchReturnsTheRest | scripts/export_lingua.mjs:54-61 | without store errors, fetching from an offset returns the table from that offset on |
| Export.FetchRequestCount | scripts/export_lingua.mjs:58-60 | without store errors, (rows − from) / pageSize + 1 pages are requested |
| Export.FetchWindowsAreConsecutive | scripts/export_lingua.mjs:54-56 | the k-th request asks for offsets from + k·pageSize to from + k·pageSize + pageSize − 1 |
| Export.FetchFailureIsTheLastRequest | scripts/export_lingua.mjs:57 | a failure ends the fetch: its message is the last request's error and no partial rows are returned |
| Csv.Keys | scripts/export_lingua.mjs:67 | the columns are the first row's property names, in order |
| Csv.Cell | scripts/export_lingua.mjs:75 | a row's value under a column is the value of the first property with that name, or null when the row lacks it |
| Csv.EscText | scripts/export_lingua.mjs:70-72 | text with a quote, comma or line feed is put in quotes; other text is kept |
| Csv.Esc | scripts/export_lingua.mjs:68-73 | null becomes the empty field |
| Csv.ReadFieldOfEscaped | scripts/export_lingua.mjs:68-73 | an escaped value reads back as the value |
| Csv.ReadRecordsOfLines | scripts/export_lingua.mjs:74-76 | lines of escaped fields joined by line feeds read back as the records |
| Csv.ToCsv | scripts/export_lingua.mjs:65-77 | no rows give the empty text; otherwise the CSV text reads back as the header and the text of every row's value under each column |
| Csv.Line | scripts/export_lingua.mjs:68-76 | a line of escaped cells reads back as the row's cells |
| Csv.JoinAppend | scripts/export_lingua.mjs:74-76 | joining two runs of fields is joining each and putting the separator between them |
| Favorites.SearchedFields | app/favorites/page.tsx:56-59 | the French text, the source text, the domain and the intent, in that order, a missing one as "" |
| Favorites.KeepsMeansSomeFieldContains | app/favorites/page.tsx:55-60 | a favourite is kept exactly when one of its four searched fields contains the search, case ignored |
| Favorites.Filtered | app/favorites/page.tsx:52-61 | a blank search keeps the list; otherwise a sublist in order holding exactly the favourites with a field containing the trimmed search, case ignored |
| Favorites.FilteredIsIdempotent | app/favorites/page.tsx:52-61 | searching the result again changes nothing |
| Favorites.Remove | app/favorites/page.tsx:150-155 | the favourites lose exactly the key of the removed one; the others are unchanged |
| Favorites.RemoveIsIdempotent | app/favorites/page.tsx:151-152 | removing the same favourite twice is removing it once |

## Left out

- Like.PatternMeansSubstring: requires a search text without backslash and without `*`. The routes escape neither, `Like.BackslashDefeatsSubstringSearch` shows a search that fails because of the backslash, and `Like.StarIsAWildcard` one that finds too much because PostgREST reads `*` as `%`.
- EntryListing.PrimaryQueryMeaning: requires a search text without backslash and without `*`, for the same reason.
- AdminRequests.SearchMeansSubstring: requires a search without `%`, `_`, `*` or `\`. This route escapes nothing, and `AdminRequests.UnderscoreIsAWildcard` shows the difference.
- MissingRequests.Bumped: for a negative stored count the result is count + 1, as the code computes, not max(count, 1) + 1.
- Base.Lower: lower-cases ASCII and the Latin-1 capitals only; the rest of Unicode case mapping is not modelled.
- DomainList.Sort: `localeCompare` is modelled as the lexicographic order on characters; locale collation is not modelled.
- Csv.ToCsv: the round trip requires a first row with at least one property whose names need no quoting. Null, a missing property and "" all give the same empty field. A carriage return is not quoted, as in the code.
- Page parameters are integers or missing; `NaN`, fractions and non-numeric text from `Number(...)` are not modelled.
- Exceptions are modelled as the error results of store calls, including the upsert and the update of the missing-request route. A request body that is not JSON, and a store answer that breaks the code in another way, are not modelled, and neither are the 500 responses they would cause.
- MissingRequests.Post: the two store calls run one after the other with nothing in between. A concurrent request between the upsert and the update is not modelled.
- Export.FetchAllRows: requires a page size of at least 1; the script always uses 1000.
- The store's row order is not modelled: each query records the order it asks for, and the rows come back in whatever order the store gives them.
- StorageWalk.WalkCountsEveryObject: each listing asks for at most 1000 children, so a folder with more is cut short by the store; the model walks the listings the store gave, one leaf per listed object, and does not model that cap.
- PostgREST's parsing of the `or=(...)` filter is not modelled. A comma or parenthesis in the search text can change the filter.
- `Object.values` order of the favourites object is taken as given; prototype-named keys are not modelled.
- Studio.Group: an entry id that names a property of every JavaScript object, such as "constructor", is treated like any other id. In the code, `byEntry[id]` is then already set to a function, `.push` throws and the route answers 500.
- EntryListing.FirstAudio: the same kind of entry id is treated like any other id. In the code the slot looks filled from the start, so the row is skipped and the entry gets a null URL.
- The studio's `listAll` is modelled (`StorageWalk.Walk`) but `GET` does not call it; the export's timestamps are the same walk with two more fields.
- The export's `main` is not modelled: the choice between public and signed URLs, the JSON payload and file writes, and logging.
- JSON encoding of responses, HTTP headers (the domains route's no-cache headers) and the 200 status are not modelled; a response is a datatype.
- Not modelled: the phrases route, the pages other than the favourites search and removal, the service worker, theme handling and the icon script.
