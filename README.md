# paysage2ror reconciliation, modelled in Dafny

paysage2ror reconciles the Paysage directory of French research structures with
the Research Organization Registry (ROR). It has three stages:

1. It pages through the Paysage structures of the "France" geographical category.
   It drops every structure that already carries an identifier of type `ror`.
   It turns every other structure into a record: the Paysage id, the Paysage
   presentation URL, and the list of name variants.
2. For each record it asks the ROR affiliation service about each name variant,
   in order. It stops at the first name whose response has an item flagged
   `chosen`, and copies that item's organisation id and name onto the record.
3. It keeps only the records whose `ror` is a non-empty string. Those are the
   records written to the CSV file.

The model has four modules:

- `Basics` (basics.dfy): `Option`, JavaScript truthiness of optional strings,
  "first index satisfying a predicate", and a stable filter-map with its lemmas.
- `Extraction` (extraction.dfy): the data model of a structure and of a record.
  It has the identifier filter, the URL template and the name list. It has a
  recursive specification of the pagination that follows the source's own
  recursion. The method `GetStructuresWithoutRor` is an iterative loop proved
  equal to that specification.
- `Resolution` (resolution.dfy): the first-chosen-match search.
  `ResolveStructure` is a `for` loop with an early `return`, and it also returns
  the names it looked up. `GetRors` resolves an array of records in place.
- `Reconcile` (reconcile.dfy): the final filter, the whole run, and a worked
  example.

The Paysage collection is a finite sequence of structures. Page `p` of size `n`
is the slice starting at offset `(p - 1) * n`, cut off at the end of the
collection. The ROR service is a total function from a query string to its list
of items. `PAYSAGE_PAGE_SIZE` and `PAYSAGE_PAGE_LIMIT` are parameters; their
values in the repository (200 and 10) are the constants `DefaultPageSize` and
`DefaultPageLimit`.

The code does not deduplicate names, write unmatched records, or derive extra columns:

- Name variants are not deduplicated: "A", "A", "B" gives `["A", "A", "B"]`.
- There is no "unmatched" output: unmatched records are dropped at line 78.
- No bare-identifier column and no metadata columns are derived.

## Model

| member | source | states |
|---|---|---|
| `Extraction.RorIdentifiers` | paysage2ror.mjs:25 | an identifier is kept if and only if it is an identifier of the structure of type "ror"; there are no more of them than identifiers |
| `Extraction.NoRorIdentifiers` | paysage2ror.mjs:25-26 | the list of "ror" identifiers is empty if and only if no identifier of the structure has type "ror" |
| `Extraction.WithoutRorIff` | paysage2ror.mjs:26 | a structure is kept (`structureRors.length === 0`) if and only if none of its identifiers has type "ror" |
| `Extraction.PaysageUrl` | paysage2ror.mjs:29 | the separate inverse `PaysageIdOf` reads the Paysage id back from the URL built from it |
| `Extraction.PaysageIdOfSound` | paysage2ror.mjs:29 | any URL from which an id is read back is exactly the template applied to that id |
| `Extraction.PaysageUrlInjective` | paysage2ror.mjs:29 | distinct Paysage ids give distinct URLs |
| `Extraction.PresentValues` | paysage2ror.mjs:30 | `.filter((x) => x)` keeps exactly the present non-empty strings and adds nothing |
| `Extraction.PresentValuesAppend` | paysage2ror.mjs:30 | the name filter works element by element and keeps the order |
| `Extraction.PaysageNames` | paysage2ror.mjs:30 | at most three names; a string is a name if and only if it is non-empty and is the display, official or usual name |
| `Extraction.PaysageNamesOrder` | paysage2ror.mjs:30 | the names are display name, official name, usual name, in that fixed order, each kept only when present and non-empty |
| `Extraction.PaysageNamesKeepDuplicates` | paysage2ror.mjs:30 | when all three names are given, all three are kept, duplicates included |
| `Extraction.ToRecord` | paysage2ror.mjs:27-31 | the record pushed carries the structure's id, a URL from which that id is read back, the structure's name list `PaysageNames`, and no `ror` or `rorName` yet |
| `Extraction.CandidatesUnresolved` | paysage2ror.mjs:24-33 | no record of a page has a `ror` or `rorName` before resolution |
| `Basics.FilterMapAppend` | paysage2ror.mjs:24-33 | the per-structure `push` keeps source order: filtering a concatenation concatenates the results |
| `Basics.FilterMapMembership` | paysage2ror.mjs:24-33 | a record is produced if and only if it is the record of a kept structure |
| `Extraction.CandidatesSplit` | paysage2ror.mjs:24-36 | the records of consecutive stretches of the collection are concatenated in order |
| `Extraction.PageAt` | paysage2ror.mjs:23 | a page holds at most `limit` structures, and it is full exactly when `skip + limit` does not exceed the collection |
| `Extraction.OffsetIsProduct` | paysage2ror.mjs:20 | the offset of page `p` is `(p - 1) * PAGE_SIZE` |
| `Extraction.SkipsAreProducts` | paysage2ror.mjs:20-23 | the i-th request (from 0) uses `skip = i * PAGE_SIZE` |
| `Extraction.PageSkip` | paysage2ror.mjs:20 | the computed `skip` is the offset of the page |
| `Extraction.KeepWithoutRor` | paysage2ror.mjs:24-33 | the `forEach`/`push` loop over a page yields exactly the records of its structures without ROR identifier, in order |
| `Extraction.Continues` | paysage2ror.mjs:34 | another page is requested if and only if the ceiling is not reached and the collection extends to the end of the current page (a full page) |
| `Extraction.ExtractFrom` | paysage2ror.mjs:18-39 | the records gathered by the recursion from page `p` onwards: none has a `ror` or `rorName` yet |
| `Extraction.PagesFrom` | paysage2ror.mjs:18-39 | the number of pages the recursion requests from page `p`; if page `p` starts within the collection, so does the last page requested |
| `Extraction.ExtractFromFull` | paysage2ror.mjs:24-37 | after a full page below the ceiling, the result is that page's records followed by those of the recursive call, and one more page is requested |
| `Extraction.ExtractFromLast` | paysage2ror.mjs:24-38 | on the last page requested, the result is the records of the rest of the collection up to the end of that page |
| `Extraction.SpanEndStep` | paysage2ror.mjs:34-36 | the pages from `p` and those from `p + 1` end at the same offset, after the start of page `p + 1` |
| `Extraction.PagesFromStop` | paysage2ror.mjs:34-37 | every page before the last one was full and below the ceiling; the last page fetched was short or at the ceiling |
| `Extraction.PagesWithinCeiling` | paysage2ror.mjs:34 | starting below the ceiling, no page beyond the ceiling is requested |
| `Extraction.PageCeiling` | paysage2ror.mjs:34 | with a ceiling `LIMIT > 0`, between 1 and `LIMIT` pages are requested, whatever the pages contain |
| `Extraction.ExtractFromSpan` | paysage2ror.mjs:18-39 | the records gathered from page `p` onwards are the records of the stretch from page `p`'s offset to the end of the last page fetched |
| `Extraction.ExtractedIsPrefix` | paysage2ror.mjs:18-39 | the extraction is the records of the prefix of the collection that the fetched pages span, in source order |
| `Extraction.ExtractedComplete` | paysage2ror.mjs:34-37 | with no ceiling, or a collection that fits under it, every structure is seen and the result is the records of the whole collection |
| `Extraction.ExtractedTruncated` | paysage2ror.mjs:34-37 | when the collection is longer than `LIMIT * PAGE_SIZE`, exactly `LIMIT` pages are requested and only the first `LIMIT * PAGE_SIZE` structures are seen |
| `Extraction.OffsetMono` | paysage2ror.mjs:20 | a later page starts at a larger or equal offset |
| `Extraction.GetStructuresWithoutRor` | paysage2ror.mjs:18-39 | the iterative loop returns the records of the recursive specification and requests exactly the pages it counts, at offsets 0, `PAGE_SIZE`, `2 * PAGE_SIZE`, ... |
| `Resolution.FindChosen` | paysage2ror.mjs:47 | `find` returns nothing if and only if no item is chosen; otherwise it returns the first chosen item |
| `Resolution.Queries` | paysage2ror.mjs:43-52 | the names looked up are a prefix of the names; none but the last one matched, and they stop short of the list only at a match |
| `Resolution.Resolved` | paysage2ror.mjs:48-54 | resolution never changes the Paysage id, URL or names of a record |
| `Resolution.ResolvedFirstMatch` | paysage2ror.mjs:43-52 | if name `k` is the first to yield a chosen item, the record takes that item's organisation id and name, and names after `k` are never looked up |
| `Resolution.ResolvedNoMatch` | paysage2ror.mjs:43-54 | if no name yields a chosen item, the record is returned unchanged after all its names were looked up |
| `Resolution.ResolvedNoNames` | paysage2ror.mjs:43-54 | a record with no names is returned unchanged and makes no lookup |
| `Resolution.ResolvedIdempotent` | paysage2ror.mjs:41-56 | resolving a resolved record against the same service changes nothing |
| `Resolution.ResolveStructure` | paysage2ror.mjs:42-55 | the loop with early `return` yields the resolved record and looks up exactly the names `Queries` describes |
| `Resolution.ResolvedAll` | paysage2ror.mjs:42 | one output per input, in order, each keeping the id, URL and names of the record at its position |
| `Resolution.ResolvedAllMembership` | paysage2ror.mjs:42 | the output holds exactly the resolutions of the input records |
| `Resolution.GetRors` | paysage2ror.mjs:41-56 | each array slot is replaced by its own resolution: one record per input record, in input order |
| `Reconcile.Matched` | paysage2ror.mjs:78 | the filter `structure?.ror` keeps exactly the records whose `ror` is truthy, that is present and not the empty string |
| `Reconcile.MatchedAppend` | paysage2ror.mjs:78 | the filter is stable: it distributes over concatenation |
| `Reconcile.Reconciled` | paysage2ror.mjs:74-78 | the output has no more records than the collection has structures, and every output record has a truthy `ror` (`ReconciledMembership` ties each output record to one structure) |
| `Reconcile.Run` | paysage2ror.mjs:72-78 | the run returns the filtered resolutions of the extracted records |
| `Reconcile.ReconciledMembership` | paysage2ror.mjs:74-78 | a record is in the output if and only if it is the resolution of a fetched structure without ROR identifier and its `ror` is a non-empty string |
| `Reconcile.ReconciledFields` | paysage2ror.mjs:27-30 | every output record carries the id, URL and names of a source structure without ROR identifier, and its URL gives back its id |
| `Reconcile.ChosenWithoutIdExcluded` | paysage2ror.mjs:47-51 | a chosen item without organisation id still stops the search, but its record is not written |
| `Reconcile.DefaultSettingsBound` | paysage2ror.mjs:7-8 | with the repository's settings at most 10 pages and the first 2000 structures are read |
| `Reconcile.ExampleRun` | paysage2ror.mjs:72-78 | on a page of three structures (one with a ROR id, one matched by its first name, one unmatched) only the matched record is written, with the chosen organisation |

## Left out

- HTTP calls through axios, the `X-API-KEY` header and dotenv loading: the two services are a sequence of structures and a lookup function.
- Failing requests: the model assumes that every request to either service eventually answers, which makes both services total functions. In the code, axios-retry retries a failed request at most 5 times (line 11). After that, or on an error it does not retry, the awaited `axios.get` throws (lines 23 and 46). `Promise.all` (line 42) then rejects, the top-level `await` (line 74 or 77) throws, and the run ends without writing any CSV (line 81). The model has no such aborted run. The retry delays themselves only affect timing.
- The 30-second `setTimeout` before every ROR query: timing only, no effect on results.
- `Promise.all` concurrency: resolutions share no state and results keep input order, so the model resolves records one after another.
- `encodeURI` of the query: it only changes how the request is encoded. The lookup function receives the name itself.
- CSV writing (`writeCsv`) and console logging.
- Malformed responses: a Paysage page is always a sequence. An absent `identifiers` list is the empty sequence. A null item of the ROR response is not modelled apart from an item whose `chosen` is false, which `find` treats the same way.
- The unguarded `response.data.data.length` at line 34 would throw on a malformed page. It is not modelled, because pages are always sequences here.
- JavaScript values of other types (numbers as names, non-boolean `chosen`, an undefined `id` printed into the URL): names and ids are strings and `chosen` is a boolean.
- The ROR service answers the same query the same way throughout a run, because it is a function.
- GetStructuresWithoutRor: requires a page size above 0. With size 0 and no ceiling, the source would request empty "full" pages forever. The repository uses 200.
