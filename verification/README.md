# Wedding venue picture finder: the data transformations

This project models the three data transformations of the venue picture
finder, as pure Dafny functions and one Dafny method, and proves their
properties.

- **CSV name-list ingestion** (`process-venue-csv`). The uploaded text is
  split on line feeds. Each line is trimmed and blank lines are dropped. The
  first line is dropped when it looks like a header. Double quotes are
  stripped from every name. One import item is built per name, and a search
  is dispatched for the import's oldest item.
- **CSV export** (`exportToCsv` in the import results view). Completed items
  that reference a search are collected. Items whose search stored at least
  one image become rows, with their URLs joined by `", "`. Every cell is
  wrapped in double quotes. Cells are joined by `,` and rows by a line feed.
  The same view's recent-items list is the 50 newest items.
- **Search-result shaping** (`search-venues`). The query is the venue name
  plus `" wedding venue"`. At most 15 upstream image results are kept. Each
  takes `original || thumbnail` as its URL and `title || "Wedding venue " +
  name` as its alt text.

Database calls, the upstream HTTP request and the incoming HTTP request are
not modelled as I/O. What they answer is a parameter: a table as a sequence
of rows, an error as an `Option` or `Result`, and the upstream answer as an
`Upstream` value. Timestamps (`created_at`) are integers. Where the database
leaves the order of equal timestamps open, the model fixes one order.

The export does not double a double quote inside a cell, which section 2
rule 7 of RFC 4180 requires. The model keeps this behaviour as written.
`VenueImportResults.UnescapedQuotesAreAmbiguous` shows two different rows
that render to the same text. `VenueImportResults.ReadBackCsv` shows that
the output reads back correctly when no cell contains a double quote or a
line feed.

Files: `wrappers.dfy` (Option, Result), `numeric.dfy` (Min), `js_string.dfy` (the JavaScript
string operations used), `rows.dfy` (table rows), `process_venue_csv.dfy`,
`search_venues.dfy`, `venue_import_results.dfy`, and `csv_reader.dfy` (a
reference reader for quoted CSV, used only to state the export's format).

## Model

| member | source | states |
|---|---|---|
| JsString.Trim | supabase/functions/process-venue-csv/index.ts:30 | neither end of a trimmed line is whitespace |
| JsString.TrimCutsWhitespace | supabase/functions/process-venue-csv/index.ts:30 | the trimmed line is a slice of the input, and only whitespace is cut from either end |
| JsString.TrimEmptyIff | supabase/functions/process-venue-csv/index.ts:30-31 | a line trims to the empty string exactly when it is all whitespace |
| JsString.TrimTrimmed | supabase/functions/process-venue-csv/index.ts:50 | trimming an already trimmed string changes nothing |
| JsString.Split | supabase/functions/process-venue-csv/index.ts:29 | splitting yields at least one piece, and no piece contains the separator |
| JsString.Join | src/components/VenueImportResults.tsx:85-90 | definition of `Array.prototype.join`; a single part joins to itself; properties in JoinSplit, SplitJoin and JoinAppend |
| JsString.JoinSplit | supabase/functions/process-venue-csv/index.ts:29 | splitting on line feeds loses nothing: joining the pieces gives the text back |
| JsString.SplitJoin | src/components/VenueImportResults.tsx:88-90 | splitting a join of separator-free parts gives the parts back |
| JsString.RemoveAll | supabase/functions/process-venue-csv/index.ts:50 | after `replace(/"/g, '')` no double quote is left and nothing is added |
| JsString.Contains | supabase/functions/process-venue-csv/index.ts:34 | definition of `includes`: `t` occurs at some position of `s`; properties in MissingLetterNotContained and ToLowerKeepsOccurrence |
| JsString.MissingLetterNotContained | supabase/functions/process-venue-csv/index.ts:34 | a string lacking one letter of `t` does not include `t` |
| JsString.ToLowerKeepsOccurrence | supabase/functions/process-venue-csv/index.ts:34 | lower-casing keeps an occurrence of `t` in place, as an occurrence of the lower-cased `t` |
| JsString.ToLower | supabase/functions/process-venue-csv/index.ts:34 | lower-casing keeps the length and maps each ASCII capital to its small letter |
| ProcessVenueCsv.TrimEach | supabase/functions/process-venue-csv/index.ts:30 | one trimmed line per piece, in order |
| ProcessVenueCsv.TrimEachAppend | supabase/functions/process-venue-csv/index.ts:30 | trimming each line distributes over concatenation |
| ProcessVenueCsv.NonEmpty | supabase/functions/process-venue-csv/index.ts:31 | every kept line is non-empty and comes from the input; properties in NonEmptyAppend and NonEmptyIsEmpty |
| ProcessVenueCsv.NonEmptyIsEmpty | supabase/functions/process-venue-csv/index.ts:31 | nothing is kept exactly when every line is empty |
| ProcessVenueCsv.CleanLines | supabase/functions/process-venue-csv/index.ts:30-31 | every kept line is non-empty and trimmed |
| ProcessVenueCsv.ParseLines | supabase/functions/process-venue-csv/index.ts:29-31 | every kept line is non-empty and has no leading or trailing whitespace |
| ProcessVenueCsv.ParseLinesAppend | supabase/functions/process-venue-csv/index.ts:29-31 | parsing works line by line and keeps input order: the lines of `a + "\n" + b` are those of `a` followed by those of `b` |
| ProcessVenueCsv.ParseOneLine | supabase/functions/process-venue-csv/index.ts:29-31 | a single line yields its trimmed text, or nothing when it is blank |
| ProcessVenueCsv.ParseLinesEmptyIff | supabase/functions/process-venue-csv/index.ts:29-34 | no line survives exactly when the whole text is whitespace and line feeds |
| ProcessVenueCsv.DropHeader | supabase/functions/process-venue-csv/index.ts:34-36 | no lines is an error (the `lines[0]` TypeError); otherwise exactly the first line is removed when it contains "venue" or "name" after lower-casing, and no other line is looked at |
| ProcessVenueCsv.IsHeader | supabase/functions/process-venue-csv/index.ts:34 | definition: the lower-cased line includes "venue" or "name"; properties in HeaderWordDropsFirstLine and MissingLettersNotHeader |
| ProcessVenueCsv.HeaderWordDropsFirstLine | supabase/functions/process-venue-csv/index.ts:34-35 | any first line holding "venue" or "name" in any ASCII capitalisation is dropped, whatever else it says |
| ProcessVenueCsv.MissingLettersNotHeader | supabase/functions/process-venue-csv/index.ts:34 | a line whose lower-cased text lacks a letter of "venue" and a letter of "name" is no header |
| ProcessVenueCsv.HeaderOnlyFirstLine | supabase/functions/process-venue-csv/index.ts:34-36 | when the first line is no header every line is kept, whatever the later lines hold |
| ProcessVenueCsv.HeaderHeuristicDropsVenueNamedVenue | supabase/functions/process-venue-csv/index.ts:34-35 | example: the real venue "Grand Venue Hall" as first line is dropped as a header |
| ProcessVenueCsv.HeaderOnlyFirstLineExample | supabase/functions/process-venue-csv/index.ts:34-36 | example: after "Rose Barn" a "Venue Name" line is kept as a venue |
| ProcessVenueCsv.CleanName | supabase/functions/process-venue-csv/index.ts:50 | a venue name holds no double quote and has no whitespace at either end |
| ProcessVenueCsv.CleanQuotedName | supabase/functions/process-venue-csv/index.ts:50 | a name wrapped in double quotes comes out unwrapped |
| ProcessVenueCsv.QuotesOnlyLineYieldsEmptyName | supabase/functions/process-venue-csv/index.ts:50 | a line made only of double quotes yields an empty venue name; nothing filters it out |
| ProcessVenueCsv.BuildItems | supabase/functions/process-venue-csv/index.ts:48-51 | exactly one item per line, in line order, all carrying the new import's id |
| ProcessVenueCsv.SearchRequest | supabase/functions/process-venue-csv/index.ts:71-75 | definition of the dispatched body: the item's name, the import id and the item's id; properties in HandleUpload and DispatchedQuery |
| ProcessVenueCsv.OldestItem | supabase/functions/process-venue-csv/index.ts:60-66 | returns an item of the import with the smallest `created_at`, and nothing exactly when the import has no item |
| ProcessVenueCsv.HandleUpload | supabase/functions/process-venue-csv/index.ts:19-96 | a missing or non-file field, or a text without non-blank lines, gives status 500 and creates nothing; otherwise the upload succeeds exactly when both inserts succeed; a failed import insert gives 500 with its error and creates nothing; a failed item insert gives 500 with its error and leaves the import row behind; on success the reported id is the inserted import's id, `total_venues` equals the number of items created, the items are one per remaining line, all tagged with that id, and at most one search is dispatched, for the oldest item, with its name, the import id and its id |
| ProcessVenueCsv.DispatchedQuery | supabase/functions/process-venue-csv/index.ts:70-76 | the dispatched search queries the oldest item's name followed by " wedding venue" |
| SearchVenues.Interpolate | supabase/functions/search-venues/index.ts:16 | a string member interpolates as itself, a missing one as "undefined", a null one as "null" |
| SearchVenues.DefaultAltText | supabase/functions/search-venues/index.ts:28 | definition: "Wedding venue " then the interpolated name; never empty, by AltTextNeverEmpty |
| SearchVenues.SearchQuery | supabase/functions/search-venues/index.ts:16 | the query is the venue name followed by " wedding venue" |
| SearchVenues.ShapeImage | supabase/functions/search-venues/index.ts:27-28 | the URL is `original` when it is a non-empty string, else `thumbnail`; the alt text is `title` when non-empty, else "Wedding venue " and the name |
| SearchVenues.ShapeImages | supabase/functions/search-venues/index.ts:26-29 | the reply holds the first min(15, n) upstream results in order, and none when `images_results` is missing |
| SearchVenues.HandleSearch | supabase/functions/search-venues/index.ts:12-40 | over the modelled upstream answers (see Left out), status 200 exactly when the body parsed and the upstream answered ok with JSON; a non-ok upstream gives status 500 with the SerpAPI failure message |
| SearchVenues.ImageUrlPresentIff | supabase/functions/search-venues/index.ts:27 | an image has a usable URL exactly when the upstream entry had a usable original or thumbnail |
| SearchVenues.AltTextNeverEmpty | supabase/functions/search-venues/index.ts:28 | every returned image has a non-empty alt text |
| SearchVenues.OnlyVenueNameRead | supabase/functions/search-venues/index.ts:13 | two request bodies with the same `venue_name` give the same query and reply |
| VenueImportResults.SortNewestFirst | src/components/VenueImportResults.tsx:41 | the items reordered by `created_at`, newest first, as a permutation |
| VenueImportResults.Insert | src/components/VenueImportResults.tsx:41 | inserting into a newest-first list keeps it newest first and adds exactly the one item |
| VenueImportResults.RecentItems | src/components/VenueImportResults.tsx:38-42 | definition: the first min(50, n) items in newest-first order; properties in RecentItemsSpec |
| VenueImportResults.RecentItemsSpec | src/components/VenueImportResults.tsx:38-42 | the recent list has min(50, n) items, newest first, all from the table, and no item left out is newer than one shown |
| VenueImportResults.CompletedItems | src/components/VenueImportResults.tsx:55-59 | no more items than the table has; membership in CompletedItemsMembers |
| VenueImportResults.CompletedItemsMembers | src/components/VenueImportResults.tsx:55-59 | an item is exported exactly when its row has status "completed" and a non-null `search_id` |
| VenueImportResults.ImagesOf | src/components/VenueImportResults.tsx:67-70 | the images of one search all belong to the table and carry that search id |
| VenueImportResults.ImagesOfMembers | src/components/VenueImportResults.tsx:67-70 | the query misses no row: an image is returned exactly when it is stored under that search id |
| VenueImportResults.ImagesOfAppend | src/components/VenueImportResults.tsx:67-70 | the query keeps table order: it is the table filtered on the search id |
| VenueImportResults.UrlsOf | src/components/VenueImportResults.tsx:77 | the URLs are the images' `image_url` values, one per image, in query order |
| VenueImportResults.EntryOf | src/components/VenueImportResults.tsx:75-78 | definition: the item's venue name and its search's image URLs; properties in QualifyingMembers |
| VenueImportResults.RowOf | src/components/VenueImportResults.tsx:85 | definition: the venue name and its URLs joined by ", "; properties in ExportRows |
| VenueImportResults.ExportRows | src/components/VenueImportResults.tsx:83-86 | the first row is the header `Venue Name`, `Image URLs`, then one row per venue: its name and its URLs joined by ", " |
| VenueImportResults.Quote | src/components/VenueImportResults.tsx:89 | definition: the cell between two double quotes, nothing escaped; properties in ReadRenderedRow and UnescapedQuotesAreAmbiguous |
| VenueImportResults.RenderRow | src/components/VenueImportResults.tsx:89 | definition: the quoted cells joined by ","; read back by ReadRenderedRow |
| VenueImportResults.RenderCsv | src/components/VenueImportResults.tsx:88-90 | definition: the rendered rows joined by a line feed; properties in LinesOfCsv and ReadBackCsv |
| VenueImportResults.CollectResults | src/components/VenueImportResults.tsx:64-80 | definition of the item loop, item by item; properties in CollectResultsSpec and CollectFailureSticks |
| VenueImportResults.ExportSpec | src/components/VenueImportResults.tsx:55-90 | definition of the whole export; implemented by ExportToCsv, characterised by ExportOutcome |
| VenueImportResults.ExportToCsv | src/components/VenueImportResults.tsx:50-90 | the two loops compute exactly the export specification `ExportSpec` |
| VenueImportResults.CollectFailureSticks | src/components/VenueImportResults.tsx:72 | once one images query has failed, the whole collection has failed |
| VenueImportResults.CollectResultsSpec | src/components/VenueImportResults.tsx:64-80 | the item loop fails exactly when some item's images query fails, and otherwise yields the items with at least one image, in order |
| VenueImportResults.QualifyingMembers | src/components/VenueImportResults.tsx:74-79 | a venue is exported exactly when its search has an image, and it carries that search's URLs |
| VenueImportResults.QualifyingAppend | src/components/VenueImportResults.tsx:66-80 | rows appear in the order the items were returned |
| VenueImportResults.ExportOutcome | src/components/VenueImportResults.tsx:55-90 | any query error gives no file; otherwise the file is the rendered header plus one row per qualifying item |
| VenueImportResults.HeaderOnlyText | src/components/VenueImportResults.tsx:83-90 | the header row alone renders as `"Venue Name","Image URLs"` |
| VenueImportResults.EmptyExport | src/components/VenueImportResults.tsx:83-90 | with no qualifying item the file is exactly `"Venue Name","Image URLs"` |
| VenueImportResults.LinesOfCsv | src/components/VenueImportResults.tsx:88-90 | with no line feed in any cell, the text's lines are exactly the rendered rows, with no trailing line |
| VenueImportResults.ExportLineCount | src/components/VenueImportResults.tsx:83-90 | with no line feed in any cell, the file has one more line than it has venues |
| VenueImportResults.ReadRenderedRow | src/components/VenueImportResults.tsx:89 | a rendered row reads back as its cells when no cell holds a double quote |
| VenueImportResults.ReadBackCsv | src/components/VenueImportResults.tsx:88-90 | the text reads back as the rows when no cell holds a double quote or a line feed |
| VenueImportResults.UnescapedQuotesAreAmbiguous | src/components/VenueImportResults.tsx:89 | a cell holding `","` renders like two cells, so it does not read back (no RFC 4180 quote doubling) |

## Left out

- The per-item status pipeline (pending, processing, completed, error) and import completion: no code in the modelled files writes an item's status or completes an import, and `search-venues` ignores `import_id` and `venue_item_id`.
- The database and function-invocation calls themselves (insert, select, update, `functions.invoke`): their answers are parameters. The dispatched search's own reply is ignored by the source and is not modelled.
- The request plumbing: `Deno.serve`, CORS and OPTIONS handling, `req.formData`, `req.json`, `file.text()` decoding, environment-variable checks, and the `fetch` to the image-search service. The upstream answer is a parameter; `encodeURIComponent` and the request URL are not modelled.
- JsString.ToLower: only ASCII capitals are lower-cased. Full Unicode case mapping is not modelled; it cannot add the letters of "venue" or "name".
- SearchVenues.HandleSearch: `images_results` is modelled as a list of objects or missing. Three inputs would throw in the source and are not modelled: a present value that is not an array, a `null` entry in the list (reading `img.original` throws, so the source answers 500), and a `null` JSON document. Other non-object entries read every member as undefined, as an entry with all three members missing does.
- SearchVenues.ShapeImage: JSON members are modelled as missing, null or a string. Other JSON values (numbers, objects) are not modelled.
- ProcessVenueCsv.OldestItem: among items with equal `created_at`, the model picks the first in table order. The database gives no order for ties.
- VenueImportResults.SortNewestFirst: ties in `created_at` are placed in one fixed order. The database may order them differently.
- VenueImportResults.ExportToCsv: the error messages of failed queries are not kept, since the export only shows a fixed failure notice. The Blob, the download link, the file name date and the toasts are not modelled.
- The recent-items query error (`throw error` inside the polling query) is handled by the UI library and is not modelled.
- React rendering, the status colour mapping, the image grid and lightbox, past-search image downloads, the `.csv` extension check and the empty-query check are UI or I/O and are not modelled.
