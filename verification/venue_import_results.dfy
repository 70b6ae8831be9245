/**
 * The import results view: the list of recent import items it polls, and
 * its "Export to CSV" action, which collects the image URLs of every
 * completed venue search and serialises them as CSV text. Database queries
 * are not modelled; a `Database` value gives what they answer.
 */
module VenueImportResults {
  import opened Wrappers
  import opened JsString
  import opened Rows
  import CsvReader
  import opened Numeric

  /** How many items the recent-items view shows at most. */
  const RecentLimit: nat := 50

  /** The first row of every export. */
  const Header: seq<string> := ["Venue Name", "Image URLs"]

  /** The rows the queries see, and which queries fail: the items query, and
      the images query of each search id in `failingSearches`. */
  datatype Database = Database(
    items: seq<ImportItem>,
    itemsQueryError: Option<string>,
    images: seq<ImageRow>,
    failingSearches: set<string>)

  /** A row of `select('venue_name, search_id')` on the completed items. */
  datatype CompletedItem = CompletedItem(venueName: string, searchId: string)

  /** One venue of the export and the URLs of its images. */
  datatype VenueUrls = VenueUrls(venueName: string, urls: seq<string>)

  /** What the action ends in: a CSV file, or the failure notice without a file. */
  datatype Export = Exported(content: string) | ExportFailed

  // ---------------------------------------------------------------------------
  // Recent items: order('created_at', descending).limit(50)

  /** Ordered by `created_at`, newest first: no item is newer than the one before it. */
  predicate NewestFirst(items: seq<ImportItem>) {
    forall i :: 0 < i < |items| ==> items[i - 1].createdAt >= items[i].createdAt
  }

  /** In a newest-first list every item is at least as new as every later one. */
  lemma {:induction false} NewestFirstOrdered(items: seq<ImportItem>, i: nat, j: nat)
    requires NewestFirst(items) && i <= j < |items|
    ensures items[i].createdAt >= items[j].createdAt
    decreases j - i
  {
    if i < j {
      NewestFirstOrdered(items, i + 1, j);
    }
  }

  /** Inserts `x` into a newest-first list before the first item older than it. */
  function Insert(x: ImportItem, sorted: seq<ImportItem>): (r: seq<ImportItem>)
    requires NewestFirst(sorted)
    ensures NewestFirst(r)
    ensures multiset(r) == multiset(sorted) + multiset{x}
    ensures r[0] == x || (sorted != [] && r[0] == sorted[0])
  {
    if sorted == [] || x.createdAt >= sorted[0].createdAt then
      [x] + sorted
    else
      var tail := sorted[1..];
      NewestFirstTail(sorted);
      var rest := Insert(x, tail);
      assert sorted[0].createdAt >= rest[0].createdAt by {
        if rest[0] != x {
          assert sorted[1] == tail[0] == rest[0];
        }
      }
      ConsNewestFirst(sorted, rest);
      assert sorted == [sorted[0]] + tail;
      [sorted[0]] + rest
  }

  /** Dropping the newest item keeps a list newest first. */
  lemma NewestFirstTail(sorted: seq<ImportItem>)
    requires sorted != [] && NewestFirst(sorted)
    ensures NewestFirst(sorted[1..])
  {
    forall i | 0 < i < |sorted[1..]|
      ensures sorted[1..][i - 1].createdAt >= sorted[1..][i].createdAt
    {
      assert sorted[1..][i - 1] == sorted[i] && sorted[1..][i] == sorted[i + 1];
    }
  }

  /** Putting the head of a newest-first list before a newest-first list whose
      first item is not newer keeps the order. */
  lemma ConsNewestFirst(sorted: seq<ImportItem>, rest: seq<ImportItem>)
    requires sorted != [] && NewestFirst(rest)
    requires rest != [] ==> sorted[0].createdAt >= rest[0].createdAt
    ensures NewestFirst([sorted[0]] + rest)
    ensures multiset([sorted[0]] + rest) == multiset(rest) + multiset{sorted[0]}
  {
    var r := [sorted[0]] + rest;
    assert r[1..] == rest;
  }

  /** The items in descending `created_at` order (ties in some fixed order). */
  function SortNewestFirst(items: seq<ImportItem>): (r: seq<ImportItem>)
    ensures NewestFirst(r)
    ensures multiset(r) == multiset(items)
  {
    if items == [] then []
    else
      assert items == [items[0]] + items[1..];
      Insert(items[0], SortNewestFirst(items[1..]))
  }

  /** The recent-items view: the 50 newest rows of `venue_import_items`. */
  function RecentItems(table: seq<ImportItem>): seq<ImportItem> {
    var sorted := SortNewestFirst(table);
    sorted[..Min(RecentLimit, |sorted|)]
  }

  /** The view holds min(50, n) items, newest first, all from the table, and
      no item left out is newer than any item shown. */
  lemma RecentItemsSpec(table: seq<ImportItem>)
    ensures |RecentItems(table)| == Min(RecentLimit, |table|)
    ensures NewestFirst(RecentItems(table))
    ensures multiset(RecentItems(table)) <= multiset(table)
    ensures forall x, y :: x in multiset(table) - multiset(RecentItems(table)) && y in RecentItems(table) ==>
      x.createdAt <= y.createdAt
  {
    var sorted := SortNewestFirst(table);
    assert |sorted| == |table| by {
      assert |multiset(sorted)| == |multiset(table)|;
    }
    TopOfSorted(sorted, table, Min(RecentLimit, |sorted|));
  }

  /** The first `n` items of a newest-first arrangement of `table`. */
  lemma TopOfSorted(sorted: seq<ImportItem>, table: seq<ImportItem>, n: nat)
    requires NewestFirst(sorted) && multiset(sorted) == multiset(table) && n <= |sorted|
    ensures NewestFirst(sorted[..n])
    ensures multiset(sorted[..n]) <= multiset(table)
    ensures forall x, y :: x in multiset(table) - multiset(sorted[..n]) && y in sorted[..n] ==>
      x.createdAt <= y.createdAt
  {
    var shown, rest := sorted[..n], sorted[n..];
    assert sorted == shown + rest;
    assert multiset(table) - multiset(shown) == multiset(rest);
    TailNotNewer(sorted, n);
  }

  /** In a newest-first list, nothing after position `n` is newer than anything before it. */
  lemma TailNotNewer(sorted: seq<ImportItem>, n: nat)
    requires NewestFirst(sorted) && n <= |sorted|
    ensures forall x, y :: x in sorted[n..] && y in sorted[..n] ==> x.createdAt <= y.createdAt
  {
    forall x, y | x in sorted[n..] && y in sorted[..n]
      ensures x.createdAt <= y.createdAt
    {
      var i :| 0 <= i < |sorted[n..]| && sorted[n..][i] == x;
      var j :| 0 <= j < n && sorted[..n][j] == y;
      NewestFirstOrdered(sorted, j, n + i);
    }
  }

  // ---------------------------------------------------------------------------
  // Export to CSV

  /** The completed items that reference a search, in table order:
      `eq('status', 'completed').not('search_id', 'is', null)`. */
  function CompletedItems(table: seq<ImportItem>): (r: seq<CompletedItem>)
    ensures |r| <= |table|
  {
    if table == [] then []
    else
      var t := table[0];
      (if t.status == "completed" && t.searchId.Some? then [CompletedItem(t.venueName, t.searchId.value)] else [])
        + CompletedItems(table[1..])
  }

  /** An item is exported exactly when its row has status "completed" and a
      non-null search id. */
  lemma {:induction false} CompletedItemsMembers(table: seq<ImportItem>)
    ensures forall c :: c in CompletedItems(table) <==>
      exists t :: t in table && t.status == "completed" && t.searchId == Some(c.searchId) && t.venueName == c.venueName
  {
    if table != [] {
      CompletedItemsMembers(table[1..]);
      assert forall u :: u in table <==> u == table[0] || u in table[1..];
    }
  }

  /** The images stored for one search, in table order: `eq('search_id', id)`. */
  function ImagesOf(images: seq<ImageRow>, searchId: string): (r: seq<ImageRow>)
    ensures forall k :: 0 <= k < |r| ==> r[k] in images && r[k].searchId == Some(searchId)
  {
    if images == [] then []
    else (if images[0].searchId == Some(searchId) then [images[0]] else []) + ImagesOf(images[1..], searchId)
  }

  /** The query misses no row: an image is returned exactly when it is stored
      under that search id. */
  lemma {:induction false} ImagesOfMembers(images: seq<ImageRow>, searchId: string)
    ensures forall x :: x in ImagesOf(images, searchId) <==> x in images && x.searchId == Some(searchId)
  {
    if images != [] {
      ImagesOfMembers(images[1..], searchId);
      assert forall u :: u in images <==> u == images[0] || u in images[1..];
    }
  }

  /** The query keeps table order: it distributes over concatenation, so it is
      the table filtered on the search id. */
  lemma {:induction false} ImagesOfAppend(a: seq<ImageRow>, b: seq<ImageRow>, searchId: string)
    ensures ImagesOf(a + b, searchId) == ImagesOf(a, searchId) + ImagesOf(b, searchId)
  {
    if a == [] {
      assert a + b == b;
    } else {
      var h := if a[0].searchId == Some(searchId) then [a[0]] else [];
      assert (a + b)[0] == a[0];
      assert (a + b)[1..] == a[1..] + b;
      assert ImagesOf(a + b, searchId) == h + ImagesOf(a[1..] + b, searchId);
      ImagesOfAppend(a[1..], b, searchId);
      assert ImagesOf(a, searchId) == h + ImagesOf(a[1..], searchId);
    }
  }

  /** `images.map(img => img.image_url)`. */
  function UrlsOf(images: seq<ImageRow>): (urls: seq<string>)
    ensures |urls| == |images|
    ensures forall k :: 0 <= k < |urls| ==> urls[k] == images[k].imageUrl
  {
    seq(|images|, k requires 0 <= k < |images| => images[k].imageUrl)
  }

  /** The export entry of an item whose search has images. */
  function EntryOf(db: Database, item: CompletedItem): VenueUrls {
    VenueUrls(item.venueName, UrlsOf(ImagesOf(db.images, item.searchId)))
  }

  /** The first loop of the export, item by item: the images query of each
      item in turn; a failing query aborts, an item without images adds nothing. */
  function CollectResults(items: seq<CompletedItem>, db: Database): Option<seq<VenueUrls>> {
    if items == [] then Some([])
    else
      var item := items[|items| - 1];
      match CollectResults(items[..|items| - 1], db)
      case None => None
      case Some(acc) =>
        if item.searchId in db.failingSearches then None
        else if |ImagesOf(db.images, item.searchId)| > 0 then Some(acc + [EntryOf(db, item)])
        else Some(acc)
  }

  /** Reference definition of the export's entries: the items with at least
      one image, in order. */
  function Qualifying(items: seq<CompletedItem>, db: Database): (r: seq<VenueUrls>)
    ensures |r| <= |items|
  {
    if items == [] then []
    else
      (if |ImagesOf(db.images, items[0].searchId)| > 0 then [EntryOf(db, items[0])] else [])
        + Qualifying(items[1..], db)
  }

  /** An entry is exported exactly for the items whose search has at least
      one image, and each carries that search's URLs. */
  lemma {:induction false} QualifyingMembers(items: seq<CompletedItem>, db: Database)
    ensures forall v :: v in Qualifying(items, db) ==> |v.urls| > 0 && exists c :: c in items && v == EntryOf(db, c)
    ensures forall c :: c in items && |ImagesOf(db.images, c.searchId)| > 0 ==> EntryOf(db, c) in Qualifying(items, db)
  {
    if items != [] {
      QualifyingMembers(items[1..], db);
      assert forall c :: c in items <==> c == items[0] || c in items[1..];
    }
  }

  /** Some item's images query fails. */
  predicate SomeQueryFails(items: seq<CompletedItem>, db: Database) {
    exists k :: 0 <= k < |items| && items[k].searchId in db.failingSearches
  }

  /** The cells of the row of one entry: the name, then the URLs joined by ", ". */
  function RowOf(entry: VenueUrls): seq<string> {
    [entry.venueName, Join(entry.urls, ", ")]
  }

  /** The header row, then one row per entry. */
  function ExportRows(entries: seq<VenueUrls>): (rows: seq<seq<string>>)
    ensures |rows| == 1 + |entries| && rows[0] == Header
    ensures forall k :: 0 <= k < |entries| ==> rows[k + 1] == RowOf(entries[k])
  {
    [Header] + seq(|entries|, k requires 0 <= k < |entries| => RowOf(entries[k]))
  }

  /** A cell enclosed in double quotes, with nothing escaped. */
  function Quote(cell: string): string {
    "\"" + cell + "\""
  }

  /** `row.map(cell => '"' + cell + '"').join(',')`. */
  function RenderRow(row: seq<string>): string {
    Join(seq(|row|, k requires 0 <= k < |row| => Quote(row[k])), ",")
  }

  /** `rows.map(RenderRow).join('\n')`: no trailing line feed. */
  function RenderCsv(rows: seq<seq<string>>): string {
    Join(seq(|rows|, k requires 0 <= k < |rows| => RenderRow(rows[k])), "\n")
  }

  /** What the export produces from the database. */
  function ExportSpec(db: Database): Export {
    if db.itemsQueryError.Some? then ExportFailed
    else match CollectResults(CompletedItems(db.items), db)
      case None => ExportFailed
      case Some(entries) => Exported(RenderCsv(ExportRows(entries)))
  }

  /** Once a prefix of the items has failed, the whole collection fails. */
  lemma {:induction false} CollectFailureSticks(items: seq<CompletedItem>, n: nat, db: Database)
    requires n <= |items| && CollectResults(items[..n], db).None?
    ensures CollectResults(items, db).None?
  {
    if n < |items| {
      assert items[..|items| - 1][..n] == items[..n];
      CollectFailureSticks(items[..|items| - 1], n, db);
    } else {
      assert items[..n] == items;
    }
  }

  /** One more item extends the collection by what its own query gives. */
  lemma CollectStep(items: seq<CompletedItem>, i: nat, db: Database, acc: seq<VenueUrls>)
    requires i < |items| && CollectResults(items[..i], db) == Some(acc)
    requires items[i].searchId !in db.failingSearches
    ensures CollectResults(items[..i + 1], db) ==
      Some(if |ImagesOf(db.images, items[i].searchId)| > 0 then acc + [EntryOf(db, items[i])] else acc)
  {
    assert items[..i + 1][..i] == items[..i];
  }

  /** One more entry adds its row at the end. */
  lemma ExportRowsStep(entries: seq<VenueUrls>, j: nat)
    requires j < |entries|
    ensures ExportRows(entries[..j + 1]) == ExportRows(entries[..j]) + [RowOf(entries[j])]
  {
  }

  /** The export action. */
  method ExportToCsv(db: Database) returns (e: Export)
    ensures e == ExportSpec(db)
  {
    if db.itemsQueryError.Some? {
      return ExportFailed;
    }
    var completed := CompletedItems(db.items);
    var results: seq<VenueUrls> := [];
    var i := 0;
    while i < |completed|
      invariant 0 <= i <= |completed|
      invariant CollectResults(completed[..i], db) == Some(results)
    {
      var item := completed[i];
      if item.searchId in db.failingSearches {
        assert completed[..i + 1][..i] == completed[..i];
        CollectFailureSticks(completed, i + 1, db);
        return ExportFailed;
      }
      CollectStep(completed, i, db, results);
      var images := ImagesOf(db.images, item.searchId);
      if |images| > 0 {
        results := results + [VenueUrls(item.venueName, UrlsOf(images))];
      }
      i := i + 1;
    }
    assert completed[..i] == completed;
    var csvRows := [Header];
    var j := 0;
    while j < |results|
      invariant 0 <= j <= |results|
      invariant csvRows == ExportRows(results[..j])
    {
      ExportRowsStep(results, j);
      csvRows := csvRows + [RowOf(results[j])];
      j := j + 1;
    }
    assert results[..j] == results;
    e := Exported(RenderCsv(csvRows));
  }

  // ---------------------------------------------------------------------------
  // What the export contains

  lemma {:induction false} QualifyingAppend(a: seq<CompletedItem>, b: seq<CompletedItem>, db: Database)
    ensures Qualifying(a + b, db) == Qualifying(a, db) + Qualifying(b, db)
  {
    if a == [] {
      assert a + b == b;
    } else {
      assert (a + b)[0] == a[0];
      assert (a + b)[1..] == a[1..] + b;
      QualifyingAppend(a[1..], b, db);
    }
  }

  /** The item-by-item collection fails exactly when some item's images query
      fails, and otherwise yields the qualifying entries. */
  lemma {:induction false} CollectResultsSpec(items: seq<CompletedItem>, db: Database)
    ensures SomeQueryFails(items, db) ==> CollectResults(items, db).None?
    ensures !SomeQueryFails(items, db) ==> CollectResults(items, db) == Some(Qualifying(items, db))
  {
    if items != [] {
      var n := |items| - 1;
      var init, last := items[..n], items[n];
      CollectResultsSpec(init, db);
      if SomeQueryFails(init, db) {
        var k :| 0 <= k < |init| && init[k].searchId in db.failingSearches;
        assert items[k] == init[k];
      } else if last.searchId in db.failingSearches {
        assert SomeQueryFails(items, db);
      } else {
        assert !SomeQueryFails(items, db) by {
          forall k | 0 <= k < |items| ensures items[k].searchId !in db.failingSearches {
            if k < n { assert items[k] == init[k]; }
          }
        }
        QualifyingAppend(init, [last], db);
        assert items == init + [last];
        assert [last][1..] == [];
        assert Qualifying([last], db) == if |ImagesOf(db.images, last.searchId)| > 0 then [EntryOf(db, last)] else [];
        assert items[..|items| - 1] == init;
        assert Qualifying(init, db) + [] == Qualifying(init, db);
      }
    }
  }

  /** Any failing query aborts the export, and no file is produced; otherwise
      the file is the header row followed by one row per completed item with
      at least one image, in the order the items were returned. */
  lemma ExportOutcome(db: Database)
    ensures ExportSpec(db).ExportFailed? <==>
      db.itemsQueryError.Some? || SomeQueryFails(CompletedItems(db.items), db)
    ensures ExportSpec(db).Exported? ==>
      ExportSpec(db).content == RenderCsv(ExportRows(Qualifying(CompletedItems(db.items), db)))
  {
    CollectResultsSpec(CompletedItems(db.items), db);
  }

  /** The header row alone renders as `"Venue Name","Image URLs"`. */
  lemma HeaderOnlyText()
    ensures RenderCsv(ExportRows([])) == "\"Venue Name\",\"Image URLs\""
  {
  }

  /** With no qualifying item the file is exactly the quoted header row. */
  lemma EmptyExport(db: Database)
    requires db.itemsQueryError.None? && !SomeQueryFails(CompletedItems(db.items), db)
    requires Qualifying(CompletedItems(db.items), db) == []
    ensures ExportSpec(db) == Exported("\"Venue Name\",\"Image URLs\"")
  {
    ExportOutcome(db);
    HeaderOnlyText();
  }

  /** No cell of any row contains `c`. */
  predicate CellsFree(rows: seq<seq<string>>, c: char) {
    forall i, j :: 0 <= i < |rows| && 0 <= j < |rows[i]| ==> c !in rows[i][j]
  }

  /** The rendered rows, each one line. */
  function RenderedLines(rows: seq<seq<string>>): seq<string> {
    seq(|rows|, k requires 0 <= k < |rows| => RenderRow(rows[k]))
  }

  lemma RenderRowExcludes(row: seq<string>, c: char)
    requires c != '"' && c != ','
    requires forall j :: 0 <= j < |row| ==> c !in row[j]
    ensures c !in RenderRow(row)
  {
    var quoted := seq(|row|, k requires 0 <= k < |row| => Quote(row[k]));
    JoinExcludes(quoted, ",", c);
  }

  /** When no cell contains a line feed, the text has one line per row:
      its lines are exactly the rendered rows. */
  lemma {:induction false} LinesOfCsv(rows: seq<seq<string>>)
    requires |rows| >= 1 && CellsFree(rows, '\n')
    ensures Split(RenderCsv(rows), '\n') == RenderedLines(rows)
    ensures |Split(RenderCsv(rows), '\n')| == |rows|
  {
    forall k | 0 <= k < |rows| ensures '\n' !in RenderedLines(rows)[k] {
      RenderRowExcludes(rows[k], '\n');
    }
    SplitJoin(RenderedLines(rows), '\n');
  }

  /** When no venue name or URL list contains a line feed, an exported file has
      exactly one line more than it has venues. */
  lemma ExportLineCount(db: Database)
    requires ExportSpec(db).Exported?
    requires CellsFree(ExportRows(Qualifying(CompletedItems(db.items), db)), '\n')
    ensures |Split(ExportSpec(db).content, '\n')| == 1 + |Qualifying(CompletedItems(db.items), db)|
  {
    ExportOutcome(db);
    LinesOfCsv(ExportRows(Qualifying(CompletedItems(db.items), db)));
  }

  /** A rendered row reads back as its cells when no cell contains a double quote. */
  lemma {:induction false} ReadRenderedRow(row: seq<string>)
    requires |row| >= 1
    requires forall j :: 0 <= j < |row| ==> '"' !in row[j]
    ensures CsvReader.ReadRow(RenderRow(row)) == Some(row)
  {
    if |row| == 1 {
      assert seq(|row|, k requires 0 <= k < |row| => Quote(row[k])) == [Quote(row[0])];
      CsvReader.ReadLastField(row[0]);
      assert row == [row[0]];
    } else {
      var tail := row[1..];
      forall j | 0 <= j < |tail| ensures '"' !in tail[j] {
        assert tail[j] == row[j + 1];
      }
      RenderRowCons(row);
      ReadRenderedRow(tail);
      CsvReader.ReadFirstField(row[0], RenderRow(tail));
      assert [row[0]] + tail == row;
    }
  }

  /** A row of two or more cells renders as its first quoted cell, a comma, and the rest. */
  lemma RenderRowCons(row: seq<string>)
    requires |row| >= 2
    ensures RenderRow(row) == "\"" + row[0] + "\"" + "," + RenderRow(row[1..])
  {
    var quoted := seq(|row|, k requires 0 <= k < |row| => Quote(row[k]));
    assert quoted[1..] == seq(|row[1..]|, k requires 0 <= k < |row[1..]| => Quote(row[1..][k]));
  }

  lemma {:induction false} ReadRenderedLines(rows: seq<seq<string>>)
    requires forall i :: 0 <= i < |rows| ==> |rows[i]| >= 1
    requires CellsFree(rows, '"')
    ensures CsvReader.ReadRows(RenderedLines(rows)) == Some(rows)
  {
    if rows != [] {
      var lines := RenderedLines(rows);
      RenderedLinesTail(rows);
      ReadRenderedRow(rows[0]);
      ReadRenderedLines(rows[1..]);
      assert CsvReader.ReadRows(lines) == Some([rows[0]] + rows[1..]);
      assert [rows[0]] + rows[1..] == rows;
    }
  }

  /** Rendering works row by row: the first line is the first row rendered,
      and the rest are the other rows rendered, which keep their cells. */
  lemma RenderedLinesTail(rows: seq<seq<string>>)
    requires rows != [] && CellsFree(rows, '"')
    ensures RenderedLines(rows)[0] == RenderRow(rows[0])
    ensures RenderedLines(rows)[1..] == RenderedLines(rows[1..])
    ensures CellsFree(rows[1..], '"')
    ensures forall j :: 0 <= j < |rows[0]| ==> '"' !in rows[0][j]
  {
    assert RenderedLines(rows)[1..] == RenderedLines(rows[1..]);
    forall i, j | 0 <= i < |rows[1..]| && 0 <= j < |rows[1..][i]| ensures '"' !in rows[1..][i][j] {
      assert rows[1..][i] == rows[i + 1];
    }
  }

  /** The serialiser is a correct CSV writer for cells free of double quotes
      and line feeds: reading its text back gives the rows. */
  lemma ReadBackCsv(rows: seq<seq<string>>)
    requires |rows| >= 1 && forall i :: 0 <= i < |rows| ==> |rows[i]| >= 1
    requires CellsFree(rows, '"') && CellsFree(rows, '\n')
    ensures CsvReader.ReadCsv(RenderCsv(rows)) == Some(rows)
  {
    LinesOfCsv(rows);
    ReadRenderedLines(rows);
  }

  /** Cells are not escaped as section 2 of RFC 4180 requires (a double quote
      inside a field must be doubled): a one-cell row holding a quote, a
      comma and a quote is written exactly like a two-cell row, so the text
      cannot be read back. */
  lemma UnescapedQuotesAreAmbiguous()
    ensures RenderRow(["a\",\"b"]) == RenderRow(["a", "b"])
    ensures CsvReader.ReadRow(RenderRow(["a\",\"b"])) != Some(["a\",\"b"])
  {
    ReadRenderedRow(["a", "b"]);
  }
}
