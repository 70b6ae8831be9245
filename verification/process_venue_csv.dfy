/**
 * The `process-venue-csv` function: it turns an uploaded CSV text into one
 * import record and one import item per venue name, then asks the
 * `search-venues` function to search the oldest item. Database calls are
 * not modelled; what the database answers is given as parameters.
 */
module ProcessVenueCsv {
  import opened Wrappers
  import opened JsString
  import opened Rows
  import SearchVenues

  /** The message thrown when the form carries no file. */
  const NoFileMessage: string := "No CSV file provided"

  /** The TypeError JavaScript throws for `lines[0].toLowerCase()` when `lines` is empty. */
  const NoLinesMessage: string := "Cannot read properties of undefined (reading 'toLowerCase')"

  /** The `file` member of the uploaded form. */
  datatype FormField = Missing | TextField(value: string) | File(name: string, content: string)

  /** What the function asks the database to insert into `venue_import_items`. */
  datatype NewItem = NewItem(importId: string, venueName: string)

  /** A row of `venue_csv_imports` the function created. */
  datatype CsvImport = CsvImport(id: string, filename: string)

  datatype ResponseBody =
    | Started(importId: string, totalVenues: nat)
    | Error(error: string)
  datatype Response = Response(status: int, body: ResponseBody)

  /** Everything one call does: the rows it created, the search it
      dispatched, and its reply. */
  datatype Outcome = Outcome(
    createdImport: Option<CsvImport>,
    createdItems: seq<NewItem>,
    dispatched: Option<SearchVenues.RequestBody>,
    response: Response)

  /** `lines.filter(line => line.length > 0)`. */
  function NonEmpty(lines: seq<string>): (r: seq<string>)
    ensures forall k :: 0 <= k < |r| ==> r[k] != "" && r[k] in lines
  {
    if lines == [] then []
    else (if lines[0] == "" then [] else [lines[0]]) + NonEmpty(lines[1..])
  }

  /** `lines.map(line => line.trim())`. */
  function TrimEach(lines: seq<string>): (r: seq<string>)
    ensures |r| == |lines|
    ensures forall k :: 0 <= k < |r| ==> r[k] == Trim(lines[k])
  {
    seq(|lines|, k requires 0 <= k < |lines| => Trim(lines[k]))
  }

  /** `text.split('\n').map(trim).filter(non-empty)`: the non-blank lines, trimmed. */
  function ParseLines(text: string): (lines: seq<string>)
    ensures forall k :: 0 <= k < |lines| ==> lines[k] != "" && IsTrimmed(lines[k])
  {
    CleanLines(Split(text, '\n'))
  }

  /** The trimmed, non-blank pieces. */
  function CleanLines(pieces: seq<string>): (lines: seq<string>)
    ensures forall k :: 0 <= k < |lines| ==> lines[k] != "" && IsTrimmed(lines[k])
  {
    var trimmed := TrimEach(pieces);
    var r := NonEmpty(trimmed);
    assert forall k :: 0 <= k < |r| ==> IsTrimmed(r[k]) by {
      forall k | 0 <= k < |r| ensures IsTrimmed(r[k]) {
        var j :| 0 <= j < |trimmed| && trimmed[j] == r[k];
      }
    }
    r
  }

  /** The header heuristic: the lower-cased line mentions "venue" or "name". */
  predicate IsHeader(line: string) {
    Contains(ToLower(line), "venue") || Contains(ToLower(line), "name")
  }

  /** Drops the first line when it looks like a header; fails on no lines,
      where `lines[0]` is undefined. Only the first line is examined. */
  function DropHeader(lines: seq<string>): (r: Result<seq<string>>)
    ensures r.Failure? <==> lines == []
    ensures r.Failure? ==> r.error == NoLinesMessage
    ensures r.Success? && IsHeader(lines[0]) ==> r.value == lines[1..]
    ensures r.Success? && !IsHeader(lines[0]) ==> r.value == lines
  {
    if lines == [] then Failure(NoLinesMessage)
    else if IsHeader(lines[0]) then Success(lines[1..])
    else Success(lines)
  }

  /** `venueName.replace(/"/g, '').trim()`. */
  function CleanName(line: string): (name: string)
    ensures '"' !in name && IsTrimmed(name)
  {
    var r := Trim(RemoveAll(line, '"'));
    assert '"' !in r by {
      TrimCutsWhitespace(RemoveAll(line, '"'));
      var i, j :| 0 <= i <= j <= |RemoveAll(line, '"')| && r == RemoveAll(line, '"')[i..j] && AllWhitespace(RemoveAll(line, '"')[..i]) && AllWhitespace(RemoveAll(line, '"')[j..]);
    }
    r
  }

  /** One insert row per line, all tagged with the new import's id. */
  function BuildItems(importId: string, lines: seq<string>): (items: seq<NewItem>)
    ensures |items| == |lines|
    ensures forall k :: 0 <= k < |items| ==> items[k].importId == importId && items[k].venueName == CleanName(lines[k])
  {
    seq(|lines|, k requires 0 <= k < |lines| => NewItem(importId, CleanName(lines[k])))
  }

  /** The `venue_import_items` row of the import with the smallest `created_at`
      (`order('created_at').limit(1).single()`); among equal timestamps the
      first in table order. */
  function OldestItem(table: seq<ImportItem>, importId: string): (r: Option<ImportItem>)
    ensures r.None? <==> forall k :: 0 <= k < |table| ==> table[k].importId != importId
    ensures r.Some? ==> r.value in table && r.value.importId == importId
    ensures r.Some? ==> forall k :: 0 <= k < |table| && table[k].importId == importId ==> r.value.createdAt <= table[k].createdAt
  {
    if table == [] then None
    else
      var rest := OldestItem(table[1..], importId);
      if table[0].importId != importId then rest
      else if rest.Some? && rest.value.createdAt < table[0].createdAt then rest
      else Some(table[0])
  }

  /** The body of the search request for one item. */
  function SearchRequest(item: ImportItem, importId: string): SearchVenues.RequestBody {
    SearchVenues.RequestBody(SearchVenues.Str(item.venueName), SearchVenues.Str(importId), SearchVenues.Str(item.id))
  }

  function Fail(createdImport: Option<CsvImport>, message: string): Outcome {
    Outcome(createdImport, [], None, Response(500, Error(message)))
  }

  /**
   * The request handler. `importInsert` is what inserting the import row
   * answered (its new id, or the error), `itemsInsertError` the error of the
   * item insert if any, and `table` the rows of `venue_import_items` the
   * follow-up query sees.
   */
  function HandleUpload(field: FormField, importInsert: Result<string>, itemsInsertError: Option<string>,
                        table: seq<ImportItem>): (o: Outcome)
    // a missing field, or one that is not a file, creates nothing
    ensures !field.File? ==> o == Fail(None, NoFileMessage)
    // no non-blank line: the handler fails before any row is created
    ensures field.File? && ParseLines(field.content) == [] ==> o == Fail(None, NoLinesMessage)
    // with lines, the upload succeeds exactly when both inserts succeed
    ensures field.File? && ParseLines(field.content) != [] ==>
      (o.response.status == 200 <==> importInsert.Success? && itemsInsertError.None?)
    // a failed import insert is reported and creates nothing
    ensures field.File? && ParseLines(field.content) != [] && importInsert.Failure? ==>
      o == Fail(None, importInsert.error)
    // a failed item insert is reported; the import row stays behind
    ensures field.File? && ParseLines(field.content) != [] && importInsert.Success? && itemsInsertError.Some? ==>
      o == Fail(Some(CsvImport(importInsert.value, field.name)), itemsInsertError.value)
    // the reported id is the inserted import's id
    ensures o.response.status == 200 ==>
      importInsert.Success? && o.response.body.Started? && o.response.body.importId == importInsert.value
    ensures o.createdImport.None? ==> o.createdItems == [] && o.dispatched.None?
    ensures o.response.status == 200 <==> o.response.body.Started?
    ensures o.response.status != 200 ==> o.response.status == 500 && o.createdItems == [] && o.dispatched.None?
    ensures o.response.status == 200 ==>
      && field.File?
      && o.createdImport == Some(CsvImport(o.response.body.importId, field.name))
      && o.response.body.totalVenues == |o.createdItems|
      && (|o.createdItems| == |ParseLines(field.content)| || |o.createdItems| + 1 == |ParseLines(field.content)|)
      && (forall k :: 0 <= k < |o.createdItems| ==> o.createdItems[k].importId == o.response.body.importId)
    ensures o.response.status == 200 ==>
      o.createdItems == BuildItems(o.response.body.importId, DropHeader(ParseLines(field.content)).value)
    // at most one search: the import's oldest item, with its name and both ids
    ensures o.dispatched.Some? ==>
      && OldestItem(table, o.createdImport.value.id).Some?
      && o.dispatched.value == SearchRequest(OldestItem(table, o.createdImport.value.id).value, o.createdImport.value.id)
    ensures o.response.status == 200 && OldestItem(table, o.createdImport.value.id).Some? ==> o.dispatched.Some?
  {
    match field
    case Missing => Fail(None, NoFileMessage)
    case TextField(_) => Fail(None, NoFileMessage)
    case File(filename, content) =>
      match DropHeader(ParseLines(content))
      case Failure(e) => Fail(None, e)
      case Success(names) =>
        match importInsert
        case Failure(e) => Fail(None, e)
        case Success(id) =>
          var created := Some(CsvImport(id, filename));
          var items := BuildItems(id, names);
          if itemsInsertError.Some? then Fail(created, itemsInsertError.value)
          else
            var dispatched := match OldestItem(table, id)
              case None => None
              case Some(first) => Some(SearchRequest(first, id));
            Outcome(created, items, dispatched, Response(200, Started(id, |items|)))
  }

  lemma {:induction false} NonEmptyAppend(a: seq<string>, b: seq<string>)
    ensures NonEmpty(a + b) == NonEmpty(a) + NonEmpty(b)
  {
    if a == [] {
      assert a + b == b;
    } else {
      assert (a + b)[1..] == a[1..] + b;
      NonEmptyAppend(a[1..], b);
    }
  }

  /** Line parsing works line by line and keeps the input order: the lines of
      `a + "\n" + b` are those of `a` followed by those of `b`. */
  lemma ParseLinesAppend(a: string, b: string)
    ensures ParseLines(a + "\n" + b) == ParseLines(a) + ParseLines(b)
  {
    assert a + "\n" + b == a + ['\n'] + b;
    SplitAppend(a, b, '\n');
    CleanLinesAppend(Split(a, '\n'), Split(b, '\n'));
  }

  lemma CleanLinesAppend(pa: seq<string>, pb: seq<string>)
    ensures CleanLines(pa + pb) == CleanLines(pa) + CleanLines(pb)
  {
    TrimEachAppend(pa, pb);
    NonEmptyAppend(TrimEach(pa), TrimEach(pb));
  }

  lemma TrimEachAppend(pa: seq<string>, pb: seq<string>)
    ensures TrimEach(pa + pb) == TrimEach(pa) + TrimEach(pb)
  {
    var l, ta, tb := TrimEach(pa + pb), TrimEach(pa), TrimEach(pb);
    assert |l| == |ta + tb|;
    forall k | 0 <= k < |l| ensures l[k] == (ta + tb)[k] {
      var x := (pa + pb)[k];
      assert l[k] == Trim(x);
      if k < |pa| {
        assert x == pa[k];
        assert (ta + tb)[k] == ta[k] == Trim(pa[k]);
      } else {
        assert x == pb[k - |pa|];
        assert (ta + tb)[k] == tb[k - |pa|] == Trim(pb[k - |pa|]);
      }
    }
  }

  /** A single line yields its trimmed text, or nothing when it is blank. */
  lemma ParseOneLine(line: string)
    requires '\n' !in line
    ensures ParseLines(line) == if Trim(line) == "" then [] else [Trim(line)]
  {
    SplitNoSeparator(line, '\n');
    assert TrimEach([line]) == [Trim(line)];
  }

  lemma {:induction false} NonEmptyIsEmpty(lines: seq<string>)
    ensures NonEmpty(lines) == [] <==> forall k :: 0 <= k < |lines| ==> lines[k] == ""
  {
    if lines != [] {
      NonEmptyIsEmpty(lines[1..]);
      assert forall k :: 1 <= k < |lines| ==> lines[k] == lines[1..][k - 1];
    }
  }

  lemma {:induction false} AllWhitespaceJoin(pieces: seq<string>)
    ensures AllWhitespace(Join(pieces, "\n")) <==> forall k :: 0 <= k < |pieces| ==> AllWhitespace(pieces[k])
  {
    if |pieces| >= 2 {
      AllWhitespaceJoin(pieces[1..]);
      var tail := Join(pieces[1..], "\n");
      var whole := pieces[0] + "\n" + tail;
      assert forall k :: 1 <= k < |pieces| ==> pieces[k] == pieces[1..][k - 1];
      assert forall k :: 0 <= k < |pieces[0]| ==> whole[k] == pieces[0][k];
      assert forall k :: 0 <= k < |tail| ==> whole[|pieces[0]| + 1 + k] == tail[k];
      if AllWhitespace(pieces[0]) && AllWhitespace(tail) {
        forall k | 0 <= k < |whole| ensures IsWhitespace(whole[k]) {
          if k > |pieces[0]| { assert whole[k] == tail[k - |pieces[0]| - 1]; }
        }
      }
    }
  }

  /** No line survives exactly when the text is blank (whitespace and newlines only). */
  lemma ParseLinesEmptyIff(text: string)
    ensures ParseLines(text) == [] <==> AllWhitespace(text)
  {
    var pieces := Split(text, '\n');
    JoinSplit(text, '\n');
    NonEmptyIsEmpty(TrimEach(pieces));
    AllWhitespaceJoin(pieces);
    forall k | 0 <= k < |pieces| ensures Trim(pieces[k]) == "" <==> AllWhitespace(pieces[k]) {
      TrimEmptyIff(pieces[k]);
    }
  }

  /** A name wrapped in double quotes, as a spreadsheet writes it, is unwrapped. */
  lemma CleanQuotedName(name: string)
    requires '"' !in name && IsTrimmed(name)
    ensures CleanName("\"" + name + "\"") == name
  {
    var q: string := "\"";
    RemoveAllAppend(q + name, q, '"');
    RemoveAllAppend(q, name, '"');
    RemoveAllAbsent(name, '"');
    assert RemoveAll(q, '"') == "";
    assert RemoveAll(q + name + q, '"') == name;
    TrimTrimmed(name);
  }

  /** There is no second filter: a line made only of double quotes yields an empty name. */
  lemma QuotesOnlyLineYieldsEmptyName(line: string)
    requires forall k :: 0 <= k < |line| ==> line[k] == '"'
    ensures CleanName(line) == ""
  {
    RemoveAllOnly(line, '"');
  }

  /** A first line holding "venue" or "name" in any ASCII capitalisation is
      dropped as a header, whatever else it says: a real venue such as
      "Grand Venue Hall" is lost. */
  lemma HeaderWordDropsFirstLine(lines: seq<string>, word: string, i: nat)
    requires lines != [] && OccursAt(lines[0], word, i)
    requires ToLower(word) == "venue" || ToLower(word) == "name"
    ensures DropHeader(lines) == Success(lines[1..])
  {
    ToLowerKeepsOccurrence(lines[0], word, i);
  }

  /** A first line whose lower-cased text lacks some letter of "venue" and some
      letter of "name" is no header. */
  lemma MissingLettersNotHeader(line: string, v: nat, n: nat)
    requires v < 5 && "venue"[v] !in ToLower(line)
    requires n < 4 && "name"[n] !in ToLower(line)
    ensures !IsHeader(line)
  {
    MissingLetterNotContained(ToLower(line), "venue", v);
    MissingLetterNotContained(ToLower(line), "name", n);
  }

  /** Only the first line is examined: when it is no header every line is
      kept, however header-like the later lines are. */
  lemma HeaderOnlyFirstLine(lines: seq<string>)
    requires lines != [] && !IsHeader(lines[0])
    ensures DropHeader(lines) == Success(lines)
  {
  }

  /** An instance: "Grand Venue Hall" is taken for a header. */
  lemma HeaderHeuristicDropsVenueNamedVenue()
    ensures DropHeader(["Grand Venue Hall", "Rose Barn"]) == Success(["Rose Barn"])
  {
    var lines := ["Grand Venue Hall", "Rose Barn"];
    assert OccursAt(lines[0], "Venue", 6);
    assert ToLower("Venue") == "venue";
    HeaderWordDropsFirstLine(lines, "Venue", 6);
  }

  /** An instance: after "Rose Barn" a "Venue Name" line is kept as a venue. */
  lemma HeaderOnlyFirstLineExample()
    ensures DropHeader(["Rose Barn", "Venue Name"]) == Success(["Rose Barn", "Venue Name"])
  {
    assert ToLower("Rose Barn") == "rose barn";
    MissingLettersNotHeader("Rose Barn", 0, 2);
    HeaderOnlyFirstLine(["Rose Barn", "Venue Name"]);
  }

  /** The dispatched search looks for the oldest item's venue name followed by " wedding venue". */
  lemma DispatchedQuery(field: FormField, importInsert: Result<string>, itemsInsertError: Option<string>,
                        table: seq<ImportItem>, upstream: SearchVenues.Upstream)
    requires HandleUpload(field, importInsert, itemsInsertError, table).dispatched.Some?
    ensures var o := HandleUpload(field, importInsert, itemsInsertError, table);
      SearchVenues.HandleSearch(Success(o.dispatched.value), upstream).query
        == Some(OldestItem(table, o.createdImport.value.id).value.venueName + " wedding venue")
  {
  }
}
