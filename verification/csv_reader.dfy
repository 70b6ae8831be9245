/**
 * A reader for CSV text in which every field is enclosed in double quotes
 * (section 2 of RFC 4180, without the doubled-quote escape). It is the
 * reference against which the export's output format is checked.
 */
module CsvReader {
  import opened Wrappers
  import opened JsString

  /** Index of the first `c` in `s`, or `|s|` when there is none. */
  function IndexOf(s: string, c: char): (k: nat)
    ensures k <= |s|
    ensures k < |s| ==> s[k] == c
    ensures forall j :: 0 <= j < k ==> s[j] != c
  {
    if s == [] || s[0] == c then 0 else 1 + IndexOf(s[1..], c)
  }

  /** The first occurrence of `c` in `a + [c] + b` is right after `a` when `a` lacks `c`. */
  lemma IndexOfAfter(a: string, b: string, c: char)
    requires c !in a
    ensures IndexOf(a + [c] + b, c) == |a|
  {
    var s := a + [c] + b;
    assert s[|a|] == c;
    assert forall j :: 0 <= j < |a| ==> s[j] == a[j];
  }

  /** One line of quoted fields separated by commas. */
  function ReadRow(line: string): (r: Option<seq<string>>)
    ensures r.Some? ==> |r.value| >= 1
    decreases |line|
  {
    if line == [] || line[0] != '"' then None
    else
      var body := line[1..];
      var close := IndexOf(body, '"');
      if close == |body| then None
      else
        var cell := body[..close];
        var rest := body[close + 1..];
        if rest == [] then Some([cell])
        else if rest[0] != ',' then None
        else match ReadRow(rest[1..])
          case None => None
          case Some(cells) => Some([cell] + cells)
  }

  /** A last quoted field is read up to its closing quote. */
  lemma ReadLastField(cell: string)
    requires '"' !in cell
    ensures ReadRow("\"" + cell + "\"") == Some([cell])
  {
    var line := "\"" + cell + "\"";
    assert line[1..] == cell + ['"'] + [];
    IndexOfAfter(cell, [], '"');
    assert line[1..][..|cell|] == cell;
    assert line[1..][|cell| + 1..] == [];
  }

  /** A quoted field followed by a comma is read, then the rest of the line. */
  lemma ReadFirstField(cell: string, rest: string)
    requires '"' !in cell
    ensures ReadRow("\"" + cell + "\"" + "," + rest) ==
      match ReadRow(rest)
      case None => None
      case Some(cells) => Some([cell] + cells)
  {
    var line := "\"" + cell + "\"" + "," + rest;
    assert line[1..] == cell + ['"'] + ("," + rest);
    IndexOfAfter(cell, "," + rest, '"');
    assert line[1..][..|cell|] == cell;
    assert line[1..][|cell| + 1..] == "," + rest;
    assert ("," + rest)[1..] == rest;
  }

  /** Every line read as a row; fails when one line fails. */
  function ReadRows(lines: seq<string>): (r: Option<seq<seq<string>>>)
    ensures r.Some? ==> |r.value| == |lines|
  {
    if lines == [] then Some([])
    else match (ReadRow(lines[0]), ReadRows(lines[1..]))
      case (Some(row), Some(rows)) => Some([row] + rows)
      case _ => None
  }

  /** A whole document: rows separated by line feeds. */
  function ReadCsv(text: string): Option<seq<seq<string>>> {
    ReadRows(Split(text, '\n'))
  }
}
