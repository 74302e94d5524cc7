/**
  The spreadsheet side of the two Excel scripts: the `=HYPERLINK` cells, the
  `N/A` link cell, the rows built per record, how each cell is written, the
  output file name, the `YYYYMMDD` date check and the order of the checks in
  `run`.
*/
module Cells {
  import opened Wrappers
  import opened Text
  import opened Notes
  import opened Query
  import opened Links
  import opened Records
  import opened NoteFields
  import opened NoteLayout
  import opened NoteMarking

  // ---------------------------------------------------------------------------
  // Link cells
  // ---------------------------------------------------------------------------

  const FormulaHead: string := "=HYPERLINK"

  /** The formula `=HYPERLINK("url", "title")`. */
  function Hyperlink(url: string, title: string): (r: string)
    ensures StartsWith(r, FormulaHead)
  {
    var r := FormulaHead + "(\"" + url + "\", \"" + title + "\")";
    assert r == FormulaHead + ("(\"" + url + "\", \"" + title + "\")");
    r
  }

  function Hyperlinks(links: seq<Link>): (r: seq<string>)
    ensures |r| == |links| && forall k :: 0 <= k < |links| ==> r[k] == Hyperlink(links[k].url, links[k].title)
  {
    seq(|links|, k requires 0 <= k < |links| => Hyperlink(links[k].url, links[k].title))
  }

  /** `external_links_str`: one formula per link, one per line, or `N/A` when there are none. */
  function LinksCell(links: seq<Link>): string {
    if links == [] then "N/A" else Join(Hyperlinks(links), "\n")
  }

  /** The ticket cell: the browse URL as a formula titled by the key. */
  function TicketCell(r: Record): string {
    Hyperlink(r.ticketUrl, r.ticketId)
  }

  /** The link loop of `generate_excel`. */
  method ExternalLinksCell(links: seq<Link>) returns (cell: string)
    ensures cell == LinksCell(links)
  {
    var externalLinks: seq<string> := [];
    for i := 0 to |links|
      invariant externalLinks == Hyperlinks(links[..i])
    {
      externalLinks := externalLinks + [Hyperlink(links[i].url, links[i].title)];
    }
    assert links[..|links|] == links;
    if externalLinks != [] {
      cell := Join(externalLinks, "\n");
    } else {
      cell := "N/A";
    }
  }

  /** Where no URL or title holds a line break, the link cell splits back into one formula per link. */
  lemma LinksCellLines(links: seq<Link>)
    requires links != []
    requires forall k :: 0 <= k < |links| ==> '\n' !in links[k].url && '\n' !in links[k].title
    ensures Lines(LinksCell(links)) == Hyperlinks(links)
  {
    var hs := Hyperlinks(links);
    forall k | 0 <= k < |hs| ensures '\n' !in hs[k] {
      var u, t := links[k].url, links[k].title;
      assert hs[k] == FormulaHead + "(\"" + u + "\", \"" + t + "\")";
    }
    LinesJoin(hs);
  }

  // ---------------------------------------------------------------------------
  // How a cell is written
  // ---------------------------------------------------------------------------

  /** `write_formula` or `write`. */
  datatype Written = AsFormula(formula: string) | AsValue(value: string)

  /** The cell loop: columns 1 and 2 holding a `=HYPERLINK` text are written as formulas. */
  function WriteCell(col: nat, value: string): (w: Written)
    ensures w.AsFormula? <==> (col == 1 || col == 2) && StartsWith(value, FormulaHead)
  {
    if (col == 1 || col == 2) && StartsWith(value, FormulaHead) then AsFormula(value) else AsValue(value)
  }

  /** The ticket cell is always a formula; the link cell is one exactly when the ticket has links. */
  lemma LinkColumnsWritten(r: Record)
    ensures WriteCell(1, TicketCell(r)).AsFormula?
    ensures WriteCell(2, LinksCell(r.externalLinks)).AsFormula? <==> r.externalLinks != []
  {
    if r.externalLinks != [] {
      var hs := Hyperlinks(r.externalLinks);
      if |hs| > 1 {
        assert Join(hs, "\n") == hs[0] + ("\n" + Join(hs[1..], "\n"));
      }
      assert StartsWith(hs[0], FormulaHead);
      assert Join(hs, "\n")[..|FormulaHead|] == hs[0][..|FormulaHead|];
    } else {
      assert LinksCell(r.externalLinks)[0] == 'N';
    }
  }

  // ---------------------------------------------------------------------------
  // Rows
  // ---------------------------------------------------------------------------

  /** `x if x and x != "-" else ""`. */
  function DashToEmpty(x: string): string {
    if x != "" && x != "-" then x else ""
  }

  /**
    The six field columns of a Windows row, extracted by the search as the
    code is written, whose look-ahead does not stop at the description
    label; three of them pass through the `-` filter.
  */
  function FieldColumns(v: string): (cols: seq<string>)
    ensures |cols| == 6 && forall k :: 0 <= k < 6 ==> FieldValue(v, cols[k])
  {
    var users := ExtractFieldContentAsWritten(v, NoteLabels[1]);
    var result := ExtractFieldContentAsWritten(v, NoteLabels[2]);
    var rights := DashToEmpty(ExtractFieldContentAsWritten(v, NoteLabels[3]));
    var menu := DashToEmpty(ExtractFieldContentAsWritten(v, NoteLabels[4]));
    var procedure := DashToEmpty(ExtractFieldContentAsWritten(v, NoteLabels[5]));
    var testing := ExtractFieldContentAsWritten(v, NoteLabels[6]);
    FieldColumn(v, NoteLabels[1]);
    FieldColumn(v, NoteLabels[2]);
    FieldColumn(v, NoteLabels[3]);
    FieldColumn(v, NoteLabels[4]);
    FieldColumn(v, NoteLabels[5]);
    FieldColumn(v, NoteLabels[6]);
    SixFields(v, users, result, rights, menu, procedure, testing);
    [users, result, rights, menu, procedure, testing]
  }

  lemma SixFields(v: string, a: string, b: string, c: string, d: string, e: string, f: string)
    requires FieldValue(v, a) && FieldValue(v, b) && FieldValue(v, c)
    requires FieldValue(v, d) && FieldValue(v, e) && FieldValue(v, f)
    ensures forall k :: 0 <= k < 6 ==> FieldValue(v, [a, b, c, d, e, f][k])
  {
  }

  /**
    One row of `rn_excel_generalas_windows.py`, in column order: summary,
    ticket, links, the laid-out note, the six field columns, and empty
    `Felelős` and `Státusz`. The description field is extracted but never
    used, so it has no column.
  */
  function WindowsRow(r: Record): (row: seq<string>)
    ensures |row| == 12
    ensures row[..4] == [r.summary, TicketCell(r), LinksCell(r.externalLinks), Layout(r.versionInfo)]
    ensures row[10..] == ["", ""]
    ensures forall k :: 4 <= k < 10 ==> FieldValue(r.versionInfo, row[k])
  {
    var head := [r.summary, TicketCell(r), LinksCell(r.externalLinks), Layout(r.versionInfo)];
    var cols := FieldColumns(r.versionInfo);
    RowShape(head, cols, r.versionInfo);
    head + cols + ["", ""]
  }

  /** Four leading columns, six field columns and two empty ones. */
  lemma RowShape(head: seq<string>, cols: seq<string>, v: string)
    requires |head| == 4 && |cols| == 6 && forall k :: 0 <= k < 6 ==> FieldValue(v, cols[k])
    ensures var row := head + cols + ["", ""];
      && |row| == 12 && row[..4] == head && row[10..] == ["", ""]
      && forall k :: 4 <= k < 10 ==> FieldValue(v, row[k])
  {
    var row := head + cols + ["", ""];
    assert forall k :: 4 <= k < 10 ==> row[k] == cols[k - 4];
    assert row[..4] == head;
    assert row[10..] == ["", ""];
  }

  /** A field column: empty, or a stripped text of the note other than `-`. */
  predicate FieldValue(v: string, x: string) {
    x == "" || (IsStripped(x) && x != "-" && Occurs(v, x))
  }

  /** The extracted value of a field is a field column, with or without the `-` filter. */
  lemma FieldColumn(v: string, field: string)
    ensures FieldValue(v, ExtractFieldContentAsWritten(v, field))
    ensures DashToEmpty(ExtractFieldContentAsWritten(v, field)) == ExtractFieldContentAsWritten(v, field)
  {
  }

  /**
    An extracted value is never `-`, whatever the look-ahead, so the extra
    filter on three of the columns changes nothing.
  */
  lemma DashFilterRedundant(stops: seq<string>, v: string, field: string)
    ensures DashToEmpty(Extract(stops, v, field)) == Extract(stops, v, field)
  {
  }

  /** One row of `rn_excel_generalas.py`: summary, ticket, links, marked note, empty `Felelős` and `Státusz`. */
  function LinuxRow(r: Record): (row: seq<string>)
    ensures |row| == 6
  {
    [r.summary, TicketCell(r), LinksCell(r.externalLinks), Mark(r.versionInfo), "", ""]
  }

  /** The row loop of `generate_excel` in `rn_excel_generalas_windows.py`. */
  method WindowsRows(records: seq<Record>) returns (excelData: seq<seq<string>>)
    ensures |excelData| == |records|
    ensures forall i :: 0 <= i < |records| ==> excelData[i] == WindowsRow(records[i])
  {
    excelData := [];
    for i := 0 to |records|
      invariant |excelData| == i
      invariant forall k :: 0 <= k < i ==> excelData[k] == WindowsRow(records[k])
    {
      var r := records[i];
      var linksCell := ExternalLinksCell(r.externalLinks);
      var v := r.versionInfo;
      var users := ExtractFieldContentAsWritten(v, NoteLabels[1]);
      var result := ExtractFieldContentAsWritten(v, NoteLabels[2]);
      var rights := ExtractFieldContentAsWritten(v, NoteLabels[3]);
      var menu := ExtractFieldContentAsWritten(v, NoteLabels[4]);
      var procedure := ExtractFieldContentAsWritten(v, NoteLabels[5]);
      var testing := ExtractFieldContentAsWritten(v, NoteLabels[6]);
      var formatted := NoteLayout.FormatVersionInfo(v);
      var row := [r.summary, TicketCell(r), linksCell, formatted]
        + [users, result, DashToEmpty(rights), DashToEmpty(menu), DashToEmpty(procedure), testing]
        + ["", ""];
      assert row == WindowsRow(r);
      excelData := excelData + [row];
    }
  }

  /** The row loop of `generate_excel` in `rn_excel_generalas.py`. */
  method LinuxRows(records: seq<Record>) returns (excelData: seq<seq<string>>)
    ensures |excelData| == |records|
    ensures forall i :: 0 <= i < |records| ==> excelData[i] == LinuxRow(records[i])
  {
    excelData := [];
    for i := 0 to |records|
      invariant |excelData| == i
      invariant forall k :: 0 <= k < i ==> excelData[k] == LinuxRow(records[k])
    {
      var r := records[i];
      var linksCell := ExternalLinksCell(r.externalLinks);
      var formatted := NoteMarking.FormatVersionInfo(r.versionInfo);
      excelData := excelData + [[r.summary, TicketCell(r), linksCell, formatted, "", ""]];
    }
  }

  // ---------------------------------------------------------------------------
  // File name and date
  // ---------------------------------------------------------------------------

  /** `version.lower().replace('v', '')`. */
  function CleanVersion(version: string): (r: string)
    ensures 'v' !in r
  {
    RemoveAll(Lower(version), 'v')
  }

  /** The default output name `v<clean version>_<date>.xlsx`. */
  function FileName(version: string, date: string): (r: string)
    ensures StartsWith(r, "v") && EndsWith(r, ".xlsx")
  {
    var r := "v" + CleanVersion(version) + "_" + date + ".xlsx";
    assert r == "v" + (CleanVersion(version) + "_" + date + ".xlsx");
    assert r == ("v" + CleanVersion(version) + "_" + date) + ".xlsx";
    r
  }

  /** Cleaning a clean version changes nothing: `V1.2`, `v1.2` and `1.2` name the same file. */
  lemma CleanVersionIdempotent(version: string, date: string)
    ensures CleanVersion(CleanVersion(version)) == CleanVersion(version)
    ensures FileName(CleanVersion(version), date) == FileName(version, date)
  {
    var l := Lower(version);
    var c := RemoveAll(l, 'v');
    forall i | 0 <= i < |c| ensures FoldChar(c[i]) == c[i] {
      assert c[i] in multiset(c);
      assert c[i] in l;
      var j :| 0 <= j < |l| && l[j] == c[i];
      FoldCharIdempotent(version[j]);
    }
    assert Lower(c) == c;
  }

  /** An ASCII decimal digit; `\d` on a `str` also matches the other Unicode decimal digits. */
  predicate IsDigit(c: char) {
    '0' <= c <= '9'
  }

  predicate AllDigits(s: string) {
    forall i :: 0 <= i < |s| ==> IsDigit(s[i])
  }

  /** `re.match(r'^\d{8}$', install_date)`. */
  predicate DateOk(date: string) {
    |date| >= 8 && AllDigits(date[..8]) && EndAnchor(date, 8)
  }

  /** The date check accepts eight digits, and eight digits followed by one line break. */
  lemma DateShape(date: string)
    ensures DateOk(date) <==> (|date| == 8 && AllDigits(date)) || (|date| == 9 && AllDigits(date[..8]) && date[8] == '\n')
  {
    if |date| == 8 {
      assert date[..8] == date;
    }
  }

  // ---------------------------------------------------------------------------
  // The checks of `run`
  // ---------------------------------------------------------------------------

  /** How a run of an Excel script ends. */
  datatype RunOutcome =
    | InvalidDate
    | InvalidQuery
    | ConnectFailed
    | NoIssues
    | Cancelled
    | GenerationFailed
    | Saved(filename: string)

  /** What a run reads from the outside: the connection, the search, the save dialog and the write. */
  datatype Environment = Environment(connected: bool, search: SearchOutcome, savePath: string, writeFails: bool)

  /** The records a run would write, or the reason it stops before writing. */
  function Checked(date: string, params: Params, env: Environment, jiraUrl: string, netloc: string -> string)
    : Result<seq<Record>, RunOutcome>
    requires ParsedParams(params)
  {
    if !DateOk(date) then Failure(InvalidDate)
    else if ExtractQuery(params).text == "" then Failure(InvalidQuery)
    else if !env.connected then Failure(ConnectFailed)
    else
      var issues := FetchedRecords(env.search, jiraUrl, netloc);
      if issues == [] then Failure(NoIssues) else Success(issues)
  }

  /** `run` of `rn_excel_generalas_windows.py`: the file goes where the save dialog says; an empty answer cancels. */
  function RunWindows(date: string, params: Params, env: Environment, jiraUrl: string, netloc: string -> string)
    : RunOutcome
    requires ParsedParams(params)
  {
    match Checked(date, params, env, jiraUrl, netloc)
    case Failure(o) => o
    case Success(_) =>
      if env.savePath == "" then Cancelled
      else if env.writeFails then GenerationFailed
      else Saved(env.savePath)
  }

  /** `run` of `rn_excel_generalas.py`: the file takes the default name. */
  function RunLinux(date: string, version: string, params: Params, env: Environment, jiraUrl: string,
                    netloc: string -> string): RunOutcome
    requires ParsedParams(params)
  {
    match Checked(date, params, env, jiraUrl, netloc)
    case Failure(o) => o
    case Success(_) => if env.writeFails then GenerationFailed else Saved(FileName(version, date))
  }

  /**
    A file is written only after every check passed: a valid date, a query
    or filter in the URL, a connection, and at least one issue found.
  */
  lemma SavedOnlyAfterChecks(date: string, version: string, params: Params, env: Environment, jiraUrl: string,
                             netloc: string -> string)
    requires ParsedParams(params)
    ensures RunWindows(date, params, env, jiraUrl, netloc).Saved? || RunLinux(date, version, params, env, jiraUrl, netloc).Saved?
      ==> DateOk(date) && ("jql" in params || "filter" in params) && env.connected
          && env.search.Found? && env.search.issues != [] && !env.writeFails
    ensures RunWindows(date, params, env, jiraUrl, netloc).Saved? ==> env.savePath != ""
    ensures RunLinux(date, version, params, env, jiraUrl, netloc).Saved?
      ==> RunLinux(date, version, params, env, jiraUrl, netloc).filename == FileName(version, date)
  {
  }

  /** A failed search and a search that finds nothing end the run the same way. */
  lemma FailedSearchIsNoIssues(date: string, params: Params, env: Environment, jiraUrl: string,
                               netloc: string -> string)
    requires ParsedParams(params) && DateOk(date) && ExtractQuery(params).text != "" && env.connected
    ensures env.search.SearchFailed? || env.search.issues == []
      <==> RunWindows(date, params, env, jiraUrl, netloc) == NoIssues
  {
  }
}
