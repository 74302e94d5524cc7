/**
  The HTML side of `jira_rn.py`: `html.escape`, the link anchors, the note
  cell with its red sentinel, the per-issue loop of `fetch_jira_issues` and
  `generate_release_notes_table`.
*/
module Html {
  import opened Wrappers
  import opened Text
  import opened Notes
  import opened Links
  import opened Records

  // ---------------------------------------------------------------------------
  // html.escape
  // ---------------------------------------------------------------------------

  /** `html.escape` (with `quote=True`) of one character. */
  function EscapeChar(c: char): string {
    if c == '&' then "&amp;"
    else if c == '<' then "&lt;"
    else if c == '>' then "&gt;"
    else if c == '"' then "&quot;"
    else if c == '\'' then "&#x27;"
    else [c]
  }

  /** `html.escape(s)`: the five characters `& < > " '` become entities. */
  function Escape(s: string): (r: string)
    ensures '<' !in r && '>' !in r && '"' !in r && '\'' !in r
    ensures |r| >= |s|
    decreases |s|
  {
    if s == [] then ""
    else
      EscapeCharSafe(s[0]);
      EscapeChar(s[0]) + Escape(s[1..])
  }

  /** The entity of a character holds none of the four characters `Escape` removes. */
  lemma EscapeCharSafe(c: char)
    ensures var e := EscapeChar(c); '<' !in e && '>' !in e && '"' !in e && '\'' !in e && |e| >= 1
  {
  }

  /** Text in which no character is one of the five that `Escape` replaces. */
  predicate Plain(s: string) {
    forall i :: 0 <= i < |s| ==> EscapeChar(s[i]) == [s[i]]
  }

  /** Plain text is left alone by `html.escape`. */
  lemma {:induction false} EscapePlain(s: string)
    requires Plain(s)
    ensures Escape(s) == s
    decreases |s|
  {
    if s != [] {
      assert EscapeChar(s[0]) == [s[0]];
      assert Plain(s[1..]) by {
        forall i | 0 <= i < |s[1..]| ensures EscapeChar(s[1..][i]) == [s[1..][i]] {
          assert s[1..][i] == s[i + 1];
        }
      }
      EscapePlain(s[1..]);
      assert s == [s[0]] + s[1..];
    }
  }

  /** The five entities `Escape` writes, read back. */
  function DecodeEntities(s: string): string
    decreases |s|
  {
    if s == [] then ""
    else if StartsWith(s, "&amp;") then "&" + DecodeEntities(s[5..])
    else if StartsWith(s, "&lt;") then "<" + DecodeEntities(s[4..])
    else if StartsWith(s, "&gt;") then ">" + DecodeEntities(s[4..])
    else if StartsWith(s, "&quot;") then "\"" + DecodeEntities(s[6..])
    else if StartsWith(s, "&#x27;") then "'" + DecodeEntities(s[6..])
    else [s[0]] + DecodeEntities(s[1..])
  }

  lemma DecodeEscapedChar(c: char, rest: string)
    ensures DecodeEntities(EscapeChar(c) + rest) == [c] + DecodeEntities(rest)
  {
    if c == '&' {
      DecodeEntity("&amp;", rest);
    } else if c == '<' {
      DecodeEntity("&lt;", rest);
    } else if c == '>' {
      DecodeEntity("&gt;", rest);
    } else if c == '"' {
      DecodeEntity("&quot;", rest);
    } else if c == '\'' {
      DecodeEntity("&#x27;", rest);
    } else {
      var s := [c] + rest;
      assert s[1..] == rest;
      DecodePlainHead(s);
    }
  }

  /** A text that does not start with `&` keeps its first character. */
  lemma DecodePlainHead(s: string)
    requires s != [] && s[0] != '&'
    ensures DecodeEntities(s) == [s[0]] + DecodeEntities(s[1..])
  {
    assert !StartsWith(s, "&amp;") && !StartsWith(s, "&lt;") && !StartsWith(s, "&gt;") by {
      assert "&amp;"[0] == "&lt;"[0] == "&gt;"[0] == '&';
    }
    assert !StartsWith(s, "&quot;") && !StartsWith(s, "&#x27;") by {
      assert "&quot;"[0] == "&#x27;"[0] == '&';
    }
  }

  /** An entity at the head of the text is read as its character. */
  lemma DecodeEntity(e: string, rest: string)
    requires e in ["&amp;", "&lt;", "&gt;", "&quot;", "&#x27;"]
    ensures DecodeEntities(e + rest) == [EntityChar(e)] + DecodeEntities(rest)
  {
    var s := e + rest;
    assert s[..|e|] == e && s[|e|..] == rest;
    assert s[1] == e[1];
  }

  function EntityChar(e: string): char {
    if e == "&amp;" then '&' else if e == "&lt;" then '<' else if e == "&gt;" then '>'
    else if e == "&quot;" then '"' else '\''
  }

  /** Escaping loses nothing: decoding the entities gives the text back. */
  lemma {:induction false} EscapeRoundTrip(s: string)
    ensures DecodeEntities(Escape(s)) == s
    decreases |s|
  {
    if s != [] {
      EscapeRoundTrip(s[1..]);
      DecodeEscapedChar(s[0], Escape(s[1..]));
      assert s == [s[0]] + s[1..];
    }
  }

  lemma EscapeInjective(a: string, b: string)
    requires Escape(a) == Escape(b)
    ensures a == b
  {
    EscapeRoundTrip(a);
    EscapeRoundTrip(b);
  }

  // ---------------------------------------------------------------------------
  // Cells of one issue
  // ---------------------------------------------------------------------------

  /** `<a href='escape(url)'>escape(text)</a>`. */
  function Anchor(url: string, text: string): string {
    "<a href='" + Escape(url) + "'>" + Escape(text) + "</a>"
  }

  function Anchors(links: seq<Link>): (r: seq<string>)
    ensures |r| == |links| && forall k :: 0 <= k < |links| ==> r[k] == Anchor(links[k].url, links[k].title)
  {
    seq(|links|, k requires 0 <= k < |links| => Anchor(links[k].url, links[k].title))
  }

  /** `external_links_str`: the anchors separated by `, `, or `N/A` when there are none. */
  function LinksHtml(links: seq<Link>): string {
    if links == [] then "N/A" else Join(Anchors(links), ", ")
  }

  /** The fixed red mark of an unfilled note. */
  const UnfilledSpan: string := "<span style='color:red'>" + "<strong>" + Unfilled + "</strong>" + "</span>"

  /**
    `version_info_html`: the red mark for an unfilled note, otherwise the
    stripped note escaped, which reads back as the note the spreadsheet
    scripts store.
  */
  function NoteHtml(note: Option<string>): (r: string)
    ensures IsUnfilled(note) ==> r == UnfilledSpan
    ensures !IsUnfilled(note) ==> DecodeEntities(r) == NormalizeNote(note) && '<' !in r
  {
    if IsUnfilled(note) then UnfilledSpan
    else
      EscapeRoundTrip(Strip(note.value));
      Escape(Strip(note.value))
  }

  /** `issue_info` of `jira_rn.py`: four HTML fragments. */
  datatype HtmlRecord = HtmlRecord(summary: string, ticketId: string, externalLinks: string, versionInfo: string)

  /** `extract_web_links` of `jira_rn.py` tests the unescaped URL. */
  function UnescapedHost(netloc: string -> string, unescape: string -> string): string -> string {
    url => netloc(unescape(url))
  }

  /** The links of one issue in `jira_rn.py`. */
  function HtmlLinks(issue: Issue, jiraUrl: string, netloc: string -> string, unescape: string -> string): seq<Link> {
    AllLinks(issue.issueLinks, issue.remote, jiraUrl, netloc, UnescapedHost(netloc, unescape))
  }

  function HtmlRecordOf(issue: Issue, jiraUrl: string, netloc: string -> string, unescape: string -> string)
    : HtmlRecord
  {
    HtmlRecord(Escape(issue.summary), Anchor(BrowseUrl(jiraUrl, issue.key), issue.key),
               LinksHtml(HtmlLinks(issue, jiraUrl, netloc, unescape)), NoteHtml(issue.note))
  }

  /** The loop body of `fetch_jira_issues` in `jira_rn.py`. */
  method ProcessIssueHtml(issue: Issue, jiraUrl: string, netloc: string -> string, unescape: string -> string)
    returns (r: HtmlRecord)
    ensures r == HtmlRecordOf(issue, jiraUrl, netloc, unescape)
  {
    var versionInfoHtml: string;
    if issue.note.None? || Strip(issue.note.value) in FillerGlyphs || |Strip(issue.note.value)| <= 3 {
      versionInfoHtml := UnfilledSpan;
    } else {
      versionInfoHtml := Escape(Strip(issue.note.value));
    }
    var allLinks := CollectLinks(issue.issueLinks, issue.remote, jiraUrl, netloc, UnescapedHost(netloc, unescape));
    var anchors: seq<string> := [];
    for i := 0 to |allLinks|
      invariant anchors == Anchors(allLinks[..i])
    {
      AnchorsSnoc(allLinks, i);
      anchors := anchors + [Anchor(allLinks[i].url, allLinks[i].title)];
    }
    assert allLinks[..|allLinks|] == allLinks;
    var externalLinksStr := if anchors != [] then Join(anchors, ", ") else "N/A";
    assert externalLinksStr == LinksHtml(allLinks);
    assert versionInfoHtml == NoteHtml(issue.note);
    r := HtmlRecord(Escape(issue.summary), Anchor(BrowseUrl(jiraUrl, issue.key), issue.key),
                    externalLinksStr, versionInfoHtml);
  }

  lemma AnchorsSnoc(links: seq<Link>, i: nat)
    requires i < |links|
    ensures Anchors(links[..i + 1]) == Anchors(links[..i]) + [Anchor(links[i].url, links[i].title)]
  {
  }

  /** The records of a search, in the order the search returned the issues. */
  function HtmlRecords(issues: seq<Issue>, jiraUrl: string, netloc: string -> string, unescape: string -> string)
    : (r: seq<HtmlRecord>)
    ensures |r| == |issues|
    ensures forall i :: 0 <= i < |issues| ==> r[i] == HtmlRecordOf(issues[i], jiraUrl, netloc, unescape)
  {
    Map(issue => HtmlRecordOf(issue, jiraUrl, netloc, unescape), issues)
  }

  lemma HtmlRecordsSnoc(issues: seq<Issue>, i: nat, jiraUrl: string, netloc: string -> string,
                        unescape: string -> string)
    requires i < |issues|
    ensures HtmlRecords(issues[..i + 1], jiraUrl, netloc, unescape)
         == HtmlRecords(issues[..i], jiraUrl, netloc, unescape) + [HtmlRecordOf(issues[i], jiraUrl, netloc, unescape)]
  {
    MapSnoc(issue => HtmlRecordOf(issue, jiraUrl, netloc, unescape), issues, i);
  }

  /** `fetch_jira_issues` of `jira_rn.py`: no rows when the search failed, one row per issue otherwise. */
  method FetchIssuesHtml(outcome: SearchOutcome, jiraUrl: string, netloc: string -> string,
                         unescape: string -> string) returns (issueData: seq<HtmlRecord>)
    ensures issueData == if outcome.SearchFailed? then [] else HtmlRecords(outcome.issues, jiraUrl, netloc, unescape)
  {
    issueData := [];
    if outcome.SearchFailed? {
      return;
    }
    var issues := outcome.issues;
    for i := 0 to |issues|
      invariant issueData == HtmlRecords(issues[..i], jiraUrl, netloc, unescape)
    {
      HtmlRecordsSnoc(issues, i, jiraUrl, netloc, unescape);
      var issueInfo := ProcessIssueHtml(issues[i], jiraUrl, netloc, unescape);
      issueData := issueData + [issueInfo];
    }
    assert issues[..|issues|] == issues;
  }

  /**
    Every anchor of the link cell comes from an allowed link: the escaped URL
    of the `k`-th link, in the order outward, web, remote.
  */
  lemma LinksHtmlShape(issue: Issue, jiraUrl: string, netloc: string -> string, unescape: string -> string)
    ensures var links := HtmlLinks(issue, jiraUrl, netloc, unescape);
      && (links == [] <==> LinksHtml(links) == "N/A")
      && (links != [] ==> LinksHtml(links) == Join(Anchors(links), ", "))
  {
    var links := HtmlLinks(issue, jiraUrl, netloc, unescape);
    if links != [] {
      var a := Anchors(links);
      if |a| > 1 {
        assert Join(a, ", ") == a[0] + (", " + Join(a[1..], ", "));
      }
      assert Join(a, ", ")[0] == a[0][0] == '<';
    }
  }

  // ---------------------------------------------------------------------------
  // The table
  // ---------------------------------------------------------------------------

  const TableHeader: string :=
    "<table>" + "<tr>" + Th("Fejlesztés/javítás") + Th("Szállító belső issue")
    + Th("Redmine, RT jegy") + Th("Megjegyzés") + "</tr>"

  /** A header cell. */
  function Th(title: string): string {
    "<th>" + title + "</th>"
  }

  const TableFooter: string := "</table>"

  /** One table row: the four cells in column order. */
  function RowHtml(r: HtmlRecord): string {
    "<tr><td>" + r.summary + "</td><td>" + r.ticketId + "</td><td>" + r.externalLinks
    + "</td><td>" + r.versionInfo + "</td></tr>"
  }

  function RowsHtml(records: seq<HtmlRecord>): string {
    Concat(Map(RowHtml, records))
  }

  /** `generate_release_notes_table`. */
  function Table(records: seq<HtmlRecord>): string {
    TableHeader + RowsHtml(records) + TableFooter
  }

  lemma RowsHtmlAppend(a: seq<HtmlRecord>, b: seq<HtmlRecord>)
    ensures RowsHtml(a + b) == RowsHtml(a) + RowsHtml(b)
  {
    MapConcat(RowHtml, a, b);
    ConcatAppend(Map(RowHtml, a), Map(RowHtml, b));
  }

  lemma RowsHtmlOne(r: HtmlRecord)
    ensures RowsHtml([r]) == RowHtml(r)
  {
    var one := Map(RowHtml, [r]);
    assert one == [RowHtml(r)];
    assert one[..0] == [];
    assert Concat(one) == Concat(one[..0]) + one[0];
  }

  /** The table is the header, one row per issue in input order, and the footer. */
  lemma TableRows(records: seq<HtmlRecord>, k: nat)
    requires k < |records|
    ensures Table(records) == TableHeader + RowsHtml(records[..k]) + RowHtml(records[k])
                              + RowsHtml(records[k + 1..]) + TableFooter
  {
    var a, r, b := records[..k], records[k], records[k + 1..];
    assert records == (a + [r]) + b;
    RowsHtmlAppend(a + [r], b);
    RowsHtmlAppend(a, [r]);
    RowsHtmlOne(r);
    AppendAssoc(TableHeader, RowsHtml(a) + RowHtml(r), RowsHtml(b));
    AppendAssoc(TableHeader, RowsHtml(a), RowHtml(r));
  }

  // ---------------------------------------------------------------------------
  // No section heading inside generated HTML
  // ---------------------------------------------------------------------------

  /**
    Every `<` is followed, inside the text, by a character other than `h`:
    no `<h1>` can start anywhere in it, whatever comes after it.
  */
  predicate NoHeadingOpen(s: string) {
    forall i :: 0 <= i < |s| && s[i] == '<' ==> i + 1 < |s| && s[i + 1] != 'h'
  }

  lemma NoHeadingOpenAppend(a: string, b: string)
    requires NoHeadingOpen(a) && NoHeadingOpen(b)
    ensures NoHeadingOpen(a + b)
  {
    forall i | 0 <= i < |a + b| && (a + b)[i] == '<' ensures i + 1 < |a + b| && (a + b)[i + 1] != 'h' {
      if i < |a| {
        assert a[i] == '<';
      } else {
        assert b[i - |a|] == '<';
      }
    }
  }

  lemma NoHeadingOpenNoLt(s: string)
    requires '<' !in s
    ensures NoHeadingOpen(s)
  {
  }

  /** No `<h1>` starts inside such a text. */
  lemma NoHeadingOpenHasNoHeading(s: string)
    requires NoHeadingOpen(s)
    ensures !Occurs(s, "<h1>")
  {
    forall i | 0 <= i <= |s| ensures !StartsAt(s, i, "<h1>") {
      if i + 4 <= |s| && s[i] == '<' {
        assert s[i + 1] != 'h';
      }
    }
  }

  lemma {:induction false} NoHeadingOpenJoin(ls: seq<string>, sep: string)
    requires NoHeadingOpen(sep) && forall k :: 0 <= k < |ls| ==> NoHeadingOpen(ls[k])
    ensures NoHeadingOpen(Join(ls, sep))
    decreases |ls|
  {
    if |ls| > 1 {
      NoHeadingOpenJoin(ls[1..], sep);
      NoHeadingOpenAppend(ls[0], sep);
      NoHeadingOpenAppend(ls[0] + sep, Join(ls[1..], sep));
    }
  }

  lemma {:induction false} NoHeadingOpenConcat(ls: seq<string>)
    requires forall k :: 0 <= k < |ls| ==> NoHeadingOpen(ls[k])
    ensures NoHeadingOpen(Concat(ls))
    decreases |ls|
  {
    if ls != [] {
      NoHeadingOpenConcat(ls[..|ls| - 1]);
      NoHeadingOpenAppend(Concat(ls[..|ls| - 1]), ls[|ls| - 1]);
    }
  }

  /** A tag whose name does not start with `h`, with no other `<` in it. */
  lemma TagNoHeading(t: string)
    requires 2 <= |t| && t[0] == '<' && t[1] != 'h' && '<' !in t[1..]
    ensures NoHeadingOpen(t)
  {
    forall i | 0 < i < |t| ensures t[i] != '<' {
      assert t[1..][i - 1] == t[i];
    }
  }

  lemma AnchorNoHeading(url: string, text: string)
    ensures NoHeadingOpen(Anchor(url, text))
  {
    AnchorTextNoHeading(Escape(url), Escape(text));
  }

  /** An anchor around texts without `<`. */
  lemma AnchorTextNoHeading(u: string, t: string)
    requires '<' !in u && '<' !in t
    ensures NoHeadingOpen("<a href='" + u + "'>" + t + "</a>")
  {
    AnchorTagsNoHeading();
    NoHeadingOpenNoLt(u);
    NoHeadingOpenNoLt(t);
    NoHeadingOpenAppend("<a href='", u);
    NoHeadingOpenAppend("<a href='" + u, "'>");
    NoHeadingOpenAppend("<a href='" + u + "'>", t);
    NoHeadingOpenAppend("<a href='" + u + "'>" + t, "</a>");
  }

  lemma AnchorTagsNoHeading()
    ensures NoHeadingOpen("<a href='") && NoHeadingOpen("'>") && NoHeadingOpen("</a>")
  {
    TagNoHeading("<a href='");
    TagNoHeading("</a>");
    NoHeadingOpenNoLt("'>");
  }

  lemma RedSpanNoHeading()
    ensures NoHeadingOpen("<span style='color:red'>")
  {
    var span := "<span style='color:red'>";
    assert span == "<" + "span style='color:red'>";
    assert '<' !in "span style='color:red'>";
    TagNoHeading(span);
  }

  lemma UnfilledSpanNoHeading()
    ensures NoHeadingOpen(UnfilledSpan)
  {
    var span, strong := "<span style='color:red'>", "<strong>";
    RedSpanNoHeading();
    TagNoHeading(strong);
    TagNoHeading("</strong>");
    TagNoHeading("</span>");
    NoHeadingOpenNoLt(Unfilled);
    NoHeadingOpenAppend(span, strong);
    NoHeadingOpenAppend(span + strong, Unfilled);
    NoHeadingOpenAppend(span + strong + Unfilled, "</strong>");
    NoHeadingOpenAppend(span + strong + Unfilled + "</strong>", "</span>");
  }

  /** Every cell of a record is free of `<h`. */
  predicate CellsNoHeading(r: HtmlRecord) {
    NoHeadingOpen(r.summary) && NoHeadingOpen(r.ticketId) && NoHeadingOpen(r.externalLinks)
    && NoHeadingOpen(r.versionInfo)
  }

  lemma RecordNoHeading(issue: Issue, jiraUrl: string, netloc: string -> string, unescape: string -> string)
    ensures CellsNoHeading(HtmlRecordOf(issue, jiraUrl, netloc, unescape))
  {
    NoHeadingOpenNoLt(Escape(issue.summary));
    AnchorNoHeading(BrowseUrl(jiraUrl, issue.key), issue.key);
    LinksHtmlNoHeading(HtmlLinks(issue, jiraUrl, netloc, unescape));
    NoteHtmlNoHeading(issue.note);
  }

  lemma LinksHtmlNoHeading(links: seq<Link>)
    ensures NoHeadingOpen(LinksHtml(links))
  {
    if links == [] {
      NoHeadingOpenNoLt("N/A");
    } else {
      var a := Anchors(links);
      forall k | 0 <= k < |a| ensures NoHeadingOpen(a[k]) {
        AnchorNoHeading(links[k].url, links[k].title);
      }
      NoHeadingOpenNoLt(", ");
      NoHeadingOpenJoin(a, ", ");
    }
  }

  lemma NoteHtmlNoHeading(note: Option<string>)
    ensures NoHeadingOpen(NoteHtml(note))
  {
    if IsUnfilled(note) {
      UnfilledSpanNoHeading();
    } else {
      NoHeadingOpenNoLt(NoteHtml(note));
    }
  }

  lemma RowNoHeading(r: HtmlRecord)
    requires CellsNoHeading(r)
    ensures NoHeadingOpen(RowHtml(r))
  {
    var tr, mid, end := "<tr><td>", "</td><td>", "</td></tr>";
    assert NoHeadingOpen(tr) && NoHeadingOpen(mid) && NoHeadingOpen(end);
    NoHeadingOpenAppend(tr, r.summary);
    NoHeadingOpenAppend(tr + r.summary, mid);
    NoHeadingOpenAppend(tr + r.summary + mid, r.ticketId);
    NoHeadingOpenAppend(tr + r.summary + mid + r.ticketId, mid);
    NoHeadingOpenAppend(tr + r.summary + mid + r.ticketId + mid, r.externalLinks);
    NoHeadingOpenAppend(tr + r.summary + mid + r.ticketId + mid + r.externalLinks, mid);
    NoHeadingOpenAppend(tr + r.summary + mid + r.ticketId + mid + r.externalLinks + mid, r.versionInfo);
    NoHeadingOpenAppend(tr + r.summary + mid + r.ticketId + mid + r.externalLinks + mid + r.versionInfo, end);
  }

  lemma ThNoHeading(title: string)
    requires '<' !in title
    ensures NoHeadingOpen(Th(title))
  {
    TagNoHeading("<th>");
    TagNoHeading("</th>");
    NoHeadingOpenAppend("<th>", title);
    NoHeadingOpenAppend("<th>" + title, "</th>");
  }

  lemma TableTagsNoHeading()
    ensures NoHeadingOpen("<table>") && NoHeadingOpen("<tr>") && NoHeadingOpen("</tr>") && NoHeadingOpen("</table>")
  {
    TagNoHeading("<table>");
    TagNoHeading("<tr>");
    TagNoHeading("</tr>");
    TagNoHeading("</table>");
  }

  lemma TitlesNoHeading()
    ensures NoHeadingOpen(Th("Fejlesztés/javítás")) && NoHeadingOpen(Th("Szállító belső issue"))
    ensures NoHeadingOpen(Th("Redmine, RT jegy")) && NoHeadingOpen(Th("Megjegyzés"))
  {
    ThNoHeading("Fejlesztés/javítás");
    ThNoHeading("Szállító belső issue");
    ThNoHeading("Redmine, RT jegy");
    ThNoHeading("Megjegyzés");
  }

  lemma TableHeaderNoHeading()
    ensures NoHeadingOpen(TableHeader) && NoHeadingOpen(TableFooter)
  {
    var t1, t2, t3, t4 := Th("Fejlesztés/javítás"), Th("Szállító belső issue"), Th("Redmine, RT jegy"), Th("Megjegyzés");
    TableTagsNoHeading();
    TitlesNoHeading();
    NoHeadingOpenAppend("<table>", "<tr>");
    NoHeadingOpenAppend("<table>" + "<tr>", t1);
    NoHeadingOpenAppend("<table>" + "<tr>" + t1, t2);
    NoHeadingOpenAppend("<table>" + "<tr>" + t1 + t2, t3);
    NoHeadingOpenAppend("<table>" + "<tr>" + t1 + t2 + t3, t4);
    NoHeadingOpenAppend("<table>" + "<tr>" + t1 + t2 + t3 + t4, "</tr>");
  }

  /**
    No `<h1>` can start anywhere in a generated table, which is what keeps a
    merged section from being cut short at a heading of its own.
  */
  lemma TableNoHeading(issues: seq<Issue>, jiraUrl: string, netloc: string -> string, unescape: string -> string)
    ensures NoHeadingOpen(Table(HtmlRecords(issues, jiraUrl, netloc, unescape)))
    ensures !Occurs(Table(HtmlRecords(issues, jiraUrl, netloc, unescape)), "<h1>")
  {
    var records := HtmlRecords(issues, jiraUrl, netloc, unescape);
    var rows := Map(RowHtml, records);
    forall k | 0 <= k < |rows| ensures NoHeadingOpen(rows[k]) {
      RecordNoHeading(issues[k], jiraUrl, netloc, unescape);
      RowNoHeading(records[k]);
    }
    NoHeadingOpenConcat(rows);
    TableHeaderNoHeading();
    NoHeadingOpenAppend(TableHeader, RowsHtml(records));
    NoHeadingOpenAppend(TableHeader + RowsHtml(records), TableFooter);
    NoHeadingOpenHasNoHeading(Table(records));
  }
}
