/**
  The per-issue loop of `fetch_jira_issues` in the two spreadsheet scripts:
  one record per issue found, in search order, holding the summary, the key,
  the browse URL of the ticket, the allowed links and the normalised note. The search itself is an input: the issues it found, or
  the JIRAError that makes the function return an empty list.
*/
module Records {
  import opened Wrappers
  import opened Text
  import opened Notes
  import opened Links

  /** The parts of a JIRA issue the scripts read, with the result of its `remote_links` call. */
  datatype Issue = Issue(key: string, summary: string, note: Option<string>,
                         issueLinks: seq<IssueLink>, remote: RemoteLinks)

  /** What `jira.search_issues` gave for the search string. */
  datatype SearchOutcome = Found(issues: seq<Issue>) | SearchFailed

  /** `issue_info` of `rn_excel_generalas_windows.py`. */
  datatype Record = Record(summary: string, ticketId: string, ticketUrl: string,
                           externalLinks: seq<Link>, versionInfo: string)

  /** `issue_info` of `rn_excel_generalas.py`: the same fields plus empty `Responsible` and `Status`. */
  datatype TrackedRecord = TrackedRecord(record: Record, responsible: string, status: string)

  /** The record built for one issue. */
  function RecordOf(issue: Issue, jiraUrl: string, netloc: string -> string): Record {
    Record(issue.summary, issue.key, BrowseUrl(jiraUrl, issue.key),
           AllLinks(issue.issueLinks, issue.remote, jiraUrl, netloc, netloc),
           NormalizeNote(issue.note))
  }

  /**
    What every record satisfies: the ticket URL is the browse URL of its key
    (it is not checked against the allow-list), every external link passes
    the allow-list, and the note is the sentinel or a stripped text of at
    least four characters.
  */
  predicate WellFormed(r: Record, jiraUrl: string, netloc: string -> string) {
    && r.ticketUrl == BrowseUrl(jiraUrl, r.ticketId)
    && (forall k :: 0 <= k < |r.externalLinks| ==> IsValidDomain(netloc(r.externalLinks[k].url)))
    && IsStripped(r.versionInfo) && |r.versionInfo| >= 4
  }

  lemma RecordOfWellFormed(issue: Issue, jiraUrl: string, netloc: string -> string)
    ensures WellFormed(RecordOf(issue, jiraUrl, netloc), jiraUrl, netloc)
  {
    AllLinksShape(issue.issueLinks, issue.remote, jiraUrl, netloc);
  }

  /** The loop body shared by both scripts: note rule, link collection, record. */
  method ProcessIssue(issue: Issue, jiraUrl: string, netloc: string -> string) returns (r: Record)
    ensures r == RecordOf(issue, jiraUrl, netloc)
    ensures WellFormed(r, jiraUrl, netloc)
  {
    var versionInfo: string;
    if issue.note.None? || Strip(issue.note.value) in FillerGlyphs || |Strip(issue.note.value)| <= 3 {
      versionInfo := Unfilled;
    } else {
      versionInfo := Strip(issue.note.value);
    }
    var allLinks := CollectLinks(issue.issueLinks, issue.remote, jiraUrl, netloc, netloc);
    r := Record(issue.summary, issue.key, BrowseUrl(jiraUrl, issue.key), allLinks, versionInfo);
    RecordOfWellFormed(issue, jiraUrl, netloc);
  }

  /** One record per issue, in search order. */
  function RecordsOf(issues: seq<Issue>, jiraUrl: string, netloc: string -> string): (r: seq<Record>)
    ensures |r| == |issues|
    ensures forall i :: 0 <= i < |issues| ==> r[i] == RecordOf(issues[i], jiraUrl, netloc)
  {
    Map(issue => RecordOf(issue, jiraUrl, netloc), issues)
  }

  lemma RecordsOfSnoc(issues: seq<Issue>, i: nat, jiraUrl: string, netloc: string -> string)
    requires i < |issues|
    ensures RecordsOf(issues[..i + 1], jiraUrl, netloc)
         == RecordsOf(issues[..i], jiraUrl, netloc) + [RecordOf(issues[i], jiraUrl, netloc)]
  {
    MapSnoc(issue => RecordOf(issue, jiraUrl, netloc), issues, i);
  }

  /** What `fetch_jira_issues` returns: one record per issue found, none when the search failed. */
  function FetchedRecords(outcome: SearchOutcome, jiraUrl: string, netloc: string -> string): (r: seq<Record>)
    ensures r == [] <==> outcome.SearchFailed? || outcome.issues == []
  {
    match outcome
    case SearchFailed => []
    case Found(issues) => RecordsOf(issues, jiraUrl, netloc)
  }

  /** Every fetched record is well formed. */
  lemma FetchedWellFormed(outcome: SearchOutcome, jiraUrl: string, netloc: string -> string)
    ensures forall r | r in FetchedRecords(outcome, jiraUrl, netloc) :: WellFormed(r, jiraUrl, netloc)
  {
    if outcome.Found? {
      forall i | 0 <= i < |outcome.issues|
        ensures WellFormed(FetchedRecords(outcome, jiraUrl, netloc)[i], jiraUrl, netloc)
      {
        RecordOfWellFormed(outcome.issues[i], jiraUrl, netloc);
      }
    }
  }

  /** `fetch_jira_issues` of `rn_excel_generalas_windows.py`. */
  method FetchIssues(outcome: SearchOutcome, jiraUrl: string, netloc: string -> string)
    returns (issueData: seq<Record>)
    ensures issueData == FetchedRecords(outcome, jiraUrl, netloc)
  {
    issueData := [];
    if outcome.SearchFailed? {
      return;
    }
    var issues := outcome.issues;
    for i := 0 to |issues|
      invariant issueData == RecordsOf(issues[..i], jiraUrl, netloc)
    {
      RecordsOfSnoc(issues, i, jiraUrl, netloc);
      var issueInfo := ProcessIssue(issues[i], jiraUrl, netloc);
      issueData := issueData + [issueInfo];
    }
    assert issues[..|issues|] == issues;
  }

  /** The records of `rn_excel_generalas.py`: each with an empty responsible person and status. */
  function Tracked(records: seq<Record>): (r: seq<TrackedRecord>)
    ensures |r| == |records|
    ensures forall i :: 0 <= i < |records| ==> r[i] == TrackedRecord(records[i], "", "")
  {
    Map(record => TrackedRecord(record, "", ""), records)
  }

  lemma TrackedSnoc(records: seq<Record>, x: Record)
    ensures Tracked(records + [x]) == Tracked(records) + [TrackedRecord(x, "", "")]
  {
    MapAppend(record => TrackedRecord(record, "", ""), records, x);
  }

  /** `fetch_jira_issues` of `rn_excel_generalas.py`. */
  method FetchTrackedIssues(outcome: SearchOutcome, jiraUrl: string, netloc: string -> string)
    returns (issueData: seq<TrackedRecord>)
    ensures issueData == Tracked(FetchedRecords(outcome, jiraUrl, netloc))
  {
    issueData := [];
    if outcome.SearchFailed? {
      return;
    }
    var issues := outcome.issues;
    for i := 0 to |issues|
      invariant issueData == Tracked(RecordsOf(issues[..i], jiraUrl, netloc))
    {
      RecordsOfSnoc(issues, i, jiraUrl, netloc);
      var issueInfo := ProcessIssue(issues[i], jiraUrl, netloc);
      TrackedSnoc(RecordsOf(issues[..i], jiraUrl, netloc), issueInfo);
      issueData := issueData + [TrackedRecord(issueInfo, "", "")];
    }
    assert issues[..|issues|] == issues;
  }
}
