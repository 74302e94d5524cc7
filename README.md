# Release notes from JIRA: a Dafny model

Three Python scripts turn the JIRA issues found by one search into release
notes. Two of them write a spreadsheet (`rn_excel_generalas_windows.py`,
`rn_excel_generalas.py`); the third (`jira_rn.py`) renders an HTML table and
merges it into a Confluence page under a heading for the version. This
project models the logic they share and the logic each adds:

- picking the query out of the search URL (`extract_query_from_url`), module `Query`;
- the "unfilled" rule for the release-note field `customfield_13240`, module `Notes`;
- gathering the links of an issue from outward issue links, web links and
  remote links, filtered by the domain allow-list (`is_valid_domain`,
  `extract_web_links`, `extract_remotelinks`), module `Links`;
- the per-issue loop of `fetch_jira_issues` in the spreadsheet scripts, module `Records`;
- the field extraction of `extract_field_content`, module `NoteFields`;
- the two versions of `format_version_info`: the line layout with
  continuation lines of the Windows script (`NoteLayout`) and the `**`
  keyword marking of the other (`NoteMarking`);
- the rich-text note cell with its plain-text fallback, module `RichText`;
- the `=HYPERLINK` cells, the rows, the cell writer's formula test, the
  output file name, the `YYYYMMDD` date check and the order of the checks in
  `run`, module `Cells`;
- `html.escape`, the anchors, the red sentinel, the HTML fetch loop and
  `generate_release_notes_table` of `jira_rn.py`, module `Html`;
- `update_confluence_page` and `run` of `jira_rn.py`: the `re.sub` that
  replaces the version's section, the appended section, the PUT request and
  the success report, module `Confluence`;
- `ConfigManager.encode_data` / `decode_data`: three rounds of base64
  (section 4 of RFC 4648), module `Base64`.

`Text` holds the Python string primitives the scripts use (`strip`, `split`,
`join`, `startswith`, `lower`, `replace`), and `Wrappers` the `Option` and
`Result` types.

The loops of the scripts are methods with loop invariants, each proved equal
to a function that specifies it; the properties are lemmas about those
functions. Everything that talks to the outside (JIRA, Confluence, the file
system, dialogs) becomes an input: a search is `Found(issues)` or
`SearchFailed`, a remote-link call `Fetched(urls)` or `FetchFailed`, the GET
of the page `Some(page)` or `None`, the PUT a boolean. `urlparse(...).netloc`
and `html.unescape` are function parameters.

Where the code and the description of the system disagree, the model
follows the code:

- Links are concatenated, never deduplicated: an allowed URL given both as a
  web link and as a remote link is listed twice (`Links.DuplicatesKept`).
- `parse_qs` drops blank values, so `?jql=&filter=7` selects the filter;
  an empty `jql` value is never "present".
- The version loses every `v`, not only a leading one (`version.lower().replace('v', '')`).
- Merging the same table twice is not byte-identical after the first merge
  of an appended section: the second merge adds one line break (the
  template writes `\n` before the third group, and `$` matches before a
  final line break); every merge after that leaves the page as it is
  (`Confluence.AppendedSectionSettles`). This holds for the program's merge
  on every page where the version's pattern matches only at the version's
  own heading, which is every page when the escaped version holds no `.`.
  A `.` of the version matches any character, and a page holding a heading
  such as `<h1>1x2</h1>` for the version `1.2` is merged differently (see
  Findings).

## Model

| member | source | states |
|---|---|---|
| Query.ExtractQuery | rn_excel_generalas_windows.py:527-535 | the query is empty exactly when neither `jql` nor `filter` is given; it is a filter id exactly when only `filter` is given; otherwise it is the first value of the parameter chosen |
| Query.JqlWins | rn_excel_generalas_windows.py:531-534 | with both parameters present the first `jql` value is used, as a JQL query |
| Query.SearchString | rn_excel_generalas_windows.py:100-103 | a filter id is searched as `filter=<id>`, a JQL query as itself |
| Notes.NormalizeNote | rn_excel_generalas_windows.py:107-111 | an absent note, a filler glyph or a stripped note of at most three characters becomes the sentinel `KITÖLTENDŐ!!!`; any other note is stored stripped; the result is stripped and at least four characters long |
| Notes.GlyphTestSubsumed | rn_excel_generalas_windows.py:108 | the filler-glyph test never decides anything the length test does not |
| Links.SuffixTestIgnoresPrefix | rn_excel_generalas_windows.py:68-69 | the allow-list is a plain suffix test: anything put in front of an allowed host name is allowed too |
| Links.DomainExamples | rn_excel_generalas_windows.py:68-69 | `sub.projekt.nak.hu` and `rt5.nak.hu` pass, `evil.com` does not |
| Links.RemoteList | rn_excel_generalas_windows.py:85-94 | a failed remote-link call contributes nothing; every remote link kept is titled by its URL, which passes the allow-list |
| Links.ExtractWebLinks | rn_excel_generalas_windows.py:72-82 | the loop keeps exactly the allowed web links, in issue-link order, each titled by its URL |
| Links.CollectLinks | rn_excel_generalas_windows.py:113-126 | the links of an issue are the allowed outward links, then the allowed web links, then the allowed remote links |
| Links.AllLinksShape | rn_excel_generalas_windows.py:113-126 | outward links come first and are the browse URL of their key; every later link is titled by its URL; every URL passes the allow-list |
| Links.DuplicatesKept | rn_excel_generalas_windows.py:122-126 | an allowed URL given as a web link and as a remote link appears twice in the result |
| Records.RecordOfWellFormed | rn_excel_generalas_windows.py:128-134 | every record holds the browse URL of its own key, only allowed links, and a stripped note of at least four characters |
| Records.ProcessIssue | rn_excel_generalas_windows.py:107-134 | the loop body builds the record of the issue, and that record is well formed |
| Records.FetchedRecords | rn_excel_generalas_windows.py:97-144 | the result is empty exactly when the search failed or found nothing |
| Records.FetchedWellFormed | rn_excel_generalas_windows.py:97-144 | every fetched record is well formed |
| Records.FetchIssues | rn_excel_generalas_windows.py:97-144 | the loop returns one record per issue in search order, and none when the search failed |
| Records.Tracked | rn_excel_generalas.py:113-121 | every record gets an empty responsible person and an empty status, one per record, order kept |
| Records.FetchTrackedIssues | rn_excel_generalas.py:82-131 | the loop of the second spreadsheet script returns the same records, each with empty `Responsible` and `Status` |
| NoteFields.NoteLabelsGood | rn_excel_generalas_windows.py:266-274 | the seven labels are non-empty, stripped, free of `:`, `*` and line breaks, and do not open like the sentinel |
| NoteFields.FirstLabelFrom | rn_excel_generalas_windows.py:287-291 | the label found opens the line followed by `:`; when none is found, no label of the list does |
| NoteFields.FirstLabelIsTheLabel | rn_excel_generalas_windows.py:287-291 | a line opens with at most one label, so the first label found is that label whatever the order of the list |
| NoteFields.FieldStart | rn_excel_generalas_windows.py:249-254 | the value starts right after the first case-insensitive `<field>:`; there is none exactly when the lower-cased text does not contain it |
| NoteFields.NextStop | rn_excel_generalas_windows.py:249 | the lazy capture of the first pattern ends at the first stop label followed by `:` at or after its start, or at the end |
| NoteFields.NextNewline | rn_excel_generalas_windows.py:250 | the capture of the second pattern ends at the first line break at or after its start, or at the end |
| NoteFields.Extract | rn_excel_generalas_windows.py:243-259 | an empty note, the sentinel, or a note without the label yields `""`; any other result is stripped, is not `-`, and occurs in the note |
| NoteFields.LabelledValue | rn_excel_generalas_windows.py:253-258 | when the text between the label and the next stop is neither blank nor `-`, it is the value, stripped |
| NoteFields.ExtractFirst | rn_excel_generalas_windows.py:253-258 | an accepted first capture is returned without trying the second pattern |
| NoteFields.LabelledTextIsFilled | rn_excel_generalas_windows.py:244-245 | a note holding a label is neither empty nor the sentinel, so the early return never hides a field |
| NoteFields.DescriptionLabelNotAStop | rn_excel_generalas_windows.py:249 | as written, `Fejlesztés/javítás leírása:` is not a stop of the look-ahead |
| NoteFields.CaptureRunsIntoDescription | rn_excel_generalas_windows.py:249 | as written, a field's capture runs past a following description label |
| NoteFields.CaptureEndsAtLabel | rn_excel_generalas_windows.py:249 | with every note label as a stop, any following label ends the capture |
| NoteLayout.FormatVersionInfo | rn_excel_generalas_windows.py:261-296 | the method returns the layout of the note |
| NoteLayout.FormatWith | rn_excel_generalas_windows.py:276-296 | the line loop, with its inner label loop, computes the layout for any label list |
| NoteLayout.FindField | rn_excel_generalas_windows.py:287-291 | the inner loop stops at the first label the line opens with, or runs to the end when there is none |
| NoteLayout.StepOnField | rn_excel_generalas_windows.py:288-290 | a line opening with a label makes it the current field and emits `<field>: <stripped rest>` |
| NoteLayout.StepContinued | rn_excel_generalas_windows.py:292-294 | once a field has been seen, every line that is not blank and opens with no label is emitted stripped, as a continuation of that field (written two spaces in) |
| NoteLayout.ScanBound | rn_excel_generalas_windows.py:281-294 | at most one output line per non-blank input line |
| NoteLayout.StepKeepsInvariant | rn_excel_generalas_windows.py:281-294 | one turn keeps the invariant: a current field exactly when something was emitted, the first emitted line a field line, every line well formed |
| NoteLayout.ScanWellFormed | rn_excel_generalas_windows.py:281-294 | the whole scan keeps that invariant |
| NoteLayout.RescanRendered | rn_excel_generalas_windows.py:281-296 | scanning the rendered output lines again yields the same lines |
| NoteLayout.LayoutIdempotent | rn_excel_generalas_windows.py:261-296 | laying out a laid-out note changes nothing |
| NoteLayout.LayoutWithIdempotent | rn_excel_generalas_windows.py:261-296 | the same for any good label list |
| NoteLayout.LayoutLineBound | rn_excel_generalas_windows.py:277-296 | the layout is the emitted lines joined by line breaks, no more of them than the note's non-blank lines |
| NoteMarking.FormatVersionInfo | rn_excel_generalas.py:189-217 | the method returns the marked note |
| NoteMarking.MarkText | rn_excel_generalas.py:203-217 | the line loop, with its inner keyword loop, computes the marking for any keyword list |
| NoteMarking.FindKeyword | rn_excel_generalas.py:209-213 | the inner loop stops at the first keyword whose `- <keyword>:` opens the line, or runs to the end |
| NoteMarking.KeywordLineMarked | rn_excel_generalas.py:210-211 | a line opening with `- <keyword>:` becomes `- **<keyword>:**<text after the first colon>`, whatever the list order |
| NoteMarking.MarkKeepsLines | rn_excel_generalas.py:203-217 | the output has exactly one line per input line, each the marking of that line |
| NoteMarking.MarkedStripped | rn_excel_generalas.py:211 | a marked line is stripped |
| NoteMarking.MarkLineIdempotent | rn_excel_generalas.py:206-215 | marking a line twice is marking it once |
| NoteMarking.MarkIdempotent | rn_excel_generalas.py:189-217 | marking a marked note changes nothing |
| NoteMarking.MarkWithIdempotent | rn_excel_generalas.py:189-217 | the same for any good keyword list |
| RichText.RichTextParts | rn_excel_generalas.py:319-338 | the segment loop over the note's lines gives each line's segments, with a plain break after each line whose text differs from the last line's; where no earlier line repeats the last, that is a break after every line but the last |
| RichText.SegmentLines | rn_excel_generalas.py:322-338 | the same loop over any non-empty list of lines |
| RichText.SegmentLine | rn_excel_generalas.py:324-335 | a line with `**` is split on it, even parts plain and odd parts bold, empty parts skipped; a line without is one plain segment |
| RichText.LineText | rn_excel_generalas.py:324-335 | the segments of a line spell the line without its markers, and the line itself when it has none |
| RichText.PartsText | rn_excel_generalas.py:319-338 | the intended segments, with a break after every line but the last by position, spell the note line by line, markers removed, line breaks in place |
| RichText.UnrepeatedText | rn_excel_generalas.py:319-338 | where no earlier line repeats the last, the segments as the code builds them spell the note line by line, markers removed, line breaks in place |
| RichText.FallbackText | rn_excel_generalas.py:346-349 | when the rich string cannot be written and no earlier line repeats the last, the cell holds the note without its markers; such a note without markers is written unchanged |
| RichText.MarkedSegments | rn_excel_generalas.py:324-333 | a marked keyword line is written as the plain bullet, the bold `<keyword>:` and the plain rest |
| RichText.MarkedSplit | rn_excel_generalas.py:326 | a marked keyword line splits on `**` into the bullet, `<keyword>:` and the rest |
| RichText.AsWrittenAgrees | rn_excel_generalas.py:336-338 | where no earlier line repeats the last line's text, comparing texts places the breaks as comparing positions would |
| RichText.RepeatedLineLosesBreak | rn_excel_generalas.py:336-338 | as written, the note `ok` over `ok` loses its line break in the cell; the intended segments keep it |
| Cells.Hyperlink | rn_excel_generalas_windows.py:304 | every link formula opens with `=HYPERLINK` |
| Cells.ExternalLinksCell | rn_excel_generalas_windows.py:301-305 | the link loop gives one formula per link joined by line breaks, or `N/A` when there are none |
| Cells.LinksCellLines | rn_excel_generalas_windows.py:305 | where no URL or title holds a line break, the link cell splits back into one formula per link |
| Cells.WriteCell | rn_excel_generalas_windows.py:459-462 | a cell is written as a formula exactly when it is in column 1 or 2 and starts with `=HYPERLINK` |
| Cells.LinkColumnsWritten | rn_excel_generalas_windows.py:302-307 | the ticket cell is always a formula; the link cell is one exactly when the issue has links |
| Cells.FieldColumns | rn_excel_generalas_windows.py:311-319 | each of the six field columns, extracted as the code is written, is empty or a stripped text of the note other than `-` |
| Cells.WindowsRow | rn_excel_generalas_windows.py:324-338 | a row of the Windows script has twelve columns: summary, ticket formula, link cell, laid-out note, six field columns that are empty or stripped texts of the note other than `-`, and two empty cells |
| Cells.DashFilterRedundant | rn_excel_generalas_windows.py:332-334 | the extra `-` filter on three columns changes nothing, since an extracted value is never `-`, whatever the look-ahead list |
| Cells.LinuxRow | rn_excel_generalas.py:235-242 | a row of the second script has six columns |
| Cells.WindowsRows | rn_excel_generalas_windows.py:299-338 | the row loop, extracting the fields as the code is written, gives one row per record, in order |
| Cells.LinuxRows | rn_excel_generalas.py:221-242 | the row loop gives one row per record, in order |
| Cells.CleanVersion | rn_excel_generalas_windows.py:341 | the cleaned version holds no `v` |
| Cells.FileName | rn_excel_generalas.py:248-249 | the default name starts with `v` and ends with `.xlsx` |
| Cells.CleanVersionIdempotent | rn_excel_generalas_windows.py:503-504 | cleaning is idempotent, so `V1.2`, `v1.2` and `1.2` give the same file name |
| Cells.DateShape | rn_excel_generalas_windows.py:476 | the date check accepts exactly eight digits, optionally followed by one final line break |
| Cells.SavedOnlyAfterChecks | rn_excel_generalas_windows.py:467-522 | a file is saved only after a valid date, a query, a connection and a non-empty search, and never when writing fails or the save dialog was cancelled; the second script uses the default name |
| Cells.FailedSearchIsNoIssues | rn_excel_generalas_windows.py:495-499 | a failed search and an empty one end the run the same way, and nothing else ends it so |
| Html.Escape | jira_rn.py:179 | the escaped text holds none of `< > " '` and is at least as long as the text |
| Html.EscapePlain | jira_rn.py:179 | text without the five special characters is left alone |
| Html.EscapeRoundTrip | jira_rn.py:203-204 | decoding the five entities gives back the escaped text |
| Html.EscapeInjective | jira_rn.py:203-204 | two texts with the same escaped form are equal |
| Html.NoteHtml | jira_rn.py:175-179 | an unfilled note is the red sentinel span; any other note is its stripped text, escaped, with no `<` in it |
| Html.ProcessIssueHtml | jira_rn.py:173-208 | the loop body builds the four HTML cells of the issue |
| Html.FetchIssuesHtml | jira_rn.py:164-216 | the loop gives one HTML record per issue in search order, none when the search failed |
| Html.LinksHtmlShape | jira_rn.py:182-200 | the link cell is `N/A` exactly when there are no links, and otherwise the anchors joined by `, ` |
| Html.RowsHtmlAppend | jira_rn.py:226-230 | the rows of two lists of records are the rows of the first followed by those of the second |
| Html.TableRows | jira_rn.py:218-234 | the table is the header, one row per record in order, and the footer |
| Html.LinksHtmlNoHeading | jira_rn.py:185-200 | no `<h` tag opens inside the link cell |
| Html.NoteHtmlNoHeading | jira_rn.py:176-179 | no `<h` tag opens inside the note cell |
| Html.RecordNoHeading | jira_rn.py:202-207 | no `<h` tag opens inside any cell of a record |
| Html.TableNoHeading | jira_rn.py:218-234 | no `<h` tag opens inside a generated table, so it never holds `<h1>` |
| Confluence.Header | jira_rn.py:254 | the heading opens with `<h1>` and is nine characters longer than the escaped version |
| Confluence.SpanEnd | jira_rn.py:258 | the lazy group stops at the first `<h1>` or `$` position after the heading |
| Confluence.SubCopy | jira_rn.py:257-262 | `re.sub` copies a stretch without a match unchanged |
| Confluence.SubMatchStep | jira_rn.py:257-262 | a match is replaced by the section followed by the third group, and the search resumes after it |
| Confluence.SubAgrees | jira_rn.py:257-262 | where every wildcard match of the pattern is a literal match, the wildcard reading and the literal reading replace the same way |
| Confluence.SubSameMatches | jira_rn.py:257-262 | for a pattern without `.` the wildcard reading and the literal reading replace the same way |
| Confluence.MergeWith | jira_rn.py:255-266 | a body without the heading gets the section appended |
| Confluence.AsWrittenAgrees | jira_rn.py:255-262 | the program's merge equals the literal merge on every page where the version's pattern matches only at the version's own heading |
| Confluence.OwnHeadingsWithoutDot | jira_rn.py:257-258 | every page is such a page when the escaped version has no `.` |
| Confluence.OwnHeadingsPrefix | jira_rn.py:257-258 | the beginning of such a page is such a page too |
| Confluence.AsWrittenAgreesWithoutDot | jira_rn.py:257-262 | the code as written and the literal merge agree whenever the escaped version has no `.` |
| Confluence.ReplaceFollowed | jira_rn.py:255-262 | a section followed by another heading is replaced, and everything before and after it is kept: by the literal merge always, by the program's merge where its pattern matches the page only at the version's heading |
| Confluence.ReplaceLast | jira_rn.py:255-262 | the last section is replaced up to the end of the page, keeping a final line break: by the literal merge always, by the program's merge where its pattern matches the page only at the version's heading |
| Confluence.AppendedSectionSettles | jira_rn.py:254-266 | an appended section gains one line break on the next merge of the same table and is stable after that: the program's merge appends always, and does the rest where its pattern matches the page only at the version's heading |
| Confluence.FollowedSectionStable | jira_rn.py:254-262 | a merged section followed by another heading is left as it is by merging the same table again, by the literal merge always and by the program's merge under the same condition |
| Confluence.RepeatedMergeSettles | jira_rn.py:254-266 | for a generated table: the first merge appends, the second adds one line break, the third changes nothing; the same for the program's merge where its pattern matches the twice-merged page only at the version's heading |
| Confluence.WildcardTakesOtherVersion | jira_rn.py:257-262 | as written, the `.` of version `a.b` matches the heading of version `a?b`, whose section is then replaced |
| Confluence.LiteralKeepsOtherVersion | jira_rn.py:257-262 | matched literally, the other version's heading is kept and only the version's own section is replaced |
| Confluence.UpdatePage | jira_rn.py:244-290 | a failed GET sends nothing; otherwise the PUT carries the page id, type `page`, the title, the version number plus one and the body merged as the code is written (the literal merge on a page where the pattern matches only at the version's heading), and succeeds exactly when the server accepts it |
| Confluence.FailedGetReportedAsSuccess | jira_rn.py:116-126 | as written, a run whose GET failed still reports success |
| Confluence.RunReportsUpdate | jira_rn.py:102-126 | a run reaches the update exactly after a query, a connection and a non-empty search, and then reports success exactly when the page was written under the next version number |
| Base64.DecodeChar | rn_excel_generalas_windows.py:37-40 | a character decodes only to the sextet whose alphabet character it is |
| Base64.DecodeEncodeChar | rn_excel_generalas_windows.py:32-40 | every sextet's alphabet character decodes back to it |
| Base64.EncodeLength | rn_excel_generalas_windows.py:34 | the encoding has four characters per started group of three bytes |
| Base64.EncodeAlphabet | rn_excel_generalas_windows.py:34 | the encoding uses only the alphabet and `=` |
| Base64.DecodeLength | rn_excel_generalas_windows.py:39 | only text whose length is a multiple of four decodes |
| Base64.DecodeEncode | rn_excel_generalas_windows.py:34-39 | decoding undoes encoding for every byte string |
| Base64.AsciiTextShape | rn_excel_generalas_windows.py:39 | decoding bytes to text fails exactly when a byte is not ASCII, and otherwise keeps every code |
| Base64.AsciiTextBytes | rn_excel_generalas_windows.py:34-39 | ASCII text encoded to bytes decodes back to itself |
| Base64.EncodeRound | rn_excel_generalas_windows.py:34 | one round of encoding keeps the text ASCII |
| Base64.RoundTrip | rn_excel_generalas_windows.py:34-39 | one round of decoding undoes one round of encoding |
| Base64.RoundsTrip | rn_excel_generalas_windows.py:32-40 | `n` rounds of decoding undo `n` rounds of encoding |
| Base64.EncodeData | rn_excel_generalas_windows.py:32-35 | `encode_data` runs three rounds, and `decode_data` gives its argument back |
| Base64.DecodeData | rn_excel_generalas_windows.py:37-40 | `decode_data` runs three rounds, failing as soon as one round fails |
| Text.Strip | rn_excel_generalas_windows.py:108 | `strip()` returns a stripped text, removes nothing from a stripped text, and is empty exactly for all-whitespace text |
| Text.StripPadding | rn_excel_generalas_windows.py:282 | whitespace around a stripped text is all `strip()` removes |
| Text.Split | rn_excel_generalas_windows.py:277 | the parts of `split` join back into the text and none holds the separator |
| Text.SplitJoin | rn_excel_generalas_windows.py:277-296 | splitting a join on a one-character separator absent from the parts gives the parts back |
| Text.RemoveAll | rn_excel_generalas_windows.py:341 | `replace(c, '')` removes every `c`, keeps every other character as often as it occurs, and leaves a text without `c` unchanged |
| Text.RemoveAllAppend | rn_excel_generalas_windows.py:341 | `replace(c, '')` works piece by piece over a concatenation, so the kept characters stay in their order |

## Left out

- The user interface (tkinter forms, dialogs, log window), the worker thread, timing and progress messages.
- The JIRA connection (`connect_to_jira`), the searches and remote-link calls, and the HTTP GET and PUT: their results are inputs.
- `load_config`, `save_config`, `json` and the file system; `get_resource_path`. Only the encoding of the configuration text is modelled.
- Spreadsheet styling and layout: formats, column widths, the `data` sheet with its value lists, the data validation rules and the writing of the workbook. The cells are modelled as strings together with the choice between a formula and a value.
- `urlparse`, `parse_qs` and `html.unescape` are taken as given: `netloc` and `unescape` are function parameters, and the query parameters arrive as the map `parse_qs` returns.
- NoteFields.FieldStart: `re.IGNORECASE` and `str.lower()` fold only ASCII, the Latin-1 capitals and `Ő`/`Ű`; the folding of other scripts is not modelled.
- Cells.CleanVersion: `lower()` folds the same characters as above.
- Confluence.MergeAsWritten: of the regular-expression metacharacters an unescaped version can bring into the pattern, only `.` is modelled; all others are read literally.
- Confluence.Merge: the replacement template is taken literally, with no processing of backslashes in the table text.
- Base64.DecodeData: decoding is strict. It accepts only the alphabet and `=` padding in whole groups of four, whereas `b64decode` by default discards characters outside the alphabet.
- Base64.EncodeData: the configuration text is required to be ASCII, which is what `json.dumps` writes by default; non-ASCII text through UTF-8 is not modelled.
- Cells.DateShape: `\d` is read as an ASCII digit; on a `str`, Python's `\d` also matches the other Unicode decimal digits, which the date field would accept too.
- RichText.PartsText: states the intended segments; the segments the code builds are the same only where no earlier line of the note repeats the last line's text (RichText.AsWrittenAgrees, RichText.UnrepeatedText), and differ otherwise (see Findings).
- RichText.FallbackText: proved only for notes in which no earlier line repeats the last line's text; otherwise the fallback text loses line breaks (RichText.RepeatedLineLosesBreak).
- Confluence.ReplaceFollowed: for the program's merge, proved only on pages where the version's pattern matches nothing but the version's own heading; a heading that differs from it only where the version has a `.` is replaced instead (see Findings).
- Confluence.ReplaceLast: the same condition as Confluence.ReplaceFollowed for the program's merge.
- Confluence.AppendedSectionSettles: the same condition for the program's second and third merge; without it the second merge can take over another version's section.
- Confluence.FollowedSectionStable: the same condition for the program's merge.
- Confluence.RepeatedMergeSettles: the same condition, on the twice-merged page, for the program's merges.
- Cells.WindowsRow, Cells.LinuxRow: pandas' conversion of the rows into a data frame is not modelled; each row is the list of its column values in order.
- `extract_remotelinks` printing its error, and the log lines of every function.

## Findings

| source | as written | input that shows it | evidently intended | confidence | as-written member | corrected member |
|---|---|---|---|---|---|---|
| rn_excel_generalas.py:337 | a line break is added after each line whose text differs from the text of the last line | the note `ok` over `ok` (two equal lines): no break is written, and the cell reads `okok` | a break after every line except the last one by position | not executed | RichText.RepeatedLineLosesBreak | RichText.PartsText |
| jira_rn.py:122-126 | `run` reports a successful page update after `update_confluence_page` returns, whatever happened | the GET of the page fails (for example an unknown page id): nothing is written, yet success is shown | success reported only when the PUT was accepted | not executed | Confluence.FailedGetReportedAsSuccess | Confluence.RunReportsUpdate |
| rn_excel_generalas_windows.py:249 | the look-ahead lists `Fejlesztés/javítás` followed directly by `:`, so the label `Fejlesztés/javítás leírása:` does not end a value | `Tesztelés: kész` then a line `Fejlesztés/javítás leírása: x`: the testing value takes in the description line | every one of the seven note labels ends the value before it | not executed | NoteFields.CaptureRunsIntoDescription | NoteFields.CaptureEndsAtLabel |
| jira_rn.py:257-262 | the escaped version is put into the pattern without `re.escape`, so each `.` matches any character | version `1.2` on the page `<h1>1x2</h1><h1>1.2</h1>`: the `1x2` heading and its section are replaced, and the `1.2` heading stays as well | the version's heading matched literally | not executed | Confluence.WildcardTakesOtherVersion | Confluence.LiteralKeepsOtherVersion |
