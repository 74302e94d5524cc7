/**
  The note cell of `rn_excel_generalas.py`'s `generate_excel`: the marked note
  cut into rich-text segments. A line holding `**` is split on it, the parts
  at even positions plain and those at odd positions bold, with empty parts
  skipped; a line without `**` is one plain segment, even when empty; a plain
  line break separates the lines. If writing the rich string fails, the cell
  gets the concatenated segment texts instead.
*/
module RichText {
  import opened Wrappers
  import opened Text
  import opened Notes
  import opened NoteMarking

  /** One `{'text': ..., 'format': ...}` entry: `bold` is the bold format, otherwise the comment format. */
  datatype Segment = Segment(text: string, bold: bool)

  const Marker: string := "**"

  /** The plain segment between two lines. */
  const Break: Segment := Segment("\n", false)

  /** The segments of the first `|parts|` parts of a split line, empty parts skipped. */
  function PartSegments(parts: seq<string>): seq<Segment> {
    if parts == [] then []
    else
      var k := |parts| - 1;
      PartSegments(parts[..k]) + (if parts[k] == "" then [] else [Segment(parts[k], k % 2 == 1)])
  }

  /** The segments of one line. */
  function LineSegments(line: string): seq<Segment> {
    if Occurs(line, Marker) then PartSegments(Split(line, Marker)) else [Segment(line, false)]
  }

  /** The segments of the note's lines, a break after every line but the last. */
  function Parts(lines: seq<string>): seq<Segment>
    decreases |lines|
  {
    if lines == [] then []
    else if |lines| == 1 then LineSegments(lines[0])
    else LineSegments(lines[0]) + [Break] + Parts(lines[1..])
  }

  /**
    The segments as the code builds them: a break follows every line whose
    text differs from the text of the last line (`line != lines[-1]`).
  */
  function PartsAsWritten(lines: seq<string>, last: string): seq<Segment>
    decreases |lines|
  {
    if lines == [] then []
    else LineSegments(lines[0]) + (if lines[0] != last then [Break] else []) + PartsAsWritten(lines[1..], last)
  }

  /** The fallback text: the segment texts joined with nothing between them. */
  function PlainText(segs: seq<Segment>): string {
    if segs == [] then "" else PlainText(segs[..|segs| - 1]) + segs[|segs| - 1].text
  }

  /** A line with its `**` markers taken out. */
  function Unmarked(line: string): string {
    Concat(Split(line, Marker))
  }

  /** How the note cell is written. */
  datatype NoteCell = RichCell(parts: seq<Segment>) | PlainCell(text: string)

  /** The segments of a note's lines as the code builds them, comparing each line with the last line's text. */
  function NoteParts(lines: seq<string>): seq<Segment>
    requires lines != []
  {
    PartsAsWritten(lines, lines[|lines| - 1])
  }

  /** No line but the last has the last line's text. */
  predicate LastUnrepeated(lines: seq<string>) {
    lines != [] && forall k :: 0 <= k < |lines| - 1 ==> lines[k] != lines[|lines| - 1]
  }

  /**
    The note column: a rich string for a filled note, the concatenated
    segment texts when writing the rich string fails (`richFails`), the
    value itself for the empty note and the sentinel.
  */
  function NoteCellOf(value: string, richFails: bool): NoteCell {
    if value != "" && value != Unfilled then CellOf(Lines(value), richFails) else PlainCell(value)
  }

  /** The cell of a filled note with these lines. */
  function CellOf(lines: seq<string>, richFails: bool): NoteCell
    requires lines != []
  {
    var parts := NoteParts(lines);
    if richFails then PlainCell(PlainText(parts)) else RichCell(parts)
  }

  /**
    The segment loop over the note's lines as written: the break follows a
    line whose text differs from the last line's. Where no earlier line
    repeats the last, that is a break after every line but the last.
  */
  method RichTextParts(value: string) returns (richTextParts: seq<Segment>)
    ensures richTextParts == NoteParts(Lines(value))
    ensures LastUnrepeated(Lines(value)) ==> richTextParts == Parts(Lines(value))
  {
    richTextParts := SegmentLines(Lines(value));
  }

  /** The loop body over the lines `str(cell_value).split('\n')`. */
  method SegmentLines(lines: seq<string>) returns (richTextParts: seq<Segment>)
    requires lines != []
    ensures richTextParts == NoteParts(lines)
    ensures LastUnrepeated(lines) ==> richTextParts == Parts(lines)
  {
    var last := lines[|lines| - 1];
    richTextParts := [];
    for i := 0 to |lines|
      invariant richTextParts + PartsAsWritten(lines[i..], last) == PartsAsWritten(lines, last)
    {
      ghost var before := richTextParts;
      var line := lines[i];
      var segs := SegmentLine(line);
      richTextParts := richTextParts + segs;
      if line != last {
        richTextParts := richTextParts + [Break];
      }
      PartsAsWrittenStep(before, lines, i, last, richTextParts);
    }
    assert lines[|lines|..] == [];
    AsWrittenAgreesIf(lines);
  }

  /** One turn of the segment loop. */
  lemma PartsAsWrittenStep(acc: seq<Segment>, lines: seq<string>, i: nat, last: string, next: seq<Segment>)
    requires i < |lines|
    requires next == acc + LineSegments(lines[i]) + (if lines[i] != last then [Break] else [])
    ensures next + PartsAsWritten(lines[i + 1..], last) == acc + PartsAsWritten(lines[i..], last)
  {
    PartsAsWrittenUnfold(lines, i, last);
    var b := if lines[i] != last then [Break] else [];
    AppendAssoc(acc, LineSegments(lines[i]) + b, PartsAsWritten(lines[i + 1..], last));
    AppendAssoc(acc, LineSegments(lines[i]), b);
  }

  lemma AsWrittenAgreesIf(lines: seq<string>)
    requires lines != []
    ensures LastUnrepeated(lines) ==> NoteParts(lines) == Parts(lines)
  {
    if LastUnrepeated(lines) {
      AsWrittenAgrees(lines, lines[|lines| - 1]);
    }
  }

  lemma PartsAsWrittenUnfold(lines: seq<string>, i: nat, last: string)
    requires i < |lines|
    ensures PartsAsWritten(lines[i..], last)
         == LineSegments(lines[i]) + (if lines[i] != last then [Break] else []) + PartsAsWritten(lines[i + 1..], last)
  {
    assert lines[i..][1..] == lines[i + 1..];
  }

  /** One line of the segment loop. */
  method SegmentLine(line: string) returns (segs: seq<Segment>)
    ensures segs == LineSegments(line)
  {
    if Occurs(line, Marker) {
      var parts := Split(line, Marker);
      segs := [];
      for i := 0 to |parts|
        invariant segs == PartSegments(parts[..i])
      {
        assert parts[..i + 1][..i] == parts[..i];
        var part := parts[i];
        if i % 2 == 0 {
          if part != "" {
            segs := segs + [Segment(part, false)];
          }
        } else {
          if part != "" {
            segs := segs + [Segment(part, true)];
          }
        }
      }
      assert parts[..|parts|] == parts;
    } else {
      segs := [Segment(line, false)];
    }
  }

  // ---------------------------------------------------------------------------
  // What the segments spell
  // ---------------------------------------------------------------------------

  lemma PlainTextAppend(a: seq<Segment>, b: seq<Segment>)
    ensures PlainText(a + b) == PlainText(a) + PlainText(b)
    decreases |b|
  {
    if b == [] {
      assert a + b == a;
    } else {
      assert (a + b)[..|a + b| - 1] == a + b[..|b| - 1];
      PlainTextAppend(a, b[..|b| - 1]);
    }
  }

  /** Skipping empty parts loses no text: the segments of the parts spell the parts. */
  lemma {:induction false} PartSegmentsText(parts: seq<string>)
    ensures PlainText(PartSegments(parts)) == Concat(parts)
    decreases |parts|
  {
    if parts != [] {
      var k := |parts| - 1;
      PartSegmentsText(parts[..k]);
      PlainTextAppend(PartSegments(parts[..k]), if parts[k] == "" then [] else [Segment(parts[k], k % 2 == 1)]);
    }
  }

  /** The segments of a line spell the line without its markers; a line without markers, the line itself. */
  lemma LineText(line: string)
    ensures PlainText(LineSegments(line)) == Unmarked(line)
    ensures !Occurs(line, Marker) ==> Unmarked(line) == line
  {
    if Occurs(line, Marker) {
      PartSegmentsText(Split(line, Marker));
    } else {
      FindFromOccurs(line, Marker);
      assert Split(line, Marker) == [line];
      assert Concat([line]) == Concat([]) + line;
    }
  }

  /** The lines with their markers taken out. */
  function UnmarkedLines(lines: seq<string>): (r: seq<string>)
    ensures |r| == |lines| && forall k :: 0 <= k < |lines| ==> r[k] == Unmarked(lines[k])
  {
    seq(|lines|, k requires 0 <= k < |lines| => Unmarked(lines[k]))
  }

  /** The segments spell the note line by line, markers taken out, with the line breaks in place. */
  lemma {:induction false} PartsText(lines: seq<string>)
    ensures PlainText(Parts(lines)) == Join(UnmarkedLines(lines), "\n")
    decreases |lines|
  {
    if |lines| == 1 {
      LineText(lines[0]);
    } else if |lines| > 1 {
      LineText(lines[0]);
      PartsText(lines[1..]);
      PlainTextAppend(LineSegments(lines[0]) + [Break], Parts(lines[1..]));
      PlainTextAppend(LineSegments(lines[0]), [Break]);
      assert PlainText([Break]) == PlainText([]) + "\n";
      assert UnmarkedLines(lines)[1..] == UnmarkedLines(lines[1..]);
    }
  }

  /** No line holds a marker: the unmarked lines are the lines. */
  lemma UnmarkedLinesSame(lines: seq<string>)
    requires forall k :: 0 <= k < |lines| ==> !Occurs(lines[k], Marker)
    ensures UnmarkedLines(lines) == lines
  {
    forall k | 0 <= k < |lines| ensures Unmarked(lines[k]) == lines[k] {
      LineText(lines[k]);
    }
  }

  /**
    Where no earlier line repeats the last, the fallback cell holds the note
    with its markers taken out and its line breaks kept, and a note without
    markers is written unchanged.
  */
  lemma FallbackText(value: string)
    requires value != "" && value != Unfilled
    ensures LastUnrepeated(Lines(value))
        ==> NoteCellOf(value, true) == PlainCell(Join(UnmarkedLines(Lines(value)), "\n"))
    ensures LastUnrepeated(Lines(value)) && !Occurs(value, Marker) ==> NoteCellOf(value, true) == PlainCell(value)
  {
    UnrepeatedCell(Lines(value));
    NoMarkerLines(value);
  }

  /** The fallback cell of some lines, where no earlier line repeats the last. */
  lemma UnrepeatedCell(lines: seq<string>)
    requires lines != []
    ensures LastUnrepeated(lines) ==> CellOf(lines, true) == PlainCell(Join(UnmarkedLines(lines), "\n"))
  {
    if LastUnrepeated(lines) {
      UnrepeatedText(lines);
    }
  }

  /** Where no earlier line repeats the last, the segments as written spell the unmarked lines. */
  lemma UnrepeatedText(lines: seq<string>)
    requires LastUnrepeated(lines)
    ensures PlainText(PartsAsWritten(lines, lines[|lines| - 1])) == Join(UnmarkedLines(lines), "\n")
  {
    AsWrittenAgrees(lines, lines[|lines| - 1]);
    PartsText(lines);
  }

  /** The lines of a text without markers are their own unmarked lines. */
  lemma NoMarkerLines(value: string)
    ensures !Occurs(value, Marker) ==> Join(UnmarkedLines(Lines(value)), "\n") == value
  {
    if !Occurs(value, Marker) {
      forall k | 0 <= k < |Lines(value)| ensures !Occurs(Lines(value)[k], Marker) {
        NoMarkerInLine(value, k);
      }
      UnmarkedLinesSame(Lines(value));
    }
  }

  /** A line of a text without markers has none either. */
  lemma NoMarkerInLine(value: string, k: nat)
    requires !Occurs(value, Marker) && k < |Lines(value)|
    ensures !Occurs(Lines(value)[k], Marker)
  {
    var ls := Lines(value);
    if Occurs(ls[k], Marker) {
      var i :| 0 <= i <= |ls[k]| && StartsAt(ls[k], i, Marker);
      JoinPartOccurs(ls, "\n", k, i);
      assert false;
    }
  }

  /** Where a part starts inside a join. */
  lemma {:induction false} JoinPartOccurs(ls: seq<string>, sep: string, k: nat, i: nat)
    requires k < |ls| && StartsAt(ls[k], i, Marker)
    ensures Occurs(Join(ls, sep), Marker)
    decreases |ls|
  {
    assert Occurs(ls[k], Marker);
    if k == 0 {
      if |ls| > 1 {
        assert Join(ls, sep) == ls[0] + (sep + Join(ls[1..], sep));
        OccursLeft(ls[0], sep + Join(ls[1..], sep), Marker);
      }
    } else {
      JoinPartOccurs(ls[1..], sep, k - 1, i);
      assert Join(ls, sep) == (ls[0] + sep) + Join(ls[1..], sep);
      OccursRight(ls[0] + sep, Join(ls[1..], sep), Marker);
    }
  }

  // ---------------------------------------------------------------------------
  // The break as written
  // ---------------------------------------------------------------------------

  /** Where no line other than the last has the last line's text, the code places the breaks as intended. */
  lemma {:induction false} AsWrittenAgrees(lines: seq<string>, last: string)
    requires lines != [] && lines[|lines| - 1] == last
    requires forall k :: 0 <= k < |lines| - 1 ==> lines[k] != last
    ensures PartsAsWritten(lines, last) == Parts(lines)
    decreases |lines|
  {
    if |lines| == 1 {
      assert PartsAsWritten(lines[1..], last) == [];
    } else {
      AsWrittenAgrees(lines[1..], last);
    }
  }

  /**
    As written, a note whose two lines read the same loses the break between
    them: `ok` over `ok` is written as `okok`.
  */
  lemma RepeatedLineLosesBreak()
    ensures PlainText(PartsAsWritten(Lines("ok\nok"), "ok")) == "okok"
    ensures PlainText(Parts(Lines("ok\nok"))) == "ok\nok"
  {
    var ls := ["ok", "ok"];
    LinesJoin(ls);
    assert Join(ls, "\n") == "ok\nok";
    SplitNone("ok", Marker);
    FindFromOccurs("ok", Marker);
    assert LineSegments("ok") == [Segment("ok", false)];
    assert PartsAsWritten(ls, "ok") == [Segment("ok", false), Segment("ok", false)];
    assert PlainText([Segment("ok", false), Segment("ok", false)]) == "okok";
    PartsText(ls);
    LineText("ok");
  }

  // ---------------------------------------------------------------------------
  // Marked lines
  // ---------------------------------------------------------------------------

  /** A line marked by `format_version_info` is written as plain bullet, bold label and colon, plain rest. */
  lemma MarkedSegments(kw: string, rest: string)
    requires '*' !in kw && '*' !in rest
    ensures LineSegments(Marked(kw, rest))
         == [Segment("- ", false), Segment(kw + ":", true)] + (if rest == "" then [] else [Segment(rest, false)])
  {
    var line := Marked(kw, rest);
    MarkedSplit(kw, rest);
    assert StartsAt(line, 2, Marker) by {
      assert line[2..4] == Marker;
    }
    assert Occurs(line, Marker);
    ThreeParts("- ", kw + ":", rest);
  }

  lemma MarkedSplit(kw: string, rest: string)
    requires '*' !in kw && '*' !in rest
    ensures Split(Marked(kw, rest), Marker) == ["- ", kw + ":", rest]
  {
    AppendAssoc("- " + Marker, kw + ":" + Marker, rest);
    AppendAssoc("- " + Marker, kw + ":", Marker);
    AppendAssoc("- " + Marker, kw, ":");
    SplitFirst("- ", Marker, (kw + ":") + Marker + rest);
    SplitFirst(kw + ":", Marker, rest);
    SplitNone(rest, Marker);
  }

  lemma ThreeParts(a: string, b: string, c: string)
    requires a != "" && b != ""
    ensures PartSegments([a, b, c]) == [Segment(a, false), Segment(b, true)] + (if c == "" then [] else [Segment(c, false)])
  {
    assert [a][..0] == [];
    assert PartSegments([a]) == [Segment(a, false)];
    assert [a, b][..1] == [a];
    assert PartSegments([a, b]) == [Segment(a, false), Segment(b, true)];
    assert [a, b, c][..2] == [a, b];
  }
}
