/**
  `format_version_info` of `rn_excel_generalas_windows.py`: the note laid out
  for the description column. Blank lines and the lines before the first
  field line are dropped; a field line becomes `<field>: <stripped rest>`
  and every later line is indented by two spaces under the field last seen.
*/
module NoteLayout {
  import opened Wrappers
  import opened Text
  import opened Notes
  import opened NoteFields

  /** One emitted line: a field line, or a continuation of the field before it. */
  datatype OutLine = Labelled(field: string, value: string) | Continued(text: string)

  function Render(o: OutLine): string {
    match o
    case Labelled(field, value) => field + ": " + value
    case Continued(text) => "  " + text
  }

  function RenderAll(os: seq<OutLine>): (r: seq<string>)
    ensures |r| == |os| && forall k :: 0 <= k < |os| ==> r[k] == Render(os[k])
  {
    seq(|os|, k requires 0 <= k < |os| => Render(os[k]))
  }

  /** The loop state: `current_field` and `formatted_lines`. */
  datatype Scan = Scan(current: Option<string>, out: seq<OutLine>)

  /** One turn of the loop on a raw line, with `labels` as the field labels. */
  function Step(labels: seq<string>, sc: Scan, raw: string): Scan {
    var line := Strip(raw);
    if line == "" then sc
    else match FirstLabel(labels, line, "")
      case Some(field) => Scan(Some(field), sc.out + [Labelled(field, Strip(line[|field| + 1..]))])
      case None => if sc.current.Some? then Scan(sc.current, sc.out + [Continued(line)]) else sc
  }

  /** The loop over a prefix of the lines. */
  function ScanLines(labels: seq<string>, lines: seq<string>): Scan {
    if lines == [] then Scan(None, [])
    else Step(labels, ScanLines(labels, lines[..|lines| - 1]), lines[|lines| - 1])
  }

  /** The note laid out with the given labels. */
  function LayoutWith(labels: seq<string>, text: string): string {
    if text == "" || text == Unfilled then text
    else Join(RenderAll(ScanLines(labels, Lines(text)).out), "\n")
  }

  /** The laid-out note. */
  function Layout(text: string): string {
    LayoutWith(NoteLabels, text)
  }

  /** `format_version_info`, whose field list is `NoteLabels`. */
  method FormatVersionInfo(text: string) returns (r: string)
    ensures r == Layout(text)
  {
    r := FormatWith(NoteLabels, text);
  }

  /** The body of `format_version_info` for a given field list. */
  method FormatWith(labels: seq<string>, text: string) returns (r: string)
    ensures r == LayoutWith(labels, text)
  {
    if text == "" || text == Unfilled {
      return text;
    }
    var lines := Split(text, "\n");
    var formattedLines: seq<string> := [];
    var currentField: Option<string> := None;
    ghost var out: seq<OutLine> := [];
    for i := 0 to |lines|
      invariant ScanLines(labels, lines[..i]) == Scan(currentField, out)
      invariant formattedLines == RenderAll(out)
    {
      ScanSnoc(labels, lines, i);
      ghost var next := Step(labels, Scan(currentField, out), lines[i]);
      var line := Strip(lines[i]);
      if line == "" {
        assert next == Scan(currentField, out);
        continue;
      }
      var j := FindField(labels, line);
      if j < |labels| {
        var field := labels[j];
        ghost var o := Labelled(field, Strip(line[|field| + 1..]));
        assert next == Scan(Some(field), out + [o]);
        RenderAllSnoc(out, o);
        currentField := Some(field);
        formattedLines := formattedLines + [field + ": " + Strip(line[|field| + 1..])];
        out := out + [o];
      } else if currentField.Some? {
        assert next == Scan(currentField, out + [Continued(line)]);
        RenderAllSnoc(out, Continued(line));
        formattedLines := formattedLines + ["  " + line];
        out := out + [Continued(line)];
      } else {
        assert next == Scan(currentField, out);
      }
    }
    assert lines[..|lines|] == lines;
    r := Join(formattedLines, "\n");
  }

  /** The inner `for field in fields` loop: the index of the first field the line opens with, or `|labels|`. */
  method FindField(labels: seq<string>, line: string) returns (j: nat)
    ensures j <= |labels|
    ensures FirstLabel(labels, line, "") == if j < |labels| then Some(labels[j]) else None
  {
    j := 0;
    while j < |labels| && !StartsWith(line, labels[j] + ":")
      invariant j <= |labels|
      invariant FirstLabel(labels, line, "") == FirstLabelFrom(labels, line, "", j)
    {
      j := j + 1;
    }
  }

  lemma ScanSnoc(labels: seq<string>, lines: seq<string>, i: nat)
    requires i < |lines|
    ensures ScanLines(labels, lines[..i + 1]) == Step(labels, ScanLines(labels, lines[..i]), lines[i])
  {
    assert lines[..i + 1][..i] == lines[..i];
  }

  lemma RenderAllSnoc(os: seq<OutLine>, o: OutLine)
    ensures RenderAll(os + [o]) == RenderAll(os) + [Render(o)]
  {
  }

  // ---------------------------------------------------------------------------
  // What the layout emits
  // ---------------------------------------------------------------------------

  /** How many lines are not blank once stripped. */
  function NonBlank(lines: seq<string>): nat {
    if lines == [] then 0
    else NonBlank(lines[..|lines| - 1]) + (if Strip(lines[|lines| - 1]) == "" then 0 else 1)
  }

  /** At most one output line per non-blank input line. */
  lemma {:induction false} ScanBound(labels: seq<string>, lines: seq<string>)
    ensures |ScanLines(labels, lines).out| <= NonBlank(lines)
  {
    if lines != [] {
      ScanBound(labels, lines[..|lines| - 1]);
    }
  }

  /**
    The shape of one emitted line: a field line holds a label and a stripped
    value; a continuation is a stripped, non-blank line that opens with no
    label; neither holds a line break.
  */
  predicate GoodLine(labels: seq<string>, o: OutLine) {
    match o
    case Labelled(field, value) => field in labels && IsStripped(value) && '\n' !in value
    case Continued(text) => text != "" && IsStripped(text) && '\n' !in text && FirstLabel(labels, text, "").None?
  }

  /** The shape of the emitted lines: a field line comes first, and every line is good. */
  predicate WellFormed(labels: seq<string>, os: seq<OutLine>) {
    && (os != [] ==> os[0].Labelled?)
    && forall k :: 0 <= k < |os| ==> GoodLine(labels, os[k])
  }

  /** The scan's state: a current label exactly when something was emitted, and well-formed output. */
  predicate ScanInvariant(labels: seq<string>, sc: Scan) {
    && WellFormed(labels, sc.out)
    && (sc.current.Some? <==> sc.out != [])
    && (sc.current.Some? ==> sc.current.value in labels)
  }

  lemma WellFormedAppend(labels: seq<string>, os: seq<OutLine>, o: OutLine)
    requires WellFormed(labels, os) && GoodLine(labels, o) && (os == [] ==> o.Labelled?)
    ensures WellFormed(labels, os + [o])
  {
    forall k | 0 <= k < |os| + 1 ensures GoodLine(labels, (os + [o])[k]) {
      if k < |os| {
        assert (os + [o])[k] == os[k];
      }
    }
  }

  /** One turn of the loop keeps the scan's invariant. */
  lemma StepKeepsInvariant(labels: seq<string>, sc: Scan, raw: string)
    requires ScanInvariant(labels, sc) && '\n' !in raw
    ensures ScanInvariant(labels, Step(labels, sc, raw))
  {
    var line := Strip(raw);
    StripKeepsOut(raw, '\n');
    if line == "" {
      assert Step(labels, sc, raw) == sc;
    } else {
      match FirstLabel(labels, line, "")
      case Some(field) =>
        var value := Strip(line[|field| + 1..]);
        StripKeepsOut(line[|field| + 1..], '\n');
        WellFormedAppend(labels, sc.out, Labelled(field, value));
        assert Step(labels, sc, raw) == Scan(Some(field), sc.out + [Labelled(field, value)]);
      case None =>
        if sc.current.Some? {
          WellFormedAppend(labels, sc.out, Continued(line));
          assert Step(labels, sc, raw) == Scan(sc.current, sc.out + [Continued(line)]);
        } else {
          assert Step(labels, sc, raw) == sc;
        }
    }
  }

  /** The scan emits well-formed lines. */
  lemma {:induction false} ScanWellFormed(labels: seq<string>, lines: seq<string>)
    requires forall k :: 0 <= k < |lines| ==> '\n' !in lines[k]
    ensures ScanInvariant(labels, ScanLines(labels, lines))
  {
    if lines != [] {
      ScanWellFormed(labels, lines[..|lines| - 1]);
      StepKeepsInvariant(labels, ScanLines(labels, lines[..|lines| - 1]), lines[|lines| - 1]);
    }
  }

  /** No rendered line contains a line break, so the joined text splits back into them. */
  lemma RenderedLines(labels: seq<string>, os: seq<OutLine>)
    requires GoodLabels(labels) && WellFormed(labels, os)
    ensures forall k :: 0 <= k < |os| ==> '\n' !in Render(os[k])
  {
    forall k | 0 <= k < |os| ensures '\n' !in Render(os[k]) {
      if os[k].Labelled? {
        var j :| 0 <= j < |labels| && labels[j] == os[k].field;
        assert GoodLabel(labels[j]);
      }
    }
  }

  /** `strip()` of a rendered field line only drops the space of an empty value. */
  lemma StripLabelLine(field: string, value: string)
    requires field != "" && IsStripped(field) && IsStripped(value)
    ensures Strip(field + ": " + value) == StrippedLabelLine(field, value)
  {
    var rendered := field + ": " + value;
    if value == "" {
      assert rendered == "" + (field + ":") + " ";
      StripPadding("", field + ":", " ");
    } else {
      assert rendered == "" + rendered + "";
      StripPadding("", rendered, "");
    }
  }

  /** The stripped form of a rendered field line. */
  function StrippedLabelLine(field: string, value: string): string {
    if value == "" then field + ":" else field + ": " + value
  }

  /** The value read back from a rendered field line. */
  lemma ValueOfLabelLine(field: string, value: string)
    requires IsStripped(value)
    ensures Strip(StrippedLabelLine(field, value)[|field| + 1..]) == value
  {
    if value != "" {
      assert StrippedLabelLine(field, value)[|field| + 1..] == " " + value + "";
      StripPadding(" ", value, "");
    }
  }

  lemma LabelLinePrefix(field: string, value: string)
    ensures StartsWith(StrippedLabelLine(field, value), "" + field + ":")
  {
    if value != "" {
      assert StrippedLabelLine(field, value) == ("" + field + ":") + (" " + value);
    }
  }

  /** A field line reads back as itself. */
  lemma StepLabelled(labels: seq<string>, sc: Scan, j: nat, value: string)
    requires GoodLabels(labels) && j < |labels| && IsStripped(value)
    ensures Step(labels, sc, Render(Labelled(labels[j], value)))
         == Scan(Some(labels[j]), sc.out + [Labelled(labels[j], value)])
  {
    var field := labels[j];
    assert GoodLabel(field);
    LabelLinePrefix(field, value);
    FirstLabelIsTheLabel(labels, StrippedLabelLine(field, value), "", j);
    StepOnLabelLine(labels, sc, field, value);
  }

  lemma StepOnLabelLine(labels: seq<string>, sc: Scan, field: string, value: string)
    requires field != "" && IsStripped(field) && IsStripped(value)
    requires FirstLabel(labels, StrippedLabelLine(field, value), "") == Some(field)
    ensures Step(labels, sc, Render(Labelled(field, value))) == Scan(Some(field), sc.out + [Labelled(field, value)])
  {
    var raw := Render(Labelled(field, value));
    var line := StrippedLabelLine(field, value);
    StripLabelLine(field, value);
    ValueOfLabelLine(field, value);
    StepOnField(labels, sc, raw, line, field, value);
  }

  /** A turn on a line whose stripped form opens with a label. */
  lemma StepOnField(labels: seq<string>, sc: Scan, raw: string, line: string, field: string, value: string)
    requires Strip(raw) == line && line != "" && FirstLabel(labels, line, "") == Some(field)
    requires |field| + 1 <= |line| && Strip(line[|field| + 1..]) == value
    ensures Step(labels, sc, raw) == Scan(Some(field), sc.out + [Labelled(field, value)])
  {
  }

  /**
    Once a field has been seen, a line that is not blank and opens with no
    label is emitted stripped, as a continuation of that field.
  */
  lemma StepContinued(labels: seq<string>, sc: Scan, raw: string, line: string)
    requires Strip(raw) == line && line != "" && FirstLabel(labels, line, "").None? && sc.current.Some?
    ensures Step(labels, sc, raw) == Scan(sc.current, sc.out + [Continued(line)])
  {
  }

  /** A rendered continuation line strips back to its text. */
  lemma StripContinued(text: string)
    requires IsStripped(text)
    ensures Strip(Render(Continued(text))) == text
  {
    assert "  " + text == "  " + text + "";
    StripPadding("  ", text, "");
  }

  /** A good line, rendered, reads back as itself once a field has been seen or when it is a field line. */
  lemma StepRendered(labels: seq<string>, sc: Scan, o: OutLine)
    requires GoodLabels(labels) && GoodLine(labels, o) && (o.Continued? ==> sc.current.Some?)
    ensures Step(labels, sc, Render(o)).out == sc.out + [o]
    ensures Step(labels, sc, Render(o)).current.Some?
  {
    match o
    case Labelled(field, value) =>
      var j :| 0 <= j < |labels| && labels[j] == field;
      StepLabelled(labels, sc, j, value);
    case Continued(text) =>
      StripContinued(text);
      StepContinued(labels, sc, Render(o), text);
  }

  lemma WellFormedInit(labels: seq<string>, os: seq<OutLine>)
    requires os != [] && WellFormed(labels, os)
    ensures WellFormed(labels, os[..|os| - 1]) && GoodLine(labels, os[|os| - 1])
    ensures os[|os| - 1].Continued? ==> |os| > 1
  {
  }

  lemma RenderAllInit(os: seq<OutLine>)
    requires os != []
    ensures RenderAll(os)[..|os| - 1] == RenderAll(os[..|os| - 1])
    ensures RenderAll(os)[|os| - 1] == Render(os[|os| - 1])
  {
  }

  /** Scanning the rendered lines again gives back the same lines. */
  lemma {:induction false} RescanRendered(labels: seq<string>, os: seq<OutLine>)
    requires GoodLabels(labels) && WellFormed(labels, os)
    ensures ScanLines(labels, RenderAll(os)).out == os
    ensures ScanLines(labels, RenderAll(os)).current.Some? <==> os != []
    decreases |os|
  {
    if os != [] {
      var init, last := os[..|os| - 1], os[|os| - 1];
      WellFormedInit(labels, os);
      RescanRendered(labels, init);
      FrontLast(os);
      RescanLast(labels, init, last);
    }
  }

  /** Scanning the rendering of one more line adds that line. */
  lemma RescanLast(labels: seq<string>, init: seq<OutLine>, last: OutLine)
    requires GoodLabels(labels) && GoodLine(labels, last)
    requires ScanLines(labels, RenderAll(init)).out == init
    requires last.Continued? ==> ScanLines(labels, RenderAll(init)).current.Some?
    ensures ScanLines(labels, RenderAll(init + [last])).out == init + [last]
    ensures ScanLines(labels, RenderAll(init + [last])).current.Some?
  {
    var rs := RenderAll(init);
    RenderAllSnoc(init, last);
    ScanSnoc(labels, rs + [Render(last)], |rs|);
    assert (rs + [Render(last)])[..|rs|] == rs;
    StepRendered(labels, ScanLines(labels, rs), last);
  }

  /** Laying out a laid-out note changes nothing. */
  lemma LayoutIdempotent(text: string)
    ensures Layout(Layout(text)) == Layout(text)
  {
    NoteLabelsGood();
    LayoutWithIdempotent(NoteLabels, text);
  }

  lemma LayoutWithIdempotent(labels: seq<string>, text: string)
    requires GoodLabels(labels)
    ensures LayoutWith(labels, LayoutWith(labels, text)) == LayoutWith(labels, text)
  {
    if text != "" && text != Unfilled {
      var lines := Lines(text);
      ScanWellFormed(labels, lines);
      var os := ScanLines(labels, lines).out;
      var rendered := RenderAll(os);
      RenderedLines(labels, os);
      if os != [] {
        var j :| 0 <= j < |labels| && labels[j] == os[0].field;
        assert GoodLabel(labels[j]);
        assert rendered[0] != [] && rendered[0][0] == os[0].field[0];
        JoinHead(rendered, "\n");
        assert LayoutWith(labels, text)[0] != Unfilled[0];
        LinesJoin(rendered);
        RescanRendered(labels, os);
      }
    }
  }

  /** The layout has no more lines than the note has non-blank lines. */
  lemma LayoutLineBound(text: string)
    requires text != "" && text != Unfilled
    ensures Layout(text) == Join(RenderAll(ScanLines(NoteLabels, Lines(text)).out), "\n")
    ensures |ScanLines(NoteLabels, Lines(text)).out| <= NonBlank(Lines(text))
    ensures ScanLines(NoteLabels, Lines(text)).out != [] ==> |Lines(Layout(text))| <= NonBlank(Lines(text))
  {
    var os := ScanLines(NoteLabels, Lines(text)).out;
    NoteLabelsGood();
    ScanBound(NoteLabels, Lines(text));
    ScanWellFormed(NoteLabels, Lines(text));
    if os != [] {
      RenderedLines(NoteLabels, os);
      LinesJoin(RenderAll(os));
    }
  }
}
