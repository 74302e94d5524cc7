/**
  `format_version_info` of `rn_excel_generalas.py`: every line of the note is
  stripped and kept; a line opening with `- <label>:` gets its label marked
  bold with `**`, in the form `- **<label>:**<text after the first colon>`.
*/
module NoteMarking {
  import opened Wrappers
  import opened Text
  import opened Notes
  import opened NoteFields

  /** What a keyword line opens with, before the label. */
  const Bullet: string := "- "

  /** The marked form of a keyword line whose label is `kw` and whose text after the first colon is `rest`. */
  function Marked(kw: string, rest: string): string {
    Bullet + "**" + kw + ":" + "**" + rest
  }

  /** One line of the output. */
  function MarkLine(labels: seq<string>, raw: string): string {
    var line := Strip(raw);
    match FirstLabel(labels, line, Bullet)
    case Some(kw) => Marked(kw, line[|kw| + 3..])
    case None => line
  }

  function MarkAll(labels: seq<string>, lines: seq<string>): (r: seq<string>)
    ensures |r| == |lines| && forall k :: 0 <= k < |lines| ==> r[k] == MarkLine(labels, lines[k])
  {
    Map(line => MarkLine(labels, line), lines)
  }

  /** The note marked with the given labels. */
  function MarkWith(labels: seq<string>, text: string): string {
    if text == "" || text == Unfilled then text
    else Join(MarkAll(labels, Lines(text)), "\n")
  }

  /** The marked note. */
  function Mark(text: string): string {
    MarkWith(NoteLabels, text)
  }

  /** `format_version_info`, whose keyword list is `NoteLabels`. */
  method FormatVersionInfo(text: string) returns (r: string)
    ensures r == Mark(text)
  {
    r := MarkText(NoteLabels, text);
  }

  /** The body of `format_version_info` for a given keyword list. */
  method MarkText(labels: seq<string>, text: string) returns (r: string)
    ensures r == MarkWith(labels, text)
  {
    if text == "" || text == Unfilled {
      return text;
    }
    var lines := Split(text, "\n");
    var formattedLines: seq<string> := [];
    for i := 0 to |lines|
      invariant formattedLines == MarkAll(labels, lines[..i])
    {
      MarkAllSnoc(labels, lines, i);
      var line := Strip(lines[i]);
      var j := FindKeyword(labels, line);
      if j < |labels| {
        var keyword := labels[j];
        assert Marked(keyword, line[|keyword| + 3..]) == MarkLine(labels, lines[i]);
        formattedLines := formattedLines + [Marked(keyword, line[|keyword| + 3..])];
      } else {
        assert line == MarkLine(labels, lines[i]);
        formattedLines := formattedLines + [line];
      }
    }
    assert lines[..|lines|] == lines;
    r := Join(formattedLines, "\n");
  }

  lemma MarkAllSnoc(labels: seq<string>, lines: seq<string>, i: nat)
    requires i < |lines|
    ensures MarkAll(labels, lines[..i + 1]) == MarkAll(labels, lines[..i]) + [MarkLine(labels, lines[i])]
  {
    MapSnoc(line => MarkLine(labels, line), lines, i);
  }

  /** The inner `for keyword in keywords` loop: the first keyword whose bullet opens the line, or `|labels|`. */
  method FindKeyword(labels: seq<string>, line: string) returns (j: nat)
    ensures j <= |labels|
    ensures FirstLabel(labels, line, Bullet) == if j < |labels| then Some(labels[j]) else None
  {
    j := 0;
    while j < |labels|
          && !(StartsWith(line, Bullet + labels[j] + ":") || line == Bullet + labels[j] + ":")
      invariant j <= |labels|
      invariant FirstLabel(labels, line, Bullet) == FirstLabelFrom(labels, line, Bullet, j)
    {
      j := j + 1;
    }
  }

  // ---------------------------------------------------------------------------
  // What the marking keeps
  // ---------------------------------------------------------------------------

  /** No output line holds a line break. */
  lemma MarkLineNoBreak(labels: seq<string>, raw: string)
    requires GoodLabels(labels) && '\n' !in raw
    ensures '\n' !in MarkLine(labels, raw)
  {
    var line := Strip(raw);
    StripKeepsOut(raw, '\n');
    var found := FirstLabel(labels, line, Bullet);
    if found.Some? {
      var kw := found.value;
      var j :| 0 <= j < |labels| && labels[j] == kw;
      assert GoodLabel(labels[j]);
      var rest := line[|kw| + 3..];
      assert '\n' !in rest by {
        assert forall i :: 0 <= i < |rest| ==> rest[i] == line[|kw| + 3 + i];
      }
      MarkedNoBreak(kw, rest);
    }
  }

  lemma MarkedNoBreak(kw: string, rest: string)
    requires '\n' !in kw && '\n' !in rest
    ensures '\n' !in Marked(kw, rest)
  {
  }

  /**
    Outside the empty note and the sentinel, the note keeps its number of
    lines, and each output line is the marked form of the input line at the
    same position.
  */
  lemma MarkKeepsLines(labels: seq<string>, text: string)
    requires GoodLabels(labels) && text != "" && text != Unfilled
    ensures Lines(MarkWith(labels, text)) == MarkAll(labels, Lines(text))
    ensures |Lines(MarkWith(labels, text))| == |Lines(text)|
  {
    var lines := Lines(text);
    forall k | 0 <= k < |lines| ensures '\n' !in MarkAll(labels, lines)[k] {
      MarkLineNoBreak(labels, lines[k]);
    }
    LinesJoin(MarkAll(labels, lines));
  }

  /** A line opening with the bullet and any keyword is marked with that keyword, whatever the list order. */
  lemma KeywordLineMarked(labels: seq<string>, raw: string, j: nat)
    requires GoodLabels(labels) && j < |labels|
    requires StartsWith(Strip(raw), Bullet + labels[j] + ":")
    ensures MarkLine(labels, raw) == Marked(labels[j], Strip(raw)[|labels[j]| + 3..])
  {
    FirstLabelIsTheLabel(labels, Strip(raw), Bullet, j);
  }

  /** A marked line is stripped. */
  lemma MarkedStripped(kw: string, rest: string)
    requires rest == [] || !IsSpace(rest[|rest| - 1])
    ensures IsStripped(Marked(kw, rest))
  {
    var m := Marked(kw, rest);
    if rest != [] {
      assert m[|m| - 1] == rest[|rest| - 1];
    }
  }

  /** A marked line opens with `- *`, which no label follows. */
  lemma MarkedHasNoKeyword(labels: seq<string>, kw: string, rest: string)
    requires GoodLabels(labels)
    ensures FirstLabel(labels, Marked(kw, rest), Bullet).None?
  {
    var m := Marked(kw, rest);
    forall k | 0 <= k < |labels| ensures !StartsWith(m, Bullet + labels[k] + ":") {
      assert GoodLabel(labels[k]);
      var p := Bullet + labels[k] + ":";
      assert p[2] == labels[k][0] != '*';
      assert m[2] == '*';
    }
  }

  /** Marking a line twice is marking it once. */
  lemma MarkLineIdempotent(labels: seq<string>, raw: string)
    requires GoodLabels(labels)
    ensures MarkLine(labels, MarkLine(labels, raw)) == MarkLine(labels, raw)
  {
    var line := Strip(raw);
    match FirstLabel(labels, line, Bullet)
    case Some(kw) =>
      var rest := line[|kw| + 3..];
      if rest != [] {
        assert rest[|rest| - 1] == line[|line| - 1];
      }
      MarkedStripped(kw, rest);
      MarkedHasNoKeyword(labels, kw, rest);
    case None =>
  }

  /** Marking a marked note changes nothing. */
  lemma MarkIdempotent(text: string)
    ensures Mark(Mark(text)) == Mark(text)
  {
    NoteLabelsGood();
    MarkWithIdempotent(NoteLabels, text);
  }

  lemma MarkWithIdempotent(labels: seq<string>, text: string)
    requires GoodLabels(labels)
    ensures MarkWith(labels, MarkWith(labels, text)) == MarkWith(labels, text)
  {
    var m := MarkWith(labels, text);
    if text != "" && text != Unfilled && m != "" && m != Unfilled {
      var ms := MarkAll(labels, Lines(text));
      MarkKeepsLines(labels, text);
      forall k | 0 <= k < |ms| ensures MarkLine(labels, ms[k]) == ms[k] {
        MarkLineIdempotent(labels, Lines(text)[k]);
      }
      assert MarkAll(labels, ms) == ms;
    }
  }
}
