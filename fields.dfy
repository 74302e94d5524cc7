/**
  `extract_field_content` of `rn_excel_generalas_windows.py`: the value of
  one labelled field of a release note, found by two case-insensitive
  patterns tried in turn.

  Both patterns anchor at the first case-insensitive occurrence of
  `<label>:` (the leftmost place `re.search` can start; the rest of each
  pattern always succeeds). The first captures lazily up to the first
  following stop position, a place where one of the stop labels followed by
  `:` starts, or to the end of the text; the second captures up to the next
  line break or the end. A capture is taken when, stripped, it is neither
  empty nor `-`.
*/
module NoteFields {
  import opened Wrappers
  import opened Text
  import opened Notes

  /** The seven labels of a release note, in the order the scripts list them. */
  const NoteLabels: seq<string> := [
    "Fejlesztés/javítás leírása",
    "Érintett felhasználói kör",
    "Fejlesztés/javítás eredménye",
    "Új elemi jog",
    "Új menüpont",
    "Új eljárástípus",
    "Tesztelés"
  ]

  /**
    The alternatives of the first pattern's look-ahead as written: the
    description label is cut short to `Fejlesztés/javítás`, which a `:` must
    follow directly.
  */
  const StopLabelsAsWritten: seq<string> := [
    "Fejlesztés/javítás",
    "Érintett felhasználói kör",
    "Fejlesztés/javítás eredménye",
    "Új elemi jog",
    "Új menüpont",
    "Új eljárástípus",
    "Tesztelés"
  ]

  /**
    What the line-based formatters rely on in a label: it is a non-empty
    stripped line without `:`, `*` or a line break, and it does not open
    like the sentinel.
  */
  predicate GoodLabel(l: string) {
    l != [] && IsStripped(l) && ':' !in l && '\n' !in l && '*' !in l && l[0] != Unfilled[0]
  }

  predicate GoodLabels(labels: seq<string>) {
    forall j :: 0 <= j < |labels| ==> GoodLabel(labels[j])
  }

  lemma NoteLabelsGood()
    ensures GoodLabels(NoteLabels)
  {
    DescriptionLabelGood();
    AudienceLabelGood();
    ResultLabelGood();
    RightLabelGood();
    MenuLabelGood();
    ProcedureLabelGood();
    TestingLabelGood();
  }

  lemma DescriptionLabelGood() ensures GoodLabel(NoteLabels[0]) { GoodLabelText(NoteLabels[0]); }
  lemma AudienceLabelGood() ensures GoodLabel(NoteLabels[1]) { GoodLabelText(NoteLabels[1]); }
  lemma ResultLabelGood() ensures GoodLabel(NoteLabels[2]) { GoodLabelText(NoteLabels[2]); }
  lemma RightLabelGood() ensures GoodLabel(NoteLabels[3]) { GoodLabelText(NoteLabels[3]); }
  lemma MenuLabelGood() ensures GoodLabel(NoteLabels[4]) { GoodLabelText(NoteLabels[4]); }
  lemma ProcedureLabelGood() ensures GoodLabel(NoteLabels[5]) { GoodLabelText(NoteLabels[5]); }
  lemma TestingLabelGood() ensures GoodLabel(NoteLabels[6]) { GoodLabelText(NoteLabels[6]); }

  /** A label without `:`, line break or `*`, opening with neither a space nor `K` and not ending in a space, is good. */
  lemma GoodLabelText(l: string)
    requires |l| >= 1 && l[0] != 'K' && !IsSpace(l[0]) && !IsSpace(l[|l| - 1])
    requires forall i :: 0 <= i < |l| ==> l[i] != ':' && l[i] != '\n' && l[i] != '*'
    ensures GoodLabel(l)
  {
  }

  /** Two labels without `:` that both start a line, each followed by `:`, are the same label. */
  lemma LabelPrefixUnique(line: string, pre: string, a: string, b: string)
    requires ':' !in a && ':' !in b
    requires StartsWith(line, pre + a + ":") && StartsWith(line, pre + b + ":")
    ensures a == b
  {
    var x, y := pre + a + ":", pre + b + ":";
    assert line[|pre| + |a|] == x[|pre| + |a|] == ':';
    assert line[|pre| + |b|] == y[|pre| + |b|] == ':';
    assert forall i :: 0 <= i < |a| ==> line[|pre| + i] == x[|pre| + i] == a[i];
    assert forall i :: 0 <= i < |b| ==> line[|pre| + i] == y[|pre| + i] == b[i];
    assert |a| == |b|;
    assert a == x[|pre|..|pre| + |a|] == line[|pre|..|pre| + |a|];
    assert b == y[|pre|..|pre| + |b|] == line[|pre|..|pre| + |b|];
  }

  /**
    The first label `L` of `labels`, trying them in order from the `j`-th,
    such that the line starts with `pre + L + ":"`.
  */
  function FirstLabelFrom(labels: seq<string>, line: string, pre: string, j: nat): (r: Option<string>)
    requires j <= |labels|
    ensures r.Some? ==> r.value in labels && StartsWith(line, pre + r.value + ":")
    ensures r.None? ==> forall k :: j <= k < |labels| ==> !StartsWith(line, pre + labels[k] + ":")
    decreases |labels| - j
  {
    if j == |labels| then None
    else if StartsWith(line, pre + labels[j] + ":") then Some(labels[j])
    else FirstLabelFrom(labels, line, pre, j + 1)
  }

  /** The label a line opens with, behind the prefix `pre`, if any. */
  function FirstLabel(labels: seq<string>, line: string, pre: string): Option<string> {
    FirstLabelFrom(labels, line, pre, 0)
  }

  /** Whatever label a line opens with is the one found: the order of the list never matters. */
  lemma FirstLabelIsTheLabel(labels: seq<string>, line: string, pre: string, j: nat)
    requires GoodLabels(labels)
    requires j < |labels| && StartsWith(line, pre + labels[j] + ":")
    ensures FirstLabel(labels, line, pre) == Some(labels[j])
  {
    var r := FirstLabel(labels, line, pre);
    assert r.Some?;
    var i :| 0 <= i < |labels| && labels[i] == r.value;
    assert GoodLabel(labels[i]) && GoodLabel(labels[j]);
    LabelPrefixUnique(line, pre, r.value, labels[j]);
  }

  /** One of `stops`, followed by `:`, starts at `e` (case-insensitively). */
  predicate IsStop(stops: seq<string>, text: string, e: nat)
    decreases |stops|
  {
    stops != [] && (StartsAtIgnoreCase(text, e, stops[0] + ":") || IsStop(stops[1..], text, e))
  }

  lemma {:induction false} IsStopMember(stops: seq<string>, text: string, e: nat)
    ensures IsStop(stops, text, e) <==> exists j :: 0 <= j < |stops| && StartsAtIgnoreCase(text, e, stops[j] + ":")
    decreases |stops|
  {
    if stops != [] {
      IsStopMember(stops[1..], text, e);
      if IsStop(stops[1..], text, e) {
        var j :| 0 <= j < |stops| - 1 && StartsAtIgnoreCase(text, e, stops[1..][j] + ":");
        assert stops[j + 1] == stops[1..][j];
      }
      if exists j :: 0 <= j < |stops| && StartsAtIgnoreCase(text, e, stops[j] + ":") {
        var j :| 0 <= j < |stops| && StartsAtIgnoreCase(text, e, stops[j] + ":");
        if j > 0 {
          assert stops[1..][j - 1] == stops[j];
        }
      }
    }
  }

  /** Where the lazy capture of the first pattern ends: the first stop at or after `from`, else the end. */
  function NextStop(stops: seq<string>, text: string, from: nat): (e: nat)
    requires from <= |text|
    ensures from <= e <= |text|
    ensures e == |text| || IsStop(stops, text, e)
    ensures forall k :: from <= k < e ==> !IsStop(stops, text, k)
    decreases |text| - from
  {
    if from == |text| || IsStop(stops, text, from) then from else NextStop(stops, text, from + 1)
  }

  /** Where the capture of the second pattern ends: the first line break at or after `from`, else the end. */
  function NextNewline(text: string, from: nat): (e: nat)
    requires from <= |text|
    ensures from <= e <= |text|
    ensures e == |text| || text[e] == '\n'
    ensures forall k :: from <= k < e ==> text[k] != '\n'
    decreases |text| - from
  {
    if from == |text| || text[from] == '\n' then from else NextNewline(text, from + 1)
  }

  /** Where the value of `field` begins: just after its first case-insensitive `<field>:`. */
  function FieldStart(text: string, field: string): (r: Option<nat>)
    ensures r.Some? ==> |field| + 1 <= r.value <= |text|
    ensures r.Some? ==> StartsAtIgnoreCase(text, r.value - |field| - 1, field + ":")
    ensures r.Some? ==> forall j :: 0 <= j < r.value - |field| - 1 ==> !StartsAtIgnoreCase(text, j, field + ":")
    ensures r.None? <==> !Occurs(Lower(text), Lower(field + ":"))
  {
    FindFromOccurs(Lower(text), Lower(field + ":"));
    match FindFrom(Lower(text), Lower(field + ":"), 0)
    case None => None
    case Some(p) => Some(p + |field| + 1)
  }

  /** The two-pattern search with a given look-ahead list. */
  function Extract(stops: seq<string>, text: string, field: string): (r: string)
    ensures text == "" || text == Unfilled ==> r == ""
    ensures !Occurs(Lower(text), Lower(field + ":")) ==> r == ""
    ensures r != "" ==> IsStripped(r) && r != "-" && Occurs(text, r)
  {
    if text == "" || text == Unfilled then ""
    else match FieldStart(text, field)
      case None => ""
      case Some(start) =>
        var first := Strip(text[start..NextStop(stops, text, start)]);
        var second := Strip(text[start..NextNewline(text, start)]);
        StripOccurs(text[start..NextStop(stops, text, start)]);
        StripOccurs(text[start..NextNewline(text, start)]);
        OccursInSlice(text, start, NextStop(stops, text, start), first);
        OccursInSlice(text, start, NextNewline(text, start), second);
        if first != "" && first != "-" then first
        else if second != "" && second != "-" then second
        else ""
  }

  /** The search as the code is written. */
  function ExtractFieldContentAsWritten(text: string, field: string): string {
    Extract(StopLabelsAsWritten, text, field)
  }

  /** The search with every note label ending a value, as the label list evidently intends. */
  function ExtractFieldContent(text: string, field: string): string {
    Extract(NoteLabels, text, field)
  }

  /**
    The value of a field is exactly the stripped text between its first
    label and the next stop `e` (or the end), whenever that text is neither
    blank nor `-`. With `NoteLabels` as the stops this is
    `ExtractFieldContent`.
  */
  lemma LabelledValue(stops: seq<string>, text: string, field: string, start: nat, e: nat)
    requires FieldStart(text, field) == Some(start)
    requires start <= e <= |text|
    requires forall k :: start <= k < e ==> !IsStop(stops, text, k)
    requires e == |text| || IsStop(stops, text, e)
    requires Strip(text[start..e]) != "" && Strip(text[start..e]) != "-"
    ensures Extract(stops, text, field) == Strip(text[start..e])
  {
    StopAt(stops, text, start, e);
    LabelledTextIsFilled(text, field);
    ExtractFirst(stops, text, field, start);
  }

  /** When the first capture is accepted, it is the result. */
  lemma ExtractFirst(stops: seq<string>, text: string, field: string, start: nat)
    requires text != "" && text != Unfilled && FieldStart(text, field) == Some(start)
    requires var first := Strip(text[start..NextStop(stops, text, start)]); first != "" && first != "-"
    ensures Extract(stops, text, field) == Strip(text[start..NextStop(stops, text, start)])
  {
  }

  /** A text holding a `<label>:` is never the sentinel, which has no `:`. */
  lemma LabelledTextIsFilled(text: string, field: string)
    requires FieldStart(text, field).Some?
    ensures text != "" && text != Unfilled
  {
    var p := FieldStart(text, field).value - |field| - 1;
    var pat := Lower(field + ":");
    assert pat[|field|] == ':' by {
      assert (field + ":")[|field|] == ':';
    }
    assert Lower(text)[p..p + |pat|] == pat;
    assert Lower(text)[p + |field|] == ':';
    assert text[p + |field|] == ':';
    UnfilledHasNoColon();
  }

  lemma UnfilledHasNoColon()
    ensures ':' !in Unfilled
  {
  }

  /** The first stop is the one with no stop before it. */
  lemma StopAt(stops: seq<string>, text: string, from: nat, e: nat)
    requires from <= e <= |text|
    requires forall k :: from <= k < e ==> !IsStop(stops, text, k)
    requires e == |text| || IsStop(stops, text, e)
    ensures NextStop(stops, text, from) == e
  {
  }

  /**
    As written, a `Fejlesztés/javítás leírása:` label is not a stop position,
    so the value of a field written before the description runs on into it.
  */
  lemma DescriptionLabelNotAStop(text: string, d: nat)
    requires StartsAtIgnoreCase(text, d, NoteLabels[0] + ":")
    ensures !IsStop(StopLabelsAsWritten, text, d)
  {
    var desc := Lower(NoteLabels[0] + ":");
    assert Lower(text)[d..d + |desc|] == desc;
    forall j | 0 <= j < |StopLabelsAsWritten|
      ensures !StartsAtIgnoreCase(text, d, StopLabelsAsWritten[j] + ":")
    {
      var stop := Lower(StopLabelsAsWritten[j] + ":");
      var k := if j == 0 then 18 else if j == 2 then 19 else 0;
      assert k < |stop| && k < |desc| && stop[k] != desc[k];
      assert Lower(text)[d + k] == desc[k];
    }
    IsStopMember(StopLabelsAsWritten, text, d);
  }

  /**
    As written: when the description label follows a field's value with no
    stop in between, the first capture for that field takes the description
    label in.
  */
  lemma CaptureRunsIntoDescription(text: string, field: string, start: nat, d: nat)
    requires FieldStart(text, field) == Some(start)
    requires start <= d && d + |NoteLabels[0]| + 1 <= |text|
    requires StartsAtIgnoreCase(text, d, NoteLabels[0] + ":")
    requires forall k :: start <= k < d ==> !IsStop(StopLabelsAsWritten, text, k)
    ensures NextStop(StopLabelsAsWritten, text, start) > d
  {
    DescriptionLabelNotAStop(text, d);
    var e := NextStop(StopLabelsAsWritten, text, start);
    assert e >= d;
    assert e != d;
  }

  /** Intended: every note label ends the value of the field before it. */
  lemma CaptureEndsAtLabel(text: string, field: string, start: nat, d: nat, j: nat)
    requires FieldStart(text, field) == Some(start)
    requires start <= d && j < |NoteLabels| && StartsAtIgnoreCase(text, d, NoteLabels[j] + ":")
    ensures NextStop(NoteLabels, text, start) <= d
  {
    IsStopMember(NoteLabels, text, d);
  }
}
