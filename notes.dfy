/**
  The "unfilled" rule for the release-note custom field (`customfield_13240`),
  applied per issue by `fetch_jira_issues` in all three scripts.
*/
module Notes {
  import opened Wrappers
  import opened Text

  /** The sentinel stored for a note nobody filled in. */
  const Unfilled: string := "KITÖLTENDŐ!!!"

  /** The filler glyphs a reporter types instead of a note: hyphen, en dash, underscore, em dash. */
  const FillerGlyphs: seq<string> := ["-", "–", "_", "—"]

  /** The note is absent, a filler glyph, or at most three characters once stripped. */
  predicate IsUnfilled(note: Option<string>) {
    note.None? || Strip(note.value) in FillerGlyphs || |Strip(note.value)| <= 3
  }

  /**
    The `version_info` stored in a record: the sentinel for an unfilled note,
    otherwise the stripped note.
  */
  function NormalizeNote(note: Option<string>): (r: string)
    ensures IsUnfilled(note) ==> r == Unfilled
    ensures !IsUnfilled(note) ==> r == Strip(note.value)
    ensures IsStripped(r) && |r| >= 4
  {
    if IsUnfilled(note) then Unfilled else Strip(note.value)
  }

  /** Every filler glyph is one character long, so the length test alone decides the rule. */
  lemma GlyphTestSubsumed(note: Option<string>)
    ensures IsUnfilled(note) <==> note.None? || |Strip(note.value)| <= 3
  {
  }
}
