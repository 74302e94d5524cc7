/**
  `update_confluence_page` and `run` of `jira_rn.py`: the release-notes table
  of one version is merged into the storage body of a Confluence page, under
  the heading `<h1>escaped version</h1>`. An existing section of the version
  is replaced up to the next `<h1>` or the end of the page; otherwise the
  section is appended. The page is then written back with its version number
  increased by one.

  The replacement is `re.sub` with the pattern
  `(<h1>V</h1>)(.*?)(<h1>|$)` under DOTALL, where `V` is the escaped version,
  and the template `header \n table \n \3`.
*/
module Confluence {
  import opened Wrappers
  import opened Text
  import opened Query
  import opened Records
  import opened Html

  /** What the lazy group of the pattern stops at. */
  const Open: string := "<h1>"

  /** `version_header`. */
  function Header(version: string): (r: string)
    ensures StartsWith(r, Open) && |r| == |Escape(version)| + 9
  {
    Open + Escape(version) + "</h1>"
  }

  /** What the version's section reads after a merge: the heading, the table, a line break each. */
  function Section(version: string, table: string): string {
    Header(version) + "\n" + table + "\n"
  }

  // ---------------------------------------------------------------------------
  // The regular-expression replacement
  // ---------------------------------------------------------------------------

  /**
    The first group of the pattern matches at `i`. With `wildcard`, a `.` of
    the pattern stands for any character (DOTALL), as in a pattern built from
    an unescaped version; without it every character stands for itself.
  */
  predicate MatchesAt(s: string, i: nat, pat: string, wildcard: bool) {
    i + |pat| <= |s| && forall k :: 0 <= k < |pat| ==> s[i + k] == pat[k] || (wildcard && pat[k] == '.')
  }

  /** Without the wildcard, matching is `StartsAt`. */
  lemma LiteralMatch(s: string, i: nat, pat: string)
    ensures MatchesAt(s, i, pat, false) <==> StartsAt(s, i, pat)
  {
    if StartsAt(s, i, pat) {
      forall k | 0 <= k < |pat| ensures s[i + k] == pat[k] {
        assert s[i..i + |pat|][k] == s[i + k];
      }
    }
    if MatchesAt(s, i, pat, false) {
      assert s[i..i + |pat|] == pat;
    }
  }

  /**
    Where the lazy `(.*?)` stops: the first position from `from` at which
    `<h1>` starts or `$` holds.
  */
  function SpanEnd(s: string, from: nat): (e: nat)
    requires from <= |s|
    ensures from <= e <= |s|
    ensures StartsAt(s, e, Open) || EndAnchor(s, e)
    ensures forall k :: from <= k < e ==> !StartsAt(s, k, Open) && !EndAnchor(s, k)
    decreases |s| - from
  {
    if StartsAt(s, from, Open) || EndAnchor(s, from) then from else SpanEnd(s, from + 1)
  }

  lemma SpanEndAt(s: string, from: nat, e: nat)
    requires from <= e <= |s|
    requires forall k :: from <= k < e ==> !StartsAt(s, k, Open) && !EndAnchor(s, k)
    requires StartsAt(s, e, Open) || EndAnchor(s, e)
    ensures SpanEnd(s, from) == e
  {
  }

  /**
    `re.sub` of the pattern over `s[i..]`: the leftmost match is replaced by
    `repl` followed by the third group, and the search resumes after the
    match; text outside the matches is copied.
  */
  function Sub(s: string, pat: string, repl: string, wildcard: bool, i: nat): string
    requires pat != [] && i <= |s|
    decreases |s| - i
  {
    if i == |s| then ""
    else if MatchesAt(s, i, pat, wildcard) then
      var e := SpanEnd(s, i + |pat|);
      var g := if StartsAt(s, e, Open) then Open else "";
      repl + g + Sub(s, pat, repl, wildcard, e + |g|)
    else [s[i]] + Sub(s, pat, repl, wildcard, i + 1)
  }

  /** A stretch without a match is copied unchanged. */
  lemma {:induction false} SubCopy(s: string, pat: string, repl: string, wildcard: bool, i: nat, j: nat)
    requires pat != [] && i <= j <= |s|
    requires forall k :: i <= k < j ==> !MatchesAt(s, k, pat, wildcard)
    ensures Sub(s, pat, repl, wildcard, i) == s[i..j] + Sub(s, pat, repl, wildcard, j)
    decreases j - i
  {
    if i < j {
      SubNoMatch(s, pat, repl, wildcard, i);
      SubCopy(s, pat, repl, wildcard, i + 1, j);
      SliceCons(s, i, j, Sub(s, pat, repl, wildcard, j));
    }
  }

  lemma SliceCons(s: string, i: nat, j: nat, t: string)
    requires i < j <= |s|
    ensures [s[i]] + (s[i + 1..j] + t) == s[i..j] + t
  {
    assert s[i..j] == [s[i]] + s[i + 1..j];
  }

  /** No match from `i` on: the rest is copied. */
  lemma SubRest(s: string, pat: string, repl: string, wildcard: bool, i: nat)
    requires pat != [] && i <= |s|
    requires forall k :: i <= k < |s| ==> !MatchesAt(s, k, pat, wildcard)
    ensures Sub(s, pat, repl, wildcard, i) == s[i..]
  {
    SubCopy(s, pat, repl, wildcard, i, |s|);
    assert s[i..|s|] == s[i..];
  }

  /** No match at `i`: its character is copied. */
  lemma SubNoMatch(s: string, pat: string, repl: string, wildcard: bool, i: nat)
    requires pat != [] && i < |s| && !MatchesAt(s, i, pat, wildcard)
    ensures Sub(s, pat, repl, wildcard, i) == [s[i]] + Sub(s, pat, repl, wildcard, i + 1)
  {
  }

  /** A pattern without `.` matches the same with or without the wildcard. */
  lemma MatchNoDot(s: string, i: nat, pat: string)
    requires '.' !in pat
    ensures MatchesAt(s, i, pat, true) <==> MatchesAt(s, i, pat, false)
  {
    if MatchesAt(s, i, pat, true) {
      forall k | 0 <= k < |pat| ensures s[i + k] == pat[k] {
        assert pat[k] in pat;
      }
    }
  }

  /** A literal match is a match with the wildcard too. */
  lemma LiteralIsWild(s: string, i: nat, pat: string)
    ensures MatchesAt(s, i, pat, false) ==> MatchesAt(s, i, pat, true)
  {
  }

  /** Where every match with the wildcard is a literal one, the wildcard makes no difference. */
  lemma {:induction false} SubAgrees(s: string, pat: string, repl: string, i: nat)
    requires pat != [] && i <= |s|
    requires forall k :: i <= k < |s| && MatchesAt(s, k, pat, true) ==> MatchesAt(s, k, pat, false)
    ensures Sub(s, pat, repl, true, i) == Sub(s, pat, repl, false, i)
    decreases |s| - i
  {
    if i < |s| {
      LiteralIsWild(s, i, pat);
      if MatchesAt(s, i, pat, false) {
        var e := SpanEnd(s, i + |pat|);
        var g := if StartsAt(s, e, Open) then Open else "";
        SubMatchStep(s, pat, repl, true, i, e);
        SubMatchStep(s, pat, repl, false, i, e);
        SubAgrees(s, pat, repl, e + |g|);
      } else {
        SubNoMatch(s, pat, repl, true, i);
        SubNoMatch(s, pat, repl, false, i);
        SubAgrees(s, pat, repl, i + 1);
      }
    }
  }

  /** For a pattern without `.`, the wildcard makes no difference. */
  lemma SubSameMatches(s: string, pat: string, repl: string, i: nat)
    requires pat != [] && i <= |s| && '.' !in pat
    ensures Sub(s, pat, repl, true, i) == Sub(s, pat, repl, false, i)
  {
    forall k | i <= k < |s| && MatchesAt(s, k, pat, true) ensures MatchesAt(s, k, pat, false) {
      MatchNoDot(s, k, pat);
    }
    SubAgrees(s, pat, repl, i);
  }

  // ---------------------------------------------------------------------------
  // The new page body
  // ---------------------------------------------------------------------------

  /** The new body: `re.sub` when the heading is in the body, the section appended otherwise. */
  function MergeWith(body: string, version: string, table: string, wildcard: bool): (r: string)
    ensures !Occurs(body, Header(version)) ==> r == body + Section(version, table)
  {
    var h := Header(version);
    if Occurs(body, h) then Sub(body, h, Section(version, table), wildcard, 0)
    else body + Section(version, table)
  }

  /** `update_confluence_page` as written: the escaped version goes into the pattern as it is. */
  function MergeAsWritten(body: string, version: string, table: string): string {
    MergeWith(body, version, table, true)
  }

  /** The new body with the version matched literally, as with `re.escape`. */
  function Merge(body: string, version: string, table: string): string {
    MergeWith(body, version, table, false)
  }

  /**
    The pattern as written matches the page only where the version's own
    heading stands: no other text of the heading's length differs from it
    only where the escaped version has a `.`.
  */
  predicate OwnHeadingsOnly(s: string, version: string) {
    forall i :: 0 <= i < |s| && MatchesAt(s, i, Header(version), true) ==> StartsAt(s, i, Header(version))
  }

  /** On such a page the program's merge is the literal merge. */
  lemma AsWrittenAgrees(body: string, version: string, table: string)
    requires OwnHeadingsOnly(body, version)
    ensures MergeAsWritten(body, version, table) == Merge(body, version, table)
  {
    var h := Header(version);
    if Occurs(body, h) {
      forall k | 0 <= k < |body| && MatchesAt(body, k, h, true) ensures MatchesAt(body, k, h, false) {
        LiteralMatch(body, k, h);
      }
      SubAgrees(body, h, Section(version, table), 0);
    }
  }

  /** Every page qualifies when the escaped version holds no `.`. */
  lemma OwnHeadingsWithoutDot(s: string, version: string)
    requires '.' !in Escape(version)
    ensures OwnHeadingsOnly(s, version)
  {
    var h := Header(version);
    HeaderNoDot(version);
    forall i | 0 <= i < |s| && MatchesAt(s, i, h, true) ensures StartsAt(s, i, h) {
      MatchNoDot(s, i, h);
      LiteralMatch(s, i, h);
    }
  }

  /** What holds of a page holds of its beginning. */
  lemma OwnHeadingsPrefix(s: string, n: nat, version: string)
    requires n <= |s| && OwnHeadingsOnly(s, version)
    ensures OwnHeadingsOnly(s[..n], version)
  {
    var h, p := Header(version), s[..n];
    forall i | 0 <= i < |p| && MatchesAt(p, i, h, true) ensures StartsAt(p, i, h) {
      forall k | 0 <= k < |h| ensures s[i + k] == h[k] || h[k] == '.' {
        assert p[i + k] == s[i + k];
      }
      assert MatchesAt(s, i, h, true);
      assert p[i..i + |h|] == s[i..i + |h|];
    }
  }

  /** The two agree whenever the escaped version holds no `.`. */
  lemma AsWrittenAgreesWithoutDot(body: string, version: string, table: string)
    requires '.' !in Escape(version)
    ensures MergeAsWritten(body, version, table) == Merge(body, version, table)
  {
    OwnHeadingsWithoutDot(body, version);
    AsWrittenAgrees(body, version, table);
  }

  lemma HeaderNoDot(version: string)
    requires '.' !in Escape(version)
    ensures '.' !in Header(version)
  {
    assert Header(version) == (Open + Escape(version)) + "</h1>";
  }

  /** Inside the heading, only its first `<` opens a `<h`. */
  lemma HeaderOpensOnce(version: string)
    ensures var h := Header(version);
      forall j :: 0 < j < |h| && h[j] == '<' ==> j + 1 < |h| && h[j + 1] != 'h'
  {
    var h, e := Header(version), Escape(version);
    forall j | 0 < j < |h| ensures h[j] == '<' ==> j == 4 + |e| {
      if 4 <= j < 4 + |e| {
        assert h[j] == e[j - 4];
      }
    }
  }

  /**
    A heading that is not in `x` does not start in `x` either when a text
    opening with `<h1>` follows it.
  */
  lemma FirstHeaderAt(x: string, z: string, version: string)
    requires !Occurs(x, Header(version)) && StartsWith(z, Open)
    ensures forall i :: 0 <= i < |x| ==> !MatchesAt(x + z, i, Header(version), false)
  {
    var h, s := Header(version), x + z;
    HeaderOpensOnce(version);
    forall i | 0 <= i < |x| ensures !MatchesAt(s, i, h, false) {
      LiteralMatch(s, i, h);
      NotBeforeOpen(x, z, h, i);
    }
  }

  /**
    A text in which only the first `<` can open a `<h` does not start at `i`
    in `x` when it is not in `x` and `<h` follows `x`.
  */
  lemma NotBeforeOpen(x: string, z: string, h: string, i: nat)
    requires i < |x| && !Occurs(x, h) && StartsWith(z, Open)
    requires forall j :: 0 < j < |h| && h[j] == '<' ==> j + 1 < |h| && h[j + 1] != 'h'
    ensures !StartsAt(x + z, i, h)
  {
    var s := x + z;
    if i + |h| <= |x| {
      assert !StartsAt(x, i, h);
      assert s[i..i + |h|] == x[i..i + |h|];
    } else if i + |h| <= |s| {
      var j := |x| - i;
      assert s[|x|] == z[0] == '<' && s[|x| + 1] == z[1] == 'h';
      assert s[i..i + |h|][j] == s[|x|] && (j + 1 < |h| ==> s[i..i + |h|][j + 1] == s[|x| + 1]);
    }
  }

  /** No match starts in a suffix that holds no heading. */
  lemma NoMatchInTail(s: string, t: nat, version: string)
    requires t <= |s| && !Occurs(s[t..], Header(version))
    ensures forall k :: t <= k <= |s| ==> !MatchesAt(s, k, Header(version), false)
  {
    var h := Header(version);
    forall k | t <= k <= |s| ensures !MatchesAt(s, k, h, false) {
      LiteralMatch(s, k, h);
      StartsAtSlice(s, t, |s|, k - t, h);
      assert !StartsAt(s[t..|s|], k - t, h) by { assert s[t..|s|] == s[t..]; }
    }
  }

  /** No `<h1>` starts inside `m`, wherever `m` sits. */
  lemma NoOpenInside(s: string, lo: nat, m: string)
    requires lo + |m| <= |s| && s[lo..lo + |m|] == m && NoHeadingOpen(m)
    ensures forall k :: lo <= k < lo + |m| ==> !StartsAt(s, k, Open)
  {
    forall k | lo <= k < lo + |m| ensures !StartsAt(s, k, Open) {
      assert s[k] == m[k - lo];
      if s[k] == '<' {
        assert s[k + 1] == m[k - lo + 1];
        if k + 4 <= |s| {
          assert s[k..k + 4][1] == s[k + 1];
        }
      }
    }
  }

  /**
    One match, at the end of the text `x` in which none starts: the text
    before it is copied, the match runs up to where the lazy group stops, and
    what follows the match is copied when no match starts in it.
  */
  lemma SubOnce(s: string, h: string, repl: string, x: nat, e: nat, g: string)
    requires h != [] && x + |h| <= e <= |s| && StartsAt(s, x, h)
    requires forall i :: 0 <= i < x ==> !MatchesAt(s, i, h, false)
    requires forall k :: x + |h| <= k < e ==> !StartsAt(s, k, Open) && !EndAnchor(s, k)
    requires (StartsAt(s, e, Open) && g == Open) || (!StartsAt(s, e, Open) && EndAnchor(s, e) && g == "")
    requires forall k :: e + |g| <= k <= |s| ==> !MatchesAt(s, k, h, false)
    ensures Sub(s, h, repl, false, 0) == s[..x] + repl + g + s[e + |g|..]
  {
    SubCopy(s, h, repl, false, 0, x);
    SubFromMatch(s, h, repl, x, e, g);
    assert s[..x] == s[0..x];
    AppendAssoc(s[..x], repl + g, s[e + |g|..]);
    AppendAssoc(s[..x], repl, g);
  }

  lemma SubFromMatch(s: string, h: string, repl: string, x: nat, e: nat, g: string)
    requires h != [] && x + |h| <= e <= |s| && StartsAt(s, x, h)
    requires forall k :: x + |h| <= k < e ==> !StartsAt(s, k, Open) && !EndAnchor(s, k)
    requires (StartsAt(s, e, Open) && g == Open) || (!StartsAt(s, e, Open) && EndAnchor(s, e) && g == "")
    requires forall k :: e + |g| <= k <= |s| ==> !MatchesAt(s, k, h, false)
    ensures Sub(s, h, repl, false, x) == repl + g + s[e + |g|..]
  {
    LiteralMatch(s, x, h);
    SpanEndAt(s, x + |h|, e);
    SubMatchStep(s, h, repl, false, x, e);
    SubRest(s, h, repl, false, e + |g|);
  }

  /** A match at `i` is replaced, and the search resumes after the group that stopped it. */
  lemma SubMatchStep(s: string, h: string, repl: string, wildcard: bool, i: nat, e: nat)
    requires h != [] && MatchesAt(s, i, h, wildcard) && SpanEnd(s, i + |h|) == e
    ensures var g := if StartsAt(s, e, Open) then Open else "";
      Sub(s, h, repl, wildcard, i) == repl + g + Sub(s, h, repl, wildcard, e + |g|)
  {
  }

  /** The facts about the text around the heading that `SubOnce` needs. */
  lemma AroundHeader(x: string, version: string, m: string, rest: string)
    requires !Occurs(x, Header(version)) && NoHeadingOpen(m)
    ensures var s := x + Header(version) + m + rest;
      && StartsAt(s, |x|, Header(version))
      && (forall i :: 0 <= i < |x| ==> !MatchesAt(s, i, Header(version), false))
      && (forall k :: |x| + |Header(version)| <= k < |x| + |Header(version)| + |m| ==> !StartsAt(s, k, Open))
  {
    var h := Header(version);
    var s := x + h + m + rest;
    assert s[|x|..|x| + |h|] == h;
    assert (h + m + rest)[..4] == h[..4];
    assert s == x + (h + m + rest);
    FirstHeaderAt(x, h + m + rest, version);
    assert s[|x| + |h|..|x| + |h| + |m|] == m;
    NoOpenInside(s, |x| + |h|, m);
  }

  /**
    A section followed by another `<h1>` is replaced: the text before it and
    the heading that follows it, with everything after, stay as they were.
  */
  lemma ReplaceFollowed(x: string, version: string, m: string, y: string, table: string)
    requires !Occurs(x, Header(version)) && !Occurs(y, Header(version)) && NoHeadingOpen(m)
    ensures Merge(x + Header(version) + m + Open + y, version, table) == x + Section(version, table) + Open + y
    ensures OwnHeadingsOnly(x + Header(version) + m + Open + y, version)
        ==> MergeAsWritten(x + Header(version) + m + Open + y, version, table) == x + Section(version, table) + Open + y
  {
    ReplaceFollowedLiteral(x, version, m, y, table);
    if OwnHeadingsOnly(x + Header(version) + m + Open + y, version) {
      AsWrittenAgrees(x + Header(version) + m + Open + y, version, table);
    }
  }

  lemma ReplaceFollowedLiteral(x: string, version: string, m: string, y: string, table: string)
    requires !Occurs(x, Header(version)) && !Occurs(y, Header(version)) && NoHeadingOpen(m)
    ensures Merge(x + Header(version) + m + Open + y, version, table) == x + Section(version, table) + Open + y
  {
    var h, repl := Header(version), Section(version, table);
    var s := x + h + m + Open + y;
    var e := |x| + |h| + |m|;
    AroundHeader(x, version, m, Open + y);
    assert s == x + h + m + (Open + y);
    assert s[e..e + 4] == Open;
    assert s[e + 4..] == y;
    NoMatchInTail(s, e + 4, version);
    SubOnce(s, h, repl, |x|, e, Open);
    assert s[..|x|] == x;
  }

  /**
    The last section of the page is replaced up to the end; a final line
    break of the old section is kept after the new one, because `$` also
    matches just before it.
  */
  lemma ReplaceLast(x: string, version: string, m: string, table: string)
    requires !Occurs(x, Header(version)) && NoHeadingOpen(m)
    ensures Merge(x + Header(version) + m, version, table)
         == x + Section(version, table) + (if m != [] && m[|m| - 1] == '\n' then "\n" else "")
    ensures OwnHeadingsOnly(x + Header(version) + m, version) ==>
      MergeAsWritten(x + Header(version) + m, version, table)
        == x + Section(version, table) + (if m != [] && m[|m| - 1] == '\n' then "\n" else "")
  {
    if m != [] && m[|m| - 1] == '\n' {
      ReplaceLastBreak(x, version, m, table);
    } else {
      ReplaceLastPlain(x, version, m, table);
    }
    if OwnHeadingsOnly(x + Header(version) + m, version) {
      AsWrittenAgrees(x + Header(version) + m, version, table);
    }
  }

  /** The last section ends in a line break: `$` matches before it. */
  lemma ReplaceLastBreak(x: string, version: string, m: string, table: string)
    requires !Occurs(x, Header(version)) && NoHeadingOpen(m) && m != [] && m[|m| - 1] == '\n'
    ensures Merge(x + Header(version) + m, version, table) == x + Section(version, table) + "\n"
  {
    var h, repl := Header(version), Section(version, table);
    var s := x + h + m;
    AroundHeader(x, version, m, "");
    assert s == x + h + m + "";
    assert s[..|x|] == x && s[|s| - 1] == '\n';
    MergeFound(s, version, table, |x|);
    LastMatchBreak(s, h, repl, |x|);
  }

  /** The last section does not end in a line break: the match runs to the end. */
  lemma ReplaceLastPlain(x: string, version: string, m: string, table: string)
    requires !Occurs(x, Header(version)) && NoHeadingOpen(m) && !(m != [] && m[|m| - 1] == '\n')
    ensures Merge(x + Header(version) + m, version, table) == x + Section(version, table)
  {
    var h, repl := Header(version), Section(version, table);
    var s := x + h + m;
    AroundHeader(x, version, m, "");
    assert s == x + h + m + "";
    assert s[..|x|] == x;
    assert s[|s| - 1] != '\n' by {
      if m == [] {
        HeaderLast(version);
        assert s[|s| - 1] == h[|h| - 1];
      } else {
        assert s[|s| - 1] == m[|m| - 1];
      }
    }
    MergeFound(s, version, table, |x|);
    LastMatchPlain(s, h, repl, |x|);
  }

  /** A page on which the heading starts somewhere is merged by the substitution. */
  lemma MergeFound(s: string, version: string, table: string, x: nat)
    requires StartsAt(s, x, Header(version))
    ensures Merge(s, version, table) == Sub(s, Header(version), Section(version, table), false, 0)
  {
  }

  /** The only match, with nothing but a final line break after its section. */
  lemma LastMatchBreak(s: string, h: string, repl: string, x: nat)
    requires |h| > 1 && x + |h| < |s| && StartsAt(s, x, h) && s[|s| - 1] == '\n'
    requires forall i :: 0 <= i < x ==> !MatchesAt(s, i, h, false)
    requires forall k :: x + |h| <= k < x + |h| + (|s| - x - |h|) ==> !StartsAt(s, k, Open)
    ensures Sub(s, h, repl, false, 0) == s[..x] + repl + "\n"
  {
    assert s[|s| - 1..] == "\n";
    SubOnce(s, h, repl, x, |s| - 1, "");
  }

  /** The only match, running to the end of a text that does not end in a line break. */
  lemma LastMatchPlain(s: string, h: string, repl: string, x: nat)
    requires h != [] && x + |h| <= |s| && StartsAt(s, x, h) && s[|s| - 1] != '\n'
    requires forall i :: 0 <= i < x ==> !MatchesAt(s, i, h, false)
    requires forall k :: x + |h| <= k < x + |h| + (|s| - x - |h|) ==> !StartsAt(s, k, Open)
    ensures Sub(s, h, repl, false, 0) == s[..x] + repl
  {
    assert s[|s|..] == "";
    SubOnce(s, h, repl, x, |s|, "");
  }

  lemma HeaderLast(version: string)
    ensures Header(version)[|Header(version)| - 1] == '>'
  {
    var e := Escape(version);
    assert Header(version) == (Open + e) + "</h1>";
  }

  /**
    A version not yet on the page is appended; merging the same table again
    adds one line break after it, because `$` matches before the final one;
    from then on the page no longer changes. The program's merge does the
    same where its pattern matches the page only at the version's heading.
  */
  lemma AppendedSectionSettles(body: string, version: string, table: string)
    requires !Occurs(body, Header(version)) && NoHeadingOpen(table)
    ensures Merge(body, version, table) == body + Section(version, table)
    ensures Merge(body + Section(version, table), version, table) == body + Section(version, table) + "\n"
    ensures Merge(body + Section(version, table) + "\n", version, table) == body + Section(version, table) + "\n"
    ensures MergeAsWritten(body, version, table) == body + Section(version, table)
    ensures OwnHeadingsOnly(body + Section(version, table) + "\n", version) ==>
      && MergeAsWritten(body + Section(version, table), version, table) == body + Section(version, table) + "\n"
      && MergeAsWritten(body + Section(version, table) + "\n", version, table) == body + Section(version, table) + "\n"
  {
    AppendedLiteral(body, version, table);
    var once := body + Section(version, table);
    if OwnHeadingsOnly(once + "\n", version) {
      assert (once + "\n")[..|once|] == once;
      OwnHeadingsPrefix(once + "\n", |once|, version);
      AsWrittenAgrees(once, version, table);
      AsWrittenAgrees(once + "\n", version, table);
    }
  }

  lemma AppendedLiteral(body: string, version: string, table: string)
    requires !Occurs(body, Header(version)) && NoHeadingOpen(table)
    ensures Merge(body, version, table) == body + Section(version, table)
    ensures Merge(body + Section(version, table), version, table) == body + Section(version, table) + "\n"
    ensures Merge(body + Section(version, table) + "\n", version, table) == body + Section(version, table) + "\n"
  {
    var h, m := Header(version), "\n" + table + "\n";
    NoHeadingOpenAppend("\n", table);
    NoHeadingOpenAppend("\n" + table, "\n");
    NoHeadingOpenAppend(m, "\n");
    assert body + Section(version, table) == body + h + m;
    ReplaceLastBreak(body, version, m, table);
    assert body + Section(version, table) + "\n" == body + h + (m + "\n");
    ReplaceLastBreak(body, version, m + "\n", table);
  }

  /** A section followed by another heading is left as it is by merging the same table again. */
  lemma FollowedSectionStable(x: string, version: string, y: string, table: string)
    requires !Occurs(x, Header(version)) && !Occurs(y, Header(version)) && NoHeadingOpen(table)
    ensures var page := x + Section(version, table) + Open + y;
      && Merge(page, version, table) == page
      && (OwnHeadingsOnly(page, version) ==> MergeAsWritten(page, version, table) == page)
  {
    var h, m := Header(version), "\n" + table + "\n";
    NoHeadingOpenAppend("\n", table);
    NoHeadingOpenAppend("\n" + table, "\n");
    assert x + Section(version, table) + Open + y == x + h + m + Open + y;
    ReplaceFollowedLiteral(x, version, m, y, table);
    if OwnHeadingsOnly(x + Section(version, table) + Open + y, version) {
      AsWrittenAgrees(x + Section(version, table) + Open + y, version, table);
    }
  }

  /** A `.` of the pattern lets any character through. */
  lemma WildcardDot(u: string, c: char, v: string, rest: string)
    ensures MatchesAt(u + [c] + v + rest, 0, u + "." + v, true)
  {
    var s, p := u + [c] + v + rest, u + "." + v;
    forall k | 0 <= k < |p| ensures s[k] == p[k] || p[k] == '.' {
      if k < |u| {
        assert s[k] == u[k] == p[k];
      } else if k > |u| {
        assert s[k] == v[k - |u| - 1] == p[k];
      }
    }
  }

  /** Two texts that differ only where the second has a `.`: the pattern the second makes matches the first. */
  lemma OneCharApart(u: string, c: char, w: string)
    ensures var o, h := u + [c] + w, u + "." + w;
      && |o| == |h| && (c != '.' ==> o != h)
      && StartsAt(o + h, |o|, h) && MatchesAt(o + h, 0, h, true)
  {
    var o, h := u + [c] + w, u + "." + w;
    assert o[|u|] == c && h[|u|] == '.';
    assert (o + h)[|o|..] == h;
    assert o + h == u + [c] + w + h;
    WildcardDot(u, c, w, h);
  }

  /** The heading of a version that needs no escaping, cut at the version's `.`. */
  lemma DottedHeading(a: string, b: string)
    requires Plain(a + "." + b)
    ensures Header(a + "." + b) == (Open + a) + "." + (b + "</h1>")
  {
    EscapePlain(a + "." + b);
  }

  /**
    As written, the `.` of a version `a.b` matches any character: on a page
    whose `a.b` section follows an empty section headed `a c b`, the other
    section is taken for the version's own, its heading is overwritten, and
    the real section is left as it was behind the new one.
  */
  lemma WildcardTakesOtherVersion(a: string, c: char, b: string, table: string)
    requires Plain(a + "." + b)
    ensures var v := a + "." + b;
      MergeAsWritten(Open + a + [c] + b + "</h1>" + Header(v), v, table) == Section(v, table) + Header(v)
  {
    var v, u, w := a + "." + b, Open + a, b + "</h1>";
    DottedHeading(a, b);
    OneCharApart(u, c, w);
    assert Open + a + [c] + b + "</h1>" == u + [c] + w;
    WildcardStep(u + [c] + w, Header(v), Section(v, table));
  }

  /**
    A text of the heading's length that the pattern matches, followed by the
    heading itself: the match stops at the heading's `<h1>`, which it takes
    along, so the heading loses its `<h1>` to the replacement.
  */
  lemma WildcardStep(o: string, h: string, repl: string)
    requires |o| == |h| && StartsWith(h, Open) && MatchesAt(o + h, 0, h, true)
    ensures Sub(o + h, h, repl, true, 0) == repl + h
  {
    var s := o + h;
    assert s[|h|..] == h;
    assert StartsAt(s, |h|, Open) by {
      assert s[|h|..|h| + 4] == h[..4];
    }
    SpanEndAt(s, |h|, |h|);
    SubMatchStep(s, h, repl, true, 0, |h|);
    SubNoRoom(s, h, repl, true, |h| + 4);
    assert s[|h| + 4..] == h[4..];
    AppendAssoc(repl, Open, h[4..]);
    assert Open + h[4..] == h;
  }

  /** Too close to the end for another match: the rest is copied. */
  lemma SubNoRoom(s: string, pat: string, repl: string, wildcard: bool, i: nat)
    requires pat != [] && i <= |s| && |s| < i + |pat|
    ensures Sub(s, pat, repl, wildcard, i) == s[i..]
  {
    SubRest(s, pat, repl, wildcard, i);
  }

  /** Matched literally, the other section is kept and the version's own section is replaced. */
  lemma LiteralKeepsOtherVersion(a: string, c: char, b: string, table: string)
    requires Plain(a + "." + b)
    requires c != '.'
    ensures var v := a + "." + b;
      Merge(Open + a + [c] + b + "</h1>" + Header(v), v, table) == Open + a + [c] + b + "</h1>" + Section(v, table)
  {
    var v, u, w := a + "." + b, Open + a, b + "</h1>";
    DottedHeading(a, b);
    OneCharApart(u, c, w);
    var h, o := Header(v), u + [c] + w;
    assert Open + a + [c] + b + "</h1>" == o;
    forall i | 0 <= i <= |o| ensures !StartsAt(o, i, h) {
      if i == 0 {
        assert o[0..|h|] == o;
      }
    }
    ReplaceLast(o, v, "", table);
    assert o + h + "" == o + h;
  }

  /**
    Merging the table generated for a search into a page without the
    version: the section is appended, the next merge of the same table adds
    one line break, and every merge after that leaves the page as it is.
    The program's merge does the same where its pattern matches the page
    only at the version's heading, which always holds for a version whose
    escaped form has no `.`.
  */
  lemma RepeatedMergeSettles(body: string, version: string, issues: seq<Issue>, jiraUrl: string,
                             netloc: string -> string, unescape: string -> string)
    requires !Occurs(body, Header(version))
    ensures var table := Table(HtmlRecords(issues, jiraUrl, netloc, unescape));
      var once := Merge(body, version, table);
      var twice := Merge(once, version, table);
      && once == body + Section(version, table)
      && twice == once + "\n"
      && Merge(twice, version, table) == twice
      && (OwnHeadingsOnly(twice, version) ==>
            && MergeAsWritten(body, version, table) == once
            && MergeAsWritten(once, version, table) == twice
            && MergeAsWritten(twice, version, table) == twice)
  {
    TableNoHeading(issues, jiraUrl, netloc, unescape);
    AppendedSectionSettles(body, version, Table(HtmlRecords(issues, jiraUrl, netloc, unescape)));
  }

  // ---------------------------------------------------------------------------
  // The page update
  // ---------------------------------------------------------------------------

  /** What the GET of the page returned: its title, version number and storage body. */
  datatype Page = Page(title: string, version: int, body: string)

  /** The JSON body of the PUT. */
  datatype PutRequest = PutRequest(id: string, kind: string, title: string, version: int, body: string)

  datatype UpdateOutcome = GetFailed | PutFailed(request: PutRequest) | Updated(request: PutRequest)

  /**
    `update_confluence_page`: nothing is sent when the GET failed; otherwise
    the PUT carries the page's title, its version number plus one and the
    merged body, and its answer decides the outcome.
  */
  function UpdatePage(page: Option<Page>, pageId: string, version: string, table: string, putOk: bool)
    : (r: UpdateOutcome)
    ensures r.GetFailed? <==> page.None?
    ensures r.Updated? <==> page.Some? && putOk
    ensures !r.GetFailed? ==> && r.request.id == pageId && r.request.kind == "page"
                              && r.request.title == page.value.title
                              && r.request.version == page.value.version + 1
                              && r.request.body == MergeAsWritten(page.value.body, version, table)
    ensures !r.GetFailed? && OwnHeadingsOnly(page.value.body, version)
        ==> r.request.body == Merge(page.value.body, version, table)
  {
    match page
    case None => GetFailed
    case Some(p) =>
      AsWrittenAgreesOn(p.body, version, table);
      var request := PutRequest(pageId, "page", p.title, p.version + 1, MergeAsWritten(p.body, version, table));
      if putOk then Updated(request) else PutFailed(request)
  }

  lemma AsWrittenAgreesOn(body: string, version: string, table: string)
    ensures OwnHeadingsOnly(body, version) ==> MergeAsWritten(body, version, table) == Merge(body, version, table)
  {
    if OwnHeadingsOnly(body, version) {
      AsWrittenAgrees(body, version, table);
    }
  }

  // ---------------------------------------------------------------------------
  // The run of jira_rn.py
  // ---------------------------------------------------------------------------

  /** What a run reads from the outside: the connection, the search, the GET and the PUT. */
  datatype PageEnvironment = PageEnvironment(connected: bool, search: SearchOutcome, page: Option<Page>, putOk: bool)

  datatype PageRunOutcome =
    | InvalidQuery
    | ConnectFailed
    | NoIssues
    | Finished(update: UpdateOutcome, reportedSuccess: bool)

  /** The table a run generates, or the reason it stops before the update. */
  function CheckedTable(params: Params, env: PageEnvironment, jiraUrl: string, netloc: string -> string,
                        unescape: string -> string): Result<string, PageRunOutcome>
    requires ParsedParams(params)
  {
    if ExtractQuery(params).text == "" then Failure(InvalidQuery)
    else if !env.connected then Failure(ConnectFailed)
    else if env.search.SearchFailed? || env.search.issues == [] then Failure(NoIssues)
    else Success(Table(HtmlRecords(env.search.issues, jiraUrl, netloc, unescape)))
  }

  /** `run` as written: once the update was attempted, success is reported whatever its outcome. */
  function RunAsWritten(params: Params, version: string, pageId: string, env: PageEnvironment, jiraUrl: string,
                        netloc: string -> string, unescape: string -> string): PageRunOutcome
    requires ParsedParams(params)
  {
    match CheckedTable(params, env, jiraUrl, netloc, unescape)
    case Failure(o) => o
    case Success(table) => Finished(UpdatePage(env.page, pageId, version, table, env.putOk), true)
  }

  /** `run` reporting success only when the page was written. */
  function Run(params: Params, version: string, pageId: string, env: PageEnvironment, jiraUrl: string,
               netloc: string -> string, unescape: string -> string): PageRunOutcome
    requires ParsedParams(params)
  {
    match CheckedTable(params, env, jiraUrl, netloc, unescape)
    case Failure(o) => o
    case Success(table) =>
      var u := UpdatePage(env.page, pageId, version, table, env.putOk);
      Finished(u, u.Updated?)
  }

  /** As written, a run whose GET failed still reports a successful update. */
  lemma FailedGetReportedAsSuccess(params: Params, version: string, pageId: string, env: PageEnvironment,
                                   jiraUrl: string, netloc: string -> string, unescape: string -> string)
    requires ParsedParams(params) && ExtractQuery(params).text != "" && env.connected
    requires env.search.Found? && env.search.issues != [] && env.page.None?
    ensures RunAsWritten(params, version, pageId, env, jiraUrl, netloc, unescape) == Finished(GetFailed, true)
  {
  }

  /**
    A run reports success exactly when the page was written, and then the
    page holds the merged body under the next version number.
  */
  lemma RunReportsUpdate(params: Params, version: string, pageId: string, env: PageEnvironment,
                         jiraUrl: string, netloc: string -> string, unescape: string -> string)
    requires ParsedParams(params)
    ensures var r := Run(params, version, pageId, env, jiraUrl, netloc, unescape);
      && (r.Finished? <==> (ExtractQuery(params).text != "" && env.connected
                           && env.search.Found? && env.search.issues != []))
      && (r.Finished? ==> (r.reportedSuccess <==> env.page.Some? && env.putOk))
      && (r.Finished? && r.reportedSuccess ==> r.update.request.version == env.page.value.version + 1)
  {
  }
}
