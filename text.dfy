/**
  String primitives of Python's `str` used by the three scripts: `strip()`,
  `split(sep)`, `sep.join(...)`, `startswith`, `endswith`, `in`, `lower()`
  and `replace(c, '')`, stated over `string` (sequences of Unicode scalar
  values, as Python's `str` is).
*/
module Text {
  import opened Wrappers

  // ---------------------------------------------------------------------------
  // Whitespace and strip()
  // ---------------------------------------------------------------------------

  /** Python's `str.isspace()` for one character: the set `strip()` removes. */
  predicate IsSpace(c: char) {
    c == ' ' || '\t' <= c <= '\r' || '\U{1C}' <= c <= '\U{1F}' || c == '\U{85}' || c == '\U{A0}'
    || c == '\U{1680}' || '\U{2000}' <= c <= '\U{200A}' || c == '\U{2028}' || c == '\U{2029}'
    || c == '\U{202F}' || c == '\U{205F}' || c == '\U{3000}'
  }

  predicate AllSpace(s: string) {
    forall i :: 0 <= i < |s| ==> IsSpace(s[i])
  }

  /** A string `strip()` leaves unchanged. */
  predicate IsStripped(s: string) {
    s == [] || (!IsSpace(s[0]) && !IsSpace(s[|s| - 1]))
  }

  /** The number of whitespace characters `strip()` removes from the front. */
  function LeadingSpaces(s: string): (k: nat)
    ensures k <= |s|
    ensures forall i :: 0 <= i < k ==> IsSpace(s[i])
    ensures k < |s| ==> !IsSpace(s[k])
  {
    if s != [] && IsSpace(s[0]) then
      var k := 1 + LeadingSpaces(s[1..]);
      assert forall i :: 1 <= i < k ==> s[i] == s[1..][i - 1];
      k
    else
      0
  }

  /** Where the whitespace `strip()` removes from the back begins. */
  function TrailingStart(s: string): (k: nat)
    ensures k <= |s|
    ensures forall i :: k <= i < |s| ==> IsSpace(s[i])
    ensures 0 < k ==> !IsSpace(s[k - 1])
  {
    if s != [] && IsSpace(s[|s| - 1]) then
      var k := TrailingStart(s[..|s| - 1]);
      assert forall i :: k <= i < |s| - 1 ==> s[i] == s[..|s| - 1][i];
      k
    else
      |s|
  }

  /** Python's `s.strip()` with no argument. */
  function Strip(s: string): (r: string)
    ensures IsStripped(r)
    ensures |r| <= |s|
    ensures IsStripped(s) ==> r == s
    ensures r == [] <==> AllSpace(s)
  {
    var i := LeadingSpaces(s);
    if i == |s| then [] else s[i..TrailingStart(s)]
  }

  /** The only count of leading whitespace: any `k` with the defining properties is it. */
  lemma LeadingSpacesAre(s: string, k: nat)
    requires k <= |s| && (forall i :: 0 <= i < k ==> IsSpace(s[i])) && (k < |s| ==> !IsSpace(s[k]))
    ensures LeadingSpaces(s) == k
  {
  }

  lemma TrailingStartIs(s: string, k: nat)
    requires k <= |s| && (forall i :: k <= i < |s| ==> IsSpace(s[i])) && (0 < k ==> !IsSpace(s[k - 1]))
    ensures TrailingStart(s) == k
  {
  }

  /** `strip()` returns a slice of its argument. */
  lemma StripSlice(s: string)
    ensures StartsAt(s, LeadingSpaces(s), Strip(s))
  {
  }

  /** `strip()` adds no character. */
  lemma StripKeepsOut(s: string, c: char)
    requires c !in s
    ensures c !in Strip(s)
  {
    StripSlice(s);
  }

  /** What `strip()` returns occurs in its argument. */
  lemma StripOccurs(s: string)
    ensures Occurs(s, Strip(s))
  {
    StripSlice(s);
  }

  /** Whitespace padding around an already stripped string is all `strip()` removes. */
  lemma StripPadding(p: string, x: string, q: string)
    requires AllSpace(p) && AllSpace(q) && IsStripped(x)
    ensures Strip(p + x + q) == x
  {
    var s := p + x + q;
    assert forall i :: 0 <= i < |p| ==> s[i] == p[i];
    assert forall i :: |p| + |x| <= i < |s| ==> s[i] == q[i - |p| - |x|];
    if x != [] {
      assert s[|p|] == x[0] && s[|p| + |x| - 1] == x[|x| - 1];
      LeadingSpacesAre(s, |p|);
      TrailingStartIs(s, |p| + |x|);
      assert s[|p|..|p| + |x|] == x;
    } else {
      assert forall i :: |p| <= i < |s| ==> s[i] == q[i - |p|];
    }
  }

  // ---------------------------------------------------------------------------
  // Prefixes, suffixes and substring search
  // ---------------------------------------------------------------------------

  /** Python's `s.startswith(p)`. */
  predicate StartsWith(s: string, p: string) {
    |p| <= |s| && s[..|p|] == p
  }

  /** Python's `s.endswith(p)`. */
  predicate EndsWith(s: string, p: string) {
    |p| <= |s| && s[|s| - |p|..] == p
  }

  /** `n` occurs in `s` starting at index `i`. */
  predicate StartsAt(s: string, i: nat, n: string) {
    i + |n| <= |s| && s[i..i + |n|] == n
  }

  /** The regular-expression `$` without MULTILINE: at the end, or just before a final line break. */
  predicate EndAnchor(s: string, i: nat) {
    i == |s| || (i == |s| - 1 && s[i] == '\n')
  }

  /** Python's `n in s` for strings. */
  predicate Occurs(s: string, n: string) {
    exists i :: 0 <= i <= |s| && StartsAt(s, i, n)
  }

  /** The first index at or after `from` where `n` starts (Python's `s.find(n, from)`). */
  function FindFrom(s: string, n: string, from: nat): (r: Option<nat>)
    ensures r.Some? ==> from <= r.value && StartsAt(s, r.value, n)
    ensures r.Some? ==> forall j :: from <= j < r.value ==> !StartsAt(s, j, n)
    ensures r.None? ==> forall j: nat :: from <= j ==> !StartsAt(s, j, n)
    decreases |s| - from
  {
    if from + |n| > |s| then None
    else if s[from..from + |n|] == n then Some(from)
    else FindFrom(s, n, from + 1)
  }

  lemma FindFromOccurs(s: string, n: string)
    ensures FindFrom(s, n, 0).Some? <==> Occurs(s, n)
  {
    if Occurs(s, n) {
      var i: nat :| StartsAt(s, i, n);
    }
  }

  /** A substring of a slice is a substring of the whole string. */
  lemma OccursInSlice(s: string, lo: nat, hi: nat, n: string)
    requires lo <= hi <= |s| && Occurs(s[lo..hi], n)
    ensures Occurs(s, n)
  {
    var j :| 0 <= j <= hi - lo && StartsAt(s[lo..hi], j, n);
    StartsAtSlice(s, lo, hi, j, n);
  }

  /** An occurrence inside a slice is an occurrence in the whole string, shifted. */
  lemma OccursLeft(a: string, b: string, n: string)
    requires Occurs(a, n)
    ensures Occurs(a + b, n)
  {
    assert (a + b)[0..|a|] == a;
    OccursInSlice(a + b, 0, |a|, n);
  }

  lemma OccursRight(a: string, b: string, n: string)
    requires Occurs(b, n)
    ensures Occurs(a + b, n)
  {
    assert (a + b)[|a|..|a + b|] == b;
    OccursInSlice(a + b, |a|, |a + b|, n);
  }

  lemma StartsAtSlice(s: string, lo: nat, hi: nat, j: nat, n: string)
    requires lo <= hi <= |s|
    ensures StartsAt(s[lo..hi], j, n) ==> StartsAt(s, lo + j, n)
    ensures lo + j + |n| <= hi ==> (StartsAt(s, lo + j, n) ==> StartsAt(s[lo..hi], j, n))
  {
    if j + |n| <= hi - lo {
      var a, b := s[lo..hi][j..j + |n|], s[lo + j..lo + j + |n|];
      forall k | 0 <= k < |n| ensures a[k] == b[k] {
      }
      assert a == b;
    }
  }

  // ---------------------------------------------------------------------------
  // split and join
  // ---------------------------------------------------------------------------

  /** Python's `sep.join(ls)`. */
  function Join(ls: seq<string>, sep: string): string
  {
    if |ls| == 0 then ""
    else if |ls| == 1 then ls[0]
    else ls[0] + sep + Join(ls[1..], sep)
  }

  /** Python's `s.split(sep)` for a non-empty separator: always at least one part. */
  function Split(s: string, sep: string): (r: seq<string>)
    requires sep != ""
    ensures |r| >= 1
    ensures Join(r, sep) == s
    ensures forall k :: 0 <= k < |r| ==> !Occurs(r[k], sep)
    decreases |s|
  {
    match FindFrom(s, sep, 0)
    case None => [s]
    case Some(i) =>
      var rest := Split(s[i + |sep|..], sep);
      var r := [s[..i]] + rest;
      assert r[1..] == rest;
      assert s == s[..i] + sep + s[i + |sep|..];
      SplitHeadFree(s, sep, i);
      r
  }

  lemma SplitHeadFree(s: string, sep: string, i: nat)
    requires i <= |s| && sep != ""
    requires forall j :: 0 <= j < i ==> !StartsAt(s, j, sep)
    ensures !Occurs(s[..i], sep)
  {
    forall j: nat | StartsAt(s[..i], j, sep) ensures false {
      StartsAtSlice(s, 0, i, j, sep);
    }
  }

  /** A part before the first separator: one whose characters never open the separator. */
  lemma SplitFirst(a: string, sep: string, b: string)
    requires sep != "" && sep[0] !in a
    ensures Split(a + sep + b, sep) == [a] + Split(b, sep)
  {
    var s := a + sep + b;
    forall j | 0 <= j < |a| ensures !StartsAt(s, j, sep) {
      assert s[j] == a[j] != sep[0];
    }
    assert s[|a|..|a| + |sep|] == sep;
    assert StartsAt(s, |a|, sep);
    assert FindFrom(s, sep, 0) == Some(|a|);
    assert s[..|a|] == a;
    assert s[|a| + |sep|..] == b;
  }

  /** A string none of whose characters opens the separator is one part. */
  lemma SplitNone(a: string, sep: string)
    requires sep != "" && sep[0] !in a
    ensures Split(a, sep) == [a]
  {
    forall j | 0 <= j < |a| ensures !StartsAt(a, j, sep) {
      assert a[j] != sep[0];
    }
    assert FindFrom(a, sep, 0).None?;
  }

  /** `s.split('\n')`. */
  function Lines(s: string): (r: seq<string>)
    ensures |r| >= 1
    ensures Join(r, "\n") == s
    ensures forall k :: 0 <= k < |r| ==> '\n' !in r[k]
  {
    var r := Split(s, "\n");
    NoCharOccurs(r, '\n');
    r
  }

  lemma NoCharOccurs(r: seq<string>, c: char)
    requires forall k :: 0 <= k < |r| ==> !Occurs(r[k], [c])
    ensures forall k :: 0 <= k < |r| ==> c !in r[k]
  {
    forall k | 0 <= k < |r| ensures c !in r[k] {
      if c in r[k] {
        var j :| 0 <= j < |r[k]| && r[k][j] == c;
        assert StartsAt(r[k], j, [c]);
      }
    }
  }

  /** Splitting on one character undoes joining on it, when no part holds that character. */
  lemma {:induction false} SplitJoin(ls: seq<string>, c: char)
    requires |ls| >= 1
    requires forall k :: 0 <= k < |ls| ==> c !in ls[k]
    ensures Split(Join(ls, [c]), [c]) == ls
    decreases |ls|
  {
    if |ls| == 1 {
      assert Join(ls, [c]) == ls[0];
      SplitNone(ls[0], [c]);
    } else {
      var rest := Join(ls[1..], [c]);
      assert Join(ls, [c]) == ls[0] + [c] + rest;
      SplitFirst(ls[0], [c], rest);
      SplitJoin(ls[1..], c);
      assert ls == [ls[0]] + ls[1..];
    }
  }

  lemma LinesJoin(ls: seq<string>)
    requires |ls| >= 1
    requires forall k :: 0 <= k < |ls| ==> '\n' !in ls[k]
    ensures Lines(Join(ls, "\n")) == ls
  {
    SplitJoin(ls, '\n');
  }

  /** The first character of a join is that of its first non-empty head part. */
  lemma JoinHead(ls: seq<string>, sep: string)
    requires |ls| >= 1 && ls[0] != []
    ensures Join(ls, sep) != [] && Join(ls, sep)[0] == ls[0][0]
  {
  }

  /** Concatenation of a sequence of strings (`''.join(ls)`). */
  function Concat(ls: seq<string>): string
  {
    if ls == [] then "" else Concat(ls[..|ls| - 1]) + ls[|ls| - 1]
  }

  lemma {:induction false} ConcatAppend(a: seq<string>, b: seq<string>)
    ensures Concat(a + b) == Concat(a) + Concat(b)
    decreases |b|
  {
    if b == [] {
      assert a + b == a;
    } else {
      var init := b[..|b| - 1];
      assert (a + b)[..|a + b| - 1] == a + init;
      assert (a + b)[|a + b| - 1] == b[|b| - 1];
      ConcatAppend(a, init);
      assert Concat(b) == Concat(init) + b[|b| - 1];
    }
  }

  // ---------------------------------------------------------------------------
  // Per-element maps (list comprehensions and the loops that build lists)
  // ---------------------------------------------------------------------------

  /** `[f(x) for x in xs]`. */
  function Map<A, B>(f: A -> B, xs: seq<A>): (r: seq<B>)
    ensures |r| == |xs| && forall k :: 0 <= k < |xs| ==> r[k] == f(xs[k])
  {
    seq(|xs|, k requires 0 <= k < |xs| => f(xs[k]))
  }

  lemma AppendAssoc<A>(a: seq<A>, b: seq<A>, c: seq<A>)
    ensures a + (b + c) == a + b + c
  {
  }

  /** A non-empty sequence is its front followed by its last element. */
  lemma FrontLast<A>(xs: seq<A>)
    requires xs != []
    ensures xs[..|xs| - 1] + [xs[|xs| - 1]] == xs
  {
  }

  /** A loop that appends `f(xs[i])` on turn `i` has built the map of the prefix. */
  lemma MapSnoc<A, B>(f: A -> B, xs: seq<A>, i: nat)
    requires i < |xs|
    ensures Map(f, xs[..i + 1]) == Map(f, xs[..i]) + [f(xs[i])]
  {
    var l, r := Map(f, xs[..i + 1]), Map(f, xs[..i]) + [f(xs[i])];
    forall k | 0 <= k < |l| ensures l[k] == r[k] {
      assert xs[..i + 1][k] == xs[k];
    }
  }

  lemma MapAppend<A, B>(f: A -> B, xs: seq<A>, x: A)
    ensures Map(f, xs + [x]) == Map(f, xs) + [f(x)]
  {
    var l, r := Map(f, xs + [x]), Map(f, xs) + [f(x)];
    forall k | 0 <= k < |l| ensures l[k] == r[k] {
    }
  }

  lemma MapConcat<A, B>(f: A -> B, xs: seq<A>, ys: seq<A>)
    ensures Map(f, xs + ys) == Map(f, xs) + Map(f, ys)
  {
    var l, r := Map(f, xs + ys), Map(f, xs) + Map(f, ys);
    forall k | 0 <= k < |l| ensures l[k] == r[k] {
      if k < |xs| {
        assert (xs + ys)[k] == xs[k];
      } else {
        assert (xs + ys)[k] == ys[k - |xs|];
      }
    }
  }

  // ---------------------------------------------------------------------------
  // Case folding, lower() and replace(c, '')
  // ---------------------------------------------------------------------------

  /**
    The lower-case form of one character: ASCII, the Latin-1 capitals and the
    two Hungarian double-acute capitals; every other character is its own
    lower case in this model.
  */
  function FoldChar(c: char): (r: char)
    ensures !('A' <= r <= 'Z')
  {
    if 'A' <= c <= 'Z' || ('\U{C0}' <= c <= '\U{DE}' && c != '\U{D7}') then (c as int + 32) as char
    else if c == '\U{150}' || c == '\U{170}' then (c as int + 1) as char
    else c
  }

  lemma FoldCharIdempotent(c: char)
    ensures FoldChar(FoldChar(c)) == FoldChar(c)
  {
  }

  /** Python's `s.lower()` over the folded characters. */
  function Lower(s: string): (r: string)
    ensures |r| == |s|
    ensures forall i :: 0 <= i < |s| ==> r[i] == FoldChar(s[i])
  {
    seq(|s|, i requires 0 <= i < |s| => FoldChar(s[i]))
  }

  lemma LowerSlice(s: string, lo: nat, hi: nat)
    requires lo <= hi <= |s|
    ensures Lower(s)[lo..hi] == Lower(s[lo..hi])
  {
  }

  /** Case-insensitive occurrence of `n` at index `i`, as `re.IGNORECASE` matches a literal. */
  predicate StartsAtIgnoreCase(s: string, i: nat, n: string) {
    StartsAt(Lower(s), i, Lower(n))
  }

  /** Python's `s.replace(c, '')` for one character `c`. */
  function RemoveAll(s: string, c: char): (r: string)
    ensures c !in r
    ensures multiset(r) == multiset(s)[c := 0]
    ensures c !in s ==> r == s
  {
    if s == [] then ""
    else
      var r := RemoveAll(s[..|s| - 1], c);
      var x := s[|s| - 1];
      assert s == s[..|s| - 1] + [x];
      if x == c then r else r + [x]
  }

  /** Removing a character works piece by piece: the kept characters stay in their order. */
  lemma {:induction false} RemoveAllAppend(s: string, t: string, c: char)
    ensures RemoveAll(s + t, c) == RemoveAll(s, c) + RemoveAll(t, c)
    decreases |t|
  {
    if t == [] {
      assert s + t == s;
    } else {
      var x := t[|t| - 1];
      assert (s + t)[..|s + t| - 1] == s + t[..|t| - 1];
      RemoveAllAppend(s, t[..|t| - 1], c);
      AppendAssoc(RemoveAll(s, c), RemoveAll(t[..|t| - 1], c), [x]);
    }
  }
}
