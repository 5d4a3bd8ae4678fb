/** The `glob` builtin's pattern compiler and its memoised matcher for `**`. The meaning of one
    path segment against one pattern part (path.Match) is an arbitrary total predicate. */
module GlobMatch {
  import opened Prelude
  import LexicalPath
  import WhiteSpace

  /** Decides one segment against one part other than `**`. */
  type SegmentMatcher = (string, string) -> bool

  const STARS := "**"

  // ---------------------------------------------------------------- the meaning of a pattern

  /** `**` covers any block of segments; any other part covers one segment, which it matches. */
  predicate Covers(m: SegmentMatcher, part: string, segments: seq<string>, from: nat, to: nat)
  {
    from <= to <= |segments| && (part != STARS ==> to == from + 1 && m(part, segments[from]))
  }

  /** `cuts` divides the segments among the parts, in order and without gaps. */
  predicate Divides(m: SegmentMatcher, parts: seq<string>, segments: seq<string>, cuts: seq<nat>)
  {
    && |cuts| == |parts| + 1
    && cuts[0] == 0 && cuts[|parts|] == |segments|
    && forall k {:trigger parts[k]} :: 0 <= k < |parts| ==> Covers(m, parts[k], segments, cuts[k], cuts[k + 1])
  }

  ghost predicate Matches(m: SegmentMatcher, parts: seq<string>, segments: seq<string>)
  {
    exists cuts :: Divides(m, parts, segments, cuts)
  }

  // ---------------------------------------------------------------- the recursion, without memory

  /** The matcher's case analysis, at segment `rel` and part `pat`. */
  predicate MatchFrom(m: SegmentMatcher, parts: seq<string>, segments: seq<string>, rel: nat, pat: nat)
    requires rel <= |segments| && pat <= |parts|
    decreases |segments| - rel + |parts| - pat
  {
    if pat == |parts| then rel == |segments|
    else if parts[pat] == STARS then
      MatchFrom(m, parts, segments, rel, pat + 1) ||
      (rel < |segments| && MatchFrom(m, parts, segments, rel + 1, pat))
    else
      rel < |segments| && m(parts[pat], segments[rel]) && MatchFrom(m, parts, segments, rel + 1, pat + 1)
  }

  /** Shifting every cut. */
  function Shift(cuts: seq<nat>, offset: nat): (r: seq<nat>)
    ensures |r| == |cuts| && forall k :: 0 <= k < |cuts| ==> r[k] == cuts[k] + offset
  {
    seq(|cuts|, k requires 0 <= k < |cuts| => cuts[k] + offset)
  }

  lemma {:induction false} DivisionPrepends(m: SegmentMatcher, first: string, parts: seq<string>,
                                            segments: seq<string>, cut: nat, cuts: seq<nat>)
    requires Covers(m, first, segments, 0, cut) && Divides(m, parts, segments[cut..], cuts)
    ensures Divides(m, [first] + parts, segments, [0] + Shift(cuts, cut))
  {
    var all, cuts' := [first] + parts, [0] + Shift(cuts, cut);
    forall k | 0 <= k < |all|
      ensures Covers(m, all[k], segments, cuts'[k], cuts'[k + 1])
    {
      if k > 0 {
        assert all[k] == parts[k - 1];
        assert Covers(m, parts[k - 1], segments[cut..], cuts[k - 1], cuts[k]);
      }
    }
  }

  lemma {:induction false} CutsAscend(m: SegmentMatcher, parts: seq<string>, segments: seq<string>, cuts: seq<nat>,
                                      j: nat, n: nat)
    requires Divides(m, parts, segments, cuts) && j <= n <= |parts|
    ensures cuts[j] <= cuts[n] <= |segments|
    decreases n - j
  {
    if j < n {
      assert Covers(m, parts[j], segments, cuts[j], cuts[j + 1]);
      CutsAscend(m, parts, segments, cuts, j + 1, n);
    } else if n > 0 {
      assert Covers(m, parts[n - 1], segments, cuts[n - 1], cuts[n]);
    }
  }

  lemma {:induction false} DivisionDropsFirst(m: SegmentMatcher, first: string, parts: seq<string>,
                                              segments: seq<string>, cuts: seq<nat>)
    returns (rest: seq<nat>)
    requires Divides(m, [first] + parts, segments, cuts)
    ensures Covers(m, first, segments, 0, cuts[1]) && Divides(m, parts, segments[cuts[1]..], rest)
  {
    var all := [first] + parts;
    assert all[0] == first;
    assert Covers(m, all[0], segments, cuts[0], cuts[1]);
    rest := seq(|parts| + 1, k requires 0 <= k <= |parts| =>
      (CutsAscend(m, all, segments, cuts, 1, k + 1); cuts[k + 1] - cuts[1]));
    forall k | 0 <= k < |parts|
      ensures Covers(m, parts[k], segments[cuts[1]..], rest[k], rest[k + 1])
    {
      assert all[k + 1] == parts[k];
      assert Covers(m, all[k + 1], segments, cuts[k + 1], cuts[k + 2]);
      CutsAscend(m, all, segments, cuts, 1, k + 1);
    }
  }

  /** The first part takes one segment it matches, or any block; the others take the rest. */
  lemma {:induction false} FirstPart(m: SegmentMatcher, first: string, parts: seq<string>, segments: seq<string>)
    ensures Matches(m, [first] + parts, segments) <==>
            exists cut :: 0 <= cut <= |segments| && Covers(m, first, segments, 0, cut) &&
                          Matches(m, parts, segments[cut..])
  {
    if Matches(m, [first] + parts, segments) {
      var cuts :| Divides(m, [first] + parts, segments, cuts);
      var rest := DivisionDropsFirst(m, first, parts, segments, cuts);
      assert Matches(m, parts, segments[cuts[1]..]);
    }
    forall cut | 0 <= cut <= |segments| && Covers(m, first, segments, 0, cut) && Matches(m, parts, segments[cut..])
      ensures Matches(m, [first] + parts, segments)
    {
      var cuts :| Divides(m, parts, segments[cut..], cuts);
      DivisionPrepends(m, first, parts, segments, cut, cuts);
    }
  }

  /** A leading `**` takes nothing, or one segment and then again. */
  lemma {:induction false} LeadingStars(m: SegmentMatcher, parts: seq<string>, segments: seq<string>)
    ensures Matches(m, [STARS] + parts, segments) <==>
            Matches(m, parts, segments) || (segments != [] && Matches(m, [STARS] + parts, segments[1..]))
  {
    FirstPart(m, STARS, parts, segments);
    assert segments[0..] == segments;
    if segments != [] {
      FirstPart(m, STARS, parts, segments[1..]);
      assert forall cut :: 0 <= cut <= |segments[1..]| ==> segments[1..][cut..] == segments[cut + 1..];
      forall cut | 1 <= cut <= |segments| && Matches(m, parts, segments[cut..])
        ensures Matches(m, [STARS] + parts, segments[1..])
      {
        assert Covers(m, STARS, segments[1..], 0, cut - 1);
        assert segments[1..][cut - 1..] == segments[cut..];
      }
      forall cut | 0 <= cut <= |segments[1..]| && Matches(m, parts, segments[1..][cut..])
        ensures Matches(m, [STARS] + parts, segments)
      {
        assert Covers(m, STARS, segments, 0, cut + 1);
        assert segments[1..][cut..] == segments[cut + 1..];
      }
    }
  }

  lemma {:induction false} NoParts(m: SegmentMatcher, segments: seq<string>)
    ensures Matches(m, [], segments) <==> segments == []
  {
    if segments == [] {
      assert Divides(m, [], segments, [0]);
    }
  }

  /** The recursion decides what the rest of the pattern means for the rest of the segments. */
  lemma {:induction false} MatchFromIsMeaning(m: SegmentMatcher, parts: seq<string>, segments: seq<string>, rel: nat,
                                              pat: nat)
    requires rel <= |segments| && pat <= |parts|
    ensures MatchFrom(m, parts, segments, rel, pat) <==> Matches(m, parts[pat..], segments[rel..])
    decreases |segments| - rel + |parts| - pat
  {
    if pat == |parts| {
      NoParts(m, segments[rel..]);
    } else {
      var first, rest := parts[pat], parts[pat + 1..];
      assert parts[pat..] == [first] + rest;
      if rel < |segments| {
        assert segments[rel..][1..] == segments[rel + 1..];
      }
      if first == STARS {
        LeadingStars(m, rest, segments[rel..]);
        MatchFromIsMeaning(m, parts, segments, rel, pat + 1);
        if rel < |segments| {
          MatchFromIsMeaning(m, parts, segments, rel + 1, pat);
        }
      } else {
        FirstPart(m, first, rest, segments[rel..]);
        if rel < |segments| {
          MatchFromIsMeaning(m, parts, segments, rel + 1, pat + 1);
          assert Covers(m, first, segments[rel..], 0, 1) <==> m(first, segments[rel]);
        }
      }
    }
  }

  // ---------------------------------------------------------------- collapsing

  /** Runs of `**` collapse to one. */
  function Collapse(parts: seq<string>): seq<string>
  {
    if parts == [] then []
    else
      var init, last := Collapse(parts[..|parts| - 1]), parts[|parts| - 1];
      if last == STARS && init != [] && init[|init| - 1] == STARS then init else init + [last]
  }

  lemma {:induction false} DivisionAppends(m: SegmentMatcher, parts: seq<string>, segments: seq<string>,
                                           cuts: seq<nat>, last: string, cut: nat)
    requires cut <= |segments| && Divides(m, parts, segments[..cut], cuts) && Covers(m, last, segments, cut, |segments|)
    ensures Divides(m, parts + [last], segments, cuts + [|segments|])
  {
    var all, cuts' := parts + [last], cuts + [|segments|];
    forall k | 0 <= k < |all|
      ensures Covers(m, all[k], segments, cuts'[k], cuts'[k + 1])
    {
      if k < |parts| {
        assert all[k] == parts[k];
        assert Covers(m, parts[k], segments[..cut], cuts[k], cuts[k + 1]);
      }
    }
  }

  lemma {:induction false} DivisionDropsLast(m: SegmentMatcher, parts: seq<string>, last: string,
                                             segments: seq<string>, cuts: seq<nat>)
    requires Divides(m, parts + [last], segments, cuts)
    ensures var cut := cuts[|parts|];
            Covers(m, last, segments, cut, |segments|) && Divides(m, parts, segments[..cut], cuts[..|parts| + 1])
  {
    var all, cut := parts + [last], cuts[|parts|];
    assert all[|parts|] == last;
    forall k | 0 <= k < |parts|
      ensures Covers(m, parts[k], segments[..cut], cuts[k], cuts[k + 1])
    {
      assert all[k] == parts[k];
      CutsAscend(m, all, segments, cuts, k + 1, |parts|);
    }
  }

  /** The last part takes what the others leave. */
  lemma {:induction false} LastPart(m: SegmentMatcher, parts: seq<string>, segments: seq<string>, last: string)
    ensures Matches(m, parts + [last], segments) <==>
            exists cut :: 0 <= cut <= |segments| && Covers(m, last, segments, cut, |segments|) &&
                          Matches(m, parts, segments[..cut])
  {
    if Matches(m, parts + [last], segments) {
      var cuts :| Divides(m, parts + [last], segments, cuts);
      DivisionDropsLast(m, parts, last, segments, cuts);
      assert Matches(m, parts, segments[..cuts[|parts|]]);
    }
    forall cut | 0 <= cut <= |segments| && Covers(m, last, segments, cut, |segments|) &&
                 Matches(m, parts, segments[..cut])
      ensures Matches(m, parts + [last], segments)
    {
      var cuts :| Divides(m, parts, segments[..cut], cuts);
      DivisionAppends(m, parts, segments, cuts, last, cut);
    }
  }

  /** One more `**` after a `**` means nothing new. */
  lemma {:induction false} StarsTwice(m: SegmentMatcher, parts: seq<string>, segments: seq<string>)
    requires parts != [] && parts[|parts| - 1] == STARS
    ensures Matches(m, parts + [STARS], segments) <==> Matches(m, parts, segments)
  {
    var init := parts[..|parts| - 1];
    assert parts == init + [STARS];
    LastPart(m, parts, segments, STARS);
    LastPart(m, init, segments, STARS);
    if Matches(m, parts, segments) {
      assert segments[..|segments|] == segments;
      assert Covers(m, STARS, segments, |segments|, |segments|);
    }
    forall cut | 0 <= cut <= |segments| && Matches(m, parts, segments[..cut])
      ensures Matches(m, parts, segments)
    {
      LastPart(m, init, segments[..cut], STARS);
      var earlier :| 0 <= earlier <= cut && Matches(m, init, segments[..cut][..earlier]);
      assert segments[..cut][..earlier] == segments[..earlier];
      assert Covers(m, STARS, segments, earlier, |segments|);
    }
  }

  /** Collapsing keeps the meaning. */
  lemma {:induction false} CollapseKeepsMeaning(m: SegmentMatcher, parts: seq<string>, segments: seq<string>)
    ensures Matches(m, Collapse(parts), segments) <==> Matches(m, parts, segments)
    decreases |parts|
  {
    if parts != [] {
      var init, last := parts[..|parts| - 1], parts[|parts| - 1];
      var collapsed := Collapse(init);
      assert parts == init + [last];
      CollapseKeepsMeaning(m, init, segments);
      LastPart(m, init, segments, last);
      LastPart(m, collapsed, segments, last);
      forall cut | 0 <= cut <= |segments|
        ensures Matches(m, collapsed, segments[..cut]) <==> Matches(m, init, segments[..cut])
      {
        CollapseKeepsMeaning(m, init, segments[..cut]);
      }
      if last == STARS && collapsed != [] && collapsed[|collapsed| - 1] == STARS {
        StarsTwice(m, collapsed, segments);
      }
    }
  }

  // ---------------------------------------------------------------- the compiler

  datatype GlobError = EmptyPattern | BadPart(part: string)

  function WithSlashes(s: string): string
  {
    if s == "" then ""
    else (if s[0] == '\\' then "/" else [s[0]]) + WithSlashes(s[1..])
  }

  /** The names of a pattern, cleaned. */
  function PatternNames(pattern: string): seq<string>
  {
    LexicalPath.Resolve([], LexicalPath.Split("/" + WithSlashes(WhiteSpace.TrimSpace(pattern))))
  }

  /** The uncollapsed parts of a pattern: its names, matched at any depth if it is one name. */
  function PatternParts(pattern: string): Result<seq<string>, GlobError>
  {
    var names := PatternNames(pattern);
    if names == [] then Err(EmptyPattern)
    else if |names| == 1 then Ok([STARS] + names)
    else Ok(names)
  }

  /** The first part that path.Match rejects as malformed, if any. */
  function FirstBad(wellFormed: string -> bool, parts: seq<string>): Option<string>
  {
    if parts == [] then None
    else if parts[0] != STARS && !wellFormed(parts[0]) then Some(parts[0])
    else FirstBad(wellFormed, parts[1..])
  }

  function Compiled(wellFormed: string -> bool, pattern: string): Result<seq<string>, GlobError>
  {
    var parts :- PatternParts(pattern);
    var bad := FirstBad(wellFormed, parts);
    if bad.Some? then Err(BadPart(bad.value)) else Ok(Collapse(parts))
  }

  method CompileGlobPattern(wellFormed: string -> bool, pattern: string) returns (r: Result<seq<string>, GlobError>)
    ensures r == Compiled(wellFormed, pattern)
  {
    var raw := PatternParts(pattern);
    if raw.Err? {
      return Err(raw.error);
    }
    var parts: seq<string> := [];
    assert raw.value[..|raw.value|] == raw.value;
    for k := 0 to |raw.value|
      invariant parts == Collapse(raw.value[..k])
      invariant FirstBad(wellFormed, raw.value) == FirstBad(wellFormed, raw.value[k..])
    {
      var part := raw.value[k];
      assert raw.value[..k + 1][..k] == raw.value[..k];
      assert raw.value[k..][1..] == raw.value[k + 1..];
      if part == STARS && |parts| > 0 && parts[|parts| - 1] == STARS {
        continue;
      }
      if part != STARS && !wellFormed(part) {
        return Err(BadPart(part));
      }
      parts := parts + [part];
    }
    return Ok(parts);
  }

  /** The segments of the path being matched. */
  function PathSegments(rel: string): seq<string>
  {
    LexicalPath.Resolve([], LexicalPath.Split("/" + WhiteSpace.TrimSpace(rel)))
  }

  // ---------------------------------------------------------------- the memoised matcher

  datatype Position = Position(rel: nat, pat: nat)

  /** The positions newly seen lie at least this far into path and pattern. */
  ghost predicate NewFrom(before: set<Position>, after: set<Position>, n: nat)
  {
    forall p :: p in after ==> p in before || p.rel + p.pat >= n
  }

  class Matcher {
    const m: SegmentMatcher
    const parts: seq<string>
    const segments: seq<string>
    var memo: map<Position, bool>
    var seen: set<Position>
    var calls: nat

    constructor (m: SegmentMatcher, parts: seq<string>, segments: seq<string>)
      ensures this.m == m && this.parts == parts && this.segments == segments
      ensures memo == map[] && seen == {} && calls == 0
    {
      this.m, this.parts, this.segments := m, parts, segments;
      memo, seen, calls := map[], {}, 0;
    }

    predicate InRange(p: Position) {
      p.rel <= |segments| && p.pat <= |parts|
    }

    /** What is remembered is right. */
    ghost predicate Valid()
      reads this
    {
      && seen == memo.Keys
      && forall p :: p in memo ==> InRange(p) && memo[p] == MatchFrom(m, parts, segments, p.rel, p.pat)
    }

    /** `calls` counts the calls of visit: at most one, and two more for each position newly
        remembered. */
    method Visit(rel: nat, pat: nat) returns (matched: bool)
      requires Valid() && rel <= |segments| && pat <= |parts|
      modifies this
      ensures Valid() && matched == MatchFrom(m, parts, segments, rel, pat)
      ensures NewFrom(old(seen), seen, rel + pat)
      ensures calls - old(calls) <= 1 + 2 * (|seen| - |old(seen)|)
      decreases |segments| - rel + |parts| - pat, 1
    {
      calls := calls + 1;
      var state := Position(rel, pat);
      if state in seen {
        return memo[state];
      }
      matched := Decide(rel, pat);
      assert state !in seen;
      Remember(state, matched);
    }

    method Remember(state: Position, matched: bool)
      requires Valid() && InRange(state) && state !in seen
      requires matched == MatchFrom(m, parts, segments, state.rel, state.pat)
      modifies this
      ensures Valid() && seen == old(seen) + {state} && |seen| == |old(seen)| + 1 && calls == old(calls)
    {
      seen := seen + {state};
      memo := memo[state := matched];
    }

    /** The case analysis of visit, for a position not seen before. */
    method Decide(rel: nat, pat: nat) returns (matched: bool)
      requires Valid() && rel <= |segments| && pat <= |parts|
      modifies this
      ensures Valid() && matched == MatchFrom(m, parts, segments, rel, pat)
      ensures NewFrom(old(seen), seen, rel + pat + 1)
      ensures calls - old(calls) <= 2 + 2 * (|seen| - |old(seen)|)
      decreases |segments| - rel + |parts| - pat, 0, 1
    {
      matched := false;
      if pat == |parts| {
        matched := rel == |segments|;
      } else if parts[pat] == STARS {
        matched := DecideStars(rel, pat);
      } else if rel < |segments| {
        if m(parts[pat], segments[rel]) {
          matched := Visit(rel + 1, pat + 1);
        }
      }
    }

    /** A `**` takes no segment, or else one segment and then again. */
    method DecideStars(rel: nat, pat: nat) returns (matched: bool)
      requires Valid() && rel <= |segments| && pat < |parts| && parts[pat] == STARS
      modifies this
      ensures Valid() && matched == MatchFrom(m, parts, segments, rel, pat)
      ensures NewFrom(old(seen), seen, rel + pat + 1)
      ensures calls - old(calls) <= 2 + 2 * (|seen| - |old(seen)|)
      decreases |segments| - rel + |parts| - pat, 0, 0
    {
      matched := Visit(rel, pat + 1);
      if !matched && rel < |segments| {
        matched := Visit(rel + 1, pat);
      }
    }

    /** The number of positions there are. */
    function Positions(): nat
    {
      (|segments| + 1) * (|parts| + 1)
    }

    lemma {:induction false} SeenIsSmall()
      requires Valid()
      ensures |seen| <= Positions()
    {
      assert seen <= Grid(|segments| + 1, |parts| + 1);
      GridSize(|segments| + 1, |parts| + 1);
      SubsetSize(seen, Grid(|segments| + 1, |parts| + 1));
    }

    /** The memoised matcher decides the meaning, with a quadratic number of visits. */
    method Match() returns (matched: bool)
      requires memo == map[] && seen == {} && calls == 0
      modifies this
      ensures matched <==> Matches(m, parts, segments)
      ensures calls <= 1 + 2 * Positions()
    {
      matched := Visit(0, 0);
      MatchFromIsMeaning(m, parts, segments, 0, 0);
      assert parts[0..] == parts && segments[0..] == segments;
      SeenIsSmall();
    }
  }

  function Grid(rows: nat, columns: nat): set<Position>
  {
    set i, j | 0 <= i < rows && 0 <= j < columns :: Position(i, j)
  }

  function GridRow(row: nat, columns: nat): set<Position>
  {
    set j | 0 <= j < columns :: Position(row, j)
  }

  lemma {:induction false} RowSize(row: nat, columns: nat)
    ensures |GridRow(row, columns)| == columns
    decreases columns
  {
    if columns > 0 {
      RowSize(row, columns - 1);
      assert GridRow(row, columns) == GridRow(row, columns - 1) + {Position(row, columns - 1)};
    }
  }

  lemma {:induction false} GridSize(rows: nat, columns: nat)
    ensures |Grid(rows, columns)| == rows * columns
    decreases rows
  {
    if rows > 0 {
      GridSize(rows - 1, columns);
      RowSize(rows - 1, columns);
      OneRowMore(rows - 1, columns);
      assert rows * columns == (rows - 1) * columns + columns;
    }
  }

  lemma {:induction false} OneRowMore(rows: nat, columns: nat)
    ensures |Grid(rows + 1, columns)| == |Grid(rows, columns)| + |GridRow(rows, columns)|
  {
    assert Grid(rows + 1, columns) == Grid(rows, columns) + GridRow(rows, columns);
    assert Grid(rows, columns) !! GridRow(rows, columns);
  }

  lemma {:induction false} SubsetSize(small: set<Position>, large: set<Position>)
    requires small <= large
    ensures |small| <= |large|
  {
    assert large == small + (large - small);
  }

  // ---------------------------------------------------------------- what a pattern means

  /** One name means a file of that name at any depth; several names mean the whole path. */
  ghost predicate Means(m: SegmentMatcher, names: seq<string>, segments: seq<string>)
  {
    if |names| == 1 && names[0] != "**" then segments != [] && m(names[0], segments[|segments| - 1])
    else Matches(m, names, segments)
  }

  lemma {:induction false} StarsMatchAll(m: SegmentMatcher, segments: seq<string>)
    ensures Matches(m, [STARS], segments)
  {
    NoParts(m, segments[|segments|..]);
    FirstPart(m, STARS, [], segments);
    assert [STARS] + [] == [STARS] && Covers(m, STARS, segments, 0, |segments|);
  }

  lemma {:induction false} OneNameMeans(m: SegmentMatcher, name: string, segments: seq<string>)
    ensures Matches(m, [STARS] + [name], segments) <==> Means(m, [name], segments)
  {
    LastPart(m, [STARS], segments, name);
    forall cut | 0 <= cut <= |segments|
      ensures Matches(m, [STARS], segments[..cut])
    {
      StarsMatchAll(m, segments[..cut]);
    }
    StarsMatchAll(m, segments);
    if name == STARS {
      StarsTwice(m, [STARS], segments);
    } else if segments != [] {
      assert Covers(m, name, segments, |segments| - 1, |segments|) <==> m(name, segments[|segments| - 1]);
    }
  }

  lemma {:induction false} PartsMean(m: SegmentMatcher, pattern: string, segments: seq<string>)
    requires PatternParts(pattern).Ok?
    ensures PatternNames(pattern) != []
    ensures Matches(m, PatternParts(pattern).value, segments) <==> Means(m, PatternNames(pattern), segments)
  {
    var names := PatternNames(pattern);
    if |names| == 1 {
      OneNameMeans(m, names[0], segments);
      assert [names[0]] == names;
    }
  }

  /** Name `k` is the first one that path.Match rejects. */
  predicate RejectsAt(wellFormed: string -> bool, names: seq<string>, part: string, k: nat)
  {
    && k < |names| && names[k] == part && part != "**" && !wellFormed(part)
    && forall j :: 0 <= j < k ==> names[j] == "**" || wellFormed(names[j])
  }

  ghost predicate RejectsFirst(wellFormed: string -> bool, names: seq<string>, part: string)
  {
    exists k: nat :: RejectsAt(wellFormed, names, part, k)
  }

  lemma {:induction false} FirstBadIs(wellFormed: string -> bool, names: seq<string>)
    ensures var bad := FirstBad(wellFormed, names);
            if bad.Some? then RejectsFirst(wellFormed, names, bad.value)
            else forall k :: 0 <= k < |names| ==> names[k] == "**" || wellFormed(names[k])
    decreases |names|
  {
    if names != [] {
      var rest := names[1..];
      if names[0] != STARS && !wellFormed(names[0]) {
        assert RejectsAt(wellFormed, names, names[0], 0);
      } else {
        FirstBadIs(wellFormed, rest);
        assert forall k :: 1 <= k < |names| ==> names[k] == rest[k - 1];
        var bad := FirstBad(wellFormed, rest);
        if bad.Some? {
          var k: nat :| RejectsAt(wellFormed, rest, bad.value, k);
          assert RejectsAt(wellFormed, names, bad.value, k + 1);
        }
      }
    }
  }

  lemma {:induction false} BadPartsOfNames(wellFormed: string -> bool, pattern: string)
    requires PatternParts(pattern).Ok?
    ensures FirstBad(wellFormed, PatternParts(pattern).value) == FirstBad(wellFormed, PatternNames(pattern))
  {
    var names := PatternNames(pattern);
    assert ([STARS] + names)[1..] == names;
  }

  // ---------------------------------------------------------------- the text of a pattern

  /** Each name behind a slash or a backslash. */
  function Behind(names: seq<string>, marks: seq<char>): string
    requires |marks| == |names|
  {
    if names == [] then "" else [marks[0]] + names[0] + Behind(names[1..], marks[1..])
  }

  predicate SlashMarks(marks: seq<char>) {
    forall k :: 0 <= k < |marks| ==> marks[k] == '/' || marks[k] == '\\'
  }

  predicate NoBackslash(names: seq<string>) {
    forall k :: 0 <= k < |names| ==> '\\' !in names[k]
  }

  lemma {:induction false} WithSlashesConcat(a: string, b: string)
    ensures WithSlashes(a + b) == WithSlashes(a) + WithSlashes(b)
    ensures '\\' !in a ==> WithSlashes(a) == a
    decreases |a|
  {
    if a == "" {
      assert a + b == b;
    } else {
      assert (a + b)[1..] == a[1..] + b && a == [a[0]] + a[1..];
      WithSlashesConcat(a[1..], b);
    }
  }

  lemma {:induction false} BehindWithSlashes(names: seq<string>, marks: seq<char>)
    requires |marks| == |names| && SlashMarks(marks) && NoBackslash(names)
    ensures WithSlashes(Behind(names, marks)) == LexicalPath.Joined(names)
    decreases |names|
  {
    if names != [] {
      var rest := Behind(names[1..], marks[1..]);
      assert [marks[0]] + names[0] + rest == [marks[0]] + (names[0] + rest);
      WithSlashesConcat([marks[0]], names[0] + rest);
      WithSlashesConcat(names[0], rest);
      BehindWithSlashes(names[1..], marks[1..]);
      assert [marks[0]][1..] == "" && WithSlashes([marks[0]]) == "/";
    }
  }

  /** Names between slashes or backslashes are the names of the pattern. */
  lemma {:induction false} NamesOfText(first: string, names: seq<string>, marks: seq<char>)
    requires |marks| == |names| && SlashMarks(marks) && NoBackslash([first] + names)
    requires LexicalPath.AllNames([first] + names)
    requires var text := first + Behind(names, marks); WhiteSpace.TrimSpace(text) == text
    ensures PatternNames(first + Behind(names, marks)) == [first] + names
  {
    var all, text := [first] + names, first + Behind(names, marks);
    assert all[0] == first && all[1..] == names;
    WithSlashesConcat(first, Behind(names, marks));
    assert NoBackslash(names) by {
      assert forall k :: 0 <= k < |names| ==> names[k] == all[k + 1];
    }
    BehindWithSlashes(names, marks);
    assert "/" + (first + LexicalPath.Joined(names)) == LexicalPath.Joined(all);
    RootedNames(all);
  }

  lemma {:induction false} RootedNames(names: seq<string>)
    requires LexicalPath.AllNames(names)
    ensures LexicalPath.Resolve([], LexicalPath.Split(LexicalPath.Joined(names))) == names
  {
    assert LexicalPath.AllSlashFree(names) by {
      assert forall x :: x in names ==> LexicalPath.IsName(x);
    }
    LexicalPath.SplitJoined(names);
    assert ([""] + names)[1..] == names;
    LexicalPath.ResolveNames([], names);
    assert [] + names == names;
  }

  /** White space around a pattern is dropped. */
  lemma {:induction false} TrimmedPattern(pattern: string)
    ensures PatternNames(pattern) == PatternNames(WhiteSpace.TrimSpace(pattern))
  {
    WhiteSpace.TrimSpaceDecides(pattern);
  }

  /** The path of a file below the root, as the builtin passes it, has its own names as segments. */
  lemma {:induction false} SegmentsOfPath(names: seq<string>)
    requires LexicalPath.AllNames(names) && names != []
    requires var rel := LexicalPath.Joined(names)[1..]; WhiteSpace.TrimSpace(rel) == rel
    ensures PathSegments(LexicalPath.Joined(names)[1..]) == names
  {
    assert "/" + LexicalPath.Joined(names)[1..] == LexicalPath.Joined(names);
    RootedNames(names);
  }

  /** From pattern text to verdict: a pattern without names is an error, so is one with a malformed
      name, and any other decides what its names mean. */
  method MatchGlobPattern(m: SegmentMatcher, wellFormed: string -> bool, rel: string, pattern: string)
    returns (r: Result<bool, GlobError>)
    ensures var names := PatternNames(pattern);
            match r
            case Ok(matched) =>
              && names != [] && (matched <==> Means(m, names, PathSegments(rel)))
              && forall k :: 0 <= k < |names| ==> names[k] == "**" || wellFormed(names[k])
            case Err(EmptyPattern) => names == []
            case Err(BadPart(part)) => RejectsFirst(wellFormed, names, part)
  {
    var compiled := CompileGlobPattern(wellFormed, pattern);
    FirstBadIs(wellFormed, PatternNames(pattern));
    if PatternParts(pattern).Ok? {
      BadPartsOfNames(wellFormed, pattern);
      PartsMean(m, pattern, PathSegments(rel));
      CollapseKeepsMeaning(m, PatternParts(pattern).value, PathSegments(rel));
    }
    if compiled.Err? {
      return Err(compiled.error);
    }
    var matcher := new Matcher(m, compiled.value, PathSegments(rel));
    var matched := matcher.Match();
    return Ok(matched);
  }
}
