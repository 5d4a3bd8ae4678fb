/** The `diff` builtin: the table of longest common subsequences and the backtrack through it. */
module LineDiff {
  import opened Prelude

  type Line = string

  // ---------------------------------------------------------------- common subsequences

  /** `s` occurs in the first `i` lines of `a`, at the increasing positions `at`. */
  predicate Embeds(s: seq<Line>, a: seq<Line>, i: nat, at: seq<nat>)
    requires i <= |a|
  {
    && |at| == |s|
    && (forall k :: 0 <= k < |s| ==> at[k] < i && a[at[k]] == s[k])
    && (forall k, l :: 0 <= k < l < |s| ==> at[k] < at[l])
  }

  ghost predicate IsCommon(s: seq<Line>, a: seq<Line>, i: nat, b: seq<Line>, j: nat)
    requires i <= |a| && j <= |b|
  {
    (exists at :: Embeds(s, a, i, at)) && (exists at :: Embeds(s, b, j, at))
  }

  /** The value of the table at row `i` and column `j`. */
  function Cell(a: seq<Line>, b: seq<Line>, i: nat, j: nat): nat
    requires i <= |a| && j <= |b|
    decreases i + j
  {
    if i == 0 || j == 0 then 0
    else if a[i - 1] == b[j - 1] then Cell(a, b, i - 1, j - 1) + 1
    else if Cell(a, b, i - 1, j) >= Cell(a, b, i, j - 1) then Cell(a, b, i - 1, j)
    else Cell(a, b, i, j - 1)
  }

  /** The first `rows` rows of the table are filled. */
  ghost predicate Filled(table: array2<nat>, a: seq<Line>, b: seq<Line>, rows: nat)
    requires table.Length0 == |a| + 1 && table.Length1 == |b| + 1 && rows <= |a| + 1
    reads table
  {
    forall i, j :: 0 <= i < rows && 0 <= j <= |b| ==> table[i, j] == Cell(a, b, i, j)
  }

  /** The inner loop: row `i`, from the row above it. */
  method FillRow(table: array2<nat>, a: seq<Line>, b: seq<Line>, i: nat)
    requires table.Length0 == |a| + 1 && table.Length1 == |b| + 1 && 1 <= i <= |a|
    requires Filled(table, a, b, i) && table[i, 0] == 0
    modifies table
    ensures Filled(table, a, b, i + 1)
    ensures forall k, l :: i < k <= |a| && 0 <= l <= |b| ==> table[k, l] == old(table[k, l])
  {
    for j := 1 to |b| + 1
      invariant Filled(table, a, b, i)
      invariant forall l :: 0 <= l < j ==> table[i, l] == Cell(a, b, i, l)
      invariant forall k, l :: i < k <= |a| && 0 <= l <= |b| ==> table[k, l] == old(table[k, l])
    {
      if a[i - 1] == b[j - 1] {
        table[i, j] := table[i - 1, j - 1] + 1;
      } else if table[i - 1, j] >= table[i, j - 1] {
        table[i, j] := table[i - 1, j];
      } else {
        table[i, j] := table[i, j - 1];
      }
    }
  }

  method LcsTable(a: seq<Line>, b: seq<Line>) returns (table: array2<nat>)
    ensures fresh(table) && table.Length0 == |a| + 1 && table.Length1 == |b| + 1
    ensures Filled(table, a, b, |a| + 1)
  {
    var m, n := |a|, |b|;
    table := new nat[m + 1, n + 1]((i, j) => 0);
    for i := 1 to m + 1
      invariant Filled(table, a, b, i)
      invariant forall k :: i <= k <= m ==> table[k, 0] == 0
    {
      FillRow(table, a, b, i);
    }
  }

  lemma {:induction false} EmbedsEarlier(s: seq<Line>, a: seq<Line>, i: nat, at: seq<nat>)
    requires 0 < i <= |a| && Embeds(s, a, i, at) && (s != [] ==> at[|s| - 1] != i - 1)
    ensures Embeds(s, a, i - 1, at)
  {
  }

  lemma {:induction false} EmbedsWithoutLast(s: seq<Line>, a: seq<Line>, i: nat, at: seq<nat>)
    requires 0 < i <= |a| && s != [] && Embeds(s, a, i, at)
    ensures Embeds(s[..|s| - 1], a, i - 1, at[..|s| - 1])
  {
    assert forall k :: 0 <= k < |s| - 1 ==> at[k] < at[|s| - 1];
  }

  /** No common subsequence is longer than the table says. */
  lemma {:induction false} CellIsUpperBound(s: seq<Line>, a: seq<Line>, i: nat, at: seq<nat>, b: seq<Line>, j: nat,
                                            at': seq<nat>)
    requires i <= |a| && j <= |b| && Embeds(s, a, i, at) && Embeds(s, b, j, at')
    ensures |s| <= Cell(a, b, i, j)
    decreases i + j
  {
    if s != [] {
      assert at[|s| - 1] < i && at'[|s| - 1] < j;
      if a[i - 1] == b[j - 1] {
        EmbedsWithoutLast(s, a, i, at);
        EmbedsWithoutLast(s, b, j, at');
        CellIsUpperBound(s[..|s| - 1], a, i - 1, at[..|s| - 1], b, j - 1, at'[..|s| - 1]);
      } else if at[|s| - 1] != i - 1 {
        EmbedsEarlier(s, a, i, at);
        CellIsUpperBound(s, a, i - 1, at, b, j, at');
      } else {
        EmbedsEarlier(s, b, j, at');
        CellIsUpperBound(s, a, i, at, b, j - 1, at');
      }
    }
  }

  // ---------------------------------------------------------------- edit scripts

  datatype Edit = Keep(line: Line) | Remove(line: Line) | Add(line: Line)

  /** The file an edit script starts from. */
  function Before(edits: seq<Edit>): seq<Line>
  {
    if edits == [] then []
    else
      var e, init := edits[|edits| - 1], Before(edits[..|edits| - 1]);
      if e.Add? then init else init + [e.line]
  }

  /** The file an edit script produces. */
  function After(edits: seq<Edit>): seq<Line>
  {
    if edits == [] then []
    else
      var e, init := edits[|edits| - 1], After(edits[..|edits| - 1]);
      if e.Remove? then init else init + [e.line]
  }

  function Kept(edits: seq<Edit>): seq<Line>
  {
    if edits == [] then []
    else
      var e, init := edits[|edits| - 1], Kept(edits[..|edits| - 1]);
      if e.Keep? then init + [e.line] else init
  }

  /** The number of `+` and `-` lines. */
  function Cost(edits: seq<Edit>): nat
  {
    if edits == [] then 0
    else Cost(edits[..|edits| - 1]) + if edits[|edits| - 1].Keep? then 0 else 1
  }

  lemma {:induction false} CostFromKept(edits: seq<Edit>)
    ensures Cost(edits) + 2 * |Kept(edits)| == |Before(edits)| + |After(edits)|
    decreases |edits|
  {
    if edits != [] {
      CostFromKept(edits[..|edits| - 1]);
    }
  }

  lemma {:induction false} EmbedsInLonger(s: seq<Line>, a: seq<Line>, line: Line, at: seq<nat>)
    requires Embeds(s, a, |a|, at)
    ensures Embeds(s, a + [line], |a| + 1, at)
    ensures Embeds(s + [line], a + [line], |a| + 1, at + [|a|])
  {
  }

  /** The kept lines are a common subsequence of the two files. */
  lemma {:induction false} KeptIsCommon(edits: seq<Edit>) returns (at: seq<nat>, at': seq<nat>)
    ensures Embeds(Kept(edits), Before(edits), |Before(edits)|, at)
    ensures Embeds(Kept(edits), After(edits), |After(edits)|, at')
    decreases |edits|
  {
    if edits == [] {
      at, at' := [], [];
    } else {
      var init, e := edits[..|edits| - 1], edits[|edits| - 1];
      at, at' := KeptIsCommon(init);
      EmbedsInLonger(Kept(init), Before(init), e.line, at);
      EmbedsInLonger(Kept(init), After(init), e.line, at');
      if e.Keep? {
        at, at' := at + [|Before(init)|], at' + [|After(init)|];
      }
    }
  }

  // ---------------------------------------------------------------- the backtrack

  /** The backtrack's choice at row `i` and column `j`. */
  function Choice(a: seq<Line>, b: seq<Line>, i: nat, j: nat): (e: Edit)
    requires i <= |a| && j <= |b| && (i > 0 || j > 0)
    ensures !e.Add? ==> i > 0 && e.line == a[i - 1]
    ensures !e.Remove? ==> j > 0 && e.line == b[j - 1]
  {
    if i > 0 && j > 0 && a[i - 1] == b[j - 1] then Keep(a[i - 1])
    else if j > 0 && (i == 0 || Cell(a, b, i, j - 1) >= Cell(a, b, i - 1, j)) then Add(b[j - 1])
    else Remove(a[i - 1])
  }

  function Row(e: Edit, i: nat): nat
    requires e.Add? || i > 0
  {
    if e.Add? then i else i - 1
  }

  function Column(e: Edit, j: nat): nat
    requires e.Remove? || j > 0
  {
    if e.Remove? then j else j - 1
  }

  /** The edits between the first `i` lines of `a` and the first `j` lines of `b`. */
  function Script(a: seq<Line>, b: seq<Line>, i: nat, j: nat): seq<Edit>
    requires i <= |a| && j <= |b|
    decreases i + j
  {
    if i == 0 && j == 0 then []
    else
      var e := Choice(a, b, i, j);
      Script(a, b, Row(e, i), Column(e, j)) + [e]
  }

  lemma {:induction false} CellAfterChoice(a: seq<Line>, b: seq<Line>, i: nat, j: nat)
    requires i <= |a| && j <= |b| && (i > 0 || j > 0)
    ensures var e := Choice(a, b, i, j);
            Cell(a, b, i, j) == Cell(a, b, Row(e, i), Column(e, j)) + if e.Keep? then 1 else 0
  {
  }

  lemma {:induction false} EditAppends(init: seq<Edit>, e: Edit)
    ensures Before(init + [e]) == if e.Add? then Before(init) else Before(init) + [e.line]
    ensures After(init + [e]) == if e.Remove? then After(init) else After(init) + [e.line]
    ensures Kept(init + [e]) == if e.Keep? then Kept(init) + [e.line] else Kept(init)
    ensures RenderedAll(init + [e]) == RenderedAll(init) + [Rendered(e)]
  {
    assert (init + [e])[..|init + [e]| - 1] == init;
  }

  lemma {:induction false} TakeOneMore(a: seq<Line>, i: nat)
    requires 0 < i <= |a|
    ensures a[..i] == a[..i - 1] + [a[i - 1]]
  {
  }

  lemma {:induction false} PatchStep(a: seq<Line>, b: seq<Line>, i: nat, j: nat, init: seq<Edit>, e: Edit)
    requires i <= |a| && j <= |b| && (i > 0 || j > 0) && e == Choice(a, b, i, j)
    requires Before(init) == a[..Row(e, i)] && After(init) == b[..Column(e, j)]
    ensures Before(init + [e]) == a[..i] && After(init + [e]) == b[..j]
  {
    EditAppends(init, e);
    if !e.Add? {
      TakeOneMore(a, i);
    }
    if !e.Remove? {
      TakeOneMore(b, j);
    }
  }

  /** The script turns one file into the other and keeps as many lines as the table says. */
  lemma {:induction false} ScriptIsPatch(a: seq<Line>, b: seq<Line>, i: nat, j: nat)
    requires i <= |a| && j <= |b|
    ensures Before(Script(a, b, i, j)) == a[..i]
    ensures After(Script(a, b, i, j)) == b[..j]
    ensures |Kept(Script(a, b, i, j))| == Cell(a, b, i, j)
    decreases i + j
  {
    if i > 0 || j > 0 {
      var e := Choice(a, b, i, j);
      var init := Script(a, b, Row(e, i), Column(e, j));
      ScriptIsPatch(a, b, Row(e, i), Column(e, j));
      PatchStep(a, b, i, j, init, e);
      EditAppends(init, e);
      CellAfterChoice(a, b, i, j);
    }
  }

  function Diff(a: seq<Line>, b: seq<Line>): seq<Edit>
  {
    Script(a, b, |a|, |b|)
  }

  /** The table entry is the length of some common subsequence, and of no shorter one than
      the longest. */
  lemma {:induction false} CellIsExact(a: seq<Line>, b: seq<Line>, i: nat, j: nat)
    requires i <= |a| && j <= |b|
    ensures exists s :: IsCommon(s, a, i, b, j) && |s| == Cell(a, b, i, j)
    ensures forall s :: IsCommon(s, a, i, b, j) ==> |s| <= Cell(a, b, i, j)
  {
    ScriptIsPatch(a, b, i, j);
    var edits := Script(a, b, i, j);
    var at, at' := KeptIsCommon(edits);
    assert Embeds(Kept(edits), a, i, at) && Embeds(Kept(edits), b, j, at');
    assert IsCommon(Kept(edits), a, i, b, j);
    forall s | IsCommon(s, a, i, b, j)
      ensures |s| <= Cell(a, b, i, j)
    {
      var p :| Embeds(s, a, i, p);
      var q :| Embeds(s, b, j, q);
      CellIsUpperBound(s, a, i, p, b, j, q);
    }
  }

  /** The diff is a patch from the first file to the second, and no edit script between the
      same files has fewer `+` and `-` lines. */
  lemma {:induction false} DiffIsMinimalPatch(a: seq<Line>, b: seq<Line>)
    ensures Before(Diff(a, b)) == a && After(Diff(a, b)) == b
    ensures |Kept(Diff(a, b))| == Cell(a, b, |a|, |b|)
    ensures forall edits :: Before(edits) == a && After(edits) == b ==> Cost(Diff(a, b)) <= Cost(edits)
  {
    ScriptIsPatch(a, b, |a|, |b|);
    assert a[..|a|] == a && b[..|b|] == b;
    CostFromKept(Diff(a, b));
    forall edits | Before(edits) == a && After(edits) == b
      ensures Cost(Diff(a, b)) <= Cost(edits)
    {
      CostFromKept(edits);
      var at, at' := KeptIsCommon(edits);
      CellIsUpperBound(Kept(edits), a, |a|, at, b, |b|, at');
    }
  }

  // ---------------------------------------------------------------- which minimal patch

  predicate IsPatch(edits: seq<Edit>, a: seq<Line>, b: seq<Line>) {
    Before(edits) == a && After(edits) == b
  }

  function Rank(e: Edit): nat
  {
    match e
    case Keep(_) => 0
    case Add(_) => 1
    case Remove(_) => 2
  }

  /** Read from the last edit on, `x` keeps a line where `y` does not, or adds one where `y` removes
      one, at the first place where they differ. */
  predicate ComesBefore(x: seq<Edit>, y: seq<Edit>)
  {
    || x == y
    || (x != [] && y != [] &&
        if x[|x| - 1] == y[|y| - 1] then ComesBefore(x[..|x| - 1], y[..|y| - 1])
        else Rank(x[|x| - 1]) < Rank(y[|y| - 1]))
  }

  /** A patch that keeps as many lines as the table says, and how it ends. */
  lemma {:induction false} LastOfMinimal(a: seq<Line>, b: seq<Line>, i: nat, j: nat, edits: seq<Edit>)
    requires i <= |a| && j <= |b| && (i > 0 || j > 0)
    requires IsPatch(edits, a[..i], b[..j]) && |Kept(edits)| == Cell(a, b, i, j)
    ensures edits != []
    ensures var e, c := edits[|edits| - 1], Choice(a, b, i, j);
            if e == c then
              var init := edits[..|edits| - 1];
              && IsPatch(init, a[..Row(c, i)], b[..Column(c, j)])
              && |Kept(init)| == Cell(a, b, Row(c, i), Column(c, j))
            else Rank(c) < Rank(e)
  {
    assert a[..i] != [] || b[..j] != [];
    var init, e, c := edits[..|edits| - 1], edits[|edits| - 1], Choice(a, b, i, j);
    assert edits == init + [e];
    EditAppends(init, e);
    if !e.Add? {
      TakeOneMore(a, i);
      LastSplits(Before(init), e.line, a[..i - 1], a[i - 1]);
    }
    if !e.Remove? {
      TakeOneMore(b, j);
      LastSplits(After(init), e.line, b[..j - 1], b[j - 1]);
    }
    CellAfterChoice(a, b, i, j);
    if c.Remove? && e.Add? {
      KeptWithin(a, b, i, j - 1, init);
    }
  }

  lemma {:induction false} LastSplits(s: seq<Line>, x: Line, t: seq<Line>, y: Line)
    requires s + [x] == t + [y]
    ensures s == t && x == y
  {
    assert (s + [x])[..|s|] == s && (t + [y])[..|t|] == t;
    assert (s + [x])[|s|] == x && (t + [y])[|t|] == y;
  }

  lemma {:induction false} KeptWithin(a: seq<Line>, b: seq<Line>, i: nat, j: nat, edits: seq<Edit>)
    requires i <= |a| && j <= |b| && IsPatch(edits, a[..i], b[..j])
    ensures |Kept(edits)| <= Cell(a, b, i, j)
  {
    var at, at' := KeptIsCommon(edits);
    assert Embeds(Kept(edits), a, i, at) && Embeds(Kept(edits), b, j, at');
    CellIsUpperBound(Kept(edits), a, i, at, b, j, at');
  }

  lemma {:induction false} EditsSomething(edits: seq<Edit>)
    requires edits != []
    ensures Before(edits) != [] || After(edits) != []
  {
  }

  lemma {:induction false} ScriptComesFirst(a: seq<Line>, b: seq<Line>, i: nat, j: nat, edits: seq<Edit>)
    requires i <= |a| && j <= |b|
    requires IsPatch(edits, a[..i], b[..j]) && |Kept(edits)| == Cell(a, b, i, j)
    ensures ComesBefore(Script(a, b, i, j), edits)
    decreases i + j
  {
    if i == 0 && j == 0 {
      if edits != [] {
        EditsSomething(edits);
      }
    } else {
      var c := Choice(a, b, i, j);
      var init := Script(a, b, Row(c, i), Column(c, j));
      LastOfMinimal(a, b, i, j, edits);
      assert (init + [c])[..|init|] == init;
      if edits[|edits| - 1] == c {
        ScriptComesFirst(a, b, Row(c, i), Column(c, j), edits[..|edits| - 1]);
      }
    }
  }

  /** Of all minimal patches the diff is the one that, read from the end, keeps a line wherever one can
      be kept and adds lines before it removes any. */
  lemma {:induction false} DiffComesFirst(a: seq<Line>, b: seq<Line>, edits: seq<Edit>)
    requires IsPatch(edits, a, b) && Cost(edits) <= Cost(Diff(a, b))
    ensures ComesBefore(Diff(a, b), edits)
  {
    DiffIsMinimalPatch(a, b);
    CostFromKept(edits);
    CostFromKept(Diff(a, b));
    assert a[..|a|] == a && b[..|b|] == b;
    KeptWithin(a, b, |a|, |b|, edits);
    ScriptComesFirst(a, b, |a|, |b|, edits);
  }

  // ---------------------------------------------------------------- the builtin

  function Rendered(e: Edit): Line
  {
    match e
    case Keep(line) => " " + line
    case Remove(line) => "-" + line
    case Add(line) => "+" + line
  }

  function RenderedAll(edits: seq<Edit>): seq<Line>
  {
    if edits == [] then [] else RenderedAll(edits[..|edits| - 1]) + [Rendered(edits[|edits| - 1])]
  }

  /** A line of output, read back by its first byte. */
  predicate Marked(line: Line) {
    line != "" && (line[0] == ' ' || line[0] == '+' || line[0] == '-')
  }

  function ReadEdit(line: Line): Edit
    requires Marked(line)
  {
    if line[0] == ' ' then Keep(line[1..]) else if line[0] == '+' then Add(line[1..]) else Remove(line[1..])
  }

  predicate AllMarked(body: seq<Line>) {
    forall k :: 0 <= k < |body| ==> Marked(body[k])
  }

  function ReadAll(body: seq<Line>): seq<Edit>
    requires AllMarked(body)
  {
    if body == [] then [] else ReadAll(body[..|body| - 1]) + [ReadEdit(body[|body| - 1])]
  }

  lemma {:induction false} ReadsBack(edits: seq<Edit>)
    ensures AllMarked(RenderedAll(edits)) && ReadAll(RenderedAll(edits)) == edits
    decreases |edits|
  {
    if edits != [] {
      var init, e := edits[..|edits| - 1], edits[|edits| - 1];
      ReadsBack(init);
      var body := RenderedAll(init) + [Rendered(e)];
      assert body[..|body| - 1] == RenderedAll(init);
      assert Rendered(e)[1..] == e.line;
      assert edits == init + [e];
    }
  }

  /** Read back, the lines are a patch between the two files; none has fewer `+` and `-` lines, and of
      those with as many it is the one that comes first. */
  ghost predicate IsBestDiff(body: seq<Line>, a: seq<Line>, b: seq<Line>)
  {
    && AllMarked(body) && IsPatch(ReadAll(body), a, b)
    && (forall edits :: IsPatch(edits, a, b) ==> Cost(ReadAll(body)) <= Cost(edits))
    && (forall edits :: IsPatch(edits, a, b) && Cost(edits) == Cost(ReadAll(body)) ==>
          ComesBefore(ReadAll(body), edits))
  }

  lemma {:induction false} RenderedIsBest(a: seq<Line>, b: seq<Line>)
    ensures IsBestDiff(RenderedAll(Diff(a, b)), a, b)
  {
    ReadsBack(Diff(a, b));
    DiffIsMinimalPatch(a, b);
    forall edits | IsPatch(edits, a, b) && Cost(edits) == Cost(Diff(a, b))
      ensures ComesBefore(Diff(a, b), edits)
    {
      DiffComesFirst(a, b, edits);
    }
  }

  /** strings.Join(lines, "\n") */
  function JoinLines(lines: seq<Line>): string
  {
    if lines == [] then ""
    else if |lines| == 1 then lines[0]
    else lines[0] + "\n" + JoinLines(lines[1..])
  }

  /** The lines of a text, newlines left out. */
  function SplitLines(s: string): (lines: seq<Line>)
    ensures lines != []
  {
    if s == "" then [""]
    else if s[0] == '\n' then [""] + SplitLines(s[1..])
    else var rest := SplitLines(s[1..]); [[s[0]] + rest[0]] + rest[1..]
  }

  lemma {:induction false} SplitAtNewline(line: Line, after: string)
    requires '\n' !in line
    ensures SplitLines(line + "\n" + after) == [line] + SplitLines(after)
    ensures SplitLines(line) == [line]
    decreases |line|
  {
    if line == "" {
      assert (line + "\n" + after)[1..] == after;
    } else {
      assert (line + "\n" + after)[1..] == line[1..] + "\n" + after;
      assert line[0] in line && [line[0]] + line[1..] == line;
      SplitAtNewline(line[1..], after);
      assert ([line[1..]] + SplitLines(after))[1..] == SplitLines(after);
    }
  }

  /** Lines without newlines can be read back from the joined text. */
  lemma {:induction false} JoinedSplits(lines: seq<Line>)
    requires lines != [] && forall line :: line in lines ==> '\n' !in line
    ensures SplitLines(JoinLines(lines)) == lines
    decreases |lines|
  {
    assert lines[0] in lines;
    if |lines| == 1 {
      SplitAtNewline(lines[0], "");
    } else {
      SplitAtNewline(lines[0], JoinLines(lines[1..]));
      JoinedSplits(lines[1..]);
    }
  }

  function Reversed(lines: seq<Line>): seq<Line>
  {
    if lines == [] then [] else [lines[|lines| - 1]] + Reversed(lines[..|lines| - 1])
  }

  lemma {:induction false} ReversedCons(line: Line, lines: seq<Line>)
    ensures Reversed(lines + [line]) == [line] + Reversed(lines)
  {
    assert (lines + [line])[..|lines|] == lines;
  }

  lemma {:induction false} BacktrackStep(a: seq<Line>, b: seq<Line>, i: nat, j: nat, changes: seq<Line>)
    requires i <= |a| && j <= |b| && (i > 0 || j > 0)
    ensures var e := Choice(a, b, i, j);
            RenderedAll(Script(a, b, Row(e, i), Column(e, j))) + Reversed(changes + [Rendered(e)]) ==
            RenderedAll(Script(a, b, i, j)) + Reversed(changes)
  {
    var e := Choice(a, b, i, j);
    var init := Script(a, b, Row(e, i), Column(e, j));
    EditAppends(init, e);
    ReversedCons(Rendered(e), changes);
    ConcatAssociates(RenderedAll(init), [Rendered(e)], Reversed(changes));
  }

  /** The backtrack collects the lines last to first. */
  method Backtrack(a: seq<Line>, b: seq<Line>) returns (changes: seq<Line>)
    ensures Reversed(changes) == RenderedAll(Diff(a, b))
  {
    var lcs := LcsTable(a, b);
    var i, j := |a|, |b|;
    changes := [];
    ghost var goal := RenderedAll(Diff(a, b));
    while i > 0 || j > 0
      invariant 0 <= i <= |a| && 0 <= j <= |b|
      invariant RenderedAll(Script(a, b, i, j)) + Reversed(changes) == goal
      decreases i + j
      modifies {}
    {
      ghost var e, i0, j0, changes0 := Choice(a, b, i, j), i, j, changes;
      if i > 0 && j > 0 && a[i - 1] == b[j - 1] {
        changes := changes + [" " + a[i - 1]];
        i, j := i - 1, j - 1;
      } else if j > 0 && (i == 0 || lcs[i, j - 1] >= lcs[i - 1, j]) {
        changes := changes + ["+" + b[j - 1]];
        j := j - 1;
      } else {
        changes := changes + ["-" + a[i - 1]];
        i := i - 1;
      }
      assert i == Row(e, i0) && j == Column(e, j0) && changes == changes0 + [Rendered(e)];
      BacktrackStep(a, b, i0, j0, changes0);
    }
    assert [] + Reversed(changes) == Reversed(changes);
  }

  method SimpleDiff(path1: string, path2: string, lines1: seq<Line>, lines2: seq<Line>) returns (r: string)
    ensures r == JoinLines(["--- " + path1, "+++ " + path2] + RenderedAll(Diff(lines1, lines2)))
    ensures exists body :: r == JoinLines(["--- " + path1, "+++ " + path2] + body) && IsBestDiff(body, lines1, lines2)
  {
    RenderedIsBest(lines1, lines2);
    var out := ["--- " + path1, "+++ " + path2];
    ghost var header := out;
    var changes := Backtrack(lines1, lines2);
    var k := |changes|;
    assert changes[..k] == changes;
    while k > 0
      invariant 0 <= k <= |changes|
      invariant out + Reversed(changes[..k]) == header + Reversed(changes)
    {
      k := k - 1;
      assert changes[..k + 1] == changes[..k] + [changes[k]];
      ReversedCons(changes[k], changes[..k]);
      ConcatAssociates(out, [changes[k]], Reversed(changes[..k]));
      out := out + [changes[k]];
    }
    assert out + [] == out;
    return JoinLines(out);
  }
}
