/** The synthetic tree for any mount points: names may end in white space, and a point may begin with
    a `..`. What a listing then holds, and exactly which mount points a descent still reaches. */
module SyntheticNames {
  import opened Prelude
  import opened LexicalPath
  import opened WhiteSpace
  import opened MountRouter
  import opened SyntheticTree
  import EnginePath
  import Ordering

  /** The components of a mount point: any names, or the text that a climbing raw point leaves. */
  predicate IsPoint(c: seq<string>)
  {
    c != [] && (AllNames(c) || ((c[0] == "." || c[0] == "..") && AllSlashFree(c)))
  }

  /** The active mounts' points, as components. */
  predicate NamedPoints(active: seq<Mounted>, points: seq<seq<string>>)
  {
    |points| == |active| &&
    forall k :: 0 <= k < |active| ==> IsPoint(points[k]) && active[k].point == Absolute(points[k])
  }

  /** Every point that a router accepts has such components. */
  lemma {:induction false} PointHasComponents(raw: string) returns (c: seq<string>)
    requires EnginePath.EngineNormalize(raw) != "/"
    ensures IsPoint(c) && EnginePath.EngineNormalize(raw) == Absolute(c)
  {
    EnginePath.NormalisersAgreeIff(raw);
    if EnginePath.StaysBelow(raw) {
      NormalizedComponents(raw);
      c := Components(raw);
    } else {
      c := EnginePath.ClimbingComponents(raw);
    }
  }

  lemma {:induction false} PointParts(c: seq<string>)
    requires IsPoint(c)
    ensures AllSlashFree(c) && c[0] != "" && (!AllNames(c) ==> !IsName(c[0]))
  {
    assert c[0] in c;
    if AllNames(c) {
      assert forall x :: x in c ==> IsName(x);
    }
  }

  lemma {:induction false} HeadOfPrefix(c: seq<string>, d: seq<string>)
    requires d != [] && |d| <= |c| && c[..|d|] == d && AllNames(d)
    ensures IsName(c[0])
  {
    assert c[0] == d[0] && d[0] in d;
  }

  /** Where a point stops consisting of names it has only begun. */
  lemma {:induction false} OnlyFirstIsNoName(c: seq<string>, n: nat)
    requires IsPoint(c) && n < |c| && AllNames(c[..n]) && !IsName(c[n])
    ensures n == 0 && (c[0] == "." || c[0] == "..")
  {
    PointParts(c);
    var d := c[..n];
    assert c[n] in c;
    if d != [] {
      HeadOfPrefix(c, d);
    }
  }

  /** The textual tests on a point are those on its components. */
  lemma {:induction false} PrefixOfPoint(d: seq<string>, c: seq<string>)
    requires AllNames(d) && IsPoint(c)
    ensures HasPrefix(Absolute(c), Absolute(d) + "/") <==> d != [] && Above(d, c)
    ensures Absolute(c) == Absolute(d) <==> c == d
  {
    PointParts(c);
    if d == [] {
      DoubleSlash(c);
      NotRoot(c);
    } else if AllNames(c) {
      PrefixIsComponentPrefix(d, c);
      if Absolute(c) == Absolute(d) {
        AbsoluteIsInjective(c, d);
      }
    } else {
      ClimbsElsewhere(d, c);
    }
  }

  lemma {:induction false} NotRoot(c: seq<string>)
    requires c != [] && c[0] != ""
    ensures Absolute(c) != "/"
  {
    assert |Joined(c)| > 1;
  }

  lemma {:induction false} ClimbsElsewhere(d: seq<string>, c: seq<string>)
    requires AllNames(d) && d != [] && c != [] && AllSlashFree(c) && !IsName(c[0])
    ensures !HasPrefix(Absolute(c), Absolute(d) + "/") && Absolute(c) != Absolute(d) && c != d && !Above(d, c)
  {
    assert IsName(d[0]) && AllSlashFree(d);
    SplitJoined(c);
    SplitJoined(d);
    assert ([""] + c)[1] == c[0] && ([""] + d)[1] == d[0];
    if Above(d, c) {
      HeadOfPrefix(c, d);
    }
    if HasPrefix(Absolute(c), Absolute(d) + "/") {
      PrefixOfText(Absolute(c), d);
    }
  }

  lemma {:induction false} TrimmedName(name: string)
    requires NoSlash(name)
    ensures TrimSpace(name) == "" <==> TrimRight(name) == ""
    ensures TrimRight(name) == name <==> !EndsInSpace(name)
    ensures NoSlash(TrimRight(name)) && !EndsInSpace(TrimRight(name))
  {
    TrimRightDecides(name);
    BlankIff(name);
  }

  /** The child of `d` on the way to `c`: none if its name is blank. */
  lemma {:induction false} ChildOnTheWay(d: seq<string>, c: seq<string>)
    requires AllNames(d) && IsPoint(c)
    ensures ChildToward(Absolute(d), Absolute(c)) ==
            if Above(d, c) && TrimSpace(c[|d|]) != "" then Some(Absolute(d + [c[|d|]])) else None
  {
    PrefixOfPoint(d, c);
    PointParts(c);
    if d != [] {
      RootOnlyEmpty(d);
    }
    assert d == [] ==> Joined(d) + "/" == "/";
    if Above(d, c) {
      var name, rest := c[|d|], c[|d|..];
      assert rest[1..] == c[|d| + 1..] && name in c;
      BelowText(d, c);
      ConcatAssociates(Joined(d), "/", name + Joined(rest[1..]));
      ChildText(d, name);
      var prefix, point := DirPrefix(Absolute(d)), Absolute(c);
      assert point == prefix + (name + Joined(rest[1..]));
      assert point[..|prefix|] == prefix && point[|prefix|..] == name + Joined(rest[1..]);
      assert forall p :: p in rest ==> p in c;
      SplitNames(rest);
      if TrimSpace(name) != "" {
        StartOfName(name, rest[1..]);
      }
    }
  }

  /** What a child's path becomes when it is normalised once more. */
  lemma {:induction false} ChildNormal(d: seq<string>, name: string)
    requires AllNames(d) && NoSlash(name)
    ensures EnginePath.EngineNormalize(Absolute(d + [name])) == Absolute(Push(d, TrimRight(name)))
    ensures AllNames(Push(d, TrimRight(name))) && |Push(d, TrimRight(name))| <= |d| + 1
    ensures |Push(d, TrimRight(name))| == |d| + 1 ==> Push(d, TrimRight(name)) == d + [TrimRight(name)]
  {
    NormalizeChild(d, name);
    ChildText(d, name);
    EnginePath.RootedAgrees(Absolute(d + [name]));
    TrimmedName(name);
  }

  // ---------------------------------------------------------------- what a listing holds

  /** A listed path: at most one component below `dir`, and then not ending in white space. */
  ghost predicate ListedForm(dir: seq<string>, p: string)
  {
    exists q :: AllNames(q) && p == Absolute(q) && |q| <= |dir| + 1 && (|q| == |dir| + 1 ==> !EndsInSpace(p))
  }

  ghost predicate AllListedForms(dir: seq<string>, children: seq<string>)
  {
    forall p :: p in children ==> ListedForm(dir, p)
  }

  lemma {:induction false} IsListedForm(dir: seq<string>, q: seq<string>)
    requires AllNames(q) && |q| <= |dir| + 1 && (|q| == |dir| + 1 ==> !EndsInSpace(Absolute(q)))
    ensures ListedForm(dir, Absolute(q))
  {
  }

  lemma {:induction false} NormalIsListedForm(dir: seq<string>, name: string)
    requires AllNames(dir) && NoSlash(name) && TrimSpace(name) != ""
    ensures ListedForm(dir, EnginePath.EngineNormalize(Absolute(dir + [name])))
  {
    ChildNormal(dir, name);
    TrimmedName(name);
    LastName(dir, TrimRight(name));
    IsListedForm(dir, Push(dir, TrimRight(name)));
  }

  lemma {:induction false} SameStep(dir: seq<string>, init: seq<string>, last: string, name: string)
    requires AllNames(dir) && IsName(name) && AllNames(init) && IsName(last)
    requires |init| <= |dir| && (|init| == |dir| ==> !EndsInSpace(Absolute(init + [last])))
    requires EnginePath.EngineNormalize(Absolute(init + [last])) == Absolute(dir + [name])
    ensures init + [last] == dir + [name]
  {
    ChildNormal(init, last);
    assert AllNames(dir + [name]);
    AbsoluteIsInjective(Push(init, TrimRight(last)), dir + [name]);
    TrimmedName(last);
    LastName(init, last);
  }

  lemma {:induction false} RootIsNoStep(dir: seq<string>, name: string)
    requires AllNames(dir) && IsName(name)
    ensures EnginePath.EngineNormalize(Absolute([])) != Absolute(dir + [name])
  {
    EnginePath.RootedAgrees("/");
    NormalizeOfAbsolute([]);
    assert AllNames(dir + [name]);
    RootOnlyEmpty(dir + [name]);
  }

  lemma {:induction false} OnlyItselfAt(dir: seq<string>, q: seq<string>, name: string)
    requires AllNames(dir) && IsName(name) && AllNames(q)
    requires |q| <= |dir| + 1 && (|q| == |dir| + 1 ==> !EndsInSpace(Absolute(q)))
    requires EnginePath.EngineNormalize(Absolute(q)) == Absolute(dir + [name])
    ensures q == dir + [name]
  {
    RootIsNoStep(dir, name);
    if q != [] {
      var init, last := q[..|q| - 1], q[|q| - 1];
      assert q == init + [last] && last in q;
      SameStep(dir, init, last, name);
    }
  }

  /** Only the path itself keeps a step from being appended. */
  lemma {:induction false} OnlyItselfBlocks(dir: seq<string>, p: string, name: string)
    requires AllNames(dir) && IsName(name) && ListedForm(dir, p)
    requires EnginePath.EngineNormalize(p) == Absolute(dir + [name])
    ensures p == Absolute(dir + [name])
  {
    var q :| AllNames(q) && p == Absolute(q) && |q| <= |dir| + 1 && (|q| == |dir| + 1 ==> !EndsInSpace(p));
    OnlyItselfAt(dir, q, name);
  }

  lemma {:induction false} AppendUniqueKeepsForms(dir: seq<string>, children: seq<string>, step: string)
    requires AllNames(dir) && AllListedForms(dir, children) && NoSlash(step) && TrimSpace(step) != ""
    ensures AllListedForms(dir, AppendUnique(children, Absolute(dir + [step])))
  {
    NormalIsListedForm(dir, step);
    AppendUniqueIn(children, Absolute(dir + [step]));
  }

  lemma {:induction false} AppendUniqueIn(paths: seq<string>, candidate: string)
    ensures var normal := EnginePath.EngineNormalize(candidate);
            forall p :: p in AppendUnique(paths, candidate) <==>
                          p in paths || (p == normal && !HasNormal(paths, normal))
  {
    var normal := EnginePath.EngineNormalize(candidate);
    Ordering.SameMembers(Ordering.Sort(Ordering.StringLess, paths + [normal]), paths + [normal]);
  }

  lemma {:induction false} AppendUniqueListed(dir: seq<string>, children: seq<string>, step: string, name: string)
    requires AllNames(dir) && AllListedForms(dir, children) && NoSlash(step) && IsName(name) && !EndsInSpace(name)
    ensures var x := Absolute(dir + [name]);
            x in AppendUnique(children, Absolute(dir + [step])) <==> x in children || TrimRight(step) == name
  {
    var x := Absolute(dir + [name]);
    var normal := EnginePath.EngineNormalize(Absolute(dir + [step]));
    ChildNormal(dir, step);
    assert AllNames(dir + [name]);
    if normal == x {
      AbsoluteIsInjective(Push(dir, TrimRight(step)), dir + [name]);
      assert (dir + [TrimRight(step)])[|dir|] == (dir + [name])[|dir|];
    }
    AppendUniqueIn(children, Absolute(dir + [step]));
    if k :| 0 <= k < |children| && EnginePath.EngineNormalize(children[k]) == normal {
      if normal == x {
        OnlyItselfBlocks(dir, children[k], name);
      }
    }
  }

  /** Some point below `dir` goes on with this name, once its white space is trimmed. */
  ghost predicate LeadsTo(dir: seq<string>, points: seq<seq<string>>, name: string)
  {
    exists k :: 0 <= k < |points| && Above(dir, points[k]) && TrimRight(points[k][|dir|]) == name
  }

  lemma {:induction false} LeadsToSplits(dir: seq<string>, points: seq<seq<string>>, name: string)
    requires points != []
    ensures LeadsTo(dir, points, name) <==>
              (Above(dir, points[0]) && TrimRight(points[0][|dir|]) == name) || LeadsTo(dir, points[1..], name)
  {
    assert forall k :: 0 <= k < |points[1..]| ==> points[1..][k] == points[k + 1];
    assert forall k :: 1 <= k < |points| ==> points[k] == points[1..][k - 1];
  }

  lemma {:induction false} ListedFrom(active: seq<Mounted>, points: seq<seq<string>>, dir: seq<string>,
                                      children: seq<string>, name: string)
    requires NamedPoints(active, points) && AllNames(dir) && AllListedForms(dir, children)
    requires IsName(name) && !EndsInSpace(name)
    ensures var x, r := Absolute(dir + [name]), ChildrenFrom(active, Absolute(dir), children);
            AllListedForms(dir, r) && (x in r <==> x in children || LeadsTo(dir, points, name))
    decreases |active|
  {
    if active != [] {
      var c := points[0];
      ChildOnTheWay(dir, c);
      LeadsToSplits(dir, points, name);
      assert forall k :: 0 <= k < |points[1..]| ==> points[1..][k] == points[k + 1];
      var children' := children;
      PointParts(c);
      if Above(dir, c) {
        assert c[|dir|] in c;
        TrimmedName(c[|dir|]);
        if TrimSpace(c[|dir|]) != "" {
          children' := AppendUnique(children, Absolute(dir + [c[|dir|]]));
          AppendUniqueKeepsForms(dir, children, c[|dir|]);
          AppendUniqueListed(dir, children, c[|dir|], name);
        }
      }
      ListedFrom(active[1..], points[1..], dir, children', name);
    }
  }

  /** One level down from any directory, the listing holds exactly the trimmed names of the next
      steps toward active mount points; a name that ends in white space is never listed. */
  lemma {:induction false} ListedIff(active: seq<Mounted>, points: seq<seq<string>>, dir: seq<string>, name: string)
    requires NamedPoints(active, points) && AllNames(dir) && IsName(name)
    ensures Absolute(dir + [name]) in ChildrenFrom(active, Absolute(dir), []) <==>
              !EndsInSpace(name) && LeadsTo(dir, points, name)
  {
    var x, r := Absolute(dir + [name]), ChildrenFrom(active, Absolute(dir), []);
    ListedFrom(active, points, dir, [], if EndsInSpace(name) then "a" else name);
    if x in r {
      ListedStep(dir, name);
    }
  }

  lemma {:induction false} ListedStep(dir: seq<string>, name: string)
    requires AllNames(dir) && IsName(name) && ListedForm(dir, Absolute(dir + [name]))
    ensures !EndsInSpace(name)
  {
    var x := Absolute(dir + [name]);
    var q :| AllNames(q) && x == Absolute(q) && |q| <= |dir| + 1 && (|q| == |dir| + 1 ==> !EndsInSpace(x));
    assert AllNames(dir + [name]);
    AbsoluteIsInjective(q, dir + [name]);
    LastName(dir, name);
  }

  lemma {:induction false} NoNameIsUnlisted(active: seq<Mounted>, points: seq<seq<string>>, name: string)
    requires NamedPoints(active, points) && (name == "." || name == "..")
    ensures Absolute([name]) !in ChildrenFrom(active, Absolute([]), [])
  {
    var r := ChildrenFrom(active, Absolute([]), []);
    ListedFrom(active, points, [], [], "a");
    if Absolute([name]) in r {
      var q :| AllNames(q) && Absolute([name]) == Absolute(q);
      EnginePath.FirstPartDiffers([name], q);
    }
  }

  /** Below a path of proper names a descent finds the next component of an active mount point exactly
      when that is a proper name that does not end in white space. */
  lemma {:induction false} DescentContinuesIff(active: seq<Mounted>, points: seq<seq<string>>, k: nat, n: nat)
    requires NamedPoints(active, points) && k < |points| && n < |points[k]| && AllNames(points[k][..n])
    ensures Absolute(points[k][..n + 1]) in ChildrenFrom(active, Absolute(points[k][..n]), []) <==>
              IsName(points[k][n]) && !EndsInSpace(points[k][n])
  {
    var c, dir := points[k], points[k][..n];
    assert c[n] in c && c[..n + 1] == dir + [c[n]];
    PointParts(c);
    TrimmedName(c[n]);
    assert Above(dir, c) && c[|dir|] == c[n];
    if IsName(c[n]) {
      ListedIff(active, points, dir, c[n]);
    } else {
      OnlyFirstIsNoName(c, n);
      assert dir == [] && dir + [c[n]] == [c[0]];
      NoNameIsUnlisted(active, points, c[0]);
    }
  }

  /** Listing the first `n` components of a path shows the next one. */
  ghost predicate ShowsNext(active: seq<Mounted>, c: seq<string>, n: nat)
    requires n < |c|
  {
    Absolute(c[..n + 1]) in ChildrenFrom(active, Absolute(c[..n]), [])
  }

  ghost predicate Descends(active: seq<Mounted>, c: seq<string>)
  {
    forall n :: 0 <= n < |c| ==> ShowsNext(active, c, n)
  }

  /** Proper names that do not end in white space. */
  predicate CleanEnds(c: seq<string>) {
    forall name :: name in c ==> IsName(name) && !EndsInSpace(name)
  }

  lemma {:induction false} CleanSoFar(c: seq<string>, n: nat)
    requires n < |c| && CleanEnds(c[..n]) && IsName(c[n]) && !EndsInSpace(c[n])
    ensures CleanEnds(c[..n + 1])
  {
    assert c[..n + 1] == c[..n] + [c[n]];
  }

  lemma {:induction false} DescendsSoFar(active: seq<Mounted>, points: seq<seq<string>>, k: nat, n: nat)
    requires NamedPoints(active, points) && k < |points| && n <= |points[k]| && Descends(active, points[k])
    ensures CleanEnds(points[k][..n])
    decreases n
  {
    if n > 0 {
      var c := points[k];
      DescendsSoFar(active, points, k, n - 1);
      assert AllNames(c[..n - 1]);
      assert ShowsNext(active, c, n - 1);
      DescentContinuesIff(active, points, k, n - 1);
      CleanSoFar(c, n - 1);
    }
  }

  /** A whole descent from the root reaches an active mount point exactly when all of its components
      are proper names that do not end in white space. */
  lemma {:induction false} DescentReachesIff(active: seq<Mounted>, points: seq<seq<string>>, k: nat)
    requires NamedPoints(active, points) && k < |points|
    ensures Descends(active, points[k]) <==> CleanEnds(points[k])
  {
    var c := points[k];
    if Descends(active, c) {
      DescendsSoFar(active, points, k, |c|);
      assert c[..|c|] == c;
    }
    if CleanEnds(c) {
      forall n | 0 <= n < |c|
        ensures ShowsNext(active, c, n)
      {
        assert forall x :: x in c[..n] ==> x in c;
        assert c[n] in c;
        DescentContinuesIff(active, points, k, n);
      }
    }
  }

  /** `x` is the normalised path of a next step from `dir` toward one of the points. */
  ghost predicate StepToward(dir: seq<string>, points: seq<seq<string>>, x: string)
  {
    exists k :: 0 <= k < |points| && Above(dir, points[k]) &&
      x == EnginePath.EngineNormalize(Absolute(dir + [points[k][|dir|]]))
  }

  lemma {:induction false} StepSplits(dir: seq<string>, points: seq<seq<string>>, x: string)
    requires points != []
    ensures Above(dir, points[0]) && x == EnginePath.EngineNormalize(Absolute(dir + [points[0][|dir|]])) ==>
              StepToward(dir, points, x)
    ensures StepToward(dir, points[1..], x) ==> StepToward(dir, points, x)
  {
    assert forall k :: 0 <= k < |points[1..]| ==> points[1..][k] == points[k + 1];
  }

  /** Whatever is listed is such a step, and the listing is sorted. */
  lemma {:induction false} ListedAreSteps(active: seq<Mounted>, points: seq<seq<string>>, dir: seq<string>,
                                          children: seq<string>)
    requires NamedPoints(active, points) && AllNames(dir) && Ordering.Ordered(Ordering.StringLess, children)
    ensures var r := ChildrenFrom(active, Absolute(dir), children);
            Ordering.Ordered(Ordering.StringLess, r) &&
            forall x :: x in r ==> x in children || StepToward(dir, points, x)
    decreases |active|
  {
    if active != [] {
      var child := ChildToward(Absolute(dir), active[0].point);
      ChildOnTheWay(dir, points[0]);
      assert forall k :: 0 <= k < |points[1..]| ==> points[1..][k] == points[k + 1];
      var children' := if child.Some? then AppendUnique(children, child.value) else children;
      if child.Some? {
        AppendUniqueIn(children, child.value);
        AppendUniqueSorts(children, child.value);
      }
      ListedAreSteps(active[1..], points[1..], dir, children');
      forall x
        ensures child.Some? && x == EnginePath.EngineNormalize(child.value) ==> StepToward(dir, points, x)
        ensures StepToward(dir, points[1..], x) ==> StepToward(dir, points, x)
      {
        StepSplits(dir, points, x);
      }
    }
  }

  lemma {:induction false} AppendUniqueSorts(paths: seq<string>, candidate: string)
    requires Ordering.Ordered(Ordering.StringLess, paths)
    ensures Ordering.Ordered(Ordering.StringLess, AppendUnique(paths, candidate))
  {
    var all := paths + [EnginePath.EngineNormalize(candidate)];
    Ordering.StringsOrder(all);
    Ordering.SortOrders(Ordering.StringLess, all);
  }

  /** `x` is one component below `dir`, on the way to one of the points. */
  ghost predicate IsStep(dir: seq<string>, points: seq<seq<string>>, x: string)
  {
    exists k :: 0 <= k < |points| && Above(dir, points[k]) && x == Absolute(dir + [points[k][|dir|]])
  }

  ghost predicate CleanSteps(dir: seq<string>, points: seq<seq<string>>)
  {
    forall k :: 0 <= k < |points| && Above(dir, points[k]) ==>
      IsName(points[k][|dir|]) && !EndsInSpace(points[k][|dir|])
  }

  lemma {:induction false} CleanStepListed(active: seq<Mounted>, points: seq<seq<string>>, dir: seq<string>, k: nat)
    requires NamedPoints(active, points) && AllNames(dir)
    requires k < |points| && Above(dir, points[k]) && IsName(points[k][|dir|]) && !EndsInSpace(points[k][|dir|])
    ensures var x := Absolute(dir + [points[k][|dir|]]);
            x in ChildrenFrom(active, Absolute(dir), []) && EnginePath.EngineNormalize(x) == x
  {
    var name := points[k][|dir|];
    assert name in points[k];
    TrimmedName(name);
    ChildNormal(dir, name);
    ListedIff(active, points, dir, name);
  }

  /** The children of a directory, if the steps that lead on from it are proper names that do not end
      in white space. */
  lemma {:induction false} CleanChildrenExact(active: seq<Mounted>, points: seq<seq<string>>, dir: seq<string>)
    requires NamedPoints(active, points) && AllNames(dir) && CleanSteps(dir, points)
    ensures var r := ChildrenFrom(active, Absolute(dir), []);
            Ordering.Ordered(Ordering.StringLess, r) && forall x :: x in r <==> IsStep(dir, points, x)
  {
    var r := ChildrenFrom(active, Absolute(dir), []);
    ListedAreSteps(active, points, dir, []);
    forall x | IsStep(dir, points, x)
      ensures x in r
    {
      var k :| 0 <= k < |points| && Above(dir, points[k]) && x == Absolute(dir + [points[k][|dir|]]);
      CleanStepListed(active, points, dir, k);
    }
    forall x | StepToward(dir, points, x)
      ensures IsStep(dir, points, x)
    {
      var k :| 0 <= k < |points| && Above(dir, points[k]) &&
        x == EnginePath.EngineNormalize(Absolute(dir + [points[k][|dir|]]));
      CleanStepListed(active, points, dir, k);
    }
  }

  lemma {:induction false} UncleanStepUnlisted(active: seq<Mounted>, points: seq<seq<string>>, dir: seq<string>, k: nat)
    requires NamedPoints(active, points) && AllNames(dir) && k < |points| && Above(dir, points[k])
    requires !IsName(points[k][|dir|]) || EndsInSpace(points[k][|dir|])
    ensures Absolute(dir + [points[k][|dir|]]) !in ChildrenFrom(active, Absolute(dir), [])
  {
    var c := points[k];
    assert c[..|dir|] == dir && c[..|dir| + 1] == dir + [c[|dir|]];
    DescentContinuesIff(active, points, k, |dir|);
  }

  /** The children of a directory are exactly the steps that lead on from it - if and only if those
      steps are proper names that do not end in white space. */
  lemma {:induction false} ChildrenExactIff(active: seq<Mounted>, points: seq<seq<string>>, dir: seq<string>)
    requires NamedPoints(active, points) && AllNames(dir)
    ensures (forall x :: x in ChildrenFrom(active, Absolute(dir), []) <==> IsStep(dir, points, x)) <==>
              CleanSteps(dir, points)
  {
    if CleanSteps(dir, points) {
      CleanChildrenExact(active, points, dir);
    } else {
      var k :| 0 <= k < |points| && Above(dir, points[k]) &&
               !(IsName(points[k][|dir|]) && !EndsInSpace(points[k][|dir|]));
      UncleanStepUnlisted(active, points, dir, k);
      assert IsStep(dir, points, Absolute(dir + [points[k][|dir|]]));
    }
  }

  // ---------------------------------------------------------------- synthetic directories

  /** Some active mount point lies below `dir`. */
  ghost predicate SomeBelow(dir: seq<string>, points: seq<seq<string>>)
  {
    exists k :: 0 <= k < |points| && Above(dir, points[k])
  }

  /** Some active mount point lies below `dir`, and the name that leads there is not blank. */
  ghost predicate SomeShown(dir: seq<string>, points: seq<seq<string>>)
  {
    exists k :: 0 <= k < |points| && Above(dir, points[k]) && TrimSpace(points[k][|dir|]) != ""
  }

  lemma {:induction false} AppendUniqueGrows(paths: seq<string>, candidate: string)
    ensures AppendUnique(paths, candidate) != []
  {
    var normal := EnginePath.EngineNormalize(candidate);
    Ordering.SameMembers(Ordering.Sort(Ordering.StringLess, paths + [normal]), paths + [normal]);
  }

  lemma {:induction false} ShownSplits(dir: seq<string>, points: seq<seq<string>>)
    requires points != []
    ensures SomeShown(dir, points) <==>
              (Above(dir, points[0]) && TrimSpace(points[0][|dir|]) != "") || SomeShown(dir, points[1..])
  {
    assert forall k :: 0 <= k < |points[1..]| ==> points[1..][k] == points[k + 1];
    assert forall k :: 1 <= k < |points| ==> points[k] == points[1..][k - 1];
  }

  lemma {:induction false} ChildrenShown(active: seq<Mounted>, points: seq<seq<string>>, dir: seq<string>,
                                         children: seq<string>)
    requires NamedPoints(active, points) && AllNames(dir)
    ensures ChildrenFrom(active, Absolute(dir), children) != [] <==> children != [] || SomeShown(dir, points)
    decreases |active|
  {
    if active != [] {
      var child := ChildToward(Absolute(dir), active[0].point);
      ChildOnTheWay(dir, points[0]);
      ShownSplits(dir, points);
      assert forall k :: 0 <= k < |points[1..]| ==> points[1..][k] == points[k + 1];
      if child.Some? {
        AppendUniqueGrows(children, child.value);
      }
      ChildrenShown(active[1..], points[1..], dir,
                    if child.Some? then AppendUnique(children, child.value) else children);
    }
  }

  /** For any names: a path other than the root is a synthetic directory exactly when an active
      mount point lies below it, and it has synthetic children exactly when one does behind a
      name that is not blank. */
  lemma {:induction false} SyntheticDirExact(active: seq<Mounted>, points: seq<seq<string>>, dir: seq<string>)
    requires NamedPoints(active, points) && AllNames(dir) && Ordering.Ordered(LongerFirst, active)
    ensures SyntheticDirIn(active, Absolute(dir)) <==> dir != [] && SomeBelow(dir, points)
    ensures ChildrenFrom(active, Absolute(dir), []) != [] <==> SomeShown(dir, points)
  {
    SyntheticDirIffBelow(active, Absolute(dir));
    ChildrenShown(active, points, dir, []);
    forall k | 0 <= k < |active|
      ensures HasPrefix(active[k].point, Absolute(dir) + "/") <==> dir != [] && Above(dir, points[k])
    {
      PrefixOfPoint(dir, points[k]);
    }
  }

  /** Hence the two agree exactly when blank names are not all that leads below the path. */
  lemma {:induction false} SyntheticDirAgreesIff(active: seq<Mounted>, points: seq<seq<string>>, dir: seq<string>)
    requires NamedPoints(active, points) && AllNames(dir) && dir != [] && Ordering.Ordered(LongerFirst, active)
    ensures (SyntheticDirIn(active, Absolute(dir)) <==> ChildrenFrom(active, Absolute(dir), []) != []) <==>
              (SomeBelow(dir, points) ==> SomeShown(dir, points))
  {
    SyntheticDirExact(active, points, dir);
    assert SomeShown(dir, points) ==> SomeBelow(dir, points);
  }

  /** With the only mount at "/a/ /m", "/a" is a synthetic directory without children. */
  lemma {:induction false} BlankNameIsHidden(m: Mount)
    ensures var active := [Mounted(Absolute(["a", " ", "m"]), m)];
            SyntheticDirIn(active, Absolute(["a"])) && ChildrenFrom(active, Absolute(["a"]), []) == []
  {
    var active, points, dir := [Mounted(Absolute(["a", " ", "m"]), m)], [["a", " ", "m"]], ["a"];
    assert points[0][..1] == dir && Above(dir, points[0]);
    assert TrimLeft(" ") == TrimLeft("") == "" by {
      assert " "[1..] == "";
    }
    SyntheticDirExact(active, points, dir);
  }

  // ---------------------------------------------------------------- where listed paths lead

  /** A listed child is an active mount point, or an ancestor of one, exactly when some mount point
      goes on with its very name, white space included. */
  lemma {:induction false} ListedLeadsIff(active: seq<Mounted>, points: seq<seq<string>>, dir: seq<string>,
                                          name: string)
    requires NamedPoints(active, points) && AllNames(dir) && IsName(name)
    ensures var x := Absolute(dir + [name]);
            (exists k :: 0 <= k < |active| && (active[k].point == x || HasPrefix(active[k].point, x + "/"))) <==>
              (exists k :: 0 <= k < |active| && Above(dir, points[k]) && points[k][|dir|] == name)
  {
    var step := dir + [name];
    assert AllNames(step);
    forall k | 0 <= k < |active|
      ensures active[k].point == Absolute(step) || HasPrefix(active[k].point, Absolute(step) + "/") <==>
                Above(dir, points[k]) && points[k][|dir|] == name
    {
      PrefixOfPoint(step, points[k]);
      StepOrBelow(dir, name, points[k]);
    }
  }

  lemma {:induction false} StepOrBelow(dir: seq<string>, name: string, c: seq<string>)
    ensures c == dir + [name] || Above(dir + [name], c) <==> Above(dir, c) && c[|dir|] == name
  {
    if Above(dir, c) && c[|dir|] == name {
      assert c[..|dir| + 1] == dir + [name];
      assert |c| == |dir| + 1 ==> c[..|dir| + 1] == c;
    }
    if Above(dir + [name], c) {
      assert c[..|dir| + 1][..|dir|] == c[..|dir|] == dir;
    }
  }
}
