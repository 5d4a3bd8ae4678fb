/** `tree -L`: when a walk cut off at a depth expands exactly the directories above that depth. */
module TreeLimit {
  import opened Prelude
  import opened DirWalk
  import opened TreeWalk
  import opened TreeCovers

  // ---------------------------------------------------------------- depth of entries

  lemma {:induction false} KidsDepth(vfs: Listings, maxDepth: nat, kids: seq<DirEntry>, depth: nat,
                                     visited: set<string>)
    requires depth < maxDepth
    ensures var r := TreeKids(vfs, maxDepth, kids, depth, visited);
            r.Ok? ==> forall e :: e in r.value.entries ==> depth < e.depth <= maxDepth
    decreases |vfs.Keys - visited|, |kids|
  {
    if kids != [] {
      var kid := kids[0];
      if !kid.isDir || kid.path in visited {
        KidsDepth(vfs, maxDepth, kids[1..], depth, visited);
      } else {
        VisitShrinks(vfs.Keys, visited, kid.path);
        var below := Tree(vfs, maxDepth, kid.path, depth + 1, visited + {kid.path});
        if below.Ok? {
          if depth + 1 < maxDepth {
            KidsDepth(vfs, maxDepth, vfs[kid.path], depth + 1, visited + {kid.path});
          }
          NoMoreLeft(vfs.Keys, visited, below.value.visited);
          KidsDepth(vfs, maxDepth, kids[1..], depth, below.value.visited);
        }
      }
    }
  }

  /** With a depth limit no entry is deeper than the limit. */
  lemma {:induction false} LimitedTreeDepth(fs: Listings, opts: Options, target: string)
    requires opts.maxDepth >= 0
    ensures var r := TreeOf(fs, opts, target);
            r.Ok? ==> forall e :: e in r.value.entries ==> 0 < e.depth <= opts.maxDepth
  {
    var vfs := Visible(opts, fs);
    if opts.maxDepth > 0 && target in vfs {
      KidsDepth(vfs, opts.maxDepth, vfs[target], 0, {target});
    }
  }

  // ---------------------------------------------------------------- listings in another order

  ghost predicate Reordered(fs: Listings, gs: Listings)
  {
    fs.Keys == gs.Keys && forall d :: d in fs ==> multiset(fs[d]) == multiset(gs[d])
  }

  ghost predicate Alike(fs: Listings, gs: Listings)
  {
    fs.Keys == gs.Keys && forall d, e :: d in fs ==> (e in fs[d] <==> e in gs[d])
  }

  lemma {:induction false} FilteredMembers(opts: Options, entries: seq<DirEntry>, e: DirEntry)
    ensures e in Filtered(opts, entries) <==> e in entries && Shown(opts, e)
    decreases |entries|
  {
    if entries != [] {
      FilteredMembers(opts, entries[1..], e);
    }
  }

  lemma {:induction false} VisibleAlike(opts: Options, fs: Listings, gs: Listings)
    requires Reordered(fs, gs)
    ensures Alike(Visible(opts, fs), Visible(opts, gs))
  {
    forall d, e | d in fs
      ensures e in Filtered(opts, fs[d]) <==> e in Filtered(opts, gs[d])
    {
      FilteredMembers(opts, fs[d], e);
      FilteredMembers(opts, gs[d], e);
      assert e in fs[d] <==> e in multiset(fs[d]);
      assert e in gs[d] <==> e in multiset(gs[d]);
    }
  }

  lemma {:induction false} PathInBoth(fs: Listings, gs: Listings, p: seq<string>)
    requires Alike(fs, gs) && IsPath(fs, p)
    ensures IsPath(gs, p)
  {
    forall k | 0 <= k < |p| - 1
      ensures p[k] in gs && p[k + 1] in SubDirs(gs[p[k]])
    {
      SubDirsMembers(fs[p[k]], p[k + 1]);
      SubDirsMembers(gs[p[k]], p[k + 1]);
    }
  }

  lemma {:induction false} NearInBoth(fs: Listings, gs: Listings, root: string, maxDepth: int, d: string)
    requires Alike(fs, gs) && Near(fs, root, maxDepth, d)
    ensures Near(gs, root, maxDepth, d)
  {
    var p :| IsNear(fs, root, maxDepth, d, p);
    PathInBoth(fs, gs, p);
    assert IsNear(gs, root, maxDepth, d, p);
  }

  lemma {:induction false} DetourInBoth(fs: Listings, gs: Listings, root: string, maxDepth: int)
    requires Alike(fs, gs) && Detour(fs, root, maxDepth)
    ensures Detour(gs, root, maxDepth)
  {
    var d :| Near(fs, root, maxDepth, d) && Lost(fs, root, maxDepth, d);
    NearInBoth(fs, gs, root, maxDepth, d);
    var p :| IsSimple(fs, root, d, p) && |p| == maxDepth + 1;
    PathInBoth(fs, gs, p);
    assert IsSimple(gs, root, d, p);
  }

  // ---------------------------------------------------------------- leading a walk astray

  function Without(entries: seq<DirEntry>, e: DirEntry): seq<DirEntry>
  {
    if entries == [] then []
    else if entries[0] == e then entries[1..]
    else [entries[0]] + Without(entries[1..], e)
  }

  lemma {:induction false} WithoutBag(entries: seq<DirEntry>, e: DirEntry)
    requires e in entries
    ensures multiset([e] + Without(entries, e)) == multiset(entries)
    decreases |entries|
  {
    assert entries == [entries[0]] + entries[1..];
    if entries[0] != e {
      WithoutBag(entries[1..], e);
    }
  }

  /** The listing of a directory on the path, with the next directory of the path first. */
  ghost function Steered(p: seq<string>, d: string, entries: seq<DirEntry>): seq<DirEntry>
  {
    if exists k :: 0 <= k < |p| - 1 && p[k] == d then
      var k :| 0 <= k < |p| - 1 && p[k] == d;
      [DirEntry(p[k + 1], true)] + Without(entries, DirEntry(p[k + 1], true))
    else entries
  }

  ghost function Steer(fs: Listings, p: seq<string>): Listings
  {
    map d | d in fs :: Steered(p, d, fs[d])
  }

  ghost predicate Leads(vfs: Listings, p: seq<string>)
  {
    forall k :: 0 <= k < |p| - 1 ==> p[k] in vfs && vfs[p[k]] != [] && vfs[p[k]][0] == DirEntry(p[k + 1], true)
  }

  lemma {:induction false} SteeredStep(p: seq<string>, k: nat, entries: seq<DirEntry>)
    requires NoRepeats(p) && k < |p| - 1 && DirEntry(p[k + 1], true) in entries
    ensures var s := Steered(p, p[k], entries);
            multiset(s) == multiset(entries) && s != [] && s[0] == DirEntry(p[k + 1], true)
  {
    WithoutBag(entries, DirEntry(p[k + 1], true));
    assert forall j :: 0 <= j < |p| && p[j] == p[k] ==> j == k;
  }

  lemma {:induction false} NextIsListed(fs: Listings, opts: Options, p: seq<string>, k: nat)
    requires IsPath(Visible(opts, fs), p) && k < |p| - 1
    ensures p[k] in fs && DirEntry(p[k + 1], true) in fs[p[k]] && Shown(opts, DirEntry(p[k + 1], true))
  {
    var d := p[k];
    assert d in Visible(opts, fs);
    SubDirsMembers(Visible(opts, fs)[d], p[k + 1]);
    FilteredMembers(opts, fs[d], DirEntry(p[k + 1], true));
  }

  lemma {:induction false} SteerLeads(fs: Listings, opts: Options, p: seq<string>)
    requires IsPath(Visible(opts, fs), p) && NoRepeats(p)
    ensures Reordered(fs, Steer(fs, p)) && Leads(Visible(opts, Steer(fs, p)), p)
  {
    forall d | d in fs
      ensures multiset(fs[d]) == multiset(Steered(p, d, fs[d]))
    {
      if k :| 0 <= k < |p| - 1 && p[k] == d {
        NextIsListed(fs, opts, p, k);
        SteeredStep(p, k, fs[d]);
      }
    }
    var gs := Steer(fs, p);
    forall k | 0 <= k < |p| - 1
      ensures p[k] in gs && Filtered(opts, gs[p[k]]) != [] && Filtered(opts, gs[p[k]])[0] == DirEntry(p[k + 1], true)
    {
      NextIsListed(fs, opts, p, k);
      SteeredStep(p, k, fs[p[k]]);
    }
  }

  ghost function Upto(p: seq<string>, k: nat): set<string>
    requires k < |p|
  {
    set j {:trigger p[j]} | 0 <= j <= k :: p[j]
  }

  /** A walk that is led along the path marks its last directory and never expands it. */
  lemma {:induction false} LedAstray(vfs: Listings, root: string, p: seq<string>, k: nat)
    requires p != [] && k < |p| && IsSimple(vfs, root, p[|p| - 1], p) && Leads(vfs, p)
    ensures var r := Tree(vfs, |p| - 1, p[k], k, Upto(p, k));
            r.Ok? ==> p[|p| - 1] in r.value.visited && p[|p| - 1] !in r.value.listed
    decreases |p| - k
  {
    var last, maxDepth := p[|p| - 1], |p| - 1;
    if k == maxDepth {
      assert last in p[..k + 1];
    } else {
      var visited, kids := Upto(p, k), vfs[p[k]];
      LedAstray(vfs, root, p, k + 1);
      assert p[..k + 2] == p[..k + 1] + [p[k + 1]];
      assert visited + {p[k + 1]} == Upto(p, k + 1);
      NotYet(p, k);
      var below := Tree(vfs, maxDepth, p[k + 1], k + 1, visited + {p[k + 1]});
      if below.Ok? {
        RestMisses(vfs, root, p, k, below.value.visited);
      }
    }
  }

  lemma {:induction false} NotYet(p: seq<string>, k: nat)
    requires NoRepeats(p) && k < |p| - 1
    ensures p[k + 1] !in Upto(p, k) && p[|p| - 1] != p[k]
  {
  }

  lemma {:induction false} StackUpTo(vfs: Listings, root: string, p: seq<string>, k: nat, visited: set<string>)
    requires k < |p| && IsSimple(vfs, root, p[|p| - 1], p) && Upto(p, k) <= visited
    ensures OnStack(vfs, root, p[k], k, visited, p[..k + 1])
  {
    assert forall d :: d in p[..k + 1] ==> d in Upto(p, k);
  }

  lemma {:induction false} RestMisses(vfs: Listings, root: string, p: seq<string>, k: nat, visited: set<string>)
    requires k < |p| - 1 && IsSimple(vfs, root, p[|p| - 1], p) && Leads(vfs, p)
    requires Upto(p, k) <= visited && p[|p| - 1] in visited
    ensures var r := TreeKids(vfs, |p| - 1, vfs[p[k]][1..], k, visited);
            r.Ok? ==> p[|p| - 1] in r.value.visited && p[|p| - 1] !in r.value.listed
  {
    var stack := p[..k + 1];
    StackUpTo(vfs, root, p, k, visited);
    assert SubDirs(vfs[p[k]]) == [p[k + 1]] + SubDirs(vfs[p[k]][1..]);
    KidsExplore(vfs, root, |p| - 1, p[k], vfs[p[k]][1..], k, visited, stack);
  }

  // ---------------------------------------------------------------- the exact condition

  ghost predicate TreeIsNear(fs: Listings, opts: Options, target: string)
  {
    var r := TreeOf(fs, opts, target);
    r.Ok? && CoversNear(Visible(opts, fs), target, opts.maxDepth, r.value.listed)
  }

  lemma {:induction false} SteeredMisses(vfs: Listings, root: string, p: seq<string>)
    requires p != [] && IsSimple(vfs, root, p[|p| - 1], p) && Leads(vfs, p)
    ensures var r := Tree(vfs, |p| - 1, root, 0, {root}); r.Ok? ==> p[|p| - 1] !in r.value.listed
  {
    assert Upto(p, 0) == {root};
    LedAstray(vfs, root, p, 0);
  }

  lemma {:induction false} PathIsMissed(fs: Listings, opts: Options, target: string, d: string, p: seq<string>)
    requires Near(Visible(opts, fs), target, opts.maxDepth, d)
    requires IsSimple(Visible(opts, fs), target, d, p) && |p| == opts.maxDepth + 1
    ensures Reordered(fs, Steer(fs, p)) && !TreeIsNear(Steer(fs, p), opts, target)
  {
    SteerLeads(fs, opts, p);
    var vfs, wfs := Visible(opts, fs), Visible(opts, Steer(fs, p));
    VisibleAlike(opts, fs, Steer(fs, p));
    PathInBoth(vfs, wfs, p);
    NearInBoth(vfs, wfs, target, opts.maxDepth, d);
    SteeredMisses(wfs, target, p);
  }

  lemma {:induction false} DetourIsMissed(fs: Listings, opts: Options, target: string)
    requires Detour(Visible(opts, fs), target, opts.maxDepth)
    ensures exists gs :: Reordered(fs, gs) && !TreeIsNear(gs, opts, target)
  {
    var vfs := Visible(opts, fs);
    var d :| Near(vfs, target, opts.maxDepth, d) && Lost(vfs, target, opts.maxDepth, d);
    var p :| IsSimple(vfs, target, d, p) && |p| == opts.maxDepth + 1;
    PathIsMissed(fs, opts, target, d, p);
  }

  /** Whatever order the directories are listed in, a walk with a depth limit expands exactly the
      directories within it - if and only if none of them ends a path without repetition whose
      number of steps is the limit. */
  lemma {:induction false} LimitedTreeIff(fs: Listings, opts: Options, target: string)
    requires AllListable(Visible(opts, fs), target, opts.maxDepth)
    ensures (forall gs :: Reordered(fs, gs) ==> TreeIsNear(gs, opts, target)) <==>
              !Detour(Visible(opts, fs), target, opts.maxDepth)
  {
    var vfs := Visible(opts, fs);
    if Detour(vfs, target, opts.maxDepth) {
      DetourIsMissed(fs, opts, target);
    } else {
      forall gs | Reordered(fs, gs)
        ensures TreeIsNear(gs, opts, target)
      {
        WithinLimit(fs, gs, opts, target);
      }
    }
  }

  lemma {:induction false} WithinLimit(fs: Listings, gs: Listings, opts: Options, target: string)
    requires AllListable(Visible(opts, fs), target, opts.maxDepth) && Reordered(fs, gs)
    requires !Detour(Visible(opts, fs), target, opts.maxDepth)
    ensures TreeIsNear(gs, opts, target)
  {
    var vfs, wfs := Visible(opts, fs), Visible(opts, gs);
    VisibleAlike(opts, fs, gs);
    assert Alike(wfs, vfs);
    if Detour(wfs, target, opts.maxDepth) {
      DetourInBoth(wfs, vfs, target, opts.maxDepth);
    }
    forall d | Near(wfs, target, opts.maxDepth, d)
      ensures d in wfs
    {
      NearInBoth(wfs, vfs, target, opts.maxDepth, d);
    }
    TreeCoversNear(gs, opts, target);
  }

  // ---------------------------------------------------------------- a tree, and an input that fails

  /** No directory is listed by two directories, and the target by none. */
  ghost predicate OneParent(vfs: Listings, target: string)
  {
    && (forall d, e, c :: d in vfs && e in vfs && c in SubDirs(vfs[d]) && c in SubDirs(vfs[e]) ==> d == e)
    && (forall d :: d in vfs ==> target !in SubDirs(vfs[d]))
  }

  lemma {:induction false} OneWay(vfs: Listings, target: string, p: seq<string>, q: seq<string>)
    requires OneParent(vfs, target) && IsPath(vfs, p) && IsPath(vfs, q)
    requires p[0] == target && q[0] == target && p[|p| - 1] == q[|q| - 1]
    ensures |p| == |q|
    decreases |p|
  {
    var i, j := |p| - 1, |q| - 1;
    assert i > 0 ==> p[i - 1] in vfs && p[i] in SubDirs(vfs[p[i - 1]]);
    assert j > 0 ==> q[j - 1] in vfs && q[j] in SubDirs(vfs[q[j - 1]]);
    if i > 0 && j > 0 {
      OneWay(vfs, target, p[..i], q[..j]);
    }
  }

  /** In a proper tree of directories the depth limit is exact. */
  lemma {:induction false} TreesHaveNoDetour(vfs: Listings, target: string, maxDepth: int)
    requires OneParent(vfs, target)
    ensures !Detour(vfs, target, maxDepth)
  {
    if Detour(vfs, target, maxDepth) {
      var d :| Near(vfs, target, maxDepth, d) && Lost(vfs, target, maxDepth, d);
      var p :| IsSimple(vfs, target, d, p) && |p| == maxDepth + 1;
      var q :| IsNear(vfs, target, maxDepth, d, q);
      OneWay(vfs, target, p, q);
    }
  }

  const TWO_WAYS: Listings := map["a" := [DirEntry("b", true), DirEntry("c", true)], "b" := [DirEntry("c", true)],
                                  "c" := [DirEntry("d", true)], "d" := []]

  /** "c" is listed by "a" and by "b", and met below "b" first: two levels deep it is shown, but
      what it lists, itself two levels deep, is not. */
  lemma {:induction false} LimitNeedsCare()
    ensures Near(TWO_WAYS, "a", 2, "c") && DirEntry("d", true) in TWO_WAYS["c"]
    ensures var r := TreeOf(TWO_WAYS, Options(true, 2), "a");
            r.Ok? && r.value.listed == ["a", "b"] && forall e :: e in r.value.entries ==> e.path != "d"
  {
    var fs := TWO_WAYS;
    VisibleIsAll(Options(true, 2), fs);
    TwoWaysWalk();
    assert SubDirs([DirEntry("c", true)]) == ["c"] && SubDirs(fs["a"]) == ["b", "c"];
    assert IsNear(fs, "a", 2, "c", ["a", "c"]);
  }

  lemma {:induction false} TwoWaysWalk()
    ensures Tree(TWO_WAYS, 2, "a", 0, {"a"}) ==
            Ok(Walked({"a", "b", "c"}, [TreeEntry("b", 1, true), TreeEntry("c", 2, true), TreeEntry("c", 1, true)],
                      ["a", "b"]))
  {
    var c, all, none: seq<string> := DirEntry("c", true), {"a", "b", "c"}, [];
    var b1, c1, c2 := TreeEntry("b", 1, true), TreeEntry("c", 1, true), TreeEntry("c", 2, true);
    assert {"a", "b"} + {"c"} == all && all + {"c"} == all && {"a"} + {"b"} == {"a", "b"};
    LastKid(TWO_WAYS, 2, c, 1, {"a", "b"});
    assert ["b"] + none == ["b"];
    assert Tree(TWO_WAYS, 2, "b", 1, {"a", "b"}) == Ok(Walked(all, [c2], ["b"]));
    LastKid(TWO_WAYS, 2, c, 0, all);
    assert TWO_WAYS["a"][1..] == [c] && [b1] + [c2] + [c1] == [b1, c2, c1];
    assert TreeKids(TWO_WAYS, 2, TWO_WAYS["a"], 0, {"a"}) == Ok(Walked(all, [b1, c2, c1], ["b"]));
    assert ["a"] + ["b"] == ["a", "b"];
  }

  lemma {:induction false} LastKid(vfs: Listings, maxDepth: int, kid: DirEntry, depth: nat, visited: set<string>)
    requires kid.path in visited || CutOff(maxDepth, depth + 1)
    ensures TreeKids(vfs, maxDepth, [kid], depth, visited) ==
            Ok(Walked(if kid.isDir then visited + {kid.path} else visited,
                      [TreeEntry(kid.path, depth + 1, kid.isDir)], []))
  {
    var entry, after := TreeEntry(kid.path, depth + 1, kid.isDir), visited + {kid.path};
    assert [kid][1..] == [] && [entry] + [] == [entry];
    assert TreeKids(vfs, maxDepth, [], depth, after) == Ok(Walked(after, [], []));
    assert TreeKids(vfs, maxDepth, [], depth, visited) == Ok(Walked(visited, [], []));
    if kid.path in visited {
      assert after == visited;
    } else if kid.isDir {
      var none: seq<string> := [];
      assert [entry] + [] + [] == [entry] && none + none == none;
      assert Tree(vfs, maxDepth, kid.path, depth + 1, after) == Ok(Walked(after, [], none));
    }
  }
}
