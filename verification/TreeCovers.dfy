/** Which directories `tree` expands and which entries it prints, under any depth limit; without
    one it covers what `ls -R` covers. */
module TreeCovers {
  import opened Prelude
  import opened DirWalk
  import opened TreeWalk

  // ---------------------------------------------------------------- bags of paths

  function EntryBag(entries: seq<TreeEntry>): multiset<string>
  {
    if entries == [] then multiset{} else multiset{entries[0].path} + EntryBag(entries[1..])
  }

  function ListingBag(entries: seq<DirEntry>): multiset<string>
  {
    if entries == [] then multiset{} else multiset{entries[0].path} + ListingBag(entries[1..])
  }

  /** Everything the given directories list, with multiplicity. */
  function ListedBag(fs: Listings, dirs: seq<string>): multiset<string>
  {
    if dirs == [] then multiset{}
    else (if dirs[0] in fs then ListingBag(fs[dirs[0]]) else multiset{}) + ListedBag(fs, dirs[1..])
  }

  lemma {:induction false} EntryBagConcat(a: seq<TreeEntry>, b: seq<TreeEntry>)
    ensures EntryBag(a + b) == EntryBag(a) + EntryBag(b)
    decreases |a|
  {
    if a == [] {
      assert a + b == b;
    } else {
      assert (a + b)[1..] == a[1..] + b;
      EntryBagConcat(a[1..], b);
    }
  }

  lemma {:induction false} ListedBagConcat(fs: Listings, a: seq<string>, b: seq<string>)
    ensures ListedBag(fs, a + b) == ListedBag(fs, a) + ListedBag(fs, b)
    decreases |a|
  {
    if a == [] {
      assert a + b == b;
    } else {
      assert (a + b)[1..] == a[1..] + b;
      ListedBagConcat(fs, a[1..], b);
    }
  }

  lemma {:induction false} TakeOut(fs: Listings, b: seq<string>, k: nat)
    requires k < |b|
    ensures ListedBag(fs, b) == ListedBag(fs, [b[k]]) + ListedBag(fs, b[..k] + b[k + 1..])
  {
    var pre, post := b[..k], b[k + 1..];
    assert b == pre + ([b[k]] + post);
    ListedBagConcat(fs, pre, [b[k]] + post);
    ListedBagConcat(fs, [b[k]], post);
    ListedBagConcat(fs, pre, post);
  }

  /** The bag depends only on which directories were expanded, not on the order. */
  lemma {:induction false} SameDirsSameBag(fs: Listings, a: seq<string>, b: seq<string>)
    requires NoRepeats(a) && NoRepeats(b) && forall d :: d in a <==> d in b
    ensures ListedBag(fs, a) == ListedBag(fs, b)
    decreases |a|
  {
    if a == [] {
      HasMember(b);
    } else {
      assert a[0] in b;
      var k :| 0 <= k < |b| && b[k] == a[0];
      TakeOut(fs, b, k);
      assert [a[0]] + a[1..] == a;
      ListedBagConcat(fs, [a[0]], a[1..]);
      RemoveOne(a, b, k);
      SameDirsSameBag(fs, a[1..], b[..k] + b[k + 1..]);
    }
  }

  lemma {:induction false} RemoveOne(a: seq<string>, b: seq<string>, k: nat)
    requires a != [] && k < |b| && b[k] == a[0]
    requires NoRepeats(a) && NoRepeats(b) && forall d :: d in a <==> d in b
    ensures NoRepeats(a[1..]) && NoRepeats(b[..k] + b[k + 1..])
    ensures forall d :: d in a[1..] <==> d in b[..k] + b[k + 1..]
  {
    var c := b[..k] + b[k + 1..];
    forall d
      ensures d in a[1..] <==> d in c
    {
      if d in a[1..] {
        var i :| 1 <= i < |a| && a[i] == d;
        assert d in b && d != b[k];
        var j :| 0 <= j < |b| && b[j] == d;
        assert if j < k then c[j] == d else c[j - 1] == d;
      }
      if d in c {
        var j :| 0 <= j < |c| && c[j] == d;
        assert d == b[if j < k then j else j + 1] && d != b[k];
        assert d in b;
        assert d in a && d != a[0];
      }
    }
  }

  // ---------------------------------------------------------------- near and lost directories

  /** A path from the root to `d` of fewer than `maxDepth` steps, of any length without a limit. */
  ghost predicate IsNear(vfs: Listings, root: string, maxDepth: int, d: string, p: seq<string>)
  {
    IsPath(vfs, p) && p[0] == root && p[|p| - 1] == d && (maxDepth >= 0 ==> |p| <= maxDepth)
  }

  ghost predicate Near(vfs: Listings, root: string, maxDepth: int, d: string)
  {
    exists p :: IsNear(vfs, root, maxDepth, d, p)
  }

  ghost predicate AllNear(vfs: Listings, root: string, maxDepth: int, dirs: seq<string>)
  {
    forall d :: d in dirs ==> Near(vfs, root, maxDepth, d)
  }

  /** A path from the root to `d` on which no directory comes twice. */
  ghost predicate IsSimple(vfs: Listings, root: string, d: string, p: seq<string>)
  {
    IsPath(vfs, p) && NoRepeats(p) && p[0] == root && p[|p| - 1] == d
  }

  /** Such a path of exactly `maxDepth` steps: a walk that comes this way marks `d` as visited
      and does not expand it. */
  ghost predicate Lost(vfs: Listings, root: string, maxDepth: int, d: string)
  {
    exists p :: IsSimple(vfs, root, d, p) && |p| == maxDepth + 1
  }

  // ---------------------------------------------------------------- one subtree

  /** What a walk did that began with `before` visited: the directories it listed are new,
      distinct, near and listable, everything they list has been visited, and a directory was
      visited without being listed only where the depth limit cut it off. */
  ghost predicate Explored(vfs: Listings, root: string, maxDepth: int, before: set<string>, w: Walked)
  {
    && NoRepeats(w.listed)
    && (forall d :: d in w.listed ==> d !in before && d in w.visited && d in vfs)
    && AllNear(vfs, root, maxDepth, w.listed)
    && before <= w.visited
    && (forall d :: d in w.visited ==> d in before || d in w.listed || Lost(vfs, root, maxDepth, d))
    && (forall d, c :: d in w.listed && c in SubDirs(vfs[d]) ==> c in w.visited)
  }

  ghost predicate KidsDone(vfs: Listings, root: string, maxDepth: int, kids: seq<DirEntry>, visited: set<string>,
                           w: Walked)
  {
    && Explored(vfs, root, maxDepth, visited, w)
    && (forall c :: c in SubDirs(kids) ==> c in w.visited)
    && EntryBag(w.entries) == ListingBag(kids) + ListedBag(vfs, w.listed)
  }

  ghost predicate DirDone(vfs: Listings, root: string, maxDepth: int, dir: string, visited: set<string>, w: Walked)
  {
    && Explored(vfs, root, maxDepth, visited - {dir}, w) && dir in w.visited
    && EntryBag(w.entries) == ListedBag(vfs, w.listed)
  }

  /** A directory within the limit that cannot be listed. */
  ghost predicate Blocked(vfs: Listings, root: string, maxDepth: int, d: string)
  {
    Near(vfs, root, maxDepth, d) && d !in vfs
  }

  /** The way from the root to the directory being walked, all of it visited. */
  ghost predicate OnStack(vfs: Listings, root: string, dir: string, depth: nat, visited: set<string>, p: seq<string>)
  {
    IsSimple(vfs, root, dir, p) && |p| == depth + 1 && forall d :: d in p ==> d in visited
  }

  lemma {:induction false} Deeper(vfs: Listings, root: string, dir: string, depth: nat, visited: set<string>,
                                  p: seq<string>, next: string)
    requires OnStack(vfs, root, dir, depth, visited, p) && next !in visited
    requires dir in vfs && next in SubDirs(vfs[dir])
    ensures OnStack(vfs, root, next, depth + 1, visited + {next}, p + [next])
  {
    var q := p + [next];
    assert forall k :: 0 <= k < |p| ==> q[k] == p[k] && p[k] in p;
  }

  lemma {:induction false} TreeExplores(vfs: Listings, root: string, maxDepth: int, dir: string, depth: nat,
                                        visited: set<string>, p: seq<string>)
    requires OnStack(vfs, root, dir, depth, visited, p) && (maxDepth >= 0 ==> depth <= maxDepth)
    ensures var r := Tree(vfs, maxDepth, dir, depth, visited);
            if r.Ok? then DirDone(vfs, root, maxDepth, dir, visited, r.value) else Blocked(vfs, root, maxDepth, r.error)
    decreases |vfs.Keys - visited|, if dir in vfs then |vfs[dir]| + 1 else 0
  {
    assert dir in p;
    if CutOff(maxDepth, depth) {
      assert Lost(vfs, root, maxDepth, dir);
    } else {
      assert IsNear(vfs, root, maxDepth, dir, p);
      if dir in vfs {
        KidsExplore(vfs, root, maxDepth, dir, vfs[dir], depth, visited, p);
        DirFromKids(vfs, root, maxDepth, dir, depth, visited);
      }
    }
  }

  lemma {:induction false} DirFromKids(vfs: Listings, root: string, maxDepth: int, dir: string, depth: nat,
                                       visited: set<string>)
    requires dir in visited && dir in vfs && !CutOff(maxDepth, depth) && Near(vfs, root, maxDepth, dir)
    requires var k := TreeKids(vfs, maxDepth, vfs[dir], depth, visited);
             k.Ok? ==> KidsDone(vfs, root, maxDepth, vfs[dir], visited, k.value)
    ensures var r := Tree(vfs, maxDepth, dir, depth, visited);
            r.Ok? ==> DirDone(vfs, root, maxDepth, dir, visited, r.value)
  {
    var k := TreeKids(vfs, maxDepth, vfs[dir], depth, visited);
    if k.Ok? {
      var w := k.value.(listed := [dir] + k.value.listed);
      assert w.listed[1..] == k.value.listed;
      assert forall d :: d in w.listed <==> d == dir || d in k.value.listed;
      assert ListedBag(vfs, w.listed) == ListingBag(vfs[dir]) + ListedBag(vfs, k.value.listed);
    }
  }

  /** `kids` is the part of the listing of `dir` still to be walked. */
  lemma {:induction false} KidsExplore(vfs: Listings, root: string, maxDepth: int, dir: string, kids: seq<DirEntry>,
                                       depth: nat, visited: set<string>, p: seq<string>)
    requires OnStack(vfs, root, dir, depth, visited, p) && dir in vfs && !CutOff(maxDepth, depth)
    requires forall c :: c in SubDirs(kids) ==> c in SubDirs(vfs[dir])
    ensures var r := TreeKids(vfs, maxDepth, kids, depth, visited);
            if r.Ok? then KidsDone(vfs, root, maxDepth, kids, visited, r.value)
            else Blocked(vfs, root, maxDepth, r.error)
    decreases |vfs.Keys - visited|, |kids|
  {
    if kids != [] {
      var kid := kids[0];
      if !kid.isDir || kid.path in visited {
        KidsExplore(vfs, root, maxDepth, dir, kids[1..], depth, visited, p);
        KidPassed(vfs, root, maxDepth, kids, depth, visited);
      } else {
        VisitShrinks(vfs.Keys, visited, kid.path);
        Deeper(vfs, root, dir, depth, visited, p, kid.path);
        TreeExplores(vfs, root, maxDepth, kid.path, depth + 1, visited + {kid.path}, p + [kid.path]);
        var below := Tree(vfs, maxDepth, kid.path, depth + 1, visited + {kid.path});
        if below.Ok? {
          NoMoreLeft(vfs.Keys, visited, below.value.visited);
          KidsExplore(vfs, root, maxDepth, dir, kids[1..], depth, below.value.visited, p);
          var rest := TreeKids(vfs, maxDepth, kids[1..], depth, below.value.visited);
          if rest.Ok? {
            KidDescended(vfs, root, maxDepth, kids, visited, TreeEntry(kid.path, depth + 1, kid.isDir), below.value,
                         rest.value);
          }
        }
      }
    }
  }

  lemma {:induction false} KidPassed(vfs: Listings, root: string, maxDepth: int, kids: seq<DirEntry>, depth: nat,
                                     visited: set<string>)
    requires kids != [] && (!kids[0].isDir || kids[0].path in visited)
    requires var k := TreeKids(vfs, maxDepth, kids[1..], depth, visited);
             k.Ok? ==> KidsDone(vfs, root, maxDepth, kids[1..], visited, k.value)
    ensures var r := TreeKids(vfs, maxDepth, kids, depth, visited);
            r.Ok? ==> KidsDone(vfs, root, maxDepth, kids, visited, r.value)
  {
    var rest := TreeKids(vfs, maxDepth, kids[1..], depth, visited);
    if rest.Ok? {
      PassedKidsDone(vfs, root, maxDepth, kids, visited, rest.value,
                     TreeEntry(kids[0].path, depth + 1, kids[0].isDir));
    }
  }

  /** An entry is printed for the kid, and nothing else happens. */
  lemma {:induction false} PassedKidsDone(vfs: Listings, root: string, maxDepth: int, kids: seq<DirEntry>,
                                          visited: set<string>, rest: Walked, entry: TreeEntry)
    requires kids != [] && (!kids[0].isDir || kids[0].path in visited) && entry.path == kids[0].path
    requires KidsDone(vfs, root, maxDepth, kids[1..], visited, rest)
    ensures KidsDone(vfs, root, maxDepth, kids, visited, rest.(entries := [entry] + rest.entries))
  {
    BagWithEntry(entry, rest.entries);
    BagsAssociate(multiset{entry.path}, ListingBag(kids[1..]), ListedBag(vfs, rest.listed));
  }

  lemma {:induction false} BagWithEntry(entry: TreeEntry, entries: seq<TreeEntry>)
    ensures EntryBag([entry] + entries) == multiset{entry.path} + EntryBag(entries)
  {
    assert ([entry] + entries)[1..] == entries;
  }

  lemma {:induction false} BagsAssociate<T>(p: multiset<T>, q: multiset<T>, r: multiset<T>)
    ensures (p + q) + r == p + (q + r)
  {
  }

  lemma {:induction false} BothExplored(vfs: Listings, root: string, maxDepth: int, dir: string, visited: set<string>,
                                        below: Walked, rest: Walked, both: Walked)
    requires dir !in visited && Explored(vfs, root, maxDepth, visited + {dir} - {dir}, below)
    requires Explored(vfs, root, maxDepth, below.visited, rest)
    requires both.visited == rest.visited && both.listed == below.listed + rest.listed
    ensures Explored(vfs, root, maxDepth, visited, both)
  {
    assert visited + {dir} - {dir} == visited;
    assert forall d :: d in both.listed <==> d in below.listed || d in rest.listed;
    forall i, j | 0 <= i < j < |both.listed|
      ensures both.listed[i] != both.listed[j]
    {
      if i < |below.listed| <= j {
        assert below.listed[i] in below.listed && rest.listed[j - |below.listed|] in rest.listed;
      }
    }
  }

  lemma {:induction false} BothBags(vfs: Listings, kids: seq<DirEntry>, entry: TreeEntry, below: Walked, rest: Walked)
    requires kids != [] && entry.path == kids[0].path
    requires EntryBag(below.entries) == ListedBag(vfs, below.listed)
    requires EntryBag(rest.entries) == ListingBag(kids[1..]) + ListedBag(vfs, rest.listed)
    ensures EntryBag([entry] + below.entries + rest.entries) ==
            ListingBag(kids) + ListedBag(vfs, below.listed + rest.listed)
  {
    EntryBagConcat([entry] + below.entries, rest.entries);
    EntryBagConcat([entry], below.entries);
    ListedBagConcat(vfs, below.listed, rest.listed);
    assert [entry][1..] == [];
    assert EntryBag([entry]) == multiset{kids[0].path};
  }

  lemma {:induction false} KidDescended(vfs: Listings, root: string, maxDepth: int, kids: seq<DirEntry>,
                                        visited: set<string>, entry: TreeEntry, below: Walked, rest: Walked)
    requires kids != [] && kids[0].isDir && kids[0].path !in visited && entry.path == kids[0].path
    requires DirDone(vfs, root, maxDepth, kids[0].path, visited + {kids[0].path}, below)
    requires KidsDone(vfs, root, maxDepth, kids[1..], below.visited, rest)
    ensures KidsDone(vfs, root, maxDepth, kids, visited,
                     Walked(rest.visited, [entry] + below.entries + rest.entries, below.listed + rest.listed))
  {
    var path := kids[0].path;
    var both := Walked(rest.visited, [entry] + below.entries + rest.entries, below.listed + rest.listed);
    BothExplored(vfs, root, maxDepth, path, visited, below, rest, both);
    BothBags(vfs, kids, entry, below, rest);
    assert SubDirs(kids) == [path] + SubDirs(kids[1..]);
  }

  // ---------------------------------------------------------------- whole trees

  function TreeOf(fs: Listings, opts: Options, target: string): Result<Walked, string>
  {
    Tree(Visible(opts, fs), opts.maxDepth, target, 0, {target})
  }

  /** The directories a walk expanded are exactly those within the depth limit, each once. */
  ghost predicate CoversNear(vfs: Listings, root: string, maxDepth: int, dirs: seq<string>)
  {
    NoRepeats(dirs) && (forall d :: d in dirs <==> Near(vfs, root, maxDepth, d)) && forall d :: d in dirs ==> d in vfs
  }

  ghost predicate AllListable(vfs: Listings, root: string, maxDepth: int)
  {
    forall d :: Near(vfs, root, maxDepth, d) ==> d in vfs
  }

  /** A directory within the depth limit that a walk can also meet first at the limit. */
  ghost predicate Detour(vfs: Listings, root: string, maxDepth: int)
  {
    exists d :: Near(vfs, root, maxDepth, d) && Lost(vfs, root, maxDepth, d)
  }

  lemma {:induction false} WholeTree(vfs: Listings, maxDepth: int, root: string)
    ensures var r := Tree(vfs, maxDepth, root, 0, {root});
            if r.Ok? then DirDone(vfs, root, maxDepth, root, {root}, r.value) else Blocked(vfs, root, maxDepth, r.error)
  {
    assert OnStack(vfs, root, root, 0, {root}, [root]);
    TreeExplores(vfs, root, maxDepth, root, 0, {root}, [root]);
  }

  /** Whatever the depth limit: every directory expanded lies within it and is expanded once, each
      of its entries is printed, and one within the limit that is not expanded was met at it. */
  lemma {:induction false} TreeStaysNear(fs: Listings, opts: Options, target: string)
    ensures var vfs, r := Visible(opts, fs), TreeOf(fs, opts, target);
            if r.Err? then Near(vfs, target, opts.maxDepth, r.error) && r.error !in vfs
            else
              && NoRepeats(r.value.listed) && AllNear(vfs, target, opts.maxDepth, r.value.listed)
              && EntryBag(r.value.entries) == ListedBag(vfs, r.value.listed)
              && forall d :: Near(vfs, target, opts.maxDepth, d) && d in r.value.visited ==>
                   d in r.value.listed || Lost(vfs, target, opts.maxDepth, d)
  {
    WholeTree(Visible(opts, fs), opts.maxDepth, target);
  }

  lemma {:induction false} NearIsListed(vfs: Listings, root: string, maxDepth: int, w: Walked, p: seq<string>, k: nat)
    requires DirDone(vfs, root, maxDepth, root, {root}, w)
    requires forall d :: d in w.visited && Near(vfs, root, maxDepth, d) ==> d in w.listed
    requires IsPath(vfs, p) && p[0] == root && (maxDepth >= 0 ==> |p| <= maxDepth) && k < |p|
    ensures p[k] in w.listed
    decreases k
  {
    assert IsNear(vfs, root, maxDepth, p[k], p[..k + 1]);
    if k > 0 {
      NearIsListed(vfs, root, maxDepth, w, p, k - 1);
    }
  }

  /** For the listings in their given order: a walk that ends well expands exactly the directories
      within the limit if and only if it did not first meet one of them at the limit. */
  lemma {:induction false} WalkCoversIff(fs: Listings, opts: Options, target: string)
    requires TreeOf(fs, opts, target).Ok?
    ensures var vfs, w := Visible(opts, fs), TreeOf(fs, opts, target).value;
            CoversNear(vfs, target, opts.maxDepth, w.listed) <==>
              forall d :: d in w.visited && d !in w.listed ==>
                Lost(vfs, target, opts.maxDepth, d) && !Near(vfs, target, opts.maxDepth, d)
  {
    var vfs, w := Visible(opts, fs), TreeOf(fs, opts, target).value;
    WholeTree(vfs, opts.maxDepth, target);
    if forall d :: d in w.visited && d !in w.listed ==>
         Lost(vfs, target, opts.maxDepth, d) && !Near(vfs, target, opts.maxDepth, d) {
      forall d | Near(vfs, target, opts.maxDepth, d)
        ensures d in w.listed
      {
        var p :| IsNear(vfs, target, opts.maxDepth, d, p);
        NearIsListed(vfs, target, opts.maxDepth, w, p, |p| - 1);
      }
    }
  }

  /** If no directory within the depth limit can also be met at the limit, `tree` expands exactly
      the directories within it, each once, and prints every entry of each; it fails exactly when
      one of them cannot be listed. */
  lemma {:induction false} TreeCoversNear(fs: Listings, opts: Options, target: string)
    requires !Detour(Visible(opts, fs), target, opts.maxDepth)
    ensures var vfs, r := Visible(opts, fs), TreeOf(fs, opts, target);
            && (r.Ok? <==> AllListable(vfs, target, opts.maxDepth))
            && (r.Ok? ==> CoversNear(vfs, target, opts.maxDepth, r.value.listed) &&
                          EntryBag(r.value.entries) == ListedBag(vfs, r.value.listed))
  {
    var vfs, r := Visible(opts, fs), TreeOf(fs, opts, target);
    WholeTree(vfs, opts.maxDepth, target);
    if r.Ok? {
      forall d | Near(vfs, target, opts.maxDepth, d)
        ensures d in r.value.listed
      {
        var p :| IsNear(vfs, target, opts.maxDepth, d, p);
        NearIsListed(vfs, target, opts.maxDepth, r.value, p, |p| - 1);
      }
    }
  }

  lemma {:induction false} UnlimitedHasNoDetour(vfs: Listings, target: string, maxDepth: int)
    requires maxDepth < 0
    ensures !Detour(vfs, target, maxDepth)
    ensures forall d :: Near(vfs, target, maxDepth, d) <==> Reachable(vfs, target, d)
  {
    forall d | Reachable(vfs, target, d)
      ensures Near(vfs, target, maxDepth, d)
    {
      var p :| IsPath(vfs, p) && p[0] == target && p[|p| - 1] == d;
      assert IsNear(vfs, target, maxDepth, d, p);
    }
  }

  /** Without a depth limit, `tree` expands exactly the directories reachable through visible
      entries, each once, and prints every entry of each; it fails exactly when one of them
      cannot be listed. */
  lemma {:induction false} UnlimitedTreeCovers(fs: Listings, opts: Options, target: string)
    requires opts.maxDepth < 0
    ensures var vfs := Visible(opts, fs);
            var r := TreeOf(fs, opts, target);
            && (r.Ok? <==> forall d :: Reachable(vfs, target, d) ==> d in vfs)
            && (r.Ok? ==> CoversReachable(vfs, target, r.value.listed) &&
                          EntryBag(r.value.entries) == ListedBag(vfs, r.value.listed))
  {
    UnlimitedHasNoDetour(Visible(opts, fs), target, opts.maxDepth);
    TreeCoversNear(fs, opts, target);
  }

  lemma {:induction false} SectionsBag(fs: Listings, sections: seq<Section>)
    requires forall s :: s in sections ==> s.dir in fs && s.entries == fs[s.dir]
    ensures ListedBag(fs, Dirs(sections)) == PrintedBag(sections)
    decreases |sections|
  {
    if sections != [] {
      assert sections[0] in sections;
      SectionsBag(fs, sections[1..]);
      assert Dirs(sections)[1..] == Dirs(sections[1..]);
    }
  }

  /** The entries under all headings of an `ls -R`. */
  function PrintedBag(sections: seq<Section>): multiset<string>
  {
    if sections == [] then multiset{} else ListingBag(sections[0].entries) + PrintedBag(sections[1..])
  }

  /** With hidden entries included and no depth limit, `tree` and `ls -R` succeed on the same
      targets, expand the same directories, and print the same entries, equally often. */
  lemma {:induction false} TreeMatchesLsRecursive(fs: Listings, opts: Options, target: string)
    requires opts.includeHidden && opts.maxDepth < 0
    ensures var t, l := TreeOf(fs, opts, target), QueueWalk(fs, [target], {}, []);
            && (t.Ok? <==> l.Ok?)
            && (t.Ok? ==> (forall d :: d in t.value.listed <==> d in Dirs(l.value)) &&
                          |t.value.listed| == |l.value| &&
                          EntryBag(t.value.entries) == PrintedBag(l.value))
  {
    VisibleIsAll(opts, fs);
    UnlimitedTreeCovers(fs, opts, target);
    LsRecursiveCovers(fs, target);
    var t, l := TreeOf(fs, opts, target), QueueWalk(fs, [target], {}, []);
    if t.Ok? {
      SameDirsSameBag(fs, t.value.listed, Dirs(l.value));
      SectionsBag(fs, l.value);
      SameLength(t.value.listed, Dirs(l.value));
    }
  }

  lemma {:induction false} SameLength(a: seq<string>, b: seq<string>)
    requires NoRepeats(a) && NoRepeats(b) && forall d :: d in a <==> d in b
    ensures |a| == |b|
    decreases |a|
  {
    if a == [] {
      HasMember(b);
    } else {
      assert a[0] in b;
      var k :| 0 <= k < |b| && b[k] == a[0];
      RemoveOne(a, b, k);
      SameLength(a[1..], b[..k] + b[k + 1..]);
    }
  }
}
