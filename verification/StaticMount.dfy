/** The static mount: an index of directories and children built once from a table of files.
    Paths are lists of components (LexicalPath.PrefixIsComponentPrefix relates them to text). */
module StaticMount {
  import opened Prelude
  import opened LexicalPath
  import EnginePath
  import Ordering

  type Path = seq<string>

  datatype MountError =
    | RootPoint
    | OutsideMount(raw: string)
    | NoFiles
    | NotFound(text: string)
    | IsADirectory(text: string)

  datatype Index = Index(point: Path, files: map<Path, string>, dirs: set<Path>, children: map<Path, seq<Path>>)

  /** What a listing shows of a path. */
  datatype Node = Node(path: Path, isDir: bool)

  /** path.Dir */
  function Parent(p: Path): Path
  {
    if p == [] then [] else p[..|p| - 1]
  }

  predicate AtOrAbove(a: Path, b: Path) {
    a == b || Above(a, b)
  }

  predicate PathLess(a: Path, b: Path) {
    Ordering.StringLess(Absolute(a), Absolute(b))
  }

  predicate NodeLess(a: Node, b: Node) {
    PathLess(a.path, b.path)
  }

  // ---------------------------------------------------------------- what the index should hold

  predicate FilesBelow(point: Path, files: map<Path, string>) {
    forall f :: f in files ==> Above(point, f)
  }

  /** A directory is an ancestor of a file, at or below the mount point. */
  ghost predicate IsDirectory(point: Path, files: map<Path, string>, d: Path)
  {
    AtOrAbove(point, d) && exists f :: f in files && Above(d, f)
  }

  /** An immediate child: one component longer, and a file or on the way to one. */
  ghost predicate IsChild(point: Path, files: map<Path, string>, d: Path, c: Path)
  {
    |c| == |d| + 1 && Above(d, c) && (c in files || IsDirectory(point, files, c))
  }

  ghost predicate DirsExact(point: Path, files: map<Path, string>, dirs: set<Path>)
  {
    forall d :: d in dirs <==> IsDirectory(point, files, d)
  }

  ghost predicate ChildrenExact(point: Path, files: map<Path, string>, dirs: set<Path>, children: map<Path, seq<Path>>)
  {
    children.Keys == dirs &&
    forall d :: d in dirs ==>
      NoRepeats(children[d]) && Ordering.Ordered(PathLess, children[d]) &&
      forall c :: c in children[d] <==> IsChild(point, files, d, c)
  }

  ghost predicate Valid(index: Index)
  {
    && index.point != [] && index.files.Keys != {} && FilesBelow(index.point, index.files)
    && DirsExact(index.point, index.files, index.dirs)
    && ChildrenExact(index.point, index.files, index.dirs, index.children)
  }

  // ---------------------------------------------------------------- building the index

  lemma {:induction false} AboveTransitive(a: Path, b: Path, c: Path)
    requires AtOrAbove(a, b) && Above(b, c)
    ensures Above(a, c)
  {
    if a != b {
      assert c[..|b|][..|a|] == c[..|a|];
    }
  }

  lemma {:induction false} ParentAbove(point: Path, d: Path)
    requires Above(point, d)
    ensures AtOrAbove(point, Parent(d)) && Above(Parent(d), d)
  {
    assert d[..|d| - 1][..|point|] == d[..|point|];
    if |point| == |d| - 1 {
      assert d[..|d| - 1] == point;
    }
  }

  /** The ancestors of one file, down to the mount point. */
  ghost predicate Ancestor(point: Path, file: Path, d: Path)
  {
    AtOrAbove(point, d) && Above(d, file)
  }

  lemma {:induction false} AncestorCases(point: Path, file: Path, low: Path, d: Path)
    requires Ancestor(point, file, low) && Ancestor(point, file, d)
    ensures |d| < |low| ==> Above(d, low)
    ensures |d| == |low| ==> d == low
  {
    assert file[..|low|] == low && file[..|d|] == d;
    if |d| < |low| {
      assert low[..|d|] == file[..|low|][..|d|];
    }
  }

  /** One file's ancestors are added, walking up until the mount point. */
  method AddAncestors(point: Path, file: Path, dirs0: set<Path>) returns (dirs: set<Path>)
    requires Above(point, file)
    ensures forall d :: d in dirs <==> d in dirs0 || Ancestor(point, file, d)
  {
    dirs := dirs0;
    ParentAbove(point, file);
    var dir := Parent(file);
    while true
      invariant Ancestor(point, file, dir)
      invariant forall d :: d in dirs <==> d in dirs0 || (Ancestor(point, file, d) && |d| > |dir|)
      decreases |dir|
    {
      forall d | Ancestor(point, file, d)
        ensures |d| >= |dir| ==> d == dir || |d| > |dir|
      {
        AncestorCases(point, file, dir, d);
      }
      dirs := dirs + {dir};
      if dir == point {
        forall d | Ancestor(point, file, d)
          ensures |d| >= |dir|
        {
        }
        return;
      }
      ParentAbove(point, dir);
      AboveTransitive(Parent(dir), dir, file);
      dir := Parent(dir);
    }
  }

  /** The map of files is traversed in an arbitrary order. */
  method CollectDirs(point: Path, files: map<Path, string>) returns (dirs: set<Path>)
    requires FilesBelow(point, files) && files.Keys != {}
    ensures DirsExact(point, files, dirs)
  {
    dirs := {point};
    var remaining := files.Keys;
    while remaining != {}
      invariant remaining <= files.Keys
      invariant forall d :: d in dirs <==>
                              d == point || exists f :: f in files.Keys - remaining && Ancestor(point, f, d)
      decreases |remaining|
    {
      var file :| file in remaining;
      ghost var before := dirs;
      dirs := AddAncestors(point, file, dirs);
      assert files.Keys - (remaining - {file}) == (files.Keys - remaining) + {file};
      remaining := remaining - {file};
    }
    var some :| some in files.Keys;
    assert Ancestor(point, some, point);
    forall d
      ensures d in dirs <==> IsDirectory(point, files, d)
    {
      if d in dirs && d != point {
        var f :| f in files.Keys && Ancestor(point, f, d);
        assert f in files && Above(d, f);
      }
      if IsDirectory(point, files, d) {
        var f :| f in files && Above(d, f);
        assert Ancestor(point, f, d);
      }
      if d == point {
        assert some in files && Above(d, some);
      }
    }
  }

  type ChildSets = map<Path, set<Path>>

  function Kids(childSet: ChildSets, d: Path): set<Path>
  {
    if d in childSet then childSet[d] else {}
  }

  ghost function ChildrenIn(paths: set<Path>, d: Path): set<Path>
  {
    set c | c in paths && c != [] && Parent(c) == d
  }

  /** Every directory has a set, holding its children among `done`. */
  ghost predicate Linked(keys: set<Path>, childSet: ChildSets, done: set<Path>)
  {
    childSet.Keys == keys && forall d :: d in keys ==> childSet[d] == ChildrenIn(done, d)
  }

  lemma {:induction false} LinkStep(keys: set<Path>, childSet: ChildSets, done: set<Path>, c: Path)
    requires Linked(keys, childSet, done) && c != [] && Parent(c) in keys
    ensures Linked(keys, childSet[Parent(c) := Kids(childSet, Parent(c)) + {c}], done + {c})
  {
    forall d | d in keys
      ensures ChildrenIn(done + {c}, d) == if d == Parent(c) then ChildrenIn(done, d) + {c} else ChildrenIn(done, d)
    {
    }
  }

  method LinkAll(keys: set<Path>, childSet0: ChildSets, ghost done: set<Path>, paths: set<Path>)
    returns (childSet: ChildSets)
    requires Linked(keys, childSet0, done)
    requires forall c :: c in paths ==> c != [] && Parent(c) in keys
    ensures Linked(keys, childSet, done + paths)
  {
    childSet := childSet0;
    var remaining := paths;
    while remaining != {}
      invariant remaining <= paths && Linked(keys, childSet, done + (paths - remaining))
      decreases |remaining|
    {
      var c :| c in remaining;
      LinkStep(keys, childSet, done + (paths - remaining), c);
      assert done + (paths - remaining) + {c} == done + (paths - (remaining - {c}));
      childSet := childSet[Parent(c) := Kids(childSet, Parent(c)) + {c}];
      remaining := remaining - {c};
    }
    assert done + (paths - remaining) == done + paths;
  }

  lemma {:induction false} LinkedChild(point: Path, files: map<Path, string>, dirs: set<Path>, d: Path, c: Path)
    requires DirsExact(point, files, dirs) && FilesBelow(point, files)
    requires c in dirs + files.Keys && c != [] && Parent(c) == d
    ensures IsChild(point, files, d, c)
  {
    assert c[..|d|] == d;
    if c in dirs {
      assert IsDirectory(point, files, c);
    }
  }

  lemma {:induction false} ChildLinked(point: Path, files: map<Path, string>, dirs: set<Path>, d: Path, c: Path)
    requires DirsExact(point, files, dirs) && FilesBelow(point, files)
    requires d in dirs && IsChild(point, files, d, c)
    ensures c in dirs + files.Keys && c != [] && Parent(c) == d && c != point
  {
    assert Parent(c) == d;
    assert IsDirectory(point, files, d);
    if c !in files {
      assert IsDirectory(point, files, c);
      assert c in dirs;
    }
  }

  lemma {:induction false} LinkedIsExact(point: Path, files: map<Path, string>, dirs: set<Path>, childSet: ChildSets)
    requires FilesBelow(point, files) && DirsExact(point, files, dirs)
    requires Linked(dirs, childSet, (dirs - {point}) + files.Keys)
    ensures forall d, c :: d in dirs ==> (c in childSet[d] <==> IsChild(point, files, d, c))
  {
    forall d, c | d in dirs
      ensures c in childSet[d] <==> IsChild(point, files, d, c)
    {
      if c in childSet[d] {
        assert c in ChildrenIn((dirs - {point}) + files.Keys, d);
        LinkedChild(point, files, dirs, d, c);
      }
      if IsChild(point, files, d, c) {
        ChildLinked(point, files, dirs, d, c);
        assert c in ChildrenIn((dirs - {point}) + files.Keys, d);
      }
    }
  }

  lemma {:induction false} PathsOrder(s: seq<Path>)
    requires forall p :: p in s ==> AllNames(p)
    ensures Ordering.Orders(PathLess, s)
    ensures forall a, b :: a in s && b in s && !PathLess(a, b) && !PathLess(b, a) ==> a == b
  {
    forall a, b
      ensures PathLess(a, b) ==> !PathLess(b, a)
      ensures a in s && b in s && !PathLess(a, b) && !PathLess(b, a) ==> a == b
    {
      Ordering.CompareFlips(Absolute(a), Absolute(b));
      if a in s && b in s && !PathLess(a, b) && !PathLess(b, a) {
        AbsoluteIsInjective(a, b);
      }
    }
    forall a, b, c | !PathLess(b, a) && !PathLess(c, b)
      ensures !PathLess(c, a)
    {
      Ordering.CompareFlips(Absolute(a), Absolute(b));
      Ordering.CompareFlips(Absolute(b), Absolute(c));
      Ordering.CompareFlips(Absolute(a), Absolute(c));
      Ordering.CompareTransitive(Absolute(a), Absolute(b), Absolute(c));
    }
  }

  predicate Named(files: map<Path, string>) {
    forall f :: f in files ==> AllNames(f)
  }

  /** `list` is the set `s` in order, each element once. */
  ghost predicate SortsSet(list: seq<Path>, s: set<Path>)
  {
    NoRepeats(list) && Ordering.Ordered(PathLess, list) && forall x :: x in list <==> x in s
  }

  method SortedList(s: set<Path>) returns (list: seq<Path>)
    requires forall p :: p in s ==> AllNames(p)
    ensures SortsSet(list, s)
  {
    var unsorted := Elements(s);
    PathsOrder(unsorted);
    Ordering.SortOrders(PathLess, unsorted);
    list := Ordering.Sort(PathLess, unsorted);
    SameBagNoRepeats(unsorted, list);
    Ordering.SameMembers(unsorted, list);
  }

  method SortChildren(childSet: ChildSets) returns (children: map<Path, seq<Path>>)
    requires forall d, c :: d in childSet && c in childSet[d] ==> AllNames(c)
    ensures children.Keys == childSet.Keys
    ensures forall d :: d in childSet ==> SortsSet(children[d], childSet[d])
  {
    children := map[];
    var remaining := childSet.Keys;
    while remaining != {}
      invariant remaining <= childSet.Keys && children.Keys == childSet.Keys - remaining
      invariant forall d :: d in children ==> SortsSet(children[d], childSet[d])
      decreases |remaining|
    {
      var d :| d in remaining;
      var list := SortedList(childSet[d]);
      children := children[d := list];
      remaining := remaining - {d};
    }
  }

  lemma {:induction false} ParentsAreDirs(point: Path, files: map<Path, string>, dirs: set<Path>)
    requires FilesBelow(point, files) && DirsExact(point, files, dirs)
    ensures forall c :: c in dirs - {point} ==> c != [] && Parent(c) in dirs
    ensures forall f :: f in files.Keys ==> f != [] && Parent(f) in dirs
  {
    forall c | c in dirs - {point}
      ensures c != [] && Parent(c) in dirs
    {
      var f :| f in files && Above(c, f);
      ParentAbove(point, c);
      AboveTransitive(Parent(c), c, f);
      assert IsDirectory(point, files, Parent(c));
    }
    forall f | f in files.Keys
      ensures f != [] && Parent(f) in dirs
    {
      ParentAbove(point, f);
      assert IsDirectory(point, files, Parent(f));
    }
  }

  lemma {:induction false} DirsAreNamed(point: Path, files: map<Path, string>, dirs: set<Path>)
    requires Named(files) && DirsExact(point, files, dirs)
    ensures forall d :: d in dirs ==> AllNames(d)
  {
    forall d | d in dirs
      ensures AllNames(d)
    {
      var f :| f in files && Above(d, f);
      assert AllNames(f[..|d|]);
    }
  }

  lemma {:induction false} ChildrenAreNamed(point: Path, files: map<Path, string>, dirs: set<Path>, childSet: ChildSets)
    requires Named(files) && DirsExact(point, files, dirs)
    requires Linked(dirs, childSet, (dirs - {point}) + files.Keys)
    ensures forall d, c :: d in childSet && c in childSet[d] ==> AllNames(c)
  {
    DirsAreNamed(point, files, dirs);
    forall d, c | d in childSet && c in childSet[d]
      ensures AllNames(c)
    {
      assert c in ChildrenIn((dirs - {point}) + files.Keys, d);
    }
  }

  method LinkChildren(point: Path, files: map<Path, string>, dirs: set<Path>) returns (childSet: ChildSets)
    requires Named(files) && FilesBelow(point, files) && DirsExact(point, files, dirs)
    ensures Linked(dirs, childSet, (dirs - {point}) + files.Keys)
  {
    ParentsAreDirs(point, files, dirs);
    childSet := map d | d in dirs :: {};
    childSet := LinkAll(dirs, childSet, {}, dirs - {point});
    assert {} + (dirs - {point}) == dirs - {point};
    childSet := LinkAll(dirs, childSet, dirs - {point}, files.Keys);
  }

  lemma {:induction false} SortedIsExact(point: Path, files: map<Path, string>, dirs: set<Path>, childSet: ChildSets,
                      children: map<Path, seq<Path>>)
    requires childSet.Keys == dirs && children.Keys == dirs
    requires forall d, c :: d in dirs ==> (c in childSet[d] <==> IsChild(point, files, d, c))
    requires forall d :: d in dirs ==> SortsSet(children[d], childSet[d])
    ensures ChildrenExact(point, files, dirs, children)
  {
    forall d | d in dirs
      ensures forall c :: c in children[d] <==> IsChild(point, files, d, c)
    {
      assert SortsSet(children[d], childSet[d]);
    }
  }

  method BuildIndex(point: Path, files: map<Path, string>) returns (index: Index)
    requires Named(files) && point != [] && FilesBelow(point, files) && files.Keys != {}
    ensures Valid(index) && index.point == point && index.files == files
  {
    var dirs := CollectDirs(point, files);
    var childSet := LinkChildren(point, files, dirs);
    LinkedIsExact(point, files, dirs, childSet);
    ChildrenAreNamed(point, files, dirs, childSet);
    var children := SortChildren(childSet);
    SortedIsExact(point, files, dirs, childSet, children);
    index := Index(point, files, dirs, children);
  }

  // ---------------------------------------------------------------- only one index

  lemma {:induction false} SortedListIsUnique(a: seq<Path>, b: seq<Path>, s: set<Path>)
    requires SortsSet(a, s) && SortsSet(b, s) && forall p :: p in s ==> AllNames(p)
    ensures a == b
  {
    PathsOrder(a);
    assert forall p :: p in a <==> p in b;
    SameElementsSameBag(a, b);
    Ordering.OrderedIsUnique(PathLess, a, b);
  }

  /** Whatever orders the maps are traversed in, the same table gives the same index. */
  lemma {:induction false} IndexIsUnique(a: Index, b: Index)
    requires Valid(a) && Valid(b) && Named(a.files) && a.point == b.point && a.files == b.files
    ensures a == b
  {
    assert forall d :: d in a.dirs <==> d in b.dirs;
    assert a.dirs == b.dirs;
    forall d | d in a.dirs
      ensures a.children[d] == b.children[d]
    {
      var s := set c | c in a.children[d];
      forall c | c in s
        ensures AllNames(c)
      {
        ChildIsNamed(a.point, a.files, d, c);
      }
      SortedListIsUnique(a.children[d], b.children[d], s);
    }
    assert a.children == b.children;
  }

  lemma {:induction false} ChildIsNamed(point: Path, files: map<Path, string>, d: Path, c: Path)
    requires Named(files) && IsChild(point, files, d, c)
    ensures AllNames(c)
  {
    if c !in files {
      var f :| f in files && Above(c, f);
      assert AllNames(f[..|c|]);
    }
  }

  // ---------------------------------------------------------------- the raw table

  /** The raw file name denotes a path strictly below the mount point. */
  predicate Lies(point: Path, raw: string)
  {
    EnginePath.StaysBelow(raw) && Above(point, Components(raw))
  }

  /** The textual test on the normalised name decides whether the file lies below the point. */
  lemma {:induction false} TextDecides(point: Path, raw: string)
    requires point != [] && AllNames(point)
    ensures HasPrefix(EnginePath.EngineNormalize(raw), Absolute(point) + "/") <==> Lies(point, raw)
    ensures EnginePath.EngineNormalize(raw) == Absolute(point) ==> !Lies(point, raw)
  {
    assert IsName(point[0]);
    var text := EnginePath.EngineNormalize(raw);
    EnginePath.NormalisersAgreeIff(raw);
    NormalizedComponents(raw);
    var parts := Components(raw);
    if EnginePath.StaysBelow(raw) {
      if parts == [] {
        assert |Absolute(point) + "/"| > |text|;
      } else {
        PrefixIsComponentPrefix(point, parts);
        if text == Absolute(point) {
          AbsoluteIsInjective(parts, point);
        }
      }
    } else if HasPrefix(text, Absolute(point) + "/") {
      PrefixOfText(text, point);
      EnginePath.OutsideText(raw);
    }
  }

  /** Every file under its normalised path. Of two names for one path either text may be kept. */
  ghost predicate TableOf(raws: map<string, string>, files: map<Path, string>)
  {
    && (forall raw :: raw in raws ==> Components(raw) in files)
    && (forall p :: p in files ==> exists raw :: raw in raws && Components(raw) == p && raws[raw] == files[p])
  }

  /** If no two names denote the same path, there is only one such table. */
  lemma {:induction false} TableIsUnique(raws: map<string, string>, a: map<Path, string>, b: map<Path, string>)
    requires forall r, s :: r in raws && s in raws && Components(r) == Components(s) ==> r == s
    requires TableOf(raws, a) && TableOf(raws, b)
    ensures a == b
  {
    assert forall p :: p in a <==> p in b;
  }

  /** The test on the two normalised texts. */
  predicate BelowText(rawPoint: string, raw: string)
  {
    HasPrefix(EnginePath.EngineNormalize(raw), EnginePath.EngineNormalize(rawPoint) + "/")
  }

  /** The loop over the raw table, in whatever order the map yields it. */
  method NormalizeTable(rawPoint: string, raws: map<string, string>) returns (r: Result<map<Path, string>, MountError>)
    ensures r.Ok? <==> forall raw :: raw in raws ==> BelowText(rawPoint, raw)
    ensures r.Ok? ==> TableOf(raws, r.value)
    ensures r.Err? ==> r.error.OutsideMount? && r.error.raw in raws && !BelowText(rawPoint, r.error.raw)
  {
    var point := EnginePath.EngineNormalize(rawPoint);
    var files: map<Path, string> := map[];
    var remaining := raws.Keys;
    while remaining != {}
      invariant remaining <= raws.Keys && forall raw :: raw in raws && raw !in remaining ==> BelowText(rawPoint, raw)
      invariant TableOf(map raw | raw in raws && raw !in remaining :: raws[raw], files)
      decreases |remaining|
    {
      var raw :| raw in remaining;
      var text := EnginePath.EngineNormalize(raw);
      if text == point || !HasPrefix(text, point + "/") {
        return Err(OutsideMount(raw));
      }
      TableGrows(raws, remaining, files, raw);
      files := files[Components(raw) := raws[raw]];
      remaining := remaining - {raw};
    }
    assert (map raw | raw in raws && raw !in remaining :: raws[raw]) == raws;
    return Ok(files);
  }

  lemma {:induction false} TableGrows(raws: map<string, string>, remaining: set<string>, files: map<Path, string>,
                                      raw: string)
    requires raw in remaining && raw in raws
    requires TableOf(map x | x in raws && x !in remaining :: raws[x], files)
    ensures TableOf(map x | x in raws && x !in remaining - {raw} :: raws[x], files[Components(raw) := raws[raw]])
  {
    var done, more := map x | x in raws && x !in remaining :: raws[x],
                      map x | x in raws && x !in remaining - {raw} :: raws[x];
    var table := files[Components(raw) := raws[raw]];
    assert raw in more && forall x :: x in done ==> x in more && more[x] == done[x];
    forall p | p in table
      ensures exists x :: x in more && Components(x) == p && more[x] == table[p]
    {
      if p == Components(raw) {
        assert raw in more && more[raw] == table[p];
      } else {
        var x :| x in done && Components(x) == p && done[x] == files[p];
        assert x in more && more[x] == table[p];
      }
    }
  }

  lemma {:induction false} TableLiesBelow(point: Path, raws: map<string, string>, files: map<Path, string>)
    requires TableOf(raws, files) && forall raw :: raw in raws ==> Lies(point, raw)
    ensures Named(files) && FilesBelow(point, files)
  {
    forall p | p in files
      ensures AllNames(p) && Above(point, p)
    {
      var raw :| raw in raws && Components(raw) == p;
      NormalizedComponents(raw);
    }
  }

  lemma {:induction false} TableIsEmpty(raws: map<string, string>, files: map<Path, string>)
    requires TableOf(raws, files)
    ensures files.Keys == {} <==> raws.Keys == {}
  {
    if raws.Keys != {} {
      var raw :| raw in raws.Keys;
      assert Components(raw) in files.Keys;
    }
    if files.Keys != {} {
      var p :| p in files.Keys;
    }
  }

  // ---------------------------------------------------------------- when the walk to the mount point ends

  function UpToLastSlash(s: string): string
  {
    if s == "" || s[|s| - 1] == '/' then s else UpToLastSlash(s[..|s| - 1])
  }

  /** path.Dir of a rooted path. */
  function DirText(s: string): string
  {
    EnginePath.CleanRooted(UpToLastSlash(s))
  }

  /** path.Dir, `n` times. */
  function DirsUp(s: string, n: nat): string
  {
    if n == 0 then s else DirText(DirsUp(s, n - 1))
  }

  lemma {:induction false} UpToSlash(front: string, name: string)
    requires NoSlash(name)
    ensures UpToLastSlash(front + ("/" + name)) == front + "/"
    decreases |name|
  {
    var s := front + ("/" + name);
    if name != "" {
      var init := name[..|name| - 1];
      assert s[..|s| - 1] == front + ("/" + init);
      UpToSlash(front, init);
    } else {
      assert s == front + "/";
    }
  }

  lemma {:induction false} CleanSlash(d: Path)
    requires AllNames(d)
    ensures EnginePath.CleanRooted(Joined(d) + "/") == Absolute(d)
  {
    assert Joined(d) + ("/" + "") == Joined(d) + "/";
    SplitAtSlash(Joined(d), "");
    assert AllSlashFree(d) by {
      assert forall p :: p in d ==> IsName(p);
    }
    SplitJoined(d);
    ResolveInTwo([], [""] + d, [""]);
    assert ([""] + d)[1..] == d && [""][1..] == [];
    ResolveNames([], d);
    assert [] + d == d;
  }

  lemma {:induction false} DirOfChild(d: Path, name: string)
    requires AllNames(d) && IsName(name)
    ensures DirText(Absolute(d + [name])) == Absolute(d)
  {
    ChildText(d, name);
    assert Joined(d) + "/" + name == Joined(d) + ("/" + name);
    UpToSlash(Joined(d), name);
    CleanSlash(d);
  }

  lemma {:induction false} OneDirUp(s: string, n: nat, t: string)
    requires DirsUp(s, n) == t
    ensures DirsUp(s, n + 1) == DirText(t)
  {
  }

  lemma {:induction false} DirsOfPath(d: Path, e: Path)
    requires AllNames(d) && AllNames(e)
    ensures DirsUp(Absolute(d + e), |e|) == Absolute(d)
    decreases |e|
  {
    if e == [] {
      assert d + e == d;
    } else {
      var x, rest := e[0], e[1..];
      assert d + e == (d + [x]) + rest && x in e;
      DirsOfPath(d + [x], rest);
      OneDirUp(Absolute(d + e), |rest|, Absolute(d + [x]));
      DirOfChild(d, x);
    }
  }

  lemma {:induction false} DirIsNormal(s: string) returns (p: Path)
    ensures AllNames(p) && DirText(s) == Absolute(p)
  {
    p := Resolve([], Split(UpToLastSlash(s)));
    SplitParts(UpToLastSlash(s));
    ResolveKeepsNames([], Split(UpToLastSlash(s)));
  }

  ghost predicate MeetsText(s: string, t: string)
  {
    exists n: nat :: n > 0 && DirsUp(s, n) == t
  }

  /** The walk from a file's directory upwards meets the mount point. */
  ghost predicate WalkMeets(rawPoint: string, raw: string)
  {
    MeetsText(EnginePath.EngineNormalize(raw), EnginePath.EngineNormalize(rawPoint))
  }

  lemma {:induction false} MeetsAncestor(point: Path, p: Path)
    requires AllNames(p) && Above(point, p)
    ensures MeetsText(Absolute(p), Absolute(point))
  {
    var rest := p[|point|..];
    assert p == point + rest;
    assert forall x :: x in point || x in rest ==> x in p;
    DirsOfPath(point, rest);
    assert |rest| > 0 && DirsUp(Absolute(p), |rest|) == Absolute(point);
  }

  lemma {:induction false} WalkMeetsPoint(rawPoint: string, raw: string)
    requires BelowText(rawPoint, raw) && EnginePath.EngineNormalize(rawPoint) != "/" && EnginePath.StaysBelow(rawPoint)
    ensures WalkMeets(rawPoint, raw)
  {
    TextsOfFile(rawPoint, raw);
    MeetsAncestor(Components(rawPoint), Components(raw));
  }

  lemma {:induction false} NeverMet(rawPoint: string, s: string, n: nat)
    requires !EnginePath.StaysBelow(rawPoint) && n > 0
    ensures DirsUp(s, n) != EnginePath.EngineNormalize(rawPoint)
  {
    var p := DirIsNormal(DirsUp(s, n - 1));
    EnginePath.NeverNormal(rawPoint, p);
  }

  /** For a file that passes the textual test the walk ends exactly if the mount point has a normal
      form. Below a point such as "..", whose text is "/..", it never does. */
  lemma {:induction false} WalkEndsIff(rawPoint: string, raw: string)
    requires BelowText(rawPoint, raw) && EnginePath.EngineNormalize(rawPoint) != "/"
    ensures WalkMeets(rawPoint, raw) <==> EnginePath.StaysBelow(rawPoint)
  {
    if EnginePath.StaysBelow(rawPoint) {
      WalkMeetsPoint(rawPoint, raw);
    } else {
      forall n: nat | n > 0
        ensures DirsUp(EnginePath.EngineNormalize(raw), n) != EnginePath.EngineNormalize(rawPoint)
      {
        NeverMet(rawPoint, EnginePath.EngineNormalize(raw), n);
      }
    }
  }

  lemma {:induction false} TextsOfFile(rawPoint: string, raw: string)
    requires EnginePath.StaysBelow(rawPoint) && EnginePath.EngineNormalize(rawPoint) != "/"
    ensures var point := Components(rawPoint);
            && point != [] && AllNames(point) && EnginePath.EngineNormalize(rawPoint) == Absolute(point)
            && (BelowText(rawPoint, raw) <==> Lies(point, raw))
            && (BelowText(rawPoint, raw) ==>
                  AllNames(Components(raw)) && EnginePath.EngineNormalize(raw) == Absolute(Components(raw)))
  {
    var point := Components(rawPoint);
    NormalizedComponents(rawPoint);
    EnginePath.NormalisersAgreeIff(rawPoint);
    RootIffNoComponents(point);
    TextDecides(point, raw);
    NormalizedComponents(raw);
    EnginePath.NormalisersAgreeIff(raw);
  }

  /** The inputs on which the constructor returns: unless the mount point has no normal form and every
      file passes the textual test. */
  predicate Returns(rawPoint: string, raws: map<string, string>)
  {
    || EnginePath.StaysBelow(rawPoint)
    || raws.Keys == {}
    || exists raw :: raw in raws && !BelowText(rawPoint, raw)
  }

  /** The table of files becomes an index whose directories and children are exact; a root mount
      point, a file outside the mount and an empty table are refused. */
  method NewStaticMount(rawPoint: string, raws: map<string, string>) returns (r: Result<Index, MountError>)
    requires Returns(rawPoint, raws)
    ensures r.Ok? <==>
              && EnginePath.EngineNormalize(rawPoint) != "/" && raws.Keys != {}
              && forall raw :: raw in raws ==> BelowText(rawPoint, raw)
    ensures r.Ok? ==> Valid(r.value) && Named(r.value.files) && EnginePath.StaysBelow(rawPoint)
    ensures r.Ok? ==> r.value.point == Components(rawPoint) && TableOf(raws, r.value.files)
    ensures r.Ok? ==> forall raw :: raw in raws ==> Lies(r.value.point, raw)
    ensures r.Err? ==>
              match r.error
              case RootPoint => EnginePath.EngineNormalize(rawPoint) == "/"
              case OutsideMount(raw) => raw in raws && !BelowText(rawPoint, raw)
              case NoFiles => raws.Keys == {}
              case _ => false
  {
    if EnginePath.EngineNormalize(rawPoint) == "/" {
      return Err(RootPoint);
    }
    var files :- NormalizeTable(rawPoint, raws);
    TableIsEmpty(raws, files);
    if |files.Keys| == 0 {
      return Err(NoFiles);
    }
    forall raw | raw in raws
      ensures Lies(Components(rawPoint), raw)
    {
      TextsOfFile(rawPoint, raw);
    }
    TableLiesBelow(Components(rawPoint), raws, files);
    var some :| some in raws.Keys;
    TextsOfFile(rawPoint, some);
    var index := BuildIndex(Components(rawPoint), files);
    return Ok(index);
  }

  lemma {:induction false} RootIffNoComponents(p: Path)
    requires AllNames(p)
    ensures Absolute(p) == "/" <==> p == []
  {
    if Absolute(p) == "/" {
      AbsoluteIsInjective(p, []);
    }
  }
}
