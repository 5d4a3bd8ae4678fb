/** What a static mount answers from its index: stat, listings, enumerations and reads. Every
    request is a text that the mount normalises again. */
module MountListing {
  import opened Prelude
  import opened LexicalPath
  import opened WhiteSpace
  import opened EnginePath
  import opened StaticMount
  import Ordering

  /** The components of a requested path; none when its text cannot be a key of the index. */
  function Asked(raw: string): Option<Path>
  {
    if StaysBelow(raw) then Some(Components(raw)) else None
  }

  lemma {:induction false} AskedIsEngine(raw: string, p: Path)
    requires AllNames(p)
    ensures EngineNormalize(raw) == Absolute(p) <==> Asked(raw) == Some(p)
  {
    NormalisersAgreeIff(raw);
    NormalizedComponents(raw);
    if StaysBelow(raw) {
      if Absolute(Components(raw)) == Absolute(p) {
        AbsoluteIsInjective(Components(raw), p);
      }
    } else {
      NeverNormal(raw, p);
    }
  }

  /** Asking again for a path the mount itself produced. */
  lemma {:induction false} AskedAgain(p: Path)
    requires AllNames(p)
    ensures Asked(Absolute(p)) == Some(p) <==> !EndsInSpace(Absolute(p))
    ensures Asked(Absolute(p)) == Some(Components(Absolute(p)))
  {
    var s := Absolute(p);
    KeepsRoot(s);
    RootedTrim(s);
    assert Rooted(TrimSpace(s));
    if EndsInSpace(s) {
      TrimmedDiffers(p);
    } else {
      NormalizeOfAbsolute(p);
    }
  }

  function Lookup(index: Index, p: Path): Option<Node>
  {
    if p in index.dirs then Some(Node(p, true))
    else if p in index.files then Some(Node(p, false))
    else None
  }

  function StatPath(index: Index, raw: string): Result<Node, MountError>
  {
    var asked := Asked(raw);
    var found := if asked.Some? then Lookup(index, asked.value) else None;
    if found.Some? then Ok(found.value) else Err(NotFound(EngineNormalize(raw)))
  }

  /** The path that the text of `p` asks for: `p` itself unless that text ends in white space. */
  function AskedFor(p: Path): Path
  {
    Components(Absolute(p))
  }

  /** The mount knows the path that the text of `p` asks for. */
  predicate Found(index: Index, p: Path)
  {
    AskedFor(p) in index.dirs || AskedFor(p) in index.files
  }

  /** Asking the mount for one of its own paths, decided on the index. */
  lemma {:induction false} FoundIff(index: Index, p: Path)
    requires AllNames(p)
    ensures StatPath(index, Absolute(p)).Ok? <==> Found(index, p)
    ensures Found(index, p) ==> Some(StatPath(index, Absolute(p)).value) == Lookup(index, AskedFor(p))
    ensures !Found(index, p) ==> StatPath(index, Absolute(p)) == Err(NotFound(Absolute(AskedFor(p))))
  {
    AskedAgain(p);
    NormalisersAgreeIff(Absolute(p));
  }

  ghost predicate Sound(index: Index)
  {
    Valid(index) && StaticMount.Named(index.files)
  }

  /** No path of the mount ends in white space, which a second normalisation would trim. */
  ghost predicate Tidy(index: Index)
  {
    && (forall d :: d in index.dirs ==> !EndsInSpace(Absolute(d)))
    && (forall f :: f in index.files ==> !EndsInSpace(Absolute(f)))
  }

  lemma {:induction false} KnownPathsAreNamed(index: Index, p: Path)
    requires Sound(index) && (p in index.dirs || p in index.files)
    ensures AllNames(p) && p != []
  {
    DirsAreNamed(index.point, index.files, index.dirs);
    assert p in index.dirs ==> AtOrAbove(index.point, p);
  }

  lemma {:induction false} AsksForItself(index: Index, p: Path)
    requires Sound(index) && (p in index.dirs || p in index.files)
    ensures AskedFor(p) == p <==> !EndsInSpace(Absolute(p))
  {
    KnownPathsAreNamed(index, p);
    AskedAgain(p);
  }

  lemma {:induction false} StatOfKnown(index: Index, p: Path)
    requires Sound(index) && (p in index.dirs || p in index.files) && !EndsInSpace(Absolute(p))
    ensures StatPath(index, Absolute(p)) == Ok(Lookup(index, p).value)
  {
    KnownPathsAreNamed(index, p);
    AskedAgain(p);
  }

  lemma {:induction false} ChildIsKnown(index: Index, d: Path, c: Path)
    requires Sound(index) && d in index.dirs && c in index.children[d]
    ensures (c in index.dirs || c in index.files) && IsChild(index.point, index.files, d, c)
  {
    assert IsChild(index.point, index.files, d, c);
  }

  /** A listed child is found as itself exactly when its name does not end in white space. */
  lemma {:induction false} ChildIsFoundIff(index: Index, d: Path, c: Path)
    requires Sound(index) && d in index.dirs && c in index.children[d]
    ensures StatPath(index, Absolute(c)) == Ok(Node(c, c in index.dirs)) <==> !EndsInSpace(Absolute(c))
  {
    ChildIsKnown(index, d, c);
    KnownPathsAreNamed(index, c);
    AskedAgain(c);
  }

  /** A directory called "a " is listed by its parent but not found: the listing fails. */
  lemma {:induction false} ListingCanFail(index: Index)
    requires Sound(index) && index.point == ["m"] && index.files == map[["m", "a ", "f"] := "text"]
    ensures ["m"] in index.dirs && ["m", "a "] in index.children[["m"]]
    ensures StatPath(index, Absolute(["m", "a "])).Err?
  {
    var f, c := ["m", "a ", "f"], ["m", "a "];
    assert f in index.files && f[..1] == ["m"] && f[..2] == c && c[..1] == ["m"];
    assert IsDirectory(index.point, index.files, ["m"]) && IsDirectory(index.point, index.files, c);
    assert IsChild(index.point, index.files, ["m"], c);
    KnownPathsAreNamed(index, c);
    AskedAgain(c);
    TrimmedAway();
    assert f[..2][1] == "a " && ["m", "a"][1] == "a";
    assert forall g :: g in index.files ==> g == f;
    assert !IsDirectory(index.point, index.files, ["m", "a"]);
  }

  lemma {:induction false} TextsOfBoth()
    ensures Absolute(["m", "a "]) == "/m" + "/" + "a " && Absolute(["m", "a"]) == "/m" + "/" + "a"
  {
    assert Joined(["a "]) == "/a " && Joined(["a"]) == "/a" by {
      assert ["a "][1..] == [] && ["a"][1..] == [];
    }
    assert ["m", "a "][1..] == ["a "] && ["m", "a"][1..] == ["a"];
  }

  lemma {:induction false} TrimmedAway()
    ensures Components(Absolute(["m", "a "])) == ["m", "a"]
  {
    TextsOfBoth();
    TrimsOfNames();
    assert "/m" + "/" + "a " == "/m" + ['/'] + "a " && "/m" + "/" + "a" == "/m" + ['/'] + "a";
    TrimAround("/m", '/', "a ");
    TrimAround("/m", '/', "a");
    assert TrimRight("a") == "a";
    NormalizeOfAbsolute(["m", "a"]);
  }

  // ---------------------------------------------------------------- one level

  ghost predicate NotFoundAgain(index: Index, p: Path, error: MountError)
  {
    !Found(index, p) && error == NotFound(Absolute(AskedFor(p)))
  }

  /** The listing stops at child `k`, the first one that the mount does not find again. */
  ghost predicate StopsAt(index: Index, children: seq<Path>, k: nat, error: MountError)
    requires k < |children|
  {
    && NotFoundAgain(index, children[k], error)
    && forall j :: 0 <= j < k ==> Found(index, children[j])
  }

  lemma {:induction false} ChildAnswer(index: Index, d: Path, c: Path)
    requires Sound(index) && d in index.dirs && c in index.children[d]
    ensures StatPath(index, Absolute(c)).Ok? <==> Found(index, c)
    ensures Found(index, c) ==> Lookup(index, AskedFor(c)) == Some(StatPath(index, Absolute(c)).value)
    ensures !Found(index, c) ==> StatPath(index, Absolute(c)) == Err(NotFound(Absolute(AskedFor(c))))
  {
    ChildIsKnown(index, d, c);
    KnownPathsAreNamed(index, c);
    FoundIff(index, c);
  }

  /** The entries are what the mount finds for the children, in order. */
  ghost predicate FoundEach(index: Index, children: seq<Path>, entries: seq<Node>)
  {
    |entries| == |children| && forall k :: 0 <= k < |entries| ==> FoundAs(index, children[k], entries[k])
  }

  ghost predicate FoundAs(index: Index, p: Path, n: Node)
  {
    Lookup(index, AskedFor(p)) == Some(n)
  }

  lemma {:induction false} OneMoreChild(index: Index, children: seq<Path>, k: nat, entries: seq<Node>, n: Node)
    requires k < |children| && FoundEach(index, children[..k], entries) && FoundAs(index, children[k], n)
    ensures FoundEach(index, children[..k + 1], entries + [n])
  {
  }

  lemma {:induction false} StopsHere(index: Index, children: seq<Path>, k: nat, entries: seq<Node>, error: MountError)
    requires k < |children| && FoundEach(index, children[..k], entries) && NotFoundAgain(index, children[k], error)
    ensures StopsAt(index, children, k, error) && !forall c :: c in children ==> Found(index, c)
  {
    forall j | 0 <= j < k
      ensures Found(index, children[j])
    {
      assert FoundAs(index, children[..k][j], entries[j]);
    }
  }

  lemma {:induction false} AllWereFound(index: Index, children: seq<Path>, entries: seq<Node>)
    requires FoundEach(index, children, entries)
    ensures forall c :: c in children ==> Found(index, c)
  {
    forall c | c in children
      ensures Found(index, c)
    {
      var k :| 0 <= k < |children| && children[k] == c;
      assert FoundAs(index, children[k], entries[k]);
    }
  }

  method ListChildren(index: Index, dir: Path) returns (r: Result<seq<Node>, MountError>)
    requires Sound(index) && dir in index.dirs
    ensures r.Ok? <==> forall c :: c in index.children[dir] ==> Found(index, c)
    ensures r.Ok? ==> FoundEach(index, index.children[dir], r.value)
    ensures r.Err? ==> exists k :: 0 <= k < |index.children[dir]| && StopsAt(index, index.children[dir], k, r.error)
  {
    var children := index.children[dir];
    var entries: seq<Node> := [];
    for k := 0 to |children|
      invariant FoundEach(index, children[..k], entries)
    {
      ChildAnswer(index, dir, children[k]);
      var entry := StatPath(index, Absolute(children[k]));
      if entry.Err? {
        StopsHere(index, children, k, entries, entry.error);
        return Err(entry.error);
      }
      OneMoreChild(index, children, k, entries, entry.value);
      entries := entries + [entry.value];
    }
    assert children[..|children|] == children;
    AllWereFound(index, children, entries);
    return Ok(entries);
  }

  // ---------------------------------------------------------------- everything below

  /** One of the directories in `among` lies below `dir`, and the mount finds it again as `n`. */
  ghost predicate FoundAmong(index: Index, among: set<Path>, dir: Path, n: Node)
  {
    exists d :: d in among && Above(dir, d) && Lookup(index, AskedFor(d)) == Some(n)
  }

  ghost predicate FoundDir(index: Index, dir: Path, n: Node)
  {
    FoundAmong(index, index.dirs, dir, n)
  }

  ghost predicate FileBelow(index: Index, dir: Path, n: Node)
  {
    !n.isDir && n.path in index.files && Above(dir, n.path)
  }

  ghost predicate KnownBelow(index: Index, dir: Path, n: Node)
  {
    Above(dir, n.path) && (if n.isDir then n.path in index.dirs else n.path in index.files)
  }

  lemma {:induction false} FoundDirIsDir(index: Index, dir: Path, n: Node)
    requires Sound(index) && Tidy(index)
    ensures FoundDir(index, dir, n) <==> n.isDir && n.path in index.dirs && Above(dir, n.path)
  {
    if FoundDir(index, dir, n) {
      var d :| d in index.dirs && Above(dir, d) && Lookup(index, AskedFor(d)) == Some(n);
      AsksForItself(index, d);
    }
    if n.isDir && n.path in index.dirs && Above(dir, n.path) {
      AsksForItself(index, n.path);
    }
  }

  lemma {:induction false} FoundOneMore(index: Index, among: set<Path>, d: Path, dir: Path)
    ensures forall n :: FoundAmong(index, among + {d}, dir, n) <==>
                          FoundAmong(index, among, dir, n) || (Above(dir, d) && Lookup(index, AskedFor(d)) == Some(n))
  {
    forall n | FoundAmong(index, among, dir, n)
      ensures FoundAmong(index, among + {d}, dir, n)
    {
      var e :| e in among && Above(dir, e) && Lookup(index, AskedFor(e)) == Some(n);
      assert e in among + {d};
    }
    forall n | Above(dir, d) && Lookup(index, AskedFor(d)) == Some(n)
      ensures FoundAmong(index, among + {d}, dir, n)
    {
      assert d in among + {d};
    }
  }

  /** Each entry was found at another path. */
  ghost predicate DistinctDirs(index: Index, entries: seq<Node>, among: set<Path>)
  {
    NoRepeats(entries) && forall n :: n in entries ==> n.path in among
  }

  lemma {:induction false} OneMoreDir(index: Index, entries: seq<Node>, among: set<Path>, d: Path)
    requires Sound(index) && Tidy(index) && d in index.dirs && d !in among
    requires DistinctDirs(index, entries, among)
    ensures Found(index, d) && DistinctDirs(index, entries + [Lookup(index, AskedFor(d)).value], among + {d})
  {
    AsksForItself(index, d);
    var more := entries + [Node(d, true)];
    assert forall n :: n in more <==> n in entries || n == Node(d, true);
  }

  /** Of the directories `among`, those below `dir` have all been found, as `entries`. */
  ghost predicate DirsFound(index: Index, among: set<Path>, dir: Path, entries: seq<Node>)
  {
    && (forall d :: d in among && Above(dir, d) ==> Found(index, d))
    && (forall n :: n in entries <==> FoundAmong(index, among, dir, n))
    && (Tidy(index) ==> DistinctDirs(index, entries, among))
  }

  lemma {:induction false} DirSkipped(index: Index, among: set<Path>, dir: Path, entries: seq<Node>, d: Path)
    requires DirsFound(index, among, dir, entries) && !Above(dir, d)
    ensures DirsFound(index, among + {d}, dir, entries)
  {
    FoundOneMore(index, among, d, dir);
  }

  lemma {:induction false} DirAdded(index: Index, among: set<Path>, dir: Path, entries: seq<Node>, d: Path)
    requires Sound(index) && DirsFound(index, among, dir, entries) && d in index.dirs && d !in among
    requires Above(dir, d) && Found(index, d)
    ensures DirsFound(index, among + {d}, dir, entries + [Lookup(index, AskedFor(d)).value])
  {
    FoundOneMore(index, among, d, dir);
    if Tidy(index) {
      OneMoreDir(index, entries, among, d);
    }
  }

  /** The directories below `dir`, in whatever order the map yields them. */
  method DirsBelow(index: Index, dir: Path) returns (r: Result<seq<Node>, MountError>)
    requires Sound(index)
    ensures r.Ok? ==> DirsFound(index, index.dirs, dir, r.value)
    ensures r.Err? ==> exists d :: d in index.dirs && Above(dir, d) && NotFoundAgain(index, d, r.error)
  {
    var entries: seq<Node> := [];
    var remaining := index.dirs;
    while remaining != {}
      invariant remaining <= index.dirs && DirsFound(index, index.dirs - remaining, dir, entries)
      decreases |remaining|
    {
      var d :| d in remaining;
      ghost var among := index.dirs - remaining;
      assert among + {d} == index.dirs - (remaining - {d});
      remaining := remaining - {d};
      if d == dir || !Above(dir, d) {
        DirSkipped(index, among, dir, entries, d);
        continue;
      }
      KnownPathsAreNamed(index, d);
      FoundIff(index, d);
      var entry := StatPath(index, Absolute(d));
      if entry.Err? {
        assert NotFoundAgain(index, d, entry.error);
        return Err(entry.error);
      }
      DirAdded(index, among, dir, entries, d);
      entries := entries + [entry.value];
    }
    assert index.dirs - remaining == index.dirs;
    return Ok(entries);
  }

  method AddFilesBelow(index: Index, dir: Path, entries0: seq<Node>) returns (entries: seq<Node>)
    ensures forall n :: n in entries <==> n in entries0 || FileBelow(index, dir, n)
    ensures NoRepeats(entries0) && (forall n :: n in entries0 ==> n.isDir) ==> NoRepeats(entries)
  {
    entries := entries0;
    var remaining := index.files.Keys;
    while remaining != {}
      invariant remaining <= index.files.Keys
      invariant forall n :: n in entries <==> n in entries0 || (FileBelow(index, dir, n) && n.path !in remaining)
      invariant NoRepeats(entries0) && (forall n :: n in entries0 ==> n.isDir) ==> NoRepeats(entries)
      decreases |remaining|
    {
      var f :| f in remaining;
      if Above(dir, f) {
        assert FileBelow(index, dir, Node(f, false));
        entries := entries + [Node(f, false)];
      }
      remaining := remaining - {f};
    }
  }

  lemma {:induction false} NodesOrder(s: seq<Node>)
    ensures Ordering.Orders(NodeLess, s)
  {
    forall a: Node, b: Node
      ensures NodeLess(a, b) ==> !NodeLess(b, a)
    {
      Ordering.CompareFlips(Absolute(a.path), Absolute(b.path));
    }
    forall a: Node, b: Node, c: Node | !NodeLess(b, a) && !NodeLess(c, b)
      ensures !NodeLess(c, a)
    {
      Ordering.CompareFlips(Absolute(a.path), Absolute(b.path));
      Ordering.CompareFlips(Absolute(b.path), Absolute(c.path));
      Ordering.CompareFlips(Absolute(a.path), Absolute(c.path));
      Ordering.CompareTransitive(Absolute(a.path), Absolute(b.path), Absolute(c.path));
    }
  }

  method ListBelow(index: Index, dir: Path) returns (r: Result<seq<Node>, MountError>)
    requires Sound(index)
    ensures r.Ok? <==> forall d :: d in index.dirs && Above(dir, d) ==> Found(index, d)
    ensures r.Err? ==> exists d :: d in index.dirs && Above(dir, d) && NotFoundAgain(index, d, r.error)
    ensures r.Ok? ==> Ordering.Ordered(NodeLess, r.value)
    ensures r.Ok? ==> forall n :: n in r.value <==> FoundDir(index, dir, n) || FileBelow(index, dir, n)
    ensures Tidy(index) && r.Ok? ==> NoRepeats(r.value)
  {
    var dirs :- DirsBelow(index, dir);
    var entries := AddFilesBelow(index, dir, dirs);
    NodesOrder(entries);
    Ordering.SortOrders(NodeLess, entries);
    var sorted := Ordering.Sort(NodeLess, entries);
    Ordering.SameMembers(entries, sorted);
    if Tidy(index) {
      forall n | n in dirs
        ensures n.isDir
      {
        FoundDirIsDir(index, dir, n);
      }
      SameBagNoRepeats(entries, sorted);
    }
    return Ok(sorted);
  }

  /** Exactly the directories and files below, each once, in path order. */
  ghost predicate ListsBelow(index: Index, dir: Path, entries: seq<Node>)
  {
    Ordering.Ordered(NodeLess, entries) && NoRepeats(entries) && forall n :: n in entries <==> KnownBelow(index, dir, n)
  }

  ghost predicate ListsChildren(index: Index, dir: Path, entries: seq<Node>)
    requires dir in index.children
  {
    |entries| == |index.children[dir]| &&
    forall k :: 0 <= k < |entries| ==> entries[k] == Node(index.children[dir][k], index.children[dir][k] in index.dirs)
  }

  /** Every path that a listing of `dir` asks the mount for is found. */
  ghost predicate AllFound(index: Index, dir: Path, recursive: bool)
    requires dir in index.children
  {
    if recursive then forall d :: d in index.dirs && Above(dir, d) ==> Found(index, d)
    else forall c :: c in index.children[dir] ==> Found(index, c)
  }

  /** What the listing holds: the children, or all there is below, each as the mount finds it. */
  ghost predicate ListsFound(index: Index, dir: Path, recursive: bool, entries: seq<Node>)
    requires dir in index.children
  {
    if recursive then
      && Ordering.Ordered(NodeLess, entries)
      && forall n :: n in entries <==> FoundDir(index, dir, n) || FileBelow(index, dir, n)
    else FoundEach(index, index.children[dir], entries)
  }

  method ListEntries(index: Index, raw: string, recursive: bool) returns (r: Result<seq<Node>, MountError>)
    requires Sound(index)
    ensures var dir := Asked(raw);
            if dir.None? || dir.value !in index.dirs then r == Err(NotFound(EngineNormalize(raw)))
            else
              && (r.Ok? <==> AllFound(index, dir.value, recursive))
              && (r.Ok? ==> ListsFound(index, dir.value, recursive, r.value))
              && (Tidy(index) ==> r.Ok?)
              && (Tidy(index) && recursive ==> ListsBelow(index, dir.value, r.value))
              && (Tidy(index) && !recursive ==> ListsChildren(index, dir.value, r.value))
  {
    var asked := Asked(raw);
    if asked.None? || asked.value !in index.dirs {
      return Err(NotFound(EngineNormalize(raw)));
    }
    var dir := asked.value;
    if !recursive {
      r := ListChildren(index, dir);
      if Tidy(index) {
        TidyChildren(index, dir);
        forall k | 0 <= k < |r.value|
          ensures r.value[k] == Node(index.children[dir][k], index.children[dir][k] in index.dirs)
        {
          assert FoundAs(index, index.children[dir][k], r.value[k]);
        }
      }
    } else {
      r := ListBelow(index, dir);
      if Tidy(index) {
        TidyBelow(index, dir);
      }
    }
  }

  lemma {:induction false} TidyChildren(index: Index, dir: Path)
    requires Sound(index) && Tidy(index) && dir in index.dirs
    ensures forall c :: c in index.children[dir] ==>
              Found(index, c) && Lookup(index, AskedFor(c)) == Some(Node(c, c in index.dirs))
  {
    forall c | c in index.children[dir]
      ensures Found(index, c) && Lookup(index, AskedFor(c)) == Some(Node(c, c in index.dirs))
    {
      ChildIsKnown(index, dir, c);
      AsksForItself(index, c);
    }
  }

  lemma {:induction false} TidyBelow(index: Index, dir: Path)
    requires Sound(index) && Tidy(index)
    ensures forall d :: d in index.dirs ==> Found(index, d)
    ensures forall n :: KnownBelow(index, dir, n) <==> FoundDir(index, dir, n) || FileBelow(index, dir, n)
  {
    forall d | d in index.dirs
      ensures Found(index, d)
    {
      AsksForItself(index, d);
    }
    forall n
      ensures KnownBelow(index, dir, n) <==> FoundDir(index, dir, n) || FileBelow(index, dir, n)
    {
      FoundDirIsDir(index, dir, n);
    }
  }

  // ---------------------------------------------------------------- one level, repeated

  /** `b` is reached from `a` by `n` one-level listings. */
  ghost predicate Reaches(index: Index, a: Path, b: Path, n: nat)
    decreases n
  {
    if n == 0 then a == b
    else a in index.children && exists c :: c in index.children[a] && Reaches(index, c, b, n - 1)
  }

  lemma {:induction false} ReachedIsBelow(index: Index, a: Path, b: Path, n: nat)
    requires Sound(index) && a in index.dirs && n > 0 && Reaches(index, a, b, n)
    ensures Above(a, b) && (b in index.dirs || b in index.files)
    decreases n
  {
    var c :| c in index.children[a] && Reaches(index, c, b, n - 1);
    ChildIsKnown(index, a, c);
    if n > 1 {
      assert c in index.children.Keys;
      ReachedIsBelow(index, c, b, n - 1);
      AboveTransitive(a, c, b);
    }
  }

  lemma {:induction false} NextTowards(index: Index, a: Path, b: Path)
    requires Sound(index) && a in index.dirs && Above(a, b) && (b in index.dirs || b in index.files)
    ensures var c := b[..|a| + 1]; c in index.children[a] && (c == b || (c in index.dirs && Above(c, b)))
  {
    var c := b[..|a| + 1];
    assert c[..|a|] == a;
    if c != b {
      AboveTransitive(index.point, a, c);
      if b in index.dirs {
        var f :| f in index.files && Above(b, f);
        AboveTransitive(c, b, f);
        assert IsDirectory(index.point, index.files, c);
      } else {
        assert IsDirectory(index.point, index.files, c);
      }
    } else if b in index.dirs {
      assert IsDirectory(index.point, index.files, b);
    }
    assert IsChild(index.point, index.files, a, c);
  }

  lemma {:induction false} BelowIsReached(index: Index, a: Path, b: Path)
    requires Sound(index) && a in index.dirs && Above(a, b) && (b in index.dirs || b in index.files)
    ensures Reaches(index, a, b, |b| - |a|)
    decreases |b| - |a|
  {
    var c := b[..|a| + 1];
    NextTowards(index, a, b);
    if c == b {
      assert Reaches(index, c, b, 0);
    } else {
      BelowIsReached(index, c, b);
    }
  }

  /** The recursive listing is the transitive closure of one-level listings. */
  lemma {:induction false} RecursiveIsClosure(index: Index, dir: Path, entries: seq<Node>, p: Path)
    requires Sound(index) && dir in index.dirs && ListsBelow(index, dir, entries)
    ensures (exists n :: n in entries && n.path == p) <==> (exists k: nat :: k > 0 && Reaches(index, dir, p, k))
  {
    if k: nat :| k > 0 && Reaches(index, dir, p, k) {
      ReachedIsBelow(index, dir, p, k);
      assert Node(p, p in index.dirs) in entries by {
        assert KnownBelow(index, dir, Node(p, p in index.dirs));
      }
    }
    if n :| n in entries && n.path == p {
      assert KnownBelow(index, dir, n);
      BelowIsReached(index, dir, p);
      var k: nat := |p| - |dir|;
      assert k > 0 && Reaches(index, dir, p, k);
    }
  }

  /** Some path below `dir` is both a file and a directory: one file is an ancestor of another. */
  ghost predicate FileAboveFile(index: Index, dir: Path)
  {
    exists f, g :: f in index.files && g in index.files && Above(dir, f) && Above(f, g)
  }

  predicate PathsOnce(entries: seq<Node>)
  {
    forall i, j :: 0 <= i < j < |entries| ==> entries[i].path != entries[j].path
  }

  /** Stat agrees with the kind listed for every entry. */
  predicate KindsAgree(index: Index, entries: seq<Node>)
  {
    forall n :: n in entries ==> StatPath(index, Absolute(n.path)) == Ok(n)
  }

  /** A recursive listing names each path once exactly when no file below is above another, and
      that is also when stat agrees with the kind listed for every entry. */
  lemma {:induction false} PathsOnceIff(index: Index, dir: Path, entries: seq<Node>)
    requires Sound(index) && Tidy(index) && dir in index.dirs && ListsBelow(index, dir, entries)
    ensures PathsOnce(entries) <==> !FileAboveFile(index, dir)
    ensures KindsAgree(index, entries) <==> !FileAboveFile(index, dir)
  {
    if FileAboveFile(index, dir) {
      ListedTwice(index, dir, entries);
    } else {
      ListedOnce(index, dir, entries);
    }
  }

  lemma {:induction false} ListedTwice(index: Index, dir: Path, entries: seq<Node>)
    requires Sound(index) && Tidy(index) && dir in index.dirs && ListsBelow(index, dir, entries)
    requires FileAboveFile(index, dir)
    ensures !PathsOnce(entries) && !KindsAgree(index, entries)
  {
    var f, g :| f in index.files && g in index.files && Above(dir, f) && Above(f, g);
    TwoKinds(index, dir, f, g);
    assert Node(f, true) in entries && Node(f, false) in entries;
    var i :| 0 <= i < |entries| && entries[i] == Node(f, true);
    var j :| 0 <= j < |entries| && entries[j] == Node(f, false);
    assert entries[if i < j then i else j].path == entries[if i < j then j else i].path;
  }

  lemma {:induction false} ListedOnce(index: Index, dir: Path, entries: seq<Node>)
    requires Sound(index) && Tidy(index) && ListsBelow(index, dir, entries) && !FileAboveFile(index, dir)
    ensures PathsOnce(entries) && KindsAgree(index, entries)
  {
    forall n | n in entries
      ensures n == Node(n.path, n.path in index.dirs) && StatPath(index, Absolute(n.path)) == Ok(n)
    {
      assert KnownBelow(index, dir, n);
      OneKind(index, dir, n);
    }
    forall i, j | 0 <= i < j < |entries|
      ensures entries[i].path != entries[j].path
    {
      assert entries[i] in entries && entries[j] in entries && entries[i] != entries[j];
    }
  }

  lemma {:induction false} TwoKinds(index: Index, dir: Path, f: Path, g: Path)
    requires Sound(index) && Tidy(index) && dir in index.dirs
    requires f in index.files && g in index.files && Above(dir, f) && Above(f, g)
    ensures KnownBelow(index, dir, Node(f, true)) && KnownBelow(index, dir, Node(f, false))
    ensures StatPath(index, Absolute(f)) == Ok(Node(f, true))
  {
    AboveTransitive(index.point, dir, f);
    assert IsDirectory(index.point, index.files, f);
    StatOfKnown(index, f);
  }

  lemma {:induction false} OneKind(index: Index, dir: Path, n: Node)
    requires Sound(index) && Tidy(index) && KnownBelow(index, dir, n)
    ensures FileAboveFile(index, dir) || StatPath(index, Absolute(n.path)) == Ok(n)
    ensures StatPath(index, Absolute(n.path)) == Ok(Node(n.path, n.path in index.dirs))
  {
    if !n.isDir && n.path in index.dirs {
      var g :| g in index.files && Above(n.path, g);
      assert FileAboveFile(index, dir);
    }
    StatOfKnown(index, n.path);
  }

  // ---------------------------------------------------------------- enumeration and reads

  method EnumeratePaths(index: Index, raw: string, recursive: bool) returns (r: Result<seq<Node>, MountError>)
    requires Sound(index)
    ensures var target := Asked(raw);
            if target.Some? && target.value in index.files then r == Ok([Node(target.value, false)])
            else if target.None? || target.value !in index.dirs then r == Err(NotFound(EngineNormalize(raw)))
            else if !recursive then r == Err(IsADirectory(EngineNormalize(raw)))
            else
              && (r.Ok? <==> AllFound(index, target.value, true))
              && (r.Ok? ==> EnumeratesFound(index, target.value, r.value))
              && (Tidy(index) ==> r.Ok? && EnumeratesBelow(index, target.value, r.value))
  {
    var target := Asked(raw);
    if target.Some? && target.value in index.files {
      return Ok([Node(target.value, false)]);
    }
    if target.None? || target.value !in index.dirs {
      return Err(NotFound(EngineNormalize(raw)));
    }
    if !recursive {
      return Err(IsADirectory(EngineNormalize(raw)));
    }
    var entries :- ListEntries(index, raw, true);
    var files := KeepFiles(entries);
    FilesOnlyFound(index, target.value, entries);
    if Tidy(index) {
      FilesOnlyEnumerates(index, target.value, entries);
    }
    return Ok(files);
  }

  method KeepFiles(entries: seq<Node>) returns (files: seq<Node>)
    ensures files == FilesOnly(entries)
  {
    files := [];
    for k := 0 to |entries|
      invariant files == FilesOnly(entries[..k])
    {
      assert entries[..k + 1][..k] == entries[..k];
      if entries[k].isDir {
        continue;
      }
      files := files + [entries[k]];
    }
    assert entries[..|entries|] == entries;
  }

  function FilesOnly(entries: seq<Node>): seq<Node>
  {
    if entries == [] then []
    else
      var last := entries[|entries| - 1];
      FilesOnly(entries[..|entries| - 1]) + if last.isDir then [] else [last]
  }

  /** Exactly the files below the target, each once, in path order. */
  ghost predicate EnumeratesBelow(index: Index, dir: Path, entries: seq<Node>)
  {
    && Ordering.Ordered(NodeLess, entries) && NoRepeats(entries)
    && forall n :: n in entries <==> !n.isDir && n.path in index.files && Above(dir, n.path)
  }

  lemma {:induction false} FilesOnlyMembers(entries: seq<Node>)
    ensures forall n :: n in FilesOnly(entries) <==> n in entries && !n.isDir
    decreases |entries|
  {
    if entries != [] {
      assert entries == entries[..|entries| - 1] + [entries[|entries| - 1]];
      FilesOnlyMembers(entries[..|entries| - 1]);
    }
  }

  lemma {:induction false} FilesOnlyOnce(entries: seq<Node>)
    requires NoRepeats(entries)
    ensures NoRepeats(FilesOnly(entries))
    decreases |entries|
  {
    if entries != [] {
      FilesOnlyOnce(entries[..|entries| - 1]);
      FilesOnlyMembers(entries[..|entries| - 1]);
    }
  }

  lemma {:induction false} FilesOnlyOrdered(entries: seq<Node>)
    requires Ordering.Ordered(NodeLess, entries)
    ensures Ordering.Ordered(NodeLess, FilesOnly(entries))
    decreases |entries|
  {
    if entries != [] {
      var init, last := entries[..|entries| - 1], entries[|entries| - 1];
      FilesOnlyOrdered(init);
      FilesOnlyMembers(init);
      var kept := FilesOnly(init);
      forall k | 0 <= k < |kept|
        ensures !NodeLess(last, kept[k])
      {
        assert kept[k] in init;
      }
    }
  }

  /** The files among what the mount finds below the target, in path order. */
  ghost predicate EnumeratesFound(index: Index, dir: Path, entries: seq<Node>)
  {
    && Ordering.Ordered(NodeLess, entries)
    && forall n :: n in entries <==> !n.isDir && (FoundDir(index, dir, n) || FileBelow(index, dir, n))
  }

  lemma {:induction false} FilesOnlyFound(index: Index, dir: Path, entries: seq<Node>)
    requires dir in index.children && ListsFound(index, dir, true, entries)
    ensures EnumeratesFound(index, dir, FilesOnly(entries))
  {
    FilesOnlyMembers(entries);
    FilesOnlyOrdered(entries);
  }

  lemma {:induction false} FilesOnlyEnumerates(index: Index, dir: Path, entries: seq<Node>)
    requires ListsBelow(index, dir, entries)
    ensures EnumeratesBelow(index, dir, FilesOnly(entries))
  {
    FilesOnlyMembers(entries);
    FilesOnlyOnce(entries);
    FilesOnlyOrdered(entries);
    forall n
      ensures n in FilesOnly(entries) <==> !n.isDir && n.path in index.files && Above(dir, n.path)
    {
      assert n in entries <==> KnownBelow(index, dir, n);
    }
  }

  function ReadContent(index: Index, raw: string): Result<string, MountError>
  {
    var asked := Asked(raw);
    if asked.Some? && asked.value in index.files then Ok(index.files[asked.value])
    else Err(NotFound(EngineNormalize(raw)))
  }

  datatype Content = Content(path: string, text: string)

  predicate FailsFirstAt(index: Index, raws: seq<string>, k: nat, error: MountError)
    requires k < |raws|
  {
    ReadContent(index, raws[k]) == Err(error) && forall j :: 0 <= j < k ==> ReadContent(index, raws[j]).Ok?
  }

  function ReadOnto(index: Index, raws: seq<string>, done: seq<Content>): Result<seq<Content>, MountError>
    decreases |raws|
  {
    if raws == [] then Ok(done)
    else
      var content :- ReadContent(index, raws[0]);
      ReadOnto(index, raws[1..], done + [Content(EngineNormalize(raws[0]), content)])
  }

  /** One entry per request, in request order, or the error of the first request that fails. */
  method ReadMany(index: Index, raws: seq<string>) returns (r: Result<seq<Content>, MountError>)
    ensures r == ReadOnto(index, raws, [])
    ensures r.Ok? <==> forall k :: 0 <= k < |raws| ==> ReadContent(index, raws[k]).Ok?
    ensures r.Ok? ==> |r.value| == |raws|
    ensures r.Ok? ==> forall k :: 0 <= k < |raws| ==>
              r.value[k] == Content(EngineNormalize(raws[k]), ReadContent(index, raws[k]).value)
    ensures r.Err? ==> exists k :: 0 <= k < |raws| && FailsFirstAt(index, raws, k, r.error)
  {
    var entries: seq<Content> := [];
    assert raws[0..] == raws;
    for k := 0 to |raws|
      invariant ReadSoFar(index, raws, k, entries)
    {
      var content := ReadContent(index, raws[k]);
      assert raws[k..][0] == raws[k] && raws[k..][1..] == raws[k + 1..];
      if content.Err? {
        assert FailsFirstAt(index, raws, k, content.error);
        return Err(content.error);
      }
      entries := entries + [Content(EngineNormalize(raws[k]), content.value)];
    }
    return Ok(entries);
  }

  /** The first `k` requests have been read. */
  ghost predicate ReadSoFar(index: Index, raws: seq<string>, k: nat, entries: seq<Content>)
    requires k <= |raws|
  {
    && |entries| == k && ReadOnto(index, raws, []) == ReadOnto(index, raws[k..], entries)
    && (forall j :: 0 <= j < k ==> ReadContent(index, raws[j]).Ok?)
    && (forall j :: 0 <= j < k ==>
          entries[j] == Content(EngineNormalize(raws[j]), ReadContent(index, raws[j]).value))
  }

  lemma {:induction false} ReadOntoEach(index: Index, raws: seq<string>)
    ensures var r := ReadOnto(index, raws, []);
            && (r.Ok? <==> forall k :: 0 <= k < |raws| ==> ReadContent(index, raws[k]).Ok?)
            && (r.Ok? ==> |r.value| == |raws| && forall k :: 0 <= k < |raws| ==>
                            r.value[k] == Content(EngineNormalize(raws[k]), ReadContent(index, raws[k]).value))
  {
    assert raws[0..] == raws;
    ReadRest(index, raws, 0, []);
  }

  lemma {:induction false} ReadRest(index: Index, raws: seq<string>, k: nat, done: seq<Content>)
    requires k <= |raws| && ReadSoFar(index, raws, k, done)
    ensures var r := ReadOnto(index, raws[k..], done);
            if r.Ok? then ReadSoFar(index, raws, |raws|, r.value)
            else exists j :: k <= j < |raws| && ReadContent(index, raws[j]).Err?
    decreases |raws| - k
  {
    if k < |raws| && ReadContent(index, raws[k]).Ok? {
      assert raws[k..][0] == raws[k] && raws[k..][1..] == raws[k + 1..];
      ReadRest(index, raws, k + 1, done + [Content(EngineNormalize(raws[k]), ReadContent(index, raws[k]).value)]);
    } else if k < |raws| {
      assert raws[k..][0] == raws[k];
    }
  }

  /** A file the mount lists can be read back by its listed text exactly when that text does not
      end in white space (or trimming it happens to name another file). */
  lemma {:induction false} ReadBack(index: Index, f: Path)
    requires Sound(index) && f in index.files
    ensures ReadContent(index, Absolute(f)).Ok? <==> Components(Absolute(f)) in index.files
    ensures !EndsInSpace(Absolute(f)) ==> ReadContent(index, Absolute(f)) == Ok(index.files[f])
    ensures EngineNormalize(Absolute(f)) == Absolute(f) <==> !EndsInSpace(Absolute(f))
  {
    KnownPathsAreNamed(index, f);
    AskedAgain(f);
    AskedIsEngine(Absolute(f), f);
  }
}
