/** The two directory walks: the queue of `ls -R` and the recursion of `tree`. The file system
    is a finite table of listings, cycles included; listing anything else is an error. */
module DirWalk {
  import opened Prelude

  datatype DirEntry = DirEntry(path: string, isDir: bool)

  type Listings = map<string, seq<DirEntry>>

  /** The paths of the directories among `entries`, in order. */
  function SubDirs(entries: seq<DirEntry>): seq<string>
  {
    if entries == [] then []
    else if entries[0].isDir then [entries[0].path] + SubDirs(entries[1..])
    else SubDirs(entries[1..])
  }

  lemma {:induction false} SubDirsMembers(entries: seq<DirEntry>, d: string)
    ensures d in SubDirs(entries) <==> DirEntry(d, true) in entries
    decreases |entries|
  {
    if entries != [] {
      SubDirsMembers(entries[1..], d);
    }
  }

  // ---------------------------------------------------------------- reachability

  /** Each directory of `p` but the last is listed, and lists the next one. */
  ghost predicate IsPath(fs: Listings, p: seq<string>)
  {
    p != [] && forall k :: 0 <= k < |p| - 1 ==> p[k] in fs && p[k + 1] in SubDirs(fs[p[k]])
  }

  ghost predicate Reachable(fs: Listings, from: string, d: string)
  {
    exists p :: IsPath(fs, p) && p[0] == from && p[|p| - 1] == d
  }

  lemma {:induction false} ReachSelf(fs: Listings, from: string)
    ensures Reachable(fs, from, from)
  {
    assert IsPath(fs, [from]);
  }

  lemma {:induction false} ReachNext(fs: Listings, from: string, d: string, next: string)
    requires Reachable(fs, from, d) && d in fs && next in SubDirs(fs[d])
    ensures Reachable(fs, from, next)
  {
    var p :| IsPath(fs, p) && p[0] == from && p[|p| - 1] == d;
    assert IsPath(fs, p + [next]);
  }

  /** Every directory of `s` is listed, with all its subdirectories in `all`. */
  predicate Closed(fs: Listings, s: set<string>, all: set<string>)
  {
    forall d :: d in s ==> d in fs && forall c :: c in SubDirs(fs[d]) ==> c in all
  }

  /** A closed set that holds the start holds everything reachable. */
  lemma {:induction false} ClosedHoldsReachable(fs: Listings, s: set<string>, from: string, d: string)
    requires from in s && Closed(fs, s, s) && Reachable(fs, from, d)
    ensures d in s
  {
    var p :| IsPath(fs, p) && p[0] == from && p[|p| - 1] == d;
    ClosedHoldsPath(fs, s, p, |p| - 1);
  }

  lemma {:induction false} ClosedHoldsPath(fs: Listings, s: set<string>, p: seq<string>, k: nat)
    requires IsPath(fs, p) && p[0] in s && Closed(fs, s, s) && k < |p|
    ensures p[k] in s
    decreases k
  {
    if k > 0 {
      ClosedHoldsPath(fs, s, p, k - 1);
    }
  }

  // ---------------------------------------------------------------- ls -R

  /** One block of output: a directory and what it lists. */
  datatype Section = Section(dir: string, entries: seq<DirEntry>)

  function Dirs(sections: seq<Section>): (r: seq<string>)
    ensures |r| == |sections| && forall k :: 0 <= k < |r| ==> r[k] == sections[k].dir
  {
    if sections == [] then [] else [sections[0].dir] + Dirs(sections[1..])
  }

  function QueueWalk(fs: Listings, queue: seq<string>, visited: set<string>, out: seq<Section>)
    : Result<seq<Section>, string>
    decreases |fs.Keys - visited|, |queue|
  {
    if queue == [] then Ok(out)
    else if queue[0] in visited then QueueWalk(fs, queue[1..], visited, out)
    else if queue[0] !in fs then Err(queue[0])
    else
      var dir := queue[0];
      FewerLeft(fs.Keys, visited, dir);
      QueueWalk(fs, queue[1..] + SubDirs(fs[dir]), visited + {dir}, out + [Section(dir, fs[dir])])
  }

  lemma {:induction false} FewerLeft(all: set<string>, visited: set<string>, d: string)
    requires d in all && d !in visited
    ensures |all - (visited + {d})| < |all - visited|
  {
    assert all - visited == (all - (visited + {d})) + {d};
  }

  lemma {:induction false} NoMoreLeft(all: set<string>, visited: set<string>, visited': set<string>)
    requires visited <= visited'
    ensures |all - visited'| <= |all - visited|
  {
    assert all - visited == (all - visited') + ((all - visited) * visited');
  }

  method RunLsRecursive(fs: Listings, target: string) returns (r: Result<seq<Section>, string>)
    ensures r == QueueWalk(fs, [target], {}, [])
  {
    var visited: set<string> := {};
    var queue := [target];
    var out: seq<Section> := [];
    ghost var goal := QueueWalk(fs, [target], {}, []);
    while |queue| > 0
      invariant goal == QueueWalk(fs, queue, visited, out)
      decreases |fs.Keys - visited|, |queue|
    {
      var dir := queue[0];
      queue := queue[1..];
      if dir in visited {
        continue;
      }
      if dir !in fs {
        return Err(dir);
      }
      FewerLeft(fs.Keys, visited, dir);
      visited := visited + {dir};
      out := out + [Section(dir, fs[dir])];
      var children := fs[dir];
      ghost var rest := queue;
      assert children[0..] == children;
      for k := 0 to |children|
        invariant queue + SubDirs(children[k..]) == rest + SubDirs(children)
      {
        assert children[k..][1..] == children[k + 1..];
        if children[k].isDir {
          ConcatAssociates(queue, [children[k].path], SubDirs(children[k + 1..]));
          queue := queue + [children[k].path];
        }
      }
      assert queue + [] == queue;
    }
    return Ok(out);
  }

  /** What the queue walk keeps: sections are listings of distinct visited directories, all of
      them reachable, and what is still to be visited is in the queue. */
  ghost predicate QueueInv(fs: Listings, target: string, queue: seq<string>, visited: set<string>, out: seq<Section>)
  {
    && (forall d :: d in visited <==> d in Dirs(out))
    && NoRepeats(Dirs(out))
    && (forall s :: s in out ==> s.dir in fs && s.entries == fs[s.dir])
    && (forall d :: d in visited || d in queue ==> Reachable(fs, target, d))
    && (target in visited || target in queue)
    && (forall d, c :: d in visited && d in fs && c in SubDirs(fs[d]) ==> c in visited || c in queue)
  }

  lemma {:induction false} DirsAppend(out: seq<Section>, s: Section)
    ensures Dirs(out + [s]) == Dirs(out) + [s.dir]
  {
  }

  lemma {:induction false} VisitStep(fs: Listings, target: string, queue: seq<string>, visited: set<string>,
                                     out: seq<Section>)
    requires QueueInv(fs, target, queue, visited, out)
    requires queue != [] && queue[0] !in visited && queue[0] in fs
    ensures var dir := queue[0];
            QueueInv(fs, target, queue[1..] + SubDirs(fs[dir]), visited + {dir}, out + [Section(dir, fs[dir])])
  {
    var dir := queue[0];
    var queue', visited' := queue[1..] + SubDirs(fs[dir]), visited + {dir};
    var out' := out + [Section(dir, fs[dir])];
    DirsAppend(out, Section(dir, fs[dir]));
    assert dir in queue;
    forall d | d in visited' || d in queue'
      ensures Reachable(fs, target, d)
    {
      if d in SubDirs(fs[dir]) {
        ReachNext(fs, target, dir, d);
      }
    }
    forall d, c | d in visited' && d in fs && c in SubDirs(fs[d])
      ensures c in visited' || c in queue'
    {
      if d != dir && c !in visited && c != dir {
        assert c in queue;
      }
    }
  }

  lemma {:induction false} SkipStep(fs: Listings, target: string, queue: seq<string>, visited: set<string>,
                                    out: seq<Section>)
    requires QueueInv(fs, target, queue, visited, out) && queue != [] && queue[0] in visited
    ensures QueueInv(fs, target, queue[1..], visited, out)
  {
    assert forall d :: d in queue[1..] ==> d in queue;
    assert forall d :: d in queue ==> d == queue[0] || d in queue[1..];
  }

  /** The directories a walk expanded are exactly the reachable ones, each once. */
  ghost predicate CoversReachable(fs: Listings, target: string, dirs: seq<string>)
  {
    NoRepeats(dirs) && (forall d :: d in dirs <==> Reachable(fs, target, d)) && forall d :: d in dirs ==> d in fs
  }

  lemma {:induction false} QueueWalkCovers(fs: Listings, target: string, queue: seq<string>, visited: set<string>,
                                           out: seq<Section>)
    requires QueueInv(fs, target, queue, visited, out)
    ensures var r := QueueWalk(fs, queue, visited, out);
            if r.Ok? then
              CoversReachable(fs, target, Dirs(r.value)) &&
              forall s :: s in r.value ==> s.dir in fs && s.entries == fs[s.dir]
            else Reachable(fs, target, r.error) && r.error !in fs
    decreases |fs.Keys - visited|, |queue|
  {
    if queue == [] {
      assert forall d :: d in visited ==> d in fs by {
        forall d | d in visited
          ensures d in fs
        {
          var k :| 0 <= k < |Dirs(out)| && Dirs(out)[k] == d;
          assert out[k] in out;
        }
      }
      assert Closed(fs, visited, visited);
      forall d | Reachable(fs, target, d)
        ensures d in Dirs(out)
      {
        ClosedHoldsReachable(fs, visited, target, d);
      }
    } else if queue[0] in visited {
      SkipStep(fs, target, queue, visited, out);
      QueueWalkCovers(fs, target, queue[1..], visited, out);
    } else if queue[0] in fs {
      var dir := queue[0];
      FewerLeft(fs.Keys, visited, dir);
      VisitStep(fs, target, queue, visited, out);
      QueueWalkCovers(fs, target, queue[1..] + SubDirs(fs[dir]), visited + {dir}, out + [Section(dir, fs[dir])]);
    } else {
      assert queue[0] in queue;
    }
  }

  /** `ls -R` expands exactly the directories reachable from the target, each once, and shows
      each one's listing; it fails exactly when some reachable directory cannot be listed. */
  lemma {:induction false} LsRecursiveCovers(fs: Listings, target: string)
    ensures var r := QueueWalk(fs, [target], {}, []);
            && (r.Ok? <==> forall d :: Reachable(fs, target, d) ==> d in fs)
            && (r.Ok? ==> CoversReachable(fs, target, Dirs(r.value)) &&
                          forall s :: s in r.value ==> s.dir in fs && s.entries == fs[s.dir])
  {
    ReachSelf(fs, target);
    assert QueueInv(fs, target, [target], {}, []);
    QueueWalkCovers(fs, target, [target], {}, []);
  }
}
