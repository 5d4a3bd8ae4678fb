/** The order in which `ls -R` and `tree` print: `ls -R` in order of first mention, `tree` as an
    outline in which each directory's listing follows it. */
module WalkOrder {
  import opened Prelude
  import opened DirWalk
  import opened TreeWalk

  // ---------------------------------------------------------------- the directories of a listing

  /** The directories of a listing, in its order. */
  lemma {:induction false} SubDirsInOrder(a: seq<DirEntry>, e: DirEntry, b: seq<DirEntry>)
    ensures SubDirs(a + [e] + b) == SubDirs(a) + (if e.isDir then [e.path] else []) + SubDirs(b)
    decreases |a|
  {
    if a == [] {
      assert a + [e] + b == [e] + b && ([e] + b)[1..] == b;
    } else {
      assert (a + [e] + b)[1..] == a[1..] + [e] + b;
      SubDirsInOrder(a[1..], e, b);
    }
  }

  /** The entries that `tree` shows, in the order of the listing. */
  lemma {:induction false} FilteredInOrder(opts: Options, a: seq<DirEntry>, e: DirEntry, b: seq<DirEntry>)
    ensures Filtered(opts, a + [e] + b) == Filtered(opts, a) + (if Shown(opts, e) then [e] else []) + Filtered(opts, b)
    decreases |a|
  {
    if a == [] {
      assert a + [e] + b == [e] + b && ([e] + b)[1..] == b;
    } else {
      assert (a + [e] + b)[1..] == a[1..] + [e] + b;
      FilteredInOrder(opts, a[1..], e, b);
    }
  }

  // ---------------------------------------------------------------- ls -R

  /** Each path once, where it is mentioned first. */
  function Firsts(paths: seq<string>): seq<string>
  {
    if paths == [] then []
    else
      var init, last := Firsts(paths[..|paths| - 1]), paths[|paths| - 1];
      if last in init then init else init + [last]
  }

  /** The directories that the sections mention, in order. */
  function Mentioned(sections: seq<Section>): seq<string>
  {
    if sections == [] then []
    else Mentioned(sections[..|sections| - 1]) + SubDirs(sections[|sections| - 1].entries)
  }

  lemma {:induction false} FirstsOneMore(paths: seq<string>, p: string)
    ensures Firsts(paths + [p]) == if p in Firsts(paths) then Firsts(paths) else Firsts(paths) + [p]
  {
    assert (paths + [p])[..|paths|] == paths;
  }

  lemma {:induction false} MentionedOneMore(out: seq<Section>, s: Section)
    ensures Mentioned(out + [s]) == Mentioned(out) + SubDirs(s.entries)
  {
    assert (out + [s])[..|out|] == out;
  }

  /** What has been taken from the queue so far has been expanded in order of first mention. */
  ghost predicate InOrder(target: string, queue: seq<string>, visited: set<string>, out: seq<Section>,
                          done: seq<string>)
  {
    && [target] + Mentioned(out) == done + queue
    && Dirs(out) == Firsts(done) && forall d :: d in visited <==> d in Dirs(out)
  }

  lemma {:induction false} SkipInOrder(target: string, queue: seq<string>, visited: set<string>, out: seq<Section>,
                                       done: seq<string>)
    requires InOrder(target, queue, visited, out, done) && queue != [] && queue[0] in visited
    ensures InOrder(target, queue[1..], visited, out, done + [queue[0]])
  {
    FirstsOneMore(done, queue[0]);
    assert done + [queue[0]] + queue[1..] == done + queue;
  }

  lemma {:induction false} Requeue(done: seq<string>, queue: seq<string>, more: seq<string>)
    requires queue != []
    ensures (done + queue) + more == (done + [queue[0]]) + (queue[1..] + more)
  {
  }

  lemma {:induction false} VisitInOrder(target: string, queue: seq<string>, visited: set<string>, out: seq<Section>,
                                        done: seq<string>, s: Section)
    requires InOrder(target, queue, visited, out, done) && queue != [] && queue[0] !in visited && s.dir == queue[0]
    ensures InOrder(target, queue[1..] + SubDirs(s.entries), visited + {s.dir}, out + [s], done + [queue[0]])
  {
    FirstsOneMore(done, queue[0]);
    DirsAppend(out, s);
    MentionedOneMore(out, s);
    ConcatAssociates([target], Mentioned(out), SubDirs(s.entries));
    Requeue(done, queue, SubDirs(s.entries));
    assert forall d :: d in Dirs(out) + [s.dir] <==> d in Dirs(out) || d == s.dir;
  }

  lemma {:induction false} QueueOrder(fs: Listings, target: string, queue: seq<string>, visited: set<string>,
                                      out: seq<Section>, done: seq<string>)
    requires InOrder(target, queue, visited, out, done)
    ensures var r := QueueWalk(fs, queue, visited, out);
            r.Ok? ==> Dirs(r.value) == Firsts([target] + Mentioned(r.value))
    decreases |fs.Keys - visited|, |queue|
  {
    if queue == [] {
      assert done + queue == done;
    } else if queue[0] in visited {
      SkipInOrder(target, queue, visited, out, done);
      QueueOrder(fs, target, queue[1..], visited, out, done + [queue[0]]);
    } else if queue[0] in fs {
      var s := Section(queue[0], fs[queue[0]]);
      FewerLeft(fs.Keys, visited, queue[0]);
      VisitInOrder(target, queue, visited, out, done, s);
      QueueOrder(fs, target, queue[1..] + SubDirs(s.entries), visited + {s.dir}, out + [s], done + [queue[0]]);
    }
  }

  /** `ls -R` prints the target first and then each directory in the order in which the sections mention
      it first: level by level. */
  lemma {:induction false} LsRecursiveOrder(fs: Listings, target: string)
    ensures var r := QueueWalk(fs, [target], {}, []);
            r.Ok? ==> Dirs(r.value) == Firsts([target] + Mentioned(r.value))
  {
    assert [target] + Mentioned([]) == [] + [target];
    QueueOrder(fs, target, [target], {}, [], []);
  }

  // ---------------------------------------------------------------- tree

  /** The entries at `depth`, up to the first one that is less deep. */
  function Top(entries: seq<TreeEntry>, depth: nat): seq<TreeEntry>
  {
    if entries == [] || entries[0].depth < depth then []
    else if entries[0].depth == depth then [entries[0]] + Top(entries[1..], depth)
    else Top(entries[1..], depth)
  }

  /** A listing, as entries at `depth`. */
  function Entered(kids: seq<DirEntry>, depth: nat): seq<TreeEntry>
  {
    if kids == [] then [] else [TreeEntry(kids[0].path, depth, kids[0].isDir)] + Entered(kids[1..], depth)
  }

  /** A directory of this path stands before entry `k`. */
  predicate MentionedBefore(entries: seq<TreeEntry>, k: nat, path: string)
    requires k <= |entries|
  {
    exists j :: 0 <= j < k && entries[j].isDir && entries[j].path == path
  }

  /** Entry `k` is expanded: a directory seen for the first time, above the depth limit. */
  predicate Expands(entries: seq<TreeEntry>, k: nat, seen: set<string>, maxDepth: int)
    requires k < |entries|
  {
    && entries[k].isDir && entries[k].path !in seen && !MentionedBefore(entries, k, entries[k].path)
    && (maxDepth >= 0 ==> entries[k].depth < maxDepth)
  }

  /** Below an entry that is expanded stands its listing, and below any other nothing. */
  predicate EntryIs(vfs: Listings, maxDepth: int, seen: set<string>, entries: seq<TreeEntry>, k: nat)
    requires k < |entries|
  {
    var e := entries[k];
    if Expands(entries, k, seen, maxDepth) then
      e.path in vfs && Top(entries[k + 1..], e.depth + 1) == Entered(vfs[e.path], e.depth + 1)
    else Top(entries[k + 1..], e.depth + 1) == []
  }

  predicate AllDeep(entries: seq<TreeEntry>, depth: nat) {
    (entries != [] ==> entries[0].depth == depth) && forall k :: 0 <= k < |entries| ==> entries[k].depth >= depth
  }

  predicate EntriesAre(vfs: Listings, maxDepth: int, seen: set<string>, entries: seq<TreeEntry>)
  {
    forall k :: 0 <= k < |entries| ==> EntryIs(vfs, maxDepth, seen, entries, k)
  }

  /** The entries are an outline below the listing `kids`; `seen` holds what was expanded before. */
  predicate IsOutline(vfs: Listings, maxDepth: int, seen: set<string>, kids: seq<DirEntry>, depth: nat,
                      entries: seq<TreeEntry>)
  {
    AllDeep(entries, depth) && Top(entries, depth) == Entered(kids, depth) && EntriesAre(vfs, maxDepth, seen, entries)
  }

  /** What has been seen afterwards: what was before, and the directories among the entries. */
  predicate SeenAfter(before: set<string>, entries: seq<TreeEntry>, after: set<string>) {
    before <= after &&
    (forall k :: 0 <= k < |entries| && entries[k].isDir ==> entries[k].path in after) &&
    (forall d :: d in after ==> d in before || MentionedBefore(entries, |entries|, d))
  }

  lemma {:induction false} TopAppend(a: seq<TreeEntry>, b: seq<TreeEntry>, depth: nat)
    requires b == [] || b[0].depth < depth
    ensures Top(a + b, depth) == Top(a, depth)
    decreases |a|
  {
    if a == [] {
      assert a + b == b;
    } else {
      assert (a + b)[1..] == a[1..] + b;
      TopAppend(a[1..], b, depth);
    }
  }

  lemma {:induction false} TopSkip(a: seq<TreeEntry>, b: seq<TreeEntry>, depth: nat)
    requires forall k :: 0 <= k < |a| ==> a[k].depth > depth
    ensures Top(a + b, depth) == Top(b, depth)
    decreases |a|
  {
    if a == [] {
      assert a + b == b;
    } else {
      assert (a + b)[1..] == a[1..] + b;
      TopSkip(a[1..], b, depth);
    }
  }

  /** The entry of a kid, what stands below it, and the rest. */
  function Joined(first: TreeEntry, below: seq<TreeEntry>, rest: seq<TreeEntry>): seq<TreeEntry>
  {
    [first] + below + rest
  }

  lemma {:induction false} BelowMentioned(first: TreeEntry, below: seq<TreeEntry>, rest: seq<TreeEntry>, k: nat,
                                          path: string)
    requires k <= |below|
    ensures MentionedBefore(Joined(first, below, rest), k + 1, path) <==>
              (first.isDir && first.path == path) || MentionedBefore(below, k, path)
  {
    var all := Joined(first, below, rest);
    assert all[0] == first;
    if j :| 0 <= j < k + 1 && all[j].isDir && all[j].path == path {
      if j > 0 {
        assert below[j - 1] == all[j];
      }
    }
    if j :| 0 <= j < k && below[j].isDir && below[j].path == path {
      assert all[j + 1] == below[j];
    }
  }

  lemma {:induction false} RestMentioned(first: TreeEntry, below: seq<TreeEntry>, rest: seq<TreeEntry>, k: nat,
                                         path: string)
    requires k <= |rest|
    ensures MentionedBefore(Joined(first, below, rest), 1 + |below| + k, path) <==>
              (first.isDir && first.path == path) || MentionedBefore(below, |below|, path) ||
              MentionedBefore(rest, k, path)
  {
    var all, n := Joined(first, below, rest), 1 + |below|;
    BelowMentioned(first, below, rest, |below|, path);
    assert forall j :: 0 <= j < k ==> all[n + j] == rest[j];
    assert forall j :: n <= j < n + k ==> all[j] == rest[j - n];
  }

  lemma {:induction false} EntryBelow(vfs: Listings, maxDepth: int, seen: set<string>, first: TreeEntry,
                                      below: seq<TreeEntry>, rest: seq<TreeEntry>, k: nat)
    requires first.isDir && k < |below| && EntryIs(vfs, maxDepth, seen + {first.path}, below, k)
    requires below[k].depth > first.depth && AllDeep(rest, first.depth)
    ensures EntryIs(vfs, maxDepth, seen, Joined(first, below, rest), k + 1)
  {
    var all := Joined(first, below, rest);
    assert all[k + 1] == below[k] && all[k + 2..] == below[k + 1..] + rest;
    BelowMentioned(first, below, rest, k, below[k].path);
    TopAppend(below[k + 1..], rest, below[k].depth + 1);
  }

  lemma {:induction false} EntryInRest(vfs: Listings, maxDepth: int, seen: set<string>, first: TreeEntry,
                                       below: seq<TreeEntry>, rest: seq<TreeEntry>, after: set<string>, k: nat)
    requires k < |rest| && EntryIs(vfs, maxDepth, after, rest, k)
    requires SeenAfter(if first.isDir then seen + {first.path} else seen, below, after)
    ensures EntryIs(vfs, maxDepth, seen, Joined(first, below, rest), 1 + |below| + k)
  {
    var all, n := Joined(first, below, rest), 1 + |below| + k;
    var path := rest[k].path;
    assert all[n] == rest[k] && all[n + 1..] == rest[k + 1..];
    RestMentioned(first, below, rest, k, path);
    assert path in after <==>
           path in seen || (first.isDir && first.path == path) || MentionedBefore(below, |below|, path);
  }

  lemma {:induction false} EntriesJoined(vfs: Listings, maxDepth: int, seen: set<string>, first: TreeEntry,
                                         below: seq<TreeEntry>, rest: seq<TreeEntry>, after: set<string>)
    requires EntryIs(vfs, maxDepth, seen, Joined(first, below, rest), 0) && AllDeep(rest, first.depth)
    requires below != [] ==> first.isDir && EntriesAre(vfs, maxDepth, seen + {first.path}, below)
    requires forall k :: 0 <= k < |below| ==> below[k].depth > first.depth
    requires EntriesAre(vfs, maxDepth, after, rest)
    requires SeenAfter(if first.isDir then seen + {first.path} else seen, below, after)
    ensures EntriesAre(vfs, maxDepth, seen, Joined(first, below, rest))
  {
    var all := Joined(first, below, rest);
    forall k | 0 <= k < |all|
      ensures EntryIs(vfs, maxDepth, seen, all, k)
    {
      if 1 <= k <= |below| {
        EntryBelow(vfs, maxDepth, seen, first, below, rest, k - 1);
      } else if k > |below| {
        EntryInRest(vfs, maxDepth, seen, first, below, rest, after, k - 1 - |below|);
      }
    }
  }

  lemma {:induction false} SeenJoined(seen: set<string>, first: TreeEntry, below: seq<TreeEntry>, rest: seq<TreeEntry>,
                                      mid: set<string>, after: set<string>)
    requires SeenAfter(if first.isDir then seen + {first.path} else seen, below, mid) && SeenAfter(mid, rest, after)
    ensures SeenAfter(seen, Joined(first, below, rest), after)
  {
    var all := Joined(first, below, rest);
    forall k | 0 <= k < |all| && all[k].isDir
      ensures all[k].path in after
    {
      assert k > |below| ==> all[k] == rest[k - 1 - |below|];
      assert 1 <= k <= |below| ==> all[k] == below[k - 1];
    }
    forall d | d in after
      ensures d in seen || MentionedBefore(all, |all|, d)
    {
      RestMentioned(first, below, rest, |rest|, d);
    }
  }

  lemma {:induction false} TopJoined(first: TreeEntry, below: seq<TreeEntry>, rest: seq<TreeEntry>)
    requires forall k :: 0 <= k < |below| ==> below[k].depth > first.depth
    ensures Top(Joined(first, below, rest), first.depth) == [first] + Top(rest, first.depth)
  {
    assert Joined(first, below, rest)[1..] == below + rest;
    TopSkip(below, rest, first.depth);
  }

  lemma {:induction false} DeepJoined(first: TreeEntry, below: seq<TreeEntry>, rest: seq<TreeEntry>)
    requires AllDeep(rest, first.depth) && forall k :: 0 <= k < |below| ==> below[k].depth > first.depth
    ensures AllDeep(Joined(first, below, rest), first.depth)
  {
  }

  /** What the walk of a listing did. */
  predicate KidsOutlined(vfs: Listings, maxDepth: int, kids: seq<DirEntry>, depth: nat, visited: set<string>, w: Walked)
  {
    IsOutline(vfs, maxDepth, visited, kids, depth + 1, w.entries) && SeenAfter(visited, w.entries, w.visited)
  }

  /** What the walk of a directory did. */
  predicate DirOutlined(vfs: Listings, maxDepth: int, dir: string, depth: nat, visited: set<string>, w: Walked)
  {
    if CutOff(maxDepth, depth) then w.entries == [] && w.visited == visited
    else dir in vfs && KidsOutlined(vfs, maxDepth, vfs[dir], depth, visited, w)
  }

  lemma {:induction false} DirOutline(vfs: Listings, maxDepth: int, dir: string, depth: nat, visited: set<string>)
    ensures var r := Tree(vfs, maxDepth, dir, depth, visited);
            r.Ok? ==> DirOutlined(vfs, maxDepth, dir, depth, visited, r.value)
    decreases |vfs.Keys - visited|, if dir in vfs then |vfs[dir]| + 1 else 0
  {
    if !CutOff(maxDepth, depth) && dir in vfs {
      KidsOutline(vfs, maxDepth, vfs[dir], depth, visited);
    }
  }

  lemma {:induction false} KidsOutline(vfs: Listings, maxDepth: int, kids: seq<DirEntry>, depth: nat,
                                       visited: set<string>)
    requires !CutOff(maxDepth, depth)
    ensures var r := TreeKids(vfs, maxDepth, kids, depth, visited);
            r.Ok? ==> KidsOutlined(vfs, maxDepth, kids, depth, visited, r.value)
    decreases |vfs.Keys - visited|, |kids|
  {
    if kids != [] {
      var kid, entry := kids[0], TreeEntry(kids[0].path, depth + 1, kids[0].isDir);
      if !kid.isDir || kid.path in visited {
        KidsOutline(vfs, maxDepth, kids[1..], depth, visited);
        var rest := TreeKids(vfs, maxDepth, kids[1..], depth, visited);
        if rest.Ok? {
          KidPassedOutline(vfs, maxDepth, kids, depth, visited, entry, rest.value);
        }
      } else {
        VisitShrinks(vfs.Keys, visited, kid.path);
        DirOutline(vfs, maxDepth, kid.path, depth + 1, visited + {kid.path});
        var below := Tree(vfs, maxDepth, kid.path, depth + 1, visited + {kid.path});
        if below.Ok? {
          NoMoreLeft(vfs.Keys, visited, below.value.visited);
          KidsOutline(vfs, maxDepth, kids[1..], depth, below.value.visited);
          var rest := TreeKids(vfs, maxDepth, kids[1..], depth, below.value.visited);
          if rest.Ok? {
            KidDescendedOutline(vfs, maxDepth, kids, depth, visited, entry, below.value, rest.value);
          }
        }
      }
    }
  }

  lemma {:induction false} NothingDeeper(rest: seq<TreeEntry>, depth: nat)
    requires rest == [] || rest[0].depth < depth
    ensures Top(rest, depth) == []
  {
  }

  lemma {:induction false} FirstEntryPassed(vfs: Listings, maxDepth: int, depth: nat, visited: set<string>,
                                            entry: TreeEntry, rest: seq<TreeEntry>)
    requires entry.depth == depth + 1 && AllDeep(rest, depth + 1) && (!entry.isDir || entry.path in visited)
    ensures EntryIs(vfs, maxDepth, visited, Joined(entry, [], rest), 0)
  {
    var all := Joined(entry, [], rest);
    assert all[0] == entry && all[0 + 1..] == rest;
    assert !Expands(all, 0, visited, maxDepth);
    NothingDeeper(rest, depth + 2);
  }

  lemma {:induction false} KidPassedOutline(vfs: Listings, maxDepth: int, kids: seq<DirEntry>, depth: nat,
                                            visited: set<string>, entry: TreeEntry, rest: Walked)
    requires kids != [] && entry == TreeEntry(kids[0].path, depth + 1, kids[0].isDir)
    requires !entry.isDir || entry.path in visited
    requires KidsOutlined(vfs, maxDepth, kids[1..], depth, visited, rest)
    ensures KidsOutlined(vfs, maxDepth, kids, depth, visited, rest.(entries := [entry] + rest.entries))
  {
    assert Joined(entry, [], rest.entries) == [entry] + rest.entries;
    FirstEntryPassed(vfs, maxDepth, depth, visited, entry, rest.entries);
    NothingSeen(visited, entry);
    EntriesJoined(vfs, maxDepth, visited, entry, [], rest.entries, visited);
    TopJoined(entry, [], rest.entries);
    DeepJoined(entry, [], rest.entries);
    SeenJoined(visited, entry, [], rest.entries, visited, rest.visited);
  }

  lemma {:induction false} NothingSeen(visited: set<string>, entry: TreeEntry)
    requires !entry.isDir || entry.path in visited
    ensures SeenAfter(if entry.isDir then visited + {entry.path} else visited, [], visited)
  {
  }

  lemma {:induction false} FirstEntryIs(vfs: Listings, maxDepth: int, depth: nat, visited: set<string>,
                                        entry: TreeEntry, below: Walked, rest: seq<TreeEntry>)
    requires entry.isDir && entry.depth == depth + 1 && entry.path !in visited && AllDeep(rest, depth + 1)
    requires DirOutlined(vfs, maxDepth, entry.path, depth + 1, visited + {entry.path}, below)
    ensures EntryIs(vfs, maxDepth, visited, Joined(entry, below.entries, rest), 0)
  {
    assert Joined(entry, below.entries, rest)[1..] == below.entries + rest;
    TopAppend(below.entries, rest, depth + 2);
  }

  lemma {:induction false} KidDescendedOutline(vfs: Listings, maxDepth: int, kids: seq<DirEntry>, depth: nat,
                                               visited: set<string>, entry: TreeEntry, below: Walked, rest: Walked)
    requires kids != [] && kids[0].isDir && entry == TreeEntry(kids[0].path, depth + 1, true)
    requires entry.path !in visited
    requires DirOutlined(vfs, maxDepth, entry.path, depth + 1, visited + {entry.path}, below)
    requires KidsOutlined(vfs, maxDepth, kids[1..], depth, below.visited, rest)
    ensures KidsOutlined(vfs, maxDepth, kids, depth, visited,
                         Walked(rest.visited, [entry] + below.entries + rest.entries, below.listed + rest.listed))
  {
    FirstEntryIs(vfs, maxDepth, depth, visited, entry, below, rest.entries);
    EntriesJoined(vfs, maxDepth, visited, entry, below.entries, rest.entries, below.visited);
    TopJoined(entry, below.entries, rest.entries);
    DeepJoined(entry, below.entries, rest.entries);
    SeenJoined(visited, entry, below.entries, rest.entries, below.visited, rest.visited);
  }

  /** `tree` prints an outline: the target's listing at depth 1, and below each directory that is
      mentioned for the first time, above the depth limit, its own listing one level deeper. */
  lemma {:induction false} TreeOutline(fs: Listings, opts: Options, target: string)
    requires opts.maxDepth != 0
    ensures var vfs, r := Visible(opts, fs), Tree(Visible(opts, fs), opts.maxDepth, target, 0, {target});
            r.Ok? ==> target in vfs && IsOutline(vfs, opts.maxDepth, {target}, vfs[target], 1, r.value.entries)
  {
    DirOutline(Visible(opts, fs), opts.maxDepth, target, 0, {target});
  }
}
