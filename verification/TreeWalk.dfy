/** The recursion of `tree`, over the same listings as `ls -R`. */
module TreeWalk {
  import opened Prelude
  import opened DirWalk

  datatype TreeEntry = TreeEntry(path: string, depth: nat, isDir: bool)

  datatype Options = Options(includeHidden: bool, maxDepth: int)

  function WithoutTrailingSlashes(path: string): string
  {
    if path != "" && path[|path| - 1] == '/' then WithoutTrailingSlashes(path[..|path| - 1]) else path
  }

  function AfterLastSlash(path: string): string
  {
    if path == "" || path[|path| - 1] == '/' then ""
    else AfterLastSlash(path[..|path| - 1]) + [path[|path| - 1]]
  }

  /** path.Base */
  function BaseName(path: string): string
  {
    if path == "" then "."
    else
      var stripped := WithoutTrailingSlashes(path);
      if stripped == "" then "/" else AfterLastSlash(stripped)
  }

  predicate Shown(opts: Options, e: DirEntry)
  {
    opts.includeHidden || !(|BaseName(e.path)| > 0 && BaseName(e.path)[0] == '.')
  }

  function Filtered(opts: Options, entries: seq<DirEntry>): seq<DirEntry>
  {
    if entries == [] then []
    else if Shown(opts, entries[0]) then [entries[0]] + Filtered(opts, entries[1..])
    else Filtered(opts, entries[1..])
  }

  /** The listings as `tree` sees them. */
  function Visible(opts: Options, fs: Listings): Listings
  {
    map d | d in fs :: Filtered(opts, fs[d])
  }

  lemma {:induction false} NothingHidden(opts: Options, entries: seq<DirEntry>)
    requires opts.includeHidden
    ensures Filtered(opts, entries) == entries
    decreases |entries|
  {
    if entries != [] {
      NothingHidden(opts, entries[1..]);
    }
  }

  lemma {:induction false} VisibleIsAll(opts: Options, fs: Listings)
    requires opts.includeHidden
    ensures Visible(opts, fs) == fs
  {
    forall d | d in fs {
      NothingHidden(opts, fs[d]);
    }
  }

  // ---------------------------------------------------------------- the recursion

  /** The visited set after the call, the entries it appended, and (for the specification) the
      directories it listed, in order. */
  datatype Walked = Walked(visited: set<string>, entries: seq<TreeEntry>, listed: seq<string>)

  predicate CutOff(maxDepth: int, depth: nat) {
    maxDepth >= 0 && depth >= maxDepth
  }

  /** `vfs` holds the visible listings. */
  function Tree(vfs: Listings, maxDepth: int, dir: string, depth: nat, visited: set<string>)
    : (r: Result<Walked, string>)
    ensures r.Ok? ==> visited <= r.value.visited
    decreases |vfs.Keys - visited|, if dir in vfs then |vfs[dir]| + 1 else 0
  {
    if CutOff(maxDepth, depth) then Ok(Walked(visited, [], []))
    else if dir !in vfs then Err(dir)
    else
      var kids :- TreeKids(vfs, maxDepth, vfs[dir], depth, visited);
      Ok(kids.(listed := [dir] + kids.listed))
  }

  function TreeKids(vfs: Listings, maxDepth: int, kids: seq<DirEntry>, depth: nat, visited: set<string>)
    : (r: Result<Walked, string>)
    ensures r.Ok? ==> visited <= r.value.visited
    decreases |vfs.Keys - visited|, |kids|
  {
    if kids == [] then Ok(Walked(visited, [], []))
    else
      var kid := kids[0];
      var entry := TreeEntry(kid.path, depth + 1, kid.isDir);
      if !kid.isDir || kid.path in visited then
        var rest :- TreeKids(vfs, maxDepth, kids[1..], depth, visited);
        Ok(rest.(entries := [entry] + rest.entries))
      else
        VisitShrinks(vfs.Keys, visited, kid.path);
        var below :- Tree(vfs, maxDepth, kid.path, depth + 1, visited + {kid.path});
        NoMoreLeft(vfs.Keys, visited, below.visited);
        var rest :- TreeKids(vfs, maxDepth, kids[1..], depth, below.visited);
        Ok(Walked(rest.visited, [entry] + below.entries + rest.entries, below.listed + rest.listed))
  }

  lemma {:induction false} VisitShrinks(all: set<string>, visited: set<string>, d: string)
    requires d !in visited
    ensures d in all ==> |all - (visited + {d})| < |all - visited|
    ensures |all - (visited + {d})| <= |all - visited|
  {
    if d in all {
      FewerLeft(all, visited, d);
    } else {
      NoMoreLeft(all, visited, visited + {d});
    }
  }

  class Walker {
    const fs: Listings
    const opts: Options
    var visited: set<string>
    var entries: seq<TreeEntry>

    constructor (fs: Listings, opts: Options, target: string)
      ensures this.fs == fs && this.opts == opts
      ensures visited == {target} && entries == [TreeEntry(target, 0, true)]
    {
      this.fs, this.opts := fs, opts;
      visited, entries := {target}, [TreeEntry(target, 0, true)];
    }

    ghost predicate Matches(r: Result<Walked, string>, before: seq<TreeEntry>, failed: Option<string>)
      reads this
    {
      if failed.Some? then r == Err(failed.value)
      else r.Ok? && visited == r.value.visited && entries == before + r.value.entries
    }

    method FilterChildren(children: seq<DirEntry>) returns (filtered: seq<DirEntry>)
      ensures filtered == Filtered(opts, children)
    {
      filtered := [];
      assert children[0..] == children;
      for k := 0 to |children|
        invariant Filtered(opts, children) == filtered + Filtered(opts, children[k..])
      {
        assert children[k..][1..] == children[k + 1..];
        if Shown(opts, children[k]) {
          filtered := filtered + [children[k]];
        }
      }
    }

    method AppendTreeEntries(dir: string, depth: nat) returns (failed: Option<string>)
      modifies this
      ensures Matches(Tree(Visible(opts, fs), opts.maxDepth, dir, depth, old(visited)), old(entries), failed)
      decreases |Visible(opts, fs).Keys - visited|, if dir in fs then 1 else 0
    {
      if opts.maxDepth >= 0 && depth >= opts.maxDepth {
        assert entries + [] == entries;
        return None;
      }
      if dir !in fs {
        return Some(dir);
      }
      ghost var vfs := Visible(opts, fs);
      var filtered := FilterChildren(fs[dir]);
      ghost var goal := TreeKids(vfs, opts.maxDepth, filtered, depth, visited);
      ghost var done, listed := [], [];
      PrependNothing(goal);
      assert filtered[0..] == filtered && entries + [] == entries;
      for k := 0 to |filtered|
        invariant old(visited) <= visited
        invariant entries == old(entries) + done
        invariant goal == Prepend(done, listed, TreeKids(vfs, opts.maxDepth, filtered[k..], depth, visited))
      {
        var child := filtered[k];
        assert filtered[k..][1..] == filtered[k + 1..];
        var entry := TreeEntry(child.path, depth + 1, child.isDir);
        ConcatAssociates(old(entries), done, [entry]);
        ghost var current := visited;
        entries := entries + [entry];
        if !child.isDir || child.path in visited {
          PassKid(vfs, opts.maxDepth, filtered[k..], depth, visited, done, listed);
          done := done + [entry];
          continue;
        }
        VisitShrinks(vfs.Keys, visited, child.path);
        NoMoreLeft(vfs.Keys, old(visited), visited);
        visited := visited + {child.path};
        failed := AppendTreeEntries(child.path, depth + 1);
        if failed.Some? {
          return;
        }
        ghost var below := Tree(vfs, opts.maxDepth, child.path, depth + 1, current + {child.path}).value;
        DescendKid(vfs, opts.maxDepth, filtered[k..], depth, current, done, listed);
        ConcatAssociates(old(entries), done + [entry], below.entries);
        done, listed := done + [entry] + below.entries, listed + below.listed;
      }
      ConcatAssociates(old(entries), done, []);
      assert done + [] == done;
      return None;
    }
  }

  // ---------------------------------------------------------------- steps of the loop

  function Prepend(done: seq<TreeEntry>, listed: seq<string>, r: Result<Walked, string>): Result<Walked, string>
  {
    if r.Err? then r else Ok(Walked(r.value.visited, done + r.value.entries, listed + r.value.listed))
  }

  lemma {:induction false} PrependNothing(r: Result<Walked, string>)
    ensures Prepend([], [], r) == r
  {
    if r.Ok? {
      assert [] + r.value.entries == r.value.entries && [] + r.value.listed == r.value.listed;
    }
  }

  lemma {:induction false} PassKid(vfs: Listings, maxDepth: int, kids: seq<DirEntry>, depth: nat, visited: set<string>,
                done: seq<TreeEntry>, listed: seq<string>)
    requires kids != [] && (!kids[0].isDir || kids[0].path in visited)
    ensures Prepend(done, listed, TreeKids(vfs, maxDepth, kids, depth, visited)) ==
            Prepend(done + [TreeEntry(kids[0].path, depth + 1, kids[0].isDir)], listed,
                    TreeKids(vfs, maxDepth, kids[1..], depth, visited))
  {
    var rest := TreeKids(vfs, maxDepth, kids[1..], depth, visited);
    if rest.Ok? {
      ConcatAssociates(done, [TreeEntry(kids[0].path, depth + 1, kids[0].isDir)], rest.value.entries);
    }
  }

  lemma {:induction false} DescendKid(vfs: Listings, maxDepth: int, kids: seq<DirEntry>, depth: nat,
                                      visited: set<string>,
                   done: seq<TreeEntry>, listed: seq<string>)
    requires kids != [] && kids[0].isDir && kids[0].path !in visited
    requires Tree(vfs, maxDepth, kids[0].path, depth + 1, visited + {kids[0].path}).Ok?
    ensures var below := Tree(vfs, maxDepth, kids[0].path, depth + 1, visited + {kids[0].path}).value;
            Prepend(done, listed, TreeKids(vfs, maxDepth, kids, depth, visited)) ==
            Prepend(done + [TreeEntry(kids[0].path, depth + 1, true)] + below.entries, listed + below.listed,
                    TreeKids(vfs, maxDepth, kids[1..], depth, below.visited))
  {
    var entry := TreeEntry(kids[0].path, depth + 1, true);
    var below := Tree(vfs, maxDepth, kids[0].path, depth + 1, visited + {kids[0].path}).value;
    var rest := TreeKids(vfs, maxDepth, kids[1..], depth, below.visited);
    if rest.Ok? {
      ConcatAssociates([entry], below.entries, rest.value.entries);
      ConcatAssociates(done, [entry], below.entries + rest.value.entries);
      ConcatAssociates(done + [entry], below.entries, rest.value.entries);
      ConcatAssociates(listed, below.listed, rest.value.listed);
    }
  }

  // ---------------------------------------------------------------- hidden entries

  lemma {:induction false} LastSlash(front: string, name: string)
    requires '/' !in name
    ensures AfterLastSlash(front + ("/" + name)) == name
    decreases |name|
  {
    var s := front + ("/" + name);
    if name == "" {
      assert s[|s| - 1] == '/';
    } else {
      var init, last := name[..|name| - 1], name[|name| - 1];
      assert name == init + [last] && last in name;
      assert s[..|s| - 1] == front + ("/" + init) && s[|s| - 1] == last;
      LastSlash(front, init);
    }
  }

  predicate OnlySlashes(s: string) {
    forall c :: c in s ==> c == '/'
  }

  lemma {:induction false} SlashesStripped(s: string, end: string)
    requires OnlySlashes(end) && (s != "" ==> s[|s| - 1] != '/')
    ensures WithoutTrailingSlashes(s + end) == s
    decreases |end|
  {
    if end == "" {
      assert s + end == s;
    } else {
      var init, last := end[..|end| - 1], end[|end| - 1];
      assert last in end && (s + end)[|s + end| - 1] == last && (s + end)[..|s + end| - 1] == s + init;
      assert forall c :: c in init ==> c in end;
      SlashesStripped(s, init);
    }
  }

  /** An entry is shown exactly if hidden entries are wanted or its name does not begin with a dot; the
      name is what follows the last slash but those at the end. */
  lemma {:induction false} ShownIff(opts: Options, front: string, name: string, end: string, isDir: bool)
    requires name != "" && '/' !in name && OnlySlashes(end)
    ensures BaseName(front + "/" + name + end) == name
    ensures Shown(opts, DirEntry(front + "/" + name + end, isDir)) <==> opts.includeHidden || name[0] != '.'
  {
    var s := front + "/" + name;
    assert s == front + ("/" + name) && s[|s| - 1] == name[|name| - 1] && name[|name| - 1] in name;
    LastSlash(front, name);
    SlashesStripped(s, end);
  }
}
