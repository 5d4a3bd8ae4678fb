/** The directories that exist only to parent nested mount points. */
module SyntheticTree {
  import opened Prelude
  import opened LexicalPath
  import opened WhiteSpace
  import opened MountRouter
  import EnginePath
  import Ordering

  // ---------------------------------------------------------------- the program's functions

  /** The existing mounts, in the router's order; the first failing existence check fails it. */
  function ActiveMounts(router: seq<Mounted>): Result<seq<Mounted>, string>
  {
    if router == [] then Ok([])
    else if router[0].mount.status.Err? then Err(router[0].mount.status.error)
    else
      var rest :- ActiveMounts(router[1..]);
      Ok(if router[0].mount.status.value then [router[0]] + rest else rest)
  }

  /** The loop of isSyntheticDir over the active mounts. */
  predicate SyntheticDirIn(active: seq<Mounted>, path: string)
  {
    if active == [] then false
    else if active[0].point == path then false
    else if HasPrefix(active[0].point, path + "/") then true
    else SyntheticDirIn(active[1..], path)
  }

  method IsSyntheticDir(router: seq<Mounted>, pathValue: string) returns (r: Result<bool, string>)
    ensures var active := ActiveMounts(router);
            r == if active.Err? then Err(active.error)
                 else Ok(SyntheticDirIn(active.value, EnginePath.EngineNormalize(pathValue)))
  {
    var path := EnginePath.EngineNormalize(pathValue);
    var active := ActiveMounts(router);
    if active.Err? {
      return Err(active.error);
    }
    var mounts := active.value;
    assert mounts[0..] == mounts;
    for k := 0 to |mounts|
      invariant SyntheticDirIn(mounts, path) == SyntheticDirIn(mounts[k..], path)
    {
      assert mounts[k..][1..] == mounts[k + 1..];
      if mounts[k].point == path {
        return Ok(false);
      }
      if HasPrefix(mounts[k].point, path + "/") {
        return Ok(true);
      }
    }
    return Ok(false);
  }

  /** The child of `dir` on the way to `point`, if `point` lies strictly below `dir`. */
  function ChildToward(dir: string, point: string): Option<string>
  {
    var prefix := if dir == "/" then "/" else dir + "/";
    if point == dir || !HasPrefix(point, prefix) then None
    else
      var remainder := point[|prefix|..];
      if TrimSpace(remainder) == "" then None
      else
        var next := Split(remainder)[0];
        if TrimSpace(next) == "" then None
        else if dir != "/" then Some(dir + "/" + next)
        else Some("/" + next)
  }

  predicate HasNormal(paths: seq<string>, normal: string)
  {
    exists k :: 0 <= k < |paths| && EnginePath.EngineNormalize(paths[k]) == normal
  }

  /** Appending to a sorted list of paths, unless the path is there already. */
  function AppendUnique(paths: seq<string>, candidate: string): seq<string>
  {
    var normal := EnginePath.EngineNormalize(candidate);
    if HasNormal(paths, normal) then paths
    else Ordering.Sort(Ordering.StringLess, paths + [normal])
  }

  method FindNormal(paths: seq<string>, normal: string) returns (found: bool)
    ensures found == HasNormal(paths, normal)
  {
    for k := 0 to |paths|
      invariant forall j :: 0 <= j < k ==> EnginePath.EngineNormalize(paths[j]) != normal
    {
      if EnginePath.EngineNormalize(paths[k]) == normal {
        return true;
      }
    }
    return false;
  }

  method AppendUniquePath(paths: seq<string>, candidate: string) returns (r: seq<string>)
    ensures r == AppendUnique(paths, candidate)
  {
    var normal := EnginePath.EngineNormalize(candidate);
    var found := FindNormal(paths, normal);
    if found {
      return paths;
    }
    return Ordering.Sort(Ordering.StringLess, paths + [normal]);
  }

  function ChildrenFrom(active: seq<Mounted>, dir: string, children: seq<string>): seq<string>
    decreases |active|
  {
    if active == [] then children
    else
      var child := ChildToward(dir, active[0].point);
      ChildrenFrom(active[1..], dir, if child.Some? then AppendUnique(children, child.value) else children)
  }

  method SyntheticChildren(router: seq<Mounted>, rawDir: string) returns (r: Result<seq<string>, string>)
    ensures var active := ActiveMounts(router);
            r == if active.Err? then Err(active.error)
                 else Ok(ChildrenFrom(active.value, EnginePath.EngineNormalize(rawDir), []))
  {
    var dir := EnginePath.EngineNormalize(rawDir);
    var active := ActiveMounts(router);
    if active.Err? {
      return Err(active.error);
    }
    var mounts := active.value;
    var children: seq<string> := [];
    assert mounts[0..] == mounts;
    for k := 0 to |mounts|
      invariant ChildrenFrom(mounts, dir, []) == ChildrenFrom(mounts[k..], dir, children)
    {
      assert mounts[k..][1..] == mounts[k + 1..];
      var child := ChildToward(dir, mounts[k].point);
      if child.Some? {
        children := AppendUniquePath(children, child.value);
      }
    }
    return Ok(children);
  }

  // ---------------------------------------------------------------- components

  lemma {:induction false} StartOfName(name: string, rest: seq<string>)
    requires TrimSpace(name) != ""
    ensures TrimSpace(name + Joined(rest)) != ""
  {
    if rest == [] {
      assert name + Joined(rest) == name;
    } else {
      KeepsText(name + Joined(rest), |name|);
    }
  }

  function DirPrefix(dir: string): string
  {
    if dir == "/" then "/" else dir + "/"
  }

  lemma {:induction false} BelowText(d: seq<string>, c: seq<string>)
    requires Above(d, c)
    ensures Joined(c) == Joined(d) + ("/" + (c[|d|] + Joined(c[|d| + 1..])))
    ensures Joined(c[..|d| + 1]) == Joined(d) + ("/" + c[|d|])
  {
    var rest := c[|d|..];
    assert c == d + rest && rest[1..] == c[|d| + 1..];
    JoinedLength(d, rest);
    assert c[..|d| + 1] == d + [c[|d|]];
    JoinedLength(d, [c[|d|]]);
    assert c[|d|] + "" == c[|d|];
    assert Joined([c[|d|]]) == "/" + (c[|d|] + Joined([]));
  }

  lemma {:induction false} RootOnlyEmpty(d: seq<string>)
    requires d != [] && AllNames(d)
    ensures Absolute(d) != "/"
  {
    assert IsName(d[0]);
  }

  // ---------------------------------------------------------------- the synthetic tree

  lemma {:induction false} SyntheticDirIffBelow(active: seq<Mounted>, path: string)
    requires Ordering.Ordered(LongerFirst, active)
    ensures SyntheticDirIn(active, path) <==> exists k :: 0 <= k < |active| && HasPrefix(active[k].point, path + "/")
    decreases |active|
  {
    if active != [] {
      SyntheticDirIffBelow(active[1..], path);
      assert forall k :: 0 <= k < |active[1..]| ==> active[1..][k] == active[k + 1];
      assert forall k :: 1 <= k < |active| ==> active[k] == active[1..][k - 1];
      if active[0].point == path {
        forall k | 0 <= k < |active|
          ensures !HasPrefix(active[k].point, path + "/")
        {
          assert k > 0 ==> !LongerFirst(active[k], active[0]);
        }
      }
    }
  }

  lemma {:induction false} DoubleSlash(c: seq<string>)
    requires c != [] && c[0] != "" && NoSlash(c[0])
    ensures !HasPrefix(Absolute(c), "/" + "/")
  {
    assert Absolute(c)[1] == c[0][0];
  }

  /** The purely structural check, which knows nothing of existence, says yes wherever the
      existence-aware one does. */
  lemma {:induction false} SyntheticDirIsPrefix(router: seq<Mounted>, path: string)
    requires ActiveMounts(router).Ok? && path != "/" && SyntheticDirIn(ActiveMounts(router).value, path)
    ensures SyntheticPrefixIn(router, path)
  {
    PrefixFound(ActiveMounts(router).value, path);
    var m :| m in ActiveMounts(router).value && HasPrefix(m.point, path + "/");
    ActiveAreMounts(router, m);
  }

  predicate SyntheticPrefixIn(router: seq<Mounted>, path: string)
  {
    path != "/" && exists k :: 0 <= k < |router| && router[k].point != path && HasPrefix(router[k].point, path + "/")
  }

  method IsSyntheticPrefix(router: seq<Mounted>, pathValue: string) returns (r: bool)
    ensures r == SyntheticPrefixIn(router, EnginePath.EngineNormalize(pathValue))
  {
    var path := EnginePath.EngineNormalize(pathValue);
    if path == "/" {
      return false;
    }
    for k := 0 to |router|
      invariant forall j :: 0 <= j < k ==> router[j].point == path || !HasPrefix(router[j].point, path + "/")
    {
      if router[k].point == path {
        continue;
      }
      if HasPrefix(router[k].point, path + "/") {
        return true;
      }
    }
    return false;
  }

  lemma {:induction false} PrefixFound(active: seq<Mounted>, path: string)
    requires SyntheticDirIn(active, path)
    ensures exists m :: m in active && HasPrefix(m.point, path + "/")
    decreases |active|
  {
    if HasPrefix(active[0].point, path + "/") {
      assert active[0] in active;
    } else {
      PrefixFound(active[1..], path);
    }
  }

  lemma {:induction false} ActiveAreMounts(router: seq<Mounted>, m: Mounted)
    requires ActiveMounts(router).Ok?
    ensures m in ActiveMounts(router).value <==> m in router && m.mount.status == Ok(true)
    decreases |router|
  {
    if router != [] {
      ActiveAreMounts(router[1..], m);
    }
  }

  /** Leaving out the absent mounts keeps the router's order. */
  lemma {:induction false} ActiveStaysOrdered(router: seq<Mounted>)
    requires Ordering.Ordered(LongerFirst, router) && ActiveMounts(router).Ok?
    ensures Ordering.Ordered(LongerFirst, ActiveMounts(router).value)
    decreases |router|
  {
    if router != [] {
      var rest := ActiveMounts(router[1..]).value;
      ActiveStaysOrdered(router[1..]);
      forall m | m in rest
        ensures !LongerFirst(m, router[0])
      {
        ActiveAreMounts(router[1..], m);
        var k :| 0 <= k < |router[1..]| && router[1..][k] == m;
        assert router[k + 1] == m;
      }
      Ordering.OrderedCons(LongerFirst, router[0], rest);
    }
  }

  /** The active mounts can be told exactly if every existence check succeeds; otherwise the first error
      is the answer. */
  lemma {:induction false} ActiveFailsIff(router: seq<Mounted>)
    ensures ActiveMounts(router).Err? <==> exists m :: m in router && m.mount.status.Err?
    ensures ActiveMounts(router).Err? ==>
              exists k :: 0 <= k < |router| && router[k].mount.status == Err(ActiveMounts(router).error) &&
                          forall j :: 0 <= j < k ==> router[j].mount.status.Ok?
    decreases |router|
  {
    if router != [] {
      ActiveFailsIff(router[1..]);
      assert router[0] in router && forall m :: m in router <==> m == router[0] || m in router[1..];
      if router[0].mount.status.Err? {
        assert router[0].mount.status == Err(ActiveMounts(router).error);
      } else if ActiveMounts(router[1..]).Err? {
        var k :| 0 <= k < |router[1..]| && router[1..][k].mount.status == Err(ActiveMounts(router[1..]).error) &&
                 forall j :: 0 <= j < k ==> router[1..][j].mount.status.Ok?;
        assert router[k + 1] == router[1..][k];
        assert forall j :: 1 <= j < k + 1 ==> router[j] == router[1..][j - 1];
      }
    }
  }
}
