/** Routing paths to virtual mounts, and the synthetic directories above nested mount points. */
module MountRouter {
  import opened Prelude
  import opened LexicalPath
  import EnginePath
  import Ordering

  /** A mount as registered: its own idea of its mount point, and whether it currently exists. */
  datatype Mount = Mount(id: int, rawPoint: string, status: Result<bool, string>)

  datatype Mounted = Mounted(point: string, mount: Mount)

  datatype RouterError = RootMount | DuplicatePoint(point: string)

  // ---------------------------------------------------------------- building the router

  predicate LongerFirst(a: Mounted, b: Mounted) {
    |a.point| > |b.point|
  }

  /** The registered mounts in order, nil ones dropped, unless one is refused. */
  function Registered(mounts: seq<Option<Mount>>, seen: set<string>, done: seq<Mounted>)
    : Result<seq<Mounted>, RouterError>
    decreases |mounts|
  {
    if mounts == [] then Ok(done)
    else if mounts[0].None? then Registered(mounts[1..], seen, done)
    else
      var m := mounts[0].value;
      var point := EnginePath.EngineNormalize(m.rawPoint);
      if point == "/" then Err(RootMount)
      else if point in seen then Err(DuplicatePoint(point))
      else Registered(mounts[1..], seen + {point}, done + [Mounted(point, m)])
  }

  function Router(mounts: seq<Option<Mount>>): Result<seq<Mounted>, RouterError>
  {
    var registered :- Registered(mounts, {}, []);
    Ok(Ordering.Sort(LongerFirst, registered))
  }

  method NewMountRouter(mounts: seq<Option<Mount>>) returns (r: Result<seq<Mounted>, RouterError>)
    ensures r == Router(mounts)
  {
    var normalized: seq<Mounted> := [];
    var seen: set<string> := {};
    assert mounts[0..] == mounts;
    for k := 0 to |mounts|
      invariant Registered(mounts, {}, []) == Registered(mounts[k..], seen, normalized)
    {
      assert mounts[k..][1..] == mounts[k + 1..];
      if mounts[k].None? {
        continue;
      }
      var m := mounts[k].value;
      var point := EnginePath.EngineNormalize(m.rawPoint);
      if point == "/" {
        return Err(RootMount);
      }
      if point in seen {
        return Err(DuplicatePoint(point));
      }
      seen := seen + {point};
      normalized := normalized + [Mounted(point, m)];
    }
    return Ok(Ordering.Sort(LongerFirst, normalized));
  }

  // ---------------------------------------------------------------- matching

  /** `path` is the mount point or lies under it. */
  predicate Owns(point: string, path: string) {
    path == point || HasPrefix(path, point + "/")
  }

  /** The first mount in the router's order that owns the path. */
  function MatchIn(router: seq<Mounted>, path: string): Option<Mounted>
  {
    if router == [] then None
    else if Owns(router[0].point, path) then Some(router[0])
    else MatchIn(router[1..], path)
  }

  method Match(router: seq<Mounted>, pathValue: string) returns (r: Option<Mounted>)
    ensures r == MatchIn(router, EnginePath.EngineNormalize(pathValue))
  {
    var path := EnginePath.EngineNormalize(pathValue);
    assert router[0..] == router;
    for k := 0 to |router|
      invariant MatchIn(router, path) == MatchIn(router[k..], path)
    {
      assert router[k..][1..] == router[k + 1..];
      if path == router[k].point || HasPrefix(path, router[k].point + "/") {
        return Some(router[k]);
      }
    }
    return None;
  }

  predicate DistinctPoints(mounts: seq<Mounted>) {
    forall i, j :: 0 <= i < j < |mounts| ==> mounts[i].point != mounts[j].point
  }

  lemma {:induction false} RegisteredIsDistinct(mounts: seq<Option<Mount>>, seen: set<string>, done: seq<Mounted>)
    requires Registered(mounts, seen, done).Ok?
    requires DistinctPoints(done) && forall p :: p in seen <==> exists k :: 0 <= k < |done| && done[k].point == p
    ensures DistinctPoints(Registered(mounts, seen, done).value)
    ensures forall m :: m in Registered(mounts, seen, done).value <==>
              m in done || (exists k :: 0 <= k < |mounts| && mounts[k].Some? &&
                              m == Mounted(EnginePath.EngineNormalize(mounts[k].value.rawPoint), mounts[k].value))
    decreases |mounts|
  {
    if mounts != [] {
      var rest := mounts[1..];
      assert forall k :: 0 <= k < |rest| ==> rest[k] == mounts[k + 1];
      assert forall k :: 1 <= k < |mounts| ==> mounts[k] == rest[k - 1];
      if mounts[0].None? {
        RegisteredIsDistinct(rest, seen, done);
      } else {
        var m := mounts[0].value;
        var entry := Mounted(EnginePath.EngineNormalize(m.rawPoint), m);
        var done' := done + [entry];
        assert done'[|done|] == entry;
        forall p
          ensures p in seen + {entry.point} <==> exists k :: 0 <= k < |done'| && done'[k].point == p
        {
          if p in seen {
            var k :| 0 <= k < |done| && done[k].point == p;
            assert done'[k].point == p;
          }
        }
        RegisteredIsDistinct(rest, seen + {entry.point}, done');
      }
    }
  }

  /** The bag of normalised mount points of the mounts that are not nil. */
  function Points(mounts: seq<Option<Mount>>): multiset<string>
  {
    if mounts == [] then multiset{}
    else
      (if mounts[0].Some? then multiset{EnginePath.EngineNormalize(mounts[0].value.rawPoint)} else multiset{})
      + Points(mounts[1..])
  }

  lemma {:induction false} RegisteredIff(mounts: seq<Option<Mount>>, seen: set<string>, done: seq<Mounted>)
    ensures Registered(mounts, seen, done).Ok? <==>
              forall p :: p in Points(mounts) ==> p != "/" && p !in seen && Points(mounts)[p] == 1
    decreases |mounts|
  {
    if mounts != [] {
      if mounts[0].None? {
        RegisteredIff(mounts[1..], seen, done);
        assert Points(mounts) == Points(mounts[1..]);
      } else {
        var m := mounts[0].value;
        var point := EnginePath.EngineNormalize(m.rawPoint);
        RegisteredIff(mounts[1..], seen + {point}, done + [Mounted(point, m)]);
        assert Points(mounts)[point] == 1 + Points(mounts[1..])[point];
        assert forall p :: p != point ==> Points(mounts)[p] == Points(mounts[1..])[p];
      }
    }
  }

  /** A list of mounts is accepted exactly when no mount point is the root and none occurs twice. */
  lemma {:induction false} AcceptedIff(mounts: seq<Option<Mount>>)
    ensures Router(mounts).Ok? <==> forall p :: p in Points(mounts) ==> p != "/" && Points(mounts)[p] == 1
  {
    RegisteredIff(mounts, {}, []);
  }

  lemma {:induction false} PointsConcat(a: seq<Option<Mount>>, b: seq<Option<Mount>>)
    ensures Points(a + b) == Points(a) + Points(b)
    decreases |a|
  {
    if a == [] {
      assert a + b == b;
    } else {
      assert (a + b)[1..] == a[1..] + b;
      PointsConcat(a[1..], b);
    }
  }

  lemma {:induction false} BagWithout<T>(b: seq<T>, k: nat)
    requires k < |b|
    ensures multiset(b[..k] + b[k + 1..]) == multiset(b) - multiset{b[k]}
  {
    assert b == b[..k] + ([b[k]] + b[k + 1..]);
  }

  lemma {:induction false} BagsCommute<T>(p: multiset<T>, q: multiset<T>, r: multiset<T>)
    ensures p + (q + r) == q + (p + r)
  {
  }

  lemma {:induction false} PointsWithout(b: seq<Option<Mount>>, k: nat)
    requires k < |b|
    ensures Points(b) == Points([b[k]]) + Points(b[..k] + b[k + 1..])
  {
    var pre, post := b[..k], b[k + 1..];
    assert b == pre + ([b[k]] + post);
    PointsConcat(pre, [b[k]] + post);
    PointsConcat([b[k]], post);
    PointsConcat(pre, post);
    BagsCommute(Points(pre), Points([b[k]]), Points(post));
  }

  lemma {:induction false} PointsOfBag(a: seq<Option<Mount>>, b: seq<Option<Mount>>)
    requires multiset(a) == multiset(b)
    ensures Points(a) == Points(b)
    decreases |a|
  {
    Ordering.SameMembers(a, b);
    if a != [] {
      assert a[0] in b;
      var k :| 0 <= k < |b| && b[k] == a[0];
      BagWithout(b, k);
      Ordering.BagOfRest(a);
      PointsOfBag(a[1..], b[..k] + b[k + 1..]);
      PointsWithout(b, k);
      PointsWithout(a, 0);
      assert a[..0] + a[1..] == a[1..];
    }
  }

  lemma {:induction false} LengthsOrder(mounts: seq<Mounted>)
    ensures Ordering.Orders(LongerFirst, mounts)
  {
  }

  lemma {:induction false} PermutedIsDistinct(a: seq<Mounted>, b: seq<Mounted>)
    requires multiset(a) == multiset(b) && DistinctPoints(a)
    ensures DistinctPoints(b)
  {
    Ordering.SameMembers(a, b);
    forall i, j | 0 <= i < j < |b|
      ensures b[i].point != b[j].point
    {
      if b[i].point == b[j].point {
        assert b[i] in a && b[j] in a;
        assert b[i] == b[j];
        TwiceInBag(b, i, j);
        OnceInBag(a, b[i]);
      }
    }
  }

  lemma {:induction false} TwiceInBag(b: seq<Mounted>, i: nat, j: nat)
    requires i < j < |b| && b[i] == b[j]
    ensures multiset(b)[b[i]] >= 2
  {
    assert b == b[..j] + b[j..];
    assert b[i] in b[..j] && b[i] in b[j..] by {
      assert b[..j][i] == b[i] && b[j..][0] == b[j];
    }
    assert multiset(b) == multiset(b[..j]) + multiset(b[j..]);
  }

  lemma {:induction false} OnceInBag(a: seq<Mounted>, m: Mounted)
    requires DistinctPoints(a)
    ensures multiset(a)[m] <= 1
    decreases |a|
  {
    if a != [] {
      assert a == [a[0]] + a[1..];
      OnceInBag(a[1..], m);
      if a[0] == m {
        assert m !in a[1..];
      }
    }
  }

  /** An accepted router: the registered mounts with distinct points, longest point first. */
  predicate Accepted(router: seq<Mounted>) {
    DistinctPoints(router) && Ordering.Ordered(LongerFirst, router)
  }

  lemma {:induction false} RouterIsAccepted(mounts: seq<Option<Mount>>)
    requires Router(mounts).Ok?
    ensures Accepted(Router(mounts).value)
    ensures forall m :: m in Router(mounts).value <==>
              exists k :: 0 <= k < |mounts| && mounts[k].Some? &&
                m == Mounted(EnginePath.EngineNormalize(mounts[k].value.rawPoint), mounts[k].value)
  {
    var registered := Registered(mounts, {}, []).value;
    RegisteredIsDistinct(mounts, {}, []);
    LengthsOrder(registered);
    Ordering.SortOrders(LongerFirst, registered);
    PermutedIsDistinct(registered, Router(mounts).value);
    Ordering.SameMembers(registered, Router(mounts).value);
  }

  /** The longest mount point that owns the path. */
  predicate IsLongestOwner(router: seq<Mounted>, path: string, m: Mounted)
  {
    m in router && Owns(m.point, path) &&
    forall other :: other in router && Owns(other.point, path) ==> |other.point| <= |m.point|
  }

  lemma {:induction false} OwnersOfEqualLength(p: string, q: string, path: string)
    requires Owns(p, path) && Owns(q, path) && |p| == |q|
    ensures p == q
  {
    assert path[..|p|] == p by {
      if path != p { assert (p + "/")[..|p|] == p; assert path[..|p|] == path[..|p + "/"|][..|p|]; }
    }
    assert path[..|q|] == q by {
      if path != q { assert (q + "/")[..|q|] == q; assert path[..|q|] == path[..|q + "/"|][..|q|]; }
    }
  }

  lemma {:induction false} MatchIsLongest(router: seq<Mounted>, path: string)
    requires Ordering.Ordered(LongerFirst, router)
    ensures var r := MatchIn(router, path);
            if r.Some? then IsLongestOwner(router, path, r.value)
            else forall m :: m in router ==> !Owns(m.point, path)
    decreases |router|
  {
    if router != [] {
      if Owns(router[0].point, path) {
        forall other | other in router
          ensures |other.point| <= |router[0].point|
        {
          var k :| 0 <= k < |router| && router[k] == other;
          assert k > 0 ==> !LongerFirst(router[k], router[0]);
        }
      } else {
        MatchIsLongest(router[1..], path);
        assert forall m :: m in router <==> m == router[0] || m in router[1..];
      }
    }
  }

  lemma {:induction false} LongestOwnerIsUnique(router: seq<Mounted>, path: string, a: Mounted, b: Mounted)
    requires DistinctPoints(router) && IsLongestOwner(router, path, a) && IsLongestOwner(router, path, b)
    ensures a == b
  {
    OwnersOfEqualLength(a.point, b.point, path);
    var i :| 0 <= i < |router| && router[i] == a;
    var j :| 0 <= j < |router| && router[j] == b;
  }

  /** For every accepted list of mounts, matching returns the unique longest mount point that
      owns the path, or nothing if no mount point does. */
  lemma {:induction false} MatchIsUniqueLongest(mounts: seq<Option<Mount>>, path: string, m: Mounted)
    requires Router(mounts).Ok?
    ensures MatchIn(Router(mounts).value, path) == Some(m) <==> IsLongestOwner(Router(mounts).value, path, m)
    ensures MatchIn(Router(mounts).value, path).None? <==>
              forall other :: other in Router(mounts).value ==> !Owns(other.point, path)
  {
    var router := Router(mounts).value;
    RouterIsAccepted(mounts);
    MatchIsLongest(router, path);
    if IsLongestOwner(router, path, m) {
      LongestOwnerIsUnique(router, path, m, MatchIn(router, path).value);
    }
  }

  /** The order of registration matters neither for acceptance nor for where a path goes. */
  lemma {:induction false} MatchIgnoresRegistrationOrder(mounts: seq<Option<Mount>>, mounts': seq<Option<Mount>>,
                                                         path: string)
    requires multiset(mounts) == multiset(mounts')
    ensures Router(mounts).Ok? <==> Router(mounts').Ok?
    ensures Router(mounts).Ok? ==> MatchIn(Router(mounts).value, path) == MatchIn(Router(mounts').value, path)
  {
    PointsOfBag(mounts, mounts');
    AcceptedIff(mounts);
    AcceptedIff(mounts');
    if Router(mounts).Ok? {
      SameMatch(mounts, mounts', path);
    }
  }

  lemma {:induction false} SameMatch(mounts: seq<Option<Mount>>, mounts': seq<Option<Mount>>, path: string)
    requires multiset(mounts) == multiset(mounts') && Router(mounts).Ok? && Router(mounts').Ok?
    ensures MatchIn(Router(mounts).value, path) == MatchIn(Router(mounts').value, path)
  {
    var router, router' := Router(mounts).value, Router(mounts').value;
    RouterIsAccepted(mounts);
    RouterIsAccepted(mounts');
    Ordering.SameMembers(mounts, mounts');
    forall m
      ensures m in router <==> m in router'
    {
      if m in router {
        var k :| 0 <= k < |mounts| && mounts[k].Some? &&
                 m == Mounted(EnginePath.EngineNormalize(mounts[k].value.rawPoint), mounts[k].value);
        assert mounts[k] in mounts';
        var l :| 0 <= l < |mounts'| && mounts'[l] == mounts[k];
      }
      if m in router' {
        var k :| 0 <= k < |mounts'| && mounts'[k].Some? &&
                 m == Mounted(EnginePath.EngineNormalize(mounts'[k].value.rawPoint), mounts'[k].value);
        assert mounts'[k] in mounts;
        var l :| 0 <= l < |mounts| && mounts[l] == mounts'[k];
      }
    }
    MatchIsLongest(router, path);
    MatchIsLongest(router', path);
    if MatchIn(router, path).Some? {
      LongestOwnerIsUnique(router, path, MatchIn(router, path).value, MatchIn(router', path).value);
    }
  }

  /** For paths of proper names, a mount owns its point and everything below it, name by name. */
  lemma {:induction false} OwnsIff(a: seq<string>, b: seq<string>)
    requires a != [] && AllNames(a) && AllNames(b)
    ensures Owns(Absolute(a), Absolute(b)) <==> |a| <= |b| && b[..|a|] == a
  {
    if b != [] {
      PrefixIsComponentPrefix(a, b);
    } else {
      assert |Absolute(a) + "/"| > 1;
    }
    if Absolute(b) == Absolute(a) {
      AbsoluteIsInjective(a, b);
    }
    assert |a| == |b| ==> b[..|a|] == b;
  }
}
