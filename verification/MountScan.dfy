/** The unsorted scan of the mounts builtin against the sorted router: they use different path
    normalisers, and here is exactly where that shows. */
module MountScan {
  import opened Prelude
  import opened LexicalPath
  import opened WhiteSpace
  import opened MountRouter
  import EnginePath

  // ---------------------------------------------------------------- the unsorted scan

  /** The best mount so far of the `mounts` builtin's scan, and the length of its point. */
  function ScanFrom(mounts: seq<Option<Mount>>, target: string, best: Option<Mount>, bestSize: nat): Option<Mount>
    decreases |mounts|
  {
    if mounts == [] then best
    else if mounts[0].None? then ScanFrom(mounts[1..], target, best, bestSize)
    else
      var point := Normalize(mounts[0].value.rawPoint);
      if Owns(point, target) && |point| > bestSize then ScanFrom(mounts[1..], target, mounts[0], |point|)
      else ScanFrom(mounts[1..], target, best, bestSize)
  }

  method FindMountForTarget(mounts: seq<Option<Mount>>, raw: string) returns (best: Option<Mount>)
    ensures best == ScanFrom(mounts, Normalize(raw), None, 0)
  {
    var target := Normalize(raw);
    var bestSize := 0;
    best := None;
    assert mounts[0..] == mounts;
    for k := 0 to |mounts|
      invariant 0 <= bestSize
      invariant ScanFrom(mounts, target, None, 0) == ScanFrom(mounts[k..], target, best, bestSize)
    {
      assert mounts[k..][1..] == mounts[k + 1..];
      if mounts[k].None? {
        continue;
      }
      var point := Normalize(mounts[k].value.rawPoint);
      if target != point && !HasPrefix(target, point + "/") {
        continue;
      }
      if |point| > bestSize {
        best := mounts[k];
        bestSize := |point|;
      }
    }
  }

  /** The scan and the router find the same mount. */
  predicate Agree(mounts: seq<Option<Mount>>, raw: string)
    requires Router(mounts).Ok?
  {
    var routed := MatchIn(Router(mounts).value, EnginePath.EngineNormalize(raw));
    ScanFrom(mounts, Normalize(raw), None, 0) == if routed.Some? then Some(routed.value.mount) else None
  }

  /** A mount whose raw point the two normalisers treat alike. */
  predicate HasNormalPoint(m: Mount) {
    EnginePath.StaysBelow(m.rawPoint)
  }

  // ---------------------------------------------------------------- what the scan returns

  predicate OwnsAt(mounts: seq<Option<Mount>>, k: nat, target: string)
    requires k < |mounts|
  {
    mounts[k].Some? && Owns(Normalize(mounts[k].value.rawPoint), target)
  }

  function SizeAt(mounts: seq<Option<Mount>>, k: nat): nat
    requires k < |mounts| && mounts[k].Some?
  {
    |Normalize(mounts[k].value.rawPoint)|
  }

  /** Mount `k` is the first of the longest owners among the first `n`. */
  ghost predicate FirstBest(mounts: seq<Option<Mount>>, n: nat, target: string, k: nat)
    requires n <= |mounts|
  {
    && k < n && OwnsAt(mounts, k, target)
    && (forall j :: 0 <= j < n && OwnsAt(mounts, j, target) ==> SizeAt(mounts, j) <= SizeAt(mounts, k))
    && (forall j :: 0 <= j < k && OwnsAt(mounts, j, target) ==> SizeAt(mounts, j) < SizeAt(mounts, k))
  }

  ghost predicate NoOwner(mounts: seq<Option<Mount>>, n: nat, target: string)
    requires n <= |mounts|
  {
    forall j :: 0 <= j < n ==> !OwnsAt(mounts, j, target)
  }

  /** The scan's state after the first `n` mounts. */
  ghost predicate Scanned(mounts: seq<Option<Mount>>, n: nat, target: string, best: Option<Mount>, size: nat)
    requires n <= |mounts|
  {
    if best.None? then size == 0 && NoOwner(mounts, n, target)
    else exists k :: 0 <= k < n && FirstBest(mounts, n, target, k) && mounts[k] == best && size == SizeAt(mounts, k)
  }

  lemma {:induction false} NormalIsNotEmpty(raw: string)
    ensures |Normalize(raw)| > 0
  {
    NormalizedComponents(raw);
  }

  lemma {:induction false} NextIsBest(mounts: seq<Option<Mount>>, n: nat, target: string, best: Option<Mount>,
                                      size: nat)
    requires n < |mounts| && Scanned(mounts, n, target, best, size)
    requires OwnsAt(mounts, n, target) && SizeAt(mounts, n) > size
    ensures FirstBest(mounts, n + 1, target, n)
  {
    if best.Some? {
      var k :| 0 <= k < n && FirstBest(mounts, n, target, k) && mounts[k] == best && size == SizeAt(mounts, k);
    }
  }

  lemma {:induction false} BestIsKept(mounts: seq<Option<Mount>>, n: nat, target: string, k: nat)
    requires n < |mounts| && FirstBest(mounts, n, target, k)
    requires OwnsAt(mounts, n, target) ==> SizeAt(mounts, n) <= SizeAt(mounts, k)
    ensures FirstBest(mounts, n + 1, target, k)
  {
  }

  lemma {:induction false} ScannedOneMore(mounts: seq<Option<Mount>>, n: nat, target: string, best: Option<Mount>,
                                          size: nat)
    requires n < |mounts| && Scanned(mounts, n, target, best, size)
    ensures if OwnsAt(mounts, n, target) && SizeAt(mounts, n) > size
            then Scanned(mounts, n + 1, target, mounts[n], SizeAt(mounts, n))
            else Scanned(mounts, n + 1, target, best, size)
  {
    if OwnsAt(mounts, n, target) && SizeAt(mounts, n) > size {
      NextIsBest(mounts, n, target, best, size);
    } else if best.Some? {
      var k :| 0 <= k < n && FirstBest(mounts, n, target, k) && mounts[k] == best && size == SizeAt(mounts, k);
      BestIsKept(mounts, n, target, k);
    } else if mounts[n].Some? {
      NormalIsNotEmpty(mounts[n].value.rawPoint);
    }
  }

  lemma {:induction false} ScanReturns(mounts: seq<Option<Mount>>, n: nat, target: string, best: Option<Mount>,
                                       size: nat)
    returns (s: nat)
    requires n <= |mounts| && Scanned(mounts, n, target, best, size)
    ensures Scanned(mounts, |mounts|, target, ScanFrom(mounts[n..], target, best, size), s)
    decreases |mounts| - n
  {
    s := size;
    if n < |mounts| {
      assert mounts[n..][0] == mounts[n] && mounts[n..][1..] == mounts[n + 1..];
      ScannedOneMore(mounts, n, target, best, size);
      if OwnsAt(mounts, n, target) && SizeAt(mounts, n) > size {
        s := ScanReturns(mounts, n + 1, target, mounts[n], SizeAt(mounts, n));
      } else {
        s := ScanReturns(mounts, n + 1, target, best, size);
      }
    }
  }

  /** The first of the longest owners, if any mount owns the target. */
  lemma {:induction false} ScanIsFirstBest(mounts: seq<Option<Mount>>, target: string)
    ensures var best := ScanFrom(mounts, target, None, 0);
            if best.None? then NoOwner(mounts, |mounts|, target)
            else exists k :: 0 <= k < |mounts| && FirstBest(mounts, |mounts|, target, k) && mounts[k] == best
  {
    assert mounts[0..] == mounts;
    var s := ScanReturns(mounts, 0, target, None, 0);
  }

  // ---------------------------------------------------------------- what the router returns

  lemma {:induction false} ClimbingIsNoPrefix(c: seq<string>, p: seq<string>)
    requires c != [] && (c[0] == "." || c[0] == "..") && AllSlashFree(c) && AllNames(p)
    ensures !HasPrefix(Absolute(p), Joined(c) + "/")
  {
    var path, point := Absolute(p), Joined(c);
    if HasPrefix(path, point + "/") {
      var rest := path[|point| + 1..];
      assert path == point + ("/" + rest);
      SplitAtSlash(point, rest);
      SplitJoined(c);
      assert ([""] + c + Split(rest))[1] == c[0];
      FirstComponent(p);
    }
  }

  /** A point without a normal form owns no normal path. */
  lemma {:induction false} ClimbingOwnsNothing(rawPoint: string, raw: string)
    requires !EnginePath.StaysBelow(rawPoint)
    ensures !Owns(EnginePath.EngineNormalize(rawPoint), Normalize(raw))
  {
    NormalizedComponents(raw);
    var c := EnginePath.ClimbingComponents(rawPoint);
    EnginePath.NeverNormal(rawPoint, Components(raw));
    ClimbingIsNoPrefix(c, Components(raw));
  }

  lemma {:induction false} FirstComponent(p: seq<string>)
    requires AllNames(p)
    ensures |Split(Absolute(p))| > 1 && Split(Absolute(p))[1] != "." && Split(Absolute(p))[1] != ".."
  {
    if p == [] {
      assert Split("/") == ["", ""];
    } else {
      assert IsName(p[0]) && AllSlashFree(p) by {
        assert p[0] in p;
        assert forall x :: x in p ==> IsName(x);
      }
      SplitJoined(p);
      assert ([""] + p)[1] == p[0];
    }
  }

  /** Nor is a path without a normal form owned by a point that has one. */
  lemma {:induction false} ClimbingIsNotOwned(rawPoint: string, raw: string)
    requires EnginePath.StaysBelow(rawPoint) && EnginePath.EngineNormalize(rawPoint) != "/"
    requires !EnginePath.StaysBelow(raw)
    ensures !Owns(EnginePath.EngineNormalize(rawPoint), EnginePath.EngineNormalize(raw))
  {
    EnginePath.NormalisersAgreeIff(rawPoint);
    NormalizedComponents(rawPoint);
    var point := Components(rawPoint);
    EnginePath.NeverNormal(raw, point);
    if HasPrefix(EnginePath.EngineNormalize(raw), Absolute(point) + "/") {
      assert IsName(point[0]) by {
        assert point[0] in point;
      }
      PrefixOfText(EnginePath.EngineNormalize(raw), point);
      EnginePath.OutsideText(raw);
    }
  }

  // ---------------------------------------------------------------- where the two agree

  ghost predicate IsRegistered(mounts: seq<Option<Mount>>, k: nat, m: Mounted)
  {
    && k < |mounts| && mounts[k].Some?
    && m == Mounted(EnginePath.EngineNormalize(mounts[k].value.rawPoint), mounts[k].value)
  }

  lemma {:induction false} RegisteredAt(mounts: seq<Option<Mount>>, m: Mounted) returns (k: nat)
    requires Router(mounts).Ok? && m in Router(mounts).value
    ensures IsRegistered(mounts, k, m)
  {
    RouterIsAccepted(mounts);
    k :| 0 <= k < |mounts| && mounts[k].Some? &&
         m == Mounted(EnginePath.EngineNormalize(mounts[k].value.rawPoint), mounts[k].value);
  }

  lemma {:induction false} InRouter(mounts: seq<Option<Mount>>, k: nat)
    requires Router(mounts).Ok? && k < |mounts| && mounts[k].Some?
    ensures Mounted(EnginePath.EngineNormalize(mounts[k].value.rawPoint), mounts[k].value) in Router(mounts).value
  {
    RouterIsAccepted(mounts);
  }

  /** For a target with a normal form, what owns it in the router owns it in the scan, and the other
      way round if its point has a normal form too. */
  lemma {:induction false} OwnersOfNormal(mounts: seq<Option<Mount>>, k: nat, raw: string)
    requires k < |mounts| && mounts[k].Some? && EnginePath.StaysBelow(raw)
    ensures var point := EnginePath.EngineNormalize(mounts[k].value.rawPoint);
            && (Owns(point, Normalize(raw)) <==> HasNormalPoint(mounts[k].value) && OwnsAt(mounts, k, Normalize(raw)))
            && (HasNormalPoint(mounts[k].value) ==> |point| == SizeAt(mounts, k))
  {
    EnginePath.NormalisersAgreeIff(mounts[k].value.rawPoint);
    if !HasNormalPoint(mounts[k].value) {
      ClimbingOwnsNothing(mounts[k].value.rawPoint, raw);
    }
  }

  lemma {:induction false} RoutedIsNormal(mounts: seq<Option<Mount>>, raw: string)
    requires Router(mounts).Ok? && EnginePath.StaysBelow(raw)
    ensures var routed := MatchIn(Router(mounts).value, Normalize(raw));
            routed.Some? ==> HasNormalPoint(routed.value.mount)
    ensures NoOwner(mounts, |mounts|, Normalize(raw)) ==> MatchIn(Router(mounts).value, Normalize(raw)).None?
  {
    var router := Router(mounts).value;
    RouterIsAccepted(mounts);
    MatchIsLongest(router, Normalize(raw));
    var routed := MatchIn(router, Normalize(raw));
    if routed.Some? {
      var k := RegisteredAt(mounts, routed.value);
      OwnersOfNormal(mounts, k, raw);
    }
  }

  lemma {:induction false} NormalBestIsRouted(mounts: seq<Option<Mount>>, raw: string, k: nat)
    requires Router(mounts).Ok? && EnginePath.StaysBelow(raw)
    requires FirstBest(mounts, |mounts|, Normalize(raw), k) && HasNormalPoint(mounts[k].value)
    ensures var routed := MatchIn(Router(mounts).value, Normalize(raw));
            routed.Some? && routed.value.mount == mounts[k].value
  {
    var router, path := Router(mounts).value, Normalize(raw);
    var m := Mounted(EnginePath.EngineNormalize(mounts[k].value.rawPoint), mounts[k].value);
    RouterIsAccepted(mounts);
    InRouter(mounts, k);
    OwnersOfNormal(mounts, k, raw);
    forall other | other in router && Owns(other.point, path)
      ensures |other.point| <= |m.point|
    {
      var j := RegisteredAt(mounts, other);
      OwnersOfNormal(mounts, j, raw);
    }
    assert IsLongestOwner(router, path, m);
    MatchIsLongest(router, path);
    LongestOwnerIsUnique(router, path, m, MatchIn(router, path).value);
  }

  /** For a target with a normal form: the scan and the router agree exactly if the scan finds nothing
      or a mount whose point has a normal form. */
  lemma {:induction false} ScanAgreesIff(mounts: seq<Option<Mount>>, raw: string)
    requires Router(mounts).Ok? && EnginePath.StaysBelow(raw)
    ensures var best := ScanFrom(mounts, Normalize(raw), None, 0);
            Agree(mounts, raw) <==> best.None? || HasNormalPoint(best.value)
  {
    EnginePath.NormalisersAgreeIff(raw);
    ScanIsFirstBest(mounts, Normalize(raw));
    RoutedIsNormal(mounts, raw);
    var best := ScanFrom(mounts, Normalize(raw), None, 0);
    if best.Some? && HasNormalPoint(best.value) {
      var k :| 0 <= k < |mounts| && FirstBest(mounts, |mounts|, Normalize(raw), k) && mounts[k] == best;
      NormalBestIsRouted(mounts, raw, k);
    }
  }

  predicate NormalPoints(mounts: seq<Option<Mount>>) {
    forall k :: 0 <= k < |mounts| && mounts[k].Some? ==> HasNormalPoint(mounts[k].value)
  }

  lemma {:induction false} RoutesNothing(mounts: seq<Option<Mount>>, raw: string)
    requires Router(mounts).Ok? && NormalPoints(mounts) && !EnginePath.StaysBelow(raw)
    ensures MatchIn(Router(mounts).value, EnginePath.EngineNormalize(raw)).None?
  {
    var router := Router(mounts).value;
    RouterIsAccepted(mounts);
    MatchIsLongest(router, EnginePath.EngineNormalize(raw));
    var routed := MatchIn(router, EnginePath.EngineNormalize(raw));
    if routed.Some? {
      var k := RegisteredAt(mounts, routed.value);
      NoRootIsRouted(mounts, k);
      ClimbingIsNotOwned(mounts[k].value.rawPoint, raw);
    }
  }

  lemma {:induction false} NoRootIsRouted(mounts: seq<Option<Mount>>, k: nat)
    requires Router(mounts).Ok? && k < |mounts| && mounts[k].Some?
    ensures EnginePath.EngineNormalize(mounts[k].value.rawPoint) != "/"
  {
    AcceptedIff(mounts);
    PointCounted(mounts, k);
  }

  lemma {:induction false} PointCounted(mounts: seq<Option<Mount>>, k: nat)
    requires k < |mounts| && mounts[k].Some?
    ensures EnginePath.EngineNormalize(mounts[k].value.rawPoint) in Points(mounts)
    decreases |mounts|
  {
    if k > 0 {
      PointCounted(mounts[1..], k - 1);
    }
  }

  /** If all mount points have normal forms: the two agree exactly on the targets that have one, and
      on those others for which the scan finds nothing. */
  lemma {:induction false} NormalPointsAgreeIff(mounts: seq<Option<Mount>>, raw: string)
    requires Router(mounts).Ok? && NormalPoints(mounts)
    ensures Agree(mounts, raw) <==> EnginePath.StaysBelow(raw) || ScanFrom(mounts, Normalize(raw), None, 0).None?
  {
    if EnginePath.StaysBelow(raw) {
      ScanAgreesIff(mounts, raw);
      ScanIsFirstBest(mounts, Normalize(raw));
    } else {
      RoutesNothing(mounts, raw);
    }
  }

  lemma {:induction false} TwoParts(front: string, name: string)
    requires NoSlash(front) && TrimLeft(front) == front && NoSlash(name) && !EndsInSpace(name)
    ensures TrimSpace(front + "/" + name) == front + "/" + name && Split(front + "/" + name) == [front, name]
  {
    assert front + ['/'] + name == front + "/" + name == front + ("/" + name);
    TrimAround(front, '/', name);
    TrimRightStops(name);
    SplitAtSlash(front, name);
    SplitName(front);
    SplitName(name);
  }

  lemma {:induction false} OneNameLeft(front: string, name: string)
    requires (front == "" || front == "..") && IsName(name)
    ensures Absolute(Resolve([], [front, name])) == "/" + name
    ensures EnginePath.Depth([front, name], 0) == if front == "" then Some(1) else None
  {
    assert [front, name][1..] == [name] && [name][1..] == [];
    assert Resolve([name], []) == [name];
    assert Resolve([], [name]) == Resolve([name], [name][1..]);
    assert EnginePath.Depth([], 1) == Some(1);
    assert EnginePath.Depth([name], 0) == EnginePath.Depth([name][1..], 1);
    assert Joined([name]) == "/" + (name + "");
  }

  lemma {:induction false} DownAndUp(name: string)
    requires IsName(name) && !EndsInSpace(name)
    ensures Normalize("" + "/" + name) == "/" + name && Normalize(".." + "/" + name) == "/" + name
    ensures EnginePath.StaysBelow("" + "/" + name) && !EnginePath.StaysBelow(".." + "/" + name)
  {
    assert TrimLeft("") == "" && TrimLeft("..") == "..";
    TwoParts("", name);
    TwoParts("..", name);
    OneNameLeft("", name);
    OneNameLeft("..", name);
  }

  /** The target "../m" leads to the mount at "/m" in the scan, and nowhere in the router. */
  lemma {:induction false} ScanNeedsCare(m: Mount)
    requires m.rawPoint == "" + "/" + "m"
    ensures Router([Some(m)]).Ok? && ScanFrom([Some(m)], Normalize(".." + "/" + "m"), None, 0) == Some(m)
    ensures !Agree([Some(m)], ".." + "/" + "m")
  {
    var mounts := [Some(m)];
    DownAndUp("m");
    EnginePath.NormalisersAgreeIff(m.rawPoint);
    assert mounts[1..] == [] && Points(mounts) == multiset{"/" + "m"};
    AcceptedIff(mounts);
    NormalPointsAgreeIff(mounts, ".." + "/" + "m");
  }
}
