/** The engine's path normaliser, which cleans before it adds the leading `/`, and the
    working directory that relative paths are resolved against. */
module EnginePath {
  import opened Prelude
  import opened LexicalPath
  import opened WhiteSpace

  predicate Rooted(s: string) {
    s != "" && s[0] == '/'
  }

  // ---------------------------------------------------------------- path.Clean and the engine

  /** The stack of path.Clean on a relative path: a leading `..` is kept. */
  function PushRelative(stack: seq<string>, part: string): seq<string>
  {
    if part == "" || part == "." then stack
    else if part == ".." then
      if |stack| > 0 && stack[|stack| - 1] != ".." then stack[..|stack| - 1] else stack + [".."]
    else stack + [part]
  }

  function ResolveRelative(stack: seq<string>, parts: seq<string>): seq<string>
    decreases |parts|
  {
    if parts == [] then stack else ResolveRelative(PushRelative(stack, parts[0]), parts[1..])
  }

  /** path.Clean of a rooted path. */
  function CleanRooted(s: string): string
  {
    Absolute(Resolve([], Split(s)))
  }

  /** The engine's normaliser: trim, clean, then add a `/` if the result is not rooted. An
      unrooted path that cleans to nothing is "." to path.Clean. */
  function EngineNormalize(raw: string): string
  {
    var trimmed := TrimSpace(raw);
    if trimmed == "" then "/"
    else if Rooted(trimmed) then CleanRooted(trimmed)
    else
      var stack := ResolveRelative([], Split(trimmed));
      if stack == [] then "/." else Absolute(stack)
  }

  /** How deep below its start a relative path ends, unless some prefix climbs above it. */
  function Depth(parts: seq<string>, depth: nat): Option<nat>
    decreases |parts|
  {
    if parts == [] then Some(depth)
    else if parts[0] == "" || parts[0] == "." then Depth(parts[1..], depth)
    else if parts[0] == ".." then if depth == 0 then None else Depth(parts[1..], depth - 1)
    else Depth(parts[1..], depth + 1)
  }

  lemma {:induction false} RelativeStays(stack: seq<string>, parts: seq<string>)
    requires AllNames(stack) && AllSlashFree(parts) && Depth(parts, |stack|).Some?
    ensures ResolveRelative(stack, parts) == Resolve(stack, parts)
    ensures |Resolve(stack, parts)| == Depth(parts, |stack|).value
    decreases |parts|
  {
    if parts != [] {
      assert |stack| > 0 ==> IsName(stack[|stack| - 1]);
      RelativeStays(Push(stack, parts[0]), parts[1..]);
    }
  }

  lemma {:induction false} RelativeKeepsClimb(stack: seq<string>, parts: seq<string>)
    requires stack != [] && stack[0] == ".." && AllSlashFree(stack) && AllSlashFree(parts)
    ensures var r := ResolveRelative(stack, parts); r != [] && r[0] == ".." && AllSlashFree(r)
    decreases |parts|
  {
    if parts != [] {
      RelativeKeepsClimb(PushRelative(stack, parts[0]), parts[1..]);
    }
  }

  lemma {:induction false} RelativeClimbs(stack: seq<string>, parts: seq<string>)
    requires AllNames(stack) && AllSlashFree(parts) && Depth(parts, |stack|).None?
    ensures var r := ResolveRelative(stack, parts); r != [] && r[0] == ".." && AllSlashFree(r)
    decreases |parts|
  {
    assert |stack| > 0 ==> IsName(stack[|stack| - 1]);
    if parts[0] == ".." && |stack| == 0 {
      assert PushRelative(stack, parts[0]) == [".."];
      RelativeKeepsClimb([".."], parts[1..]);
    } else {
      assert PushRelative(stack, parts[0]) == Push(stack, parts[0]);
      RelativeClimbs(Push(stack, parts[0]), parts[1..]);
    }
  }

  /** An input on which the two normalisers are promised to agree: blank, rooted, or a relative
      path that never climbs above its start and ends below it. */
  predicate StaysBelow(raw: string)
  {
    var trimmed := TrimSpace(raw);
    trimmed == "" || Rooted(trimmed) || (Depth(Split(trimmed), 0).Some? && Depth(Split(trimmed), 0).value > 0)
  }

  lemma {:induction false} FirstPartDiffers(stack: seq<string>, p: seq<string>)
    requires stack != [] && AllSlashFree(stack) && !IsName(stack[0]) && AllNames(p)
    requires stack[0] != ""
    ensures Absolute(p) != Joined(stack)
  {
    SplitJoined(stack);
    SplitJoined(p);
    assert Split("/") == ["", ""] && ["", ""][1] == "";
    assert ([""] + stack)[1] == stack[0];
    assert p != [] ==> p[0] in p && ([""] + p)[1] == p[0];
  }

  /** On the other inputs the engine's result is a path whose first component is a `.` or a `..`. */
  lemma {:induction false} ClimbingComponents(raw: string) returns (c: seq<string>)
    requires !StaysBelow(raw)
    ensures c != [] && (c[0] == "." || c[0] == "..") && AllSlashFree(c) && EngineNormalize(raw) == Joined(c)
  {
    var trimmed := TrimSpace(raw);
    SplitParts(trimmed);
    var parts := Split(trimmed);
    if Depth(parts, 0).Some? {
      RelativeStays([], parts);
      c := ["."];
      assert Joined(["."]) == "/." by {
        assert ["."][1..] == [];
      }
    } else {
      RelativeClimbs([], parts);
      c := ResolveRelative([], parts);
    }
  }

  /** That is no normal form at all. */
  lemma {:induction false} NeverNormal(raw: string, p: seq<string>)
    requires !StaysBelow(raw) && AllNames(p)
    ensures EngineNormalize(raw) != Absolute(p)
  {
    var c := ClimbingComponents(raw);
    FirstPartDiffers(c, p);
  }

  /** Its first part is no name. */
  lemma {:induction false} OutsideText(raw: string)
    requires !StaysBelow(raw)
    ensures |Split(EngineNormalize(raw))| > 1 && !IsName(Split(EngineNormalize(raw))[1])
  {
    var c := ClimbingComponents(raw);
    SplitJoined(c);
    assert ([""] + c)[1] == c[0];
  }

  /** The engine's normaliser and the builtins' agree on exactly those inputs. */
  lemma {:induction false} NormalisersAgreeIff(raw: string)
    ensures EngineNormalize(raw) == Normalize(raw) <==> StaysBelow(raw)
  {
    var trimmed := TrimSpace(raw);
    NormalizedComponents(raw);
    SplitParts(trimmed);
    if trimmed == "" {
      assert [""][1..] == [];
    } else if !StaysBelow(raw) {
      NeverNormal(raw, Components(raw));
    } else if !Rooted(trimmed) {
      RelativeStays([], Split(trimmed));
    }
  }

  // ---------------------------------------------------------------- idempotence, on the input

  lemma {:induction false} DepthInTwo(a: seq<string>, b: seq<string>, depth: nat)
    ensures Depth(a + b, depth) == if Depth(a, depth).None? then None else Depth(b, Depth(a, depth).value)
    decreases |a|
  {
    if a == [] {
      assert a + b == b;
    } else {
      assert (a + b)[1..] == a[1..] + b;
      if !(a[0] == ".." && depth == 0) {
        var next := if a[0] == "" || a[0] == "." then depth else if a[0] == ".." then depth - 1 else depth + 1;
        DepthInTwo(a[1..], b, next);
      }
    }
  }

  /** Parts that end where they began, without going above it, leave the stack as it was. */
  lemma {:induction false} Returns(stack: seq<string>, extra: seq<string>, parts: seq<string>)
    requires Depth(parts, |extra|) == Some(0)
    ensures Resolve(stack + extra, parts) == stack
    decreases |parts|
  {
    if parts == [] {
      assert stack + extra == stack;
    } else {
      var next := Push(extra, parts[0]);
      assert Push(stack + extra, parts[0]) == stack + next;
      Returns(stack, next, parts[1..]);
    }
  }

  lemma {:induction false} OneMorePart(before: seq<string>, i: nat, rest: seq<string>, last: string)
    requires i < |before| && i < |Push(before, last)| && Depth(rest, 0) == Some(|before| - 1 - i)
    ensures Push(before, last)[i] == before[i]
    ensures Depth(rest + [last], 0) == Some(|Push(before, last)| - 1 - i)
  {
    DepthInTwo(rest, [last], 0);
    assert [last][1..] == [];
  }

  lemma {:induction false} LastPush(init: seq<string>, last: string)
    ensures Resolve([], init + [last]) == Push(Resolve([], init), last)
  {
    ResolveInTwo([], init, [last]);
    assert [last][1..] == [];
  }

  /** Component `i` of the result was put there by part `k`, and the parts behind that one end
      above it by as many components as lie above it in the result. */
  ghost predicate PutBy(parts: seq<string>, i: nat, k: nat)
    requires i < |Resolve([], parts)|
  {
    && k < |parts| && parts[k] == Resolve([], parts)[i]
    && Depth(parts[k + 1..], 0) == Some(|Resolve([], parts)| - 1 - i)
  }

  lemma {:induction false} StillPutBy(init: seq<string>, last: string, i: nat, k: nat)
    requires i < |Resolve([], init)| && i < |Resolve([], init + [last])| && PutBy(init, i, k)
    ensures PutBy(init + [last], i, k)
  {
    LastPush(init, last);
    OneMorePart(Resolve([], init), i, init[k + 1..], last);
    assert (init + [last])[k + 1..] == init[k + 1..] + [last];
  }

  lemma {:induction false} PutByLast(init: seq<string>, last: string)
    requires |Resolve([], init)| < |Resolve([], init + [last])|
    ensures PutBy(init + [last], |Resolve([], init)|, |init|)
  {
    LastPush(init, last);
    assert (init + [last])[|init| + 1..] == [];
  }

  lemma {:induction false} Origin(parts: seq<string>, i: nat) returns (k: nat)
    requires i < |Resolve([], parts)|
    ensures PutBy(parts, i, k)
    decreases |parts|
  {
    var n := |parts| - 1;
    var init, last := parts[..n], parts[n];
    assert parts == init + [last];
    LastPush(init, last);
    if i == |Resolve([], init)| {
      PutByLast(init, last);
      k := n;
    } else {
      k := Origin(init, i);
      StillPutBy(init, last, i, k);
    }
  }

  /** Name `k` ends in white space, and what follows it leads back to it. */
  predicate SpaceStays(parts: seq<string>, k: nat)
  {
    k < |parts| && EndsInSpace(parts[k]) && Depth(parts[k + 1..], 0) == Some(0)
  }

  lemma {:induction false} StayedAtTheEnd(parts: seq<string>, k: nat)
    requires SpaceStays(parts, k)
    ensures EndsInSpace(Absolute(Resolve([], parts)))
  {
    var stack, rest := Resolve([], parts[..k]), parts[k + 1..];
    assert parts == parts[..k] + ([parts[k]] + rest);
    ResolveInTwo([], parts[..k], [parts[k]] + rest);
    assert ([parts[k]] + rest)[1..] == rest;
    Returns(stack + [parts[k]], [], rest);
    assert stack + [parts[k]] + [] == stack + [parts[k]];
    LastName(stack, parts[k]);
  }

  lemma {:induction false} EndWasLeft(parts: seq<string>) returns (k: nat)
    requires EndsInSpace(Absolute(Resolve([], parts)))
    ensures SpaceStays(parts, k)
  {
    var r := Resolve([], parts);
    var i := |r| - 1;
    assert r == r[..i] + [r[i]];
    k := Origin(parts, i);
    LastName(r[..i], r[i]);
  }

  ghost predicate SomeSpaceStays(parts: seq<string>)
  {
    exists k: nat :: SpaceStays(parts, k)
  }

  lemma {:induction false} EndsInSpaceIff(parts: seq<string>)
    ensures EndsInSpace(Absolute(Resolve([], parts))) <==> SomeSpaceStays(parts)
  {
    if EndsInSpace(Absolute(Resolve([], parts))) {
      var k := EndWasLeft(parts);
    } else if k: nat :| SpaceStays(parts, k) {
      StayedAtTheEnd(parts, k);
    }
  }

  /** Normalisation is idempotent except exactly on the inputs in which some name ends in white
      space and is followed only by parts that lead back to it. */
  lemma {:induction false} IdempotentUnlessSpaceStays(raw: string)
    ensures Normalize(Normalize(raw)) == Normalize(raw) <==> !SomeSpaceStays(Split(TrimSpace(raw)))
  {
    IdempotentIff(raw);
    EndsInSpaceIff(Split(TrimSpace(raw)));
  }

  lemma {:induction false} RelativeInputsDisagree()
    ensures EngineNormalize("..") == "/.." && Normalize("..") == "/"
  {
    assert TrimLeft("..") == ".." && TrimRight("..") == "..";
    SplitName("..");
    assert [".."][1..] == [];
    assert ResolveRelative([], [".."]) == [".."];
    assert Resolve([], [".."]) == [];
    assert Joined([".."]) == "/..";
  }

  /** Normalising a rooted path again makes it shorter, unless it changes nothing. */
  lemma {:induction false} NormalizeShrinks(s: string)
    requires Rooted(s)
    ensures EngineNormalize(s) == s || |EngineNormalize(s)| < |s|
  {
    RootedTrim(s);
    KeepsRoot(s);
    TrimRightDecides(s);
    NormalizeNoLonger(s);
    if |EngineNormalize(s)| == |s| {
      TrimRightStops(s);
      var rest := Split(s[1..]);
      assert Split(s) == [""] + rest && ([""] + rest)[1..] == rest;
      JoinedSplit(s[1..]);
      var parts := Resolve([], rest);
      if parts != [] {
        ResolveSameLength([], rest);
        assert [] + rest == rest;
      }
    }
  }

  // ---------------------------------------------------------------- the null device

  /** path.Clean(strings.TrimSpace(p)) == "/dev/null" */
  predicate IsNullDevice(p: string)
  {
    var trimmed := TrimSpace(p);
    Rooted(trimmed) && CleanRooted(trimmed) == "/dev/null"
  }

  // ---------------------------------------------------------------- the working directory

  datatype PathError = PathRequired | NotADirectory(path: string) | Refused(message: string)

  /** The absolute path a raw argument denotes, before the file system is asked about it. */
  function Target(cwd: string, raw: string): Result<string, PathError>
  {
    var trimmed := TrimSpace(raw);
    if trimmed == "" then Err(PathRequired)
    else if Rooted(trimmed) then Ok(EngineNormalize(trimmed))
    else Ok(EngineNormalize(CleanRooted(cwd + "/" + trimmed)))
  }

  /** The file system below: what it makes of an absolute path, and which paths are directories. */
  datatype Base = Base(resolve: string -> Result<string, string>, isDir: string -> Result<bool, string>)

  function ResolveIn(base: Base, cwd: string, raw: string): Result<string, PathError>
  {
    var target :- Target(cwd, raw);
    var resolved := base.resolve(target);
    if resolved.Err? then Err(Refused(resolved.error)) else Ok(resolved.value)
  }

  class WorkingDir {
    const base: Base
    const root: string
    var cwd: string

    constructor (base: Base, root: string, initial: string)
      ensures this.base == base && this.root == root && cwd == initial
    {
      this.base, this.root, this.cwd := base, root, initial;
    }

    method ResolvePath(raw: string) returns (r: Result<string, PathError>)
      ensures r == ResolveIn(base, cwd, raw)
    {
      var trimmed := TrimSpace(raw);
      if trimmed == "" {
        return Err(PathRequired);
      }
      var candidate := trimmed;
      if !Rooted(trimmed) {
        candidate := CleanRooted(cwd + "/" + trimmed);
      }
      var resolved := base.resolve(EngineNormalize(candidate));
      if resolved.Err? {
        return Err(Refused(resolved.error));
      }
      return Ok(resolved.value);
    }

    /** A blank argument means the root. Only a success changes the working directory. */
    method ChangeWorkingDir(raw: string) returns (r: Result<string, PathError>)
      modifies this
      ensures var target := if TrimSpace(raw) == "" then root else raw;
              var resolved := ResolveIn(base, old(cwd), target);
              if resolved.Ok? && base.isDir(resolved.value) == Ok(true) then
                r == resolved && cwd == EngineNormalize(resolved.value)
              else
                r.Err? && cwd == old(cwd)
    {
      var target := raw;
      if TrimSpace(target) == "" {
        target := root;
      }
      var resolved := ResolvePath(target);
      if resolved.Err? {
        return resolved;
      }
      var isDir := base.isDir(resolved.value);
      if isDir.Err? {
        return Err(Refused(isDir.error));
      }
      if !isDir.value {
        return Err(NotADirectory(resolved.value));
      }
      cwd := EngineNormalize(resolved.value);
      return resolved;
    }
  }

  lemma {:induction false} RootedAgrees(s: string)
    requires Rooted(s)
    ensures EngineNormalize(s) == Normalize(s)
  {
    RootedTrim(s);
    KeepsRoot(s);
  }

  lemma {:induction false} RootedNormal(s: string)
    requires Rooted(s)
    ensures Rooted(EngineNormalize(s))
  {
    RootedAgrees(s);
    NormalizedComponents(s);
  }

  /** The text that a trimmed argument names, before any normalisation. */
  function Named(cwd: string, raw: string): string
  {
    if Rooted(raw) then raw else cwd + "/" + raw
  }

  lemma {:induction false} CleanIsNormal(cwd: string, raw: string)
    requires Rooted(cwd) && TrimSpace(raw) == raw != ""
    ensures !EndsInSpace(Named(cwd, raw)) && CleanRooted(Named(cwd, raw)) == Normalize(Named(cwd, raw))
  {
    var s := Named(cwd, raw);
    TrimSpaceDecides(raw);
    BackUpToPlain(cwd, '/', raw);
    assert cwd + ['/'] + raw == cwd + "/" + raw;
    RootedTrim(s);
    TrimRightStops(s);
  }

  /** Where an argument leads: a relative one is normalised twice. */
  lemma {:induction false} TargetText(cwd: string, raw: string)
    requires Rooted(cwd) && TrimSpace(raw) != ""
    ensures var t := TrimSpace(raw);
            Target(cwd, raw) ==
              Ok(if Rooted(t) then Normalize(t) else Normalize(Normalize(Named(cwd, t))))
  {
    var t := TrimSpace(raw);
    TrimSpaceDecides(raw);
    if Rooted(t) {
      RootedAgrees(t);
    } else {
      CleanIsNormal(cwd, t);
      NormalizedComponents(Named(cwd, t));
      RootedAgrees(Normalize(Named(cwd, t)));
    }
  }

  /** Every argument that is not blank leads to an absolute path of proper names. */
  lemma {:induction false} TargetIsProper(cwd: string, raw: string) returns (names: seq<string>)
    requires Rooted(cwd)
    ensures TrimSpace(raw) == "" ==> Target(cwd, raw) == Err(PathRequired)
    ensures TrimSpace(raw) != "" ==> Target(cwd, raw) == Ok(Absolute(names)) && AllNames(names)
  {
    var t := TrimSpace(raw);
    names := if Rooted(t) then Components(t) else Components(Normalize(Named(cwd, t)));
    if t != "" {
      TargetText(cwd, raw);
      NormalizedComponents(t);
      NormalizedComponents(Normalize(Named(cwd, t)));
    }
  }

  /** An argument leads to the normal form of the text it names, exactly if it is absolute or that
      normal form does not end in white space. */
  lemma {:induction false} TargetIsNormalIff(cwd: string, raw: string)
    requires Rooted(cwd) && TrimSpace(raw) != ""
    ensures var t := TrimSpace(raw);
            Target(cwd, raw) == Ok(Normalize(Named(cwd, t))) <==>
              Rooted(t) || !EndsInSpace(Normalize(Named(cwd, t)))
  {
    var t := TrimSpace(raw);
    TargetText(cwd, raw);
    IdempotentIff(Named(cwd, t));
  }

  lemma {:induction false} NamedBelow(cwd: string, p: string, q: string)
    requires TrimSpace(p) == p != "" && TrimSpace(q) == q
    ensures TrimSpace(p + "/" + q) == p + "/" + q && Rooted(p + "/" + q) == Rooted(p)
    ensures Named(cwd, p + "/" + q) == Named(cwd, p) + "/" + q
  {
    TrimAround(p, '/', q);
    assert p + ['/'] + q == p + "/" + q;
    TrimSpaceDecides(p);
    TrimSpaceDecides(q);
    TrimRightStops(q);
    assert cwd + "/" + (p + "/" + q) == cwd + "/" + p + "/" + q;
  }

  // ---------------------------------------------------------------- cd p, then q, against p/q

  /** The working directory that a successful `cd p` stores, if the base resolver keeps the path. */
  function DirAfter(cwd: string, p: string): string
    requires Target(cwd, p).Ok?
  {
    EngineNormalize(Target(cwd, p).value)
  }

  /** A relative argument without white space around it. */
  predicate Relative(q: string) {
    TrimSpace(q) == q != "" && !Rooted(q)
  }

  /** `p` is relative, or `p/q` names a path that does not end in white space. */
  predicate Proper(p: string, q: string)
  {
    Rooted(p) ==> !EndsInSpace(Normalize(p + "/" + q))
  }

  /** After `cd p`, `q` leads to where `p/q` led before. */
  predicate Composes(cwd: string, p: string, q: string)
  {
    Target(cwd, p).Ok? && Target(DirAfter(cwd, p), q) == Target(cwd, p + "/" + q)
  }

  /** `cd p` enters the directory that `p` names, exactly if that path does not end in white space. */
  lemma {:induction false} DirAfterIff(cwd: string, p: string) returns (names: seq<string>)
    requires Rooted(cwd) && TrimSpace(p) == p != ""
    ensures Target(cwd, p).Ok? && AllNames(names) && DirAfter(cwd, p) == Absolute(names)
    ensures DirAfter(cwd, p) == Normalize(Named(cwd, p)) <==> !EndsInSpace(Normalize(Named(cwd, p)))
  {
    var x := Named(cwd, p);
    var once := Normalize(x);
    TargetText(cwd, p);
    NormalizedComponents(x);
    RootedAgrees(once);
    RootedNormal(once);
    IdempotentIff(x);
    NormalizeShrinks(once);
    RootedAgrees(Normalize(once));
    NormalizeShrinks(Normalize(once));
    names := Components(Target(cwd, p).value);
    NormalizedComponents(Target(cwd, p).value);
    RootedAgrees(Target(cwd, p).value);
  }

  /** Where `p/q` leads. */
  lemma {:induction false} JoinedTarget(cwd: string, p: string, q: string)
    requires Rooted(cwd) && TrimSpace(p) == p != "" && Relative(q)
    ensures var joined := Normalize(Normalize(Named(cwd, p)) + "/" + q);
            Target(cwd, p + "/" + q) == Ok(if Rooted(p) then joined else Normalize(joined)) &&
            joined == Normalize(Named(cwd, p + "/" + q))
  {
    NamedBelow(cwd, p, q);
    TargetText(cwd, p + "/" + q);
    CleanIsNormal(cwd, p);
    NormalizeJoin(Named(cwd, p), q);
  }

  /** If the path that `p` names does not end in white space: a relative `p` composes with every `q`,
      an absolute one with those for which `p/q` does not end in white space either. */
  lemma {:induction false} CdComposes(cwd: string, p: string, q: string)
    requires Rooted(cwd) && TrimSpace(p) == p != "" && Relative(q)
    ensures !EndsInSpace(Normalize(Named(cwd, p))) ==>
              (Composes(cwd, p, q) <==> Proper(p, q))
  {
    var names := DirAfterIff(cwd, p);
    TargetText(DirAfter(cwd, p), q);
    JoinedTarget(cwd, p, q);
    IdempotentIff(Named(cwd, p + "/" + q));
  }

  /** A directory whose path ends in white space is not entered, and any plain name tells. */
  lemma {:induction false} PlainNameTells(cwd: string, p: string)
    requires Rooted(cwd) && TrimSpace(p) == p != "" && EndsInSpace(Normalize(Named(cwd, p)))
    ensures Relative("x") && !EndsInSpace(Normalize(Named(cwd, p + "/" + "x"))) && !Composes(cwd, p, "x")
  {
    var names := DirAfterIff(cwd, p);
    PlainName();
    NormalizedComponents(Named(cwd, p));
    var c := Components(Named(cwd, p));
    BelowName(names, "x");
    JoinedTarget(cwd, p, "x");
    JoinAbsolute(c, "x");
    OneName(c, "x");
    LastName(c, "x");
    assert AllNames(c + ["x"]);
    NormalizeOfAbsolute(c + ["x"]);
    assert (names + ["x"])[..|names|] == names && (c + ["x"])[..|c|] == c;
    if Composes(cwd, p, "x") {
      AbsoluteIsInjective(names + ["x"], c + ["x"]);
    }
  }

  lemma {:induction false} PlainName()
    ensures Relative("x") && IsName("x") && TrimRight("x") == "x" && !EndsInSpace("x")
  {
  }

  /** For which `p` that `cd` composes: with every `q` if `p` is relative, and if `p` is absolute with
      every `q` for which `p/q` does not end in white space. */
  lemma {:induction false} CdComposesIff(cwd: string, p: string)
    requires Rooted(cwd) && TrimSpace(p) == p != ""
    ensures (forall q :: Relative(q) && Proper(p, q) ==> Composes(cwd, p, q)) <==>
              !EndsInSpace(Normalize(Named(cwd, p)))
  {
    if EndsInSpace(Normalize(Named(cwd, p))) {
      PlainNameTells(cwd, p);
      NamedBelow(cwd, p, "x");
    } else {
      forall q | Relative(q) && Proper(p, q)
        ensures Composes(cwd, p, q)
      {
        CdComposes(cwd, p, q);
      }
    }
  }

  lemma {:induction false} SpacedBelow(cwd: string, p: string)
    requires Rooted(cwd) && Rooted(p) && TrimSpace(p) == p
    ensures var q := "x " + "/" + "."; Relative(q) && EndsInSpace(Normalize(p + "/" + q))
  {
    var q, c := "x " + "/" + ".", Components(p);
    SpacedArgument();
    NormalizedComponents(p);
    JoinedTarget(cwd, p, q);
    JoinAbsolute(c, q);
    ResolveInTwo(c, ["x "], ["."]);
    OneName(c, "x ");
    assert ["."][1..] == [];
    LastName(c, "x ");
  }

  /** An absolute `p` never composes with every `q`: below it a name that ends in white space is kept
      by `p/q` and trimmed after `cd p`. */
  lemma {:induction false} AbsoluteCdNeedsCare(cwd: string, p: string)
    requires Rooted(cwd) && Rooted(p) && TrimSpace(p) == p
    ensures exists q :: Relative(q) && !Composes(cwd, p, q)
  {
    if EndsInSpace(Normalize(Named(cwd, p))) {
      PlainNameTells(cwd, p);
    } else {
      SpacedBelow(cwd, p);
      CdComposes(cwd, p, "x " + "/" + ".");
    }
  }

  lemma {:induction false} SpacedArgument()
    ensures var q := "x " + "/" + "."; Relative(q) && TrimRight(q) == q && Split(q) == ["x "] + ["."]
    ensures IsName("x ") && Split("x ") == ["x "] && EndsInSpace("x ")
  {
    var q := "x " + "/" + ".";
    assert q == "x " + ['/'] + "." == "x " + ("/" + ".");
    TrimAround("x ", '/', ".");
    TrimRightUpToPlain("x ", '/', ".");
    SplitAtSlash("x ", ".");
    SplitName("x ");
    SplitName(".");
  }

  lemma {:induction false} NamedSpaceFree(cwd: string, p: string)
    requires Rooted(cwd) && SpaceFree(cwd) && SpaceFree(p)
    ensures SpaceFree(Named(cwd, p)) && !EndsInSpace(Normalize(Named(cwd, p))) && TrimSpace(p) == p
  {
    SpaceFreeAround(cwd, '/', p);
    assert cwd + ['/'] + p == cwd + "/" + p;
    SpaceFreeComponents(Named(cwd, p));
    SpaceFreeEnds(p);
  }

  /** For white-space-free arguments no condition is left. */
  lemma {:induction false} SpaceFreeCd(cwd: string, p: string, q: string)
    requires Rooted(cwd) && SpaceFree(cwd) && SpaceFree(p) && SpaceFree(q) && p != "" && q != "" && !Rooted(q)
    ensures Composes(cwd, p, q)
  {
    NamedSpaceFree(cwd, p);
    NamedSpaceFree(cwd, q);
    SpaceFreeAround(p, '/', q);
    assert p + ['/'] + q == p + "/" + q;
    SpaceFreeComponents(p + "/" + q);
    CdComposes(cwd, p, q);
  }

  lemma {:induction false} BelowName(dir: seq<string>, name: string)
    requires AllNames(dir) && IsName(name) && TrimSpace(name) == name
    ensures Target(Absolute(dir), name) == Ok(Absolute(dir + [name]))
  {
    TrimSpaceDecides(name);
    TrimRightStops(name);
    TargetText(Absolute(dir), name);
    JoinAbsolute(dir, name);
    OneName(dir, name);
    NormalizeChild(dir, name);
  }

  /** What `name/rest` names below a directory, the name's white space included. */
  lemma {:induction false} SpacedName(dir: seq<string>, name: string, rest: string)
    requires AllNames(dir) && dir != [] && IsName(name) && TrimLeft(name) == name && TrimRight(rest) == rest
    ensures TrimSpace(name + "/" + rest) == name + "/" + rest && !Rooted(name + "/" + rest)
    ensures Normalize(Absolute(dir) + "/" + (name + "/" + rest)) == Absolute(Resolve(dir + [name], Split(rest)))
  {
    var q := name + "/" + rest;
    assert q == name + ['/'] + rest == name + ("/" + rest);
    TrimAround(name, '/', rest);
    TrimRightUpToPlain(name, '/', rest);
    JoinAbsolute(dir, q);
    SplitAtSlash(name, rest);
    ResolveInTwo(dir, Split(name), Split(rest));
    OneName(dir, name);
  }

  /** `name/` leads to the name without its white space. */
  lemma {:induction false} SlashTrims(dir: seq<string>, name: string)
    requires AllNames(dir) && dir != [] && IsName(name) && TrimLeft(name) == name && IsName(TrimRight(name))
    ensures Target(Absolute(dir), name + "/") == Ok(Absolute(dir + [TrimRight(name)]))
  {
    assert name + "/" == name + "/" + "";
    SpacedName(dir, name, "");
    TargetText(Absolute(dir), name + "/");
    EmptyStep(dir + [name]);
    NormalizeChild(dir, name);
  }

  /** `name//q` leads below the name with its white space. */
  lemma {:induction false} SlashKeeps(dir: seq<string>, name: string, q: string)
    requires AllNames(dir) && dir != [] && IsName(name) && TrimLeft(name) == name && IsName(q) && TrimSpace(q) == q
    ensures Target(Absolute(dir), name + "/" + "/" + q) == Ok(Absolute(dir + [name] + [q]))
  {
    assert name + "/" + "/" + q == name + "/" + ("/" + q);
    SlashedName(q);
    SpacedName(dir, name, "/" + q);
    TargetText(Absolute(dir), name + "/" + ("/" + q));
    OneName(dir + [name], q);
    NormalizeChild(dir + [name], q);
  }

  lemma {:induction false} SpacedDiffers(dir: seq<string>, name: string, plain: string, q: string)
    requires AllNames(dir) && IsName(name) && IsName(plain) && IsName(q) && name != plain
    ensures Absolute(dir + [plain] + [q]) != Absolute(dir + [name] + [q])
  {
    assert (dir + [plain] + [q])[|dir|] != (dir + [name] + [q])[|dir|];
    if Absolute(dir + [plain] + [q]) == Absolute(dir + [name] + [q]) {
      AbsoluteIsInjective(dir + [plain] + [q], dir + [name] + [q]);
    }
  }

  /** Such inputs, spelled out: `cd` to a name that ends in white space (followed by a slash) enters
      the directory without the white space. */
  lemma {:induction false} CdNeedsCare(dir: seq<string>, name: string, q: string)
    requires AllNames(dir) && dir != [] && IsName(name) && TrimLeft(name) == name && EndsInSpace(name)
    requires IsName(TrimRight(name)) && IsName(q) && TrimSpace(q) == q
    ensures var cwd, p, plain := Absolute(dir), name + "/", dir + [TrimRight(name)];
            && Target(cwd, p) == Ok(Absolute(plain)) && DirAfter(cwd, p) == Absolute(plain)
            && Target(DirAfter(cwd, p), q) == Ok(Absolute(plain + [q]))
            && Target(cwd, p + "/" + q) == Ok(Absolute(dir + [name] + [q]))
            && !Composes(cwd, p, q)
  {
    var plain := dir + [TrimRight(name)];
    TrimRightDecides(name);
    SlashTrims(dir, name);
    SlashKeeps(dir, name, q);
    SpacedDiffers(dir, name, TrimRight(name), q);
    LastName(dir, TrimRight(name));
    NormalizeOfAbsolute(plain);
    RootedAgrees(Absolute(plain));
    BelowName(plain, q);
  }

  lemma {:induction false} SlashedName(q: string)
    requires IsName(q) && TrimSpace(q) == q
    ensures TrimRight(q) == q && TrimRight("/" + q) == "/" + q
    ensures forall stack :: Resolve(stack, Split("/" + q)) == Resolve(stack, Split(q))
  {
    TrimSpaceDecides(q);
    TrimRightStops(q);
    TrimRightUpToPlain("", '/', q);
    assert "" + ['/'] + q == "/" + q;
    assert ("/" + q)[1..] == q && ([""] + Split(q))[1..] == Split(q);
  }

  // ---------------------------------------------------------------- what a climbing path is

  function Ups(k: nat): (r: seq<string>)
    ensures |r| == k
  {
    if k == 0 then [] else [".."] + Ups(k - 1)
  }

  lemma {:induction false} UpsAre(k: nat)
    ensures forall i :: 0 <= i < k ==> Ups(k)[i] == ".."
    ensures Ups(k) + [".."] == Ups(k + 1)
    decreases k
  {
    if k > 0 {
      UpsAre(k - 1);
      assert Ups(k) + [".."] == [".."] + (Ups(k - 1) + [".."]);
    } else {
      assert Ups(0) + [".."] == [".."] + Ups(0);
    }
  }

  /** Some levels up, and then down to some names. */
  datatype Way = Way(up: nat, names: seq<string>)

  function OneStep(way: Way, part: string): Way
  {
    if part == "" || part == "." then way
    else if part != ".." then Way(way.up, way.names + [part])
    else if way.names != [] then Way(way.up, way.names[..|way.names| - 1])
    else Way(way.up + 1, [])
  }

  function AllSteps(way: Way, parts: seq<string>): Way
    decreases |parts|
  {
    if parts == [] then way else AllSteps(OneStep(way, parts[0]), parts[1..])
  }

  function WayText(way: Way): seq<string>
  {
    Ups(way.up) + way.names
  }

  lemma {:induction false} StepKeepsNames(way: Way, part: string)
    requires AllNames(way.names) && NoSlash(part)
    ensures AllNames(OneStep(way, part).names) && way.up <= OneStep(way, part).up
    ensures PushRelative(WayText(way), part) == WayText(OneStep(way, part))
  {
    UpsAre(way.up);
    var stack, n := WayText(way), |way.names|;
    if part != "" && part != "." && part != ".." {
      ConcatAssociates(Ups(way.up), way.names, [part]);
    } else if part == ".." && n > 0 {
      assert way.names[n - 1] in way.names && stack[|stack| - 1] == way.names[n - 1];
      assert stack[..|stack| - 1] == Ups(way.up) + way.names[..n - 1];
    } else if part == ".." {
      assert stack == Ups(way.up) && Ups(way.up + 1) + [] == Ups(way.up + 1);
      assert way.up > 0 ==> stack[|stack| - 1] == "..";
    }
  }

  lemma {:induction false} StepsKeepNames(way: Way, parts: seq<string>)
    requires AllNames(way.names) && AllSlashFree(parts)
    ensures AllNames(AllSteps(way, parts).names) && way.up <= AllSteps(way, parts).up
    ensures ResolveRelative(WayText(way), parts) == WayText(AllSteps(way, parts))
    decreases |parts|
  {
    if parts != [] {
      StepKeepsNames(way, parts[0]);
      StepsKeepNames(OneStep(way, parts[0]), parts[1..]);
    }
  }

  /** Where the way leads from a directory deep enough. */
  function Down(base: seq<string>, way: Way): seq<string>
    requires way.up <= |base|
  {
    base[..|base| - way.up] + way.names
  }

  lemma {:induction false} StepLeads(base: seq<string>, way: Way, part: string)
    requires OneStep(way, part).up <= |base|
    ensures Push(Down(base, way), part) == Down(base, OneStep(way, part))
  {
    var from, n := Down(base, way), |way.names|;
    if part == ".." {
      assert from[..|from| - 1] == Down(base, OneStep(way, part));
    } else if part != "" && part != "." {
      ConcatAssociates(base[..|base| - way.up], way.names, [part]);
    }
  }

  lemma {:induction false} StepsLead(base: seq<string>, way: Way, parts: seq<string>)
    requires AllNames(way.names) && AllSlashFree(parts) && AllSteps(way, parts).up <= |base|
    ensures way.up <= |base| && Resolve(Down(base, way), parts) == Down(base, AllSteps(way, parts))
    decreases |parts|
  {
    StepsKeepNames(way, parts);
    if parts != [] {
      var next := OneStep(way, parts[0]);
      StepKeepsNames(way, parts[0]);
      StepsKeepNames(next, parts[1..]);
      StepLeads(base, way, parts[0]);
      StepsLead(base, next, parts[1..]);
    }
  }

  /** A relative path leads up some levels and then down: the engine writes a `..` for each level it
      leads up from the root, where there is nothing above, and then the names. */
  lemma {:induction false} RelativeText(raw: string) returns (way: Way)
    requires TrimSpace(raw) != "" && !Rooted(TrimSpace(raw))
    ensures AllNames(way.names)
    ensures EngineNormalize(raw) == if way == Way(0, []) then "/." else Joined(Ups(way.up) + way.names)
    ensures forall base :: AllNames(base) && |base| >= way.up ==>
              Resolve(base, Split(TrimSpace(raw))) == base[..|base| - way.up] + way.names
  {
    var parts, here := Split(TrimSpace(raw)), Way(0, []);
    SplitParts(TrimSpace(raw));
    way := AllSteps(here, parts);
    StepsKeepNames(here, parts);
    assert Ups(0) + [] == [];
    forall base | AllNames(base) && |base| >= way.up
      ensures Resolve(base, parts) == base[..|base| - way.up] + way.names
    {
      StepsLead(base, here, parts);
      assert base[..|base| - 0] + [] == base;
    }
  }

  /** The null device, by its names. */
  lemma {:induction false} NullDeviceIff(p: string)
    ensures IsNullDevice(p) <==> Rooted(TrimSpace(p)) && Components(p) == ["dev", "null"]
  {
    var names := ["dev", "null"];
    assert names[1..] == ["null"] && ["null"][1..] == [];
    assert Joined(["null"]) == "/null" && Joined(names) == "/dev/null";
    if Rooted(TrimSpace(p)) {
      NormalizedComponents(p);
      assert AllNames(names);
      if Absolute(Components(p)) == "/dev/null" {
        AbsoluteIsInjective(Components(p), names);
      }
    }
  }
}
