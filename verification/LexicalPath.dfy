/** Lexical paths: splitting on `/`, the stack that resolves `.` and `..`, and the two
    normalisers of the program (the builtins' and the engine's). */
module LexicalPath {
  import opened Prelude
  import opened WhiteSpace

  // ---------------------------------------------------------------- splitting and joining

  /** strings.Split(s, "/") */
  function Split(s: string): (parts: seq<string>)
    ensures parts != []
  {
    if s == "" then [""]
    else if s[0] == '/' then [""] + Split(s[1..])
    else
      var rest := Split(s[1..]);
      [[s[0]] + rest[0]] + rest[1..]
  }

  predicate NoSlash(part: string) {
    forall k :: 0 <= k < |part| ==> part[k] != '/'
  }

  /** A path component: a name that normalisation keeps. */
  predicate IsName(part: string) {
    part != "" && part != "." && part != ".." && NoSlash(part)
  }

  predicate AllNames(parts: seq<string>) {
    forall p :: p in parts ==> IsName(p)
  }

  function Joined(parts: seq<string>): string
  {
    if parts == [] then "" else "/" + (parts[0] + Joined(parts[1..]))
  }

  /** The absolute path with the given components. */
  function Absolute(parts: seq<string>): string
  {
    if parts == [] then "/" else Joined(parts)
  }

  // ---------------------------------------------------------------- the component stack

  function Push(stack: seq<string>, part: string): seq<string>
  {
    if part == "" || part == "." then stack
    else if part == ".." then
      if |stack| > 0 then stack[..|stack| - 1] else stack
    else stack + [part]
  }

  function Resolve(stack: seq<string>, parts: seq<string>): seq<string>
    decreases |parts|
  {
    if parts == [] then stack else Resolve(Push(stack, parts[0]), parts[1..])
  }

  /** The components a path string denotes. */
  function Components(raw: string): seq<string>
  {
    Resolve([], Split(TrimSpace(raw)))
  }

  /** The builtins' normaliser. */
  function Normalize(raw: string): string
  {
    Absolute(Components(raw))
  }

  method NormalizeAbsolutePath(raw: string) returns (r: string)
    ensures r == Normalize(raw)
  {
    var trimmed := TrimSpace(raw);
    if trimmed == "" {
      assert [""][1..] == [];
      return "/";
    }
    if trimmed[0] != '/' {
      assert ("/" + trimmed)[1..] == trimmed;
      assert ([""] + Split(trimmed))[1..] == Split(trimmed);
      assert Resolve([], [""] + Split(trimmed)) == Resolve([], Split(trimmed));
      trimmed := "/" + trimmed;
    }
    var parts := Split(trimmed);
    var stack: seq<string> := [];
    assert parts[0..] == parts;
    for k := 0 to |parts|
      invariant Resolve([], parts) == Resolve(stack, parts[k..])
    {
      var part := parts[k];
      assert parts[k..][1..] == parts[k + 1..];
      if part == "" || part == "." {
        continue;
      } else if part == ".." {
        if |stack| > 0 {
          stack := stack[..|stack| - 1];
        }
      } else {
        stack := stack + [part];
      }
    }
    if |stack| == 0 {
      return "/";
    }
    return Absolute(stack);
  }

  // ---------------------------------------------------------------- facts about splitting

  lemma {:induction false} SplitParts(s: string)
    ensures forall p :: p in Split(s) ==> NoSlash(p)
    decreases |s|
  {
    if s != "" {
      SplitParts(s[1..]);
      var rest := Split(s[1..]);
      assert NoSlash(rest[0]);
    }
  }

  lemma {:induction false} SplitAtSlash(a: string, b: string)
    ensures Split(a + ("/" + b)) == Split(a) + Split(b)
    decreases |a|
  {
    var s := a + ("/" + b);
    if a == "" {
      assert s == "/" + b && s[1..] == b;
    } else {
      assert s[1..] == a[1..] + ("/" + b);
      SplitAtSlash(a[1..], b);
      if a[0] == '/' {
        ConcatAssociates([""], Split(a[1..]), Split(b));
      } else {
        var rest := Split(a[1..]);
        assert (rest + Split(b))[0] == rest[0];
        assert (rest + Split(b))[1..] == rest[1..] + Split(b);
        ConcatAssociates([[a[0]] + rest[0]], rest[1..], Split(b));
      }
    }
  }

  lemma {:induction false} SplitName(name: string)
    requires NoSlash(name)
    ensures Split(name) == [name]
    decreases |name|
  {
    if name != "" {
      SplitName(name[1..]);
      assert [name[0]] + name[1..] == name;
    }
  }

  predicate AllSlashFree(parts: seq<string>) {
    forall p :: p in parts ==> NoSlash(p)
  }

  lemma {:induction false} SplitNames(parts: seq<string>)
    requires parts != [] && AllSlashFree(parts)
    ensures Split(parts[0] + Joined(parts[1..])) == parts
    decreases |parts|
  {
    var name, rest := parts[0], parts[1..];
    assert NoSlash(name);
    SplitName(name);
    if rest == [] {
      assert name + Joined(rest) == name;
    } else {
      SplitNames(rest);
      SplitAtSlash(name, rest[0] + Joined(rest[1..]));
      MoveHead([], parts);
    }
  }

  lemma {:induction false} SplitJoined(parts: seq<string>)
    requires AllSlashFree(parts)
    ensures Split(Joined(parts)) == [""] + parts
  {
    if parts != [] {
      SplitNames(parts);
      assert Joined(parts)[1..] == parts[0] + Joined(parts[1..]);
    }
  }

  // ---------------------------------------------------------------- facts about the stack

  lemma {:induction false} ResolveInTwo(stack: seq<string>, a: seq<string>, b: seq<string>)
    ensures Resolve(stack, a + b) == Resolve(Resolve(stack, a), b)
    decreases |a|
  {
    if a == [] {
      assert a + b == b;
    } else {
      assert (a + b)[1..] == a[1..] + b;
      ResolveInTwo(Push(stack, a[0]), a[1..], b);
    }
  }

  lemma {:induction false} ResolveNames(stack: seq<string>, parts: seq<string>)
    requires AllNames(parts)
    ensures Resolve(stack, parts) == stack + parts
    decreases |parts|
  {
    if parts == [] {
      assert stack + parts == stack;
    } else {
      assert IsName(parts[0]);
      ResolveNames(stack + [parts[0]], parts[1..]);
      MoveHead(stack, parts);
    }
  }

  lemma {:induction false} ResolveKeepsNames(stack: seq<string>, parts: seq<string>)
    requires AllNames(stack) && forall p :: p in parts ==> NoSlash(p)
    ensures AllNames(Resolve(stack, parts))
    decreases |parts|
  {
    if parts != [] {
      ResolveKeepsNames(Push(stack, parts[0]), parts[1..]);
    }
  }

  /** Normalisation yields an absolute path with no empty, `.` or `..` component. */
  lemma {:induction false} NormalizedComponents(raw: string)
    ensures AllNames(Components(raw))
    ensures Normalize(raw) != "" && Normalize(raw)[0] == '/'
    ensures Normalize(raw) != "/" ==> Split(Normalize(raw)) == [""] + Components(raw)
  {
    SplitParts(TrimSpace(raw));
    ResolveKeepsNames([], Split(TrimSpace(raw)));
    SplitJoined(Components(raw));
  }

  lemma {:induction false} ResolveAbsolute(stack: seq<string>, parts: seq<string>)
    requires AllNames(parts)
    ensures Resolve(stack, Split(Absolute(parts))) == stack + parts
  {
    if parts == [] {
      assert Split("/") == ["", ""];
      assert ["", ""][1..] == [""];
    } else {
      SplitJoined(parts);
      ResolveInTwo(stack, [""], parts);
      ResolveNames(stack, parts);
    }
  }

  /** Two component lists with the same text are the same list. */
  lemma {:induction false} AbsoluteIsInjective(a: seq<string>, b: seq<string>)
    requires AllNames(a) && AllNames(b) && Absolute(a) == Absolute(b)
    ensures a == b
  {
    ResolveAbsolute([], a);
    ResolveAbsolute([], b);
    assert [] + a == a && [] + b == b;
  }

  // ---------------------------------------------------------------- idempotence

  lemma {:induction false} RootedTrim(s: string)
    requires s != "" && s[0] == '/'
    ensures TrimSpace(s) == TrimRight(s)
  {
  }

  /** The last name of the trimmed text is all that a second pass can change. */
  lemma {:induction false} NormalizeOfAbsolute(parts: seq<string>)
    requires AllNames(parts) && !EndsInSpace(Absolute(parts))
    ensures Components(Absolute(parts)) == parts && Normalize(Absolute(parts)) == Absolute(parts)
  {
    var s := Absolute(parts);
    RootedTrim(s);
    TrimRightStops(s);
    ResolveAbsolute([], parts);
    assert [] + parts == parts;
  }

  /** Trimming a rooted path of its last spaces cannot leave its text unchanged. */
  lemma {:induction false} TrimmedDiffers(parts: seq<string>)
    requires AllNames(parts) && EndsInSpace(Absolute(parts))
    ensures Normalize(Absolute(parts)) != Absolute(parts)
  {
    var s := Absolute(parts);
    var t := TrimSpace(s);
    RootedTrim(s);
    TrimRightDecides(s);
    NormalizedComponents(s);
    NormalizeNoLonger(s);
  }

  lemma {:induction false} JoinedLength(a: seq<string>, b: seq<string>)
    ensures Joined(a + b) == Joined(a) + Joined(b)
    decreases |a|
  {
    if a == [] {
      assert a + b == b;
    } else {
      assert (a + b)[1..] == a[1..] + b;
      JoinedLength(a[1..], b);
    }
  }

  /** A part adds its text to the stack's, or else the stack's text gets no longer. */
  lemma {:induction false} PushNoLonger(stack: seq<string>, part: string)
    ensures |Joined(Push(stack, part))| <= |Joined(stack)| + 1 + |part|
    ensures |Joined(Push(stack, part))| == |Joined(stack)| + 1 + |part| ==> Push(stack, part) == stack + [part]
  {
    var next := Push(stack, part);
    if next == stack + [part] {
      JoinedLength(stack, [part]);
      assert Joined([part]) == "/" + (part + "");
    } else if |next| < |stack| {
      JoinedLength(next, stack[|stack| - 1..]);
      assert next + stack[|stack| - 1..] == stack;
    }
  }

  /** The text of the components never exceeds the text they were split from. */
  lemma {:induction false} ResolveNoLonger(stack: seq<string>, parts: seq<string>)
    ensures |Joined(Resolve(stack, parts))| <= |Joined(stack)| + |Joined(parts)|
    decreases |parts|
  {
    if parts != [] {
      PushNoLonger(stack, parts[0]);
      ResolveNoLonger(Push(stack, parts[0]), parts[1..]);
    }
  }

  /** Text is kept in full only when nothing is dropped. */
  lemma {:induction false} ResolveSameLength(stack: seq<string>, parts: seq<string>)
    requires |Joined(Resolve(stack, parts))| == |Joined(stack)| + |Joined(parts)|
    ensures Resolve(stack, parts) == stack + parts
    decreases |parts|
  {
    if parts == [] {
      assert stack + parts == stack;
    } else {
      var next := Push(stack, parts[0]);
      ResolveNoLonger(next, parts[1..]);
      PushNoLonger(stack, parts[0]);
      ResolveSameLength(next, parts[1..]);
      MoveHead(stack, parts);
    }
  }

  lemma {:induction false} SplitsBack(s: string)
    ensures Split(s)[0] + Joined(Split(s)[1..]) == s
    decreases |s|
  {
    if s != "" {
      SplitsBack(s[1..]);
      var rest := Split(s[1..]);
      if s[0] == '/' {
        assert ([""] + rest)[1..] == rest;
        assert "" + ("/" + s[1..]) == s;
      } else {
        assert ([[s[0]] + rest[0]] + rest[1..])[1..] == rest[1..];
        ConcatAssociates([s[0]], rest[0], Joined(rest[1..]));
        assert [s[0]] + s[1..] == s;
      }
    }
  }

  lemma {:induction false} JoinedSplit(s: string)
    ensures Joined(Split(s)) == "/" + s
  {
    SplitsBack(s);
  }

  lemma {:induction false} NormalizeNoLonger(s: string)
    requires s != "" && s[0] == '/'
    ensures |Normalize(s)| <= |TrimSpace(s)|
  {
    var t := TrimSpace(s);
    RootedTrim(s);
    TrimRightDecides(s);
    KeepsRoot(s);
    var rest := Split(t[1..]);
    assert Split(t) == [""] + rest;
    assert ([""] + rest)[1..] == rest;
    assert Resolve([], Split(t)) == Resolve([], rest);
    ResolveNoLonger([], rest);
    JoinedSplit(t[1..]);
  }

  lemma {:induction false} KeepsRoot(s: string)
    requires s != "" && s[0] == '/'
    ensures TrimRight(s) != "" && TrimRight(s)[0] == '/'
  {
    assert s == "" + ['/'] + s[1..];
    TrimRightUpToPlain("", '/', s[1..]);
  }

  /** Normalisation is idempotent exactly on the inputs whose normal form does not end in
      white space (the outer trim would eat into the last name). */
  lemma {:induction false} IdempotentIff(raw: string)
    ensures Normalize(Normalize(raw)) == Normalize(raw) <==> !EndsInSpace(Normalize(raw))
  {
    NormalizedComponents(raw);
    if EndsInSpace(Normalize(raw)) {
      TrimmedDiffers(Components(raw));
    } else {
      NormalizeOfAbsolute(Components(raw));
    }
  }

  lemma {:induction false} SpaceFreeComponents(raw: string)
    requires SpaceFree(raw)
    ensures SpaceFree(Normalize(raw)) && !EndsInSpace(Normalize(raw))
  {
    SpaceFreeEnds(raw);
    JoinedSplit(raw);
    SpaceFreeAround("", '/', raw);
    assert "" + ['/'] + raw == "/" + raw;
    SpaceFreeSplits(Split(raw));
    SpaceFreeResolve([], Split(raw));
    SpaceFreeJoined(Components(raw));
    SpaceFreeAround("", '/', "");
    SpaceFreeEnds(Normalize(raw));
  }

  lemma {:induction false} SpaceFreeSplits(parts: seq<string>)
    requires SpaceFree(Joined(parts))
    ensures forall p :: p in parts ==> SpaceFree(p)
    decreases |parts|
  {
    if parts != [] {
      var rest := Joined(parts[1..]);
      SpaceFreeParts("/", parts[0] + rest);
      SpaceFreeParts(parts[0], rest);
      SpaceFreeSplits(parts[1..]);
    }
  }

  lemma {:induction false} SpaceFreeResolve(stack: seq<string>, parts: seq<string>)
    requires forall p :: p in stack ==> SpaceFree(p)
    requires forall p :: p in parts ==> SpaceFree(p)
    ensures forall p :: p in Resolve(stack, parts) ==> SpaceFree(p)
    decreases |parts|
  {
    if parts != [] {
      SpaceFreeResolve(Push(stack, parts[0]), parts[1..]);
    }
  }

  lemma {:induction false} SpaceFreeJoined(parts: seq<string>)
    requires forall p :: p in parts ==> SpaceFree(p)
    ensures SpaceFree(Joined(parts))
    decreases |parts|
  {
    if parts != [] {
      var rest := Joined(parts[1..]);
      SpaceFreeJoined(parts[1..]);
      assert SpaceFree("");
      if rest == "" {
        SpaceFreeAround("", '/', parts[0]);
        assert "" + ['/'] + parts[0] == Joined(parts);
      } else {
        SpaceFreeParts("/", rest[1..]);
        assert rest == "/" + rest[1..];
        SpaceFreeAround(parts[0], '/', rest[1..]);
        SpaceFreeAround("", '/', parts[0] + ['/'] + rest[1..]);
        assert "" + ['/'] + (parts[0] + ['/'] + rest[1..]) == Joined(parts);
      }
    }
  }

  /** White-space-free input: the promised idempotence, without condition. */
  lemma {:induction false} SpaceFreeIdempotent(raw: string)
    requires SpaceFree(raw)
    ensures Normalize(Normalize(raw)) == Normalize(raw)
  {
    SpaceFreeComponents(raw);
    IdempotentIff(raw);
  }

  lemma {:induction false} IdempotenceNeedsCare()
    ensures Normalize("a /") == "/a " && Normalize(Normalize("a /")) == "/a"
  {
    assert TrimLeft("a /") == "a /" && TrimRight("a /") == "a /";
    SplitAtSlash("a ", "");
    assert "a " + ("/" + "") == "a /";
    SplitName("a ");
    assert ["a "] + [""] == ["a ", ""];
    assert Resolve([], ["a ", ""]) == ["a "] by {
      assert ["a ", ""][1..] == [""] && [""][1..] == [];
      assert Push([], "a ") == ["a "];
    }
    assert Joined(["a "]) == "/a ";
    assert "/a "[..2] == "/a";
    assert TrimRight("/a ") == TrimRight("/a");
    assert TrimSpace("/a ") == "/a";
    NormalizeOfAbsolute(["a"]);
    assert Absolute(["a"]) == "/a" && TrimSpace("/a") == "/a";
  }

  // ---------------------------------------------------------------- joining paths

  /** The components of `p/q` are those of `p` without its leading white space, followed through
      `q` without its trailing white space. */
  lemma {:induction false} JoinComponents(p: string, q: string)
    ensures Components(p + "/" + q) == Resolve(Resolve([], Split(TrimLeft(p))), Split(TrimRight(q)))
  {
    TrimAround(p, '/', q);
    assert p + "/" + q == p + ['/'] + q;
    assert TrimLeft(p) + ['/'] + TrimRight(q) == TrimLeft(p) + ("/" + TrimRight(q));
    SplitAtSlash(TrimLeft(p), TrimRight(q));
    ResolveInTwo([], Split(TrimLeft(p)), Split(TrimRight(q)));
  }

  lemma {:induction false} RootedFront(s: string)
    requires s != "" && s[0] == '/'
    ensures TrimLeft(s) == s
  {
  }

  lemma {:induction false} JoinAbsolute(parts: seq<string>, q: string)
    requires AllNames(parts)
    ensures Components(Absolute(parts) + "/" + q) == Resolve(parts, Split(TrimRight(q)))
  {
    var n := Absolute(parts);
    JoinComponents(n, q);
    RootedFront(n);
    ResolveAbsolute([], parts);
    assert [] + parts == parts;
  }

  lemma {:induction false} ChildText(d: seq<string>, name: string)
    ensures Absolute(d + [name]) == Joined(d) + "/" + name
  {
    JoinedLength(d, [name]);
    assert Joined([name]) == "/" + name by {
      assert name + Joined([]) == name;
    }
    ConcatAssociates(Joined(d), "/", name);
  }

  lemma {:induction false} LastName(d: seq<string>, name: string)
    ensures EndsInSpace(Absolute(d + [name])) <==> EndsInSpace(name)
  {
    ChildText(d, name);
    BackUpToPlain(Joined(d), '/', name);
    assert Joined(d) + ['/'] + name == Joined(d) + "/" + name;
  }

  /** Normalising the path of a child again: only the end of its name can change. */
  lemma {:induction false} NormalizeChild(d: seq<string>, name: string)
    requires AllNames(d) && NoSlash(name)
    ensures Normalize(Absolute(d + [name])) == Absolute(Push(d, TrimRight(name)))
  {
    ChildText(d, name);
    JoinedComponents(d, name);
    TrimRightDecides(name);
    SplitName(TrimRight(name));
    assert [TrimRight(name)][1..] == [];
  }

  lemma {:induction false} JoinedComponents(d: seq<string>, q: string)
    requires AllNames(d)
    ensures Components(Joined(d) + "/" + q) == Resolve(d, Split(TrimRight(q)))
  {
    if d == [] {
      JoinComponents("", q);
      EmptyStep([]);
    } else {
      JoinAbsolute(d, q);
    }
  }

  lemma {:induction false} JoinNormal(p: string, q: string)
    ensures Components(Normalize(p) + "/" + q) == Resolve(Components(p), Split(TrimRight(q)))
  {
    NormalizedComponents(p);
    JoinAbsolute(Components(p), q);
  }

  /** norm(norm(p)/q) = norm(p/q), whatever the two texts, if `p` does not end in white space. */
  lemma {:induction false} NormalizeJoin(p: string, q: string)
    requires !EndsInSpace(p)
    ensures Normalize(Normalize(p) + "/" + q) == Normalize(p + "/" + q)
  {
    TrimmedFromLeft(p);
    JoinComponents(p, q);
    JoinNormal(p, q);
  }

  lemma {:induction false} TrimmedFromLeft(p: string)
    requires !EndsInSpace(p)
    ensures TrimSpace(p) == TrimLeft(p)
  {
    TrimLeftDecides(p);
    var n := |p| - |TrimLeft(p)|;
    assert p == p[..n] + p[n..];
    SuffixEnds(p[..n], p[n..]);
    TrimRightStops(TrimLeft(p));
  }

  /** For which `p` that holds of every `q`: trimming the end of `p` must not change where it leads. */
  lemma {:induction false} NormalizeJoinIff(p: string)
    ensures (forall q :: Normalize(Normalize(p) + "/" + q) == Normalize(p + "/" + q)) <==>
              Resolve([], Split(TrimLeft(p))) == Components(p)
  {
    if Resolve([], Split(TrimLeft(p))) == Components(p) {
      forall q
        ensures Normalize(Normalize(p) + "/" + q) == Normalize(p + "/" + q)
      {
        JoinComponents(p, q);
        JoinNormal(p, q);
      }
    } else {
      JoinComponents(p, "");
      JoinNormal(p, "");
      NormalizedComponents(p + "/" + "");
      NormalizedComponents(Normalize(p) + "/" + "");
      SplitParts(TrimLeft(p));
      EmptyStep(Components(p));
      EmptyStep(Resolve([], Split(TrimLeft(p))));
      if Normalize(Normalize(p) + "/" + "") == Normalize(p + "/" + "") {
        AbsoluteIsInjective(Components(p), Resolve([], Split(TrimLeft(p))));
      }
    }
  }

  lemma {:induction false} EmptyStep(stack: seq<string>)
    ensures Resolve(stack, Split(TrimRight(""))) == stack
  {
    assert Split("") == [""] && [""][1..] == [];
  }

  lemma {:induction false} OneName(stack: seq<string>, name: string)
    requires IsName(name)
    ensures Resolve(stack, Split(name)) == stack + [name]
  {
    SplitName(name);
    assert [name][1..] == [];
  }

  lemma {:induction false} TwoNames(a: string, b: string)
    ensures Absolute([] + [a] + [b]) == "/" + a + "/" + b
  {
    JoinedLength([a], [b]);
    assert Joined([a]) == "/" + (a + "") && Joined([b]) == "/" + (b + "");
  }

  lemma {:induction false} TrimsOfNames()
    ensures TrimLeft("a ") == "a " && TrimRight("a ") == "a" && TrimRight("b") == "b"
  {
    assert "a "[..1] == "a";
    assert TrimRight("a ") == TrimRight("a");
  }

  lemma {:induction false} TwoSteps(a: string, b: string)
    requires IsName(a) && IsName(b)
    ensures Absolute(Resolve(Resolve([], Split(a)), Split(b))) == "/" + a + "/" + b
  {
    OneName([], a);
    OneName([] + [a], b);
    TwoNames(a, b);
  }

  /** Joining below "a " forgets the space if "a " is normalised first. */
  lemma {:induction false} JoinNeedsCare()
    ensures Normalize("a " + "/" + "b") == "/" + "a " + "/" + "b"
    ensures Normalize(Normalize("a ") + "/" + "b") == "/" + "a" + "/" + "b"
  {
    TrimsOfNames();
    JoinComponents("a ", "b");
    TwoSteps("a ", "b");
    JoinNormal("a ", "b");
    TwoSteps("a", "b");
  }

  // ---------------------------------------------------------------- prefixes

  predicate HasPrefix(s: string, prefix: string) {
    |prefix| <= |s| && s[..|prefix|] == prefix
  }

  /** The component list `a` is a proper prefix of `b`. */
  predicate Above(a: seq<string>, b: seq<string>) {
    |a| < |b| && b[..|a|] == a
  }

  /** The program's textual test `HasPrefix(b, a + "/")` is the component-wise one. */
  lemma {:induction false} PrefixIsComponentPrefix(a: seq<string>, b: seq<string>)
    requires AllNames(a) && AllNames(b)
    ensures HasPrefix(Joined(b), Joined(a) + "/") <==> Above(a, b)
  {
    if Above(a, b) {
      var c := b[|a|..];
      assert b == a + c;
      JoinedLength(a, c);
      assert Joined(b) == Joined(a) + "/" + (c[0] + Joined(c[1..]));
      assert Joined(b)[..|Joined(a) + "/"|] == Joined(a) + "/";
    }
    if HasPrefix(Joined(b), Joined(a) + "/") {
      var rest := Joined(b)[|Joined(a)| + 1..];
      assert Joined(b) == Joined(a) + ("/" + rest);
      SplitAtSlash(Joined(a), rest);
      SplitJoined(a);
      SplitJoined(b);
      var full := [""] + a + Split(rest);
      assert full == [""] + b;
      assert full[1..|a| + 1] == a && ([""] + b)[1..|a| + 1] == b[..|a|];
    }
  }

  /** What a text that begins with a path goes on from: its first component. */
  lemma {:induction false} PrefixOfText(s: string, point: seq<string>)
    requires point != [] && AllNames(point) && HasPrefix(s, Absolute(point) + "/")
    ensures |Split(s)| > 1 && Split(s)[1] == point[0]
  {
    var text := Absolute(point);
    var rest := s[|text| + 1..];
    assert s == text + ("/" + rest);
    SplitAtSlash(text, rest);
    SplitJoined(point);
    assert point[0] in point;
  }

  // ---------------------------------------------------------------- step by step

  /** White space around a path is dropped, and a blank path is the root. */
  lemma {:induction false} TrimmedComponents(p: string)
    ensures Components(p) == Components(TrimSpace(p))
    ensures TrimSpace(p) == "" ==> Components(p) == []
  {
    TrimSpaceDecides(p);
    assert Split("") == [""] && [""][1..] == [];
  }

  /** What a path is, one part after the other: an empty part and `.` change nothing, `..` takes the last
      name away, and any other part is added. */
  lemma {:induction false} ComponentsStep(p: string, part: string)
    requires !EndsInSpace(p) && !EndsInSpace(part) && NoSlash(part)
    ensures var before, after := Components(p), Components(p + "/" + part);
            && (part == "" || part == "." ==> after == before)
            && (part == ".." && before == [] ==> after == [])
            && (part == ".." && before != [] ==> after == before[..|before| - 1])
            && (part != "" && part != "." && part != ".." ==> after == before + [part])
  {
    JoinComponents(p, part);
    TrimmedFromLeft(p);
    TrimRightStops(part);
    SplitName(part);
    assert [part][1..] == [];
  }

  /** And for a path of one part. */
  lemma {:induction false} ComponentsOfPart(part: string)
    requires TrimSpace(part) == part && NoSlash(part)
    ensures Components(part) == if part == "" || part == "." || part == ".." then [] else [part]
  {
    SplitName(part);
    assert [part][1..] == [] && [] + [part] == [part];
    assert Resolve([], [part]) == Push([], part);
  }

  /** The text of the components: each name behind a slash. */
  lemma {:induction false} AbsoluteStep(d: seq<string>, name: string)
    ensures Absolute([]) == "/" && Absolute([name]) == "/" + name
    ensures d != [] ==> Absolute(d + [name]) == Absolute(d) + "/" + name
  {
    ChildText(d, name);
    ChildText([], name);
    assert [] + [name] == [name] && "" + "/" + name == "/" + name;
  }
}
