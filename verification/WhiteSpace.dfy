/** strings.TrimSpace on bytes: the white space of Unicode, each character in its UTF-8 encoding. */
module WhiteSpace {
  /** The white space of ASCII. */
  predicate IsSpace(c: char) {
    c == ' ' || '\t' <= c <= '\r'
  }

  /** U+0085 and U+00A0. */
  predicate IsSpacePair(c: char, d: char) {
    c == '\U{00C2}' && (d == '\U{0085}' || d == '\U{00A0}')
  }

  /** U+1680, U+2000 to U+200A, U+2028, U+2029, U+202F, U+205F and U+3000. */
  predicate IsSpaceTriple(c: char, d: char, e: char)
  {
    || (c == '\U{00E1}' && d == '\U{009A}' && e == '\U{0080}')
    || (c == '\U{00E2}' && d == '\U{0080}' && '\U{0080}' <= e <= '\U{008A}')
    || (c == '\U{00E2}' && d == '\U{0080}' && (e == '\U{00A8}' || e == '\U{00A9}' || e == '\U{00AF}'))
    || (c == '\U{00E2}' && d == '\U{0081}' && e == '\U{009F}')
    || (c == '\U{00E3}' && d == '\U{0080}' && e == '\U{0080}')
  }

  /** The length of the white-space character at the front; 0 if there is none. */
  function SpaceAtFront(s: string): (n: nat)
    ensures n <= |s|
  {
    if |s| >= 1 && IsSpace(s[0]) then 1
    else if |s| >= 2 && IsSpacePair(s[0], s[1]) then 2
    else if |s| >= 3 && IsSpaceTriple(s[0], s[1], s[2]) then 3
    else 0
  }

  /** The length of the white-space character at the back; 0 if there is none. */
  function SpaceAtBack(s: string): (n: nat)
    ensures n <= |s|
  {
    var k := |s|;
    if k >= 1 && IsSpace(s[k - 1]) then 1
    else if k >= 2 && IsSpacePair(s[k - 2], s[k - 1]) then 2
    else if k >= 3 && IsSpaceTriple(s[k - 3], s[k - 2], s[k - 1]) then 3
    else 0
  }

  predicate EndsInSpace(s: string) {
    SpaceAtBack(s) > 0
  }

  function TrimLeft(s: string): string
  {
    if SpaceAtFront(s) > 0 then TrimLeft(s[SpaceAtFront(s)..]) else s
  }

  function TrimRight(s: string): string
  {
    if SpaceAtBack(s) > 0 then TrimRight(s[..|s| - SpaceAtBack(s)]) else s
  }

  /** strings.TrimSpace */
  function TrimSpace(s: string): string
  {
    TrimRight(TrimLeft(s))
  }

  /** A byte that belongs to no white-space character: printable ASCII. */
  predicate Plain(c: char) {
    '!' <= c <= '~'
  }

  // ---------------------------------------------------------------- one character

  /** No white-space character is the end of another one, nor its front. */
  lemma {:induction false} SpaceCharStands(s: string)
    ensures SpaceAtFront(s) == |s| <==> SpaceAtBack(s) == |s|
  {
  }

  lemma {:induction false} SpaceCharFront(s: string)
    ensures SpaceAtFront(s[..SpaceAtFront(s)]) == SpaceAtFront(s)
  {
  }

  lemma {:induction false} SpaceCharBack(s: string)
    ensures SpaceAtBack(s[|s| - SpaceAtBack(s)..]) == SpaceAtBack(s)
  {
  }

  lemma {:induction false} FrontOfLonger(a: string, b: string)
    requires SpaceAtFront(a) > 0
    ensures SpaceAtFront(a + b) == SpaceAtFront(a)
  {
  }

  lemma {:induction false} BackOfLonger(a: string, b: string)
    requires SpaceAtBack(b) > 0
    ensures SpaceAtBack(a + b) == SpaceAtBack(b)
  {
  }

  /** A plain byte cuts white space off from what is behind it. */
  lemma {:induction false} FrontUpToPlain(a: string, c: char, b: string)
    requires Plain(c)
    ensures SpaceAtFront(a + [c] + b) == SpaceAtFront(a)
  {
  }

  lemma {:induction false} BackUpToPlain(a: string, c: char, b: string)
    requires Plain(c)
    ensures SpaceAtBack(a + [c] + b) == SpaceAtBack(b)
  {
  }

  // ---------------------------------------------------------------- trimming

  lemma {:induction false} TrimLeftUpToPlain(a: string, c: char, b: string)
    requires Plain(c)
    ensures TrimLeft(a + [c] + b) == TrimLeft(a) + [c] + b
    decreases |a|
  {
    FrontUpToPlain(a, c, b);
    var n := SpaceAtFront(a);
    if n > 0 {
      assert (a + [c] + b)[n..] == a[n..] + [c] + b;
      TrimLeftUpToPlain(a[n..], c, b);
    }
  }

  lemma {:induction false} TrimRightUpToPlain(a: string, c: char, b: string)
    requires Plain(c)
    ensures TrimRight(a + [c] + b) == a + [c] + TrimRight(b)
    decreases |b|
  {
    BackUpToPlain(a, c, b);
    var n, s := SpaceAtBack(b), a + [c] + b;
    if n > 0 {
      assert s[..|s| - n] == a + [c] + b[..|b| - n];
      TrimRightUpToPlain(a, c, b[..|b| - n]);
    }
  }

  /** Text with a plain byte in it is trimmed around that byte only. */
  lemma {:induction false} TrimAround(a: string, c: char, b: string)
    requires Plain(c)
    ensures TrimSpace(a + [c] + b) == TrimLeft(a) + [c] + TrimRight(b)
  {
    TrimLeftUpToPlain(a, c, b);
    TrimRightUpToPlain(TrimLeft(a), c, b);
  }

  lemma {:induction false} KeepsText(s: string, k: nat)
    requires k < |s| && Plain(s[k])
    ensures TrimSpace(s) != ""
  {
    assert s == s[..k] + [s[k]] + s[k + 1..];
    TrimAround(s[..k], s[k], s[k + 1..]);
  }

  lemma {:induction false} TrimRightStops(s: string)
    requires !EndsInSpace(s)
    ensures TrimRight(s) == s
  {
  }

  lemma {:induction false} TrimRightDecides(s: string)
    ensures |TrimRight(s)| <= |s|
    ensures EndsInSpace(s) ==> |TrimRight(s)| < |s|
    ensures !EndsInSpace(TrimRight(s))
    ensures TrimRight(s) == s[..|TrimRight(s)|]
    decreases |s|
  {
    if EndsInSpace(s) {
      TrimRightDecides(s[..|s| - SpaceAtBack(s)]);
    }
  }

  lemma {:induction false} TrimLeftDecides(s: string)
    ensures |TrimLeft(s)| <= |s|
    ensures SpaceAtFront(TrimLeft(s)) == 0
    ensures TrimLeft(s) == s[|s| - |TrimLeft(s)|..]
    decreases |s|
  {
    var n := SpaceAtFront(s);
    if n > 0 {
      TrimLeftDecides(s[n..]);
    }
  }

  lemma {:induction false} TrimRightThrough(a: string, b: string)
    requires TrimRight(b) == ""
    ensures TrimRight(a + b) == TrimRight(a)
    decreases |b|
  {
    if b == "" {
      assert a + b == a;
    } else {
      var n := SpaceAtBack(b);
      BackOfLonger(a, b);
      assert (a + b)[..|a + b| - n] == a + b[..|b| - n];
      TrimRightThrough(a, b[..|b| - n]);
    }
  }

  lemma {:induction false} TrimLeftThrough(a: string, b: string)
    requires TrimLeft(a) == ""
    ensures TrimLeft(a + b) == TrimLeft(b)
    decreases |a|
  {
    if a == "" {
      assert a + b == b;
    } else {
      var n := SpaceAtFront(a);
      FrontOfLonger(a, b);
      assert (a + b)[n..] == a[n..] + b;
      TrimLeftThrough(a[n..], b);
    }
  }

  lemma {:induction false} BlankFromLeft(s: string)
    requires TrimLeft(s) == ""
    ensures TrimRight(s) == ""
    decreases |s|
  {
    if s != "" {
      var n := SpaceAtFront(s);
      BlankFromLeft(s[n..]);
      SpaceCharFront(s);
      SpaceCharStands(s[..n]);
      assert s == s[..n] + s[n..] && s[..n][..0] == "";
      TrimRightThrough(s[..n], s[n..]);
    }
  }

  lemma {:induction false} BlankFromRight(s: string)
    requires TrimRight(s) == ""
    ensures TrimLeft(s) == ""
    decreases |s|
  {
    if s != "" {
      var n := |s| - SpaceAtBack(s);
      BlankFromRight(s[..n]);
      SpaceCharBack(s);
      SpaceCharStands(s[n..]);
      assert s == s[..n] + s[n..] && s[n..][|s| - n..] == "";
      TrimLeftThrough(s[..n], s[n..]);
    }
  }

  lemma {:induction false} BlankIff(s: string)
    ensures TrimSpace(s) == "" <==> TrimRight(s) == ""
    ensures s != "" && !EndsInSpace(s) ==> TrimSpace(s) != ""
  {
    var t := TrimLeft(s);
    TrimLeftDecides(s);
    if TrimRight(t) == "" {
      BlankFromRight(t);
      BlankFromLeft(s);
    }
    if TrimRight(s) == "" {
      BlankFromRight(s);
    }
  }

  /** What is left does not begin or end in white space; trimming again changes nothing. */
  lemma {:induction false} TrimSpaceDecides(s: string)
    ensures SpaceAtFront(TrimSpace(s)) == 0 && !EndsInSpace(TrimSpace(s))
    ensures TrimSpace(TrimSpace(s)) == TrimSpace(s)
  {
    var t := TrimLeft(s);
    TrimLeftDecides(s);
    TrimRightDecides(t);
    var u := TrimRight(t);
    assert t == u + t[|u|..];
    if SpaceAtFront(u) > 0 {
      FrontOfLonger(u, t[|u|..]);
    }
  }

  lemma {:induction false} SuffixEnds(a: string, b: string)
    requires !EndsInSpace(a + b)
    ensures !EndsInSpace(b)
  {
    if EndsInSpace(b) {
      BackOfLonger(a, b);
    }
  }

  // ---------------------------------------------------------------- no white space at all

  /** No white-space character begins anywhere in the text. */
  predicate SpaceFree(s: string) {
    forall k :: 0 <= k <= |s| ==> SpaceAtFront(s[k..]) == 0
  }

  lemma {:induction false} SpaceFreeParts(a: string, b: string)
    requires SpaceFree(a + b)
    ensures SpaceFree(a) && SpaceFree(b)
  {
    forall k | 0 <= k <= |a|
      ensures SpaceAtFront(a[k..]) == 0
    {
      assert (a + b)[k..] == a[k..] + b;
      if SpaceAtFront(a[k..]) > 0 {
        FrontOfLonger(a[k..], b);
      }
    }
    forall k | 0 <= k <= |b|
      ensures SpaceAtFront(b[k..]) == 0
    {
      assert (a + b)[|a| + k..] == b[k..];
    }
  }

  lemma {:induction false} SpaceFreeAround(a: string, c: char, b: string)
    requires SpaceFree(a) && Plain(c) && SpaceFree(b)
    ensures SpaceFree(a + [c] + b)
  {
    var s := a + [c] + b;
    forall k | 0 <= k <= |s|
      ensures SpaceAtFront(s[k..]) == 0
    {
      if k <= |a| {
        assert s[k..] == a[k..] + [c] + b;
        FrontUpToPlain(a[k..], c, b);
      } else {
        assert s[k..] == b[k - |a| - 1..];
      }
    }
  }

  lemma {:induction false} SpaceFreeEnds(s: string)
    requires SpaceFree(s)
    ensures !EndsInSpace(s) && SpaceAtFront(s) == 0 && TrimSpace(s) == s
  {
    assert s[0..] == s;
    var n := SpaceAtBack(s);
    if n > 0 {
      SpaceCharBack(s);
      SpaceCharStands(s[|s| - n..]);
    }
  }
}
