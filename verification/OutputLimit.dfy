/** Cutting command output to a byte limit without breaking a UTF-8 sequence. */
module OutputLimit {
  const EXIT_GENERAL: int := 1

  datatype ExecOutput = ExecOutput(stdout: string, stderr: string, code: int)

  // ---------------------------------------------------------------- UTF-8, section 4 of RFC 3629

  predicate Within(c: char, low: int, high: int) {
    low <= c as int <= high
  }

  predicate IsTail(c: char) {
    Within(c, 0x80, 0xBF)
  }

  /** The second byte allowed after a given first byte of a three-byte sequence. */
  predicate SecondOfThree(first: char, second: char) {
    if first as int == 0xE0 then Within(second, 0xA0, 0xBF)
    else if first as int == 0xED then Within(second, 0x80, 0x9F)
    else IsTail(second)
  }

  predicate SecondOfFour(first: char, second: char) {
    if first as int == 0xF0 then Within(second, 0x90, 0xBF)
    else if first as int == 0xF4 then Within(second, 0x80, 0x8F)
    else IsTail(second)
  }

  /** The length of the sequence at the front of `s`; 0 if no sequence starts there. */
  function SequenceLength(s: string): (n: nat)
    ensures n <= 4 && n <= |s|
  {
    if s == "" then 0
    else if Within(s[0], 0x00, 0x7F) then 1
    else if Within(s[0], 0xC2, 0xDF) && |s| >= 2 && IsTail(s[1]) then 2
    else if Within(s[0], 0xE0, 0xEF) && |s| >= 3 && SecondOfThree(s[0], s[1]) && IsTail(s[2]) then 3
    else if Within(s[0], 0xF0, 0xF4) && |s| >= 4 && SecondOfFour(s[0], s[1]) && IsTail(s[2]) && IsTail(s[3]) then 4
    else 0
  }

  /** utf8.ValidString */
  predicate ValidUtf8(s: string)
    decreases |s|
  {
    s == "" || (SequenceLength(s) > 0 && ValidUtf8(s[SequenceLength(s)..]))
  }

  lemma {:induction false} SequenceStands(a: string, b: string)
    requires SequenceLength(a) > 0
    ensures SequenceLength(a + b) == SequenceLength(a)
  {
  }

  lemma {:induction false} ValidThenRest(a: string, b: string)
    requires ValidUtf8(a)
    ensures ValidUtf8(a + b) <==> ValidUtf8(b)
    decreases |a|
  {
    if a == "" {
      assert a + b == b;
    } else {
      var n := SequenceLength(a);
      SequenceStands(a, b);
      assert (a + b)[n..] == a[n..] + b;
      ValidThenRest(a[n..], b);
    }
  }

  // ---------------------------------------------------------------- the characters behind the bytes

  /** The Unicode scalar values. */
  predicate IsScalar(v: int) {
    0 <= v <= 0x10FFFF && !(0xD800 <= v <= 0xDFFF)
  }

  function Byte(v: int): char
    requires 0 <= v <= 0xFF
  {
    v as char
  }

  function Tail(v: int): char {
    Byte(0x80 + v % 0x40)
  }

  /** The encoding of one character: its bits, six to each byte but the first. */
  function Encoded(v: int): (s: string)
    requires IsScalar(v)
    ensures s != ""
  {
    if v < 0x80 then [Byte(v)]
    else if v < 0x800 then [Byte(0xC0 + v / 0x40), Tail(v)]
    else if v < 0x1_0000 then [Byte(0xE0 + v / 0x1000), Tail(v / 0x40), Tail(v)]
    else [Byte(0xF0 + v / 0x4_0000), Tail(v / 0x1000), Tail(v / 0x40), Tail(v)]
  }

  function EncodedAll(vs: seq<int>): string
    requires forall v :: v in vs ==> IsScalar(v)
  {
    if vs == [] then "" else Encoded(vs[0]) + EncodedAll(vs[1..])
  }

  lemma {:induction false} EncodedIsSequence(v: int)
    requires IsScalar(v)
    ensures SequenceLength(Encoded(v)) == |Encoded(v)|
  {
  }

  /** The bits of a sequence. */
  function Decoded(s: string): int
    requires SequenceLength(s) > 0
  {
    var n := SequenceLength(s);
    if n == 1 then s[0] as int
    else if n == 2 then (s[0] as int - 0xC0) * 0x40 + (s[1] as int - 0x80)
    else if n == 3 then ((s[0] as int - 0xE0) * 0x40 + (s[1] as int - 0x80)) * 0x40 + (s[2] as int - 0x80)
    else
      (((s[0] as int - 0xF0) * 0x40 + (s[1] as int - 0x80)) * 0x40 + (s[2] as int - 0x80)) * 0x40 + (s[3] as int - 0x80)
  }

  lemma {:induction false} SixBits(high: nat, low: nat)
    requires low < 0x40
    ensures (high * 0x40 + low) / 0x40 == high && (high * 0x40 + low) % 0x40 == low
  {
  }

  lemma {:induction false} TwiceSixBits(v: nat)
    ensures v / 0x40 / 0x40 == v / 0x1000 && v / 0x1000 / 0x40 == v / 0x4_0000
  {
  }

  lemma {:induction false} TwoBytes(a: char, b: char)
    requires Within(a, 0xC2, 0xDF) && IsTail(b)
    ensures var v := (a as int - 0xC0) * 0x40 + (b as int - 0x80); IsScalar(v) && Encoded(v) == [a, b]
  {
    SixBits(a as int - 0xC0, b as int - 0x80);
  }

  lemma {:induction false} ThreeBytes(a: char, b: char, c: char)
    requires Within(a, 0xE0, 0xEF) && SecondOfThree(a, b) && IsTail(c)
    ensures var v := ((a as int - 0xE0) * 0x40 + (b as int - 0x80)) * 0x40 + (c as int - 0x80);
            IsScalar(v) && Encoded(v) == [a, b, c]
  {
    var high, mid, low := a as int - 0xE0, b as int - 0x80, c as int - 0x80;
    var v := (high * 0x40 + mid) * 0x40 + low;
    SixBits(high, mid);
    SixBits(high * 0x40 + mid, low);
    TwiceSixBits(v);
    assert 0x800 <= v < 0x1_0000 && !(0xD800 <= v <= 0xDFFF);
  }

  lemma {:induction false} FourBytes(a: char, b: char, c: char, d: char)
    requires Within(a, 0xF0, 0xF4) && SecondOfFour(a, b) && IsTail(c) && IsTail(d)
    ensures var w := ((a as int - 0xF0) * 0x40 + (b as int - 0x80)) * 0x40 + (c as int - 0x80);
            var v := w * 0x40 + (d as int - 0x80);
            IsScalar(v) && Encoded(v) == [a, b, c, d]
  {
    var top, high, mid, low := a as int - 0xF0, b as int - 0x80, c as int - 0x80, d as int - 0x80;
    var w := (top * 0x40 + high) * 0x40 + mid;
    var v := w * 0x40 + low;
    SixBits(top, high);
    SixBits(top * 0x40 + high, mid);
    SixBits(w, low);
    TwiceSixBits(v);
    TwiceSixBits(w);
    assert 0x1_0000 <= v <= 0x10FFFF;
  }

  lemma {:induction false} DecodedIsScalar(s: string)
    requires SequenceLength(s) > 0
    ensures IsScalar(Decoded(s)) && Encoded(Decoded(s)) == s[..SequenceLength(s)]
  {
    var n := SequenceLength(s);
    if n == 2 {
      TwoBytes(s[0], s[1]);
      assert s[..2] == [s[0], s[1]];
    } else if n == 3 {
      ThreeBytes(s[0], s[1], s[2]);
      assert s[..3] == [s[0], s[1], s[2]];
    } else if n == 4 {
      FourBytes(s[0], s[1], s[2], s[3]);
      assert s[..4] == [s[0], s[1], s[2], s[3]];
    }
  }

  lemma {:induction false} EncodedAllIsValid(vs: seq<int>)
    requires forall v :: v in vs ==> IsScalar(v)
    ensures ValidUtf8(EncodedAll(vs))
    decreases |vs|
  {
    if vs != [] {
      var first, rest := Encoded(vs[0]), EncodedAll(vs[1..]);
      EncodedIsSequence(vs[0]);
      SequenceStands(first, rest);
      assert (first + rest)[|first|..] == rest;
      EncodedAllIsValid(vs[1..]);
    }
  }

  lemma {:induction false} ValidIsEncoded(s: string) returns (vs: seq<int>)
    requires ValidUtf8(s)
    ensures (forall v :: v in vs ==> IsScalar(v)) && EncodedAll(vs) == s
    decreases |s|
  {
    vs := [];
    if s != "" {
      var n := SequenceLength(s);
      DecodedIsScalar(s);
      var rest := ValidIsEncoded(s[n..]);
      vs := [Decoded(s)] + rest;
      assert vs[1..] == rest && s == s[..n] + s[n..];
    }
  }

  /** The valid texts are the encodings of characters. */
  lemma {:induction false} ValidIffEncoded(s: string)
    ensures ValidUtf8(s) <==> exists vs: seq<int> :: (forall v :: v in vs ==> IsScalar(v)) && EncodedAll(vs) == s
  {
    if ValidUtf8(s) {
      var vs := ValidIsEncoded(s);
    }
    forall vs: seq<int> | (forall v :: v in vs ==> IsScalar(v)) && EncodedAll(vs) == s
      ensures ValidUtf8(s)
    {
      EncodedAllIsValid(vs);
    }
  }

  // ---------------------------------------------------------------- truncation

  /** The longest valid prefix of `s` with at most `limit` bytes. */
  function LongestValid(s: string, limit: nat): (r: string)
    requires limit <= |s|
    ensures |r| <= limit && r == s[..|r|] && ValidUtf8(r)
    ensures forall k :: |r| < k <= limit ==> !ValidUtf8(s[..k])
    decreases limit
  {
    if ValidUtf8(s[..limit]) then s[..limit] else LongestValid(s, limit - 1)
  }

  /** A value within the limit is returned as it is, valid or not. */
  function Truncated(value: string, limit: int): string
  {
    if limit <= 0 || value == "" then ""
    else if |value| <= limit then value
    else LongestValid(value, limit)
  }

  method TruncateUtf8String(value: string, limit: int) returns (r: string)
    ensures r == Truncated(value, limit)
  {
    if limit <= 0 || value == "" {
      return "";
    }
    if |value| <= limit {
      return value;
    }
    var truncated := value[..limit];
    while !ValidUtf8(truncated) && |truncated| > 0
      invariant |truncated| <= limit && truncated == value[..|truncated|]
      invariant LongestValid(value, limit) == LongestValid(value, |truncated|)
    {
      assert truncated[..|truncated| - 1] == value[..|truncated| - 1];
      truncated := truncated[..|truncated| - 1];
    }
    return truncated;
  }

  /** Valid text is cut between two characters, and the next character would not have fitted. */
  lemma {:induction false} CutsBeforeACharacter(value: string, limit: nat)
    requires 0 < limit < |value| && ValidUtf8(value)
    ensures var r := Truncated(value, limit);
            r == value[..|r|] && ValidUtf8(r) && |r| <= limit < |r| + SequenceLength(value[|r|..])
  {
    var r := Truncated(value, limit);
    var rest := value[|r|..];
    assert value == r + rest;
    ValidThenRest(r, rest);
    var n := SequenceLength(rest);
    assert rest[..n] + rest[n..] == rest;
    FirstSequenceIsValid(rest);
    ValidThenRest(r, rest[..n]);
    assert r + rest[..n] == value[..|r| + n];
  }

  lemma {:induction false} FirstSequenceIsValid(s: string)
    requires SequenceLength(s) > 0
    ensures ValidUtf8(s[..SequenceLength(s)])
  {
    var n := SequenceLength(s);
    assert SequenceLength(s[..n]) == n;
    assert s[..n][n..] == "";
  }

  /** At most three bytes below the limit are lost on valid text. */
  lemma {:induction false} LosesAtMostThreeBytes(value: string, limit: nat)
    requires 0 < limit < |value| && ValidUtf8(value)
    ensures limit - 3 <= |Truncated(value, limit)| <= limit
  {
    CutsBeforeACharacter(value, limit);
  }

  // ---------------------------------------------------------------- whole outputs

  function OutputSize(out: ExecOutput): nat
  {
    |out.stdout| + |out.stderr|
  }

  /** The two streams together stay within a positive limit, standard output is served first,
      valid text stays valid, and an output that had to be cut never reports success. */
  function TruncatedOutput(out: ExecOutput, limit: int): (r: ExecOutput)
    ensures limit > 0 ==> OutputSize(r) <= limit
    ensures r != out ==> r.code != 0
    ensures |r.stdout| <= |out.stdout| && r.stdout == out.stdout[..|r.stdout|]
    ensures |r.stderr| <= |out.stderr| && r.stderr == out.stderr[..|r.stderr|]
    ensures ValidUtf8(out.stdout) ==> ValidUtf8(r.stdout)
    ensures ValidUtf8(out.stderr) ==> ValidUtf8(r.stderr)
  {
    if limit <= 0 || OutputSize(out) <= limit then out
    else
      var stdout := Truncated(out.stdout, limit);
      ExecOutput(stdout, Truncated(out.stderr, limit - |stdout|), if out.code == 0 then EXIT_GENERAL else out.code)
  }

  /** `r` is what fits of `s`: all of it, or the longest valid prefix within the room. */
  predicate Fills(s: string, room: int, r: string)
  {
    if |s| <= room then r == s
    else
      && |r| <= |s| && r == s[..|r|] && ValidUtf8(r) && (|r| <= room || r == "")
      && forall k :: |r| < k <= room && k <= |s| ==> !ValidUtf8(s[..k])
  }

  /** An output that exceeds a positive limit is cut: standard output gets all the room, standard error
      what is left of it, and success becomes failure. */
  lemma {:induction false} CutOutput(out: ExecOutput, limit: int)
    ensures var r := TruncatedOutput(out, limit);
            if limit <= 0 || |out.stdout| + |out.stderr| <= limit then r == out
            else
              && Fills(out.stdout, limit, r.stdout) && Fills(out.stderr, limit - |r.stdout|, r.stderr)
              && r.code == if out.code == 0 then 1 else out.code
  {
    assert ValidUtf8("");
  }

  method TruncateExecOutput(out: ExecOutput, limit: int) returns (r: ExecOutput)
    ensures r == TruncatedOutput(out, limit)
  {
    if limit <= 0 {
      return out;
    }
    if OutputSize(out) <= limit {
      return out;
    }
    var stdout := TruncateUtf8String(out.stdout, limit);
    var remaining := limit - |stdout|;
    if remaining < 0 {
      remaining := 0;
    }
    var stderr := TruncateUtf8String(out.stderr, remaining);
    return ExecOutput(stdout, stderr, if out.code == 0 then EXIT_GENERAL else out.code);
  }

  /** engine.enforceOutputLimit */
  function EnforcedLimit(out: ExecOutput, maxOutputBytes: int): (r: ExecOutput)
    ensures maxOutputBytes > 0 ==> OutputSize(r) <= maxOutputBytes
    ensures maxOutputBytes <= 0 || OutputSize(out) <= maxOutputBytes ==> r == out
  {
    if maxOutputBytes > 0 && OutputSize(out) > maxOutputBytes then TruncatedOutput(out, maxOutputBytes) else out
  }

  /** The text of both streams, on separate lines. */
  function Flattened(out: ExecOutput): string
  {
    if out.stdout == "" then out.stderr
    else if out.stderr == "" then out.stdout
    else if out.stdout[|out.stdout| - 1] == '\n' then out.stdout + out.stderr
    else out.stdout + "\n" + out.stderr
  }

  /** The size that the limit of a pipeline is compared with: both streams, and one newline if it has to
      separate them. */
  lemma {:induction false} FlattenedText(out: ExecOutput)
    ensures var s, a, b := Flattened(out), out.stdout, out.stderr;
            && |s| == |a| + |b| + (if a != "" && b != "" && a[|a| - 1] != '\n' then 1 else 0)
            && s[..|a|] == a && s[|s| - |b|..] == b
            && (|s| > |a| + |b| ==> s[|a|] == '\n')
  {
  }
}
