/** The white space that is trimmed, by its characters: the byte sequences of WhiteSpace are the
    encodings of Unicode's white space. */
module SpaceEncoding {
  import opened WhiteSpace
  import opened OutputLimit

  /** The characters of Unicode that are white space. */
  predicate IsWhite(v: int) {
    || 0x09 <= v <= 0x0D || v == 0x20 || v == 0x85 || v == 0xA0 || v == 0x1680
    || 0x2000 <= v <= 0x200A || v == 0x2028 || v == 0x2029 || v == 0x202F || v == 0x205F || v == 0x3000
  }

  lemma {:induction false} WhiteAtFront(v: int, after: string)
    requires IsWhite(v) && IsScalar(v)
    ensures SpaceAtFront(Encoded(v) + after) == |Encoded(v)|
  {
    var s := Encoded(v) + after;
    assert forall k :: 0 <= k < |Encoded(v)| ==> s[k] == Encoded(v)[k];
  }

  lemma {:induction false} FrontIsWhite(s: string) returns (v: int)
    requires SpaceAtFront(s) > 0
    ensures IsWhite(v) && IsScalar(v) && s[..SpaceAtFront(s)] == Encoded(v)
  {
    var n := SpaceAtFront(s);
    if n == 1 {
      v := s[0] as int;
    } else if n == 2 {
      v := if s[1] == '\U{0085}' then 0x85 else 0xA0;
    } else if s[0] == '\U{00E1}' {
      v := 0x1680;
    } else if s[0] == '\U{00E3}' {
      v := 0x3000;
    } else if s[1] == '\U{0081}' {
      v := 0x205F;
    } else {
      v := 0x2000 + (s[2] as int - 0x80);
    }
    assert s[..n] == Encoded(v);
  }

  /** A text begins with white space exactly if it begins with the encoding of such a character. */
  lemma {:induction false} SpaceAtFrontIff(s: string, n: nat)
    requires n > 0
    ensures SpaceAtFront(s) == n <==> n <= |s| && exists v :: IsWhite(v) && IsScalar(v) && Encoded(v) == s[..n]
  {
    if SpaceAtFront(s) == n {
      var v := FrontIsWhite(s);
    }
    if n <= |s| {
      forall v | IsWhite(v) && IsScalar(v) && Encoded(v) == s[..n]
        ensures SpaceAtFront(s) == n
      {
        WhiteAtFront(v, s[n..]);
        assert s == Encoded(v) + s[n..];
      }
    }
  }
}
