/** Result, Option and lists without repeats, shared by every module of the model. */
module Prelude {
  datatype Option<+T> = None | Some(value: T)

  /** A Go pair `(value, error)`: either the value or the error. */
  datatype Result<+T, +E> = Ok(value: T) | Err(error: E) {

    predicate IsFailure() {
      Err?
    }

    function PropagateFailure<U>(): (r: Result<U, E>)
      requires Err?
    {
      Err(error)
    }

    function Extract(): T
      requires Ok?
    {
      value
    }
  }

  lemma {:induction false} ConcatAssociates<T>(a: seq<T>, b: seq<T>, c: seq<T>)
    ensures (a + b) + c == a + (b + c)
  {
  }

  lemma {:induction false} MoveHead<T>(done: seq<T>, s: seq<T>)
    requires s != []
    ensures done + [s[0]] + s[1..] == done + s
  {
  }

  lemma {:induction false} SplitAround<T>(a: seq<T>, s: seq<T>, n: nat)
    requires n < |s|
    ensures a + s == a + s[..n] + [s[n]] + s[n + 1..]
  {
  }

  lemma {:induction false} HasMember<T>(s: seq<T>)
    ensures s != [] ==> exists x :: x in s
  {
    if s != [] {
      assert s[0] in s;
    }
  }

  predicate NoRepeats<T(==)>(s: seq<T>)
  {
    forall i, j :: 0 <= i < j < |s| ==> s[i] != s[j]
  }

  lemma {:induction false} SameBagNoRepeats<T>(a: seq<T>, b: seq<T>)
    requires multiset(a) == multiset(b) && NoRepeats(a)
    ensures NoRepeats(b)
  {
    forall i, j | 0 <= i < j < |b|
      ensures b[i] != b[j]
    {
      if b[i] == b[j] {
        assert b == b[..j] + b[j..];
        assert b[..j][i] == b[i] && b[j..][0] == b[i];
        assert b[i] in b[..j] && b[i] in b[j..];
        assert multiset(b)[b[i]] >= 2;
        NoRepeatsBag(a, b[i]);
      }
    }
  }

  lemma {:induction false} NoRepeatsBag<T>(a: seq<T>, x: T)
    requires NoRepeats(a)
    ensures multiset(a)[x] <= 1
    decreases |a|
  {
    if a != [] {
      assert a == [a[0]] + a[1..];
      NoRepeatsBag(a[1..], x);
      if a[0] == x {
        assert x !in a[1..];
      }
    }
  }

  /** Lists without repeats that have the same elements have the same bag. */
  lemma {:induction false} SameElementsSameBag<T>(a: seq<T>, b: seq<T>)
    requires NoRepeats(a) && NoRepeats(b) && forall x :: x in a <==> x in b
    ensures multiset(a) == multiset(b)
  {
    forall x
      ensures multiset(a)[x] == multiset(b)[x]
    {
      NoRepeatsBag(a, x);
      NoRepeatsBag(b, x);
      assert x in a <==> x in multiset(a);
      assert x in b <==> x in multiset(b);
    }
  }

  /** The elements of a set, in whatever order the map yields them. */
  method Elements<T(==)>(s: set<T>) returns (list: seq<T>)
    ensures NoRepeats(list) && forall x :: x in list <==> x in s
  {
    list := [];
    var remaining := s;
    while remaining != {}
      invariant remaining <= s && NoRepeats(list)
      invariant forall x :: x in list <==> x in s - remaining
      decreases |remaining|
    {
      var x :| x in remaining;
      assert x !in list;
      list := list + [x];
      remaining := remaining - {x};
    }
  }
}
