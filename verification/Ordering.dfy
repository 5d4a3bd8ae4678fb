/** The order of strings, and sorting by a comparison (sort.Strings, sort.Slice,
    sort.SliceStable), as a stable insertion sort. */
module Ordering {
  /** strings.Compare: byte-wise, a proper prefix first. */
  function Compare(a: string, b: string): int
  {
    if a == "" then (if b == "" then 0 else -1)
    else if b == "" then 1
    else if a[0] < b[0] then -1
    else if a[0] > b[0] then 1
    else Compare(a[1..], b[1..])
  }

  predicate StringLess(a: string, b: string) {
    Compare(a, b) < 0
  }

  lemma {:induction false} CompareFlips(a: string, b: string)
    ensures Compare(a, b) == -Compare(b, a)
    ensures Compare(a, b) == 0 <==> a == b
    decreases |a|
  {
    if a != "" && b != "" && a[0] == b[0] {
      CompareFlips(a[1..], b[1..]);
      assert a == [a[0]] + a[1..] && b == [b[0]] + b[1..];
    }
  }

  lemma {:induction false} CompareTransitive(a: string, b: string, c: string)
    requires Compare(a, b) <= 0 && Compare(b, c) <= 0
    ensures Compare(a, c) <= 0
    ensures Compare(a, b) < 0 || Compare(b, c) < 0 ==> Compare(a, c) < 0
    decreases |a|
  {
    if a != "" && b != "" && c != "" && a[0] == b[0] == c[0] {
      CompareTransitive(a[1..], b[1..], c[1..]);
    }
  }

  /** They agree on `k` bytes; then `a` ends or has the smaller byte. */
  predicate DiffersAt(a: string, b: string, k: nat) {
    k <= |a| && k < |b| && a[..k] == b[..k] && (k == |a| || a[k] < b[k])
  }

  /** At the first byte where they differ `a` has the smaller one, or `a` ends there. */
  ghost predicate FirstByBytes(a: string, b: string) {
    exists k: nat :: DiffersAt(a, b, k)
  }

  lemma {:induction false} SharesFirst(a: string, b: string, k: nat)
    requires DiffersAt(a, b, k) && k > 0
    ensures a != "" && a[0] == b[0]
  {
    assert a[..k][0] == b[..k][0];
  }

  lemma {:induction false} LaterByte(a: string, b: string, k: nat)
    requires a != "" && b != "" && a[0] == b[0]
    ensures DiffersAt(a[1..], b[1..], k) <==> DiffersAt(a, b, k + 1)
  {
    if k <= |a[1..]| && k <= |b[1..]| {
      assert a[..k + 1] == [a[0]] + a[1..][..k] && b[..k + 1] == [b[0]] + b[1..][..k];
      assert a[..k + 1][1..] == a[1..][..k] && b[..k + 1][1..] == b[1..][..k];
    }
  }

  /** The order of strings is by bytes, a proper prefix first. */
  lemma {:induction false} StringLessIff(a: string, b: string)
    ensures StringLess(a, b) <==> FirstByBytes(a, b)
    decreases |a|
  {
    if StringLess(a, b) {
      if a == "" || a[0] != b[0] {
        assert DiffersAt(a, b, 0);
      } else {
        StringLessIff(a[1..], b[1..]);
        var k: nat :| DiffersAt(a[1..], b[1..], k);
        LaterByte(a, b, k);
      }
    } else if k: nat :| DiffersAt(a, b, k) {
      if k > 0 {
        SharesFirst(a, b, k);
        LaterByte(a, b, k - 1);
        StringLessIff(a[1..], b[1..]);
      }
    }
  }

  // ---------------------------------------------------------------- sorting

  /** `less` orders the elements of `s`: never both ways, and "not after" is transitive. */
  ghost predicate Orders<T(!new)>(less: (T, T) -> bool, s: seq<T>)
  {
    && (forall a, b :: a in s && b in s && less(a, b) ==> !less(b, a))
    && (forall a, b, c :: a in s && b in s && c in s && !less(b, a) && !less(c, b) ==> !less(c, a))
  }

  predicate Ordered<T>(less: (T, T) -> bool, s: seq<T>)
  {
    forall i, j :: 0 <= i < j < |s| ==> !less(s[j], s[i])
  }

  function Insert<T>(less: (T, T) -> bool, s: seq<T>, x: T): (r: seq<T>)
    ensures multiset(r) == multiset(s) + multiset{x}
  {
    if s == [] then [x]
    else if less(x, s[0]) then [x] + s
    else
      assert s == [s[0]] + s[1..];
      [s[0]] + Insert(less, s[1..], x)
  }

  function Sort<T>(less: (T, T) -> bool, s: seq<T>): (r: seq<T>)
    ensures multiset(r) == multiset(s)
  {
    if s == [] then []
    else
      assert s == s[..|s| - 1] + [s[|s| - 1]];
      Insert(less, Sort(less, s[..|s| - 1]), s[|s| - 1])
  }

  lemma {:induction false} SameMembers<T>(a: seq<T>, b: seq<T>)
    requires multiset(a) == multiset(b)
    ensures forall x :: x in a <==> x in b
    ensures |a| == |b|
  {
    assert forall x :: x in a <==> x in multiset(a);
    assert forall x :: x in b <==> x in multiset(b);
    assert |a| == |multiset(a)| && |b| == |multiset(b)|;
  }

  lemma {:induction false} OrderedCons<T>(less: (T, T) -> bool, x: T, s: seq<T>)
    requires Ordered(less, s) && forall y :: y in s ==> !less(y, x)
    ensures Ordered(less, [x] + s)
  {
    var r := [x] + s;
    forall i, j | 0 <= i < j < |r|
      ensures !less(r[j], r[i])
    {
      assert r[j] == s[j - 1] && s[j - 1] in s;
      assert i > 0 ==> r[i] == s[i - 1];
    }
  }

  lemma {:induction false} InsertOrders<T(!new)>(less: (T, T) -> bool, s: seq<T>, x: T)
    requires Ordered(less, s) && Orders(less, s + [x])
    ensures Ordered(less, Insert(less, s, x))
    decreases |s|
  {
    assert forall y :: y in s + [x] <==> y in s || y == x;
    if s == [] {
    } else if less(x, s[0]) {
      forall y | y in s
        ensures !less(y, x)
      {
        var j :| 0 <= j < |s| && s[j] == y;
        assert j > 0 ==> !less(s[j], s[0]);
      }
      OrderedCons(less, x, s);
    } else {
      var rest := Insert(less, s[1..], x);
      InsertOrders(less, s[1..], x);
      SameMembers(rest, s[1..] + [x]);
      forall y | y in rest
        ensures !less(y, s[0])
      {
        assert y in s[1..] + [x];
        if y != x {
          var j :| 1 <= j < |s| && s[j] == y;
        }
      }
      OrderedCons(less, s[0], rest);
    }
  }

  lemma {:induction false} SortOrders<T(!new)>(less: (T, T) -> bool, s: seq<T>)
    requires Orders(less, s)
    ensures Ordered(less, Sort(less, s))
    decreases |s|
  {
    if s != [] {
      var init, x := s[..|s| - 1], s[|s| - 1];
      assert s == init + [x];
      SortOrders(less, init);
      var sorted := Sort(less, init);
      SameMembers(sorted, init);
      assert forall y :: y in sorted + [x] ==> y in s;
      InsertOrders(less, sorted, x);
    }
  }

  lemma {:induction false} BagOfRest<T>(s: seq<T>)
    requires s != []
    ensures s == [s[0]] + s[1..] && multiset(s[1..]) == multiset(s) - multiset{s[0]}
  {
    assert s == [s[0]] + s[1..];
  }

  /** Nothing in an ordered sequence comes before its first element. */
  lemma {:induction false} FirstIsLeast<T>(less: (T, T) -> bool, s: seq<T>, x: T)
    requires Ordered(less, s) && x in s
    ensures s[0] == x || !less(x, s[0])
  {
    var j :| 0 <= j < |s| && s[j] == x;
  }

  predicate Total<T(==)>(less: (T, T) -> bool, s: seq<T>)
  {
    forall i, j :: 0 <= i < |s| && 0 <= j < |s| && !less(s[i], s[j]) && !less(s[j], s[i]) ==> s[i] == s[j]
  }

  lemma {:induction false} SameFirst<T>(less: (T, T) -> bool, a: seq<T>, b: seq<T>)
    requires a != [] && multiset(a) == multiset(b) && Ordered(less, a) && Ordered(less, b) && Total(less, a)
    ensures b != [] && a[0] == b[0]
  {
    SameMembers(a, b);
    assert a[0] in b && b[0] in a;
    FirstIsLeast(less, a, b[0]);
    FirstIsLeast(less, b, a[0]);
    var i :| 0 <= i < |a| && a[i] == b[0];
  }

  /** Two ordered arrangements of the same elements are equal when the order is total. */
  lemma {:induction false} OrderedIsUnique<T>(less: (T, T) -> bool, a: seq<T>, b: seq<T>)
    requires multiset(a) == multiset(b) && Ordered(less, a) && Ordered(less, b) && Total(less, a)
    ensures a == b
    decreases |a|
  {
    if a == [] {
      assert |b| == |multiset(b)|;
    } else {
      SameFirst(less, a, b);
      BagOfRest(a);
      BagOfRest(b);
      OrderedIsUnique(less, a[1..], b[1..]);
    }
  }

  lemma {:induction false} StringsOrder(s: seq<string>)
    ensures Orders(StringLess, s)
    ensures Total(StringLess, s)
  {
    forall a, b
      ensures StringLess(a, b) ==> !StringLess(b, a)
      ensures !StringLess(a, b) && !StringLess(b, a) ==> a == b
    {
      CompareFlips(a, b);
    }
    forall a, b, c | !StringLess(b, a) && !StringLess(c, b)
      ensures !StringLess(c, a)
    {
      CompareFlips(a, b);
      CompareFlips(b, c);
      CompareFlips(a, c);
      CompareTransitive(a, b, c);
    }
  }
}
