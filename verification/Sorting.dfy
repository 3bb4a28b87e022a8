/** A stable sort and the facts that make its result canonical. */
module Sorting {

  function Insert<T>(x: T, xs: seq<T>, leq: (T, T) -> bool): seq<T> {
    if xs == [] || leq(x, xs[0]) then [x] + xs else [xs[0]] + Insert(x, xs[1..], leq)
  }

  function Sort<T>(xs: seq<T>, leq: (T, T) -> bool): seq<T> {
    if xs == [] then [] else Insert(xs[0], Sort(xs[1..], leq), leq)
  }

  ghost function Elements<T>(xs: seq<T>): set<T> {
    set x | x in xs
  }

  /** `leq` compares the elements of `dom` like a total preorder. */
  ghost predicate Orders<T>(leq: (T, T) -> bool, dom: set<T>) {
    && (forall x, y :: x in dom && y in dom ==> leq(x, y) || leq(y, x))
    && (forall x, y, z :: x in dom && y in dom && z in dom && leq(x, y) && leq(y, z) ==> leq(x, z))
  }

  ghost predicate Sorted<T>(xs: seq<T>, leq: (T, T) -> bool) {
    forall i, j :: 0 <= i < j < |xs| ==> leq(xs[i], xs[j])
  }

  lemma RemoveOne<T>(xs: seq<T>, j: nat)
    requires j < |xs|
    ensures multiset(xs[..j] + xs[j + 1..]) == multiset(xs) - multiset{xs[j]}
  {
    assert xs == xs[..j] + [xs[j]] + xs[j + 1..];
  }

  lemma {:induction false} InsertPermutes<T>(x: T, xs: seq<T>, leq: (T, T) -> bool)
    ensures multiset(Insert(x, xs, leq)) == multiset([x] + xs)
  {
    if xs != [] && !leq(x, xs[0]) {
      InsertPermutes(x, xs[1..], leq);
      assert xs == [xs[0]] + xs[1..];
    }
  }

  lemma {:induction false} SortPermutes<T>(xs: seq<T>, leq: (T, T) -> bool)
    ensures multiset(Sort(xs, leq)) == multiset(xs)
    ensures |Sort(xs, leq)| == |xs|
  {
    if xs != [] {
      SortPermutes(xs[1..], leq);
      InsertPermutes(xs[0], Sort(xs[1..], leq), leq);
      assert xs == [xs[0]] + xs[1..];
    }
    assert |multiset(Sort(xs, leq))| == |Sort(xs, leq)|;
  }

  lemma SameElements<T>(xs: seq<T>, ys: seq<T>)
    requires multiset(xs) == multiset(ys)
    ensures forall x :: x in xs <==> x in ys
  {
    assert forall x :: x in xs <==> x in multiset(xs);
    assert forall x :: x in ys <==> x in multiset(ys);
  }

  lemma ConsSorted<T>(x: T, xs: seq<T>, leq: (T, T) -> bool)
    requires Sorted(xs, leq) && forall y :: y in xs ==> leq(x, y)
    ensures Sorted([x] + xs, leq)
  {
    var r := [x] + xs;
    forall i, j | 0 <= i < j < |r| ensures leq(r[i], r[j]) {
      assert r[j] == xs[j - 1];
      if i > 0 { assert r[i] == xs[i - 1]; }
    }
  }

  lemma {:induction false} InsertSorts<T>(x: T, xs: seq<T>, leq: (T, T) -> bool, dom: set<T>)
    requires Orders(leq, dom) && x in dom && Elements(xs) <= dom
    requires Sorted(xs, leq)
    ensures Sorted(Insert(x, xs, leq), leq)
  {
    if xs != [] {
      assert forall y :: y in xs ==> y in Elements(xs);
      if leq(x, xs[0]) {
        forall y | y in xs ensures leq(x, y) {
          assert y == xs[0] || leq(xs[0], y);
        }
        ConsSorted(x, xs, leq);
      } else {
        var rest := Insert(x, xs[1..], leq);
        assert Elements(xs[1..]) <= Elements(xs);
        InsertSorts(x, xs[1..], leq, dom);
        InsertPermutes(x, xs[1..], leq);
        var source := [x] + xs[1..];
        assert multiset(rest) == multiset(source);
        SameElements(rest, source);
        forall y | y in rest ensures leq(xs[0], y) {
          assert y in multiset(rest) && y in multiset(source);
          assert y in source;
          assert y == x || y in xs[1..];
        }
        ConsSorted(xs[0], rest, leq);
      }
    }
  }

  lemma {:induction false} SortSorts<T>(xs: seq<T>, leq: (T, T) -> bool, dom: set<T>)
    requires Orders(leq, dom) && Elements(xs) <= dom
    ensures Sorted(Sort(xs, leq), leq)
  {
    if xs != [] {
      var rest := Sort(xs[1..], leq);
      assert Elements(xs[1..]) <= Elements(xs) && xs[0] in Elements(xs);
      SortSorts(xs[1..], leq, dom);
      SortPermutes(xs[1..], leq);
      SameElements(rest, xs[1..]);
      assert Elements(rest) == Elements(xs[1..]);
      InsertSorts(xs[0], rest, leq, dom);
    }
  }

  /** Two sorted arrangements of the same elements agree when the order separates distinct elements. */
  lemma {:induction false} SortedUnique<T>(xs: seq<T>, ys: seq<T>, leq: (T, T) -> bool)
    requires multiset(xs) == multiset(ys)
    requires Sorted(xs, leq) && Sorted(ys, leq)
    requires forall x, y :: x in xs && y in xs && leq(x, y) && leq(y, x) ==> x == y
    ensures xs == ys
    decreases |xs|
  {
    assert |multiset(xs)| == |xs| && |multiset(ys)| == |ys|;
    if xs != [] {
      SameElements(xs, ys);
      FirstIsLeast(xs, leq, ys[0]);
      FirstIsLeast(ys, leq, xs[0]);
      TailsAgree(xs, ys);
      assert Sorted(xs[1..], leq) && Sorted(ys[1..], leq);
      hide Sorted;
      SortedUnique(xs[1..], ys[1..], leq);
      assert xs == [xs[0]] + xs[1..] && ys == [ys[0]] + ys[1..];
    }
  }

  lemma TailsAgree<T>(xs: seq<T>, ys: seq<T>)
    requires multiset(xs) == multiset(ys) && xs != [] && ys != [] && xs[0] == ys[0]
    ensures multiset(xs[1..]) == multiset(ys[1..])
  {
    FirstOut(xs);
    FirstOut(ys);
  }

  lemma FirstOut<T>(xs: seq<T>)
    requires xs != []
    ensures multiset(xs[1..]) == multiset(xs) - multiset{xs[0]}
  {
    assert xs == [xs[0]] + xs[1..];
  }

  lemma FirstIsLeast<T>(xs: seq<T>, leq: (T, T) -> bool, y: T)
    requires Sorted(xs, leq) && y in xs
    ensures y == xs[0] || leq(xs[0], y)
  {
  }

  ghost predicate DistinctKeys<T, K>(xs: seq<T>, key: T -> K) {
    forall i, j :: 0 <= i < j < |xs| ==> key(xs[i]) != key(xs[j])
  }

  lemma OthersDiffer<T, K>(xs: seq<T>, k: nat, key: T -> K)
    requires DistinctKeys(xs, key) && k < |xs|
    ensures DistinctKeys(xs[..k] + xs[k + 1..], key)
    ensures forall y :: y in xs[..k] + xs[k + 1..] ==> key(y) != key(xs[k])
  {
    var rest := xs[..k] + xs[k + 1..];
    assert forall i :: 0 <= i < |rest| ==> rest[i] == xs[if i < k then i else i + 1];
  }

  /** Rearranging keeps keys distinct. */
  lemma {:induction false} DistinctKeysPermute<T, K>(xs: seq<T>, ys: seq<T>, key: T -> K)
    requires multiset(xs) == multiset(ys) && DistinctKeys(xs, key)
    ensures DistinctKeys(ys, key)
    decreases |ys|
  {
    if ys != [] {
      var k := TakeFirst(xs, ys);
      OthersDiffer(xs, k, key);
      hide DistinctKeys;
      var restX, restY := xs[..k] + xs[k + 1..], ys[1..];
      DistinctKeysPermute(restX, restY, key);
      SameElements(restX, restY);
      DistinctCons(ys[0], restY, key);
      assert ys == [ys[0]] + restY;
    }
  }

  lemma TakeFirst<T>(xs: seq<T>, ys: seq<T>) returns (k: nat)
    requires multiset(xs) == multiset(ys) && ys != []
    ensures k < |xs| && xs[k] == ys[0] && multiset(xs[..k] + xs[k + 1..]) == multiset(ys[1..])
  {
    assert ys[0] in multiset(xs);
    k :| 0 <= k < |xs| && xs[k] == ys[0];
    RemoveOne(xs, k);
    FirstOut(ys);
  }

  lemma DistinctCons<T, K>(x: T, xs: seq<T>, key: T -> K)
    requires DistinctKeys(xs, key) && forall y :: y in xs ==> key(y) != key(x)
    ensures DistinctKeys([x] + xs, key)
  {
    var all := [x] + xs;
    assert forall i :: 1 <= i < |all| ==> all[i] == xs[i - 1];
  }
}
