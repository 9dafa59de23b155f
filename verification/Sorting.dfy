/** What sort.Slice promises: some rearrangement in order, ties broken however it likes. */
module Sorting {
  predicate InOrder<T(!new)>(xs: seq<T>, key: T -> nat) {
    forall i, j :: 0 <= i < j < |xs| ==> key(xs[i]) <= key(xs[j])
  }

  ghost predicate IsSortOf<T(!new)>(out: seq<T>, xs: seq<T>, key: T -> nat) {
    multiset(out) == multiset(xs) && InOrder(out, key)
  }

  /** Where `x` goes in an ordered sequence, after everything that does not exceed it. */
  method Place<T(!new)>(out: seq<T>, x: T, key: T -> nat) returns (k: nat)
    requires InOrder(out, key)
    ensures k <= |out|
    ensures forall j :: 0 <= j < k ==> key(out[j]) <= key(x)
    ensures forall j :: k <= j < |out| ==> key(x) <= key(out[j])
  {
    k := 0;
    while k < |out| && key(out[k]) <= key(x)
      invariant 0 <= k <= |out|
      invariant forall j :: 0 <= j < k ==> key(out[j]) <= key(x)
    {
      k := k + 1;
    }
  }

  method SortSlice<T(!new)>(xs: seq<T>, key: T -> nat) returns (out: seq<T>)
    ensures IsSortOf(out, xs, key)
  {
    out := [];
    var i := 0;
    while i < |xs|
      invariant 0 <= i <= |xs|
      invariant IsSortOf(out, xs[..i], key)
    {
      var k := Place(out, xs[i], key);
      Placed(out, xs[i], k, key);
      assert xs[..i + 1] == xs[..i] + [xs[i]];
      out := out[..k] + [xs[i]] + out[k..];
      i := i + 1;
    }
    assert xs[..i] == xs;
  }

  lemma Placed<T(!new)>(out: seq<T>, x: T, k: nat, key: T -> nat)
    requires InOrder(out, key) && k <= |out|
    requires forall j :: 0 <= j < k ==> key(out[j]) <= key(x)
    requires forall j :: k <= j < |out| ==> key(x) <= key(out[j])
    ensures InOrder(out[..k] + [x] + out[k..], key)
    ensures multiset(out[..k] + [x] + out[k..]) == multiset(out) + multiset{x}
  {
    var a, b := out[..k], out[k..];
    assert out == a + b;
    PlacedInOrder(a, x, b, key);
  }

  lemma PlacedInOrder<T(!new)>(a: seq<T>, x: T, b: seq<T>, key: T -> nat)
    requires InOrder(a + b, key)
    requires forall j :: 0 <= j < |a| ==> key((a + b)[j]) <= key(x)
    requires forall j :: |a| <= j < |a + b| ==> key(x) <= key((a + b)[j])
    ensures InOrder(a + [x] + b, key)
  {
    var out, after := a + b, a + [x] + b;
    forall i, j | 0 <= i < j < |after|
      ensures key(after[i]) <= key(after[j])
    {
      var i', j' := if i < |a| then i else i - 1, if j < |a| then j else j - 1;
      assert i != |a| ==> after[i] == out[i'];
      assert j != |a| ==> after[j] == out[j'];
    }
  }

  lemma SameElements<T(!new)>(out: seq<T>, xs: seq<T>, key: T -> nat)
    requires IsSortOf(out, xs, key)
    ensures |out| == |xs|
    ensures forall x :: x in out <==> x in xs
  {
    assert |multiset(out)| == |multiset(xs)|;
    forall x
      ensures x in out <==> x in xs
    {
      assert x in multiset(out) <==> x in multiset(xs);
    }
  }

  // --------------------------------------------------------------- rearrangements

  /** An element that occurs twice occurs at two places. */
  lemma {:induction false} TwiceMeansTwoPlaces<T>(q: seq<T>, x: T) returns (k: int, l: int)
    requires multiset(q)[x] >= 2
    ensures 0 <= k < l < |q| && q[k] == x && q[l] == x
    decreases |q|
  {
    var n := |q| - 1;
    assert q == q[..n] + [q[n]];
    if q[n] == x {
      assert multiset(q[..n])[x] >= 1;
      assert x in q[..n];
      k :| 0 <= k < n && q[..n][k] == x;
      l := n;
    } else {
      k, l := TwiceMeansTwoPlaces(q[..n], x);
    }
  }

  lemma EqualPairCountsTwice<T>(p: seq<T>, i: int, j: int)
    requires 0 <= i < j < |p| && p[i] == p[j]
    ensures multiset(p)[p[i]] >= 2
  {
    assert p == p[..j] + [p[j]] + p[j + 1..];
    assert p[..j][i] == p[i];
    assert p[i] in p[..j];
  }

  lemma MiddleCounts<T>(pre: seq<T>, x: T, post: seq<T>)
    ensures multiset(pre + [x] + post) == multiset(pre + post) + multiset{x}
  {
  }

  lemma TakeOut<T>(b: seq<T>, x: T) returns (pre: seq<T>, post: seq<T>)
    requires x in multiset(b)
    ensures b == pre + [x] + post
    ensures multiset(pre + post) == multiset(b) - multiset{x}
  {
    var k :| 0 <= k < |b| && b[k] == x;
    pre, post := b[..k], b[k + 1..];
    assert b == pre + [x] + post;
    MiddleCounts(pre, x, post);
  }

  function Mapped<T, U>(xs: seq<T>, f: T -> U): (r: seq<U>)
    ensures |r| == |xs| && forall i :: 0 <= i < |xs| ==> r[i] == f(xs[i])
  {
    seq(|xs|, i requires 0 <= i < |xs| => f(xs[i]))
  }

  lemma MappedMiddle<T, U>(pre: seq<T>, x: T, post: seq<T>, f: T -> U)
    ensures multiset(Mapped(pre + [x] + post, f)) == multiset(Mapped(pre + post, f)) + multiset{f(x)}
  {
    assert Mapped(pre + [x] + post, f) == Mapped(pre, f) + [f(x)] + Mapped(post, f);
    assert Mapped(pre + post, f) == Mapped(pre, f) + Mapped(post, f);
  }

  /** A rearrangement, element by element through a function, is a rearrangement. */
  lemma {:induction false} MappedRearranged<T, U>(a: seq<T>, b: seq<T>, f: T -> U)
    requires multiset(a) == multiset(b)
    ensures multiset(Mapped(a, f)) == multiset(Mapped(b, f))
    decreases |a|
  {
    if a == [] {
      assert |multiset(b)| == |b|;
    } else {
      var x := a[0];
      assert x in multiset(a);
      assert a == [] + [x] + a[1..];
      var pre, post := TakeOut(b, x);
      MiddleCounts([], x, a[1..]);
      MappedRearranged([] + a[1..], pre + post, f);
      MappedMiddle([], x, a[1..], f);
      MappedMiddle(pre, x, post, f);
    }
  }

  /** If no two places of a sequence clash, no two places of a rearrangement do. */
  lemma RearrangedApart<T(!new)>(p: seq<T>, q: seq<T>, clash: (T, T) -> bool)
    requires multiset(p) == multiset(q)
    requires forall i, j :: 0 <= i < j < |q| ==> !clash(q[i], q[j]) && !clash(q[j], q[i])
    ensures forall i, j :: 0 <= i < j < |p| ==> !clash(p[i], p[j])
  {
    forall i, j | 0 <= i < j < |p|
      ensures !clash(p[i], p[j])
    {
      assert p[i] in multiset(q) && p[j] in multiset(q);
      var k, l;
      if p[i] == p[j] {
        EqualPairCountsTwice(p, i, j);
        k, l := TwiceMeansTwoPlaces(q, p[i]);
      } else {
        k :| 0 <= k < |q| && q[k] == p[i];
        l :| 0 <= l < |q| && q[l] == p[j];
      }
      assert k < l ==> !clash(q[k], q[l]);
      assert l < k ==> !clash(q[k], q[l]);
    }
  }

  // ------------------------------------------------------------ sort.SliceStable

  function InsertStable<T>(done: seq<T>, x: T, key: T -> nat): seq<T> {
    if done != [] && key(done[|done| - 1]) > key(x)
    then InsertStable(done[..|done| - 1], x, key) + [done[|done| - 1]]
    else done + [x]
  }

  function StableSort<T>(xs: seq<T>, key: T -> nat): seq<T> {
    if xs == [] then [] else InsertStable(StableSort(xs[..|xs| - 1], key), xs[|xs| - 1], key)
  }

  /** The elements whose key is `n`, in the order they stand. */
  function Keyed<T>(xs: seq<T>, key: T -> nat, n: nat): seq<T> {
    if xs == [] then []
    else
      var last := xs[|xs| - 1];
      Keyed(xs[..|xs| - 1], key, n) + if key(last) == n then [last] else []
  }

  lemma InsertUnfolds<T>(done: seq<T>, k: nat, x: T, key: T -> nat)
    requires 0 < k <= |done| && key(done[k - 1]) > key(x)
    ensures InsertStable(done[..k], x, key) == InsertStable(done[..k - 1], x, key) + [done[k - 1]]
  {
    assert done[..k][..k - 1] == done[..k - 1];
  }

  lemma {:induction false} InsertKeepsElements<T>(done: seq<T>, x: T, key: T -> nat)
    ensures multiset(InsertStable(done, x, key)) == multiset(done) + multiset{x}
    decreases |done|
  {
    if done != [] && key(done[|done| - 1]) > key(x) {
      var front, last := done[..|done| - 1], done[|done| - 1];
      InsertKeepsElements(front, x, key);
      assert done == front + [last];
    }
  }

  lemma OrderedAppend<T(!new)>(q: seq<T>, last: T, key: T -> nat)
    requires InOrder(q, key) && forall y :: y in q ==> key(y) <= key(last)
    ensures InOrder(q + [last], key)
  {
  }

  lemma {:induction false} InsertIsSorted<T(!new)>(done: seq<T>, x: T, key: T -> nat)
    requires InOrder(done, key)
    ensures InOrder(InsertStable(done, x, key), key)
    decreases |done|
  {
    if done != [] && key(done[|done| - 1]) > key(x) {
      var front, last := done[..|done| - 1], done[|done| - 1];
      InsertIsSorted(front, x, key);
      InsertKeepsElements(front, x, key);
      var q := InsertStable(front, x, key);
      forall y | y in q
        ensures key(y) <= key(last)
      {
        assert y in multiset(q);
      }
      OrderedAppend(q, last, key);
    } else {
      assert forall y :: y in done ==> key(y) <= key(x);
      OrderedAppend(done, x, key);
    }
  }

  lemma {:induction false} InsertIsStable<T>(done: seq<T>, x: T, key: T -> nat, n: nat)
    ensures Keyed(InsertStable(done, x, key), key, n) == Keyed(done, key, n) + if key(x) == n then [x] else []
    decreases |done|
  {
    var r := InsertStable(done, x, key);
    if done != [] && key(done[|done| - 1]) > key(x) {
      var front, last := done[..|done| - 1], done[|done| - 1];
      InsertIsStable(front, x, key, n);
      assert r[..|r| - 1] == InsertStable(front, x, key);
    } else {
      assert r[..|r| - 1] == done;
    }
  }

  /** A stable sort keeps every element, orders by key, and leaves elements of equal key in the
      order they came. */
  lemma {:induction false} StableSortIsStable<T(!new)>(xs: seq<T>, key: T -> nat, n: nat)
    ensures IsSortOf(StableSort(xs, key), xs, key)
    ensures Keyed(StableSort(xs, key), key, n) == Keyed(xs, key, n)
    decreases |xs|
  {
    if xs != [] {
      var front, last := xs[..|xs| - 1], xs[|xs| - 1];
      StableSortIsStable(front, key, n);
      InsertIsSorted(StableSort(front, key), last, key);
      InsertKeepsElements(StableSort(front, key), last, key);
      InsertIsStable(StableSort(front, key), last, key, n);
      assert xs == front + [last];
    }
  }

  lemma StableSortElements<T(!new)>(xs: seq<T>, key: T -> nat)
    ensures |StableSort(xs, key)| == |xs|
    ensures forall x :: x in StableSort(xs, key) <==> x in xs
  {
    StableSortIsStable(xs, key, 0);
    SameElements(StableSort(xs, key), xs, key);
  }

  method InsertAfterEquals<T>(done: seq<T>, x: T, key: T -> nat) returns (r: seq<T>)
    ensures r == InsertStable(done, x, key)
  {
    var k := |done|;
    assert done == done[..k] + done[k..] && done[..k] == done;
    while k > 0 && key(done[k - 1]) > key(x)
      invariant 0 <= k <= |done|
      invariant InsertStable(done, x, key) == InsertStable(done[..k], x, key) + done[k..]
    {
      InsertUnfolds(done, k, x, key);
      assert [done[k - 1]] + done[k..] == done[k - 1..];
      k := k - 1;
    }
    assert InsertStable(done[..k], x, key) == done[..k] + [x];
    r := done[..k] + [x] + done[k..];
  }

  method SliceStable<T>(xs: seq<T>, key: T -> nat) returns (r: seq<T>)
    ensures r == StableSort(xs, key)
  {
    r := [];
    for i := 0 to |xs|
      invariant r == StableSort(xs[..i], key)
    {
      assert xs[..i + 1][..i] == xs[..i];
      r := InsertAfterEquals(r, xs[i], key);
    }
    assert xs[..|xs|] == xs;
  }
}
