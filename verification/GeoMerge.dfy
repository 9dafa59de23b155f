/** The interval merge at the heart of geosets.go SetFor, for both families. */
module GeoMerge {
  import opened NetAddr

  datatype Span = Span(lo: nat, hi: nat)

  const MAX32: nat := 0xFFFF_FFFF

  predicate Within(s: Span, x: nat) {
    s.lo <= x <= s.hi
  }

  /** The addresses a list of intervals covers. */
  predicate In(spans: seq<Span>, x: nat) {
    exists i :: 0 <= i < |spans| && Within(spans[i], x)
  }

  predicate Proper(spans: seq<Span>) {
    forall i :: 0 <= i < |spans| ==> spans[i].lo <= spans[i].hi
  }

  predicate Fits4(spans: seq<Span>) {
    forall i :: 0 <= i < |spans| ==> spans[i].hi <= MAX32
  }

  predicate Ascending(spans: seq<Span>) {
    forall i, j :: 0 <= i < j < |spans| ==> spans[i].lo <= spans[j].lo
  }

  /** Where the next interval still joins one that ends at `hi`. For IPv4 that is the address
      after it, computed in 32 bits: the address after the last one is the first one. */
  function Reach(four: bool, hi: nat): nat {
    if four then (hi + 1) % TWO32 else hi
  }

  function Absorb(four: bool, out: seq<Span>, r: Span): seq<Span> {
    if out != [] && r.lo <= Reach(four, out[|out| - 1].hi) then
      if r.hi > out[|out| - 1].hi then out[..|out| - 1] + [Span(out[|out| - 1].lo, r.hi)] else out
    else out + [r]
  }

  function Merge(four: bool, p: seq<Span>): seq<Span> {
    if p == [] then [] else Absorb(four, Merge(four, p[..|p| - 1]), p[|p| - 1])
  }

  lemma PrefixKeeps(p: seq<Span>)
    requires p != []
    ensures Ascending(p) ==> Ascending(p[..|p| - 1])
    ensures Proper(p) ==> Proper(p[..|p| - 1])
    ensures Fits4(p) ==> Fits4(p[..|p| - 1])
  {
  }

  predicate Wellformed(four: bool, p: seq<Span>) {
    Ascending(p) && Proper(p) && (four ==> Fits4(p))
  }

  lemma AbsorbShape(four: bool, out: seq<Span>, r: Span)
    requires Wellformed(four, out) && r.lo <= r.hi && (four ==> r.hi <= MAX32)
    requires forall j :: 0 <= j < |out| ==> out[j].lo <= r.lo
    ensures var after := Absorb(four, out, r);
            after != [] && Wellformed(four, after) && forall j :: 0 <= j < |after| ==> after[j].lo <= r.lo
  {
  }

  predicate StartsBy(out: seq<Span>, p: seq<Span>) {
    (out == [] <==> p == []) &&
    (p != [] ==> forall j :: 0 <= j < |out| ==> out[j].lo <= p[|p| - 1].lo)
  }

  lemma StartsByNext(out: seq<Span>, p: seq<Span>, j: int)
    requires p != [] && Ascending(p) && StartsBy(out, p[..|p| - 1]) && 0 <= j < |out|
    ensures out[j].lo <= p[|p| - 1].lo
  {
    var q := p[..|p| - 1];
    assert q != [] && q[|q| - 1] == p[|p| - 2];
    assert p[|p| - 2].lo <= p[|p| - 1].lo;
  }

  /** What the merge keeps at every row: proper intervals that start no later than the last row read. */
  lemma {:induction false} MergeShape(four: bool, p: seq<Span>)
    requires Wellformed(four, p)
    ensures Wellformed(four, Merge(four, p)) && StartsBy(Merge(four, p), p)
    decreases |p|
  {
    if p != [] {
      PrefixKeeps(p);
      var q := p[..|p| - 1];
      MergeShape(four, q);
      var out := Merge(four, q);
      forall j | 0 <= j < |out|
        ensures out[j].lo <= p[|p| - 1].lo
      {
        StartsByNext(out, p, j);
      }
      AbsorbShape(four, out, p[|p| - 1]);
    }
  }

  /** Absorbing a row adds exactly its addresses. The 32-bit wrap cannot spoil this: once an interval
      ends at the last address, a row that starts at the first one adds nothing. */
  lemma AbsorbDenotes(four: bool, out: seq<Span>, r: Span, x: nat)
    requires Proper(out) && r.lo <= r.hi && (four ==> Fits4(out) && r.hi <= MAX32)
    requires out != [] ==> out[|out| - 1].lo <= r.lo
    ensures In(Absorb(four, out, r), x) <==> In(out, x) || Within(r, x)
  {
    var after := Absorb(four, out, r);
    var n := |out| - 1;
    if out != [] && r.lo <= Reach(four, out[n].hi) {
      if In(out, x) {
        var i :| 0 <= i < |out| && Within(out[i], x);
        assert Within(after[i], x);
      }
      if Within(r, x) {
        assert Within(after[n], x);
      }
      if In(after, x) {
        var i :| 0 <= i < |after| && Within(after[i], x);
        assert i < n ==> Within(out[i], x);
        assert i == n && x <= out[n].hi ==> Within(out[n], x);
      }
    } else {
      assert after[|out|] == r;
      if In(out, x) {
        var i :| 0 <= i < |out| && Within(out[i], x);
        assert Within(after[i], x);
      }
      if In(after, x) {
        var i :| 0 <= i < |after| && Within(after[i], x);
        assert i < |out| ==> Within(out[i], x);
      }
    }
  }

  lemma InPrefix(p: seq<Span>, x: nat)
    requires p != []
    ensures In(p, x) <==> In(p[..|p| - 1], x) || Within(p[|p| - 1], x)
  {
    var q := p[..|p| - 1];
    if In(p, x) {
      var i :| 0 <= i < |p| && Within(p[i], x);
      assert i < |q| ==> Within(q[i], x);
    }
    if In(q, x) {
      var i :| 0 <= i < |q| && Within(q[i], x);
      assert Within(p[i], x);
    }
  }

  /** The merged intervals cover exactly what the rows cover, in both families, whatever rows
      overlap and however equal lower bounds were ordered. */
  lemma {:induction false} MergeDenotes(four: bool, p: seq<Span>, x: nat)
    requires Wellformed(four, p)
    ensures In(Merge(four, p), x) <==> In(p, x)
    decreases |p|
  {
    if p != [] {
      PrefixKeeps(p);
      var q := p[..|p| - 1];
      MergeShape(four, q);
      MergeDenotes(four, q, x);
      InPrefix(p, x);
      var out := Merge(four, q);
      if out != [] {
        StartsByNext(out, p, |out| - 1);
      }
      AbsorbDenotes(four, out, p[|p| - 1], x);
    }
  }

  // ------------------------------------------------------------ disjointness

  /** Each interval ends before the next begins. */
  predicate Strict(out: seq<Span>) {
    Proper(out) && forall i, j :: 0 <= i < j < |out| ==> out[i].hi < out[j].lo
  }

  /** ...with at least one uncovered address between them. */
  predicate Apart(out: seq<Span>) {
    Proper(out) && forall i, j :: 0 <= i < j < |out| ==> out[i].hi + 1 < out[j].lo
  }

  lemma AbsorbStrict(out: seq<Span>, r: Span)
    requires Strict(out) && r.lo <= r.hi
    ensures Strict(Absorb(false, out, r))
  {
    var after := Absorb(false, out, r);
    assert forall i :: 0 <= i < |out| ==> out[i].hi <= out[|out| - 1].hi;
    assert forall i :: 0 <= i < |out| - 1 ==> after[i] == out[i];
  }

  /** The IPv6 merge, which joins only on a real overlap, always keeps intervals strictly apart. */
  lemma {:induction false} Merge6Strict(p: seq<Span>)
    requires Proper(p)
    ensures Strict(Merge(false, p))
    decreases |p|
  {
    if p != [] {
      PrefixKeeps(p);
      Merge6Strict(p[..|p| - 1]);
      AbsorbStrict(Merge(false, p[..|p| - 1]), p[|p| - 1]);
    }
  }

  /** And it joins nothing else: intervals that do not overlap, adjacent ones included, stay as they are. */
  lemma {:induction false} Merge6Keeps(p: seq<Span>)
    requires Strict(p)
    ensures Merge(false, p) == p
    decreases |p|
  {
    if p != [] {
      Merge6Keeps(p[..|p| - 1]);
      assert p == p[..|p| - 1] + [p[|p| - 1]];
    }
  }

  /** A row ends at the last IPv4 address and a later one starts above the first. */
  predicate Overruns(p: seq<Span>) {
    exists i, j :: 0 <= i < j < |p| && p[i].hi == MAX32 && p[j].lo > 0
  }

  lemma OverrunsPrefix(p: seq<Span>)
    requires p != []
    ensures Overruns(p) <==>
            Overruns(p[..|p| - 1]) ||
            (p[|p| - 1].lo > 0 && exists i :: 0 <= i < |p| - 1 && p[i].hi == MAX32)
  {
    var q := p[..|p| - 1];
    if Overruns(p) {
      var i, j :| 0 <= i < j < |p| && p[i].hi == MAX32 && p[j].lo > 0;
      assert j < |q| ==> q[i].hi == MAX32 && q[j].lo > 0;
    }
    if Overruns(q) {
      var i, j :| 0 <= i < j < |q| && q[i].hi == MAX32 && q[j].lo > 0;
      assert p[i].hi == MAX32 && p[j].lo > 0;
    }
  }

  predicate Full(p: seq<Span>) {
    exists i :: 0 <= i < |p| && p[i].hi == MAX32
  }

  lemma FullPrefix(p: seq<Span>)
    requires p != []
    ensures Full(p) <==> Full(p[..|p| - 1]) || p[|p| - 1].hi == MAX32
  {
    var q := p[..|p| - 1];
    if Full(p) {
      var i :| 0 <= i < |p| && p[i].hi == MAX32;
      assert i < |q| ==> q[i].hi == MAX32;
    }
    if Full(q) {
      var i :| 0 <= i < |q| && q[i].hi == MAX32;
      assert p[i].hi == MAX32;
    }
  }

  /** The last interval runs to the last address. */
  predicate EndsFull(out: seq<Span>) {
    out != [] && out[|out| - 1].hi == MAX32
  }

  lemma AbsorbApart(out: seq<Span>, r: Span)
    requires Apart(out) && Fits4(out) && r.lo <= r.hi <= MAX32
    requires EndsFull(out) ==> r.lo == 0
    ensures Apart(Absorb(true, out, r))
    ensures EndsFull(Absorb(true, out, r)) <==> r.hi == MAX32 || EndsFull(out)
  {
    var after := Absorb(true, out, r);
    assert forall i :: 0 <= i < |out| ==> out[i].hi <= out[|out| - 1].hi;
    assert forall i :: 0 <= i < |out| - 1 ==> after[i] == out[i];
  }

  /** As long as nothing overruns, intervals stay apart, and the last one ends at the last
      address exactly when some row does. */
  lemma {:induction false} ApartUnlessOverrun(p: seq<Span>)
    requires Wellformed(true, p) && !Overruns(p)
    ensures Apart(Merge(true, p))
    ensures Full(p) <==> EndsFull(Merge(true, p))
    decreases |p|
  {
    if p != [] {
      PrefixKeeps(p);
      var q := p[..|p| - 1];
      OverrunsPrefix(p);
      FullPrefix(p);
      ApartUnlessOverrun(q);
      MergeShape(true, q);
      if Full(q) {
        FullThenZero(p);
      }
      AbsorbApart(Merge(true, q), p[|p| - 1]);
      assert Merge(true, p) == Absorb(true, Merge(true, q), p[|p| - 1]);
    }
  }

  /** Without an overrun, a row read after a full one starts at the first address. */
  lemma FullThenZero(p: seq<Span>)
    requires p != [] && !Overruns(p) && Full(p[..|p| - 1])
    ensures p[|p| - 1].lo == 0
  {
    var i :| 0 <= i < |p| - 1 && p[..|p| - 1][i].hi == MAX32;
    assert p[i].hi == MAX32;
  }

  /** Two neighbours that touch or overlap stay in the output for good. */
  predicate Clash(out: seq<Span>) {
    exists i :: 0 < i < |out| && out[i].lo <= out[i - 1].hi + 1
  }

  lemma AbsorbKeepsClash(out: seq<Span>, r: Span)
    requires Clash(out)
    ensures Clash(Absorb(true, out, r))
  {
    var i :| 0 < i < |out| && out[i].lo <= out[i - 1].hi + 1;
    var after := Absorb(true, out, r);
    assert after[i].lo == out[i].lo && after[i - 1].hi >= out[i - 1].hi;
  }

  lemma {:induction false} OverrunClashes(p: seq<Span>)
    requires Wellformed(true, p) && Overruns(p)
    ensures Clash(Merge(true, p))
    decreases |p|
  {
    PrefixKeeps(p);
    var q := p[..|p| - 1];
    var r := p[|p| - 1];
    OverrunsPrefix(p);
    var before := Merge(true, q);
    if Overruns(q) {
      OverrunClashes(q);
      AbsorbKeepsClash(before, r);
    } else {
      FullPrefixOf(p);
      ApartUnlessOverrun(q);
      AfterFull(before, r);
    }
  }

  lemma FullPrefixOf(p: seq<Span>)
    requires p != [] && exists i :: 0 <= i < |p| - 1 && p[i].hi == MAX32
    ensures Full(p[..|p| - 1])
  {
    var i :| 0 <= i < |p| - 1 && p[i].hi == MAX32;
    assert p[..|p| - 1][i].hi == MAX32;
  }

  /** A row above the first address, absorbed after an interval that runs to the last, stays apart
      from it in the list and not in what it covers. */
  lemma AfterFull(before: seq<Span>, r: Span)
    requires before != [] && before[|before| - 1].hi == MAX32 && 0 < r.lo <= r.hi <= MAX32
    ensures Clash(Absorb(true, before, r))
  {
    var out := Absorb(true, before, r);
    assert out == before + [r];
    assert out[|before|].lo <= out[|before| - 1].hi + 1;
  }

  /** The 32-bit wrap, exactly: the IPv4 output is in its minimal form, every two intervals
      kept apart, if and only if no row that starts above 0.0.0.0 is read after a row that ends
      at 255.255.255.255. */
  lemma Merge4ApartIff(p: seq<Span>)
    requires Wellformed(true, p)
    ensures Apart(Merge(true, p)) <==> !Overruns(p)
  {
    if Overruns(p) {
      OverrunClashes(p);
      var out := Merge(true, p);
      var i :| 0 < i < |out| && out[i].lo <= out[i - 1].hi + 1;
      assert !(out[i - 1].hi + 1 < out[i].lo);
    } else {
      ApartUnlessOverrun(p);
    }
  }

  predicate Overlap(a: Span, b: Span) {
    a.lo <= b.hi && b.lo <= a.hi
  }

  predicate Disjoint(p: seq<Span>) {
    forall i, j :: 0 <= i < j < |p| ==> !Overlap(p[i], p[j])
  }

  /** Rows that do not overlap never overrun. */
  lemma DisjointNeverOverruns(p: seq<Span>)
    requires Wellformed(true, p) && Disjoint(p)
    ensures !Overruns(p)
  {
  }

  lemma TailOfApart(a: seq<Span>, x: nat)
    requires Apart(a) && a != []
    ensures Apart(a[1..])
    ensures In(a, x) <==> Within(a[0], x) || In(a[1..], x)
    ensures In(a[1..], x) ==> a[0].hi + 1 < x
  {
    if In(a, x) {
      var i :| 0 <= i < |a| && Within(a[i], x);
      assert i > 0 ==> Within(a[1..][i - 1], x);
    }
    if In(a[1..], x) {
      var i :| 0 <= i < |a| - 1 && Within(a[1..][i], x);
      assert Within(a[i + 1], x);
    }
  }

  lemma HeadEndsAgree(a: seq<Span>, b: seq<Span>)
    requires Apart(a) && Apart(b) && a != [] && b != []
    requires forall x :: In(a, x) <==> In(b, x)
    ensures a[0].lo >= b[0].lo && (a[0].lo == b[0].lo ==> a[0].hi <= b[0].hi)
  {
    assert Within(a[0], a[0].lo);
    assert In(a, a[0].lo);
    TailOfApart(b, a[0].lo);
    if a[0].lo == b[0].lo && a[0].hi > b[0].hi {
      assert Within(a[0], b[0].hi + 1);
      assert In(a, b[0].hi + 1);
      TailOfApart(b, b[0].hi + 1);
    }
  }

  /** A set of addresses has at most one spelling with its intervals kept apart. */
  lemma {:induction false} ApartUnique(a: seq<Span>, b: seq<Span>)
    requires Apart(a) && Apart(b)
    requires forall x :: In(a, x) <==> In(b, x)
    ensures a == b
    decreases |a|
  {
    assert a != [] ==> Within(a[0], a[0].lo) && In(a, a[0].lo);
    assert b != [] ==> Within(b[0], b[0].lo) && In(b, b[0].lo);
    if a != [] && b != [] {
      HeadEndsAgree(a, b);
      HeadEndsAgree(b, a);
      forall x
        ensures In(a[1..], x) <==> In(b[1..], x)
      {
        TailOfApart(a, x);
        TailOfApart(b, x);
      }
      TailOfApart(a, 0);
      TailOfApart(b, 0);
      ApartUnique(a[1..], b[1..]);
      assert a == [a[0]] + a[1..] && b == [b[0]] + b[1..];
    }
  }

  /** However an unstable sort breaks ties, non-overlapping rows give one published list, and it is
      the minimal spelling of their union. */
  lemma Merge4Canonical(p: seq<Span>, q: seq<Span>)
    requires Wellformed(true, p) && Disjoint(p)
    requires Apart(q) && forall x :: In(q, x) <==> In(p, x)
    ensures Merge(true, p) == q
  {
    DisjointNeverOverruns(p);
    Merge4ApartIff(p);
    forall x
      ensures In(Merge(true, p), x) <==> In(q, x)
    {
      MergeDenotes(true, p, x);
    }
    ApartUnique(Merge(true, p), q);
  }

  /** Overlapping rows can break it: 5-255.255.255.255 then 6-7 is published as two intervals,
      the second inside the first. */
  lemma OverrunExample()
    ensures var p := [Span(5, MAX32), Span(6, 7)];
            Wellformed(true, p) && Merge(true, p) == p && !Strict(Merge(true, p))
  {
    var p := [Span(5, MAX32), Span(6, 7)];
    assert p[..1] == [p[0]] && [p[0]][..0] == [];
    assert Merge(true, [p[0]]) == [p[0]];
    assert Merge(true, p) == [p[0]] + [p[1]];
    assert p[0].hi >= p[1].lo;
  }
}
