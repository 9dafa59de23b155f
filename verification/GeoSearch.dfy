/** geo.lua: the data plane's searches over the published ranges, and exactly which published lists
    they can be trusted on. */
module GeoSearch {
  import opened Wrappers
  import opened NetAddr
  import opened Text
  import opened GeoMerge
  import opened GeoWords
  import opened GeoTable
  import opened GeoSets
  import opened Sorting

  // ------------------------------------------------------------ the IPv4 search

  /** The list as the search reads it: in pairs. */
  function Pairs(list: seq<nat>): (r: seq<Span>)
    ensures |r| == |list| / 2 && forall i :: 0 <= i < |r| ==> r[i] == Span(list[2 * i], list[2 * i + 1])
  {
    seq(|list| / 2, i requires 0 <= i < |list| / 2 => Span(list[2 * i], list[2 * i + 1]))
  }

  lemma PairsOfFlat4(spans: seq<Span>)
    ensures Pairs(Flat4(spans)) == spans
  {
    forall i | 0 <= i < |spans|
      ensures Pairs(Flat4(spans))[i] == spans[i]
    {
      Flat4At(spans, i);
    }
  }

  function Mid(lo: int, hi: int): (mid: int)
    requires 0 <= lo <= hi
    ensures lo <= mid <= hi
  {
    (lo + hi) / 2
  }

  /** in_v4, between two places. */
  function Seek(spans: seq<Span>, n: nat, lo: int, hi: int): bool
    requires 0 <= lo && hi < |spans|
    decreases hi - lo + 1
  {
    if lo > hi then false
    else
      var mid := Mid(lo, hi);
      if n < spans[mid].lo then Seek(spans, n, lo, mid - 1)
      else if n > spans[mid].hi then Seek(spans, n, mid + 1, hi)
      else true
  }

  function Finds(spans: seq<Span>, n: nat): bool {
    Seek(spans, n, 0, |spans| - 1)
  }

  function Search4(list: seq<nat>, n: nat): bool {
    Finds(Pairs(list), n)
  }

  method InV4(list: seq<nat>, n: nat) returns (found: bool)
    requires |list| % 2 == 0
    ensures found == Search4(list, n)
  {
    var lo, hi := 0, |list| / 2 - 1;
    while lo <= hi
      invariant 0 <= lo && hi < |list| / 2
      invariant Search4(list, n) == Seek(Pairs(list), n, lo, hi)
      decreases hi - lo + 1
    {
      var mid := Mid(lo, hi);
      if n < list[2 * mid] {
        hi := mid - 1;
      } else if n > list[2 * mid + 1] {
        lo := mid + 1;
      } else {
        return true;
      }
    }
    return false;
  }

  /** On any list at all, an address the search finds is in one of the ranges. */
  lemma {:induction false} SeekSound(spans: seq<Span>, n: nat, lo: int, hi: int)
    requires 0 <= lo && hi < |spans|
    ensures Seek(spans, n, lo, hi) ==> In(spans, n)
    decreases hi - lo + 1
  {
    if lo <= hi {
      var mid := Mid(lo, hi);
      if n < spans[mid].lo {
        SeekSound(spans, n, lo, mid - 1);
      } else if n > spans[mid].hi {
        SeekSound(spans, n, mid + 1, hi);
      } else {
        assert Within(spans[mid], n);
      }
    }
  }

  // -------------------------------------------- what the merge publishes, in general

  /** Intervals in order of their starts, each with a gap after it unless it runs to the last
      address. */
  predicate Stepped(spans: seq<Span>) {
    Wellformed(true, spans) &&
    forall i :: 0 <= i < |spans| - 1 ==> spans[i].hi == MAX32 || spans[i].hi + 1 < spans[i + 1].lo
  }

  lemma AbsorbStepped(out: seq<Span>, r: Span)
    requires Stepped(out) && r.lo <= r.hi <= MAX32 && forall j :: 0 <= j < |out| ==> out[j].lo <= r.lo
    ensures Stepped(Absorb(true, out, r))
  {
    AbsorbShape(true, out, r);
  }

  lemma {:induction false} MergeStepped(p: seq<Span>)
    requires Wellformed(true, p)
    ensures Stepped(Merge(true, p))
    decreases |p|
  {
    if p != [] {
      PrefixKeeps(p);
      var q := p[..|p| - 1];
      MergeStepped(q);
      MergeShape(true, q);
      forall j | 0 <= j < |Merge(true, q)|
        ensures Merge(true, q)[j].lo <= p[|p| - 1].lo
      {
        StartsByNext(Merge(true, q), p, j);
      }
      AbsorbStepped(Merge(true, q), p[|p| - 1]);
    }
  }

  lemma SteppedAhead(spans: seq<Span>, i: int, j: int)
    requires Stepped(spans) && 0 <= i < j < |spans| && spans[i].hi < MAX32
    ensures spans[i].hi + 1 < spans[j].lo
  {
    assert spans[i + 1].lo <= spans[j].lo;
  }

  // --------------------------------------------------- where the search can be trusted

  /** The first interval that runs to the last address. */
  function FirstFull(spans: seq<Span>): (m: nat)
    ensures m <= |spans|
    ensures forall i :: 0 <= i < m ==> spans[i].hi != MAX32
    ensures m < |spans| ==> spans[m].hi == MAX32
  {
    if spans == [] || spans[0].hi == MAX32 then 0 else 1 + FirstFull(spans[1..])
  }

  /** On its way to place `m` the search is never turned aside: any place it tries beyond `m` holds an
      interval that itself runs to the last address. */
  predicate Clearway(spans: seq<Span>, m: int, lo: int, hi: int)
    requires 0 <= lo <= m <= hi < |spans|
    decreases hi - lo
  {
    var mid := Mid(lo, hi);
    if mid == m then true
    else if mid < m then Clearway(spans, m, mid + 1, hi)
    else spans[mid].hi == MAX32 && Clearway(spans, m, lo, mid - 1)
  }

  predicate Reachable(spans: seq<Span>) {
    FirstFull(spans) == |spans| || Clearway(spans, FirstFull(spans), 0, |spans| - 1)
  }

  /** What is in an interval is found when nothing before it starts beyond the address and everything
      after it does. */
  lemma {:induction false} SeekFindsAt(spans: seq<Span>, n: nat, lo: int, hi: int, i: int)
    requires 0 <= lo <= i <= hi < |spans| && Within(spans[i], n)
    requires forall j :: lo <= j < i ==> spans[j].lo <= n
    requires forall j :: i < j <= hi ==> n < spans[j].lo
    ensures Seek(spans, n, lo, hi)
    decreases hi - lo
  {
    var mid := Mid(lo, hi);
    if mid < i && spans[mid].hi < n {
      SeekFindsAt(spans, n, mid + 1, hi, i);
    } else if mid > i {
      SeekFindsAt(spans, n, lo, mid - 1, i);
    }
  }

  /** An address in an interval with a gap after it is always found. */
  lemma SeekFindsGapped(spans: seq<Span>, n: nat, i: int)
    requires Stepped(spans) && 0 <= i < |spans| && spans[i].hi < MAX32 && Within(spans[i], n)
    ensures Finds(spans, n)
  {
    forall j | i < j < |spans|
      ensures n < spans[j].lo
    {
      SteppedAhead(spans, i, j);
    }
    SeekFindsAt(spans, n, 0, |spans| - 1, i);
  }

  /** With a clear way, so is every address from the first full interval on. */
  lemma {:induction false} SeekFindsFull(spans: seq<Span>, n: nat, m: int, lo: int, hi: int)
    requires Stepped(spans) && 0 <= lo <= m <= hi < |spans| && m == FirstFull(spans)
    requires Clearway(spans, m, lo, hi) && spans[m].lo <= n <= MAX32
    ensures Seek(spans, n, lo, hi)
    decreases hi - lo
  {
    var mid := Mid(lo, hi);
    if mid < m {
      SteppedAhead(spans, mid, m);
      SeekFindsFull(spans, n, m, mid + 1, hi);
    } else if mid > m && n < spans[mid].lo {
      SeekFindsFull(spans, n, m, lo, mid - 1);
    }
  }

  lemma {:induction false} SeekNothingAhead(spans: seq<Span>, n: nat, lo: int, hi: int)
    requires 0 <= lo && hi < |spans| && forall j :: lo <= j <= hi ==> n < spans[j].lo
    ensures !Seek(spans, n, lo, hi)
    decreases hi - lo + 1
  {
    if lo <= hi {
      SeekNothingAhead(spans, n, lo, Mid(lo, hi) - 1);
    }
  }

  /** Place `r` beyond `m` holds an interval with a gap after it, and `n` is the address in the gap. */
  predicate Aside(spans: seq<Span>, m: int, r: int, n: nat) {
    0 <= m < r < |spans| && spans[r].hi < MAX32 && n == spans[r].hi + 1
  }

  lemma AsideAhead(spans: seq<Span>, m: int, r: int, n: nat)
    requires Stepped(spans) && Aside(spans, m, r, n)
    ensures spans[m].lo <= n <= MAX32 && forall j :: r < j < |spans| ==> n < spans[j].lo
  {
    assert spans[m].lo <= spans[r].lo;
    forall j | r < j < |spans|
      ensures n < spans[j].lo
    {
      SteppedAhead(spans, r, j);
    }
  }

  /** Without one, the search is turned aside by some interval, and misses the address after it. */
  lemma {:induction false} SeekTurnedAside(spans: seq<Span>, m: int, lo: int, hi: int) returns (r: int, n: nat)
    requires Stepped(spans) && 0 <= lo <= m <= hi < |spans| && m == FirstFull(spans)
    requires !Clearway(spans, m, lo, hi)
    ensures r <= hi && Aside(spans, m, r, n) && !Seek(spans, n, lo, hi)
    decreases hi - lo
  {
    var mid := Mid(lo, hi);
    if mid < m {
      r, n := SeekTurnedAside(spans, m, mid + 1, hi);
      AsideAhead(spans, m, r, n);
      SteppedAhead(spans, mid, m);
    } else if spans[mid].hi == MAX32 {
      r, n := SeekTurnedAside(spans, m, lo, mid - 1);
      AsideAhead(spans, m, r, n);
    } else {
      r, n := mid, spans[mid].hi + 1;
      AsideAhead(spans, m, r, n);
      SeekNothingAhead(spans, n, mid + 1, hi);
    }
  }

  /** Exactly when the search answers membership on a list the merge can publish: no interval ends
      at the last address, or the way to the first that does is clear. */
  lemma SearchTrueIff(spans: seq<Span>)
    requires Stepped(spans)
    ensures (forall n: nat :: Finds(spans, n) <==> In(spans, n)) <==> Reachable(spans)
  {
    if Reachable(spans) {
      forall n: nat
        ensures Finds(spans, n) <==> In(spans, n)
      {
        SeekSound(spans, n, 0, |spans| - 1);
        if In(spans, n) {
          ReachableFinds(spans, n);
        }
      }
    } else {
      var m := FirstFull(spans);
      var r, n := SeekTurnedAside(spans, m, 0, |spans| - 1);
      AsideAhead(spans, m, r, n);
      assert Within(spans[m], n);
      assert In(spans, n) && !Finds(spans, n);
    }
  }

  lemma ReachableFinds(spans: seq<Span>, n: nat)
    requires Stepped(spans) && Reachable(spans) && In(spans, n)
    ensures Finds(spans, n)
  {
    var i :| 0 <= i < |spans| && Within(spans[i], n);
    if spans[i].hi < MAX32 {
      SeekFindsGapped(spans, n, i);
    } else {
      var m := FirstFull(spans);
      assert spans[m].lo <= spans[i].lo;
      SeekFindsFull(spans, n, m, 0, |spans| - 1);
    }
  }

  lemma ApartIsReachable(spans: seq<Span>)
    requires Apart(spans) && Fits4(spans)
    ensures Reachable(spans)
  {
    forall i | 0 <= i < |spans| - 1
      ensures spans[i].hi < MAX32
    {
      assert spans[i].hi + 1 < spans[i + 1].lo <= spans[i + 1].hi;
    }
    if FirstFull(spans) < |spans| {
      LastIsClear(spans, 0);
    }
  }

  lemma {:induction false} LastIsClear(spans: seq<Span>, lo: nat)
    requires lo < |spans|
    ensures Clearway(spans, |spans| - 1, lo, |spans| - 1)
    decreases |spans| - lo
  {
    var mid := Mid(lo, |spans| - 1);
    if mid < |spans| - 1 {
      LastIsClear(spans, mid + 1);
    }
  }

  // --------------------------------------------------------------- compiled lists

  lemma CompiledStepped(v4: seq<Row4>, v6: seq<Row6>, countries: seq<string>, s: GeoSet)
    returns (p4: seq<Span>)
    requires Sound(All4(v4)) && IsCompiled(v4, v6, countries, s)
    ensures IsSortOf(p4, Chosen(All4(v4), Wanted(countries)), Lo) && Wellformed(true, p4)
    ensures s.v4 == Flat4(Merge(true, p4)) && Pairs(s.v4) == Merge(true, p4) && Stepped(Pairs(s.v4))
  {
    var want := Wanted(countries);
    var q4, p6 :| IsSortOf(q4, Chosen(All4(v4), want), Lo) && IsSortOf(p6, Chosen(All6(v6), want), Lo) &&
                  CompiledFrom(q4, p6, s);
    p4 := q4;
    ChosenFits4(v4, want);
    SortedSpans(p4, Chosen(All4(v4), want));
    MergeStepped(p4);
    PairsOfFlat4(Merge(true, p4));
  }

  lemma SearchIsSeek(list: seq<nat>, spans: seq<Span>, n: nat)
    requires list == Flat4(spans)
    ensures Search4(list, n) == Finds(spans, n) && (Has4(list, n) <==> In(spans, n))
  {
    PairsOfFlat4(spans);
    Flat4Has(spans, n);
  }

  /** The same for a compiled set, from any table of well-formed rows: the data plane's IPv4 answers
      are the true ones if and only if the published list is reachable. */
  lemma CompiledSearchIff(v4: seq<Row4>, v6: seq<Row6>, countries: seq<string>, s: GeoSet)
    requires Sound(All4(v4)) && IsCompiled(v4, v6, countries, s)
    ensures (forall n: nat :: Search4(s.v4, n) <==> Has4(s.v4, n)) <==> Reachable(Pairs(s.v4))
  {
    var p4 := CompiledStepped(v4, v6, countries, s);
    var spans := Pairs(s.v4);
    SearchTrueIff(spans);
    forall n: nat
      ensures Search4(s.v4, n) == Finds(spans, n) && (Has4(s.v4, n) <==> In(spans, n))
    {
      SearchIsSeek(s.v4, spans, n);
    }
  }

  /** One chosen row ends at the last address and another, starting above the first one, may be read
      after it. */
  predicate MayOverrun(rows: seq<Span>) {
    exists i, j :: 0 <= i < |rows| && 0 <= j < |rows| && i != j && OverrunBy(rows[i], rows[j])
  }

  predicate OverrunBy(a: Span, b: Span) {
    a.hi == MAX32 && b.lo > 0 && a.lo <= b.lo
  }

  lemma NeverOverruns(p: seq<Span>, q: seq<Span>)
    requires IsSortOf(p, q, Lo) && !MayOverrun(q)
    ensures !Overruns(p)
  {
    RearrangedApart(p, q, (a, b) => OverrunBy(a, b));
    forall i, j | 0 <= i < j < |p|
      ensures !(p[i].hi == MAX32 && p[j].lo > 0)
    {
      assert !OverrunBy(p[i], p[j]) && Lo(p[i]) <= Lo(p[j]);
    }
  }

  /** A list compiled from rows of which none can overrun another is one the data plane can be trusted
      on, in both families, and the data plane's answer is the true one. */
  lemma CompiledSearchable(v4: seq<Row4>, v6: seq<Row6>, countries: seq<string>, s: GeoSet)
    requires Sound(All4(v4)) && IsCompiled(v4, v6, countries, s)
    requires !MayOverrun(Chosen(All4(v4), Wanted(countries)))
    ensures Reachable(Pairs(s.v4)) && forall n: nat :: Search4(s.v4, n) <==> Has4(s.v4, n)
  {
    var p4 := CompiledStepped(v4, v6, countries, s);
    NeverOverruns(p4, Chosen(All4(v4), Wanted(countries)));
    Merge4ApartIff(p4);
    ApartIsReachable(Pairs(s.v4));
    CompiledSearchIff(v4, v6, countries, s);
  }

  lemma DisjointMayNotOverrun(rows: seq<Span>)
    requires Disjoint(rows) && Proper(rows) && Fits4(rows)
    ensures !MayOverrun(rows)
  {
    forall i, j | 0 <= i < |rows| && 0 <= j < |rows| && i != j
      ensures !OverrunBy(rows[i], rows[j])
    {
      assert i < j ==> !Overlap(rows[i], rows[j]);
      assert j < i ==> !Overlap(rows[j], rows[i]);
    }
  }

  /** The failure itself, from a dataset to a wrong answer: of the rows 0.0.0.6-7, 0.0.0.20-30 and
      0.0.0.5-255.255.255.255 of one country the compiled set covers 0.0.0.100, and the data plane
      answers that it does not. */
  lemma MissedAddress(cc: string, v4: seq<Row4>, s: GeoSet)
    requires IsCountryCode(cc) && v4 == [Row4(6, 7, cc), Row4(20, 30, cc), Row4(5, MAX32, cc)]
    requires s == GeoSet(Flat4([Span(5, MAX32), Span(6, 7), Span(20, 30)]), [])
    ensures ByHi(All4(v4)) && Sound(All4(v4)) && IsCompiled(v4, [], [ToUpper(cc)], s)
    ensures Inside(s, V4(100)) == Some(true) && Searched(s, V4(100)) == Some(false)
  {
    var p := [Span(5, MAX32), Span(6, 7), Span(20, 30)];
    MissedTable(cc, v4);
    MissedCompiled(cc, v4, p, s);
    MissedMerge();
    Flat4Has(p, 100);
  }

  lemma MissedTable(cc: string, v4: seq<Row4>)
    requires IsCountryCode(cc) && v4 == [Row4(6, 7, cc), Row4(20, 30, cc), Row4(5, MAX32, cc)]
    ensures ByHi(All4(v4)) && Sound(All4(v4))
  {
  }

  lemma MissedCompiled(cc: string, v4: seq<Row4>, p: seq<Span>, s: GeoSet)
    requires IsCountryCode(cc) && v4 == [Row4(6, 7, cc), Row4(20, 30, cc), Row4(5, MAX32, cc)]
    requires p == [Span(5, MAX32), Span(6, 7), Span(20, 30)] && s == GeoSet(Flat4(p), [])
    ensures IsCompiled(v4, [], [ToUpper(cc)], s)
  {
    var want := Wanted([ToUpper(cc)]);
    CodeWanted(cc);
    MissedSorted(cc, v4, p, want);
    MissedFlat(p, s);
    EmptyCompiles(want);
  }

  lemma MissedSorted(cc: string, v4: seq<Row4>, p: seq<Span>, want: set<string>)
    requires v4 == [Row4(6, 7, cc), Row4(20, 30, cc), Row4(5, MAX32, cc)] && ToUpper(cc) in want
    requires p == [Span(5, MAX32), Span(6, 7), Span(20, 30)]
    ensures IsSortOf(p, Chosen(All4(v4), want), Lo)
  {
    forall i | 0 <= i < 3
      ensures v4[i].cc == cc
    {
    }
    ChosenThree(v4, want);
    LastFirst(Chosen(All4(v4), want), p);
  }

  lemma MissedFlat(p: seq<Span>, s: GeoSet)
    requires p == [Span(5, MAX32), Span(6, 7), Span(20, 30)] && s == GeoSet(Flat4(p), [])
    ensures CompiledFrom(p, [], s)
  {
    MissedMerge();
    EmptyCompiles({});
  }

  lemma LastFirst(q: seq<Span>, p: seq<Span>)
    requires |q| == 3 && p == [q[2], q[0], q[1]] && q[2].lo <= q[0].lo <= q[1].lo
    ensures IsSortOf(p, q, Lo)
  {
    var front := [q[0], q[1]];
    Rotated(front, q[2]);
    assert q == front + [q[2]] && p == [q[2]] + front;
    assert Lo(p[0]) <= Lo(p[1]) <= Lo(p[2]);
  }

  lemma Rotated<T>(xs: seq<T>, y: T)
    ensures multiset([y] + xs) == multiset(xs + [y])
  {
  }

  lemma CodeWanted(cc: string)
    requires IsCountryCode(cc)
    ensures ToUpper(cc) in Wanted([ToUpper(cc)])
  {
    var up := ToUpper(cc);
    assert !IsSpace(up[0]) && !IsSpace(up[1]);
    assert ToUpper(TrimSpace(up)) == ToUpper(up) == up;
    assert up in [up];
  }

  lemma ChosenThree(v4: seq<Row4>, want: set<string>)
    requires |v4| == 3 && forall i :: 0 <= i < 3 ==> ToUpper(v4[i].cc) in want
    ensures Chosen(All4(v4), want) == [All4(v4)[0].span, All4(v4)[1].span, All4(v4)[2].span]
  {
    var rows := All4(v4);
    assert rows[..2][..1] == rows[..1] && rows[..1][..0] == [];
    assert Chosen(rows[..1], want) == [rows[0].span];
    assert Chosen(rows[..2], want) == [rows[0].span, rows[1].span];
  }

  lemma EmptyCompiles(want: set<string>)
    ensures IsSortOf([], Chosen(All6([]), want), Lo) && Merge(false, []) == [] && Flat6([]) == []
  {
  }

  lemma MissedMerge()
    ensures var p := [Span(5, MAX32), Span(6, 7), Span(20, 30)];
            Wellformed(true, p) && Merge(true, p) == p && In(p, 100) && !Reachable(p) && !Search4(Flat4(p), 100)
  {
    var p := [Span(5, MAX32), Span(6, 7), Span(20, 30)];
    assert p[..2][..1] == [p[0]] && p[..2] == [p[0], p[1]] && [p[0]][..0] == [];
    assert Merge(true, [p[0]]) == [p[0]];
    assert Merge(true, p[..2]) == [p[0], p[1]];
    assert Within(p[0], 100);
    assert FirstFull(p) == 0;
    PairsOfFlat4(p);
  }

  // ------------------------------------------------------------ the IPv6 search

  /** A list the search can be trusted on: pairs in order, each ending before the next begins. */
  ghost predicate Searchable6(list: seq<string>) {
    exists spans :: Strict(spans) && Fits6(spans) && list == Flat6(spans)
  }

  /** Which every compiled list is, whatever the rows. */
  lemma Compiled6Searchable(v4: seq<Row4>, v6: seq<Row6>, countries: seq<string>, s: GeoSet)
    requires Sound(All6(v6)) && IsCompiled(v4, v6, countries, s)
    ensures Searchable6(s.v6)
  {
    var want := Wanted(countries);
    var p4, p6 :| IsSortOf(p4, Chosen(All4(v4), want), Lo) && IsSortOf(p6, Chosen(All6(v6), want), Lo) &&
                  CompiledFrom(p4, p6, s);
    SortedSpans(p6, Chosen(All6(v6), want));
    Merge6Strict(p6);
  }

  /** What one comparison rules out: everything from the middle on, or up to it, or nothing. */
  ghost predicate Probed(spans: seq<Span>, mid: nat, x: nat, below: bool, above: bool) {
    mid < |spans| &&
    (below ==> forall k :: mid <= k < |spans| ==> !Within(spans[k], x)) &&
    (!below && above ==> forall k :: 0 <= k <= mid ==> !Within(spans[k], x)) &&
    (!below && !above ==> Within(spans[mid], x))
  }

  lemma StrictProbed(spans: seq<Span>, mid: nat, x: nat)
    requires Strict(spans) && mid < |spans|
    ensures Probed(spans, mid, x, x < spans[mid].lo, spans[mid].hi < x)
  {
  }

  /** For IPv6, comparing text is comparing numbers. */
  method Probe6(list: seq<string>, mid: nat, h: string, ghost spans: seq<Span>, ghost v: Word128)
    returns (below: bool, above: bool)
    requires Fits6(spans) && list == Flat6(spans) && mid < |spans| && h == Hex128(v)
    ensures below <==> v < spans[mid].lo
    ensures above <==> spans[mid].hi < v
  {
    Flat6At(spans, mid);
    Hex128Order(v, spans[mid].lo);
    Hex128Order(spans[mid].hi, v);
    below, above := LexLess(h, list[2 * mid]), LexLess(list[2 * mid + 1], h);
  }

  ghost predicate Narrowed(spans: seq<Span>, x: nat, lo: int, hi: int) {
    0 <= lo <= hi + 1 <= |spans| &&
    forall k :: 0 <= k < |spans| && Within(spans[k], x) ==> lo <= k <= hi
  }

  method InV6(list: seq<string>, h: string, ghost v: Word128) returns (found: bool)
    requires Searchable6(list) && h == Hex128(v)
    ensures found <==> Has6(list, h)
  {
    ghost var spans: seq<Span> :| Strict(spans) && Fits6(spans) && list == Flat6(spans);
    Flat6Has(spans, v);
    var lo, hi := 0, |list| / 2 - 1;
    while lo <= hi
      invariant Narrowed(spans, v, lo, hi)
    {
      var mid := Mid(lo, hi);
      var below, above := Probe6(list, mid, h, spans, v);
      StrictProbed(spans, mid, v);
      if below {
        hi := mid - 1;
      } else if above {
        lo := mid + 1;
      } else {
        return true;
      }
    }
    return false;
  }

  // ------------------------------------------------------------------- contains

  /** What the data plane answers for an address. */
  ghost function Searched(s: GeoSet, a: Addr): Option<bool> {
    match a.Unmap()
    case V4(n) => if s.v4 == [] then None else Some(Search4(s.v4, n))
    case V6(v) => if s.v6 == [] then None else Some(Has6(s.v6, Hex128(v)))
  }

  method Contains(s: GeoSet, a: Addr) returns (r: Option<bool>)
    requires |s.v4| % 2 == 0 && Searchable6(s.v6)
    ensures r == Searched(s, a)
    ensures r.None? <==> if a.Unmap().V4? then s.v4 == [] else s.v6 == []
  {
    match a.Unmap() {
      case V4(n) =>
        if |s.v4| == 0 {
          return None;
        }
        var found := InV4(s.v4, n);
        return Some(found);
      case V6(v) =>
        if |s.v6| == 0 {
          return None;
        }
        var found := InV6(s.v6, Hex128(v), v);
        return Some(found);
    }
  }

  // geo.lua, refuses
  method Refuses(mode: string, s: GeoSet, a: Addr) returns (refused: bool)
    requires |s.v4| % 2 == 0 && Searchable6(s.v6)
    ensures refused <==> Refused(mode, s, a)
  {
    if mode != "block" && mode != "allow" {
      return false;
    }
    var inside := Contains(s, a);
    if inside.None? {
      return false;
    }
    if mode == "block" {
      return inside.value;
    }
    return !inside.value;
  }

  /** A blocking rule refuses who is inside, an allowing one who is outside, and neither someone it
      cannot place. */
  ghost predicate Refused(mode: string, s: GeoSet, a: Addr) {
    (mode == "block" && Searched(s, a) == Some(true)) || (mode == "allow" && Searched(s, a) == Some(false))
  }

  /** The verdict, from the operator's side. On a dataset whose rows do not overlap a rule on a list
      without ZZ refuses a visitor, when it blocks, exactly if the country reported for it is listed,
      and when it allows, exactly if it is not - provided the list has any ranges in the visitor's
      family, without which nobody of that family is refused. */
  lemma RefusedIff(mode: string, v4: seq<Row4>, v6: seq<Row6>, countries: seq<string>, s: GeoSet, a: Addr)
    requires ByHi(All4(v4)) && Sound(All4(v4)) && RowsDisjoint(All4(v4))
    requires ByHi(All6(v6)) && Sound(All6(v6)) && RowsDisjoint(All6(v6))
    requires IsCompiled(v4, v6, countries, s) && "ZZ" !in Wanted(countries)
    ensures var cc := Label(v4, v6, a);
            var listed := cc != "" && ToUpper(cc) in Wanted(countries);
            var placed := if a.Unmap().V4? then s.v4 != [] else s.v6 != [];
            Refused(mode, s, a) <==> placed && ((mode == "block" && listed) || (mode == "allow" && !listed))
  {
    BlockingAgreesWithReporting(v4, v6, countries, s, a);
    SearchedIsInside(v4, v6, countries, s, a);
  }

  /** On a dataset whose rows do not overlap the data plane answers every address truly, and what it
      is given meets what `Contains` asks. */
  lemma SearchedIsInside(v4: seq<Row4>, v6: seq<Row6>, countries: seq<string>, s: GeoSet, a: Addr)
    requires Sound(All4(v4)) && RowsDisjoint(All4(v4)) && Sound(All6(v6)) && IsCompiled(v4, v6, countries, s)
    ensures |s.v4| % 2 == 0 && Searchable6(s.v6)
    ensures Searched(s, a) == Inside(s, a)
  {
    var p4 := CompiledStepped(v4, v6, countries, s);
    Compiled6Searchable(v4, v6, countries, s);
    TablesMayNotOverrun(v4, Wanted(countries));
    CompiledSearchable(v4, v6, countries, s);
    TrueSearchIsInside(s, a);
  }

  lemma TrueSearchIsInside(s: GeoSet, a: Addr)
    requires forall n: nat :: Search4(s.v4, n) <==> Has4(s.v4, n)
    ensures Searched(s, a) == Inside(s, a)
  {
  }

  lemma TablesMayNotOverrun(v4: seq<Row4>, want: set<string>)
    requires Sound(All4(v4)) && RowsDisjoint(All4(v4))
    ensures !MayOverrun(Chosen(All4(v4), want))
  {
    ChosenDisjoint(All4(v4), want);
    ChosenFits4(v4, want);
    DisjointMayNotOverrun(Chosen(All4(v4), want));
  }
}
