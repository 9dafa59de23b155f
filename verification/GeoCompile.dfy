/** geosets.go, SetFor: the compiler itself, over the loaded tables. */
module GeoCompile {
  import opened Wrappers
  import opened NetAddr
  import opened Text
  import opened GeoMerge
  import opened GeoWords
  import opened GeoTable
  import opened GeoSets
  import opened Sorting

  /** An IPv6 range on its way through: two sixteen-byte bounds. */
  datatype Pick6 = Pick6(lo: Bytes, hi: Bytes)

  predicate Sized(p: Pick6) {
    |p.lo| == 16 && |p.hi| == 16
  }

  function SpanOf(p: Pick6): Span {
    Span(BeValue(p.lo), BeValue(p.hi))
  }

  function Spans(ps: seq<Pick6>): (r: seq<Span>)
    ensures |r| == |ps| && forall i :: 0 <= i < |ps| ==> r[i] == SpanOf(ps[i])
  {
    seq(|ps|, i requires 0 <= i < |ps| => SpanOf(ps[i]))
  }

  function LoKey(p: Pick6): nat {
    BeValue(p.lo)
  }

  /** Ordering the bounds as byte strings is ordering them as numbers. */
  lemma SortedPicks(out: seq<Pick6>, xs: seq<Pick6>)
    requires IsSortOf(out, xs, LoKey)
    ensures IsSortOf(Spans(out), Spans(xs), Lo)
  {
    MappedRearranged(out, xs, SpanOf);
    assert Spans(out) == Mapped(out, SpanOf) && Spans(xs) == Mapped(xs, SpanOf);
    assert forall i, j :: 0 <= i < j < |out| ==> LoKey(out[i]) <= LoKey(out[j]);
  }

  // ------------------------------------------------------------- picking rows

  method Pick4(v4: seq<Row4>, want: set<string>) returns (picked: seq<Span>)
    ensures picked == Chosen(All4(v4), want)
  {
    picked := [];
    var i := 0;
    while i < |v4|
      invariant 0 <= i <= |v4| && picked == Chosen(All4(v4)[..i], want)
    {
      assert All4(v4)[..i + 1][..i] == All4(v4)[..i];
      if ToUpper(v4[i].cc) in want {
        picked := picked + [Span(v4[i].lo, v4[i].hi)];
      }
      i := i + 1;
    }
    assert All4(v4)[..i] == All4(v4);
  }

  method Bounds6(r: Row6) returns (p: Pick6)
    ensures Sized(p) && SpanOf(p) == Of6(r).span
  {
    var lo := Bytes16(r.loHi, r.loLo);
    var hi := Bytes16(r.hiHi, r.hiLo);
    HalvesRoundTrip(r.loHi, r.loLo);
    HalvesRoundTrip(r.hiHi, r.hiLo);
    p := Pick6(lo, hi);
  }

  method PickAll6(v6: seq<Row6>, want: set<string>) returns (picked: seq<Pick6>)
    ensures Spans(picked) == Chosen(All6(v6), want)
    ensures forall p :: p in picked ==> Sized(p)
  {
    picked := [];
    var i := 0;
    while i < |v6|
      invariant 0 <= i <= |v6| && Spans(picked) == Chosen(All6(v6)[..i], want)
      invariant forall p :: p in picked ==> Sized(p)
    {
      assert All6(v6)[..i + 1][..i] == All6(v6)[..i];
      var r := v6[i];
      if ToUpper(r.cc) in want {
        var p := Bounds6(r);
        assert Spans(picked + [p]) == Spans(picked) + [Of6(r).span];
        picked := picked + [p];
      }
      i := i + 1;
    }
    assert All6(v6)[..i] == All6(v6);
  }

  // ------------------------------------------------------------ merging in place

  function Step4(list: seq<nat>, r: Span): seq<nat> {
    var n := |list|;
    if n > 0 && r.lo <= (list[n - 1] + 1) % TWO32 then
      if r.hi > list[n - 1] then list[n - 1 := r.hi] else list
    else list + [r.lo, r.hi]
  }

  lemma Flat4Append(out: seq<Span>, r: Span)
    ensures Flat4(out + [r]) == Flat4(out) + [r.lo, r.hi]
  {
    assert (out + [r])[..|out|] == out;
  }

  lemma SetSecond<T>(f: seq<T>, a: T, b: T, c: T, x: seq<T>, y: seq<T>)
    requires x == f + [a, b] && y == f + [a, c]
    ensures x[|f| + 1] == b && y == x[|f| + 1 := c]
  {
  }

  lemma Flat4Last(pre: seq<Span>, last: Span, hi: nat)
    ensures Flat4(pre + [last])[|Flat4(pre)| + 1] == last.hi &&
            Flat4(pre + [Span(last.lo, hi)]) == Flat4(pre + [last])[|Flat4(pre)| + 1 := hi]
  {
    Flat4Append(pre, last);
    Flat4Append(pre, Span(last.lo, hi));
    SetSecond(Flat4(pre), last.lo, last.hi, hi, Flat4(pre + [last]), Flat4(pre + [Span(last.lo, hi)]));
  }

  lemma Step4IsAbsorb(out: seq<Span>, r: Span)
    ensures Step4(Flat4(out), r) == Flat4(Absorb(true, out, r))
  {
    Flat4Append(out, r);
    if out != [] {
      var n := |out| - 1;
      assert out == out[..n] + [out[n]];
      Flat4Last(out[..n], out[n], r.hi);
    }
  }

  lemma MergeNext(four: bool, p: seq<Span>, i: nat)
    requires i < |p|
    ensures Merge(four, p[..i + 1]) == Absorb(four, Merge(four, p[..i]), p[i])
  {
    assert p[..i + 1][..i] == p[..i];
  }

  method Absorb4(list: seq<nat>, r: Span) returns (next: seq<nat>)
    ensures next == Step4(list, r)
  {
    var n := |list|;
    next := list;
    if n > 0 && r.lo <= (list[n - 1] + 1) % TWO32 {
      if r.hi > list[n - 1] {
        next := list[n - 1 := r.hi];
      }
    } else {
      next := list + [r.lo, r.hi];
    }
  }

  method Merge4(picked: seq<Span>) returns (list: seq<nat>)
    ensures list == Flat4(Merge(true, picked))
  {
    list := [];
    var i := 0;
    while i < |picked|
      invariant 0 <= i <= |picked| && list == Flat4(Merge(true, picked[..i]))
    {
      Step4IsAbsorb(Merge(true, picked[..i]), picked[i]);
      MergeNext(true, picked, i);
      list := Absorb4(list, picked[i]);
      i := i + 1;
    }
    assert picked[..i] == picked;
  }

  function Step6(list: seq<string>, lo: string, hi: string): seq<string> {
    var n := |list|;
    if n > 0 && LexLe(lo, list[n - 1]) then
      if LexLess(list[n - 1], hi) then list[n - 1 := hi] else list
    else list + [lo, hi]
  }

  /** The same step on numbers. */
  function Number6(list: seq<nat>, r: Span): seq<nat> {
    var n := |list|;
    if n > 0 && r.lo <= list[n - 1] then
      if r.hi > list[n - 1] then list[n - 1 := r.hi] else list
    else list + [r.lo, r.hi]
  }

  lemma Number6IsAbsorb(out: seq<Span>, r: Span)
    ensures Number6(Flat4(out), r) == Flat4(Absorb(false, out, r))
  {
    Flat4Append(out, r);
    if out != [] {
      var n := |out| - 1;
      assert out == out[..n] + [out[n]];
      Flat4Last(out[..n], out[n], r.hi);
    }
  }

  lemma MappedTwo<T, U>(list: seq<T>, a: T, b: T, f: T -> U)
    ensures Mapped(list + [a, b], f) == Mapped(list, f) + [f(a), f(b)]
  {
  }

  lemma MappedLast<T, U>(list: seq<T>, a: T, f: T -> U)
    requires list != []
    ensures Mapped(list[|list| - 1 := a], f) == Mapped(list, f)[|list| - 1 := f(a)]
  {
  }

  lemma HexIsMapped(list: seq<nat>)
    ensures HexAll(list) == Mapped(list, Hex128)
  {
  }

  lemma Step6IsNumber6(list: seq<nat>, r: Span)
    requires r.lo < TWO128 && r.hi < TWO128 && forall i :: 0 <= i < |list| ==> list[i] < TWO128
    ensures Step6(HexAll(list), Hex128(r.lo), Hex128(r.hi)) == HexAll(Number6(list, r))
  {
    HexIsMapped(list);
    HexIsMapped(Number6(list, r));
    MappedTwo(list, r.lo, r.hi, Hex128);
    if list != [] {
      MappedLast(list, r.hi, Hex128);
      Hex128Order(r.lo, list[|list| - 1]);
      Hex128Order(list[|list| - 1], r.hi);
    }
  }

  predicate AllWords(list: seq<nat>) {
    forall i :: 0 <= i < |list| ==> list[i] < TWO128
  }

  lemma Step6IsAbsorb(out: seq<Span>, r: Span)
    requires AllWords(Flat4(out)) && r.lo < TWO128 && r.hi < TWO128
    ensures AllWords(Flat4(Absorb(false, out, r)))
    ensures Step6(Flat6(out), Hex128(r.lo), Hex128(r.hi)) == Flat6(Absorb(false, out, r))
  {
    Number6IsAbsorb(out, r);
    NumbersStayWords(Flat4(out), r);
    Step6IsNumber6(Flat4(out), r);
  }

  lemma NumbersStayWords(list: seq<nat>, r: Span)
    requires AllWords(list) && r.lo < TWO128 && r.hi < TWO128
    ensures AllWords(Number6(list, r))
  {
  }

  lemma WordsFit(out: seq<Span>)
    requires AllWords(Flat4(out))
    ensures Fits6(out)
  {
    forall i | 0 <= i < |out|
      ensures out[i].lo < TWO128 && out[i].hi < TWO128
    {
      Flat4At(out, i);
    }
  }

  lemma PickHex(p: Pick6)
    requires Sized(p)
    ensures SpanOf(p).lo < TWO128 && SpanOf(p).hi < TWO128
    ensures EncodeHex(p.lo) == Hex128(SpanOf(p).lo) && EncodeHex(p.hi) == Hex128(SpanOf(p).hi)
  {
    Pow256Values();
    BeBound(p.lo);
    BeBound(p.hi);
    ToBytesOfValue(p.lo);
    ToBytesOfValue(p.hi);
  }

  method Absorb6(list: seq<string>, r: Pick6) returns (next: seq<string>)
    ensures next == Step6(list, EncodeHex(r.lo), EncodeHex(r.hi))
  {
    var lo, hi := EncodeHex(r.lo), EncodeHex(r.hi);
    var n := |list|;
    next := list;
    if n > 0 && LexLe(lo, list[n - 1]) {
      if LexLess(list[n - 1], hi) {
        next := list[n - 1 := hi];
      }
    } else {
      next := list + [lo, hi];
    }
  }

  method Merge6(picked: seq<Pick6>) returns (list: seq<string>)
    requires forall p :: p in picked ==> Sized(p)
    ensures Fits6(Merge(false, Spans(picked))) && list == Flat6(Merge(false, Spans(picked)))
  {
    list := [];
    ghost var spans := Spans(picked);
    var i := 0;
    while i < |picked|
      invariant 0 <= i <= |picked|
      invariant AllWords(Flat4(Merge(false, spans[..i]))) && list == Flat6(Merge(false, spans[..i]))
    {
      PickHex(picked[i]);
      Step6IsAbsorb(Merge(false, spans[..i]), spans[i]);
      MergeNext(false, spans, i);
      list := Absorb6(list, picked[i]);
      i := i + 1;
    }
    assert spans[..i] == spans;
    WordsFit(Merge(false, spans));
  }

  lemma {:induction false} MergeEmptyIff(four: bool, p: seq<Span>)
    ensures Merge(four, p) == [] <==> p == []
    decreases |p|
  {
    if p != [] {
      MergeEmptyIff(four, p[..|p| - 1]);
    }
  }

  /** SetFor: an answer exactly when one can be given, and then a compiled set. */
  method SetFor(g: GeoIP, countries: seq<string>) returns (r: Option<GeoSet>)
    ensures r.Some? <==> CanCompile(g.v4, g.v6, countries)
    ensures r.Some? ==> IsCompiled(g.v4, g.v6, countries, r.value)
  {
    if |countries| == 0 || |countries| > MAX_GEO_COUNTRIES {
      return None;
    }
    var want := Wanted(countries);
    if |g.v4| == 0 && |g.v6| == 0 {
      assert Chosen(All4(g.v4), want) == [] && Chosen(All6(g.v6), want) == [];
      return None;
    }
    r := FromTables(g.v4, g.v6, want);
    if r.Some? {
      PicksAreCompiled(g.v4, g.v6, countries, r.value);
    }
  }

  method FromTables(v4: seq<Row4>, v6: seq<Row6>, want: set<string>) returns (r: Option<GeoSet>)
    ensures r.Some? <==> 0 < |Chosen(All4(v4), want)| + |Chosen(All6(v6), want)| <= MAX_GEO_RANGES
    ensures r.Some? ==> CompiledPicks(Chosen(All4(v4), want), Chosen(All6(v6), want), r.value)
  {
    var picked4 := Pick4(v4, want);
    var picked6 := PickAll6(v6, want);
    if |picked4| + |picked6| > MAX_GEO_RANGES {
      return None;
    }
    var out4, out6 := Compile(picked4, picked6);
    if |out4| == 0 && |out6| == 0 {
      return None;
    }
    r := Some(GeoSet(out4, out6));
  }

  ghost predicate CompiledPicks(p4: seq<Span>, p6: seq<Span>, s: GeoSet) {
    exists q4, q6 :: IsSortOf(q4, p4, Lo) && IsSortOf(q6, p6, Lo) && CompiledFrom(q4, q6, s)
  }

  lemma PicksAreCompiled(v4: seq<Row4>, v6: seq<Row6>, countries: seq<string>, s: GeoSet)
    requires CompiledPicks(Chosen(All4(v4), Wanted(countries)), Chosen(All6(v6), Wanted(countries)), s)
    ensures IsCompiled(v4, v6, countries, s)
  {
  }

  method Compile(picked4: seq<Span>, picked6: seq<Pick6>) returns (out4: seq<nat>, out6: seq<string>)
    requires forall p :: p in picked6 ==> Sized(p)
    ensures CompiledPicks(picked4, Spans(picked6), GeoSet(out4, out6))
    ensures out4 == [] <==> picked4 == []
    ensures out6 == [] <==> picked6 == []
  {
    var sorted4 := SortSlice(picked4, Lo);
    var sorted6 := SortSlice(picked6, LoKey);
    SameElements(sorted4, picked4, Lo);
    SameElements(sorted6, picked6, LoKey);
    SortedPicks(sorted6, picked6);
    out4 := Merge4(sorted4);
    out6 := Merge6(sorted6);
    MergeEmptyIff(true, sorted4);
    MergeEmptyIff(false, Spans(sorted6));
    assert CompiledFrom(sorted4, Spans(sorted6), GeoSet(out4, out6));
  }
}
