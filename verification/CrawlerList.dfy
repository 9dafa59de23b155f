/** crawlerlist.go, ValidateRanges: a published list cut down to what may be trusted, and how much
    of the address space it can possibly cover. */
module CrawlerList {
  import opened Wrappers
  import opened NetAddr
  import opened Text
  import opened CrawlerPrefix
  import opened Counting
  import opened Sorting

  const MAX_IPV4_ADDRESSES: nat := 0x40_0000
  const MAX_IPV6_SUBNETS: nat := 0x10_0000
  const MAX_PREFIXES: nat := 4096

  // netip.Prefix.String
  type Printer = Range -> string

  /** Printing and parsing undo each other on the ranges that are kept. */
  ghost predicate Undone(parse: Parser, show: Printer) {
    forall q: Range :: Canonical(q) ==> parse(show(q)) == Some(q) && show(q) != "" && TrimSpace(show(q)) == show(q)
  }

  // -------------------------------------------------------------------- sizes

  function Ipv4Size(p: Prefix): nat {
    if p.addr.V4? && p.bits <= 32 then Pow2(32 - p.bits) else 0
  }

  function Ipv6Subnets(p: Prefix): nat {
    if p.addr.V4? || p.bits > 64 then 0 else Pow2(64 - p.bits)
  }

  function Sum<T>(xs: seq<T>, size: T -> nat): nat {
    if xs == [] then 0 else Sum(xs[..|xs| - 1], size) + size(xs[|xs| - 1])
  }

  function Named(parse: Parser, s: string): Range {
    if parse(s).Some? then parse(s).value else Prefix(V4(0), 32)
  }

  function V4Size(parse: Parser): string -> nat {
    s => Ipv4Size(Named(parse, s))
  }

  function V6Size(parse: Parser): string -> nat {
    s => Ipv6Subnets(Named(parse, s))
  }

  lemma {:induction false} SumAppends<T>(a: seq<T>, b: seq<T>, size: T -> nat)
    ensures Sum(a + b, size) == Sum(a, size) + Sum(b, size)
    decreases |b|
  {
    if b == [] {
      assert a + b == a;
    } else {
      var k := |b| - 1;
      assert (a + b)[..|a| + k] == a + b[..k];
      SumAppends(a, b[..k], size);
    }
  }

  lemma SumNext<T>(xs: seq<T>, x: T, size: T -> nat)
    ensures Sum(xs + [x], size) == Sum(xs, size) + size(x)
  {
    assert (xs + [x])[..|xs|] == xs;
  }

  lemma {:induction false} SumPermutes<T>(a: seq<T>, b: seq<T>, size: T -> nat)
    requires multiset(a) == multiset(b)
    ensures Sum(a, size) == Sum(b, size)
    decreases |a|
  {
    if a == [] {
      assert |multiset(b)| == 0;
    } else {
      var front, last := a[..|a| - 1], a[|a| - 1];
      assert a == front + [last];
      var pre, post := TakeOut(b, last);
      SumPermutes(front, pre + post, size);
      SumAppends(pre + [last], post, size);
      SumNext(pre, last, size);
      SumAppends(pre, post, size);
    }
  }

  // ------------------------------------------------------- what the list becomes

  type Judging = string -> Verdict

  function By(parse: Parser): Judging {
    raw => ValidatePrefix(raw, parse)
  }

  /** The ranges kept, as text, in the order first met. */
  function Kept(raw: seq<string>, judge: Judging, show: Printer): seq<string> {
    if raw == [] then []
    else
      var before := Kept(raw[..|raw| - 1], judge, show);
      var v := judge(raw[|raw| - 1]);
      if v.Accept? && show(v.p) !in before then before + [show(v.p)] else before
  }

  function Rejected(raw: seq<string>, judge: Judging): seq<string> {
    if raw == [] then []
    else Rejected(raw[..|raw| - 1], judge) + if judge(raw[|raw| - 1]).Accept? then [] else [raw[|raw| - 1]]
  }

  function Validated(raw: seq<string>, parse: Parser, show: Printer): (Option<seq<string>>, seq<string>) {
    var out := Kept(raw, By(parse), show);
    if |raw| > MAX_PREFIXES then (None, [])
    else if Sum(out, V4Size(parse)) > MAX_IPV4_ADDRESSES || Sum(out, V6Size(parse)) > MAX_IPV6_SUBNETS || out == []
    then (None, Rejected(raw, By(parse)))
    else (Some(SortStrings(out)), Rejected(raw, By(parse)))
  }

  lemma KeptNext(raw: seq<string>, i: nat, judge: Judging, show: Printer)
    requires i < |raw|
    ensures Kept(raw[..i + 1], judge, show) ==
            var before := Kept(raw[..i], judge, show);
            var v := judge(raw[i]);
            if v.Accept? && show(v.p) !in before then before + [show(v.p)] else before
    ensures Rejected(raw[..i + 1], judge) == Rejected(raw[..i], judge) + if judge(raw[i]).Accept? then [] else [raw[i]]
  {
    assert raw[..i + 1][..i] == raw[..i];
  }

  lemma SizesNext(out: seq<string>, p: Range, parse: Parser, show: Printer)
    requires Undone(parse, show) && Canonical(p)
    ensures Sum(out + [show(p)], V4Size(parse)) == Sum(out, V4Size(parse)) + Ipv4Size(p)
    ensures Sum(out + [show(p)], V6Size(parse)) == Sum(out, V6Size(parse)) + Ipv6Subnets(p)
  {
    SumNext(out, show(p), V4Size(parse));
    SumNext(out, show(p), V6Size(parse));
  }

  /** The loop, with its running totals; `judge` is ValidatePrefix. */
  method Sift(raw: seq<string>, judge: Judging, parse: Parser, show: Printer)
    returns (out: seq<string>, rejected: seq<string>, total: nat, totalV6: nat)
    requires Undone(parse, show) && forall s :: judge(s).Accept? ==> Canonical(judge(s).p)
    ensures out == Kept(raw, judge, show) && rejected == Rejected(raw, judge)
    ensures total == Sum(out, V4Size(parse)) && totalV6 == Sum(out, V6Size(parse))
  {
    out, rejected, total, totalV6 := [], [], 0, 0;
    var seen: set<string> := {};
    for i := 0 to |raw|
      invariant out == Kept(raw[..i], judge, show) && rejected == Rejected(raw[..i], judge)
      invariant total == Sum(out, V4Size(parse)) && totalV6 == Sum(out, V6Size(parse))
      invariant forall s :: s in seen <==> s in out
    {
      KeptNext(raw, i, judge, show);
      var v := judge(raw[i]);
      if !v.Accept? {
        rejected := rejected + [raw[i]];
      } else {
        var s := show(v.p);
        if s !in seen {
          SizesNext(out, v.p, parse, show);
          seen := seen + {s};
          total := total + Ipv4Size(v.p);
          totalV6 := totalV6 + Ipv6Subnets(v.p);
          out := out + [s];
        }
      }
    }
    assert raw[..|raw|] == raw;
  }

  method ValidateRanges(raw: seq<string>, parse: Parser, show: Printer) returns (r: Option<seq<string>>, rejected: seq<string>)
    requires Undone(parse, show)
    ensures (r, rejected) == Validated(raw, parse, show)
  {
    if |raw| > MAX_PREFIXES {
      return None, [];
    }
    forall s | By(parse)(s).Accept?
      ensures Canonical(By(parse)(s).p)
    {
      AcceptedIsCanonical(s, parse);
    }
    var out, total, totalV6;
    out, rejected, total, totalV6 := Sift(raw, By(parse), parse, show);
    if total > MAX_IPV4_ADDRESSES || totalV6 > MAX_IPV6_SUBNETS || |out| == 0 {
      return None, rejected;
    }
    r := Some(SortStrings(out));
  }

  lemma AcceptedIsCanonical(raw: string, parse: Parser)
    requires ValidatePrefix(raw, parse).Accept?
    ensures Canonical(ValidatePrefix(raw, parse).p)
  {
    AcceptedMeans(parse(TrimSpace(raw)).value);
  }

  // ------------------------------------------------------- what the kept list is

  ghost predicate Spelled(s: string, parse: Parser, show: Printer) {
    parse(s).Some? && Canonical(parse(s).value) && show(parse(s).value) == s
  }

  predicate KeptFrom(raw: string, judge: Judging, show: Printer, s: string) {
    judge(raw).Accept? && show(judge(raw).p) == s
  }

  /** What is kept is the text of the accepted entries, each text once. */
  lemma {:induction false} KeptIff(raw: seq<string>, judge: Judging, show: Printer, s: string)
    ensures s in Kept(raw, judge, show) <==> exists i :: 0 <= i < |raw| && KeptFrom(raw[i], judge, show, s)
    decreases |raw|
  {
    if raw != [] {
      var k := |raw| - 1;
      KeptIff(raw[..k], judge, show, s);
      if s in Kept(raw[..k], judge, show) {
        var i :| 0 <= i < |raw[..k]| && KeptFrom(raw[..k][i], judge, show, s);
        assert KeptFrom(raw[i], judge, show, s);
      } else if s in Kept(raw, judge, show) {
        assert KeptFrom(raw[k], judge, show, s);
      } else {
        forall i | 0 <= i < |raw|
          ensures !KeptFrom(raw[i], judge, show, s)
        {
          assert i < k ==> raw[..k][i] == raw[i];
        }
      }
    }
  }

  predicate Distinct(ss: seq<string>) {
    forall i, j :: 0 <= i < j < |ss| ==> ss[i] != ss[j]
  }

  lemma {:induction false} KeptAreDistinct(raw: seq<string>, judge: Judging, show: Printer)
    ensures Distinct(Kept(raw, judge, show)) && |Kept(raw, judge, show)| <= |raw|
    decreases |raw|
  {
    if raw != [] {
      KeptAreDistinct(raw[..|raw| - 1], judge, show);
    }
  }

  lemma KeptAreCanonical(raw: seq<string>, parse: Parser, show: Printer, s: string)
    requires Undone(parse, show) && s in Kept(raw, By(parse), show)
    ensures Spelled(s, parse, show)
  {
    KeptIff(raw, By(parse), show, s);
    var i :| 0 <= i < |raw| && KeptFrom(raw[i], By(parse), show, s);
    AcceptedIsCanonical(raw[i], parse);
  }

  /** An address as the published list means it: a range written in mapped form holds IPv4
      addresses, whichever way those are written. */
  ghost predicate Published(raw: seq<string>, parse: Parser, a: Addr)
  {
    exists i :: 0 <= i < |raw| && PublishedAt(raw[i], parse, a)
  }

  ghost predicate PublishedAt(raw: string, parse: Parser, a: Addr)
  {
    ValidatePrefix(raw, parse).Accept? &&
    var p := parse(TrimSpace(raw)).value;
    if p.addr.Is4In6() then a.V4? && p.Contains(V6(a.n + MAPPED_BASE)) else p.Contains(a)
  }

  ghost predicate Holds(ss: seq<string>, parse: Parser, a: Addr)
  {
    exists s :: s in ss && parse(s).Some? && parse(s).value.Contains(a)
  }

  lemma AcceptedHolds(raw: string, parse: Parser, a: Addr)
    requires ValidatePrefix(raw, parse).Accept?
    ensures Canonical(ValidatePrefix(raw, parse).p)
    ensures PublishedAt(raw, parse, a) <==> ValidatePrefix(raw, parse).p.Contains(a)
  {
    var p := parse(TrimSpace(raw)).value;
    AcceptedMeans(p);
    if p.addr.Is4In6() {
      AcceptedIff(p);
      MaskKeepsMapped(p);
      if a.V4? {
        var b := V6(a.n + MAPPED_BASE);
        assert b.Unmap() == a;
        assert p.Contains(b) <==> b.Is4In6() && Judge(p).p.Contains(b.Unmap());
      }
    }
  }

  /** The list that comes out holds exactly the addresses of the entries that were acceptable. */
  lemma KeptHoldsPublished(raw: seq<string>, parse: Parser, show: Printer, a: Addr)
    requires Undone(parse, show)
    ensures Holds(Kept(raw, By(parse), show), parse, a) <==> Published(raw, parse, a)
  {
    var kept := Kept(raw, By(parse), show);
    if Holds(kept, parse, a) {
      var s :| s in kept && parse(s).Some? && parse(s).value.Contains(a);
      KeptIff(raw, By(parse), show, s);
      var i :| 0 <= i < |raw| && KeptFrom(raw[i], By(parse), show, s);
      AcceptedHolds(raw[i], parse, a);
      assert PublishedAt(raw[i], parse, a);
    }
    if Published(raw, parse, a) {
      var i :| 0 <= i < |raw| && PublishedAt(raw[i], parse, a);
      AcceptedHolds(raw[i], parse, a);
      var s := show(ValidatePrefix(raw[i], parse).p);
      assert KeptFrom(raw[i], By(parse), show, s);
      KeptIff(raw, By(parse), show, s);
      assert s in kept && parse(s).Some? && parse(s).value.Contains(a);
    }
  }

  /** So does the list as published, in its sorted order. */
  lemma OutputHoldsPublished(raw: seq<string>, parse: Parser, show: Printer, out: seq<string>, a: Addr)
    requires Undone(parse, show) && Validated(raw, parse, show).0 == Some(out)
    ensures Holds(out, parse, a) <==> Published(raw, parse, a)
  {
    var kept := Kept(raw, By(parse), show);
    KeptHoldsPublished(raw, parse, show, a);
    forall s
      ensures s in out <==> s in kept
    {
      assert s in multiset(out) <==> s in multiset(kept);
    }
  }

  // ------------------------------------------------------------- how much it covers

  ghost predicate InSome<T>(ts: seq<T>, lo: T -> nat, size: T -> nat, x: nat) {
    exists i :: 0 <= i < |ts| && lo(ts[i]) <= x < lo(ts[i]) + size(ts[i])
  }

  /** A union is no larger than its parts together. */
  lemma {:induction false} UnionBound<T>(ts: seq<T>, lo: T -> nat, size: T -> nat, xs: set<nat>)
    requires forall x :: x in xs ==> InSome(ts, lo, size, x)
    ensures |xs| <= Sum(ts, size)
    decreases |ts|
  {
    if ts == [] {
      NothingInside(xs);
    } else {
      var k := |ts| - 1;
      var t, q := ts[k], ts[..k];
      var inLast := set x | x in xs && lo(t) <= x < lo(t) + size(t);
      var others := xs - inLast;
      IntervalHolds(inLast, lo(t), size(t));
      forall x | x in others
        ensures InSome(q, lo, size, x)
      {
        var i :| 0 <= i < |ts| && lo(ts[i]) <= x < lo(ts[i]) + size(ts[i]);
        assert q[i] == ts[i];
      }
      UnionBound(q, lo, size, others);
      assert xs == inLast + others;
    }
  }

  function Start4(parse: Parser): string -> nat
  {
    s => FirstAddress(Named(parse, s))
  }

  function FirstAddress(p: Prefix): nat {
    if p.Valid() then p.Masked().addr.Value() else 0
  }

  lemma HeldInSpan(out: seq<string>, parse: Parser, x: nat)
    requires x < TWO32 && Holds(out, parse, V4(x))
    ensures InSome(out, Start4(parse), V4Size(parse), x)
  {
    var s :| s in out && parse(s).Some? && parse(s).value.Contains(V4(x));
    var i :| 0 <= i < |out| && out[i] == s;
    ContainsIsInterval(parse(s).value, V4(x));
  }

  lemma OutputTotals(raw: seq<string>, parse: Parser, show: Printer)
    requires Validated(raw, parse, show).0.Some?
    ensures var out := Validated(raw, parse, show).0.value;
            Sum(out, V4Size(parse)) <= MAX_IPV4_ADDRESSES && Sum(out, V6Size(parse)) <= MAX_IPV6_SUBNETS &&
            |out| <= MAX_PREFIXES
  {
    var kept := Kept(raw, By(parse), show);
    var out := Validated(raw, parse, show).0.value;
    SumPermutes(out, kept, V4Size(parse));
    SumPermutes(out, kept, V6Size(parse));
    KeptAreDistinct(raw, By(parse), show);
    assert |multiset(out)| == |multiset(kept)|;
  }

  /** However its ranges overlap, a list that is accepted covers at most 2^22 different IPv4
      addresses. */
  lemma CoversFewIPv4(raw: seq<string>, parse: Parser, show: Printer, out: seq<string>, xs: set<nat>)
    requires Validated(raw, parse, show).0 == Some(out)
    requires forall x :: x in xs ==> x < TWO32 && Holds(out, parse, V4(x))
    ensures |xs| <= 0x40_0000
  {
    OutputTotals(raw, parse, show);
    forall x | x in xs
      ensures InSome(out, Start4(parse), V4Size(parse), x)
    {
      HeldInSpan(out, parse, x);
    }
    UnionBound(out, Start4(parse), V4Size(parse), xs);
  }

  /** The /64s a range reaches into. */
  ghost predicate Touches(p: Prefix, t: nat)
    requires p.Valid()
  {
    exists v: Word128 :: v / TWO64 == t && p.Contains(V6(v))
  }

  function Units(parse: Parser): string -> nat {
    s => var p := Named(parse, s); if p.addr.V6? && p.bits <= 64 then Pow2(64 - p.bits) else 1
  }

  function StartUnit(parse: Parser): string -> nat {
    s => FirstAddress(Named(parse, s)) / TWO64
  }

  lemma DivisionGrows(a: nat, b: nat)
    requires a <= b
    ensures a / TWO64 <= b / TWO64
  {
  }

  /** A wide range starts on a /64 and reaches into as many as it says; a narrow one into one. */
  lemma UnitsTouched(p: Prefix, v: Word128)
    requires p.Valid() && p.Contains(V6(v))
    ensures var first := FirstAddress(p) / TWO64;
            first <= v / TWO64 < first + if p.bits <= 64 then Pow2(64 - p.bits) else 1
  {
    ContainsIsInterval(p, V6(v));
    var base := p.Masked().addr.v;
    DivisionGrows(base, v);
    MaskedValue(p);
    var q := p.addr.v / p.Span();
    if p.bits <= 64 {
      WideUnits(base, v, q, 64 - p.bits, p.Span());
    } else {
      NarrowUnits(base, v, q, 128 - p.bits, p.Span());
    }
  }

  lemma SpanOfUnits(e: nat)
    ensures Pow2(e + 64) == Pow2(e) * TWO64
  {
    Pow2Adds(e, 64);
    assert Pow2(64) == TWO64 by {
      Pow2Values();
    }
  }

  lemma WideUnits(base: nat, v: nat, q: nat, e: nat, span: nat)
    requires span == Pow2(e + 64) && base == q * span && base <= v < base + span
    ensures v / TWO64 < base / TWO64 + Pow2(e)
  {
    SpanOfUnits(e);
    var m := Pow2(e);
    assert base == (q * m) * TWO64;
    assert base + span == (q * m + m) * TWO64;
    DivBracket(v, TWO64);
    var t := v / TWO64;
    assert t * TWO64 < (q * m + m) * TWO64;
    assert base / TWO64 == q * m;
  }

  lemma NarrowUnits(base: nat, v: nat, q: nat, e: nat, span: nat)
    requires e < 64 && span == Pow2(e) && base == q * span && base <= v < base + span
    ensures v / TWO64 <= base / TWO64
  {
    var m := Pow2(64 - e);
    assert span * m == TWO64 by {
      Pow2Adds(e, 64 - e);
      Pow2Values();
    }
    var b := base / TWO64;
    DivBracket(base, TWO64);
    NextUnit(q, span, m, b);
    DivOfBracket(v, b, TWO64);
  }

  lemma NextUnit(q: nat, span: nat, m: nat, b: nat)
    requires 0 < span && span * m == TWO64 && q * span < b * TWO64 + TWO64
    ensures q * span + span <= b * TWO64 + TWO64
  {
    var c := b * m + m;
    assert c * span == b * (span * m) + span * m;
    if q >= c {
      MulStep(c, q, span);
    }
    MulStep(q, c, span);
  }

  lemma {:induction false} UnitsWithinCeiling(ss: seq<string>, parse: Parser)
    ensures Sum(ss, Units(parse)) <= Sum(ss, V6Size(parse)) + |ss|
    decreases |ss|
  {
    if ss != [] {
      UnitsWithinCeiling(ss[..|ss| - 1], parse);
    }
  }

  ghost predicate TouchedBy(out: seq<string>, parse: Parser, t: nat) {
    exists s :: s in out && parse(s).Some? && Touches(parse(s).value, t)
  }

  lemma TouchesWithin(p: Range, t: nat)
    requires Touches(p, t)
    ensures var first := FirstAddress(p) / TWO64;
            p.addr.V6? && first <= t < first + if p.bits <= 64 then Pow2(64 - p.bits) else 1
  {
    var v: Word128 :| v / TWO64 == t && p.Contains(V6(v));
    UnitsTouched(p, v);
  }

  lemma TouchedInUnits(out: seq<string>, parse: Parser, t: nat)
    requires TouchedBy(out, parse, t)
    ensures InSome(out, StartUnit(parse), Units(parse), t)
  {
    var s :| s in out && parse(s).Some? && Touches(parse(s).value, t);
    var i :| 0 <= i < |out| && out[i] == s;
    TouchesWithin(parse(s).value, t);
  }

  /** And it reaches into at most 2^20 + 4096 different /64s: the ceiling, and one for each entry
      too narrow to be counted towards it. */
  lemma TouchesFewSubnets(raw: seq<string>, parse: Parser, show: Printer, out: seq<string>, ts: set<nat>)
    requires Validated(raw, parse, show).0 == Some(out)
    requires forall t :: t in ts ==> TouchedBy(out, parse, t)
    ensures |ts| <= 0x10_0000 + 4096
  {
    OutputTotals(raw, parse, show);
    forall t | t in ts
      ensures InSome(out, StartUnit(parse), Units(parse), t)
    {
      TouchedInUnits(out, parse, t);
    }
    UnionBound(out, StartUnit(parse), Units(parse), ts);
    UnitsWithinCeiling(out, parse);
  }

  lemma SizesBounded(q: Prefix)
    requires Canonical(q)
    ensures Ipv4Size(q) <= 0x10_0000 && Ipv6Subnets(q) <= 0x1_0000
  {
    if q.addr.V4? {
      AtMost(32 - q.bits, 20, 0x10_0000);
    } else if q.bits <= 64 {
      AtMost(64 - q.bits, 16, 0x1_0000);
    }
  }

  lemma AtMost(e: nat, top: nat, bound: nat)
    requires e <= top && ((top == 20 && bound == 0x10_0000) || (top == 16 && bound == 0x1_0000))
    ensures Pow2(e) <= bound
  {
    Pow2Grows(e, top);
    Pow2Values();
  }

  lemma {:induction false} SumBounded<T>(xs: seq<T>, size: T -> nat, bound: nat)
    requires forall x :: x in xs ==> size(x) <= bound
    ensures Sum(xs, size) <= |xs| * bound
    decreases |xs|
  {
    if xs != [] {
      SumBounded(xs[..|xs| - 1], size, bound);
      assert |xs| * bound == (|xs| - 1) * bound + bound;
    }
  }

  /** The running totals never pass 2^32, far inside what a float64 holds exactly, so the two
      comparisons with the ceilings are comparisons of the true sums. */
  lemma TotalsAreExact(raw: seq<string>, parse: Parser, show: Printer, n: nat)
    requires Undone(parse, show) && n <= |raw| <= 4096
    ensures Sum(Kept(raw[..n], By(parse), show), V4Size(parse)) <= 0x1_0000_0000
    ensures Sum(Kept(raw[..n], By(parse), show), V6Size(parse)) <= 0x1_0000_0000
  {
    var kept := Kept(raw[..n], By(parse), show);
    KeptAreDistinct(raw[..n], By(parse), show);
    forall s | s in kept
      ensures V4Size(parse)(s) <= 0x10_0000 && V6Size(parse)(s) <= 0x1_0000
    {
      KeptAreCanonical(raw[..n], parse, show, s);
      SizesBounded(parse(s).value);
    }
    SumBounded(kept, V4Size(parse), 0x10_0000);
    SumBounded(kept, V6Size(parse), 0x1_0000);
  }

  // ------------------------------------------------------------- its own output

  lemma SpelledIsFixed(s: string, parse: Parser, show: Printer)
    requires Undone(parse, show) && Spelled(s, parse, show)
    ensures ValidatePrefix(s, parse) == Accept(parse(s).value)
  {
    CanonicalIsFixed(parse(s).value);
  }

  lemma PrefixGrows<T>(xs: seq<T>, n: nat)
    requires n < |xs|
    ensures xs[..n + 1] == xs[..n] + [xs[n]]
  {
  }

  lemma NotYetMet(ss: seq<string>, n: nat)
    requires n < |ss| && Distinct(ss)
    ensures ss[n] !in ss[..n]
  {
  }

  lemma {:induction false} CleanListKept(ss: seq<string>, n: nat, judge: Judging, show: Printer)
    requires n <= |ss| && Distinct(ss) && forall i :: 0 <= i < |ss| ==> KeptFrom(ss[i], judge, show, ss[i])
    ensures Kept(ss[..n], judge, show) == ss[..n] && Rejected(ss[..n], judge) == []
    decreases n
  {
    if n > 0 {
      CleanListKept(ss, n - 1, judge, show);
      KeptNext(ss, n - 1, judge, show);
      PrefixGrows(ss, n - 1);
      NotYetMet(ss, n - 1);
    }
  }

  lemma {:induction false} DistinctCounts(ss: seq<string>, s: string)
    requires Distinct(ss)
    ensures multiset(ss)[s] <= 1
    decreases |ss|
  {
    if ss != [] {
      var k := |ss| - 1;
      assert ss == ss[..k] + [ss[k]];
      DistinctCounts(ss[..k], s);
      if s == ss[k] {
        assert s !in ss[..k];
        assert s !in multiset(ss[..k]);
      }
    }
  }

  lemma DistinctSorts(a: seq<string>, b: seq<string>)
    requires Distinct(a) && multiset(a) == multiset(b)
    ensures Distinct(b)
  {
    forall i, j | 0 <= i < j < |b|
      ensures b[i] != b[j]
    {
      if b[i] == b[j] {
        assert b == b[..j] + [b[j]] + b[j + 1..];
        assert b[..j][i] == b[i];
        assert b[i] in multiset(b[..j]);
        DistinctCounts(a, b[i]);
      }
    }
  }

  lemma SortedIsSpelled(raw: seq<string>, parse: Parser, show: Printer, out: seq<string>, i: nat)
    requires Undone(parse, show) && multiset(out) == multiset(Kept(raw, By(parse), show)) && i < |out|
    ensures KeptFrom(out[i], By(parse), show, out[i])
  {
    assert out[i] in multiset(Kept(raw, By(parse), show));
    KeptAreCanonical(raw, parse, show, out[i]);
    SpelledIsFixed(out[i], parse, show);
  }

  lemma OutputIsClean(raw: seq<string>, parse: Parser, show: Printer, out: seq<string>)
    requires Undone(parse, show) && multiset(out) == multiset(Kept(raw, By(parse), show))
    ensures Kept(out, By(parse), show) == out && Rejected(out, By(parse)) == [] && |out| <= |raw|
  {
    var kept := Kept(raw, By(parse), show);
    KeptAreDistinct(raw, By(parse), show);
    DistinctSorts(kept, out);
    assert |multiset(out)| == |multiset(kept)|;
    forall i | 0 <= i < |out|
      ensures KeptFrom(out[i], By(parse), show, out[i])
    {
      SortedIsSpelled(raw, parse, show, out, i);
    }
    CleanListKept(out, |out|, By(parse), show);
    assert out[..|out|] == out;
  }

  lemma SortTwice(ss: seq<string>)
    ensures SortStrings(SortStrings(ss)) == SortStrings(ss)
  {
    SortStringsSorted(ss);
    SortStringsSorted(SortStrings(ss));
    SortedUnique(SortStrings(SortStrings(ss)), SortStrings(ss));
  }

  /** Its own output, given back to it, comes out unchanged with nothing rejected. */
  lemma OwnOutputUnchanged(raw: seq<string>, parse: Parser, show: Printer)
    requires Undone(parse, show) && Validated(raw, parse, show).0.Some?
    ensures var out := Validated(raw, parse, show).0.value;
            Validated(out, parse, show) == (Some(out), [])
  {
    var kept := Kept(raw, By(parse), show);
    var out := SortStrings(kept);
    OutputIsClean(raw, parse, show, out);
    SumPermutes(out, kept, V4Size(parse));
    SumPermutes(out, kept, V6Size(parse));
    SortTwice(kept);
    assert |multiset(out)| == |multiset(kept)|;
  }
}
