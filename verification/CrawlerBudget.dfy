/** crawlerlist.go, ValidateRanges: exactly which lists are accepted, and what comes of them. */
module CrawlerBudget {
  import opened Wrappers
  import opened NetAddr
  import opened Text
  import opened CrawlerPrefix
  import opened CrawlerList
  import opened Counting
  import opened Sorting

  // --------------------------------------------------------- one entry, in numbers

  /** The range is accepted, as `q`: an IPv4 range of at least 12 bits and an IPv6 one of at least 48
      as they are once masked, a mapped one of at least 108 as the IPv4 range it means. */
  ghost predicate Means(p: Range, q: Range) {
    match p.addr
    case V4(_) => p.bits >= 12 && q == p.Masked()
    case V6(v) =>
      if 0xFFFF_0000_0000 <= v <= 0xFFFF_FFFF_FFFF then
        p.bits >= 108 && q.addr.V4? && q.addr.n + 0xFFFF_0000_0000 == p.Masked().addr.v && q.bits + 96 == p.bits
      else p.bits >= 48 && q == p.Masked()
  }

  /** The entry, without the blanks around it, reads as a range that is accepted as `q`. */
  ghost predicate Offers(entry: string, parse: Parser, q: Range) {
    TrimSpace(entry) != "" && parse(TrimSpace(entry)).Some? && Means(parse(TrimSpace(entry)).value, q)
  }

  ghost predicate Offered(raw: seq<string>, parse: Parser, q: Range) {
    exists i :: 0 <= i < |raw| && Offers(raw[i], parse, q)
  }

  lemma JudgedMeans(p: Range, q: Range)
    ensures Judge(p) == Accept(q) <==> Means(p, q)
  {
    AcceptedIff(p);
    if p.addr.Is4In6() {
      if p.bits >= 96 {
        MaskKeepsMapped(p);
      }
    } else {
      MaskNeverMakesMapped(p);
    }
  }

  lemma ValidMeans(entry: string, parse: Parser, q: Range)
    ensures ValidatePrefix(entry, parse) == Accept(q) <==> Offers(entry, parse, q)
  {
    if TrimSpace(entry) != "" && parse(TrimSpace(entry)).Some? {
      JudgedMeans(parse(TrimSpace(entry)).value, q);
    }
  }

  /** And why one is not: blank, unreadable, in mapped form with fewer than 96 bits, or too broad. */
  lemma RefusedBecause(entry: string, parse: Parser)
    ensures ValidatePrefix(entry, parse).Empty? <==> TrimSpace(entry) == ""
    ensures ValidatePrefix(entry, parse).NotARange? <==> TrimSpace(entry) != "" && parse(TrimSpace(entry)).None?
    ensures TrimSpace(entry) != "" && parse(TrimSpace(entry)).Some? ==>
              var p := parse(TrimSpace(entry)).value;
              (ValidatePrefix(entry, parse).ShortMapped? <==>
                 p.addr.V6? && 0xFFFF_0000_0000 <= p.addr.v <= 0xFFFF_FFFF_FFFF && p.bits < 96) &&
              (ValidatePrefix(entry, parse).TooBroad? <==>
                 if p.addr.V4? then p.bits < 12
                 else if 0xFFFF_0000_0000 <= p.addr.v <= 0xFFFF_FFFF_FFFF then 96 <= p.bits < 108
                 else p.bits < 48)
  {
    if TrimSpace(entry) != "" && parse(TrimSpace(entry)).Some? {
      var p := parse(TrimSpace(entry)).value;
      AcceptedIff(p);
      JudgedShort(p);
    }
  }

  lemma JudgedShort(p: Range)
    ensures Judge(p).ShortMapped? <==> p.addr.Is4In6() && p.bits < 96
    ensures !Judge(p).Empty? && !Judge(p).NotARange?
  {
  }

  // ------------------------------------------------------------ the ranges kept

  predicate NoTwice<T(==)>(xs: seq<T>) {
    forall i, j :: 0 <= i < j < |xs| ==> xs[i] != xs[j]
  }

  lemma {:induction false} OnceEach<T>(xs: seq<T>, x: T)
    requires NoTwice(xs)
    ensures multiset(xs)[x] == if x in xs then 1 else 0
    decreases |xs|
  {
    if xs != [] {
      var k := |xs| - 1;
      assert xs == xs[..k] + [xs[k]];
      OnceEach(xs[..k], x);
    }
  }

  lemma SameOnce<T>(xs: seq<T>, ys: seq<T>)
    requires NoTwice(xs) && NoTwice(ys) && forall x :: x in xs <==> x in ys
    ensures multiset(xs) == multiset(ys)
  {
    forall x
      ensures multiset(xs)[x] == multiset(ys)[x]
    {
      OnceEach(xs, x);
      OnceEach(ys, x);
    }
  }

  /** The ranges the entries offer, each once. */
  ghost predicate Enumerates(qs: seq<Range>, raw: seq<string>, parse: Parser) {
    NoTwice(qs) && forall q :: q in qs <==> Offered(raw, parse, q)
  }

  function Ranges(texts: seq<string>, parse: Parser): (r: seq<Range>)
    ensures |r| == |texts| && forall i :: 0 <= i < |texts| ==> r[i] == Named(parse, texts[i])
  {
    seq(|texts|, i requires 0 <= i < |texts| => Named(parse, texts[i]))
  }

  function Size4(q: Range): nat {
    Ipv4Size(q)
  }

  function Size64(q: Range): nat {
    Ipv6Subnets(q)
  }

  lemma {:induction false} RangesSum(texts: seq<string>, parse: Parser)
    ensures Sum(texts, V4Size(parse)) == Sum(Ranges(texts, parse), Size4)
    ensures Sum(texts, V6Size(parse)) == Sum(Ranges(texts, parse), Size64)
    decreases |texts|
  {
    if texts != [] {
      var k := |texts| - 1;
      RangesSum(texts[..k], parse);
      var qs := Ranges(texts, parse);
      assert qs[..k] == Ranges(texts[..k], parse);
      assert V4Size(parse)(texts[k]) == Ipv4Size(qs[k]) && V6Size(parse)(texts[k]) == Ipv6Subnets(qs[k]);
    }
  }

  ghost predicate SomeSpells(raw: seq<string>, parse: Parser, show: Printer, s: string) {
    exists q: Range :: Offered(raw, parse, q) && show(q) == s
  }

  lemma KeptOneOffers(raw: string, parse: Parser, show: Printer, s: string)
    ensures KeptFrom(raw, By(parse), show, s) <==> exists q: Range :: Offers(raw, parse, q) && show(q) == s
  {
    assert By(parse)(raw) == ValidatePrefix(raw, parse);
    if ValidatePrefix(raw, parse).Accept? {
      ValidMeans(raw, parse, ValidatePrefix(raw, parse).p);
    }
    forall q: Range | Offers(raw, parse, q)
      ensures ValidatePrefix(raw, parse) == Accept(q)
    {
      ValidMeans(raw, parse, q);
    }
  }

  /** What is kept is the text of the ranges offered. */
  lemma KeptIsOffered(raw: seq<string>, parse: Parser, show: Printer, s: string)
    ensures s in Kept(raw, By(parse), show) <==> SomeSpells(raw, parse, show, s)
  {
    KeptIff(raw, By(parse), show, s);
    if s in Kept(raw, By(parse), show) {
      var i :| 0 <= i < |raw| && KeptFrom(raw[i], By(parse), show, s);
      KeptOneOffers(raw[i], parse, show, s);
      var q: Range :| Offers(raw[i], parse, q) && show(q) == s;
      assert Offered(raw, parse, q);
    }
    if SomeSpells(raw, parse, show, s) {
      var q: Range :| Offered(raw, parse, q) && show(q) == s;
      var i :| 0 <= i < |raw| && Offers(raw[i], parse, q);
      KeptOneOffers(raw[i], parse, show, s);
    }
  }

  lemma OfferedIsCanonical(raw: seq<string>, parse: Parser, q: Range)
    requires Offered(raw, parse, q)
    ensures Canonical(q)
  {
    var i :| 0 <= i < |raw| && Offers(raw[i], parse, q);
    ValidMeans(raw[i], parse, q);
    AcceptedIsCanonical(raw[i], parse);
  }

  lemma KeptRanges(raw: seq<string>, parse: Parser, show: Printer)
    requires Undone(parse, show)
    ensures Enumerates(Ranges(Kept(raw, By(parse), show), parse), raw, parse)
  {
    var kept := Kept(raw, By(parse), show);
    var qs := Ranges(kept, parse);
    KeptAreDistinct(raw, By(parse), show);
    forall s | s in kept
      ensures show(Named(parse, s)) == s
    {
      KeptAreCanonical(raw, parse, show, s);
    }
    assert NoTwice(qs) by {
      forall i, j | 0 <= i < j < |qs|
        ensures qs[i] != qs[j]
      {
        assert show(qs[i]) == kept[i] && show(qs[j]) == kept[j];
      }
    }
    forall q
      ensures q in qs <==> Offered(raw, parse, q)
    {
      if q in qs {
        var i :| 0 <= i < |qs| && qs[i] == q;
        KeptIsOffered(raw, parse, show, kept[i]);
        var o: Range :| Offered(raw, parse, o) && show(o) == kept[i];
        OfferedIsCanonical(raw, parse, o);
      }
      if Offered(raw, parse, q) {
        OfferedIsCanonical(raw, parse, q);
        KeptIsOffered(raw, parse, show, show(q));
        var i :| 0 <= i < |kept| && kept[i] == show(q);
        assert qs[i] == q;
      }
    }
  }

  /** Exactly which lists are accepted: at most 4096 entries, at least one range offered, and the
      ranges offered, each counted once, of at most 2^22 IPv4 addresses and 2^20 /64s in all. */
  lemma AcceptedListIff(raw: seq<string>, parse: Parser, show: Printer, qs: seq<Range>)
    requires Undone(parse, show) && Enumerates(qs, raw, parse)
    ensures Validated(raw, parse, show).0.Some? <==>
            |raw| <= 4096 && qs != [] && Sum(qs, Size4) <= 0x40_0000 && Sum(qs, Size64) <= 0x10_0000
  {
    var kept := Kept(raw, By(parse), show);
    var ks := Ranges(kept, parse);
    KeptRanges(raw, parse, show);
    SameOnce(ks, qs);
    SumPermutes(ks, qs, Size4);
    SumPermutes(ks, qs, Size64);
    RangesSum(kept, parse);
    assert |multiset(ks)| == |multiset(qs)|;
  }

  lemma RangesOffered(raw: seq<string>, parse: Parser, show: Printer) returns (qs: seq<Range>)
    requires Undone(parse, show)
    ensures Enumerates(qs, raw, parse)
  {
    qs := Ranges(Kept(raw, By(parse), show), parse);
    KeptRanges(raw, parse, show);
  }

  /** And what comes of an accepted one: the text of every range offered, once, in order. */
  lemma AcceptedListIs(raw: seq<string>, parse: Parser, show: Printer, out: seq<string>, s: string)
    requires Validated(raw, parse, show).0 == Some(out)
    ensures Sorted(out) && Distinct(out)
    ensures s in out <==> SomeSpells(raw, parse, show, s)
  {
    var kept := Kept(raw, By(parse), show);
    SortStringsSorted(kept);
    KeptAreDistinct(raw, By(parse), show);
    DistinctSorts(kept, out);
    KeptIsOffered(raw, parse, show, s);
    assert s in multiset(out) <==> s in multiset(kept);
  }

  /** `from` says which entry each rejected one is: in order, exactly those that are not accepted. */
  ghost predicate Refusals(raw: seq<string>, judge: Judging, rejected: seq<string>, from: seq<nat>) {
    |from| == |rejected| &&
    (forall k :: 0 <= k < |from| ==> from[k] < |raw| && rejected[k] == raw[from[k]]) &&
    (forall k, l :: 0 <= k < l < |from| ==> from[k] < from[l]) &&
    forall i :: 0 <= i < |raw| ==> (i in from <==> !judge(raw[i]).Accept?)
  }

  lemma RefusalsNext(raw: seq<string>, k: nat, judge: Judging, rejected: seq<string>, from: seq<nat>)
    requires k == |raw| - 1 && Refusals(raw[..k], judge, rejected, from)
    ensures judge(raw[k]).Accept? ==> Refusals(raw, judge, rejected, from)
    ensures !judge(raw[k]).Accept? ==> Refusals(raw, judge, rejected + [raw[k]], from + [k])
  {
    assert forall i :: 0 <= i < k ==> raw[..k][i] == raw[i];
    assert k !in from;
  }

  lemma {:induction false} RejectedFrom(raw: seq<string>, judge: Judging) returns (from: seq<nat>)
    ensures Refusals(raw, judge, Rejected(raw, judge), from)
    decreases |raw|
  {
    from := [];
    if raw != [] {
      var k := |raw| - 1;
      from := RejectedFrom(raw[..k], judge);
      RefusalsNext(raw, k, judge, Rejected(raw[..k], judge), from);
      if judge(raw[k]).Accept? {
        assert Rejected(raw[..k], judge) + [] == Rejected(raw[..k], judge);
      } else {
        from := from + [k];
      }
    }
  }

  /** Rejected are the entries that offer nothing, in the order they stand. */
  lemma RejectedIs(raw: seq<string>, parse: Parser) returns (from: seq<nat>)
    ensures var rejected := Rejected(raw, By(parse));
            |from| == |rejected| &&
            (forall k :: 0 <= k < |from| ==> from[k] < |raw| && rejected[k] == raw[from[k]]) &&
            (forall k, l :: 0 <= k < l < |from| ==> from[k] < from[l])
    ensures forall i :: 0 <= i < |raw| ==> (i in from <==> !exists q: Range :: Offers(raw[i], parse, q))
  {
    from := RejectedFrom(raw, By(parse));
    forall i | 0 <= i < |raw|
      ensures By(parse)(raw[i]).Accept? <==> exists q: Range :: Offers(raw[i], parse, q)
    {
      OffersIff(raw[i], parse);
    }
  }

  lemma OffersIff(t: string, parse: Parser)
    ensures ValidatePrefix(t, parse).Accept? <==> exists q: Range :: Offers(t, parse, q)
  {
    if ValidatePrefix(t, parse).Accept? {
      ValidMeans(t, parse, ValidatePrefix(t, parse).p);
    }
    if q: Range :| Offers(t, parse, q) {
      ValidMeans(t, parse, q);
    }
  }

  // ------------------------------------------------------------ the sizes are counts

  /** A stretch of `n` numbers has `n` of them. */
  lemma {:induction false} StretchCounts(xs: set<nat>, lo: nat, n: nat)
    requires forall x: nat :: x in xs <==> lo <= x < lo + n
    ensures |xs| == n
    decreases n
  {
    if n == 0 {
      NothingInside(xs);
    } else {
      StretchCounts(xs - {lo + n - 1}, lo, n - 1);
    }
  }

  /** The size of an IPv4 range is the number of addresses it holds. */
  lemma Ipv4SizeCounts(q: Range, xs: set<nat>)
    requires q.addr.V4? && forall x: nat :: x in xs <==> x < 0x1_0000_0000 && q.Contains(V4(x))
    ensures |xs| == Ipv4Size(q)
  {
    forall x: nat
      ensures x in xs <==> FirstAddress(q) <= x < FirstAddress(q) + Ipv4Size(q)
    {
      RangeEnds(q);
      if x < 0x1_0000_0000 {
        ContainsIsInterval(q, V4(x));
      }
    }
    StretchCounts(xs, FirstAddress(q), Ipv4Size(q));
  }

  lemma RangeEnds(q: Range)
    requires q.addr.V4?
    ensures FirstAddress(q) + Ipv4Size(q) <= 0x1_0000_0000
  {
    Pow2Adds(32 - q.bits, q.bits);
    Pow2Values();
    MaskedValue(q);
    WithinWhole(q.addr.n, Pow2(32 - q.bits), Pow2(q.bits), TWO32);
  }

  /** And the size of an IPv6 range of at most 64 bits is the number of /64s it reaches into. */
  lemma Ipv6SubnetsCounts(q: Range, ts: set<nat>)
    requires q.addr.V6? && q.bits <= 64 && forall t: nat :: t in ts <==> Touches(q, t)
    ensures |ts| == Ipv6Subnets(q)
  {
    forall t: nat
      ensures t in ts <==> FirstAddress(q) / TWO64 <= t < FirstAddress(q) / TWO64 + Ipv6Subnets(q)
    {
      if Touches(q, t) {
        TouchesWithin(q, t);
      }
      if FirstAddress(q) / TWO64 <= t < FirstAddress(q) / TWO64 + Ipv6Subnets(q) {
        UnitReached(q, t);
      }
    }
    StretchCounts(ts, FirstAddress(q) / TWO64, Ipv6Subnets(q));
  }

  lemma UnitReached(q: Range, t: nat)
    requires q.addr.V6? && q.bits <= 64
    requires FirstAddress(q) / TWO64 <= t < FirstAddress(q) / TWO64 + Ipv6Subnets(q)
    ensures Touches(q, t)
  {
    var first := FirstAddress(q);
    SpanOfUnits(64 - q.bits);
    MaskedValue(q);
    UnitStart(q.addr.v / q.Span(), Pow2(64 - q.bits), q.Span(), first, t);
    SpanFits(q);
    StartOfUnit(q, t * TWO64, t);
  }

  lemma SpanFits(q: Range)
    requires q.addr.V6?
    ensures FirstAddress(q) + q.Span() <= TWO128
  {
    MaskedValue(q);
    Pow2Adds(128 - q.bits, q.bits);
    Pow2Values();
    WithinWhole(q.addr.v, q.Span(), Pow2(q.bits), TWO128);
  }

  lemma StartOfUnit(q: Range, v: nat, t: nat)
    requires q.addr.V6? && FirstAddress(q) <= v < FirstAddress(q) + q.Span() <= TWO128 && v == t * TWO64
    ensures Touches(q, t)
  {
    ContainsIsInterval(q, V6(v));
    assert v / TWO64 == t;
  }

  lemma UnitStart(k: nat, m: nat, span: nat, base: nat, t: nat)
    requires span == m * TWO64 && base == k * span && base / TWO64 <= t < base / TWO64 + m
    ensures base <= t * TWO64 < base + span
  {
    assert base == (k * m) * TWO64;
    assert base / TWO64 == k * m;
    assert t * TWO64 < (k * m + m) * TWO64;
  }

  /** A whole that is a number of spans has room for the whole span around any value in it. */
  lemma WithinWhole(v: nat, span: nat, n: nat, whole: nat)
    requires 0 < span && span * n == whole && v < whole
    ensures v / span * span + span <= whole
  {
    var k := v / span;
    DivBracket(v, span);
    assert n * span == whole;
    if n <= k {
      MulStep(n, k, span);
    }
    MulStep(k, n, span);
  }

  /** Together, when no two of them overlap: the sum of the sizes is the number of addresses held. */
  ghost predicate HeldBy(qs: seq<Range>, x: nat) {
    x < 0x1_0000_0000 && exists q :: q in qs && q.Contains(V4(x))
  }

  ghost predicate NoOverlap(qs: seq<Range>) {
    forall i, j, x: Word32 :: 0 <= i < j < |qs| ==> !(qs[i].Contains(V4(x)) && qs[j].Contains(V4(x)))
  }

  lemma {:induction false} SumCounts(qs: seq<Range>, xs: set<nat>)
    requires (forall q :: q in qs ==> q.addr.V4?) && NoOverlap(qs)
    requires forall x: nat :: x in xs <==> HeldBy(qs, x)
    ensures |xs| == Sum(qs, Size4)
    decreases |qs|
  {
    if qs == [] {
      NothingInside(xs);
    } else {
      var k := |qs| - 1;
      var front, last := qs[..k], qs[k];
      var mine := set x | x in xs && LastHolds(last, x);
      var rest := xs - mine;
      assert last in qs && forall q :: q in front ==> q in qs;
      HeldSplits(qs, front, last, xs, mine, rest);
      SumCounts(front, rest);
      Ipv4SizeCounts(last, mine);
      TwoParts(xs, mine, rest);
    }
  }

  lemma TwoParts(xs: set<nat>, a: set<nat>, b: set<nat>)
    requires a <= xs && b == xs - a
    ensures |xs| == |a| + |b|
  {
    assert xs == a + b;
  }

  lemma HeldSplits(qs: seq<Range>, front: seq<Range>, last: Range, xs: set<nat>, mine: set<nat>, rest: set<nat>)
    requires qs != [] && front == qs[..|qs| - 1] && last == qs[|qs| - 1] && NoOverlap(qs)
    requires forall x: nat :: x in xs <==> HeldBy(qs, x)
    requires mine == (set x | x in xs && LastHolds(last, x)) && rest == xs - mine
    ensures NoOverlap(front)
    ensures forall x: nat :: x in rest <==> HeldBy(front, x)
    ensures forall x: nat :: x in mine <==> x < 0x1_0000_0000 && last.Contains(V4(x))
  {
    assert qs == front + [last];
    forall x: nat
      ensures x in rest <==> HeldBy(front, x)
      ensures x in mine <==> LastHolds(last, x)
    {
      SplitHeld(qs, front, last, x);
    }
  }

  ghost predicate LastHolds(q: Range, x: nat) {
    x < 0x1_0000_0000 && q.Contains(V4(x))
  }

  lemma SplitHeld(qs: seq<Range>, front: seq<Range>, last: Range, x: nat)
    requires qs == front + [last] && NoOverlap(qs)
    ensures HeldBy(qs, x) <==> HeldBy(front, x) || LastHolds(last, x)
    ensures !(HeldBy(front, x) && LastHolds(last, x))
  {
    if HeldBy(front, x) {
      var q :| q in front && q.Contains(V4(x));
      var i :| 0 <= i < |front| && front[i] == q;
      assert qs[i] == q && qs[|front|] == last;
      assert q in qs;
    }
    if LastHolds(last, x) {
      assert last in qs;
    }
  }

  lemma {:induction false} NoSubnets(qs: seq<Range>)
    requires forall q :: q in qs ==> q.addr.V4?
    ensures Sum(qs, Size64) == 0
    decreases |qs|
  {
    if qs != [] {
      var k := |qs| - 1;
      assert qs[k] in qs && forall q :: q in qs[..k] ==> q in qs;
      NoSubnets(qs[..k]);
      assert Ipv6Subnets(qs[k]) == 0;
    }
  }

  /** So a list of IPv4 ranges that do not overlap is accepted exactly when it is no longer than 4096
      entries, offers a range at all, and covers at most 2^22 addresses. */
  lemma ApartIsAcceptedIff(raw: seq<string>, parse: Parser, show: Printer, qs: seq<Range>, xs: set<nat>)
    requires Undone(parse, show) && Enumerates(qs, raw, parse)
    requires (forall q :: q in qs ==> q.addr.V4?) && NoOverlap(qs)
    requires forall x: nat :: x in xs <==> HeldBy(qs, x)
    ensures Validated(raw, parse, show).0.Some? <==> |raw| <= 4096 && qs != [] && |xs| <= 0x40_0000
  {
    AcceptedListIff(raw, parse, show, qs);
    SumCounts(qs, xs);
    NoSubnets(qs);
  }
}
