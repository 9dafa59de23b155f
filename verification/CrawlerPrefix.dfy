/** crawlerlist.go: one published crawler range, as it will actually be matched. */
module CrawlerPrefix {
  import opened Wrappers
  import opened NetAddr
  import opened Text

  const MIN_IPV4_BITS: nat := 12
  const MIN_IPV6_BITS: nat := 48

  type Range = p: Prefix | p.Valid() witness Prefix(V4(0), 0)

  datatype Verdict = Accept(p: Range) | Empty | NotARange | ShortMapped | TooBroad

  // netip.ParsePrefix
  type Parser = string -> Option<Range>

  /** `p` is already masked; `mapped` was asked before masking. */
  function NormalisePrefix(p: Range, mapped: bool): (r: Option<Range>)
    ensures !mapped ==> r == Some(p)
    ensures mapped ==> (r.Some? <==> p.bits >= 96)
  {
    if !mapped then Some(p)
    else if p.bits >= 96 then Some(Prefix(p.addr.Unmap(), p.bits - 96))
    else None
  }

  function Judge(p: Range): Verdict
  {
    var n := NormalisePrefix(p.Masked(), p.addr.Is4In6());
    if n.None? then ShortMapped
    else if n.value.addr.V4? then if n.value.bits < MIN_IPV4_BITS then TooBroad else Accept(n.value)
    else if n.value.bits < MIN_IPV6_BITS then TooBroad
    else Accept(n.value)
  }

  function ValidatePrefix(raw: string, parse: Parser): Verdict
  {
    var s := TrimSpace(raw);
    if s == "" then Empty
    else if parse(s).None? then NotARange
    else Judge(parse(s).value)
  }

  // ------------------------------------------- masking and the mapped block

  lemma {:induction false} MaskedAt(v: nat, k: nat, a: nat)
    requires 0 < k && a * k <= v
    ensures a * k <= v - v % k <= v
    ensures v - v % k == v / k * k
  {
    DivBracket(v, k);
    var q := v / k;
    MulStep(q, a, k);
    assert q < a ==> q * k + k <= a * k;
    if q >= a {
      MulStep(a, q, k);
    }
  }

  /** A block whose ends are multiples of `k` holds a value exactly when it holds the value rounded
      down to a multiple of `k`. */
  lemma RoundedInside(v: nat, k: nat, a: nat, b: nat)
    requires 0 < k
    ensures a * k <= v - v % k < b * k <==> a * k <= v < b * k
  {
    DivBracket(v, k);
    var q := v / k;
    if a * k <= v {
      MaskedAt(v, k, a);
    }
    if q * k < b * k {
      if b <= q {
        MulStep(b, q, k);
      }
      MulStep(q, b, k);
    }
  }

  lemma Times(c: nat, k: nat, m: nat, w: nat)
    requires k * m == w
    ensures (c * m) * k == c * w
  {
    assert (c * m) * k == c * (m * k);
  }

  /** The mapped block starts and ends on multiples of any span of at most 2^32. */
  lemma BlockEnds(e: nat) returns (a: nat, b: nat)
    requires e <= 32
    ensures a * Pow2(e) == MAPPED_BASE && b * Pow2(e) == MAPPED_BASE + TWO32
  {
    var m := Pow2(32 - e);
    assert Pow2(e) * m == TWO32 by {
      Pow2Adds(e, 32 - e);
      Pow2Values();
    }
    a, b := 0xFFFF * m, 0x1_0000 * m;
    Times(0xFFFF, Pow2(e), m, TWO32);
    Times(0x1_0000, Pow2(e), m, TWO32);
  }

  /** Masking to at least 96 bits keeps an address in or out of the mapped block. */
  lemma MaskKeepsMapped(p: Prefix)
    requires p.Valid() && p.addr.V6? && p.bits >= 96
    ensures p.Masked().addr.Is4In6() <==> p.addr.Is4In6()
  {
    var a, b := BlockEnds(128 - p.bits);
    RoundedInside(p.addr.v, p.Span(), a, b);
  }

  lemma LongSpan(e: nat)
    requires e >= 33
    ensures Pow2(e) == 2 * TWO32 * Pow2(e - 33)
  {
    Pow2Adds(33, e - 33);
    assert Pow2(33) == 2 * TWO32 by {
      Pow2Values();
    }
  }

  lemma EvenBlock(base: nat, q: nat, m: nat)
    requires base == q * (2 * TWO32 * m)
    ensures !(MAPPED_BASE <= base < MAPPED_BASE + TWO32)
  {
    var t := q * m;
    assert base == (2 * t) * TWO32 by {
      assert q * (2 * TWO32 * m) == 2 * TWO32 * (q * m);
    }
  }

  /** Masking to fewer than 96 bits never leaves an address in the mapped block: its last marker bit
      is cleared. */
  lemma ShortMaskIsNotMapped(p: Prefix)
    requires p.Valid() && p.addr.V6? && p.bits < 96
    ensures !p.Masked().addr.Is4In6()
  {
    LongSpan(128 - p.bits);
    MaskedValue(p);
    EvenBlock(p.Masked().addr.v, p.addr.v / p.Span(), Pow2(95 - p.bits));
  }

  /** Masking never turns a range that was not mapped into one that is. */
  lemma MaskNeverMakesMapped(p: Prefix)
    requires p.Valid() && !p.addr.Is4In6()
    ensures !p.Masked().addr.Is4In6()
  {
    if p.addr.V6? {
      if p.bits >= 96 {
        MaskKeepsMapped(p);
      } else {
        ShortMaskIsNotMapped(p);
      }
    }
  }

  /** Why the question has to be asked before masking: below /96 a mapped range no longer looks
      mapped once masked, so a check made then would take it for an ordinary IPv6 range. */
  lemma AskedTooLate(p: Prefix)
    requires p.Valid() && p.addr.Is4In6()
    ensures p.Masked().addr.Is4In6() <==> p.bits >= 96
    ensures p.bits < 96 ==> NormalisePrefix(p.Masked(), p.Masked().addr.Is4In6()) == Some(p.Masked())
    ensures p.bits < 96 ==> NormalisePrefix(p.Masked(), p.addr.Is4In6()) == None
  {
    if p.bits >= 96 {
      MaskKeepsMapped(p);
    } else {
      ShortMaskIsNotMapped(p);
    }
  }

  // ---------------------------------------------------- what acceptance means

  /** The range folded out of a mapped one. */
  function Folded(p: Prefix): (r: Prefix)
    requires p.Valid() && p.addr.Is4In6() && p.bits >= 96
    ensures r.Valid() && r.addr.V4? && r.bits == p.bits - 96 && r.Span() == p.Span()
  {
    MaskKeepsMapped(p);
    Prefix(p.Masked().addr.Unmap(), p.bits - 96)
  }

  lemma LessMultiple(q: nat, c: nat, k: nat)
    requires 0 < k
    ensures q * k >= c * k <==> q >= c
    ensures q >= c ==> q * k - c * k == (q - c) * k
  {
    MulStep(q, c, k);
    if q >= c {
      assert q * k == (q - c) * k + c * k;
    }
  }

  lemma FoldedStaysMasked(p: Prefix)
    requires p.Valid() && p.addr.Is4In6() && p.bits >= 96
    ensures Folded(p).Masked() == Folded(p)
  {
    MaskKeepsMapped(p);
    var k := p.Span();
    var c, _ := BlockEnds(128 - p.bits);
    MaskedValue(p);
    var q := p.addr.v / k;
    var n := Folded(p).addr.n;
    assert n == q * k - c * k;
    LessMultiple(q, c, k);
    DivOfBracket(n, q - c, k);
    MaskedValue(Folded(p));
  }

  /** Folding keeps the denotation: a mapped range of at least 96 bits holds mapped addresses only,
      and exactly those whose IPv4 form is in the folded range. */
  lemma FoldMeans(p: Prefix, a: Addr)
    requires p.Valid() && p.addr.Is4In6() && p.bits >= 96
    ensures p.Contains(a) <==> a.Is4In6() && Folded(p).Contains(a.Unmap())
  {
    MaskKeepsMapped(p);
    ContainsIsInterval(p, a);
    ContainsIsInterval(Folded(p), a.Unmap());
    FoldedStaysMasked(p);
    if p.Contains(a) {
      MaskKeepsMapped(p);
      SpanEnds(p);
    }
  }

  lemma SpanEnds(p: Prefix)
    requires p.Valid() && p.addr.Is4In6() && p.bits >= 96
    ensures p.Masked().addr.v + p.Span() <= MAPPED_BASE + TWO32
  {
    MaskKeepsMapped(p);
    var k := p.Span();
    var _, b := BlockEnds(128 - p.bits);
    MaskedValue(p);
    var q := p.addr.v / k;
    LessMultiple(q, b, k);
    MulStep(q, b, k);
  }

  /** Exactly which ranges are accepted. */
  lemma AcceptedIff(p: Prefix)
    requires p.Valid()
    ensures Judge(p).Accept? <==>
            if p.addr.V4? then p.bits >= 12
            else if p.addr.Is4In6() then p.bits >= 108
            else p.bits >= 48
  {
    if p.addr.Is4In6() {
      if p.bits >= 96 {
        MaskKeepsMapped(p);
      }
    } else {
      MaskNeverMakesMapped(p);
    }
  }

  predicate Canonical(q: Prefix) {
    q.Valid() && q.Masked() == q && !q.addr.Is4In6() && q.bits >= if q.addr.V4? then MIN_IPV4_BITS else MIN_IPV6_BITS
  }

  /** What is accepted is masked, never mapped, and within the limit of its family; and it holds the
      addresses the published range holds, a mapped range read as the IPv4 range it is. */
  lemma AcceptedMeans(p: Prefix)
    requires p.Valid() && Judge(p).Accept?
    ensures Canonical(Judge(p).p)
    ensures forall a: Addr :: p.Contains(a) <==>
              if p.addr.Is4In6() then a.Is4In6() && Judge(p).p.Contains(a.Unmap()) else Judge(p).p.Contains(a)
  {
    var q := Judge(p).p;
    if p.addr.Is4In6() {
      MaskKeepsMapped(p);
      FoldedStaysMasked(p);
      assert q == Folded(p);
      forall a: Addr
        ensures p.Contains(a) <==> a.Is4In6() && q.Contains(a.Unmap())
      {
        FoldMeans(p, a);
      }
    } else {
      MaskNeverMakesMapped(p);
      MaskedContainsSame(p, p.addr);
      forall a: Addr
        ensures p.Contains(a) <==> q.Contains(a)
      {
        MaskedContainsSame(p, a);
      }
    }
  }

  /** A canonical range is accepted as it stands. */
  lemma CanonicalIsFixed(q: Prefix)
    requires Canonical(q)
    ensures Judge(q) == Accept(q)
  {
  }
}
