/** Numeric addresses and prefixes, with the meaning Go's netip gives them. */
module NetAddr {
  const TWO32: nat := 0x1_0000_0000
  const TWO64: nat := 0x1_0000_0000_0000_0000
  const TWO128: nat := 0x1_0000_0000_0000_0000_0000_0000_0000_0000

  // ::ffff:0:0/96, the block whose members are IPv4 addresses written as IPv6.
  const MAPPED_BASE: nat := 0xFFFF_0000_0000

  type Word32 = n: nat | n < 0x1_0000_0000
  type Word64 = n: nat | n < 0x1_0000_0000_0000_0000
  type Word128 = n: nat | n < 0x1_0000_0000_0000_0000_0000_0000_0000_0000

  datatype Addr = V4(n: Word32) | V6(v: Word128) {
    function Value(): nat {
      if V4? then n else v
    }

    function Width(): nat {
      if V4? then 32 else 128
    }

    predicate Is4In6() {
      V6? && MAPPED_BASE <= v < MAPPED_BASE + TWO32
    }

    function Unmap(): (r: Addr)
      ensures !r.Is4In6()
      ensures r == if V6? && 0xFFFF_0000_0000 <= v <= 0xFFFF_FFFF_FFFF then V4(v - 0xFFFF_0000_0000) else this
    {
      if Is4In6() then V4(v - MAPPED_BASE) else this
    }
  }

  datatype Prefix = Prefix(addr: Addr, bits: nat) {
    predicate Valid() {
      bits <= addr.Width()
    }

    /** How many addresses share the prefix's leading bits. */
    function Span(): nat
      requires Valid()
    {
      Pow2(addr.Width() - bits)
    }

    function Masked(): (r: Prefix)
      requires Valid()
      ensures r.Valid() && r.bits == bits && r.addr.V4? == addr.V4?
    {
      RemainderFits(addr.Value(), Span());
      var base := addr.Value() - addr.Value() % Span();
      Prefix(if addr.V4? then V4(base) else V6(base), bits)
    }

    /** Same family, same leading bits. */
    predicate Contains(a: Addr)
      requires Valid()
    {
      a.V4? == addr.V4? && a.Value() / Span() == addr.Value() / Span()
    }
  }

  function Pow2(k: nat): (r: nat)
    ensures 1 <= r
  {
    if k == 0 then 1 else 2 * Pow2(k - 1)
  }

  lemma {:induction false} Pow2Adds(i: nat, j: nat)
    ensures Pow2(i + j) == Pow2(i) * Pow2(j)
  {
    if i > 0 {
      Pow2Adds(i - 1, j);
      assert Pow2(i + j) == 2 * Pow2(i - 1 + j);
    }
  }

  lemma {:induction false} Pow2Grows(i: nat, j: nat)
    requires i <= j
    ensures Pow2(i) <= Pow2(j)
    decreases j
  {
    if i < j {
      Pow2Grows(i, j - 1);
    }
  }

  lemma Pow2Values()
    ensures Pow2(16) == 0x1_0000
    ensures Pow2(20) == 0x10_0000
    ensures Pow2(22) == 0x40_0000
    ensures Pow2(32) == TWO32
    ensures Pow2(64) == TWO64
    ensures Pow2(128) == TWO128
  {
    assert Pow2(8) == 256;
    Pow2Adds(8, 8);
    Pow2Adds(16, 4);
    Pow2Adds(16, 6);
    Pow2Adds(16, 16);
    Pow2Adds(32, 32);
    Pow2Adds(64, 64);
  }

  lemma RemainderFits(v: nat, k: nat)
    requires 0 < k
    ensures 0 <= v % k <= v
  {
  }

  lemma DivBracket(v: nat, k: nat)
    requires 0 < k
    ensures v / k * k <= v < v / k * k + k
    ensures v - v % k == v / k * k
  {
  }

  lemma DivOfBracket(v: nat, q: nat, k: nat)
    requires 0 < k && q * k <= v < q * k + k
    ensures v / k == q
  {
    var d := v / k;
    DivBracket(v, k);
    MulStep(d, q, k);
    MulStep(q, d, k);
  }

  lemma {:induction false} MulStep(x: nat, y: nat, k: nat)
    ensures x < y ==> x * k + k <= y * k
    decreases y
  {
    if x < y {
      MulStep(x, y - 1, k);
      assert (y - 1) * k + k == y * k;
    }
  }

  /** A prefix is the interval that starts at its masked address. */
  lemma ContainsIsInterval(p: Prefix, a: Addr)
    requires p.Valid()
    ensures p.Masked().addr.Value() <= p.addr.Value()
    ensures p.Contains(a) <==>
            a.V4? == p.addr.V4? &&
            p.Masked().addr.Value() <= a.Value() < p.Masked().addr.Value() + p.Span()
  {
    SameQuotient(p.addr.Value(), a.Value(), p.Span());
  }

  /** Two numbers have the same quotient when one lies in the bracket of the other. */
  lemma SameQuotient(v: nat, w: nat, k: nat)
    requires 0 < k
    ensures v - v % k <= v
    ensures w / k == v / k <==> v - v % k <= w < v - v % k + k
  {
    var q := v / k;
    DivBracket(v, k);
    DivBracket(w, k);
    if q * k <= w < q * k + k {
      DivOfBracket(w, q, k);
    }
  }

  lemma DivOfFloor(v: nat, k: nat)
    requires 0 < k
    ensures v - v % k == v / k * k
    ensures (v - v % k) / k == v / k
  {
    DivBracket(v, k);
    DivOfBracket(v / k * k, v / k, k);
  }

  lemma MaskedValue(p: Prefix)
    requires p.Valid()
    ensures p.Masked().addr.Value() == p.addr.Value() / p.Span() * p.Span()
    ensures p.Masked().addr.Value() / p.Span() == p.addr.Value() / p.Span()
  {
    DivOfFloor(p.addr.Value(), p.Span());
  }

  /** Masking changes how a range is spelled and not what it covers. */
  lemma MaskedContainsSame(p: Prefix, a: Addr)
    requires p.Valid()
    ensures p.Masked().Contains(a) <==> p.Contains(a)
    ensures p.Masked().Masked() == p.Masked()
  {
    var m := p.Masked();
    MaskedValue(p);
    MaskedValue(m);
    assert m.Span() == p.Span();
    assert m.Masked().addr.Value() == m.addr.Value();
  }
}
