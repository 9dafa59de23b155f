/** Which configured ranges the never-drop list protects as they are written: the list as newNeverDrop
    builds it, with its infrastructure ranges and everything else configured. */
module ConfiguredRanges {
  import opened Wrappers
  import opened NetAddr
  import opened NeverDrop

  /** Every address the range holds is protected, however it is spelled. */
  ghost predicate Protects(ps: seq<Prefix>, p: Prefix)
    requires AllValid(ps) && p.Valid()
  {
    forall a: Addr, b: Addr :: p.Contains(a) && b.Unmap() == a.Unmap() ==> Covered(ps, b)
  }

  lemma CoveredUnmaps(ps: seq<Prefix>, a: Addr)
    requires AllValid(ps)
    ensures Covered(ps, a) <==> Covered(ps, a.Unmap())
  {
    assert a.Unmap().Unmap() == a.Unmap();
  }

  // ----------------------------------------------------- the mapped block of a range

  lemma AlignedBlock(a: Addr, m: Addr, e: nat)
    requires a.V6? && m.V6? && e <= 32 && a.v / Pow2(e) == m.v / Pow2(e)
    ensures a.Is4In6() <==> m.Is4In6()
  {
    assert Pow2(e) * Pow2(32 - e) == TWO32 by {
      Pow2Adds(e, 32 - e);
      Pow2Values();
    }
    MappedQuotients(a.v, Pow2(e), Pow2(32 - e));
    MappedQuotients(m.v, Pow2(e), Pow2(32 - e));
  }

  lemma WideQuotient(m: nat, e: nat)
    requires MAPPED_BASE <= m < MAPPED_BASE + TWO32 && e >= 32
    ensures m / Pow2(e) == 0xFFFF / Pow2(e - 32)
  {
    assert Pow2(e) == TWO32 * Pow2(e - 32) by {
      Pow2Adds(32, e - 32);
      Pow2Values();
    }
    DivDiv(m, TWO32, Pow2(e - 32));
    DivOfBracket(m, 0xFFFF, TWO32);
  }

  /** The IPv4 range that a configured range names only in mapped form: all of IPv4 for one wide enough
      to contain the mapped block, and nothing for one that is IPv4 or does not meet it. */
  function NamedIPv4(p: Prefix): (r: Option<Prefix>)
    requires p.Valid()
    ensures r.Some? ==> r.value.Valid() && r.value.addr.V4?
  {
    if p.addr.Is4In6() && p.bits >= 96 then Some(Prefix(V4(p.addr.v - MAPPED_BASE), p.bits - 96))
    else if p.addr.V6? && p.Contains(V6(MAPPED_BASE)) then Some(Prefix(V4(0), 0))
    else None
  }

  /** The block begins on a multiple of any span of at most its own size. */
  lemma BlockStart(e: nat) returns (c: nat)
    requires e <= 32
    ensures MAPPED_BASE == c * Pow2(e)
  {
    var m := Pow2(32 - e);
    assert Pow2(e) * m == TWO32 by {
      Pow2Adds(e, 32 - e);
      Pow2Values();
    }
    c := 0xFFFF * m;
    Scale(0xFFFF, m, Pow2(e));
  }

  lemma ShiftedQuotient(n: nat, c: nat, k: nat)
    requires 0 < k
    ensures (c * k + n) / k == c + n / k
  {
    DivBracket(n, k);
    var q := n / k;
    assert (c + q) * k == c * k + q * k;
    DivOfBracket(c * k + n, c + q, k);
  }

  lemma NamedMeans(p: Prefix, n: Word32)
    requires p.Valid()
    ensures p.Contains(V6(MAPPED_BASE + n)) <==> NamedIPv4(p).Some? && NamedIPv4(p).value.Contains(V4(n))
  {
    if p.addr.Is4In6() && p.bits >= 96 {
      var k := p.Span();
      var c := BlockStart(128 - p.bits);
      assert NamedIPv4(p).value.Span() == k;
      ShiftedQuotient(n, c, k);
      ShiftedQuotient(p.addr.v - MAPPED_BASE, c, k);
    } else if p.addr.V6? {
      WideOrApart(p, n);
    }
  }

  /** A range not inside the block holds all of it or none. */
  lemma WideOrApart(p: Prefix, n: Word32)
    requires p.Valid() && p.addr.V6? && !(p.addr.Is4In6() && p.bits >= 96)
    ensures p.Contains(V6(MAPPED_BASE + n)) <==> p.Contains(V6(MAPPED_BASE))
    ensures Prefix(V4(0), 0).Contains(V4(n))
  {
    AllIPv4(n);
    if p.bits < 96 {
      WideQuotient(MAPPED_BASE + n, 128 - p.bits);
      WideQuotient(MAPPED_BASE, 128 - p.bits);
    } else {
      if p.Contains(V6(MAPPED_BASE + n)) {
        AlignedBlock(p.addr, V6(MAPPED_BASE + n), 128 - p.bits);
      }
      if p.Contains(V6(MAPPED_BASE)) {
        AlignedBlock(p.addr, V6(MAPPED_BASE), 128 - p.bits);
      }
    }
  }

  lemma AllIPv4(n: Word32)
    ensures Prefix(V4(0), 0).Contains(V4(n))
  {
    assert Prefix(V4(0), 0).Span() == TWO32 by {
      Pow2Values();
    }
  }

  // ------------------------------------------------------- which ranges are protected

  /** The IPv4 range lies inside the list. */
  ghost predicate Inside(ps: seq<Prefix>, p: Prefix)
    requires AllValid(ps) && p.Valid()
  {
    forall n: Word32 :: p.Contains(V4(n)) ==> Covered(ps, V4(n))
  }

  /** Exactly which configured ranges a built list protects as written: those that name no IPv4 range
      in mapped form, and those whose named IPv4 range lies inside the list for other reasons. The
      code never folds the range itself, so nothing else speaks for it. */
  lemma ProtectsIff(management: seq<Entry>, docker: seq<Entry>, p: Prefix)
    requires forall x :: x in management + docker ==> x.Valid()
    requires Built(management, docker).Some? && Cidr(p) in management + docker
    ensures Protects(Built(management, docker).value, p) <==>
            NamedIPv4(p).None? || Inside(Built(management, docker).value, NamedIPv4(p).value)
  {
    var ps := Built(management, docker).value;
    assert Cidr(p).Valid();
    if NamedIPv4(p).None? || Inside(ps, NamedIPv4(p).value) {
      forall a: Addr, b: Addr | p.Contains(a) && b.Unmap() == a.Unmap()
        ensures Covered(ps, b)
      {
        CoveredUnmaps(ps, b);
        if a.Is4In6() {
          NamedMeans(p, a.v - MAPPED_BASE);
          CoveredUnmaps(ps, V4(a.v - MAPPED_BASE));
        } else {
          BuiltProtects(management, docker, Cidr(p), b);
        }
      }
    }
    if Protects(ps, p) && NamedIPv4(p).Some? {
      forall n: Word32 | NamedIPv4(p).value.Contains(V4(n))
        ensures Covered(ps, V4(n))
      {
        NamedMeans(p, n);
        assert V4(n).Unmap() == V6(MAPPED_BASE + n).Unmap();
      }
    }
  }

  /** A mapped range inside one the list always holds is protected after all: ::ffff:10.0.0.0/104 is,
      in every list there is, by 10.0.0.0/8. */
  lemma MappedPrivateIsProtected(management: seq<Entry>, docker: seq<Entry>, p: Prefix)
    requires forall x :: x in management + docker ==> x.Valid()
    requires Built(management, docker).Some? && Cidr(p) in management + docker
    requires p == Prefix(V6(MAPPED_BASE + 0x0A00_0000), 104)
    ensures Protects(Built(management, docker).value, p)
  {
    var ps := Built(management, docker).value;
    var ten := INFRASTRUCTURE[1];
    assert ten in ps && NamedIPv4(p) == Some(ten);
    forall n: Word32 | ten.Contains(V4(n))
      ensures Covered(ps, V4(n))
    {
      CoveredBy(ps, ten, V4(n));
    }
    ProtectsIff(management, docker, p);
  }

  // ------------------------------------------------- an address nothing speaks for

  const STRANGER: nat := 0x0102_0304

  lemma OutsideBy(p: Prefix, a: Addr, e: nat, span: nat)
    requires p.Valid() && a.V4? && (p.addr.V4? ==> 32 - p.bits == e && Pow2(e) == span && a.n / span != p.addr.n / span)
    ensures !p.Contains(a)
  {
  }

  lemma SmallPowers()
    ensures Pow2(16) == 0x1_0000 && Pow2(20) == 0x10_0000 && Pow2(22) == 0x40_0000
    ensures Pow2(24) == 0x100_0000 && Pow2(28) == 0x1000_0000
  {
    Pow2Values();
    assert Pow2(4) == 16 && Pow2(8) == 256;
    Pow2Adds(20, 4);
    Pow2Adds(20, 8);
  }

  /** 1.2.3.4 is in none of the infrastructure ranges. */
  lemma StrangerOutside(i: nat)
    requires i < |INFRASTRUCTURE|
    ensures !INFRASTRUCTURE[i].Contains(V4(STRANGER))
  {
    SmallPowers();
    var p := INFRASTRUCTURE[i];
    var spans := [0x100_0000, 0x100_0000, 0x40_0000, 0x100_0000, 0x1_0000, 0x10_0000, 0x1_0000, 0x1000_0000, 0x1000_0000];
    if i < 9 {
      OutsideBy(p, V4(STRANGER), 32 - p.bits, spans[i]);
    }
  }

  /** A list built from loopback and one more range protects 1.2.3.4 only if that range does. */
  lemma StrangerUncovered(p: Prefix)
    requires p.Valid() && !p.Contains(V4(STRANGER))
    ensures var m := [Bare(V4(0x7F00_0001)), Cidr(p)];
            (forall x :: x in m + [] ==> x.Valid()) && Built(m, []).Some? && !Covered(Built(m, []).value, V4(STRANGER))
  {
    var own := Prefix(V4(0x7F00_0001), 32);
    var m := [Bare(V4(0x7F00_0001)), Cidr(p)];
    assert m + [] == m;
    ParsedTwo(p);
    var ps := Built(m, []).value;
    assert ps == [own, p.Masked()] + INFRASTRUCTURE + [];
    MaskedContainsSame(p, V4(STRANGER));
    assert own.Span() == 1;
    forall i | 0 <= i < |ps|
      ensures !ps[i].Contains(V4(STRANGER))
    {
      if i >= 2 {
        StrangerOutside(i - 2);
        assert ps[i] == INFRASTRUCTURE[i - 2];
      }
    }
  }

  lemma ParsedTwo(p: Prefix)
    requires p.Valid()
    ensures ParsedAll([Bare(V4(0x7F00_0001)), Cidr(p)]) == Some([Prefix(V4(0x7F00_0001), 32), p.Masked()])
  {
    var home := Bare(V4(0x7F00_0001));
    var own := Prefix(V4(0x7F00_0001), 32);
    ParsedAllAppend([], home);
    assert [] + [home] == [home] && ParsedAll([]).value == [];
    assert Kept(home) == [own] && [] + [own] == [own];
    ParsedAllAppend([home], Cidr(p));
    assert [home] + [Cidr(p)] == [home, Cidr(p)];
    assert [own] + Kept(Cidr(p)) == [own, p.Masked()];
  }

  /** An input for each way to fail, over lists the code does build: configured next to loopback, each
      of ::ffff:1.2.3.0/120, ::ffff:0:0/95 and ::/0 holds ::ffff:1.2.3.4 and leaves both spellings of
      it unprotected. */
  lemma RangesThatMiss(p: Prefix)
    requires p == Prefix(V6(MAPPED_BASE + 0x0102_0300), 120) || p == Prefix(V6(MAPPED_BASE), 95) || p == Prefix(V6(0), 0)
    ensures p.Contains(V6(MAPPED_BASE + STRANGER))
    ensures var m := [Bare(V4(0x7F00_0001)), Cidr(p)];
            (forall x :: x in m + [] ==> x.Valid()) && Built(m, []).Some? &&
            !Covered(Built(m, []).value, V4(STRANGER)) && !Covered(Built(m, []).value, V6(MAPPED_BASE + STRANGER))
  {
    StrangerUncovered(p);
    CoveredUnmaps(Built([Bare(V4(0x7F00_0001)), Cidr(p)], []).value, V6(MAPPED_BASE + STRANGER));
    HoldsStranger(p);
  }

  lemma HoldsStranger(p: Prefix)
    requires p == Prefix(V6(MAPPED_BASE + 0x0102_0300), 120) || p == Prefix(V6(MAPPED_BASE), 95) || p == Prefix(V6(0), 0)
    ensures p.Contains(V6(MAPPED_BASE + STRANGER))
  {
    if p.bits == 120 {
      assert p.Span() == 256 by {
        assert Pow2(8) == 256;
      }
    } else if p.bits == 95 {
      WideOrApart(p, STRANGER);
    } else {
      assert p.Span() == TWO128 by {
        Pow2Values();
      }
    }
  }
}
