/** control/cmd/moswaf-kbans/allowlist.go: the addresses the agent refuses to drop. */
module NeverDrop {
  import opened Wrappers
  import opened NetAddr

  /** One configured entry, after trimming and parsing. */
  datatype Entry =
    | Blank
    | Unreadable
    | Cidr(prefix: Prefix)
    | Bare(addr: Addr)
  {
    predicate Valid() {
      Cidr? ==> prefix.Valid()
    }

    /** parsePrefix: a CIDR is masked as written; only a bare address is unmapped. */
    function Parsed(): (r: Option<Prefix>)
      requires Valid()
      ensures r.Some? ==> r.value.Valid()
    {
      match this
      case Cidr(p) => Some(p.Masked())
      case Bare(a) => Some(Prefix(a.Unmap(), a.Unmap().Width()))
      case _ => None
    }
  }

  const INFRASTRUCTURE: seq<Prefix> := [
    Prefix(V4(0x0000_0000), 8),
    Prefix(V4(0x0A00_0000), 8),
    Prefix(V4(0x6440_0000), 10),
    Prefix(V4(0x7F00_0000), 8),
    Prefix(V4(0xA9FE_0000), 16),
    Prefix(V4(0xAC10_0000), 12),
    Prefix(V4(0xC0A8_0000), 16),
    Prefix(V4(0xE000_0000), 4),
    Prefix(V4(0xF000_0000), 4),
    Prefix(V6(0xFF00_0000_0000_0000_0000_0000_0000_0000), 8),
    Prefix(V6(1), 128),
    Prefix(V6(0), 128),
    Prefix(V6(0xFC00_0000_0000_0000_0000_0000_0000_0000), 7),
    Prefix(V6(0xFE80_0000_0000_0000_0000_0000_0000_0000), 10)
  ]

  ghost predicate AllValid(ps: seq<Prefix>) {
    forall i :: 0 <= i < |ps| ==> ps[i].Valid()
  }

  /** The meaning of the list: the unmapped address lies in a prefix of its own family. */
  ghost predicate Covered(ps: seq<Prefix>, a: Addr)
    requires AllValid(ps)
  {
    exists i :: 0 <= i < |ps| && ps[i].Contains(a.Unmap())
  }

  /** Index of the first covering prefix, which is the reason the log prints. */
  function FirstCover(ps: seq<Prefix>, a: Addr): (r: Option<Prefix>)
    requires AllValid(ps)
    ensures r.Some? <==> Covered(ps, a)
    ensures r.Some? ==> r.value in ps && r.value.Valid() && r.value.Contains(a.Unmap())
  {
    if ps == [] then None
    else if ps[0].Contains(a.Unmap()) then Some(ps[0])
    else
      var r := FirstCover(ps[1..], a);
      assert Covered(ps[1..], a) ==> Covered(ps, a) by {
        if Covered(ps[1..], a) {
          var i :| 0 <= i < |ps| - 1 && ps[1..][i].Contains(a.Unmap());
          assert ps[i + 1].Contains(a.Unmap());
        }
      }
      assert Covered(ps, a) ==> Covered(ps[1..], a) by {
        if Covered(ps, a) {
          var i :| 0 <= i < |ps| && ps[i].Contains(a.Unmap());
          assert ps[1..][i - 1].Contains(a.Unmap());
        }
      }
      r
  }

  /** The first prefix of the list that holds the unmapped address. */
  ghost predicate CoversFirst(ps: seq<Prefix>, i: int, a: Addr)
    requires AllValid(ps)
  {
    0 <= i < |ps| && ps[i].Contains(a.Unmap()) && forall j :: 0 <= j < i ==> !ps[j].Contains(a.Unmap())
  }

  lemma {:induction false} FirstCoverIs(ps: seq<Prefix>, a: Addr)
    requires AllValid(ps)
    ensures FirstCover(ps, a).Some? ==> exists i :: CoversFirst(ps, i, a) && FirstCover(ps, a) == Some(ps[i])
    decreases |ps|
  {
    if ps != [] {
      if ps[0].Contains(a.Unmap()) {
        assert CoversFirst(ps, 0, a);
      } else if FirstCover(ps, a).Some? {
        FirstCoverIs(ps[1..], a);
        var i :| CoversFirst(ps[1..], i, a) && FirstCover(ps[1..], a) == Some(ps[1..][i]);
        assert ps[1..][i] == ps[i + 1];
        assert forall j :: 0 < j <= i ==> ps[j] == ps[1..][j - 1];
        assert CoversFirst(ps, i + 1, a);
      }
    }
  }

  /** What the non-blank entries of a configured list contribute, or None if one is unreadable. */
  function ParsedAll(entries: seq<Entry>): (r: Option<seq<Prefix>>)
    requires forall e :: e in entries ==> e.Valid()
    ensures r.Some? ==> AllValid(r.value)
    ensures r.Some? ==> forall e :: e in entries && !e.Blank? ==> e.Parsed().Some? && e.Parsed().value in r.value
    ensures r.Some? <==> Unreadable !in entries
  {
    if entries == [] then Some([])
    else
      var rest := ParsedAll(entries[1..]);
      if rest.None? then None
      else if entries[0].Unreadable? then None
      else Some(Kept(entries[0]) + rest.value)
  }

  function Kept(e: Entry): seq<Prefix>
    requires e.Valid()
  {
    if e.Parsed().Some? then [e.Parsed().value] else []
  }

  lemma {:induction false} ParsedAllAppend(xs: seq<Entry>, e: Entry)
    requires forall x :: x in xs + [e] ==> x.Valid()
    ensures ParsedAll(xs + [e]) ==
            if ParsedAll(xs).None? || e.Unreadable? then None
            else Some(ParsedAll(xs).value + Kept(e))
  {
    if xs == [] {
      assert xs + [e] == [e] && [e][1..] == [];
      assert ParsedAll([e][1..]) == Some([]);
      assert Kept(e) + [] == [] + Kept(e) == Kept(e);
      assert ParsedAll(xs) == Some([]);
    } else {
      assert (xs + [e])[0] == xs[0] && (xs + [e])[1..] == xs[1..] + [e];
      ParsedAllAppend(xs[1..], e);
      if ParsedAll(xs[1..]).Some? {
        var rest := ParsedAll(xs[1..]).value;
        assert Kept(xs[0]) + (rest + Kept(e)) == Kept(xs[0]) + rest + Kept(e);
      }
    }
  }

  lemma {:induction false} NothingKept(entries: seq<Entry>)
    requires forall x :: x in entries ==> x.Valid()
    ensures ParsedAll(entries).Some? ==>
              (ParsedAll(entries).value == [] <==> forall e :: e in entries ==> e.Blank?)
  {
    if entries != [] {
      NothingKept(entries[1..]);
      assert forall e :: e in entries <==> e == entries[0] || e in entries[1..];
    }
  }

  class NeverDropList {
    var prefixes: seq<Prefix>
    var management: seq<Prefix>

    ghost predicate Valid()
      reads this
    {
      AllValid(prefixes)
    }

    constructor ()
      ensures prefixes == [] && management == []
    {
      prefixes, management := [], [];
    }

    /** newNeverDrop's second half of each loop: keep one parsed entry. */
    method Load(entries: seq<Entry>, managing: bool) returns (ok: bool)
      requires Valid() && forall e :: e in entries ==> e.Valid()
      modifies this
      ensures ok <==> ParsedAll(entries).Some?
      ensures ok ==> prefixes == old(prefixes) + ParsedAll(entries).value
      ensures ok ==> management == old(management) + if managing then ParsedAll(entries).value else []
      ensures Valid()
    {
      ok := true;
      var i := 0;
      assert entries[..0] == [];
      while i < |entries|
        invariant 0 <= i <= |entries| && Valid()
        invariant ParsedAll(entries[..i]).Some?
        invariant prefixes == old(prefixes) + ParsedAll(entries[..i]).value
        invariant management == old(management) + if managing then ParsedAll(entries[..i]).value else []
      {
        assert entries[..i + 1] == entries[..i] + [entries[i]];
        ParsedAllAppend(entries[..i], entries[i]);
        if entries[i].Unreadable? {
          return false;
        }
        if !entries[i].Blank? {
          var p := entries[i].Parsed().value;
          prefixes := prefixes + [p];
          if managing {
            management := management + [p];
          }
        }
        i := i + 1;
      }
      assert entries[..i] == entries;
    }

    /** covers: refuse, and name the entry that refused. */
    method Covers(a: Addr) returns (refused: bool, why: Option<Prefix>)
      requires Valid()
      ensures why == FirstCover(prefixes, a) && (why.Some? <==> refused)
      ensures refused <==> Covered(prefixes, a)
      ensures refused ==> exists i :: CoversFirst(prefixes, i, a) && why == Some(prefixes[i])
    {
      var u := a.Unmap();
      FirstCoverIs(prefixes, a);
      var i := 0;
      while i < |prefixes|
        invariant 0 <= i <= |prefixes|
        invariant FirstCover(prefixes[i..], a) == FirstCover(prefixes, a)
      {
        if prefixes[i].addr.V4? == u.V4? && prefixes[i].Contains(u) {
          return true, Some(prefixes[i]);
        }
        assert prefixes[i..][1..] == prefixes[i + 1..];
        i := i + 1;
      }
      return false, None;
    }
  }

  /** newNeverDrop: no list at all unless at least one management entry was given. */
  method NewNeverDrop(management: seq<Entry>, docker: seq<Entry>) returns (list: Option<NeverDropList>)
    requires forall e :: e in management + docker ==> e.Valid()
    ensures list.Some? <==> Built(management, docker).Some?
    ensures list.Some? <==> Unreadable !in management && Unreadable !in docker && exists e :: e in management && !e.Blank?
    ensures list.Some? ==> fresh(list.value) && list.value.Valid()
    ensures list.Some? ==> list.value.prefixes == Built(management, docker).value
    ensures list.Some? ==>
              ParsedAll(management).Some? && ParsedAll(docker).Some? &&
              list.value.prefixes == ParsedAll(management).value + INFRASTRUCTURE + ParsedAll(docker).value
    ensures list.Some? ==> list.value.management == ParsedAll(management).value
  {
    assert forall e :: e in management ==> e in management + docker;
    assert forall e :: e in docker ==> e in management + docker;
    NothingKept(management);
    var nd := new NeverDropList();
    var ok := nd.Load(management, true);
    if !ok || |nd.management| == 0 {
      return None;
    }
    nd.prefixes := nd.prefixes + INFRASTRUCTURE;
    ok := nd.Load(docker, false);
    return if ok then Some(nd) else None;
  }

  function Built(management: seq<Entry>, docker: seq<Entry>): (r: Option<seq<Prefix>>)
    requires forall e :: e in management + docker ==> e.Valid()
    ensures r.Some? ==> AllValid(r.value)
  {
    assert forall e :: e in management ==> e in management + docker;
    assert forall e :: e in docker ==> e in management + docker;
    var m := ParsedAll(management);
    var d := ParsedAll(docker);
    if m.None? || m.value == [] || d.None? then None else Some(m.value + INFRASTRUCTURE + d.value)
  }

  /** Every built list protects each bare configured address in either spelling, and
      every address of each configured range whose unmapped form the range contains. */
  lemma BuiltProtects(management: seq<Entry>, docker: seq<Entry>, e: Entry, a: Addr)
    requires forall x :: x in management + docker ==> x.Valid()
    requires Built(management, docker).Some?
    requires e in management + docker
    requires (e.Bare? && a.Unmap() == e.addr.Unmap()) || (e.Cidr? && e.prefix.Contains(a.Unmap()))
    ensures Covered(Built(management, docker).value, a)
  {
    var ps := Built(management, docker).value;
    var p := e.Parsed().value;
    assert p in ps;
    if e.Cidr? {
      MaskedContainsSame(e.prefix, a.Unmap());
    }
    CoveredBy(ps, p, a);
  }

  lemma CoveredBy(ps: seq<Prefix>, p: Prefix, a: Addr)
    requires AllValid(ps) && p in ps && p.Contains(a.Unmap())
    ensures Covered(ps, a)
  {
    var i :| 0 <= i < |ps| && ps[i] == p;
    assert ps[i].Contains(a.Unmap());
  }

  /** ...and loopback, whatever was configured. */
  lemma BuiltProtectsLoopback(management: seq<Entry>, docker: seq<Entry>)
    requires forall x :: x in management + docker ==> x.Valid()
    requires Built(management, docker).Some?
    ensures Covered(Built(management, docker).value, V4(0x7F00_0001))
    ensures Covered(Built(management, docker).value, V6(1))
  {
    var ps := Built(management, docker).value;
    var p4, p6 := INFRASTRUCTURE[3], INFRASTRUCTURE[10];
    assert p4 in ps && p6 in ps;
    LoopbackRange(p4);
    LoopbackHost(p6);
    CoveredBy(ps, p4, V4(0x7F00_0001));
    CoveredBy(ps, p6, V6(1));
  }

  lemma LoopbackRange(p: Prefix)
    requires p == INFRASTRUCTURE[3]
    ensures p.Contains(V4(0x7F00_0001).Unmap())
  {
    AlignedIs(p, 0x100_0000, V4(0x7F00_0001));
  }

  lemma LoopbackHost(p: Prefix)
    requires p == INFRASTRUCTURE[10]
    ensures p.Contains(V6(1).Unmap())
  {
    assert p.Span() == 1;
  }

  // ---------------------------------------------------- the built-in ranges, in numbers

  /** The addresses nobody on the internet can be arriving from. */
  predicate Infrastructure(u: Addr) {
    match u
    case V4(n) =>
      n <= 0x00FF_FFFF ||
      0x0A00_0000 <= n <= 0x0AFF_FFFF ||
      0x6440_0000 <= n <= 0x647F_FFFF ||
      0x7F00_0000 <= n <= 0x7FFF_FFFF ||
      0xA9FE_0000 <= n <= 0xA9FE_FFFF ||
      0xAC10_0000 <= n <= 0xAC1F_FFFF ||
      0xC0A8_0000 <= n <= 0xC0A8_FFFF ||
      0xE000_0000 <= n
    case V6(v) =>
      v <= 1 ||
      0xFC00_0000_0000_0000_0000_0000_0000_0000 <= v <= 0xFDFF_FFFF_FFFF_FFFF_FFFF_FFFF_FFFF_FFFF ||
      0xFE80_0000_0000_0000_0000_0000_0000_0000 <= v <= 0xFEBF_FFFF_FFFF_FFFF_FFFF_FFFF_FFFF_FFFF ||
      0xFF00_0000_0000_0000_0000_0000_0000_0000 <= v
  }

  /** The powers of two the built-in ranges need. */
  predicate Doubled(k: int, size: nat) {
    (k == 0 && size == 1) || (k == 16 && size == 0x1_0000) || (k == 20 && size == 0x10_0000) || (k == 22 && size == 0x40_0000) ||
    (k == 24 && size == 0x100_0000) || (k == 28 && size == 0x1000_0000) ||
    (k == 118 && size == 0x0040_0000_0000_0000_0000_0000_0000_0000) ||
    (k == 120 && size == 0x0100_0000_0000_0000_0000_0000_0000_0000) ||
    (k == 121 && size == 0x0200_0000_0000_0000_0000_0000_0000_0000)
  }

  lemma Powers(k: nat, size: nat)
    requires Doubled(k, size)
    ensures Pow2(k) == size
  {
    if k <= 28 {
      SmallPowers(k, size);
    } else {
      BigPowers(k, size);
    }
  }

  lemma SmallPowers(k: nat, size: nat)
    requires Doubled(k, size) && k <= 28
    ensures Pow2(k) == size
  {
    Pow2Values();
    Pow2Adds(20, 4);
    Pow2Adds(24, 4);
    assert Pow2(4) == 16;
  }

  lemma BigPowers(k: nat, size: nat)
    requires Doubled(k, size) && k >= 118
    ensures Pow2(k) == size
  {
    Pow2Values();
    Pow2Adds(64, 32);
    Pow2Adds(96, 22);
    Pow2Adds(118, k - 118);
    assert Pow2(k - 118) == if k == 118 then 1 else if k == 120 then 4 else 8;
  }

  /** An aligned prefix, as bounds. */
  lemma AlignedIs(p: Prefix, size: nat, u: Addr)
    requires p.Valid() && Doubled(p.addr.Width() - p.bits, size) && p.addr.Value() % size == 0
    ensures p.Contains(u) <==> u.V4? == p.addr.V4? && p.addr.Value() <= u.Value() < p.addr.Value() + size
  {
    Powers(p.addr.Width() - p.bits, size);
    ContainsIsInterval(p, u);
  }

  /** The built-in list, entry by entry. */
  predicate Entries4(ps: seq<Prefix>)
    requires |ps| == 14
  {
    ps[0] == Prefix(V4(0), 8) &&
    ps[1] == Prefix(V4(0x0A00_0000), 8) &&
    ps[2] == Prefix(V4(0x6440_0000), 10) &&
    ps[3] == Prefix(V4(0x7F00_0000), 8) &&
    ps[4] == Prefix(V4(0xA9FE_0000), 16) &&
    ps[5] == Prefix(V4(0xAC10_0000), 12) &&
    ps[6] == Prefix(V4(0xC0A8_0000), 16) &&
    ps[7] == Prefix(V4(0xE000_0000), 4) &&
    ps[8] == Prefix(V4(0xF000_0000), 4)
  }

  predicate Entries6(ps: seq<Prefix>)
    requires |ps| == 14
  {
    ps[9] == Prefix(V6(0xFF00_0000_0000_0000_0000_0000_0000_0000), 8) &&
    ps[10] == Prefix(V6(1), 128) &&
    ps[11] == Prefix(V6(0), 128) &&
    ps[12] == Prefix(V6(0xFC00_0000_0000_0000_0000_0000_0000_0000), 7) &&
    ps[13] == Prefix(V6(0xFE80_0000_0000_0000_0000_0000_0000_0000), 10)
  }

  lemma Inside4(ps: seq<Prefix>, i: nat, u: Addr)
    requires |ps| == 14 && 0 <= i < 9 && Entries4(ps) && ps[i].Valid() && ps[i].Contains(u)
    ensures Infrastructure(u)
  {
    if i == 0 {
      AlignedIs(ps[0], 0x0100_0000, u);
    } else if i == 1 {
      AlignedIs(ps[1], 0x0100_0000, u);
    } else if i == 2 {
      AlignedIs(ps[2], 0x0040_0000, u);
    } else if i == 3 {
      AlignedIs(ps[3], 0x0100_0000, u);
    } else if i == 4 {
      AlignedIs(ps[4], 0x0001_0000, u);
    } else if i == 5 {
      AlignedIs(ps[5], 0x0010_0000, u);
    } else if i == 6 {
      AlignedIs(ps[6], 0x0001_0000, u);
    } else if i == 7 {
      AlignedIs(ps[7], 0x1000_0000, u);
    } else if i == 8 {
      AlignedIs(ps[8], 0x1000_0000, u);
    }
  }

  lemma Outside4(ps: seq<Prefix>, u: Addr) returns (i: nat)
    requires |ps| == 14 && AllValid(ps) && Entries4(ps) && u.V4? && Infrastructure(u)
    ensures i < 14 && ps[i].Contains(u)
  {
    if 0 <= u.n <= 0x00FF_FFFF {
      i := 0;
      AlignedIs(ps[0], 0x0100_0000, u);
    } else if 0x0A00_0000 <= u.n <= 0x0AFF_FFFF {
      i := 1;
      AlignedIs(ps[1], 0x0100_0000, u);
    } else if 0x6440_0000 <= u.n <= 0x647F_FFFF {
      i := 2;
      AlignedIs(ps[2], 0x0040_0000, u);
    } else if 0x7F00_0000 <= u.n <= 0x7FFF_FFFF {
      i := 3;
      AlignedIs(ps[3], 0x0100_0000, u);
    } else if 0xA9FE_0000 <= u.n <= 0xA9FE_FFFF {
      i := 4;
      AlignedIs(ps[4], 0x0001_0000, u);
    } else if 0xAC10_0000 <= u.n <= 0xAC1F_FFFF {
      i := 5;
      AlignedIs(ps[5], 0x0010_0000, u);
    } else if 0xC0A8_0000 <= u.n <= 0xC0A8_FFFF {
      i := 6;
      AlignedIs(ps[6], 0x0001_0000, u);
    } else if 0xE000_0000 <= u.n <= 0xEFFF_FFFF {
      i := 7;
      AlignedIs(ps[7], 0x1000_0000, u);
    } else {
      i := 8;
      AlignedIs(ps[8], 0x1000_0000, u);
    }
  }

  lemma Inside6(ps: seq<Prefix>, i: nat, u: Addr)
    requires |ps| == 14 && 9 <= i < 14 && Entries6(ps) && ps[i].Valid() && ps[i].Contains(u)
    ensures Infrastructure(u)
  {
    if i == 9 {
      AlignedIs(ps[9], 0x100_0000_0000_0000_0000_0000_0000_0000, u);
    } else if i == 10 {
      AlignedIs(ps[10], 1, u);
    } else if i == 11 {
      AlignedIs(ps[11], 1, u);
    } else if i == 12 {
      AlignedIs(ps[12], 0x200_0000_0000_0000_0000_0000_0000_0000, u);
    } else if i == 13 {
      AlignedIs(ps[13], 0x40_0000_0000_0000_0000_0000_0000_0000, u);
    }
  }

  lemma Outside6(ps: seq<Prefix>, u: Addr) returns (i: nat)
    requires |ps| == 14 && AllValid(ps) && Entries6(ps) && u.V6? && Infrastructure(u)
    ensures i < 14 && ps[i].Contains(u)
  {
    if 0xFF00_0000_0000_0000_0000_0000_0000_0000 <= u.v <= 0xFFFF_FFFF_FFFF_FFFF_FFFF_FFFF_FFFF_FFFF {
      i := 9;
      AlignedIs(ps[9], 0x100_0000_0000_0000_0000_0000_0000_0000, u);
    } else if 1 <= u.v <= 1 {
      i := 10;
      AlignedIs(ps[10], 1, u);
    } else if 0 <= u.v <= 0 {
      i := 11;
      AlignedIs(ps[11], 1, u);
    } else if 0xFC00_0000_0000_0000_0000_0000_0000_0000 <= u.v <= 0xFDFF_FFFF_FFFF_FFFF_FFFF_FFFF_FFFF_FFFF {
      i := 12;
      AlignedIs(ps[12], 0x200_0000_0000_0000_0000_0000_0000_0000, u);
    } else {
      i := 13;
      AlignedIs(ps[13], 0x40_0000_0000_0000_0000_0000_0000_0000, u);
    }
  }

  /** The numbers an entry puts under protection, of the family it is of. */
  ghost predicate Protects(e: Entry, u: Addr)
    requires e.Valid()
  {
    match e
    case Bare(b) => u == b.Unmap()
    case Cidr(p) =>
      u.V4? == p.addr.V4? &&
      var size := Pow2(p.addr.Width() - p.bits);
      p.addr.Value() / size * size <= u.Value() < p.addr.Value() / size * size + size
    case _ => false
  }

  lemma EntryProtects(e: Entry, u: Addr)
    requires e.Valid() && u == u.Unmap()
    ensures Protects(e, u) <==> e.Parsed().Some? && e.Parsed().value.Contains(u)
  {
    match e {
      case Cidr(p) =>
        MaskedContainsSame(p, u);
        ContainsIsInterval(p, u);
        MaskedValue(p);
      case Bare(b) =>
        assert Pow2(0) == 1;
        ContainsIsInterval(e.Parsed().value, u);
      case _ =>
    }
  }

  lemma {:induction false} ParsedHas(entries: seq<Entry>, p: Prefix)
    requires (forall e :: e in entries ==> e.Valid()) && ParsedAll(entries).Some?
    ensures p in ParsedAll(entries).value <==> exists e :: e in entries && e.Parsed() == Some(p)
  {
    if entries != [] {
      ParsedHas(entries[1..], p);
      assert forall e :: e in entries <==> e == entries[0] || e in entries[1..];
    }
  }

  lemma CoveredIff(ps: seq<Prefix>, a: Addr)
    requires AllValid(ps)
    ensures Covered(ps, a) <==> exists p: Prefix :: p in ps && p.Valid() && p.Contains(a.Unmap())
  {
  }

  /** Exactly what a built list protects: the built-in ranges and what its entries name, by number. */
  lemma BuiltCoversIff(management: seq<Entry>, docker: seq<Entry>, a: Addr)
    requires forall x :: x in management + docker ==> x.Valid()
    requires Built(management, docker).Some?
    ensures Covered(Built(management, docker).value, a) <==>
            Infrastructure(a.Unmap()) || exists e :: e in management + docker && e.Valid() && Protects(e, a.Unmap())
  {
    var u := a.Unmap();
    var ps := Built(management, docker).value;
    assert forall e :: e in management + docker <==> e in management || e in docker;
    CoveredIff(ps, a);
    BuiltInIff(u);
    if p: Prefix :| p in ps && p.Valid() && p.Contains(u) {
      ParsedHas(management, p);
      ParsedHas(docker, p);
      if p !in INFRASTRUCTURE {
        var e :| e in management + docker && e.Parsed() == Some(p);
        EntryProtects(e, u);
      }
    }
    forall e | e in management + docker && e.Valid() && Protects(e, u)
      ensures Covered(ps, a)
    {
      EntryProtects(e, u);
      var p := e.Parsed().value;
      ParsedHas(management, p);
      ParsedHas(docker, p);
      assert p in ps;
    }
  }

  lemma BuiltInIff(u: Addr)
    ensures Infrastructure(u) <==> exists p: Prefix :: p in INFRASTRUCTURE && p.Valid() && p.Contains(u)
  {
    EntriesHold();
    InListIff(INFRASTRUCTURE, u);
  }

  lemma EntriesHold()
    ensures |INFRASTRUCTURE| == 14 && AllValid(INFRASTRUCTURE) && Entries4(INFRASTRUCTURE) && Entries6(INFRASTRUCTURE)
  {
  }

  lemma InListIff(ps: seq<Prefix>, u: Addr)
    requires |ps| == 14 && AllValid(ps) && Entries4(ps) && Entries6(ps)
    ensures Infrastructure(u) <==> exists p: Prefix :: p in ps && p.Valid() && p.Contains(u)
  {
    if p: Prefix :| p in ps && p.Valid() && p.Contains(u) {
      var i :| 0 <= i < |ps| && ps[i] == p;
      if i < 9 {
        Inside4(ps, i, u);
      } else {
        Inside6(ps, i, u);
      }
    }
    if Infrastructure(u) {
      var i;
      if u.V4? {
        i := Outside4(ps, u);
      } else {
        i := Outside6(ps, u);
      }
      assert ps[i] in ps;
    }
  }

  /** A management range written in IPv4-mapped form is not folded: alone it covers no
      address at all, neither spelling of any. It covers something exactly when it is not
      wholly inside the mapped block. */
  lemma MappedCidrProtectsNothing(p: Prefix)
    requires p.Valid() && p.addr.Is4In6()
    ensures p.bits >= 96 <==> forall a :: !Covered([p.Masked()], a)
  {
    var k := p.Span();
    Pow2Values();
    if p.bits >= 96 {
      Pow2Grows(128 - p.bits, 32);
      forall a
        ensures !Covered([p.Masked()], a)
      {
        MappedBlockIsAligned(p, a);
      }
    } else {
      Pow2Grows(33, 128 - p.bits);
      MaskedContainsSame(p, V6(MAPPED_BASE - 1));
      WideMappedReachesOut(p);
      assert [p.Masked()][0].Contains(V6(MAPPED_BASE - 1).Unmap());
      assert Covered([p.Masked()], V6(MAPPED_BASE - 1));
    }
  }

  /** Inside the mapped block a prefix of 96 bits or more contains only mapped addresses. */
  lemma MappedBlockIsAligned(p: Prefix, a: Addr)
    requires p.Valid() && p.addr.Is4In6() && p.bits >= 96
    ensures p.Contains(a) ==> a.Is4In6()
    ensures !Covered([p.Masked()], a)
  {
    var k := p.Span();
    var j := 32 - (128 - p.bits);
    Pow2Values();
    Pow2Adds(128 - p.bits, j);
    assert k * Pow2(j) == TWO32;
    MappedQuotients(p.addr.v, k, Pow2(j));
    MaskedContainsSame(p, a);
    MaskedContainsSame(p, a.Unmap());
    if p.Contains(a) {
      MappedQuotients(a.v, k, Pow2(j));
    }
    if a.Unmap().V6? {
      MappedQuotients(a.Unmap().v, k, Pow2(j));
    }
  }

  lemma MappedQuotients(v: nat, k: nat, j: nat)
    requires 0 < k && k * j == TWO32
    ensures MAPPED_BASE <= v < MAPPED_BASE + TWO32 <==> 0xFFFF * j <= v / k < 0x1_0000 * j
  {
    var q := v / k;
    DivBracket(v, k);
    Scale(0xFFFF, j, k);
    Scale(0x1_0000, j, k);
    MulStep(q, 0xFFFF * j, k);
    MulStep(q, 0x1_0000 * j, k);
    Monotone(0xFFFF * j, q, k);
    Monotone(0x1_0000 * j, q, k);
  }

  lemma Scale(c: nat, j: nat, k: nat)
    requires k * j == TWO32
    ensures c * j * k == c * TWO32
  {
    assert c * j * k == c * (k * j);
  }

  lemma Monotone(x: nat, y: nat, k: nat)
    ensures x <= y ==> x * k <= y * k
  {
    MulStep(x, y, k);
  }

  lemma WideMappedReachesOut(p: Prefix)
    requires p.Valid() && p.addr.Is4In6() && p.bits < 96
    ensures p.Contains(V6(MAPPED_BASE - 1))
  {
    var j := 128 - p.bits - 33;
    var h := Pow2(33);
    Pow2Values();
    Pow2Adds(33, j);
    assert h == 2 * TWO32;
    // Both addresses share the quotient by 2^33, hence by every multiple of it.
    DivOfBracket(p.addr.v, 0x7FFF, h);
    DivOfBracket(MAPPED_BASE - 1, 0x7FFF, h);
    DivDiv(p.addr.v, h, Pow2(j));
    DivDiv(MAPPED_BASE - 1, h, Pow2(j));
  }

  lemma DivDiv(v: nat, a: nat, b: nat)
    requires 0 < a && 0 < b
    ensures 0 < a * b && v / (a * b) == v / a / b
  {
    var q := v / a;
    var r := q / b;
    DivBracket(v, a);
    DivBracket(q, b);
    Monotone(r * b, q, a);
    MulStep(q, r * b + b, a);
    assert r * b * a == r * (a * b);
    assert (r * b + b) * a == r * (a * b) + a * b;
    DivOfBracket(v, r, a * b);
  }
}
