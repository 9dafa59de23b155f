/** geosets.go: one rule's country list compiled to the flat ranges the data plane searches. */
module GeoSets {
  import opened Wrappers
  import opened NetAddr
  import opened Text
  import opened GeoMerge
  import opened GeoWords
  import opened GeoTable
  import opened Sorting

  const MAX_GEO_RANGES: nat := 250_000
  const MAX_GEO_COUNTRIES: nat := 60

  datatype GeoSet = GeoSet(v4: seq<nat>, v6: seq<string>)

  // GeoSetKey
  function GeoSetKey(countries: seq<string>): string {
    Join(SortStrings(countries), ",")
  }

  predicate NoComma(s: string) {
    ',' !in s
  }

  predicate NoCommas(countries: seq<string>) {
    forall c :: c in countries ==> NoComma(c)
  }

  /** A list of proper entries: none empty, none with a comma, as every list the store keeps is. */
  predicate Plain(countries: seq<string>) {
    NoCommas(countries) && "" !in countries
  }

  /** What follows the first entry of a joined list. */
  function JoinRest(ss: seq<string>): string
    requires ss != []
  {
    if |ss| == 1 then "" else "," + Join(ss[1..], ",")
  }

  lemma JoinHead(ss: seq<string>)
    requires ss != []
    ensures Join(ss, ",") == ss[0] + JoinRest(ss)
  {
  }

  /** The first entry ends at the first comma. */
  lemma FirstEntry(a: string, x: string, b: string, y: string)
    requires NoComma(a) && NoComma(b) && a + x == b + y
    requires (x == "" || x[0] == ',') && (y == "" || y[0] == ',')
    ensures a == b && x == y
  {
    var s := a + x;
    if |a| < |b| {
      CommaInside(a, x, b, y);
    } else if |b| < |a| {
      CommaInside(b, y, a, x);
    } else {
      assert a == s[..|a|] == b && x == s[|a|..] == y;
    }
  }

  lemma CommaInside(a: string, x: string, b: string, y: string)
    requires a + x == b + y && |a| < |b| && (x == "" || x[0] == ',')
    ensures ',' in b
  {
    var s := a + x;
    assert |s| > |a|;
    assert s[|a|] == x[0] && s[|a|] == b[|a|];
  }

  lemma {:induction false} JoinInjective(a: seq<string>, b: seq<string>)
    requires NoCommas(a) && NoCommas(b) && a != [] && b != [] && Join(a, ",") == Join(b, ",")
    ensures a == b
    decreases |a|
  {
    JoinHead(a);
    JoinHead(b);
    assert a[0] in a && b[0] in b;
    FirstEntry(a[0], JoinRest(a), b[0], JoinRest(b));
    if |a| > 1 && |b| > 1 {
      assert Join(a[1..], ",") == JoinRest(a)[1..] && Join(b[1..], ",") == JoinRest(b)[1..];
      assert forall c :: c in a[1..] ==> c in a;
      assert forall c :: c in b[1..] ==> c in b;
      JoinInjective(a[1..], b[1..]);
    }
    assert a == [a[0]] + a[1..] && b == [b[0]] + b[1..];
  }

  lemma {:induction false} JoinEmptyIff(a: seq<string>)
    ensures Join(a, ",") == "" <==> a == [] || a == [""]
  {
    if a != [] {
      JoinHead(a);
    }
  }

  lemma SortKeepsEntries(a: seq<string>)
    ensures |SortStrings(a)| == |a| && forall c :: c in SortStrings(a) <==> c in a
  {
    assert |multiset(SortStrings(a))| == |multiset(a)|;
    forall c
      ensures c in SortStrings(a) <==> c in a
    {
      assert c in multiset(SortStrings(a)) <==> c in multiset(a);
    }
  }

  /** The list of nothing and the list of one empty entry. */
  predicate BothBlank(a: seq<string>, b: seq<string>) {
    (a == [] || a == [""]) && (b == [] || b == [""])
  }

  /** Lists of entries without commas share a key exactly when one is a rearrangement of the other, or
      both say nothing. */
  lemma KeysAgreeIff(a: seq<string>, b: seq<string>)
    requires NoCommas(a) && NoCommas(b)
    ensures GeoSetKey(a) == GeoSetKey(b) <==> multiset(a) == multiset(b) || BothBlank(a, b)
  {
    var x, y := SortStrings(a), SortStrings(b);
    SortStringsSorted(a);
    SortStringsSorted(b);
    SortKeepsEntries(a);
    SortKeepsEntries(b);
    BlankSorts(a);
    BlankSorts(b);
    JoinEmptyIff(x);
    JoinEmptyIff(y);
    if multiset(a) == multiset(b) {
      SortedUnique(x, y);
    }
    if GeoSetKey(a) == GeoSetKey(b) && x != [] && y != [] {
      JoinInjective(x, y);
    }
  }

  lemma BlankSorts(a: seq<string>)
    ensures SortStrings(a) == [""] <==> a == [""]
    ensures SortStrings(a) == [] <==> a == []
  {
    SortKeepsEntries(a);
    if |a| == 1 {
      assert a == [a[0]] && a[0] in a;
      assert SortStrings(a) == [SortStrings(a)[0]] && SortStrings(a)[0] in SortStrings(a);
    }
  }

  /** With a comma inside an entry keys collide, one entry spelling the key of two; the store lets no
      such entry in. */
  lemma KeysCollideOnCommas(a: string, b: string)
    requires LexLe(a, b)
    ensures GeoSetKey([a + "," + b]) == GeoSetKey([a, b])
  {
    var one := a + "," + b;
    assert [one][1..] == [] && [b][1..] == [] && [a, b][1..] == [b];
    assert SortStrings([one]) == [one] && SortStrings([b]) == [b];
    assert SortStrings([a, b]) == [a, b];
    assert Join([b], ",") == b;
  }

  // ------------------------------------------------------------ what is wanted

  function Wanted(countries: seq<string>): set<string> {
    set c | c in countries :: ToUpper(TrimSpace(c))
  }

  function Chosen(rows: seq<Row>, want: set<string>): (r: seq<Span>)
    ensures |r| <= |rows|
    ensures Sound(rows) ==> Proper(r)
  {
    if rows == [] then []
    else
      var k := |rows| - 1;
      Chosen(rows[..k], want) + if ToUpper(rows[k].cc) in want then [rows[k].span] else []
  }

  predicate ChosenHas(rows: seq<Row>, want: set<string>, s: Span) {
    exists i :: 0 <= i < |rows| && ToUpper(rows[i].cc) in want && rows[i].span == s
  }

  lemma {:induction false} ChosenMeans(rows: seq<Row>, want: set<string>, s: Span)
    ensures s in Chosen(rows, want) <==> ChosenHas(rows, want, s)
    decreases |rows|
  {
    if rows != [] {
      var k := |rows| - 1;
      var q := rows[..k];
      ChosenMeans(q, want, s);
      if ChosenHas(rows, want, s) {
        var i :| 0 <= i < |rows| && ToUpper(rows[i].cc) in want && rows[i].span == s;
        assert i < k ==> ToUpper(q[i].cc) in want && q[i].span == s;
      }
      if ChosenHas(q, want, s) {
        var i :| 0 <= i < |q| && ToUpper(q[i].cc) in want && q[i].span == s;
        assert ToUpper(rows[i].cc) in want && rows[i].span == s;
      }
    }
  }

  // -------------------------------------------------------- the published form

  function Flat4(spans: seq<Span>): (r: seq<nat>)
    ensures |r| == 2 * |spans|
  {
    if spans == [] then []
    else
      var k := |spans| - 1;
      Flat4(spans[..k]) + [spans[k].lo, spans[k].hi]
  }

  predicate Fits6(spans: seq<Span>) {
    forall i :: 0 <= i < |spans| ==> spans[i].lo < TWO128 && spans[i].hi < TWO128
  }

  function HexAll(list: seq<nat>): (r: seq<string>)
    ensures |r| == |list| && forall i :: 0 <= i < |list| ==> r[i] == Hex128(list[i])
  {
    seq(|list|, i requires 0 <= i < |list| => Hex128(list[i]))
  }

  function Flat6(spans: seq<Span>): (r: seq<string>)
    ensures |r| == 2 * |spans|
  {
    HexAll(Flat4(spans))
  }

  lemma {:induction false} Flat4At(spans: seq<Span>, i: nat)
    requires i < |spans|
    ensures Flat4(spans)[2 * i] == spans[i].lo && Flat4(spans)[2 * i + 1] == spans[i].hi
    decreases |spans|
  {
    var k := |spans| - 1;
    if i < k {
      Flat4At(spans[..k], i);
    }
  }

  lemma Flat6At(spans: seq<Span>, i: nat)
    requires i < |spans|
    ensures Flat6(spans)[2 * i] == Hex128(spans[i].lo) && Flat6(spans)[2 * i + 1] == Hex128(spans[i].hi)
  {
    Flat4At(spans, i);
  }

  function Lo(s: Span): nat { s.lo }

  lemma {:induction false} ChosenFits4(rows: seq<Row4>, want: set<string>)
    ensures Fits4(Chosen(All4(rows), want))
    decreases |rows|
  {
    if rows != [] {
      assert All4(rows)[..|rows| - 1] == All4(rows[..|rows| - 1]);
      ChosenFits4(rows[..|rows| - 1], want);
    }
  }

  /** One of the outcomes SetFor can have: the ranges chosen, in some order by lower bound,
      merged and flattened. */
  ghost predicate IsCompiled(v4: seq<Row4>, v6: seq<Row6>, countries: seq<string>, s: GeoSet) {
    exists p4, p6 ::
      IsSortOf(p4, Chosen(All4(v4), Wanted(countries)), Lo) &&
      IsSortOf(p6, Chosen(All6(v6), Wanted(countries)), Lo) &&
      CompiledFrom(p4, p6, s)
  }

  ghost predicate CompiledFrom(p4: seq<Span>, p6: seq<Span>, s: GeoSet) {
    s.v4 == Flat4(Merge(true, p4)) && Fits6(Merge(false, p6)) && s.v6 == Flat6(Merge(false, p6))
  }

  /** When SetFor has an answer at all: a list neither empty nor over long, some dataset, and
      between one and the ceiling of ranges chosen from it. */
  predicate CanCompile(v4: seq<Row4>, v6: seq<Row6>, countries: seq<string>) {
    0 < |countries| <= MAX_GEO_COUNTRIES &&
    0 < |Chosen(All4(v4), Wanted(countries))| + |Chosen(All6(v6), Wanted(countries))| <= MAX_GEO_RANGES
  }

  /** The rows of the wanted countries, by their places in the table. */
  ghost function RowsOf(rows: seq<Row>, want: set<string>): set<nat> {
    set i: nat | i < |rows| && ToUpper(rows[i].cc) in want
  }

  lemma {:induction false} ChosenCount(rows: seq<Row>, want: set<string>)
    ensures |Chosen(rows, want)| == |RowsOf(rows, want)|
    decreases |rows|
  {
    if rows == [] {
      assert RowsOf(rows, want) == {};
    } else {
      var k := |rows| - 1;
      ChosenCount(rows[..k], want);
      var before := RowsOf(rows[..k], want);
      assert RowsOf(rows, want) == before + if ToUpper(rows[k].cc) in want then {k} else {};
    }
  }

  /** A list can be compiled exactly when it has between one and sixty entries and between one and
      250000 rows of the dataset are of the countries it names. */
  lemma CanCompileIff(v4: seq<Row4>, v6: seq<Row6>, countries: seq<string>)
    ensures CanCompile(v4, v6, countries) <==>
            1 <= |countries| <= 60 &&
            1 <= |RowsOf(All4(v4), Wanted(countries))| + |RowsOf(All6(v6), Wanted(countries))| <= 250_000
  {
    ChosenCount(All4(v4), Wanted(countries));
    ChosenCount(All6(v6), Wanted(countries));
  }

  /** The entry is blanks, then the letters of `code` in either case, then blanks. */
  ghost predicate Names(entry: string, code: string) {
    exists a, b :: NamesAt(entry, a, b, code)
  }

  ghost predicate NamesAt(entry: string, a: int, b: int, code: string) {
    Core(entry, a, b) && ToUpper(entry[a..b]) == code
  }

  /** What a list asks for: every entry's letters in capitals, without the blanks around them. */
  lemma WantedIff(countries: seq<string>, code: string)
    ensures code in Wanted(countries) <==> exists i :: 0 <= i < |countries| && Names(countries[i], code)
  {
    forall i | 0 <= i < |countries|
      ensures Names(countries[i], code) <==> ToUpper(TrimSpace(countries[i])) == code
    {
      NamesTrimmed(countries[i], code);
    }
    if code in Wanted(countries) {
      var c :| c in countries && ToUpper(TrimSpace(c)) == code;
      var i :| 0 <= i < |countries| && countries[i] == c;
      assert Names(countries[i], code);
    }
  }

  lemma NamesTrimmed(c: string, code: string)
    ensures Names(c, code) <==> ToUpper(TrimSpace(c)) == code
  {
    var a, b := TrimSpaceWhere(c);
    assert ToUpper(TrimSpace(c)) == code ==> NamesAt(c, a, b, code);
    if x, y :| NamesAt(c, x, y, code) {
      TrimSpaceAt(c, x, y);
    }
  }

  lemma SortedSpans(p: seq<Span>, q: seq<Span>)
    requires IsSortOf(p, q, Lo)
    ensures Ascending(p) && |p| == |q|
    ensures Proper(q) ==> Proper(p)
    ensures Fits4(q) ==> Fits4(p)
    ensures Fits6(q) ==> Fits6(p)
    ensures forall x :: In(p, x) <==> In(q, x)
  {
    SameElements(p, q, Lo);
    assert forall i, j :: 0 <= i < j < |p| ==> Lo(p[i]) <= Lo(p[j]);
    assert forall i :: 0 <= i < |p| ==> p[i] in q;
    forall x
      ensures In(p, x) <==> In(q, x)
    {
      if In(p, x) {
        var i :| 0 <= i < |p| && Within(p[i], x);
        var j :| 0 <= j < |q| && q[j] == p[i];
        assert Within(q[j], x);
      }
      if In(q, x) {
        var i :| 0 <= i < |q| && Within(q[i], x);
        assert q[i] in p;
        var j :| 0 <= j < |p| && p[j] == q[i];
        assert Within(p[j], x);
      }
    }
  }

  // -------------------------------------------------------------- what it means

  predicate RowWith(rows: seq<Row>, want: set<string>, x: nat) {
    exists i :: 0 <= i < |rows| && Within(rows[i].span, x) && ToUpper(rows[i].cc) in want
  }

  lemma ChosenIn(rows: seq<Row>, want: set<string>, x: nat)
    ensures In(Chosen(rows, want), x) <==> RowWith(rows, want, x)
  {
    var p := Chosen(rows, want);
    if In(p, x) {
      var i :| 0 <= i < |p| && Within(p[i], x);
      ChosenMeans(rows, want, p[i]);
      var j :| 0 <= j < |rows| && ToUpper(rows[j].cc) in want && rows[j].span == p[i];
      assert Within(rows[j].span, x);
    }
    if RowWith(rows, want, x) {
      var i :| 0 <= i < |rows| && Within(rows[i].span, x) && ToUpper(rows[i].cc) in want;
      ChosenMeans(rows, want, rows[i].span);
      var j :| 0 <= j < |p| && p[j] == rows[i].span;
      assert Within(p[j], x);
    }
  }

  // geo.lua, contains: nil when the list for the address's family is empty.
  ghost predicate Has4(list: seq<nat>, n: nat) {
    exists i :: Pair4(list, i, n)
  }

  ghost predicate Pair4(list: seq<nat>, i: int, n: nat) {
    0 <= 2 * i && 2 * i + 1 < |list| && list[2 * i] <= n <= list[2 * i + 1]
  }

  ghost predicate Has6(list: seq<string>, h: string) {
    exists i :: Pair6(list, i, h)
  }

  ghost predicate Pair6(list: seq<string>, i: int, h: string) {
    0 <= 2 * i && 2 * i + 1 < |list| && LexLe(list[2 * i], h) && LexLe(h, list[2 * i + 1])
  }

  ghost function Inside(s: GeoSet, a: Addr): Option<bool> {
    match a.Unmap()
    case V4(n) => if s.v4 == [] then None else Some(Has4(s.v4, n))
    case V6(v) => if s.v6 == [] then None else Some(Has6(s.v6, Hex128(v)))
  }

  lemma Flat4Has(spans: seq<Span>, n: nat)
    ensures Has4(Flat4(spans), n) <==> In(spans, n)
  {
    var list := Flat4(spans);
    if In(spans, n) {
      var i :| 0 <= i < |spans| && Within(spans[i], n);
      Flat4At(spans, i);
      assert Pair4(list, i, n);
    }
    if Has4(list, n) {
      var i :| Pair4(list, i, n);
      Flat4At(spans, i);
      assert Within(spans[i], n);
    }
  }

  lemma Flat6Has(spans: seq<Span>, v: Word128)
    requires Fits6(spans)
    ensures Has6(Flat6(spans), Hex128(v)) <==> In(spans, v)
  {
    var list := Flat6(spans);
    if In(spans, v) {
      var i :| 0 <= i < |spans| && Within(spans[i], v);
      Flat6At(spans, i);
      Hex128Order(spans[i].lo, v);
      Hex128Order(v, spans[i].hi);
      assert Pair6(list, i, Hex128(v));
    }
    if Has6(list, Hex128(v)) {
      var i :| Pair6(list, i, Hex128(v));
      Flat6At(spans, i);
      Hex128Order(spans[i].lo, v);
      Hex128Order(v, spans[i].hi);
      assert Within(spans[i], v);
    }
  }

  ghost predicate Stored(v4: seq<Row4>, v6: seq<Row6>, want: set<string>, a: Addr) {
    match a.Unmap()
    case V4(n) => RowWith(All4(v4), want, n)
    case V6(v) => RowWith(All6(v6), want, v)
  }

  /** A compiled set covers exactly the rows of the listed countries, in both families, on every
      table of well-formed rows, overlapping or not. */
  lemma CompiledMeans(v4: seq<Row4>, v6: seq<Row6>, countries: seq<string>, s: GeoSet, a: Addr)
    requires Sound(All4(v4)) && Sound(All6(v6)) && IsCompiled(v4, v6, countries, s)
    ensures Inside(s, a) == Some(true) <==> Stored(v4, v6, Wanted(countries), a)
  {
    var want := Wanted(countries);
    var p4, p6 :| IsSortOf(p4, Chosen(All4(v4), want), Lo) && IsSortOf(p6, Chosen(All6(v6), want), Lo) &&
                  CompiledFrom(p4, p6, s);
    match a.Unmap() {
      case V4(n) =>
        ChosenFits4(v4, want);
        SortedSpans(p4, Chosen(All4(v4), want));
        MergeDenotes(true, p4, n);
        Flat4Has(Merge(true, p4), n);
        ChosenIn(All4(v4), want, n);
      case V6(v) =>
        SortedSpans(p6, Chosen(All6(v6), want));
        MergeDenotes(false, p6, v);
        Flat6Has(Merge(false, p6), v);
        ChosenIn(All6(v6), want, v);
    }
  }

  /** The address lies in a row the dataset spells "not a country". */
  predicate InRowZZ(rows: seq<Row>, x: nat) {
    exists i :: 0 <= i < |rows| && Within(rows[i].span, x) && rows[i].cc == "ZZ"
  }

  predicate Unplaced(v4: seq<Row4>, v6: seq<Row6>, a: Addr) {
    match a.Unmap()
    case V4(n) => InRowZZ(All4(v4), n)
    case V6(v) => InRowZZ(All6(v6), v)
  }

  lemma InRowGetsLabel(rows: seq<Row>, want: set<string>, x: nat)
    requires ByHi(rows) && Sound(rows) && RowsDisjoint(rows) && RowWith(rows, want, x)
    ensures (LabelIn(rows, x) != "" && ToUpper(LabelIn(rows, x)) in want) || ("ZZ" in want && InRowZZ(rows, x))
  {
    var i :| 0 <= i < |rows| && Within(rows[i].span, x) && ToUpper(rows[i].cc) in want;
    LabelComplete(rows, x, i);
    if rows[i].cc == "ZZ" {
      assert ToUpper("ZZ") == "ZZ";
    }
  }

  lemma RowAgrees(rows: seq<Row>, want: set<string>, x: nat)
    requires ByHi(rows) && Sound(rows) && RowsDisjoint(rows)
    ensures RowWith(rows, want, x) <==>
            (LabelIn(rows, x) != "" && ToUpper(LabelIn(rows, x)) in want) || ("ZZ" in want && InRowZZ(rows, x))
  {
    if RowWith(rows, want, x) {
      InRowGetsLabel(rows, want, x);
    } else {
      LabelSound(rows, x);
      if InRowZZ(rows, x) {
        var i :| 0 <= i < |rows| && Within(rows[i].span, x) && rows[i].cc == "ZZ";
        assert ToUpper(rows[i].cc) == "ZZ";
      }
    }
  }

  /** Blocking and reporting agree. On a table whose rows do not overlap, an address is inside the
      compiled set exactly when the country `Lookup` reports for it, in capitals, is one of those
      listed; the one exception is a list that names ZZ, which the dataset uses for "not a
      country" and the report leaves blank. */
  lemma BlockingAgreesWithReporting(v4: seq<Row4>, v6: seq<Row6>, countries: seq<string>, s: GeoSet, a: Addr)
    requires ByHi(All4(v4)) && Sound(All4(v4)) && RowsDisjoint(All4(v4))
    requires ByHi(All6(v6)) && Sound(All6(v6)) && RowsDisjoint(All6(v6))
    requires IsCompiled(v4, v6, countries, s)
    ensures var cc := Label(v4, v6, a);
            Inside(s, a) == Some(true) <==>
            (cc != "" && ToUpper(cc) in Wanted(countries)) ||
            ("ZZ" in Wanted(countries) && Unplaced(v4, v6, a))
  {
    CompiledMeans(v4, v6, countries, s, a);
    match a.Unmap() {
      case V4(n) => RowAgrees(All4(v4), Wanted(countries), n);
      case V6(v) => RowAgrees(All6(v6), Wanted(countries), v);
    }
  }

  // ------------------------------------------------------ the one minimal form

  lemma RearrangedDisjoint(p: seq<Span>, q: seq<Span>)
    requires multiset(p) == multiset(q) && Disjoint(q) && Proper(q)
    ensures Disjoint(p)
  {
    RearrangedApart(p, q, (a, b) => Overlap(a, b));
  }

  lemma {:induction false} ChosenDisjoint(rows: seq<Row>, want: set<string>)
    requires RowsDisjoint(rows)
    ensures Disjoint(Chosen(rows, want))
    decreases |rows|
  {
    if rows != [] {
      var k := |rows| - 1;
      ChosenDisjoint(rows[..k], want);
      var q := Chosen(rows[..k], want);
      forall i | 0 <= i < |q|
        ensures !Overlap(q[i], rows[k].span)
      {
        ChosenMeans(rows[..k], want, q[i]);
        var j :| 0 <= j < k && rows[..k][j].span == q[i];
        assert !Overlap(rows[j].span, rows[k].span);
      }
    }
  }

  /** On rows that do not overlap, the published IPv4 list is the one and only minimal spelling of
      the addresses chosen: interleaved bounds, strictly increasing, with a gap between intervals,
      whatever order the unstable sort left equal rows in. */
  lemma Compiled4IsMinimal(v4: seq<Row4>, v6: seq<Row6>, countries: seq<string>, s: GeoSet, q: seq<Span>)
    requires Sound(All4(v4)) && RowsDisjoint(All4(v4)) && IsCompiled(v4, v6, countries, s)
    requires Apart(q) && forall x :: In(q, x) <==> RowWith(All4(v4), Wanted(countries), x)
    ensures s.v4 == Flat4(q)
  {
    var want := Wanted(countries);
    var chosen := Chosen(All4(v4), want);
    var p4, p6 :| IsSortOf(p4, chosen, Lo) && IsSortOf(p6, Chosen(All6(v6), want), Lo) && CompiledFrom(p4, p6, s);
    ChosenFits4(v4, want);
    SortedSpans(p4, chosen);
    ChosenDisjoint(All4(v4), want);
    RearrangedDisjoint(p4, chosen);
    forall x
      ensures In(q, x) <==> In(p4, x)
    {
      ChosenIn(All4(v4), want, x);
    }
    Merge4Canonical(p4, q);
  }
}
