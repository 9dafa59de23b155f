/** geoip.go: reading the dataset into two tables ordered by upper bound, and looking up. */
module GeoTable {
  import opened Wrappers
  import opened NetAddr
  import opened Text
  import opened GeoMerge
  import opened GeoWords
  import opened Sorting

  const GEO_MAX_ROWS: nat := 2_000_000

  datatype Row4 = Row4(lo: Word32, hi: Word32, cc: string)
  datatype Row6 = Row6(loHi: Word64, loLo: Word64, hiHi: Word64, hiLo: Word64, cc: string)

  /** A stored row of either family as an interval with a label. */
  datatype Row = Row(span: Span, cc: string)

  function Whole(hi: Word64, lo: Word64): (v: nat)
    ensures v < TWO128
  {
    assert hi * TWO64 <= (TWO64 - 1) * TWO64;
    hi * TWO64 + lo
  }

  function Of4(r: Row4): Row {
    Row(Span(r.lo, r.hi), r.cc)
  }

  function Of6(r: Row6): Row {
    Row(Span(Whole(r.loHi, r.loLo), Whole(r.hiHi, r.hiLo)), r.cc)
  }

  function All4(rows: seq<Row4>): (out: seq<Row>)
    ensures |out| == |rows| && forall i :: 0 <= i < |rows| ==> out[i] == Of4(rows[i])
  {
    seq(|rows|, i requires 0 <= i < |rows| => Of4(rows[i]))
  }

  function All6(rows: seq<Row6>): (out: seq<Row>)
    ensures |out| == |rows| && forall i :: 0 <= i < |rows| ==> out[i] == Of6(rows[i])
  {
    seq(|rows|, i requires 0 <= i < |rows| => Of6(rows[i]))
  }

  lemma PairOrder(hi: Word64, lo: Word64, hi': Word64, lo': Word64)
    ensures Whole(hi, lo) <= Whole(hi', lo') <==> hi < hi' || (hi == hi' && lo <= lo')
    ensures Whole(hi, lo) == Whole(hi', lo') <==> hi == hi' && lo == lo'
  {
    if hi < hi' {
      assert hi * TWO64 + TWO64 <= hi' * TWO64;
    } else if hi' < hi {
      assert hi' * TWO64 + TWO64 <= hi * TWO64;
    }
  }

  // ---------------------------------------------------------------- labels

  predicate IsLetter(c: char) {
    'A' <= c <= 'Z' || 'a' <= c <= 'z'
  }

  predicate IsCountryCode(s: string) {
    |s| == 2 && IsLetter(s[0]) && IsLetter(s[1])
  }

  function Known(cc: string): string {
    if cc == "ZZ" then "" else cc
  }

  // --------------------------------------------------------------- parseCSV

  datatype Parsed = Skip | Four(row4: Row4) | Six(row6: Row6)

  /** The row its three fields make. */
  function RowFrom(start: Option<Addr>, end: Option<Addr>, cc: string): (r: Parsed)
    ensures r.Four? ==> r.row4.lo <= r.row4.hi && IsCountryCode(r.row4.cc)
    ensures r.Six? ==> Of6(r.row6).span.lo <= Of6(r.row6).span.hi && IsCountryCode(r.row6.cc)
  {
    if !IsCountryCode(cc) || start.None? || end.None? then Skip
    else
      match (start.value.Unmap(), end.value.Unmap())
      case (V4(lo), V4(hi)) => if hi < lo then Skip else Four(Row4(lo, hi, cc))
      case (V6(lo), V6(hi)) =>
        if hi < lo then Skip
        else
          assert lo / TWO64 * TWO64 + lo % TWO64 == lo && hi / TWO64 * TWO64 + hi % TWO64 == hi;
          Six(Row6(lo / TWO64, lo % TWO64, hi / TWO64, hi % TWO64, cc))
      case _ => Skip
  }

  /** The three fields of a line, which the first two commas part. */
  function Fields(line: string): Option<(string, string, string)> {
    var a := IndexOf(line, ',');
    if a < 0 then None
    else
      var b := IndexOf(line[a + 1..], ',');
      if b < 0 then None
      else Some((line[..a], line[a + 1..a + 1 + b], line[a + b + 2..]))
  }

  /** One line. `parse` is netip.ParseAddr. */
  function ParseLine(line: string, parse: string -> Option<Addr>): (r: Parsed)
    ensures r.Four? ==> r.row4.lo <= r.row4.hi && IsCountryCode(r.row4.cc)
    ensures r.Six? ==> Of6(r.row6).span.lo <= Of6(r.row6).span.hi && IsCountryCode(r.row6.cc)
  {
    match Fields(line)
    case None => Skip
    case Some((start, end, cc)) => RowFrom(parse(start), parse(end), TrimSpace(cc))
  }

  function RowOf4(line: string, parse: string -> Option<Addr>): (r: seq<Row4>)
    ensures forall i :: 0 <= i < |r| ==> r[i].lo <= r[i].hi && IsCountryCode(r[i].cc)
  {
    var p := ParseLine(line, parse);
    if p.Four? then [p.row4] else []
  }

  function RowOf6(line: string, parse: string -> Option<Addr>): (r: seq<Row6>)
    ensures forall i :: 0 <= i < |r| ==> Of6(r[i]).span.lo <= Of6(r[i]).span.hi && IsCountryCode(r[i].cc)
  {
    var p := ParseLine(line, parse);
    if p.Six? then [p.row6] else []
  }

  /** The usable IPv4 rows, in file order. */
  function Kept4(lines: seq<string>, parse: string -> Option<Addr>): (r: seq<Row4>)
    ensures forall i :: 0 <= i < |r| ==> r[i].lo <= r[i].hi && IsCountryCode(r[i].cc)
  {
    if lines == [] then [] else Kept4(lines[..|lines| - 1], parse) + RowOf4(lines[|lines| - 1], parse)
  }

  function Kept6(lines: seq<string>, parse: string -> Option<Addr>): (r: seq<Row6>)
    ensures forall i :: 0 <= i < |r| ==> Of6(r[i]).span.lo <= Of6(r[i]).span.hi && IsCountryCode(r[i].cc)
  {
    if lines == [] then [] else Kept6(lines[..|lines| - 1], parse) + RowOf6(lines[|lines| - 1], parse)
  }

  function Hi4(r: Row4): nat { r.hi }

  function Hi6(r: Row6): nat { Whole(r.hiHi, r.hiLo) }

  /** The order the lookup's binary search relies on. */
  predicate ByHi(rows: seq<Row>) {
    forall i, j :: 0 <= i < j < |rows| ==> rows[i].span.hi <= rows[j].span.hi
  }

  predicate Sound(rows: seq<Row>) {
    forall i :: 0 <= i < |rows| ==> rows[i].span.lo <= rows[i].span.hi && IsCountryCode(rows[i].cc)
  }

  method ParseCSV(lines: seq<string>, parse: string -> Option<Addr>) returns (r: Option<(seq<Row4>, seq<Row6>)>)
    ensures r.None? <==> |lines| > 2_000_000 || (Kept4(lines, parse) == [] && Kept6(lines, parse) == [])
    ensures r.Some? ==> IsSortOf(r.value.0, Kept4(lines, parse), Hi4) && IsSortOf(r.value.1, Kept6(lines, parse), Hi6)
    ensures r.Some? ==> ByHi(All4(r.value.0)) && Sound(All4(r.value.0))
    ensures r.Some? ==> ByHi(All6(r.value.1)) && Sound(All6(r.value.1))
  {
    var kept := ReadRows(lines, parse);
    if kept.None? {
      return None;
    }
    var (v4, v6) := kept.value;
    if |v4| == 0 && |v6| == 0 {
      return None;
    }
    var s4, s6 := SortTables(v4, v6);
    r := Some((s4, s6));
  }

  /** The scanning loop: a malformed line is skipped, too many lines refuse the file. */
  method ReadRows(lines: seq<string>, parse: string -> Option<Addr>) returns (r: Option<(seq<Row4>, seq<Row6>)>)
    ensures r == if |lines| > GEO_MAX_ROWS then None else Some((Kept4(lines, parse), Kept6(lines, parse)))
  {
    var v4: seq<Row4> := [];
    var v6: seq<Row6> := [];
    var i := 0;
    while i < |lines|
      invariant 0 <= i <= |lines| && i <= GEO_MAX_ROWS
      invariant v4 == Kept4(lines[..i], parse) && v6 == Kept6(lines[..i], parse)
    {
      if i + 1 > GEO_MAX_ROWS {
        return None;
      }
      assert lines[..i + 1][..i] == lines[..i];
      v4, v6 := v4 + RowOf4(lines[i], parse), v6 + RowOf6(lines[i], parse);
      i := i + 1;
    }
    assert lines[..i] == lines;
    return Some((v4, v6));
  }

  method SortTables(v4: seq<Row4>, v6: seq<Row6>) returns (s4: seq<Row4>, s6: seq<Row6>)
    requires forall i :: 0 <= i < |v4| ==> v4[i].lo <= v4[i].hi && IsCountryCode(v4[i].cc)
    requires forall i :: 0 <= i < |v6| ==> Of6(v6[i]).span.lo <= Of6(v6[i]).span.hi && IsCountryCode(v6[i].cc)
    ensures IsSortOf(s4, v4, Hi4) && ByHi(All4(s4)) && Sound(All4(s4))
    ensures IsSortOf(s6, v6, Hi6) && ByHi(All6(s6)) && Sound(All6(s6))
  {
    s4 := SortSlice(v4, Hi4);
    s6 := SortSlice(v6, Hi6);
    SortedTable4(s4, v4);
    SortedTable6(s6, v6);
  }

  lemma SortedTable4(out: seq<Row4>, rows: seq<Row4>)
    requires IsSortOf(out, rows, Hi4)
    requires forall i :: 0 <= i < |rows| ==> rows[i].lo <= rows[i].hi && IsCountryCode(rows[i].cc)
    ensures ByHi(All4(out)) && Sound(All4(out))
  {
    SameElements(out, rows, Hi4);
    assert forall k :: 0 <= k < |out| ==> out[k] in rows;
    assert forall k, l :: 0 <= k < l < |out| ==> Hi4(out[k]) <= Hi4(out[l]);
  }

  lemma SortedTable6(out: seq<Row6>, rows: seq<Row6>)
    requires IsSortOf(out, rows, Hi6)
    requires forall i :: 0 <= i < |rows| ==> Of6(rows[i]).span.lo <= Of6(rows[i]).span.hi && IsCountryCode(rows[i].cc)
    ensures ByHi(All6(out)) && Sound(All6(out))
  {
    SameElements(out, rows, Hi6);
    assert forall k :: 0 <= k < |out| ==> out[k] in rows;
    assert forall k, l :: 0 <= k < l < |out| ==> Hi6(out[k]) <= Hi6(out[l]);
  }

  // ----------------------------------------------------------------- Lookup

  /** The index sort.Search finds: the first row that reaches `n`. */
  function FirstReaching(rows: seq<Row>, n: nat): (i: nat)
    ensures i <= |rows|
    ensures forall k :: 0 <= k < i ==> rows[k].span.hi < n
    ensures i < |rows| ==> rows[i].span.hi >= n
  {
    if rows == [] || rows[0].span.hi >= n then 0 else 1 + FirstReaching(rows[1..], n)
  }

  lemma FirstReachingIs(rows: seq<Row>, n: nat, i: nat)
    requires i <= |rows|
    requires forall k :: 0 <= k < i ==> rows[k].span.hi < n
    requires i < |rows| ==> rows[i].span.hi >= n
    ensures i == FirstReaching(rows, n)
  {
  }

  function LabelIn(rows: seq<Row>, n: nat): string {
    var i := FirstReaching(rows, n);
    if i < |rows| && rows[i].span.lo <= n then Known(rows[i].cc) else ""
  }

  /** What the whole dataset answers for an address. */
  function Label(v4: seq<Row4>, v6: seq<Row6>, a: Addr): string {
    match a.Unmap()
    case V4(n) => LabelIn(All4(v4), n)
    case V6(n) => LabelIn(All6(v6), n)
  }

  predicate RowsDisjoint(rows: seq<Row>) {
    forall i, j :: 0 <= i < j < |rows| ==> !Overlap(rows[i].span, rows[j].span)
  }

  /** On any table, an answer is never invented: it is the label of a stored row that contains
      the address. */
  lemma LabelSound(rows: seq<Row>, n: nat)
    requires Sound(rows)
    ensures LabelIn(rows, n) != "" ==>
              exists i :: 0 <= i < |rows| && Within(rows[i].span, n) && rows[i].cc == LabelIn(rows, n)
    ensures LabelIn(rows, n) != "ZZ"
  {
    var i := FirstReaching(rows, n);
    if i < |rows| && rows[i].span.lo <= n {
      assert Within(rows[i].span, n);
    }
  }

  /** The search ends on a row that holds the address. */
  predicate Answered(rows: seq<Row>, n: nat) {
    var i := FirstReaching(rows, n);
    i < |rows| && Within(rows[i].span, n)
  }

  predicate Held(rows: seq<Row>, n: nat) {
    exists i :: 0 <= i < |rows| && Within(rows[i].span, n)
  }

  /** A later row that starts before row `k` does, with room between row `k` and the one before it:
      an address in that room lies in the later row, and the search stops at `k`. */
  predicate Hides(rows: seq<Row>, k: int, j: int) {
    0 <= k < j < |rows| && rows[j].span.lo < rows[k].span.lo &&
    (k == 0 || rows[k - 1].span.hi + 1 < rows[k].span.lo)
  }

  lemma HiddenMissed(rows: seq<Row>, k: int, j: int)
    requires ByHi(rows) && Sound(rows) && Hides(rows, k, j)
    ensures Held(rows, rows[k].span.lo - 1) && !Answered(rows, rows[k].span.lo - 1)
  {
    var n := rows[k].span.lo - 1;
    assert Within(rows[j].span, n);
    assert forall l :: 0 <= l < k ==> rows[l].span.hi <= rows[k - 1].span.hi;
    FirstReachingIs(rows, n, k);
  }

  lemma MissedHidden(rows: seq<Row>, n: nat)
    requires ByHi(rows) && Sound(rows) && Held(rows, n) && !Answered(rows, n)
    ensures exists k, j :: Hides(rows, k, j)
  {
    var j :| 0 <= j < |rows| && Within(rows[j].span, n);
    var k := FirstReaching(rows, n);
    assert Hides(rows, k, j);
  }

  /** Exactly when the lookup is complete: every address some row holds is answered by a row that
      holds it if and only if no later row reaches back into the room before an earlier one. */
  lemma LookupCompleteIff(rows: seq<Row>)
    requires ByHi(rows) && Sound(rows)
    ensures (forall n: nat :: Held(rows, n) ==> Answered(rows, n)) <==> !exists k, j :: Hides(rows, k, j)
  {
    if k, j :| Hides(rows, k, j) {
      HiddenMissed(rows, k, j);
    }
    forall n: nat | Held(rows, n) && !Answered(rows, n)
      ensures exists k, j :: Hides(rows, k, j)
    {
      MissedHidden(rows, n);
    }
  }

  /** On rows that do not overlap nothing is hidden, and an address inside a row gets that row's
      label, whatever order the file listed them in. */
  lemma LabelComplete(rows: seq<Row>, n: nat, i: nat)
    requires ByHi(rows) && Sound(rows) && RowsDisjoint(rows)
    requires i < |rows| && Within(rows[i].span, n)
    ensures LabelIn(rows, n) == Known(rows[i].cc)
  {
    forall k, j
      ensures !Hides(rows, k, j)
    {
      assert 0 <= k < j < |rows| ==> !Overlap(rows[k].span, rows[j].span);
    }
    LookupCompleteIff(rows);
    var f := FirstReaching(rows, n);
    assert Held(rows, n) && Answered(rows, n);
    assert f < i ==> !Overlap(rows[f].span, rows[i].span);
  }

  /** Overlap can break completeness: here 8 lies in the second row and is answered by nothing,
      because the search stops at the first row that ends late enough. */
  lemma OverlapHidesRows()
    ensures var rows := [Row(Span(10, 20), "AA"), Row(Span(5, 30), "BB")];
            ByHi(rows) && Sound(rows) && Within(rows[1].span, 8) && LabelIn(rows, 8) == "" && Hides(rows, 0, 1)
  {
  }

  /** The plain reading: the first row of the file, from the top, that holds the address. */
  function Scan(rows: seq<Row>, n: nat): string {
    if rows == [] then ""
    else if Within(rows[0].span, n) then Known(rows[0].cc)
    else Scan(rows[1..], n)
  }

  lemma {:induction false} ScanFinds(rows: seq<Row>, n: nat, i: nat)
    requires i < |rows| && Within(rows[i].span, n)
    requires forall k :: 0 <= k < i ==> !Within(rows[k].span, n)
    ensures Scan(rows, n) == Known(rows[i].cc)
    decreases |rows|
  {
    if i > 0 {
      ScanFinds(rows[1..], n, i - 1);
    }
  }

  lemma {:induction false} ScanFindsNone(rows: seq<Row>, n: nat)
    requires forall k :: 0 <= k < |rows| ==> !Within(rows[k].span, n)
    ensures Scan(rows, n) == ""
    decreases |rows|
  {
    if rows != [] {
      ScanFindsNone(rows[1..], n);
    }
  }

  /** The same rows in another order. */
  ghost predicate SameRows(a: seq<Row>, b: seq<Row>) {
    multiset(a) == multiset(b)
  }

  lemma SameRowsHas(a: seq<Row>, b: seq<Row>, i: nat) returns (j: nat)
    requires SameRows(a, b) && i < |a|
    ensures j < |b| && b[j] == a[i]
  {
    assert a[i] in multiset(b);
    j :| 0 <= j < |b| && b[j] == a[i];
  }

  lemma SameRowsDisjoint(a: seq<Row>, b: seq<Row>)
    requires SameRows(a, b) && Sound(b) && RowsDisjoint(b)
    ensures RowsDisjoint(a)
  {
    RearrangedApart(a, b, (x: Row, y: Row) => Overlap(x.span, y.span));
  }

  /** The binary search over the sorted table answers what a scan of the file from the top would,
      when no two rows of the file overlap. */
  lemma LabelIsScan(sorted: seq<Row>, file: seq<Row>, n: nat)
    requires SameRows(sorted, file) && ByHi(sorted) && Sound(sorted) && Sound(file) && RowsDisjoint(file)
    ensures LabelIn(sorted, n) == Scan(file, n)
  {
    SameRowsDisjoint(sorted, file);
    if i :| 0 <= i < |file| && Within(file[i].span, n) {
      forall k | 0 <= k < i
        ensures !Within(file[k].span, n)
      {
        assert !Overlap(file[k].span, file[i].span);
      }
      ScanFinds(file, n, i);
      var j := SameRowsHas(file, sorted, i);
      LabelComplete(sorted, n, j);
    } else {
      ScanFindsNone(file, n);
      LabelSound(sorted, n);
      if LabelIn(sorted, n) != "" {
        var k :| 0 <= k < |sorted| && Within(sorted[k].span, n);
        var j := SameRowsHas(sorted, file, k);
      }
    }
  }

  /** From the file to the answer: whatever order its lines come in, a loaded dataset whose rows do
      not overlap answers every address as a scan of the lines kept would, a mapped address as the
      IPv4 address it is. */
  lemma LookupIsScan(lines: seq<string>, parse: string -> Option<Addr>, v4: seq<Row4>, v6: seq<Row6>, a: Addr)
    requires IsSortOf(v4, Kept4(lines, parse), Hi4) && IsSortOf(v6, Kept6(lines, parse), Hi6)
    requires RowsDisjoint(All4(Kept4(lines, parse))) && RowsDisjoint(All6(Kept6(lines, parse)))
    ensures Label(v4, v6, a) == match a.Unmap()
                                case V4(n) => Scan(All4(Kept4(lines, parse)), n)
                                case V6(n) => Scan(All6(Kept6(lines, parse)), n)
  {
    match a.Unmap() {
      case V4(n) =>
        var k := Kept4(lines, parse);
        SortedTable4(v4, k);
        MappedRearranged(v4, k, Of4);
        assert All4(v4) == Mapped(v4, Of4) && All4(k) == Mapped(k, Of4);
        LabelIsScan(All4(v4), All4(k), n);
      case V6(n) =>
        var k := Kept6(lines, parse);
        SortedTable6(v6, k);
        MappedRearranged(v6, k, Of6);
        assert All6(v6) == Mapped(v6, Of6) && All6(k) == Mapped(k, Of6);
        LabelIsScan(All6(v6), All6(k), n);
    }
  }

  class GeoIP {
    var v4: seq<Row4>
    var v6: seq<Row6>

    ghost predicate Valid()
      reads this
    {
      ByHi(All4(v4)) && Sound(All4(v4)) && ByHi(All6(v6)) && Sound(All6(v6))
    }

    constructor ()
      ensures v4 == [] && v6 == [] && Valid()
    {
      v4, v6 := [], [];
    }

    /** Refresh: a dataset that parses replaces both tables at once; one that does not, neither. */
    method Refresh(lines: seq<string>, parse: string -> Option<Addr>) returns (ok: bool)
      requires Valid()
      modifies this
      ensures Valid()
      ensures ok <==> |lines| <= 2_000_000 && (Kept4(lines, parse) != [] || Kept6(lines, parse) != [])
      ensures !ok ==> v4 == old(v4) && v6 == old(v6)
      ensures ok ==> IsSortOf(v4, Kept4(lines, parse), Hi4) && IsSortOf(v6, Kept6(lines, parse), Hi6)
    {
      var r := ParseCSV(lines, parse);
      ok := r.Some?;
      if ok {
        v4, v6 := r.value.0, r.value.1;
      }
    }

    method Search4(n: Word32) returns (i: nat)
      requires Valid()
      ensures i == FirstReaching(All4(v4), n)
    {
      ghost var rows := All4(v4);
      var lo, hi := 0, |v4|;
      while lo < hi
        invariant 0 <= lo <= hi <= |v4|
        invariant forall k :: 0 <= k < lo ==> rows[k].span.hi < n
        invariant forall k :: hi <= k < |rows| ==> rows[k].span.hi >= n
      {
        var h := (lo + hi) / 2;
        assert rows[h].span.hi == v4[h].hi;
        if v4[h].hi >= n { hi := h; } else { lo := h + 1; }
      }
      i := lo;
      FirstReachingIs(rows, n, i);
    }

    method Search6(hiN: Word64, loN: Word64) returns (i: nat)
      requires Valid()
      ensures i == FirstReaching(All6(v6), Whole(hiN, loN))
    {
      ghost var rows := All6(v6);
      ghost var n := Whole(hiN, loN);
      var lo, hi := 0, |v6|;
      while lo < hi
        invariant 0 <= lo <= hi <= |v6|
        invariant forall k :: 0 <= k < lo ==> rows[k].span.hi < n
        invariant forall k :: hi <= k < |rows| ==> rows[k].span.hi >= n
      {
        var h := (lo + hi) / 2;
        PairOrder(hiN, loN, v6[h].hiHi, v6[h].hiLo);
        assert rows[h].span.hi == Whole(v6[h].hiHi, v6[h].hiLo);
        if v6[h].hiHi > hiN || (v6[h].hiHi == hiN && v6[h].hiLo >= loN) { hi := h; } else { lo := h + 1; }
      }
      i := lo;
      FirstReachingIs(rows, n, i);
    }

    /** Lookup: text that is not an address has no country, and a mapped address is looked up
        as the IPv4 address it is. */
    method Lookup(addr: Option<Addr>) returns (cc: string)
      requires Valid()
      ensures cc == if addr.Some? then Label(v4, v6, addr.value) else ""
    {
      if addr.None? {
        return "";
      }
      match addr.value.Unmap() {
        case V4(n) =>
          var i := Search4(n);
          if i < |v4| && v4[i].lo <= n {
            return Known(v4[i].cc);
          }
        case V6(n) =>
          var hi, lo := n / TWO64, n % TWO64;
          assert Whole(hi, lo) == n;
          var i := Search6(hi, lo);
          if i < |v6| {
            var r := v6[i];
            PairOrder(r.loHi, r.loLo, hi, lo);
            if r.loHi < hi || (r.loHi == hi && r.loLo <= lo) {
              return Known(r.cc);
            }
          }
      }
      return "";
    }
  }
}
