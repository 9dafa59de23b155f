/** geoip.go, from the lines of the dataset to the answers, without the tables in between. */
module GeoLines {
  import opened Wrappers
  import opened NetAddr
  import opened Text
  import opened GeoMerge
  import opened GeoTable
  import opened Sorting

  /** The first two commas of a line. */
  predicate Commas(line: string, p: int, q: int) {
    0 <= p < q < |line| && line[p] == ',' && line[q] == ',' && forall k :: 0 <= k < q && k != p ==> line[k] != ','
  }

  /** Two ASCII letters. */
  predicate TwoLetters(cc: string) {
    |cc| == 2 && forall i :: 0 <= i < 2 ==> 65 <= cc[i] as int <= 90 || 97 <= cc[i] as int <= 122
  }

  /** A line whose commas are there says that the addresses from `lo` to `hi`, of one family, are of
      country `cc`. */
  predicate SaysAt(line: string, p: int, q: int, parse: string -> Option<Addr>, lo: Addr, hi: Addr, cc: string) {
    Commas(line, p, q) && TrimSpace(line[q + 1..]) == cc && TwoLetters(cc) &&
    parse(line[..p]).Some? && parse(line[..p]).value.Unmap() == lo &&
    parse(line[p + 1..q]).Some? && parse(line[p + 1..q]).value.Unmap() == hi &&
    lo.V4? == hi.V4? && lo.Value() <= hi.Value()
  }

  lemma CommasRead(line: string, p: int, q: int)
    requires Commas(line, p, q)
    ensures IndexOf(line, ',') == p && IndexOf(line[p + 1..], ',') == q - p - 1
    ensures line[p + 1..][..q - p - 1] == line[p + 1..q]
  {
    var rest := line[p + 1..];
    assert rest[q - p - 1] == ',';
    assert forall k :: 0 <= k < q - p - 1 ==> rest[k] == line[p + 1 + k] != ',';
  }

  lemma CommasFields(line: string, p: int, q: int)
    requires Commas(line, p, q)
    ensures Fields(line) == Some((line[..p], line[p + 1..q], line[q + 1..]))
  {
    CommasRead(line, p, q);
  }

  lemma CommasFound(line: string) returns (p: int, q: int)
    ensures Fields(line).None? || Commas(line, p, q)
  {
    p, q := IndexOf(line, ','), -1;
    if p >= 0 {
      var b := IndexOf(line[p + 1..], ',');
      q := p + 1 + b;
      assert forall k :: p < k < q ==> line[k] == line[p + 1..][k - p - 1];
    }
  }

  /** The row made of three fields, in numbers. */
  lemma RowMade(start: Option<Addr>, end: Option<Addr>, cc: string)
    ensures RowFrom(start, end, cc).Skip? <==>
            !(TwoLetters(cc) && start.Some? && end.Some? && start.value.Unmap().V4? == end.value.Unmap().V4? &&
              start.value.Unmap().Value() <= end.value.Unmap().Value())
    ensures var r := RowFrom(start, end, cc);
            (r.Four? ==> start.value.Unmap() == V4(r.row4.lo) && end.value.Unmap() == V4(r.row4.hi) && r.row4.cc == cc) &&
            (r.Six? ==>
               start.value.Unmap() == V6(Of6(r.row6).span.lo) && end.value.Unmap() == V6(Of6(r.row6).span.hi) && r.row6.cc == cc)
  {
    if RowFrom(start, end, cc).Six? {
      HalvesOf(start.value.Unmap().v);
      HalvesOf(end.value.Unmap().v);
    }
  }

  lemma HalvesOf(n: Word128)
    ensures n / TWO64 < TWO64 && n % TWO64 < TWO64 && Whole(n / TWO64, n % TWO64) == n
  {
  }

  lemma SaidFour(line: string, p: int, q: int, parse: string -> Option<Addr>, lo: Word32, hi: Word32, cc: string)
    requires SaysAt(line, p, q, parse, V4(lo), V4(hi), cc)
    ensures ParseLine(line, parse) == Four(Row4(lo, hi, cc))
  {
    CommasFields(line, p, q);
    RowMade(parse(line[..p]), parse(line[p + 1..q]), TrimSpace(line[q + 1..]));
  }

  lemma SaidSix(line: string, p: int, q: int, parse: string -> Option<Addr>, lo: Word128, hi: Word128, cc: string)
    requires SaysAt(line, p, q, parse, V6(lo), V6(hi), cc)
    ensures ParseLine(line, parse).Six? && Of6(ParseLine(line, parse).row6) == Row(Span(lo, hi), cc)
  {
    CommasFields(line, p, q);
    RowMade(parse(line[..p]), parse(line[p + 1..q]), TrimSpace(line[q + 1..]));
  }

  lemma OnlySaid(line: string, parse: string -> Option<Addr>) returns (p: int, q: int)
    ensures ParseLine(line, parse).Four? ==>
              var r := ParseLine(line, parse).row4; SaysAt(line, p, q, parse, V4(r.lo), V4(r.hi), r.cc)
    ensures ParseLine(line, parse).Six? ==>
              var r := Of6(ParseLine(line, parse).row6); SaysAt(line, p, q, parse, V6(r.span.lo), V6(r.span.hi), r.cc)
  {
    p, q := CommasFound(line);
    if Commas(line, p, q) {
      CommasFields(line, p, q);
      RowMade(parse(line[..p]), parse(line[p + 1..q]), TrimSpace(line[q + 1..]));
    }
  }

  /** What a line is read as: the row from its first address to its second with its label, when both
      read, are of one family once unmapped, and stand in order, and the label is two letters; and
      nothing otherwise. */
  lemma LineReadsAs(line: string, parse: string -> Option<Addr>, lo: Addr, hi: Addr, cc: string)
    ensures (exists p, q :: SaysAt(line, p, q, parse, lo, hi, cc)) <==>
            match (lo, hi)
            case (V4(m), V4(n)) => ParseLine(line, parse) == Four(Row4(m, n, cc))
            case (V6(m), V6(n)) =>
              ParseLine(line, parse).Six? && Of6(ParseLine(line, parse).row6) == Row(Span(m, n), cc)
            case _ => false
  {
    if p, q :| SaysAt(line, p, q, parse, lo, hi, cc) {
      match (lo, hi) {
        case (V4(m), V4(n)) => SaidFour(line, p, q, parse, m, n, cc);
        case (V6(m), V6(n)) => SaidSix(line, p, q, parse, m, n, cc);
        case _ =>
      }
    }
    var p, q := OnlySaid(line, parse);
  }

  // --------------------------------------------------------------- kept and answered

  lemma {:induction false} KeptIf<R>(lines: seq<string>, row: string -> seq<R>, kept: seq<string> -> seq<R>, r: R)
    requires kept([]) == []
    requires forall ls: seq<string> {:trigger kept(ls)} :: ls != [] ==> kept(ls) == kept(ls[..|ls| - 1]) + row(ls[|ls| - 1])
    ensures r in kept(lines) <==> exists i :: 0 <= i < |lines| && r in row(lines[i])
    decreases |lines|
  {
    if lines != [] {
      var k := |lines| - 1;
      KeptIf(lines[..k], row, kept, r);
      assert kept(lines) == kept(lines[..k]) + row(lines[k]);
      if i :| 0 <= i < |lines| && r in row(lines[i]) {
        assert i < k ==> r in row(lines[..k][i]);
      }
    }
  }

  lemma Keeps4(lines: seq<string>, parse: string -> Option<Addr>, r: Row4)
    ensures r in Kept4(lines, parse) <==> exists i :: 0 <= i < |lines| && r in RowOf4(lines[i], parse)
  {
    KeptIf(lines, l => RowOf4(l, parse), ls => Kept4(ls, parse), r);
  }

  lemma Keeps6(lines: seq<string>, parse: string -> Option<Addr>, r: Row6)
    ensures r in Kept6(lines, parse) <==> exists i :: 0 <= i < |lines| && r in RowOf6(lines[i], parse)
  {
    KeptIf(lines, l => RowOf6(l, parse), ls => Kept6(ls, parse), r);
  }

  /** The tables hold what the lines say, and nothing else. */
  ghost predicate Loaded(lines: seq<string>, parse: string -> Option<Addr>, v4: seq<Row4>, v6: seq<Row6>) {
    IsSortOf(v4, Kept4(lines, parse), Hi4) && IsSortOf(v6, Kept6(lines, parse), Hi6)
  }

  lemma LoadedHas4(lines: seq<string>, parse: string -> Option<Addr>, v4: seq<Row4>, v6: seq<Row6>, r: Row4)
    requires Loaded(lines, parse, v4, v6)
    ensures r in v4 <==> exists i :: 0 <= i < |lines| && r in RowOf4(lines[i], parse)
  {
    SameElements(v4, Kept4(lines, parse), Hi4);
    Keeps4(lines, parse, r);
  }

  lemma LoadedHas6(lines: seq<string>, parse: string -> Option<Addr>, v4: seq<Row4>, v6: seq<Row6>, r: Row6)
    requires Loaded(lines, parse, v4, v6)
    ensures r in v6 <==> exists i :: 0 <= i < |lines| && r in RowOf6(lines[i], parse)
  {
    SameElements(v6, Kept6(lines, parse), Hi6);
    Keeps6(lines, parse, r);
  }

  /** Some line of the dataset says the address is of this country. */
  ghost predicate Said(lines: seq<string>, parse: string -> Option<Addr>, a: Addr, cc: string) {
    exists i, p, q, lo, hi ::
      0 <= i < |lines| && SaysAt(lines[i], p, q, parse, lo, hi, cc) &&
      lo.V4? == a.V4? && lo.Value() <= a.Value() <= hi.Value()
  }

  lemma SaidIsAnswered(lines: seq<string>, parse: string -> Option<Addr>, v4: seq<Row4>, v6: seq<Row6>, a: Addr, cc: string)
    requires Loaded(lines, parse, v4, v6) && RowsDisjoint(All4(v4)) && RowsDisjoint(All6(v6))
    requires Said(lines, parse, a.Unmap(), cc)
    ensures Label(v4, v6, a) == if cc == "ZZ" then "" else cc
  {
    var i, p, q, lo, hi :| 0 <= i < |lines| && SaysAt(lines[i], p, q, parse, lo, hi, cc) &&
                           lo.V4? == a.Unmap().V4? && lo.Value() <= a.Unmap().Value() <= hi.Value();
    SortedTable4(v4, Kept4(lines, parse));
    SortedTable6(v6, Kept6(lines, parse));
    match a.Unmap() {
      case V4(n) =>
        SaidFour(lines[i], p, q, parse, lo.n, hi.n, cc);
        var r := Row4(lo.n, hi.n, cc);
        LoadedHas4(lines, parse, v4, v6, r);
        var k :| 0 <= k < |v4| && v4[k] == r;
        LabelComplete(All4(v4), n, k);
      case V6(n) =>
        SaidSix(lines[i], p, q, parse, lo.v, hi.v, cc);
        var r := ParseLine(lines[i], parse).row6;
        LoadedHas6(lines, parse, v4, v6, r);
        var k :| 0 <= k < |v6| && v6[k] == r;
        LabelComplete(All6(v6), n, k);
    }
  }

  lemma Row4Said(line: string, parse: string -> Option<Addr>, r: Row4) returns (p: int, q: int)
    requires r in RowOf4(line, parse)
    ensures SaysAt(line, p, q, parse, V4(r.lo), V4(r.hi), r.cc)
  {
    p, q := OnlySaid(line, parse);
  }

  lemma Row6Said(line: string, parse: string -> Option<Addr>, r: Row6) returns (p: int, q: int)
    requires r in RowOf6(line, parse)
    ensures SaysAt(line, p, q, parse, V6(Of6(r).span.lo), V6(Of6(r).span.hi), r.cc)
  {
    p, q := OnlySaid(line, parse);
  }

  lemma SaidBy(lines: seq<string>, i: nat, p: int, q: int, parse: string -> Option<Addr>, lo: Addr, hi: Addr, a: Addr, cc: string)
    requires i < |lines| && SaysAt(lines[i], p, q, parse, lo, hi, cc)
    requires lo.V4? == a.V4? && lo.Value() <= a.Value() <= hi.Value()
    ensures Said(lines, parse, a, cc)
  {
  }

  lemma Said4(lines: seq<string>, parse: string -> Option<Addr>, v4: seq<Row4>, v6: seq<Row6>, n: Word32)
    requires Loaded(lines, parse, v4, v6) && LabelIn(All4(v4), n) != ""
    ensures Said(lines, parse, V4(n), LabelIn(All4(v4), n))
  {
    SortedTable4(v4, Kept4(lines, parse));
    LabelSound(All4(v4), n);
    var k :| 0 <= k < |v4| && Within(All4(v4)[k].span, n) && v4[k].cc == LabelIn(All4(v4), n);
    LoadedHas4(lines, parse, v4, v6, v4[k]);
    var i :| 0 <= i < |lines| && v4[k] in RowOf4(lines[i], parse);
    var p, q := Row4Said(lines[i], parse, v4[k]);
    SaidBy(lines, i, p, q, parse, V4(v4[k].lo), V4(v4[k].hi), V4(n), v4[k].cc);
  }

  lemma Said6(lines: seq<string>, parse: string -> Option<Addr>, v4: seq<Row4>, v6: seq<Row6>, n: Word128)
    requires Loaded(lines, parse, v4, v6) && LabelIn(All6(v6), n) != ""
    ensures Said(lines, parse, V6(n), LabelIn(All6(v6), n))
  {
    SortedTable6(v6, Kept6(lines, parse));
    LabelSound(All6(v6), n);
    var k :| 0 <= k < |v6| && Within(All6(v6)[k].span, n) && v6[k].cc == LabelIn(All6(v6), n);
    LoadedHas6(lines, parse, v4, v6, v6[k]);
    var i :| 0 <= i < |lines| && v6[k] in RowOf6(lines[i], parse);
    var p, q := Row6Said(lines[i], parse, v6[k]);
    SaidBy(lines, i, p, q, parse, V6(Of6(v6[k]).span.lo), V6(Of6(v6[k]).span.hi), V6(n), v6[k].cc);
  }

  lemma AnsweredIsSaid(lines: seq<string>, parse: string -> Option<Addr>, v4: seq<Row4>, v6: seq<Row6>, a: Addr)
    requires Loaded(lines, parse, v4, v6) && Label(v4, v6, a) != ""
    ensures Said(lines, parse, a.Unmap(), Label(v4, v6, a))
  {
    match a.Unmap() {
      case V4(n) => Said4(lines, parse, v4, v6, n);
      case V6(n) => Said6(lines, parse, v4, v6, n);
    }
  }

  /** From the text to the answer. A loaded dataset whose rows do not overlap answers a country for
      an address exactly when one of its lines says so, and the country is not ZZ. */
  lemma AnswersWhatIsSaid(lines: seq<string>, parse: string -> Option<Addr>, v4: seq<Row4>, v6: seq<Row6>, a: Addr, cc: string)
    requires Loaded(lines, parse, v4, v6) && RowsDisjoint(All4(v4)) && RowsDisjoint(All6(v6))
    ensures cc != "" ==> (Label(v4, v6, a) == cc <==> cc != "ZZ" && Said(lines, parse, a.Unmap(), cc))
  {
    if cc != "" && Label(v4, v6, a) == cc {
      AnsweredIsSaid(lines, parse, v4, v6, a);
      SaidIsAnswered(lines, parse, v4, v6, a, cc);
    }
    if Said(lines, parse, a.Unmap(), cc) {
      SaidIsAnswered(lines, parse, v4, v6, a, cc);
    }
  }
}
