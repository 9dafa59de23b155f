/** accessrules.go: the operator's ordered rules rewritten for the data plane, and the data plane's
    reading of them (accessrules.lua). */
module AccessRules {
  import opened Wrappers
  import opened NetAddr
  import opened Text
  import opened GeoTable
  import opened GeoMerge
  import opened GeoSets
  import opened GeoSearch
  import opened GeoResolve
  import opened Sorting

  datatype LuaCondition = LuaCondition(field: string, op: string, values: seq<string>, set': string)
  datatype LuaRule =
    LuaRule(id: string, name: string, action: string, enabled: bool, site: string, conditions: seq<LuaCondition>)

  // conditionCost: a field without an entry costs nothing.
  function Cost(c: LuaCondition): nat {
    match c.field
    case "method" => 1
    case "crawler" => 2
    case "host" => 3
    case "path" => 4
    case "ua" => 5
    case "ip" => 6
    case "country" => 7
    case _ => 0
  }

  // ------------------------------------------------------------- buildAccessRules

  /** A condition as published, or nothing when it names a country list that has no ranges. */
  function Rewritten(c: Condition, sets: map<string, GeoSet>): Option<LuaCondition> {
    if c.field != "country" then Some(LuaCondition(c.field, c.op, c.values, ""))
    else if GeoSetKey(c.values) in sets then Some(LuaCondition(c.field, c.op, c.values, GeoSetKey(c.values)))
    else None
  }

  predicate Usable(cs: seq<Condition>, sets: map<string, GeoSet>) {
    forall i :: 0 <= i < |cs| ==> Rewritten(cs[i], sets).Some?
  }

  function RewrittenAll(cs: seq<Condition>, sets: map<string, GeoSet>): (r: seq<LuaCondition>)
    requires Usable(cs, sets)
    ensures |r| == |cs|
  {
    seq(|cs|, i requires 0 <= i < |cs| => Rewritten(cs[i], sets).value)
  }

  predicate Ships(r: AccessRule, sets: map<string, GeoSet>) {
    r.enabled && Usable(r.conditions, sets)
  }

  function Shipped(r: AccessRule, sets: map<string, GeoSet>): LuaRule
    requires Ships(r, sets)
  {
    LuaRule(r.id, r.name, r.action, true, r.siteID, StableSort(RewrittenAll(r.conditions, sets), Cost))
  }

  function AllShipped(rules: seq<AccessRule>, sets: map<string, GeoSet>): seq<LuaRule> {
    if rules == [] then []
    else
      var k := |rules| - 1;
      AllShipped(rules[..k], sets) + if Ships(rules[k], sets) then [Shipped(rules[k], sets)] else []
  }

  // ------------------------------------------------------ what of a rule is published

  /** The same conditions, each with its field, its operator and its values, in some order, and each
      country condition pointing at its set. */
  ghost predicate SameConditions(published: seq<LuaCondition>, stored: seq<Condition>) {
    multiset(Mapped(published, (c: LuaCondition) => Condition(c.field, c.op, c.values))) == multiset(stored) &&
    forall c :: c in published ==> c.set' == if c.field == "country" then GeoSetKey(c.values) else ""
  }

  /** Cheaper fields stand before dearer ones. */
  ghost predicate CheapestFirst(published: seq<LuaCondition>) {
    Ranked(published, ["method", "crawler", "host", "path", "ua", "ip", "country"])
  }

  ghost predicate Ranked(published: seq<LuaCondition>, rank: seq<string>) {
    forall x, y, p, q {:trigger At(rank, p, published[x].field), At(rank, q, published[y].field)} ::
      0 <= x < y < |published| && At(rank, p, published[x].field) && At(rank, q, published[y].field) ==> p <= q
  }

  predicate At(rank: seq<string>, p: int, field: string) {
    0 <= p < |rank| && rank[p] == field
  }

  /** The conditions on one field. */
  function OnField(cs: seq<LuaCondition>, field: string): seq<LuaCondition> {
    if cs == [] then []
    else OnField(cs[..|cs| - 1], field) + if cs[|cs| - 1].field == field then [cs[|cs| - 1]] else []
  }

  lemma {:induction false} OnFieldOfKeyed(cs: seq<LuaCondition>, field: string, n: nat)
    requires forall c: LuaCondition :: c.field == field ==> Cost(c) == n
    ensures OnField(Keyed(cs, Cost, n), field) == OnField(cs, field)
    decreases |cs|
  {
    if cs != [] {
      var k := |cs| - 1;
      OnFieldOfKeyed(cs[..k], field, n);
      var before := Keyed(cs[..k], Cost, n);
      if Cost(cs[k]) == n {
        assert (before + [cs[k]])[..|before|] == before;
      } else {
        assert before + [] == before;
      }
    }
  }

  /** Conditions on the same field keep the order they are stored in. */
  lemma SortedKeepsOrder(cs: seq<LuaCondition>, field: string)
    ensures OnField(StableSort(cs, Cost), field) == OnField(cs, field)
  {
    var n := Cost(LuaCondition(field, "", [], ""));
    StableSortIsStable(cs, Cost, n);
    OnFieldOfKeyed(StableSort(cs, Cost), field, n);
    OnFieldOfKeyed(cs, field, n);
  }

  lemma SortedKeepsConditions(cs: seq<Condition>, sets: map<string, GeoSet>)
    requires Usable(cs, sets)
    ensures SameConditions(StableSort(RewrittenAll(cs, sets), Cost), cs)
  {
    var made := RewrittenAll(cs, sets);
    var out := StableSort(made, Cost);
    StableSortIsStable(made, Cost, 0);
    StableSortElements(made, Cost);
    var back := (c: LuaCondition) => Condition(c.field, c.op, c.values);
    MappedRearranged(out, made, back);
    assert Mapped(made, back) == cs;
    forall c | c in out
      ensures c.set' == if c.field == "country" then GeoSetKey(c.values) else ""
    {
      var i :| 0 <= i < |made| && made[i] == c;
      assert Rewritten(cs[i], sets).value == c;
    }
  }

  lemma CostIsRank(rank: seq<string>, p: nat, c: LuaCondition)
    requires rank == ["method", "crawler", "host", "path", "ua", "ip", "country"]
    requires p < |rank| && rank[p] == c.field
    ensures Cost(c) == p + 1
  {
    assert p == 0 || p == 1 || p == 2 || p == 3 || p == 4 || p == 5 || p == 6;
  }

  lemma SortedIsCheapestFirst(cs: seq<LuaCondition>)
    ensures CheapestFirst(StableSort(cs, Cost))
  {
    StableSortIsStable(cs, Cost, 0);
    InOrderIsCheapest(StableSort(cs, Cost), ["method", "crawler", "host", "path", "ua", "ip", "country"]);
  }

  lemma InOrderIsCheapest(out: seq<LuaCondition>, rank: seq<string>)
    requires InOrder(out, Cost) && rank == ["method", "crawler", "host", "path", "ua", "ip", "country"]
    ensures Ranked(out, rank)
  {
    forall x, y, p, q | 0 <= x < y < |out| && At(rank, p, out[x].field) && At(rank, q, out[y].field)
      ensures p <= q
    {
      CostIsRank(rank, p, out[x]);
      CostIsRank(rank, q, out[y]);
    }
  }

  method RewriteAll(cs: seq<Condition>, geo: Resolver) returns (r: Option<seq<LuaCondition>>)
    ensures r.Some? <==> Usable(cs, geo.sets)
    ensures r.Some? ==> r.value == RewrittenAll(cs, geo.sets)
  {
    var conds := [];
    for i := 0 to |cs|
      invariant Usable(cs[..i], geo.sets) && conds == RewrittenAll(cs[..i], geo.sets)
    {
      var c := cs[i];
      var lc := LuaCondition(c.field, c.op, c.values, "");
      if c.field == "country" {
        var key := geo.SetFor(c.values);
        if key.None? {
          return None;
        }
        lc := lc.(set' := key.value);
      }
      assert cs[..i + 1] == cs[..i] + [c];
      conds := conds + [lc];
    }
    assert cs[..|cs|] == cs;
    r := Some(conds);
  }

  lemma UsableMeans(cs: seq<Condition>, sets: map<string, GeoSet>)
    ensures Usable(cs, sets) <==> forall c :: c in cs && c.field == "country" ==> GeoSetKey(c.values) in sets
  {
    if !Usable(cs, sets) {
      var i :| 0 <= i < |cs| && Rewritten(cs[i], sets).None?;
      assert cs[i] in cs;
    }
  }

  lemma ShippedFields(r: AccessRule, sets: map<string, GeoSet>)
    requires Ships(r, sets)
    ensures var w := Shipped(r, sets);
            w.enabled && w.id == r.id && w.name == r.name && w.action == r.action && w.site == r.siteID &&
            SameConditions(w.conditions, r.conditions) && CheapestFirst(w.conditions)
  {
    SortedKeepsConditions(r.conditions, sets);
    SortedIsCheapestFirst(RewrittenAll(r.conditions, sets));
  }

  /** Enabled, and every country list it names has a set. */
  ghost predicate Publishable(r: AccessRule, sets: map<string, GeoSet>) {
    r.enabled && forall c :: c in r.conditions && c.field == "country" ==> GeoSetKey(c.values) in sets
  }

  lemma FieldsShipped(rules: seq<AccessRule>, sets: map<string, GeoSet>, from: seq<nat>)
    requires forall k :: 0 <= k < |from| ==> from[k] < |rules| && Ships(rules[from[k]], sets)
    ensures forall k :: 0 <= k < |from| ==>
              var r := rules[from[k]];
              var w := Shipped(r, sets);
              w.enabled && w.id == r.id && w.name == r.name && w.action == r.action && w.site == r.siteID &&
              SameConditions(w.conditions, r.conditions) && CheapestFirst(w.conditions)
    ensures forall i :: 0 <= i < |rules| ==> (Ships(rules[i], sets) <==> Publishable(rules[i], sets))
  {
    forall k | 0 <= k < |from|
      ensures var r := rules[from[k]];
              var w := Shipped(r, sets);
              w.enabled && w.id == r.id && w.name == r.name && w.action == r.action && w.site == r.siteID &&
              SameConditions(w.conditions, r.conditions) && CheapestFirst(w.conditions)
    {
      ShippedFields(rules[from[k]], sets);
    }
    forall i | 0 <= i < |rules|
      ensures Ships(rules[i], sets) <==> Publishable(rules[i], sets)
    {
      UsableMeans(rules[i].conditions, sets);
    }
  }

  /** Which stored rule each published one is. */
  ghost predicate From(rules: seq<AccessRule>, sets: map<string, GeoSet>, out: seq<LuaRule>, from: seq<nat>) {
    |from| == |out| &&
    (forall k :: 0 <= k < |from| ==> from[k] < |rules| && Ships(rules[from[k]], sets)) &&
    (forall k :: 0 <= k < |from| ==> out[k] == Shipped(rules[from[k]], sets)) &&
    (forall k, l :: 0 <= k < l < |from| ==> from[k] < from[l]) &&
    forall i :: 0 <= i < |rules| ==> (i in from <==> Ships(rules[i], sets))
  }

  lemma FromNext(rules: seq<AccessRule>, k: nat, sets: map<string, GeoSet>, out: seq<LuaRule>, before: seq<nat>)
    requires k == |rules| - 1 && From(rules[..k], sets, out, before)
    ensures Ships(rules[k], sets) ==> From(rules, sets, out + [Shipped(rules[k], sets)], before + [k])
    ensures !Ships(rules[k], sets) ==> From(rules, sets, out, before)
  {
    assert forall i :: 0 <= i < k ==> rules[..k][i] == rules[i];
    assert k !in before;
  }

  lemma {:induction false} ShippedFrom(rules: seq<AccessRule>, sets: map<string, GeoSet>) returns (from: seq<nat>)
    ensures From(rules, sets, AllShipped(rules, sets), from)
    decreases |rules|
  {
    from := [];
    if rules != [] {
      var k := |rules| - 1;
      from := ShippedFrom(rules[..k], sets);
      FromNext(rules, k, sets, AllShipped(rules[..k], sets), from);
      if Ships(rules[k], sets) {
        from := from + [k];
      } else {
        assert AllShipped(rules[..k], sets) + [] == AllShipped(rules[..k], sets);
      }
    }
  }

  method BuildAccessRules(rules: seq<AccessRule>, geo: Resolver) returns (out: seq<LuaRule>, ghost from: seq<nat>)
    ensures out == AllShipped(rules, geo.sets)
    // each published rule is one stored rule, field by field
    ensures |from| == |out|
    ensures forall k :: 0 <= k < |out| ==>
              from[k] < |rules| && rules[from[k]].enabled && out[k].enabled &&
              out[k].id == rules[from[k]].id && out[k].name == rules[from[k]].name &&
              out[k].action == rules[from[k]].action && out[k].site == rules[from[k]].siteID
    ensures forall k :: 0 <= k < |out| ==>
              SameConditions(out[k].conditions, rules[from[k]].conditions) && CheapestFirst(out[k].conditions)
    // in the order they are stored
    ensures forall k, l :: 0 <= k < l < |out| ==> from[k] < from[l]
    // and they are exactly the enabled ones whose country lists all have a set
    ensures forall i :: 0 <= i < |rules| ==> (i in from <==> Publishable(rules[i], geo.sets))
  {
    from := ShippedFrom(rules, geo.sets);
    FieldsShipped(rules, geo.sets, from);
    out := [];
    for i := 0 to |rules|
      invariant out == AllShipped(rules[..i], geo.sets)
    {
      assert rules[..i + 1][..i] == rules[..i];
      var r := rules[i];
      if r.enabled {
        var conds := RewriteAll(r.conditions, geo);
        if conds.Some? {
          var sorted := SliceStable(conds.value, Cost);
          out := out + [LuaRule(r.id, r.name, r.action, true, r.siteID, sorted)];
        }
      }
    }
    assert rules[..|rules|] == rules;
  }

  // -------------------------------------------------- accessrules.lua, on one request

  /** What a request is to every condition but a country one. */
  type Test = (string, string, seq<string>) -> bool

  ghost predicate Holds(c: LuaCondition, sets: map<string, GeoSet>, a: Addr, test: Test) {
    if c.field == "country" then c.set' in sets && Searched(sets[c.set'], a) == Some(true)
    else test(c.field, c.op, c.values)
  }

  ghost predicate Matches(r: LuaRule, sets: map<string, GeoSet>, site: string, a: Addr, test: Test) {
    r.enabled && (r.site == "" || r.site == site) &&
    r.conditions != [] && forall c :: c in r.conditions ==> Holds(c, sets, a, test)
  }

  ghost function FirstMatch(rules: seq<LuaRule>, sets: map<string, GeoSet>, site: string, a: Addr, test: Test):
    (r: Option<LuaRule>)
    ensures r.None? ==> forall i :: 0 <= i < |rules| ==> !Matches(rules[i], sets, site, a, test)
    ensures r.Some? ==>
              exists i :: 0 <= i < |rules| && rules[i] == r.value && Matches(rules[i], sets, site, a, test) &&
                (forall j :: 0 <= j < i ==> !Matches(rules[j], sets, site, a, test))
  {
    if rules == [] then None
    else if Matches(rules[0], sets, site, a, test) then Some(rules[0])
    else FirstMatch(rules[1..], sets, site, a, test)
  }

  // --------------------------------------------------- the same rules, as stored

  /** A country condition as the operator reads it: the reported country is one of those named. */
  predicate HoldsAsStored(c: Condition, country: string, test: Test) {
    if c.field == "country" then country != "" && ToUpper(country) in Wanted(c.values)
    else test(c.field, c.op, c.values)
  }

  /** The rule speaks for a request from that country: it is enabled and of that site or of all, it
      has conditions, and they all hold, those on a country by a list there are ranges for. */
  ghost predicate Speaks(r: AccessRule, v4: seq<Row4>, v6: seq<Row6>, country: string, site: string, test: Test) {
    r.enabled && (r.siteID == "" || r.siteID == site) && r.conditions != [] &&
    forall c :: c in r.conditions ==>
      if c.field == "country" then country != "" && ToUpper(country) in Wanted(c.values) && CanCompile(v4, v6, c.values)
      else test(c.field, c.op, c.values)
  }

  predicate MatchesAsStored(r: AccessRule, country: string, site: string, test: Test) {
    r.enabled && (r.siteID == "" || r.siteID == site) &&
    r.conditions != [] && forall c :: c in r.conditions ==> HoldsAsStored(c, country, test)
  }

  predicate Refused(r: AccessRule, v4: seq<Row4>, v6: seq<Row6>) {
    exists c :: c in r.conditions && c.field == "country" && !CanCompile(v4, v6, c.values)
  }

  function FirstAsStored(rules: seq<AccessRule>, v4: seq<Row4>, v6: seq<Row6>, country: string, site: string, test: Test):
    Option<AccessRule>
  {
    if rules == [] then None
    else if MatchesAsStored(rules[0], country, site, test) && !Refused(rules[0], v4, v6) then Some(rules[0])
    else FirstAsStored(rules[1..], v4, v6, country, site, test)
  }

  // ------------------------------------------------------------------ they agree

  /** A dataset whose rows do not overlap, as published. */
  ghost predicate GoodTables(v4: seq<Row4>, v6: seq<Row6>) {
    ByHi(All4(v4)) && Sound(All4(v4)) && RowsDisjoint(All4(v4)) &&
    ByHi(All6(v6)) && Sound(All6(v6)) && RowsDisjoint(All6(v6))
  }

  /** The rule's country lists were all settled, exactly as asked, and none names ZZ. */
  ghost predicate Settled(r: AccessRule, v4: seq<Row4>, v6: seq<Row6>, sets: map<string, GeoSet>) {
    forall c :: c in r.conditions && c.field == "country" ==> SettledList(c.values, v4, v6, sets)
  }

  ghost predicate SettledList(w: seq<string>, v4: seq<Row4>, v6: seq<Row6>, sets: map<string, GeoSet>) {
    "ZZ" !in Wanted(w) &&
    (GeoSetKey(w) in sets <==> CanCompile(v4, v6, w)) &&
    (GeoSetKey(w) in sets ==> IsCompiled(v4, v6, w, sets[GeoSetKey(w)]))
  }

  lemma ConditionAgrees(c: Condition, v4: seq<Row4>, v6: seq<Row6>, sets: map<string, GeoSet>, a: Addr, test: Test)
    requires GoodTables(v4, v6) && Rewritten(c, sets).Some?
    requires c.field == "country" ==> SettledList(c.values, v4, v6, sets)
    ensures Holds(Rewritten(c, sets).value, sets, a, test) <==> HoldsAsStored(c, Label(v4, v6, a), test)
  {
    if c.field == "country" {
      BlockingAgreesWithReporting(v4, v6, c.values, sets[GeoSetKey(c.values)], a);
      SearchedIsInside(v4, v6, c.values, sets[GeoSetKey(c.values)], a);
    }
  }

  lemma UsableIffNotRefused(r: AccessRule, v4: seq<Row4>, v6: seq<Row6>, sets: map<string, GeoSet>)
    requires Settled(r, v4, v6, sets)
    ensures Usable(r.conditions, sets) <==> !Refused(r, v4, v6)
  {
    if !Usable(r.conditions, sets) {
      var i :| 0 <= i < |r.conditions| && Rewritten(r.conditions[i], sets).None?;
      assert r.conditions[i] in r.conditions && SettledList(r.conditions[i].values, v4, v6, sets);
    }
    if Refused(r, v4, v6) {
      var c :| c in r.conditions && c.field == "country" && !CanCompile(v4, v6, c.values);
      assert SettledList(c.values, v4, v6, sets);
      var i :| 0 <= i < |r.conditions| && r.conditions[i] == c;
      assert Rewritten(r.conditions[i], sets).None?;
    }
  }

  lemma RuleAgrees(r: AccessRule, v4: seq<Row4>, v6: seq<Row6>, sets: map<string, GeoSet>, site: string, a: Addr, test: Test)
    requires GoodTables(v4, v6) && Settled(r, v4, v6, sets) && Ships(r, sets)
    ensures Matches(Shipped(r, sets), sets, site, a, test) <==> MatchesAsStored(r, Label(v4, v6, a), site, test)
  {
    var cs := RewrittenAll(r.conditions, sets);
    StableSortElements(cs, Cost);
    forall i | 0 <= i < |cs|
      ensures Holds(cs[i], sets, a, test) <==> HoldsAsStored(r.conditions[i], Label(v4, v6, a), test)
    {
      assert r.conditions[i] in r.conditions;
      ConditionAgrees(r.conditions[i], v4, v6, sets, a, test);
    }
  }

  lemma {:induction false} FirstMatchSkips(rules: seq<AccessRule>, sets: map<string, GeoSet>)
    requires rules != []
    ensures AllShipped(rules, sets) ==
            (if Ships(rules[0], sets) then [Shipped(rules[0], sets)] else []) + AllShipped(rules[1..], sets)
    decreases |rules|
  {
    var k := |rules| - 1;
    if k > 0 {
      FirstMatchSkips(rules[..k], sets);
      assert rules[..k][1..] == rules[1..][..k - 1] && rules[1..][k - 1] == rules[k];
    } else {
      assert rules[..0] == [] && rules[1..] == [];
    }
  }

  lemma {:induction false} PublishedIsShipped(rules: seq<AccessRule>, v4: seq<Row4>, v6: seq<Row6>, sets: map<string, GeoSet>,
                                              site: string, a: Addr, test: Test)
    requires GoodTables(v4, v6)
    requires forall i :: 0 <= i < |rules| && rules[i].enabled ==> Settled(rules[i], v4, v6, sets)
    ensures var stored := FirstAsStored(rules, v4, v6, Label(v4, v6, a), site, test);
            FirstMatch(AllShipped(rules, sets), sets, site, a, test) ==
            if stored.Some? && Ships(stored.value, sets) then Some(Shipped(stored.value, sets)) else None
    ensures var stored := FirstAsStored(rules, v4, v6, Label(v4, v6, a), site, test);
            stored.Some? ==> Ships(stored.value, sets)
    decreases |rules|
  {
    if rules != [] {
      FirstMatchSkips(rules, sets);
      var rest := AllShipped(rules[1..], sets);
      PublishedIsShipped(rules[1..], v4, v6, sets, site, a, test);
      assert [] + rest == rest;
      if rules[0].enabled {
        UsableIffNotRefused(rules[0], v4, v6, sets);
        if Usable(rules[0].conditions, sets) {
          RuleAgrees(rules[0], v4, v6, sets, site, a, test);
          assert ([Shipped(rules[0], sets)] + rest)[1..] == rest;
        }
      }
    }
  }

  lemma SpeaksMeans(r: AccessRule, v4: seq<Row4>, v6: seq<Row6>, country: string, site: string, test: Test)
    ensures Speaks(r, v4, v6, country, site, test) <==> MatchesAsStored(r, country, site, test) && !Refused(r, v4, v6)
  {
  }

  lemma {:induction false} FirstAsStoredIs(rules: seq<AccessRule>, v4: seq<Row4>, v6: seq<Row6>, country: string, site: string,
                                           test: Test) returns (i: nat)
    ensures var stored := FirstAsStored(rules, v4, v6, country, site, test);
            i <= |rules| && (stored.Some? <==> i < |rules|) && (i < |rules| ==> stored.value == rules[i]) &&
            (i < |rules| ==> Speaks(rules[i], v4, v6, country, site, test)) &&
            forall j :: 0 <= j < i ==> !Speaks(rules[j], v4, v6, country, site, test)
    decreases |rules|
  {
    i := 0;
    if rules != [] {
      SpeaksMeans(rules[0], v4, v6, country, site, test);
      if !Speaks(rules[0], v4, v6, country, site, test) {
        var k := FirstAsStoredIs(rules[1..], v4, v6, country, site, test);
        i := k + 1;
        assert forall j :: 0 < j <= k && j < |rules| ==> rules[j] == rules[1..][j - 1];
      }
    }
  }

  /** Publishing preserves the policy. For every request, the first published rule that matches is
      the first stored rule that speaks when its country conditions are read off the country `Lookup`
      reports: it has that rule's identity, action and site, and its conditions, rearranged. Where no
      stored rule speaks no published one matches. */
  lemma PublishedMeansStored(rules: seq<AccessRule>, v4: seq<Row4>, v6: seq<Row6>, sets: map<string, GeoSet>,
                             site: string, a: Addr, test: Test)
    requires GoodTables(v4, v6)
    requires forall i :: 0 <= i < |rules| && rules[i].enabled ==> Settled(rules[i], v4, v6, sets)
    ensures FirstMatch(AllShipped(rules, sets), sets, site, a, test).None? ==>
              forall i :: 0 <= i < |rules| ==> !Speaks(rules[i], v4, v6, Label(v4, v6, a), site, test)
    ensures var w := FirstMatch(AllShipped(rules, sets), sets, site, a, test);
            w.Some? ==>
              exists i :: 0 <= i < |rules| && Speaks(rules[i], v4, v6, Label(v4, v6, a), site, test) &&
                (forall j :: 0 <= j < i ==> !Speaks(rules[j], v4, v6, Label(v4, v6, a), site, test)) &&
                w.value.id == rules[i].id && w.value.name == rules[i].name && w.value.action == rules[i].action &&
                w.value.site == rules[i].siteID && SameConditions(w.value.conditions, rules[i].conditions)
  {
    PublishedIsShipped(rules, v4, v6, sets, site, a, test);
    var i := FirstAsStoredIs(rules, v4, v6, Label(v4, v6, a), site, test);
    if i < |rules| {
      ShippedFields(rules[i], sets);
    }
  }

  /** The cache that one publish builds settles every list it will need. */
  lemma ResolvedIsSettled(r: AccessRule, v4: seq<Row4>, v6: seq<Row6>, c: Cache)
    requires CacheSound(v4, v6, c) && forall w :: w in c.asked ==> Plain(w)
    requires ConditionLists(r.conditions) <= c.asked && forall w :: w in ConditionLists(r.conditions) ==> "ZZ" !in Wanted(w)
    ensures Settled(r, v4, v6, c.found)
  {
    forall d | d in r.conditions && d.field == "country"
      ensures SettledList(d.values, v4, v6, c.found)
    {
      var j :| 0 <= j < |r.conditions| && r.conditions[j] == d;
      ConditionListed(r.conditions, j);
      CacheExact(v4, v6, c, d.values);
    }
  }

  /** One publish, end to end: the sets compiled for it and the rules rewritten for it answer every
      request the way the stored rules do. */
  method PublishRules(g: GeoIP, mode: string, countries: seq<string>, sites: seq<Site>, rules: seq<AccessRule>)
    returns (r: Resolver, out: seq<LuaRule>)
    requires GoodTables(g.v4, g.v6)
    requires forall w :: w in ListOf(Acts(mode), countries) + SiteLists(sites) + RuleLists(rules) ==> Plain(w)
    requires forall w :: w in RuleLists(rules) ==> "ZZ" !in Wanted(w)
    ensures forall site, a, test {:trigger FirstMatch(out, r.sets, site, a, test)} ::
              FirstMatch(out, r.sets, site, a, test).None? ==>
                forall i :: 0 <= i < |rules| ==> !Speaks(rules[i], g.v4, g.v6, Label(g.v4, g.v6, a), site, test)
    ensures forall site, a, test {:trigger FirstMatch(out, r.sets, site, a, test)} ::
              var w := FirstMatch(out, r.sets, site, a, test);
              w.Some? ==>
                exists i :: 0 <= i < |rules| && Speaks(rules[i], g.v4, g.v6, Label(g.v4, g.v6, a), site, test) &&
                  (forall j :: 0 <= j < i ==> !Speaks(rules[j], g.v4, g.v6, Label(g.v4, g.v6, a), site, test)) &&
                  w.value.id == rules[i].id && w.value.name == rules[i].name && w.value.action == rules[i].action &&
                  w.value.site == rules[i].siteID && SameConditions(w.value.conditions, rules[i].conditions)
  {
    r := ResolveGeo(g, mode, countries, sites, rules);
    ghost var from;
    out, from := BuildAccessRules(rules, r);
    ghost var v4, v6, sets := g.v4, g.v6, r.sets;
    forall i | 0 <= i < |rules| && rules[i].enabled
      ensures Settled(rules[i], v4, v6, sets)
    {
      RuleListsInclude(rules, i);
      ResolvedIsSettled(rules[i], v4, v6, r.Cache());
    }
    PolicyKept(rules, v4, v6, sets);
  }

  lemma PolicyKept(rules: seq<AccessRule>, v4: seq<Row4>, v6: seq<Row6>, sets: map<string, GeoSet>)
    requires GoodTables(v4, v6)
    requires forall i :: 0 <= i < |rules| && rules[i].enabled ==> Settled(rules[i], v4, v6, sets)
    ensures forall site, a, test {:trigger FirstMatch(AllShipped(rules, sets), sets, site, a, test)} ::
              FirstMatch(AllShipped(rules, sets), sets, site, a, test).None? ==>
                forall i :: 0 <= i < |rules| ==> !Speaks(rules[i], v4, v6, Label(v4, v6, a), site, test)
    ensures forall site, a, test {:trigger FirstMatch(AllShipped(rules, sets), sets, site, a, test)} ::
              var w := FirstMatch(AllShipped(rules, sets), sets, site, a, test);
              w.Some? ==>
                exists i :: 0 <= i < |rules| && Speaks(rules[i], v4, v6, Label(v4, v6, a), site, test) &&
                  (forall j :: 0 <= j < i ==> !Speaks(rules[j], v4, v6, Label(v4, v6, a), site, test)) &&
                  w.value.id == rules[i].id && w.value.name == rules[i].name && w.value.action == rules[i].action &&
                  w.value.site == rules[i].siteID && SameConditions(w.value.conditions, rules[i].conditions)
  {
    forall site, a, test {:trigger FirstMatch(AllShipped(rules, sets), sets, site, a, test)}
      ensures FirstMatch(AllShipped(rules, sets), sets, site, a, test).None? ==>
                forall i :: 0 <= i < |rules| ==> !Speaks(rules[i], v4, v6, Label(v4, v6, a), site, test)
      ensures var w := FirstMatch(AllShipped(rules, sets), sets, site, a, test);
              w.Some? ==>
                exists i :: 0 <= i < |rules| && Speaks(rules[i], v4, v6, Label(v4, v6, a), site, test) &&
                  (forall j :: 0 <= j < i ==> !Speaks(rules[j], v4, v6, Label(v4, v6, a), site, test)) &&
                  w.value.id == rules[i].id && w.value.name == rules[i].name && w.value.action == rules[i].action &&
                  w.value.site == rules[i].siteID && SameConditions(w.value.conditions, rules[i].conditions)
    {
      PublishedMeansStored(rules, v4, v6, sets, site, a, test);
    }
  }

  lemma {:induction false} RuleListsInclude(rules: seq<AccessRule>, i: nat)
    requires i < |rules| && rules[i].enabled
    ensures ConditionLists(rules[i].conditions) <= RuleLists(rules)
    decreases |rules|
  {
    var k := |rules| - 1;
    if i < k {
      RuleListsInclude(rules[..k], i);
    }
  }

  /** Passing over a rule whose list has no address at all in the dataset loses nothing: read the
      operator's way, that condition could not have held for any address. */
  lemma EmptyListNeverHolds(c: Condition, v4: seq<Row4>, v6: seq<Row6>, a: Addr, test: Test)
    requires GoodTables(v4, v6) && c.field == "country"
    requires Chosen(All4(v4), Wanted(c.values)) == [] && Chosen(All6(v6), Wanted(c.values)) == []
    ensures !HoldsAsStored(c, Label(v4, v6, a), test)
  {
    var want := Wanted(c.values);
    match a.Unmap() {
      case V4(n) =>
        RowAgrees(All4(v4), want, n);
        ChosenIn(All4(v4), want, n);
      case V6(v) =>
        RowAgrees(All6(v6), want, v);
        ChosenIn(All6(v6), want, v);
    }
  }
}
