/** georesolve.go: every country list a publish needs, compiled once and shared by key. */
module GeoResolve {
  import opened Wrappers
  import opened NetAddr
  import opened GeoTable
  import opened GeoMerge
  import opened GeoSets
  import opened GeoCompile
  import opened Sorting
  import opened Memo

  datatype Site = Site(id: string, enabled: bool, geoMode: string, geoCountries: seq<string>)
  datatype Condition = Condition(field: string, op: string, values: seq<string>)
  datatype AccessRule =
    AccessRule(id: string, name: string, action: string, enabled: bool, siteID: string, conditions: seq<Condition>)

  predicate Acts(mode: string) {
    mode == "block" || mode == "allow"
  }

  // ------------------------------------------------------ what a publish asks for

  function ListOf(on: bool, list: seq<string>): set<seq<string>> {
    if on then {list} else {}
  }

  /** The lists of the enabled sites that have a rule of their own. */
  function SiteLists(sites: seq<Site>): set<seq<string>> {
    if sites == [] then {}
    else
      var k := |sites| - 1;
      SiteLists(sites[..k]) + ListOf(sites[k].enabled && Acts(sites[k].geoMode), sites[k].geoCountries)
  }

  function ConditionLists(conditions: seq<Condition>): set<seq<string>> {
    if conditions == [] then {}
    else
      var k := |conditions| - 1;
      ConditionLists(conditions[..k]) + ListOf(conditions[k].field == "country", conditions[k].values)
  }

  /** The lists of the country conditions of the enabled rules. */
  function RuleLists(rules: seq<AccessRule>): set<seq<string>> {
    if rules == [] then {}
    else
      var k := |rules| - 1;
      RuleLists(rules[..k]) + if rules[k].enabled then ConditionLists(rules[k].conditions) else {}
  }

  lemma SiteListsNext(sites: seq<Site>, i: nat, before: set<seq<string>>)
    requires i < |sites|
    ensures before + SiteLists(sites[..i + 1]) ==
            before + SiteLists(sites[..i]) + ListOf(sites[i].enabled && Acts(sites[i].geoMode), sites[i].geoCountries)
  {
    assert sites[..i + 1][..i] == sites[..i];
  }

  lemma {:induction false} SiteListed(sites: seq<Site>, i: nat)
    requires i < |sites| && sites[i].enabled && Acts(sites[i].geoMode)
    ensures sites[i].geoCountries in SiteLists(sites)
    decreases |sites|
  {
    var k := |sites| - 1;
    if i < k {
      SiteListed(sites[..k], i);
    }
  }

  lemma ConditionListsNext(conditions: seq<Condition>, i: nat, before: set<seq<string>>)
    requires i < |conditions|
    ensures before + ConditionLists(conditions[..i + 1]) ==
            before + ConditionLists(conditions[..i]) + ListOf(conditions[i].field == "country", conditions[i].values)
  {
    assert conditions[..i + 1][..i] == conditions[..i];
  }

  lemma {:induction false} ConditionListed(conditions: seq<Condition>, j: nat)
    requires j < |conditions| && conditions[j].field == "country"
    ensures conditions[j].values in ConditionLists(conditions)
    decreases |conditions|
  {
    var k := |conditions| - 1;
    if j < k {
      ConditionListed(conditions[..k], j);
    }
  }

  lemma RuleListsNext(rules: seq<AccessRule>, i: nat, before: set<seq<string>>)
    requires i < |rules|
    ensures before + RuleLists(rules[..i + 1]) ==
            before + RuleLists(rules[..i]) + (if rules[i].enabled then ConditionLists(rules[i].conditions) else {})
  {
    assert rules[..i + 1][..i] == rules[..i];
  }

  // --------------------------------------------------------------- the shared cache

  type Cache = Memo<string, seq<string>, GeoSet>

  ghost predicate Made(v4: seq<Row4>, v6: seq<Row6>, w: seq<string>, s: GeoSet) {
    CanCompile(v4, v6, w) && IsCompiled(v4, v6, w, s)
  }

  ghost function MadeFrom(v4: seq<Row4>, v6: seq<Row6>): (seq<string>, GeoSet) -> bool {
    (w, s) => Made(v4, v6, w, s)
  }

  ghost function CompilesFrom(v4: seq<Row4>, v6: seq<Row6>): seq<string> -> bool {
    w => CanCompile(v4, v6, w)
  }

  /** Every answer in the cache is one SetFor could give for some list with that key, no key is both
      answered and refused, and every list asked for has been settled one way or the other. */
  ghost predicate CacheSound(v4: seq<Row4>, v6: seq<Row6>, c: Cache) {
    SoundMemo(c, GeoSetKey, MadeFrom(v4, v6), CompilesFrom(v4, v6))
  }

  lemma SameListSameAnswer(v4: seq<Row4>, v6: seq<Row6>, a: seq<string>, b: seq<string>)
    requires multiset(a) == multiset(b)
    ensures CanCompile(v4, v6, a) <==> CanCompile(v4, v6, b)
    ensures forall s :: IsCompiled(v4, v6, a, s) <==> IsCompiled(v4, v6, b, s)
  {
    assert |multiset(a)| == |multiset(b)|;
    assert forall c :: c in a <==> c in multiset(a);
    assert forall c :: c in b <==> c in multiset(b);
    assert Wanted(a) == Wanted(b);
  }

  /** When only proper lists were asked for, sharing is invisible: for any such list with an answer,
      in whatever order it names its countries, the cached set is one SetFor could give for that
      very list, and a refusal is a refusal of that very list. */
  lemma CacheExact(v4: seq<Row4>, v6: seq<Row6>, c: Cache, list: seq<string>)
    requires CacheSound(v4, v6, c)
    requires Plain(list) && forall w :: w in c.asked ==> Plain(w)
    ensures GeoSetKey(list) in c.found ==> Made(v4, v6, list, c.found[GeoSetKey(list)])
    ensures GeoSetKey(list) in c.failed ==> !CanCompile(v4, v6, list)
    ensures list in c.asked ==> (GeoSetKey(list) in c.found <==> CanCompile(v4, v6, list))
  {
    var k := GeoSetKey(list);
    if k in c.source {
      KeysAgreeIff(c.source[k], list);
      SameListSameAnswer(v4, v6, c.source[k], list);
    }
  }

  /** A published set is never empty, so an allow rule can never refuse everyone by accident. */
  lemma MadeNotEmpty(v4: seq<Row4>, v6: seq<Row6>, w: seq<string>, s: GeoSet)
    requires Made(v4, v6, w, s)
    ensures s.v4 != [] || s.v6 != []
  {
    var p4, p6 :| IsSortOf(p4, Chosen(All4(v4), Wanted(w)), Lo) && IsSortOf(p6, Chosen(All6(v6), Wanted(w)), Lo) &&
                  CompiledFrom(p4, p6, s);
    SameElements(p4, Chosen(All4(v4), Wanted(w)), Lo);
    SameElements(p6, Chosen(All6(v6), Wanted(w)), Lo);
    MergeEmptyIff(true, p4);
    MergeEmptyIff(false, p6);
  }

  /** The mode and set a rule is published with, given the sets there are. */
  function Answer(sets: map<string, GeoSet>, mode: string, countries: seq<string>): (string, string) {
    if Acts(mode) && GeoSetKey(countries) in sets then (mode, GeoSetKey(countries)) else ("off", "")
  }

  class Resolver {
    var sets: map<string, GeoSet>
    var failed: set<string>
    var globalMode: string
    var globalSet: string
    ghost var source: map<string, seq<string>>
    ghost var asked: set<seq<string>>

    ghost function Cache(): Cache
      reads this
    {
      Memo(sets, failed, source, asked)
    }

    constructor ()
      ensures sets == map[] && failed == {} && source == map[] && asked == {} && globalMode == "" && globalSet == ""
    {
      sets, failed, source, asked, globalMode, globalSet := map[], {}, map[], {}, "", "";
    }

    // setFor
    function SetFor(countries: seq<string>): (r: Option<string>)
      reads this
      ensures r.Some? <==> GeoSetKey(countries) in sets
      ensures r.Some? ==> r.value in sets
    {
      if GeoSetKey(countries) in sets then Some(GeoSetKey(countries)) else None
    }

    /** build: a list is compiled the first time its key is asked for, and never again. */
    method Build(g: GeoIP, mode: string, countries: seq<string>) returns (outMode: string, key: string)
      requires CacheSound(g.v4, g.v6, Cache())
      modifies this`sets, this`failed, this`source, this`asked
      ensures CacheSound(g.v4, g.v6, Cache()) && Extends(old(Cache()), Cache())
      ensures asked == old(asked) + ListOf(Acts(mode), countries)
      ensures (outMode, key) == Answer(sets, mode, countries)
    {
      if mode != "block" && mode != "allow" {
        return "off", "";
      }
      key := GeoSetKey(countries);
      if key in sets {
        Again(g, countries);
        return mode, key;
      }
      if key in failed {
        Again(g, countries);
        return "off", "";
      }
      var made := BuildNew(g, countries);
      if !made {
        return "off", "";
      }
      return mode, key;
    }

    /** Nothing but the record of requests changes the second time a key is asked for. */
    ghost method Again(g: GeoIP, countries: seq<string>)
      requires CacheSound(g.v4, g.v6, Cache()) && GeoSetKey(countries) in source
      modifies this`asked
      ensures CacheSound(g.v4, g.v6, Cache()) && asked == old(asked) + {countries}
    {
      AskedAgain(Cache(), GeoSetKey, MadeFrom(g.v4, g.v6), CompilesFrom(g.v4, g.v6), countries);
      asked := asked + {countries};
    }

    method BuildNew(g: GeoIP, countries: seq<string>) returns (made: bool)
      requires CacheSound(g.v4, g.v6, Cache()) && GeoSetKey(countries) !in source
      modifies this`sets, this`failed, this`source, this`asked
      ensures CacheSound(g.v4, g.v6, Cache()) && Extends(old(Cache()), Cache())
      ensures asked == old(asked) + {countries}
      ensures made <==> GeoSetKey(countries) in sets
    {
      var key := GeoSetKey(countries);
      var s := GeoCompile.SetFor(g, countries);
      if s.None? {
        FirstFailure(Cache(), GeoSetKey, MadeFrom(g.v4, g.v6), CompilesFrom(g.v4, g.v6), countries);
        failed := failed + {key};
      } else {
        FirstSuccess(Cache(), GeoSetKey, MadeFrom(g.v4, g.v6), CompilesFrom(g.v4, g.v6), countries, s.value);
        sets := sets[key := s.value];
      }
      source, asked := source[key := countries], asked + {countries};
      assert Cache() == if s.None? then Failed(old(Cache()), key, countries) else Found(old(Cache()), key, countries, s.value);
      made := s.Some?;
    }

    /** forSite: the site's own rule if it set one, the global one only if it set none. */
    function ForSite(s: Site): (r: (string, string))
      reads this
    {
      if s.geoMode == "" then (globalMode, globalSet)
      else if !Acts(s.geoMode) then ("off", "")
      else if GeoSetKey(s.geoCountries) !in sets then ("off", "")
      else (s.geoMode, GeoSetKey(s.geoCountries))
    }
  }

  /** Once a list has been settled, building others leaves its answer alone. */
  lemma SettledStays(c: Cache, d: Cache, mode: string, countries: seq<string>)
    requires Extends(c, d)
    requires Acts(mode) ==> GeoSetKey(countries) in c.source
    ensures Answer(d.found, mode, countries) == Answer(c.found, mode, countries)
  {
  }

  /** resolveGeo: the global rule, then each enabled site's own, then each country condition of
      each enabled rule. With no dataset object at all nothing is built. */
  method ResolveGeo(g: GeoIP?, mode: string, countries: seq<string>, sites: seq<Site>, rules: seq<AccessRule>)
    returns (r: Resolver)
    ensures fresh(r)
    ensures g == null ==> r.sets == map[] && r.globalMode == "" && r.globalSet == ""
    ensures g != null ==> CacheSound(g.v4, g.v6, r.Cache())
    ensures g != null ==> r.asked == ListOf(Acts(mode), countries) + SiteLists(sites) + RuleLists(rules)
    ensures g != null ==> (r.globalMode, r.globalSet) == Answer(r.sets, mode, countries)
  {
    r := new Resolver();
    if g == null {
      return;
    }
    var m, k := Resolve(g, r, mode, countries, sites, rules);
    r.globalMode, r.globalSet := m, k;
  }

  method Resolve(g: GeoIP, r: Resolver, mode: string, countries: seq<string>, sites: seq<Site>, rules: seq<AccessRule>)
    returns (outMode: string, key: string)
    requires CacheSound(g.v4, g.v6, r.Cache()) && r.asked == {}
    modifies r`sets, r`failed, r`source, r`asked
    ensures CacheSound(g.v4, g.v6, r.Cache())
    ensures r.asked == ListOf(Acts(mode), countries) + SiteLists(sites) + RuleLists(rules)
    ensures (outMode, key) == Answer(r.sets, mode, countries)
  {
    outMode, key := r.Build(g, mode, countries);
    ghost var c := r.Cache();
    assert Acts(mode) ==> countries in c.asked;
    BuildSites(g, r, sites);
    BuildRules(g, r, rules);
    SettledStays(c, r.Cache(), mode, countries);
  }

  method BuildSite(g: GeoIP, r: Resolver, s: Site)
    requires CacheSound(g.v4, g.v6, r.Cache())
    modifies r`sets, r`failed, r`source, r`asked
    ensures CacheSound(g.v4, g.v6, r.Cache()) && Extends(old(r.Cache()), r.Cache())
    ensures r.asked == old(r.asked) + ListOf(s.enabled && Acts(s.geoMode), s.geoCountries)
  {
    if s.enabled && s.geoMode != "" {
      var _, _ := r.Build(g, s.geoMode, s.geoCountries);
    }
  }

  method BuildSites(g: GeoIP, r: Resolver, sites: seq<Site>)
    requires CacheSound(g.v4, g.v6, r.Cache())
    modifies r`sets, r`failed, r`source, r`asked
    ensures CacheSound(g.v4, g.v6, r.Cache()) && Extends(old(r.Cache()), r.Cache())
    ensures r.asked == old(r.asked) + SiteLists(sites)
  {
    var i := 0;
    while i < |sites|
      invariant 0 <= i <= |sites|
      invariant CacheSound(g.v4, g.v6, r.Cache()) && Extends(old(r.Cache()), r.Cache())
      invariant r.asked == old(r.asked) + SiteLists(sites[..i])
    {
      SiteListsNext(sites, i, old(r.asked));
      BuildSite(g, r, sites[i]);
      i := i + 1;
    }
    assert sites[..i] == sites;
  }

  method BuildRule(g: GeoIP, r: Resolver, rule: AccessRule)
    requires CacheSound(g.v4, g.v6, r.Cache())
    modifies r`sets, r`failed, r`source, r`asked
    ensures CacheSound(g.v4, g.v6, r.Cache()) && Extends(old(r.Cache()), r.Cache())
    ensures r.asked == old(r.asked) + if rule.enabled then ConditionLists(rule.conditions) else {}
  {
    if rule.enabled {
      BuildConditions(g, r, rule.conditions);
    }
  }

  method BuildRules(g: GeoIP, r: Resolver, rules: seq<AccessRule>)
    requires CacheSound(g.v4, g.v6, r.Cache())
    modifies r`sets, r`failed, r`source, r`asked
    ensures CacheSound(g.v4, g.v6, r.Cache()) && Extends(old(r.Cache()), r.Cache())
    ensures r.asked == old(r.asked) + RuleLists(rules)
  {
    var i := 0;
    while i < |rules|
      invariant 0 <= i <= |rules|
      invariant CacheSound(g.v4, g.v6, r.Cache()) && Extends(old(r.Cache()), r.Cache())
      invariant r.asked == old(r.asked) + RuleLists(rules[..i])
    {
      RuleListsNext(rules, i, old(r.asked));
      BuildRule(g, r, rules[i]);
      i := i + 1;
    }
    assert rules[..i] == rules;
  }

  method BuildCondition(g: GeoIP, r: Resolver, c: Condition)
    requires CacheSound(g.v4, g.v6, r.Cache())
    modifies r`sets, r`failed, r`source, r`asked
    ensures CacheSound(g.v4, g.v6, r.Cache()) && Extends(old(r.Cache()), r.Cache())
    ensures r.asked == old(r.asked) + ListOf(c.field == "country", c.values)
  {
    if c.field == "country" {
      var _, _ := r.Build(g, "block", c.values);
    }
  }

  method BuildConditions(g: GeoIP, r: Resolver, conditions: seq<Condition>)
    requires CacheSound(g.v4, g.v6, r.Cache())
    modifies r`sets, r`failed, r`source, r`asked
    ensures CacheSound(g.v4, g.v6, r.Cache()) && Extends(old(r.Cache()), r.Cache())
    ensures r.asked == old(r.asked) + ConditionLists(conditions)
  {
    var j := 0;
    while j < |conditions|
      invariant 0 <= j <= |conditions|
      invariant CacheSound(g.v4, g.v6, r.Cache()) && Extends(old(r.Cache()), r.Cache())
      invariant r.asked == old(r.asked) + ConditionLists(conditions[..j])
    {
      ConditionListsNext(conditions, j, old(r.asked));
      BuildCondition(g, r, conditions[j]);
      j := j + 1;
    }
    assert conditions[..j] == conditions;
  }

  lemma CachedNotEmpty(v4: seq<Row4>, v6: seq<Row6>, c: Cache, k: string)
    requires CacheSound(v4, v6, c) && k in c.found
    ensures c.found[k].v4 != [] || c.found[k].v6 != []
  {
    MadeNotEmpty(v4, v6, c.source[k], c.found[k]);
  }

  /** A site that is published as blocking or allowing always points at a present, non-empty set,
      and one that opted out is never given the global rule. */
  lemma PublishedSetExists(g: GeoIP, r: Resolver, s: Site)
    requires CacheSound(g.v4, g.v6, r.Cache())
    requires Acts(r.globalMode) ==> r.globalSet in r.sets
    ensures var (mode, key) := r.ForSite(s);
            (Acts(mode) ==> key in r.sets && (r.sets[key].v4 != [] || r.sets[key].v6 != [])) &&
            (s.geoMode != "" && !Acts(s.geoMode) ==> mode == "off" && key == "")
  {
    var (mode, key) := r.ForSite(s);
    if Acts(mode) {
      CachedNotEmpty(g.v4, g.v6, r.Cache(), key);
    }
  }

  /** A site's own rule is published as itself exactly when its own list can be compiled, and then
      with a set compiled from that list. */
  lemma OwnRuleIsOwn(g: GeoIP, r: Resolver, s: Site)
    requires CacheSound(g.v4, g.v6, r.Cache()) && forall w :: w in r.asked ==> Plain(w)
    requires Acts(s.geoMode) && s.geoCountries in r.asked
    ensures var (mode, key) := r.ForSite(s);
            (mode == s.geoMode <==> CanCompile(g.v4, g.v6, s.geoCountries)) &&
            (mode == s.geoMode ==> key in r.sets && IsCompiled(g.v4, g.v6, s.geoCountries, r.sets[key])) &&
            (mode != s.geoMode ==> mode == "off")
  {
    CacheExact(g.v4, g.v6, r.Cache(), s.geoCountries);
  }

  /** What a rule of this mode and list comes to in a publish. */
  function Decided(v4: seq<Row4>, v6: seq<Row6>, mode: string, countries: seq<string>): (string, string) {
    if Acts(mode) && CanCompile(v4, v6, countries) then (mode, GeoSetKey(countries)) else ("off", "")
  }

  /** The rule that applies to a site: its own if it set one, else the global one. */
  function DecidedFor(v4: seq<Row4>, v6: seq<Row6>, mode: string, countries: seq<string>, s: Site): (string, string) {
    if s.geoMode == "" then Decided(v4, v6, mode, countries) else Decided(v4, v6, s.geoMode, s.geoCountries)
  }

  lemma AnswerIsDecided(v4: seq<Row4>, v6: seq<Row6>, c: Cache, mode: string, countries: seq<string>)
    requires CacheSound(v4, v6, c) && forall w :: w in c.asked ==> Plain(w)
    requires Acts(mode) ==> countries in c.asked
    ensures Answer(c.found, mode, countries) == Decided(v4, v6, mode, countries)
    ensures Acts(mode) && CanCompile(v4, v6, countries) ==>
              GeoSetKey(countries) in c.found && IsCompiled(v4, v6, countries, c.found[GeoSetKey(countries)])
  {
    if Acts(mode) {
      CacheExact(v4, v6, c, countries);
    }
  }

  lemma SiteIsDecided(g: GeoIP, r: Resolver, mode: string, countries: seq<string>, s: Site)
    requires CacheSound(g.v4, g.v6, r.Cache()) && forall w :: w in r.asked ==> Plain(w)
    requires Acts(mode) ==> countries in r.asked
    requires Acts(s.geoMode) ==> s.geoCountries in r.asked
    requires (r.globalMode, r.globalSet) == Answer(r.sets, mode, countries)
    ensures r.ForSite(s) == DecidedFor(g.v4, g.v6, mode, countries, s)
    ensures var list := if s.geoMode == "" then countries else s.geoCountries;
            Acts(r.ForSite(s).0) ==> r.ForSite(s).1 in r.sets && IsCompiled(g.v4, g.v6, list, r.sets[r.ForSite(s).1])
  {
    AnswerIsDecided(g.v4, g.v6, r.Cache(), mode, countries);
    AnswerIsDecided(g.v4, g.v6, r.Cache(), s.geoMode, s.geoCountries);
  }

  /** Resolving and publishing the sites, end to end: every enabled site gets exactly the rule that
      applies to it - its own or, only if it set none, the global one - as itself when its list can
      be compiled, with a set compiled from that very list, and as off otherwise. */
  method PublishSites(g: GeoIP, mode: string, countries: seq<string>, sites: seq<Site>, rules: seq<AccessRule>)
    returns (r: Resolver, out: map<string, (string, string)>)
    requires forall w :: w in ListOf(Acts(mode), countries) + SiteLists(sites) + RuleLists(rules) ==> Plain(w)
    requires forall i, j :: 0 <= i < j < |sites| ==> sites[i].id != sites[j].id
    ensures forall i :: 0 <= i < |sites| ==> (sites[i].id in out <==> sites[i].enabled)
    ensures forall i :: 0 <= i < |sites| && sites[i].enabled ==>
              out[sites[i].id] == DecidedFor(g.v4, g.v6, mode, countries, sites[i])
    ensures forall i :: 0 <= i < |sites| && sites[i].enabled && Acts(out[sites[i].id].0) ==>
              var list := if sites[i].geoMode == "" then countries else sites[i].geoCountries;
              out[sites[i].id].1 in r.sets && IsCompiled(g.v4, g.v6, list, r.sets[out[sites[i].id].1])
    // a site without a rule of its own goes by the global one
    ensures forall i :: 0 <= i < |sites| && sites[i].enabled && sites[i].geoMode == "" ==>
              if (mode == "block" || mode == "allow") && CanCompile(g.v4, g.v6, countries) then
                out[sites[i].id].0 == mode && out[sites[i].id].1 in r.sets &&
                IsCompiled(g.v4, g.v6, countries, r.sets[out[sites[i].id].1])
              else out[sites[i].id] == ("off", "")
    // a site with one by its own, whatever the global one says
    ensures forall i :: 0 <= i < |sites| && sites[i].enabled && sites[i].geoMode != "" ==>
              if (sites[i].geoMode == "block" || sites[i].geoMode == "allow") && CanCompile(g.v4, g.v6, sites[i].geoCountries) then
                out[sites[i].id].0 == sites[i].geoMode && out[sites[i].id].1 in r.sets &&
                IsCompiled(g.v4, g.v6, sites[i].geoCountries, r.sets[out[sites[i].id].1])
              else out[sites[i].id] == ("off", "")
  {
    r := ResolveGeo(g, mode, countries, sites, rules);
    forall i | 0 <= i < |sites| && sites[i].enabled
      ensures r.ForSite(sites[i]) == DecidedFor(g.v4, g.v6, mode, countries, sites[i])
      ensures var list := if sites[i].geoMode == "" then countries else sites[i].geoCountries;
              Acts(r.ForSite(sites[i]).0) ==>
                r.ForSite(sites[i]).1 in r.sets && IsCompiled(g.v4, g.v6, list, r.sets[r.ForSite(sites[i]).1])
    {
      if Acts(sites[i].geoMode) {
        SiteListed(sites, i);
      }
      SiteIsDecided(g, r, mode, countries, sites[i]);
    }
    out := SiteAnswers(r, sites);
  }

  /** The loop over the sites. */
  method SiteAnswers(r: Resolver, sites: seq<Site>) returns (out: map<string, (string, string)>)
    requires forall i, j :: 0 <= i < j < |sites| ==> sites[i].id != sites[j].id
    ensures forall i :: 0 <= i < |sites| ==> (sites[i].id in out <==> sites[i].enabled)
    ensures forall i :: 0 <= i < |sites| && sites[i].enabled ==> out[sites[i].id] == r.ForSite(sites[i])
  {
    out := map[];
    for n := 0 to |sites|
      invariant forall k :: k in out ==> exists i :: 0 <= i < n && sites[i].id == k
      invariant forall i :: 0 <= i < n ==> (sites[i].id in out <==> sites[i].enabled)
      invariant forall i :: 0 <= i < n && sites[i].enabled ==> out[sites[i].id] == r.ForSite(sites[i])
    {
      if sites[n].enabled {
        out := out[sites[n].id := r.ForSite(sites[n])];
      }
    }
  }
}
