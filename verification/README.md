# MosWAF: what its control plane promises, proved

MosWAF is a web application firewall: an nginx data plane in Lua, a control plane in Go that
publishes its configuration, and an agent that turns long bans into kernel rules. This project
models the parts of it whose behaviour cannot be read off one function, and proves what they keep.
`dafny verify dfyconfig.toml` checks all of it.

- **The kernel-ban agent** (`NeverDrop`, `ConfiguredRanges`, `KbanMachine`, `KbanRuns`, `KbanSafety`,
  `KbanRelease`, `KbanPublish`, `KbanCalls`, `KbanAgent`). Two goroutines act on one kernel set without a
  lock across a cycle. `KbanMachine` is the interleaving machine: one atomic step at a time, a program counter for each
  actor, the reconcile loop's own snapshot, a clock, expiry in the kernel, and an outcome for every
  call that can fail. `KbanSafety` proves what every run keeps. `KbanRelease` and `KbanPublish` say
  exactly when a release can be undone and when the published view is honest, with runs that reach
  the boundaries. `KbanCalls` says what one undisturbed call comes to and that it is one run of the
  machine, and `KbanAgent` is the program as objects updated in place: the commands it gives, and what
  holds afterwards for every way they are answered.
- **The country-range compiler** (`GeoWords`, `GeoMerge`, `GeoTable`, `GeoLines`, `GeoSets`, `GeoCompile`,
  `GeoSearch`, `Memo`, `GeoResolve`, `AccessRules`). Text to sorted tables, binary search, merged flat ranges with the
  32-bit wrap of the original, 128-bit numbers as pairs of words and as hex text, one cache per
  publish, and the rewritten rules. The result it builds to: a request meets the same first rule
  after publication as before.
- **The nginx configuration reader** (`NginxLex`, `NginxConf`, `NginxRoundTrip`, `NginxSpelling`, `NginxWalk`).
  A tokenizer and an index-passing parser, with round trips over every layout and both kinds of quotes,
  what exactly is read of an untidy text, and the completeness of `walk`.
- **The crawler-range validator** (`CrawlerPrefix`, `CrawlerList`, `CrawlerBudget`). Masking and folding in
  the order that matters, exactly which lists are accepted, and true bounds on the size of a union of
  ranges.
- **The login guard** (`LoginGuard`, `LoginRuns`) and **site sessions** (`SessionToken`, `SiteSessions`).
  A timed and a versioned state machine with results over whole runs.
- **The gate's path list** (`AuthPaths`, `AuthTyping`, `GatePaths`). A normaliser that is applied four times
  between typing and publishing, exactly when a further pass matters, and what the gate then stands
  in front of after any number of them.

`NetAddr`, `Text`, `Sorting`, `Counting` and `Wrappers` hold what several of these share.

Conventions. A parsed address is a number with a family. A call that can fail - to the kernel, to
Redis, over HTTP - has its outcome chosen freely, and a lemma holds for every choice; the agent's
methods are given the answers beforehand, as a function of the number of the call, so that what was
tried and what it came to are both in their contracts. What Go leaves open is left open: the order a
map is walked in, the order an unstable sort leaves equal rows in.
Parsing and printing of addresses are parameters; where both are needed they are required to undo
each other. Where the code's comments and the code differ, the model follows the code:

- `allowlist.go` reads as if every configured entry were protected; what a range names only in mapped
  form is not, unless the list holds it for another reason (`ConfiguredRanges.ProtectsIff`).
- `publish.go` promises a view that does not overstate the kernel; a release between read-back and
  rename breaks that (`KbanPublish.PublishHonestIff`,
  `KbanPublish.PublishCanOverstate`).
- `geo.lua` calls its lists non-overlapping; with overlapping rows in the dataset an IPv4 list can
  hold one interval inside another (`GeoMerge.Merge4ApartIff`), and its search can then miss an
  address that is covered (`GeoSearch.SearchTrueIff`, `GeoSearch.MissedAddress`).
- `auth.go` calls the ceiling on records hard; a record under the empty key can defeat one eviction
  (`LoginGuard.EvictionFailsIff`). No caller uses the empty key on an ordinary connection.
- `main.go` says a release beats a drop not yet applied; an add can land between the removal and the
  note, or be ahead when the note is written (`KbanRelease.MarkProtects`).
- `siteusers.go` speaks of one shape; entries ending in several stars take as many passes to reach it
  (`AuthPaths.SecondPassIff`, `AuthPaths.OneStarAPass`).

## Model

| member | source | states |
|---|---|---|
| `NeverDrop.NeverDropList.Load` | control/cmd/moswaf-kbans/allowlist.go:63-111 | one list of entries is added whole, or refused as soon as one entry cannot be read; management entries are also kept apart |
| `NeverDrop.NewNeverDrop` | control/cmd/moswaf-kbans/allowlist.go:63-111 | a list is built exactly when every entry reads and at least one management entry is not blank; it then holds the management entries, the built-in infrastructure ranges and the Docker ones, in that order |
| `NeverDrop.BuiltProtects` | control/cmd/moswaf-kbans/allowlist.go:63-149 | every configured bare address is protected in both spellings, and so is every address whose unmapped form a configured range holds |
| `NeverDrop.BuiltProtectsLoopback` | control/cmd/moswaf-kbans/allowlist.go:63-111 | both loopback addresses are protected whatever was configured |
| `NeverDrop.BuiltCoversIff` | control/cmd/moswaf-kbans/allowlist.go:37-132 | exactly what a built list protects, in numbers: the fourteen built-in ranges by their bounds, the bare entries, and the configured ranges from their first address to their last |
| `NeverDrop.NeverDropList.Covers` | control/cmd/moswaf-kbans/allowlist.go:119-132 | refuses exactly the addresses whose unmapped form lies in a prefix of the same family, and names the first such prefix |
| `ConfiguredRanges.NamedMeans` | control/cmd/moswaf-kbans/allowlist.go:136-149 | the IPv4 range a configured range names only in mapped form: the folded one, all of IPv4 for one that contains the mapped block, none for one that is IPv4 or does not meet it |
| `ConfiguredRanges.ProtectsIff` | control/cmd/moswaf-kbans/allowlist.go:63-149 | in every list that is built, a configured range has all it holds protected, in both spellings, if and only if it names no IPv4 range in mapped form or that range lies inside the list for other reasons |
| `ConfiguredRanges.MappedPrivateIsProtected` | control/cmd/moswaf-kbans/allowlist.go:63-149 | so ::ffff:10.0.0.0/104 is protected in every built list, by 10.0.0.0/8 |
| `ConfiguredRanges.RangesThatMiss` | control/cmd/moswaf-kbans/allowlist.go:63-149 | configured next to loopback, each of ::ffff:1.2.3.0/120, ::ffff:0:0/95 and ::/0 holds ::ffff:1.2.3.4 and the list that is built protects neither spelling of it |
| `NeverDrop.MappedCidrProtectsNothing` | control/cmd/moswaf-kbans/allowlist.go:136-149 | by itself a range written in mapped form adds nothing to the list if and only if it has 96 bits or more |
| `KbanSafety.NeverAddsCovered` | control/cmd/moswaf-kbans/main.go:281-359 | in every interleaving of consumer and reconcile steps, with any failures, an address the never-drop list covers is in the kernel set later only if it was there before |
| `KbanSafety.CleanForever` | control/cmd/moswaf-kbans/main.go:281-445 | from a clean start the kernel set and the published view stay free of covered addresses for ever, and no address is ever published both as applied and as refused |
| `KbanSafety.ReleasedStaysOut` | control/cmd/moswaf-kbans/main.go:338-403 | once a release note is written and the cycle in progress has no add of the address ahead of it, no cycle begun inside the window adds it, in any interleaving without a new drop for it |
| `KbanSafety.ReleasedIsGone` | control/cmd/moswaf-kbans/main.go:224-279 | and if it was out of the kernel then, it stays out |
| `KbanRelease.UndoneIff` | control/cmd/moswaf-kbans/main.go:338-396 | a noted release can be undone - there is a run without a new drop in which the agent adds the address - if and only if the cycle in progress wants it and its add is still ahead: during `desired`, during the listing, or among the adds not yet tried |
| `KbanRelease.EndsUpBannedIff` | control/cmd/moswaf-kbans/main.go:262-275 | an address under a note can end up in the kernel without a new drop if and only if it is there already or the cycle in progress still has its add ahead |
| `KbanRelease.MarkProtects` | control/cmd/moswaf-kbans/main.go:262-275 | the consumer notes a release for two intervals, and from then on exactly that decides whether the released address can be banned: the cycle may have added it between the removal and the note |
| `KbanRelease.AddCanPrecedeNote` | control/cmd/moswaf-kbans/main.go:262-275 | a run from rest in which it does |
| `KbanRelease.MarkAllProtects` | control/cmd/moswaf-kbans/main.go:233-250 | the same for every address release_all comes to note |
| `KbanRelease.ReleaseCanBeUndone` | control/cmd/moswaf-kbans/main.go:338-396 | a run from rest in which a finished, noted release is put back by the reconcile loop alone, under any never-drop list that does not cover the address |
| `KbanRelease.VisitorCanBeBanned` | control/cmd/moswaf-kbans/allowlist.go:63-111 | a list the agent does build under which that run and the others are possible |
| `KbanCalls.ReleaseAllProtectsIff` | control/cmd/moswaf-kbans/main.go:233-250 | release_all lets an address go if and only if its family was flushed, and leaves a note for it if and only if the listing and both flushes succeeded, or an earlier note lasts as long |
| `KbanSafety.LateReleaseUndoneOnce` | control/cmd/moswaf-kbans/main.go:338-396 | a release that lands after `desired` admitted the address can be undone by that one cycle only: once a next cycle has begun inside the window no step adds it |
| `KbanSafety.NextCycleRemoves` | control/cmd/moswaf-kbans/main.go:361-445 | a cycle whose fetched list leaves an address out, and whose removal of it does not fail, carries it out of the kernel however its steps interleave with the feed, short of a new drop |
| `KbanSafety.CycleRepairs` | control/cmd/moswaf-kbans/main.go:361-445 | the same for a whole cycle from outside: once it has reached the read-back the address is neither in the kernel nor in what was read back |
| `KbanPublish.PublishHonestIff` | control/cmd/moswaf-kbans/main.go:412-444 | for every interleaving from read-back to rename: the published view names nothing the kernel has lost if and only if each address read back that expired, was released or was flushed after its family was read was dropped again before the publish |
| `KbanPublish.PublishCanOverstate` | control/cmd/moswaf-kbans/main.go:412-444 | a run from rest in which a release between read-back and rename leaves a published rule that the kernel does not hold |
| `KbanRelease.DropCanBeUndone` | control/cmd/moswaf-kbans/main.go:361-405 | a run in which a finished drop is taken out again by the reconcile loop alone |
| `KbanRelease.DropUndoneIff` | control/cmd/moswaf-kbans/main.go:361-405 | from any moment at which a dropped address is in the kernel: the cycle in progress, left to itself, can remove it if and only if its list is yet to be fetched or will not want it, by the rows still to be tested and the notes as they stand, and its listing has taken it in or is yet to |
| `KbanRelease.RemovedIffListedUnwanted` | control/cmd/moswaf-kbans/main.go:378-405 | a cycle that finishes its removals, with the feed interleaved, tries to remove an address if and only if its listing held it and its ban list did not want it |
| `KbanAgent.Tombstones.Prune` | control/cmd/moswaf-kbans/tombstone.go:73-81 | pruning forgets exactly the notes that have run out, and changes what is held for nobody |
| `KbanAgent.Nftables.Add` | control/cmd/moswaf-kbans/nftables.go:115-125 | an add with time left is one command, and puts the address in exactly if the kernel answers that it worked; one without time is no command and changes nothing |
| `KbanAgent.Nftables.Flush` | control/cmd/moswaf-kbans/nftables.go:151-161 | the two sets are flushed in turn, the second only after the first, and each empties its family exactly if it worked |
| `KbanAgent.Board.PublishState` | control/cmd/moswaf-kbans/publish.go:124-174 | the applied hash becomes exactly what was read back, each address keeping its earlier stamp if it had one that could be read, or nothing changes, as the two requests are answered; orphans are the first hundred |
| `KbanCalls.DesiredMeans` | control/cmd/moswaf-kbans/main.go:338-359 | an address is wanted exactly when some row names it in either spelling with time left and it is neither protected nor under a note; the last such row gives its time |
| `KbanAgent.Agent.Drop` | control/cmd/moswaf-kbans/main.go:281-307 | without time left nothing happens; a protected address is refused and the board told why; any other loses its note, is handed to the kernel with its time, is in it exactly if that worked, and is then shown as applied, keeping an earlier stamp; no other address is touched; for every way the calls are answered |
| `KbanCalls.DropIsRun` | control/cmd/moswaf-kbans/main.go:281-307 | an undisturbed drop is a run of the interleaving machine in which the consumer takes in exactly this event, so every safety result above applies to it |
| `KbanAgent.Agent.Release` | control/cmd/moswaf-kbans/main.go:262-275 | the kernel is asked to let the address go; if it does, the release is noted for two intervals and the board told, and if it does not nothing changes; no other address is touched |
| `KbanCalls.ReleaseIsRun` | control/cmd/moswaf-kbans/main.go:262-275 | an undisturbed release is a run of the machine that takes in exactly this event |
| `KbanAgent.Agent.ReleaseAll` | control/cmd/moswaf-kbans/main.go:233-250 | both sets are listed and flushed as far as that works; each family is gone exactly if its flush worked; every listed address is noted for two intervals once both are flushed, and the board then forgets everything |
| `KbanCalls.ReleaseAllIsRun` | control/cmd/moswaf-kbans/main.go:233-250 | an undisturbed release_all is a run of the machine that takes in exactly this event |
| `KbanAgent.Agent.DesiredOf` | control/cmd/moswaf-kbans/main.go:338-359 | the loop over the rows fills exactly the wanted map that `DesiredMeans` characterises |
| `KbanAgent.Agent.AddEach` | control/cmd/moswaf-kbans/main.go:385-396 | one addition is tried for each wanted address, with its time; the failed ones are those the kernel answered so |
| `KbanAgent.Agent.RemoveEach` | control/cmd/moswaf-kbans/main.go:397-405 | one removal is tried for each address found that is not wanted |
| `KbanAgent.Agent.Reconcile` | control/cmd/moswaf-kbans/main.go:361-445 | with a list and a reading of the kernel, every address that a row names with time left, that is not protected and under no note, is handed to the kernel once with the time of its last row and is there if the kernel answered so; every other address found is taken out once, and gone if it answered so; nothing else changes, and what is then read back is published, all by answers fixed beforehand; otherwise the kernel and what is published stay as they are |
| `KbanCalls.CycleIsRun` | control/cmd/moswaf-kbans/main.go:361-445 | that state is reached by a run of the machine that is one cycle with exactly this list, whatever fails and in whatever order the maps are walked |
| `KbanCalls.CycleKernel` | control/cmd/moswaf-kbans/main.go:361-405 | a cycle removes exactly the unwanted addresses whose removal succeeded and adds exactly the wanted ones whose addition did, and ends at the wanted set when nothing fails; a failed or truncated fetch, or an unreadable kernel, touches neither the kernel nor what is published |
| `KbanCalls.CyclePublishes` | control/cmd/moswaf-kbans/main.go:412-445 | what is published is exactly what the kernel then holds, with the earlier stamps if those could be read, and as orphans what it holds unwanted, all of it up to a hundred |
| `GeoWords.Be32` | control/internal/engine/geoip.go:165-167 | four bytes read big-endian are the number they spell |
| `GeoWords.Be64Pair` | control/internal/engine/geoip.go:169-175 | the two halves are the numbers the first and last eight bytes spell, so no shift loses a bit |
| `GeoWords.Bytes16` | control/internal/engine/geosets.go:201-208 | filling the array from the back writes the sixteen bytes of the 128-bit number |
| `GeoWords.HalvesRoundTrip` | control/internal/engine/geosets.go:201-208 | bytes16 then be64pair gives the halves back, and the bytes spell the number whose halves they are |
| `GeoWords.BytesRoundTrip` | control/internal/engine/geoip.go:169-175 | be64pair then bytes16 gives the bytes back |
| `GeoWords.HexOrder` | control/internal/engine/geosets.go:107-154 | fixed-width lowercase hex compares as text exactly as the numbers compare |
| `GeoWords.HexAt` | control/internal/engine/geosets.go:142-142 | each byte is two digits, the higher first, small letters past nine |
| `GeoTable.ParseCSV` | control/internal/engine/geoip.go:183-271 | the tables are rearrangements of the well-formed rows of the file, ordered by upper bound; no dataset when there are more than 2000000 lines or no row |
| `GeoTable.GeoIP.Refresh` | control/internal/engine/geoip.go:309-347 | a dataset that parses replaces both tables, one that does not replaces neither, and which it is depends on its lines alone |
| `GeoTable.GeoIP.Lookup` | control/internal/engine/geoip.go:102-134 | both binary searches, the IPv6 one on pairs of words, return the label of the first row that reaches the address if it also contains it; a mapped address is answered from the IPv4 table |
| `GeoTable.LabelSound` | control/internal/engine/geoip.go:102-163 | on any table a non-empty answer is the label of a stored row that contains the address, and never ZZ |
| `GeoTable.LookupCompleteIff` | control/internal/engine/geoip.go:102-134 | on any sound table every address some row holds is answered by a row that holds it, if and only if no later row starts before an earlier one with room left between that one and its predecessor |
| `GeoTable.LabelComplete` | control/internal/engine/geoip.go:102-134 | hence on rows that do not overlap an address inside a row gets that row's label |
| `GeoTable.LookupIsScan` | control/internal/engine/geoip.go:102-271 | from file to answer: in whatever order its lines come, a dataset without overlaps answers every address as a scan of its rows from the top would |
| `GeoLines.LineReadsAs` | control/internal/engine/geoip.go:200-250 | a line is read as the row from its first address to its second with its label, by the positions of its first two commas, when both read, are of one family once unmapped and in order, and the label is two letters; and as nothing otherwise |
| `GeoLines.AnswersWhatIsSaid` | control/internal/engine/geoip.go:102-271 | from the text to the answer: a dataset without overlaps answers a country for an address if and only if one of its lines says so and the country is not ZZ |
| `GeoTable.OverlapHidesRows` | control/internal/engine/geoip.go:102-134 | a two-row table on which that condition fails, and the address that is missed |
| `GeoMerge.MergeDenotes` | control/internal/engine/geosets.go:120-154 | the merged intervals cover exactly the addresses of the rows, for both families, overlaps and 32-bit wrap included |
| `GeoMerge.Merge6Strict` | control/internal/engine/geosets.go:141-154 | the IPv6 intervals are strictly increasing and never overlap; they may be adjacent |
| `GeoMerge.Merge6Keeps` | control/internal/engine/geosets.go:141-154 | and the IPv6 merge joins nothing else: intervals that do not overlap, adjacent ones included, stay as they are |
| `GeoMerge.Merge4ApartIff` | control/internal/engine/geosets.go:120-139 | the IPv4 output keeps an uncovered address between any two intervals if and only if no row that ends at 255.255.255.255 is followed by another starting above zero |
| `GeoMerge.Merge4Canonical` | control/internal/engine/geosets.go:99-139 | on rows that do not overlap the output is the one minimal spelling of their union, however the unstable sort broke ties |
| `GeoMerge.OverrunExample` | control/internal/engine/geosets.go:120-139 | the wrap does break the order on overlapping rows, by example |
| `GeoSets.KeysAgreeIff` | control/internal/engine/geosets.go:66-70 | two lists of entries without commas share a key if and only if one is a rearrangement of the other, or both say nothing |
| `GeoSets.KeysCollideOnCommas` | control/internal/engine/geosets.go:66-70 | an entry with a comma in it, which the store refuses, would spell the key of two entries |
| `GeoCompile.SetFor` | control/internal/engine/geosets.go:78-162 | there is an answer exactly when one can be given (`GeoSets.CanCompileIff`), and the answer is then one the sort could lead to |
| `GeoSets.CanCompileIff` | control/internal/engine/geosets.go:78-118 | namely when the list has 1 to 60 entries and 1 to 250000 rows of the dataset are of its countries |
| `GeoSets.WantedIff` | control/internal/engine/geosets.go:84-88 | what a list asks for: the letters of each entry in capitals, without the blanks around them, and nothing else |
| `GeoSets.CompiledMeans` | control/internal/engine/geosets.go:78-162 | an address is inside the compiled set if and only if a row of a listed country holds it, on every table of well-formed rows |
| `GeoSets.Compiled4IsMinimal` | control/internal/engine/geosets.go:99-139 | without overlaps the published IPv4 list is the unique minimal interval list of the chosen addresses |
| `GeoSets.BlockingAgreesWithReporting` | control/internal/engine/geosets.go:78-162 | on a dataset without overlaps, an address is inside the compiled set if and only if the country `Lookup` reports, in capitals, is listed; the one exception is a list that names ZZ |
| `GeoSearch.InV4` | dataplane/lua/moswaf/geo.lua:27-41 | the IPv4 search as written, on any list of pairs |
| `GeoSearch.SeekSound` | dataplane/lua/moswaf/geo.lua:27-41 | on any list whatever, an address it finds is in one of the ranges |
| `GeoSearch.SearchTrueIff` | dataplane/lua/moswaf/geo.lua:27-41 | on every list the merge can publish, the search answers membership for all addresses if and only if the way it takes to the first interval ending at 255.255.255.255 meets, beyond it, only intervals that end there too |
| `GeoSearch.CompiledSearchIff` | dataplane/lua/moswaf/geo.lua:27-41 | the same for a compiled set of any table of well-formed rows, overlapping or not |
| `GeoSearch.CompiledSearchable` | control/internal/engine/geosets.go:120-139 | which holds whenever no chosen row that ends at the last address can be followed by one starting above the first |
| `GeoSearch.MissedAddress` | dataplane/lua/moswaf/geo.lua:27-41 | the failure, from a three-row dataset: the compiled set of the country covers 0.0.0.100 and the data plane answers that it does not |
| `GeoSearch.InV6` | dataplane/lua/moswaf/geo.lua:58-72 | the IPv6 search, by text comparison, decides membership exactly |
| `GeoSearch.Compiled6Searchable` | control/internal/engine/geosets.go:141-154 | on every list compiled for IPv6, whatever the rows |
| `GeoSearch.SearchedIsInside` | dataplane/lua/moswaf/geo.lua:82-106 | on a dataset without overlaps the data plane answers every address truly |
| `GeoSearch.Contains` | dataplane/lua/moswaf/geo.lua:82-106 | the fold, the choice of family and the search; there is no answer exactly for a family without ranges |
| `GeoSearch.Refuses` | dataplane/lua/moswaf/geo.lua:118-126 | the verdict: blocking refuses who is inside, allowing who is outside, and neither someone who cannot be placed |
| `GeoSearch.RefusedIff` | dataplane/lua/moswaf/geo.lua:108-126 | from the operator's side, on a dataset without overlaps and a list without ZZ: a visitor is refused exactly if its reported country is listed, or exactly if it is not, as the mode says, provided the set has ranges in the visitor's family |
| `Memo.FirstSuccess` | control/internal/engine/georesolve.go:91-122 | recording a newly found answer keeps the cache sound and changes no answer already given |
| `GeoResolve.Resolver.Build` | control/internal/engine/georesolve.go:91-122 | every list is compiled at most once per key; the cache stays sound and the answer is the published mode |
| `GeoResolve.ResolveGeo` | control/internal/engine/georesolve.go:35-72 | afterwards found and failed keys are disjoint, every list of the global rule, of enabled sites and of enabled rules has been settled, and the global rule is what the finished cache says; without a dataset nothing is built |
| `GeoResolve.CacheExact` | control/internal/engine/georesolve.go:91-122 | sharing by key is invisible: for lists of non-empty entries without commas, a cached set is one SetFor could give for that very list in that very order, and a failure is a failure of that list |
| `GeoResolve.PublishedSetExists` | control/internal/engine/georesolve.go:131-143 | a site published as block or allow points at a present, non-empty set, and a site set to off is never given the global rule |
| `GeoResolve.OwnRuleIsOwn` | control/internal/engine/georesolve.go:131-143 | a site's own rule is published as itself if and only if its own list can be compiled, with a set compiled from that list |
| `GeoResolve.PublishSites` | control/internal/engine/publisher.go:260-295 | end to end: every enabled site without a rule of its own is published with the global mode and a set of the global list when that list compiles, one with its own with that mode and a set of that very list when it does, and both as off otherwise |
| `Sorting.StableSortIsStable` | control/internal/engine/accessrules.go:70-75 | the cost sort keeps every condition, puts the cheapest first and keeps the operator's order among equals |
| `AccessRules.BuildAccessRules` | control/internal/engine/accessrules.go:34-84 | each published rule is one stored rule: its identity, name, action and site, and its conditions by field, operator and values, rearranged cheapest first; the published ones stand in the stored order and are exactly the enabled ones whose country lists all have a set |
| `AccessRules.SortedKeepsOrder` | control/internal/engine/accessrules.go:70-75 | conditions on the same field keep the order they are stored in |
| `AccessRules.PublishedMeansStored` | control/internal/engine/accessrules.go:34-84 | for every request and site, the first published rule that matches has the identity, name, action, site and conditions of the first stored rule that speaks when its country conditions are read off the reported country; where none speaks none matches |
| `AccessRules.PublishRules` | control/internal/engine/publisher.go:252-275 | the same for one whole publish, from resolving the lists to the rewritten rules, for all requests at once |
| `AccessRules.EmptyListNeverHolds` | control/internal/engine/accessrules.go:50-68 | skipping a rule whose country list has no addresses loses nothing: that condition holds for nobody |
| `AccessRules.RuleAgrees` | dataplane/lua/moswaf/accessrules.lua:130-145 | one published rule and one stored rule match the same requests, although the published conditions are in another order and point at sets |
| `NginxLex.Tokenize` | scripts/safeline-import.py:45-79 | the character loop computes the reader specification `Lex`: comments that do not end a word, quotes, escapes, an unclosed quote, an empty quoted word |
| `NginxLex.LayoutDoesNotMatter` | scripts/safeline-import.py:45-79 | for every text laid out from words, punctuation, blanks and comments, words spelled bare, quoted, escaped or pieced together, the tokens are the words and punctuation in order |
| `NginxSpelling.QuotedWordReads` | scripts/safeline-import.py:52-62 | any word at all, between quotes of either kind with that quote and the backslash escaped, reads back as that one word |
| `NginxSpelling.BareWordReads` | scripts/safeline-import.py:45-79 | a word of characters that are neither quotes, punctuation, the comment sign nor any of the twenty-nine blanks reads back as it stands |
| `NginxSpelling.DirectiveReads` | scripts/safeline-import.py:45-100 | a bare name, a blank, a word in quotes of either kind and a semicolon read as that directive |
| `NginxSpelling.OpenQuoteReads` | scripts/safeline-import.py:52-62 | a quote that is never closed takes the rest, and a backslash that ends the text stands for itself |
| `NginxSpelling.CommentReads` | scripts/safeline-import.py:49-51 | a comment, from its sign to the end of its line, is as good as nothing before what follows |
| `NginxConf.Parse` | scripts/safeline-import.py:82-100 | the recursive loop computes `ParseFrom` from any index |
| `NginxConf.ParseStops` | scripts/safeline-import.py:82-100 | parse returns one past the first `}` not matched since it began, or the length if there is none |
| `NginxConf.ReadToTheEnd` | scripts/safeline-import.py:82-100 | from the top everything is consumed if and only if no `}` but perhaps the last token is unmatched |
| `NginxSpelling.ReadIsCleaned` | scripts/safeline-import.py:82-100 | what is read of any tokens, tidy or not: the tree of those one pass with a depth counter lets stand - a `;` without words goes, words before a `}` or the end go, the first unmatched `}` ends it, open blocks are closed |
| `NginxConf.ParseFlatten` | scripts/safeline-import.py:82-100 | parsing the tokens of any printable tree gives the tree back and consumes them all |
| `NginxRoundTrip.AnyLayoutReadsBack` | scripts/safeline-import.py:45-100 | tokenize and parse give back any printable tree however it was laid out |
| `NginxRoundTrip.PrintThenRead` | scripts/safeline-import.py:45-100 | printing with quoted, escaped words and reading gives the tree back, for words of any characters, empty ones included |
| `NginxSpelling.SpeltTreeReads` | scripts/safeline-import.py:45-100 | the same with quotes of either kind and any blanks between the words |
| `NginxRoundTrip.ReadPrintRead` | scripts/safeline-import.py:45-100 | for every text at all, printing what was read and reading it again changes nothing |
| `NginxRoundTrip.UnprintableNeverRead` | scripts/safeline-import.py:45-100 | the excluded trees are never the result of reading anything |
| `NginxRoundTrip.NothingLostIff` | scripts/safeline-import.py:82-100 | reading keeps every token if and only if braces match, every `;` ends a word and no word is left over |
| `NginxWalk.WalkIsComplete` | scripts/safeline-import.py:103-110 | walk yields every block of the name, at any depth, exactly once, no place twice and in document order, each from the place it stands at |
| `CrawlerPrefix.MaskNeverMakesMapped` | control/internal/engine/crawlerlist.go:66-107 | masking never turns a range that was not mapped into one that is |
| `CrawlerPrefix.AskedTooLate` | control/internal/engine/crawlerlist.go:66-93 | asked after masking, a mapped range below 96 bits would no longer be recognised and would pass as ordinary IPv6 |
| `CrawlerPrefix.FoldMeans` | control/internal/engine/crawlerlist.go:77-81 | a mapped range of 96 bits or more holds mapped addresses only, exactly those whose IPv4 form is in the folded range |
| `CrawlerPrefix.AcceptedIff` | control/internal/engine/crawlerlist.go:96-127 | which ranges are accepted: at least 12 bits for IPv4, 108 for one in mapped form, 48 for IPv6 |
| `CrawlerBudget.RefusedBecause` | control/internal/engine/crawlerlist.go:96-127 | and why one is not: blank, unreadable, in mapped form with fewer than 96 bits, or too broad |
| `CrawlerPrefix.AcceptedMeans` | control/internal/engine/crawlerlist.go:96-127 | what is accepted is masked, never mapped, within its family's limit, and holds the addresses the published range holds |
| `CrawlerList.ValidateRanges` | control/internal/engine/crawlerlist.go:156-207 | the loop with its set and running totals computes `Validated`, which the next rows characterise |
| `CrawlerBudget.AcceptedListIff` | control/internal/engine/crawlerlist.go:156-207 | a list is accepted if and only if it has at most 4096 entries, offers an acceptable range at all, and the ranges offered, each counted once, are of at most 2^22 addresses and 2^20 /64s in all |
| `CrawlerBudget.RangesOffered` | control/internal/engine/crawlerlist.go:156-187 | and the ranges a list offers can always be told over, each once |
| `CrawlerBudget.ApartIsAcceptedIff` | control/internal/engine/crawlerlist.go:130-207 | so a list of IPv4 ranges that do not overlap is accepted if and only if it is no longer than that, offers one and covers at most 2^22 addresses |
| `CrawlerBudget.Ipv4SizeCounts` | control/internal/engine/crawlerlist.go:130-135 | the size of an IPv4 range is the number of addresses it holds |
| `CrawlerBudget.Ipv6SubnetsCounts` | control/internal/engine/crawlerlist.go:142-147 | the size of an IPv6 range of at most 64 bits is the number of /64s it reaches into |
| `CrawlerBudget.AcceptedListIs` | control/internal/engine/crawlerlist.go:156-207 | what comes out is the text of every range offered, once, in order |
| `CrawlerBudget.RejectedIs` | control/internal/engine/crawlerlist.go:172-178 | rejected are exactly the entries that offer no range, in the order they stand |
| `CrawlerList.OutputHoldsPublished` | control/internal/engine/crawlerlist.go:156-207 | the list that comes out holds exactly the addresses of the acceptable entries |
| `CrawlerList.CoversFewIPv4` | control/internal/engine/crawlerlist.go:130-207 | any set of IPv4 addresses an accepted list covers has at most 2^22 members |
| `CrawlerList.TouchesFewSubnets` | control/internal/engine/crawlerlist.go:137-207 | any set of IPv6 /64s it reaches into has at most 2^20 + 4096 members |
| `CrawlerList.TotalsAreExact` | control/internal/engine/crawlerlist.go:156-192 | after any number of entries the totals are at most 2^32, so the float64 sums are exact |
| `CrawlerList.OwnOutputUnchanged` | control/internal/engine/crawlerlist.go:156-207 | its own output given back comes out unchanged with nothing rejected |
| `LoginGuard.Blocked` | control/internal/api/auth.go:72-83 | the answer is positive exactly while a lockout runs, and is the whole seconds that are just enough to wait |
| `LoginRuns.HandleLogin` | control/internal/api/auth.go:215-238 | a client is turned away exactly while locked out; a wrong password adds one to its failures and locks it for 5 minutes from the fifth and 30 from the tenth, a right one clears its record, an unreadable request changes nothing, and no other record changes but for the one evicted; and all this is one run of the machine |
| `LoginGuard.Guard.Reap` | control/internal/api/auth.go:60-69 | the loop deletes exactly the records neither locked nor active within 30 minutes |
| `LoginGuard.ReapKeepsAnswers` | control/internal/api/auth.go:60-69 | reaping never changes what anyone is told from that moment on |
| `LoginGuard.Guard.Fail` | control/internal/api/auth.go:85-106 | a failure is counted on the key's record, or on a new one after making room at 50000; locks for 5 minutes at five and 30 at ten; no other record changes but for one evicted, than which none is older |
| `LoginGuard.Guard.EvictOldest` | control/internal/api/auth.go:109-120 | the scan, in whatever order the map is visited, removes what it picked and nothing else |
| `LoginGuard.PicksOldest` | control/internal/api/auth.go:109-120 | without the empty key it picks a record no other is older than |
| `LoginGuard.EvictionFailsIff` | control/internal/api/auth.go:109-120 | an eviction can come to nothing if and only if there is no record, or the one under the empty key is strictly the oldest |
| `LoginGuard.CeilingHolds` | control/internal/api/auth.go:85-120 | for non-empty keys a failure never takes the map past 50000 records |
| `LoginRuns.RecordsBounded` | control/internal/api/auth.go:85-120 | nor does any run |
| `LoginRuns.RunIsPaced` | control/internal/api/auth.go:60-126 | what every run keeps of one client: failures five apart are five minutes apart, failures ten apart thirty minutes |
| `LoginRuns.GuessingIsSlow` | control/internal/api/auth.go:215-238 | over every run, clients interleaving and the reaper running at will, a key that neither signs in nor is evicted gets at most 5 wrong passwords in any half-open five minutes and 10 in any thirty |
| `LoginRuns.AnswersAreSlow` | control/internal/api/auth.go:215-238 | the same by the answers alone: of any requests served one after another, with passes of the reaper, those that let a client's password be checked and found it wrong are at most 5 in any five minutes and 10 in any thirty, as long as it neither signs in nor is evicted |
| `LoginRuns.ReapServes` | control/internal/api/auth.go:60-69 | a pass of the reaper is one of the calls those runs are made of |
| `LoginRuns.LimitsAreReached` | control/internal/api/auth.go:85-106 | both limits are reached by a client that tries again as early as it may |
| `SessionToken.PayloadInjective` | control/internal/api/sitelogin.go:66-72 | the signed text determines site, user, generation and expiry, whatever the site id contains |
| `SessionToken.SessionGoodIff` | dataplane/lua/moswaf/auth.lua:101-129 | a session verifies if and only if it is on the site it was signed for, unexpired, its account listed and on its generation; otherwise the reason given is the first of these that fails |
| `SessionToken.AlteredIsRefused` | dataplane/lua/moswaf/auth.lua:101-129 | a signature carried over to any other site or field is refused |
| `SiteSessions.RunKeeps` | control/internal/store/store.go:161-174 | ids are never reused, sessions never run ahead of their account, configurations come into force in the order their accounts were read |
| `SiteSessions.NeverOlder` | control/internal/engine/publisher.go:207-209 | because publishes are serialised, a worker never returns to accounts read earlier |
| `SiteSessions.RevokedIsRevoked` | control/internal/store/siteusers.go:177-278 | after a password change, a revocation or a deletion, once a configuration read afterwards is in force on a worker, that worker never again accepts a session minted from an earlier read, in any continuation |
| `SiteSessions.RevocationTakesAPublish` | control/internal/store/siteusers.go:174-209 | from anywhere a run can be, a session is still taken right after the revocation and refused once the next publish is picked up |
| `SiteSessions.FreshAcceptsIff` | control/internal/engine/publisher.go:247-300 | and a worker with accounts just read accepts exactly the sessions of existing accounts at their current generation |
| `SiteSessions.VerifyIsAccepts` | dataplane/lua/moswaf/auth.lua:101-129 | the machine's notion of acceptance is what verifying the cookie computes |
| `AuthPaths.CleanPath` | control/internal/store/siteusers.go:70-107 | one entry through the trims, the cut, the refusals and the slash loop |
| `AuthTyping.CleanTyped` | control/internal/store/siteusers.go:70-107 | where an entry goes, by how it is typed: blanks, a path, a query or fragment, further blanks and one star; it goes nowhere when the path has an empty or a dot-dot segment or a line break or is over 256 long, else it is made absolute and loses its last slash |
| `AuthTyping.NameTyped` | control/internal/store/siteusers.go:70-107 | so a name of letters comes out as that path with or without its slashes, a query or a star: `admin`, `/admin?x` |
| `AuthTyping.AdminTyped` | control/internal/store/siteusers.go:70-107 | for one, `admin`, `/admin?x` and `/admin/*` are all `/admin` |
| `AuthTyping.BlankTyped` | control/internal/store/siteusers.go:70-77 | an entry of blanks, with or without a star among them, asks for nothing |
| `AuthTyping.ListIs` | control/internal/store/siteusers.go:65-127 | every list comes out as the whole site, which it does when one of its first 32 entries asks for it and only when some entry does or none can be used; or else as the first of each entry that can be used, case aside, in order, and all of them up to the thirty-second |
| `AuthPaths.CleanIsGood` | control/internal/store/siteusers.go:70-107 | what comes out is absolute, at most 256 long, without query, fragment, line break, empty or dot-dot segment or trailing slash |
| `AuthPaths.NormaliseAuthPaths` | control/internal/store/siteusers.go:65-127 | the loop with its set, early return and limit computes `Normalised` |
| `AuthPaths.ResultShape` | control/internal/store/siteusers.go:65-127 | 1 to 32 such paths, no two alike but for case, and the whole site listed alone |
| `GatePaths.IsGated` | dataplane/lua/moswaf/auth.lua:158-188 | the gate as written: sign-in, sign-out and certificate requests are exempt, an empty list is the whole site, an empty path is passed over, a path covers itself and what is below it, case aside |
| `GatePaths.CutMeans` | control/internal/store/siteusers.go:65-127 | which entries a pass reads: all of them up to the whole site or the limit, and those decide the result |
| `GatePaths.ProtectsWhatWasAsked` | control/internal/store/siteusers.go:65-127 | after one pass, for every list: a request that is not exempt is gated if and only if an entry that was read covers it, or none of those was usable |
| `GatePaths.CleanIgnoresCase` | control/internal/store/siteusers.go:70-107 | entries that differ in case only come out of a pass differing in case only |
| `GatePaths.PassesProtect` | control/internal/store/siteusers.go:54-127 | after any number of passes, for every list: gated if and only if an entry the first pass read covers the request in what the passes leave of it, or they leave nothing of any; only the first pass can cut a list |
| `GatePaths.PublishedProtects` | control/internal/store/sites.go:198 | for a list as typed, which is passed when validated, when stored (`sites.go:276`), when read back (`sites.go:77`) and when published (`publisher.go:303`) |
| `GatePaths.RowProtects` | control/internal/store/sites.go:77 | for a row as it stands in the table, which has the last two of those ahead of it |
| `AuthPaths.SecondPassIff` | control/internal/store/siteusers.go:65-127 | normalising again changes nothing if and only if no returned entry ends in a blank or a star |
| `AuthPaths.OneStarAPass` | control/internal/store/siteusers.go:70-76 | each pass takes one star: of an entry ending in m stars, k passes leave m - k or none; so the four passes between typing and publishing take four |
| `AuthPaths.OnePassIsNotEnough` | control/internal/store/siteusers.go:70-76 | `/a**` shows that one pass is not idempotent |

## Left out

- KbanAgent.Board.PublishState: a Redis pipeline is applied whole or not at all, and key expiry is one step that clears the applied hash, without separate lifetimes.
- KbanAgent.Nftables.Add: a failed kernel call is taken to have changed nothing, and the kernel's own timeout is a step that may happen at any time, not a countdown.
- KbanAgent.Agent.Reconcile: one cycle undisturbed by events, expiry and the clock moving back; interleaved cycles are the machine's business. Dry-run mode and the `maxElements` limit, which the code does not use, are absent.
- GeoTable.ParseCSV: lines arrive split; the scanner's limit on the length of one line, gzip, the download and its schedule are absent.
- GeoResolve.OwnRuleIsOwn: states nothing when some list asked for has an empty entry or one with a comma in it, which the store refuses; with such entries keys collide and a site could be given another list's set.
- AccessRules.PublishedMeansStored: what a request is to a condition on anything but its country is a parameter, the same before and after, so the tests of method, path, host, agent, address and crawler are not modelled.
- AccessRules.PublishRules: the dataset does not change between the lists of one publish; the code takes its lock once per list.
- NginxConf.Parse: Python's recursion limit, which very deep nesting would meet.
- NginxWalk.WalkIsComplete: `walk` is modelled as the list it would yield in full, not as a generator stopped part way; `directives` and the choice of a proxy_pass are easy readings of one level.
- CrawlerList.ValidateRanges: rejected entries are returned as they were written, without the wording of the refusal, and float64 totals are naturals, which TotalsAreExact justifies.
- LoginGuard.Guard.Fail: one clock reading serves for both times the method takes.
- LoginRuns.AnswersAreSlow: requests served one after another; requests of different clients that overlap in time are those of GuessingIsSlow.
- LoginRuns.GuessingIsSlow: one key's attempts follow one another; requests in parallel between the check and the count are not covered.
- SessionToken.SessionGoodIff: the keyed hash is an injective function of the text; generations and ids are written in decimal without the loss a floating-point number would bring beyond 2^53.
- SiteSessions.RevokedIsRevoked: a Redis write takes effect while the publisher holds its mutex or not at all; whether the gate of a site without accounts is published as on is not part of the machine.
- SiteSessions: the store, the publisher and the workers are steps of one machine on values rather than objects, since what matters is how they interleave.
- GatePaths.PublishedProtects: the field checks that run beside the passes, and may refuse the site, are not modelled.
- AuthPaths.Clean: text is ASCII, so one character is one byte and lower case is that of ASCII letters; blanks are those of Latin-1.
- Redis, Postgres, HTTP, JSON, nft, bcrypt, HMAC and X.509 themselves; nginx templates and file writing; the dashboard, its handlers and field validators; statistics and certificate scheduling; the rest of the Lua data plane.
