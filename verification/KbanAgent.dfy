/** The agent as the program has it: objects updated in place. Each method is tied to the
    interleaving machine, of which an undisturbed call is one particular run. */
module KbanAgent {
  import opened Wrappers
  import opened NetAddr
  import opened NeverDrop
  import opened KbanMachine
  import opened KbanRuns
  import opened KbanSafety
  import opened KbanCalls

  /** tombstone.go. */
  class Tombstones {
    var upto: map<Addr, nat>

    constructor ()
      ensures upto == map[]
    {
      upto := map[];
    }

    method Mark(a: Addr, hold: nat, now: nat)
      modifies this
      ensures upto == old(upto)[a := now + hold]
    {
      upto := upto[a := now + hold];
    }

    method Clear(a: Addr)
      modifies this
      ensures upto == old(upto) - {a}
    {
      upto := upto - {a};
    }

    predicate IsHeld(a: Addr, now: nat)
      reads this
    {
      a in upto && now < upto[a]
    }

    method Prune(now: nat)
      modifies this
      ensures upto == Pruned(old(upto), now)
      ensures forall a :: a in upto <==> a in old(upto) && now < old(upto)[a]
      ensures forall a :: a in upto ==> upto[a] == old(upto)[a]
      ensures forall a :: IsHeld(a, now) <==> Held(old(upto), a, now)
    {
      var todo := upto.Keys;
      while todo != {}
        invariant todo <= upto.Keys <= old(upto).Keys
        invariant forall a :: a in upto ==> upto[a] == old(upto)[a]
        invariant forall a :: a in old(upto) && a !in todo ==> (a in upto <==> now < old(upto)[a])
        decreases todo
      {
        var a :| a in todo;
        if !(now < upto[a]) {
          upto := upto - {a};
        }
        todo := todo - {a};
      }
    }
  }

  /** A command given to the kernel, and whether it succeeded. */
  datatype Command =
    | Added(addr: Addr, ttl: int, ok: bool)
    | Removed(addr: Addr, ok: bool)
    | Flushed(four: bool, ok: bool)
    | Listed(four: bool, ok: bool)

  /** nftables.go: every command may fail, and a failed one changes nothing. How the commands turn out
      is settled beforehand, one answer for each in turn. */
  class Nftables {
    const answers: nat -> bool
    var elems: set<Addr>
    var ran: seq<Command>

    constructor (answers: nat -> bool)
      ensures this.answers == answers && elems == {} && ran == []
    {
      this.answers, elems, ran := answers, {}, [];
    }

    method Add(a: Addr, ttl: int) returns (ok: bool)
      modifies this
      ensures ttl <= 0 ==> ok && ran == old(ran) && elems == old(elems)
      ensures ttl > 0 ==> ok == answers(|old(ran)|) && ran == old(ran) + [Added(a, ttl, ok)]
      ensures ttl > 0 ==> elems == if ok then old(elems) + {a} else old(elems)
    {
      if ttl <= 0 {
        return true;
      }
      ok := answers(|ran|);
      ran := ran + [Added(a, ttl, ok)];
      if ok {
        elems := elems + {a};
      }
    }

    method Remove(a: Addr) returns (ok: bool)
      modifies this
      ensures ok == answers(|old(ran)|) && ran == old(ran) + [Removed(a, ok)]
      ensures elems == if ok then old(elems) - {a} else old(elems)
    {
      ok := answers(|ran|);
      ran := ran + [Removed(a, ok)];
      if ok {
        elems := elems - {a};
      }
    }

    /** The two sets are flushed one after the other, so a failure can leave half. */
    method Flush() returns (first: bool, second: bool)
      modifies this
      ensures first == answers(|old(ran)|) && second == (first && answers(|old(ran)| + 1))
      ensures ran == old(ran) + [Flushed(true, first)] + if first then [Flushed(false, second)] else []
      ensures forall a :: a in elems <==> a in old(elems) && !(first && a.V4?) && !(second && a.V6?)
    {
      first, second := answers(|ran|), false;
      ran := ran + [Flushed(true, first)];
      if first {
        elems := FamilyOf(elems, false);
        second := answers(|ran|);
        ran := ran + [Flushed(false, second)];
        if second {
          elems := FamilyOf(elems, true);
        }
      }
    }

    /** Both sets, or nothing at all. */
    method List() returns (r: Option<set<Addr>>)
      modifies this`ran
      ensures r.Some? <==> answers(|old(ran)|) && answers(|old(ran)| + 1)
      ensures r.Some? ==> r.value == elems
      ensures ran == old(ran) + [Listed(true, answers(|old(ran)|))] +
                     if answers(|old(ran)|) then [Listed(false, r.Some?)] else []
    {
      var first := answers(|ran|);
      ran := ran + [Listed(true, first)];
      if !first {
        return None;
      }
      var second := answers(|ran|);
      ran := ran + [Listed(false, second)];
      if !second {
        return None;
      }
      assert FamilyOf(elems, true) + FamilyOf(elems, false) == elems;
      return Some(FamilyOf(elems, true) + FamilyOf(elems, false));
    }
  }

  /** publish.go: the shared hashes. A request that fails changes nothing; how the requests turn out is
      settled beforehand, one answer for each in turn. */
  class Board {
    const answers: nat -> bool
    var asked: nat
    var applied: map<Addr, nat>
    var refused: map<Addr, Prefix>
    var orphans: seq<Addr>
    var health: Option<int>

    constructor (answers: nat -> bool)
      ensures this.answers == answers && asked == 0
      ensures applied == map[] && refused == map[] && orphans == [] && health == None
    {
      this.answers, asked := answers, 0;
      applied, refused, orphans, health := map[], map[], [], None;
    }

    method NoteApplied(a: Addr, now: nat) returns (ok: bool)
      modifies this
      ensures ok == answers(old(asked)) && asked == old(asked) + 1
      ensures health == old(health) && orphans == old(orphans)
      ensures !ok ==> applied == old(applied) && refused == old(refused)
      ensures ok ==> applied == if a in old(applied) then old(applied) else old(applied)[a := now]
      ensures ok ==> refused == old(refused) - {a}
    {
      ok, asked := answers(asked), asked + 1;
      if ok {
        if a !in applied {
          applied := applied[a := now];
        }
        refused := refused - {a};
      }
    }

    method NoteRefused(a: Addr, why: Prefix) returns (ok: bool)
      modifies this
      ensures ok == answers(old(asked)) && asked == old(asked) + 1
      ensures health == old(health) && orphans == old(orphans)
      ensures !ok ==> applied == old(applied) && refused == old(refused)
      ensures ok ==> applied == old(applied) - {a} && refused == old(refused)[a := why]
    {
      ok, asked := answers(asked), asked + 1;
      if ok {
        refused := refused[a := why];
        applied := applied - {a};
      }
    }

    method Forget(a: Addr) returns (ok: bool)
      modifies this
      ensures ok == answers(old(asked)) && asked == old(asked) + 1
      ensures health == old(health) && orphans == old(orphans)
      ensures !ok ==> applied == old(applied) && refused == old(refused)
      ensures ok ==> applied == old(applied) - {a} && refused == old(refused) - {a}
    {
      ok, asked := answers(asked), asked + 1;
      if ok {
        applied := applied - {a};
        refused := refused - {a};
      }
    }

    method ForgetAll() returns (ok: bool)
      modifies this
      ensures ok == answers(old(asked)) && asked == old(asked) + 1
      ensures health == old(health)
      ensures ok ==> applied == map[] && refused == map[] && orphans == []
      ensures !ok ==> applied == old(applied) && refused == old(refused) && orphans == old(orphans)
    {
      ok, asked := answers(asked), asked + 1;
      if ok {
        applied, refused, orphans := map[], map[], [];
      }
    }

    /** The applied hash is rebuilt under a scratch key from the old stamps, then renamed. */
    method PublishState(have: set<Addr>, listing: seq<Addr>, now: nat) returns (read: bool, ok: bool)
      modifies this
      ensures read == answers(old(asked)) && ok == answers(old(asked) + 1) && asked == old(asked) + 2
      ensures health == old(health) && refused == old(refused)
      ensures !ok ==> applied == old(applied) && orphans == old(orphans)
      ensures ok ==> applied == Since(have, Earlier(old(applied), read), now) && orphans == First100(listing)
      ensures ok ==> applied.Keys == have && orphans == if |listing| > 100 then listing[..100] else listing
      ensures ok ==> forall a :: a in have ==> applied[a] == if read && a in old(applied) then old(applied)[a] else now
    {
      read, asked := answers(asked), asked + 1;
      var prev := Earlier(applied, read);
      var scratch: map<Addr, nat> := map[];
      var todo := have;
      while todo != {}
        invariant todo <= have && scratch == Since(have - todo, prev, now)
        decreases todo
      {
        var a :| a in todo;
        scratch := scratch[a := if a in prev then prev[a] else now];
        todo := todo - {a};
        assert have - todo == (have - (todo + {a})) + {a};
      }
      ok, asked := answers(asked), asked + 1;
      if ok {
        assert have - {} == have;
        applied := scratch;
        orphans := if |listing| > ORPHAN_REPORT then listing[..ORPHAN_REPORT] else listing;
      }
    }

    method ReportHealth(count: int) returns (ok: bool)
      modifies this
      ensures ok == answers(old(asked)) && asked == old(asked) + 1
      ensures applied == old(applied) && refused == old(refused) && orphans == old(orphans)
      ensures health == if ok then Some(count) else old(health)
    {
      ok, asked := answers(asked), asked + 1;
      if ok {
        health := Some(count);
      }
    }
  }

  // -------------------------------------------------------------- the work of a cycle

  /** One addition was tried for each of these addresses, with its time, and turned out as answered. */
  ghost predicate AddsEach(work: seq<Command>, want: map<Addr, int>, from: nat, answers: nat -> bool) {
    AddsSome(work, want, {}, from, answers)
  }

  ghost predicate AddsSome(work: seq<Command>, want: map<Addr, int>, todo: set<Addr>, from: nat, answers: nat -> bool) {
    (forall k :: 0 <= k < |work| ==> work[k].Added? && work[k].addr in want && work[k].addr !in todo) &&
    (forall k :: 0 <= k < |work| ==> work[k].Added? && work[k].addr in want && work[k].ttl == want[work[k].addr]) &&
    (forall k :: 0 <= k < |work| ==> work[k].ok == answers(from + k)) &&
    (forall j, k :: 0 <= j < k < |work| ==> work[j].addr != work[k].addr) &&
    forall a :: a in want && a !in todo ==> exists k :: 0 <= k < |work| && work[k].addr == a
  }

  lemma AddsOneMore(work: seq<Command>, want: map<Addr, int>, todo: set<Addr>, from: nat, answers: nat -> bool, a: Addr, ok: bool)
    requires AddsSome(work, want, todo, from, answers) && a in todo && a in want && ok == answers(from + |work|)
    ensures AddsSome(work + [Added(a, want[a], ok)], want, todo - {a}, from, answers)
  {
    var more := work + [Added(a, want[a], ok)];
    forall b | b in want && b !in todo - {a}
      ensures exists k :: 0 <= k < |more| && more[k].addr == b
    {
      if b == a {
        assert more[|work|].addr == b;
      } else {
        var k :| 0 <= k < |work| && work[k].addr == b;
        assert more[k].addr == b;
      }
    }
  }

  /** One removal was tried for each of these addresses, and turned out as answered. */
  ghost predicate RemovesEach(work: seq<Command>, gone: set<Addr>, from: nat, answers: nat -> bool) {
    (forall k :: 0 <= k < |work| ==> work[k].Removed? && work[k].addr in gone && work[k].ok == answers(from + k)) &&
    (forall j, k :: 0 <= j < k < |work| ==> work[j].addr != work[k].addr) &&
    forall a :: a in gone ==> exists k :: 0 <= k < |work| && work[k].addr == a
  }

  lemma RemovesOneMore(work: seq<Command>, gone: set<Addr>, from: nat, answers: nat -> bool, a: Addr, ok: bool)
    requires RemovesEach(work, gone, from, answers) && a !in gone && ok == answers(from + |work|)
    ensures RemovesEach(work + [Removed(a, ok)], gone + {a}, from, answers)
  {
    var more := work + [Removed(a, ok)];
    forall b | b in gone + {a}
      ensures exists k :: 0 <= k < |more| && more[k].addr == b
    {
      if b == a {
        assert more[|work|].addr == b;
      } else {
        var k :| 0 <= k < |work| && work[k].addr == b;
        assert more[k].addr == b;
      }
    }
  }

  /** Row `i` is the last that names the address, in either spelling, with time left. */
  predicate LastNames(rows: seq<BanRow>, i: int, a: Addr) {
    0 <= i < |rows| && rows[i].ip.Some? && rows[i].ip.value.Unmap() == a && rows[i].ttl > 0 &&
    forall j :: i < j < |rows| ==> !(rows[j].ip.Some? && rows[j].ip.value.Unmap() == a && rows[j].ttl > 0)
  }

  /** Neither protected nor under a note. */
  ghost predicate Free(never: seq<Prefix>, notes: map<Addr, nat>, now: nat, a: Addr)
    requires AllValid(never)
  {
    !Covered(never, a) && !(a in notes && now < notes[a])
  }

  /** Some row names the address, with time left, and nothing speaks for it. */
  ghost predicate Banned(never: seq<Prefix>, notes: map<Addr, nat>, now: nat, rows: seq<BanRow>, a: Addr)
    requires AllValid(never)
  {
    Free(never, notes, now, a) && exists i :: LastNames(rows, i, a)
  }

  lemma WantIs(c: Config, notes: map<Addr, nat>, now: nat, rows: seq<BanRow>, a: Addr)
    requires c.Valid()
    ensures var w := Desired(c, notes, now, rows, map[]);
            (a in w <==> Banned(c.never, notes, now, rows, a)) &&
            forall i :: LastNames(rows, i, a) && a in w ==> w[a] == rows[i].ttl
  {
    DesiredMeans(c, notes, now, rows, map[], a);
    forall i
      ensures LastFor(c, notes, now, rows, a, i) <==> LastNames(rows, i, a) && Free(c.never, notes, now, a)
    {
      forall j | 0 <= j < |rows|
        ensures AdmitsFor(c, notes, now, rows[j], a) <==>
                rows[j].ip.Some? && rows[j].ip.value.Unmap() == a && rows[j].ttl > 0 && Free(c.never, notes, now, a)
      {
      }
    }
    if i :| 0 <= i < |rows| && AdmitsFor(c, notes, now, rows[i], a) {
      var k :| LastFor(c, notes, now, rows, a, k);
      assert LastNames(rows, k, a);
    }
  }

  /** The additions of a cycle that began with `n` commands run: every banned address is handed to the
      kernel with the time its last row gives, and is in the kernel afterwards if that worked; and
      nothing else is handed to it, nor anything twice. */
  ghost predicate AddsTheBanned(never: seq<Prefix>, notes: map<Addr, nat>, now: nat, rows: seq<BanRow>,
                                adds: seq<Command>, n: nat, answers: nat -> bool, after: set<Addr>)
    requires AllValid(never)
  {
    (forall i, a :: LastNames(rows, i, a) && Free(never, notes, now, a) ==>
       exists k :: 0 <= k < |adds| && adds[k] == Added(a, rows[i].ttl, answers(n + k)) && (answers(n + k) ==> a in after)) &&
    (forall k :: 0 <= k < |adds| ==> adds[k].Added? && Banned(never, notes, now, rows, adds[k].addr)) &&
    forall j, k :: 0 <= j < k < |adds| ==> adds[j].addr != adds[k].addr
  }

  /** Its removals: every address the kernel was found to hold that is not banned is taken out, and is
      gone exactly if that worked; and nothing else is taken out. */
  ghost predicate RemovesTheRest(never: seq<Prefix>, notes: map<Addr, nat>, now: nat, rows: seq<BanRow>, was: set<Addr>,
                                 removes: seq<Command>, n: nat, answers: nat -> bool, after: set<Addr>)
    requires AllValid(never)
  {
    (forall a :: a in was && !Banned(never, notes, now, rows, a) ==>
       exists k :: 0 <= k < |removes| && removes[k] == Removed(a, answers(n + k)) && (answers(n + k) <==> a !in after)) &&
    (forall k :: 0 <= k < |removes| ==>
       removes[k].Removed? && removes[k].addr in was && !Banned(never, notes, now, rows, removes[k].addr)) &&
    forall j, k :: 0 <= j < k < |removes| ==> removes[j].addr != removes[k].addr
  }

  /** And nothing comes or goes otherwise. */
  ghost predicate NothingElse(never: seq<Prefix>, notes: map<Addr, nat>, now: nat, rows: seq<BanRow>, was: set<Addr>,
                              adds: seq<Command>, after: set<Addr>)
    requires AllValid(never)
  {
    (forall a :: a in was && Banned(never, notes, now, rows, a) ==> a in after) &&
    forall a :: a in after && a !in was ==> exists k :: 0 <= k < |adds| && adds[k].Added? && adds[k].addr == a && adds[k].ok
  }

  lemma AddsAreTheBanned(c: Config, notes: map<Addr, nat>, now: nat, rows: seq<BanRow>, want: map<Addr, int>,
                         adds: seq<Command>, n: nat, answers: nat -> bool, after: set<Addr>)
    requires c.Valid() && want == Desired(c, notes, now, rows, map[]) && AddsEach(adds, want, n, answers)
    requires forall k :: 0 <= k < |adds| && adds[k].ok ==> adds[k].addr in after
    ensures AddsTheBanned(c.never, notes, now, rows, adds, n, answers, after)
  {
    forall i, a | LastNames(rows, i, a) && Free(c.never, notes, now, a)
      ensures exists k :: 0 <= k < |adds| && adds[k] == Added(a, rows[i].ttl, answers(n + k)) && (answers(n + k) ==> a in after)
    {
      WantIs(c, notes, now, rows, a);
      var k :| 0 <= k < |adds| && adds[k].addr == a;
      assert adds[k] == Added(a, rows[i].ttl, answers(n + k));
    }
    forall k | 0 <= k < |adds|
      ensures Banned(c.never, notes, now, rows, adds[k].addr)
    {
      WantIs(c, notes, now, rows, adds[k].addr);
    }
  }

  lemma RemovesAreTheRest(c: Config, notes: map<Addr, nat>, now: nat, rows: seq<BanRow>, want: map<Addr, int>, was: set<Addr>,
                          removes: seq<Command>, n: nat, answers: nat -> bool, after: set<Addr>)
    requires c.Valid() && want == Desired(c, notes, now, rows, map[]) && RemovesEach(removes, was - want.Keys, n, answers)
    requires forall k :: 0 <= k < |removes| ==> (removes[k].ok <==> removes[k].addr !in after)
    ensures RemovesTheRest(c.never, notes, now, rows, was, removes, n, answers, after)
  {
    forall a | a in was && !Banned(c.never, notes, now, rows, a)
      ensures exists k :: 0 <= k < |removes| && removes[k] == Removed(a, answers(n + k)) && (answers(n + k) <==> a !in after)
    {
      WantIs(c, notes, now, rows, a);
      assert a in was - want.Keys;
      var k :| 0 <= k < |removes| && removes[k].addr == a;
      assert removes[k] == Removed(a, answers(n + k));
    }
    forall k | 0 <= k < |removes|
      ensures !Banned(c.never, notes, now, rows, removes[k].addr)
    {
      WantIs(c, notes, now, rows, removes[k].addr);
    }
  }

  lemma WorkIsAll(c: Config, notes: map<Addr, nat>, now: nat, rows: seq<BanRow>, want: map<Addr, int>, was: set<Addr>,
                  adds: seq<Command>, n: nat, answers: nat -> bool, failed: set<Addr>, kept: set<Addr>, after: set<Addr>)
    requires c.Valid() && want == Desired(c, notes, now, rows, map[]) && AddsEach(adds, want, n, answers)
    requires forall k :: 0 <= k < |adds| ==> (adds[k].addr in failed <==> !adds[k].ok)
    requires after == was + (want.Keys - failed) - (was - want.Keys - kept)
    ensures NothingElse(c.never, notes, now, rows, was, adds, after)
  {
    forall a | a in was && Banned(c.never, notes, now, rows, a)
      ensures a in after
    {
      WantIs(c, notes, now, rows, a);
    }
    forall a | a in after && a !in was
      ensures exists k :: 0 <= k < |adds| && adds[k].Added? && adds[k].addr == a && adds[k].ok
    {
      var k :| 0 <= k < |adds| && adds[k].addr == a;
    }
  }

  /** What is published once the kernel holds `kernel`: all of it, each address with the stamp it had,
      if those could be read, or else the time of the publish. */
  ghost predicate TellsOf(kernel: set<Addr>, before: map<Addr, nat>, stamps: bool, later: nat, applied: map<Addr, nat>) {
    applied.Keys == kernel &&
    forall a :: a in kernel ==> applied[a] == if stamps && a in before then before[a] else later
  }

  /** The addresses shown as still dropped are held by the kernel and not banned, each is shown once,
      and they are all of those there are, up to a hundred. */
  ghost predicate ShowsLeft(never: seq<Prefix>, notes: map<Addr, nat>, now: nat, rows: seq<BanRow>, kernel: set<Addr>,
                            orphans: seq<Addr>)
    requires AllValid(never)
  {
    (forall a :: a in orphans ==> a in kernel && !Banned(never, notes, now, rows, a)) &&
    (forall i, j :: 0 <= i < j < |orphans| ==> orphans[i] != orphans[j]) && |orphans| <= 100 &&
    (|orphans| < 100 ==> forall a :: a in kernel && !Banned(never, notes, now, rows, a) ==> a in orphans)
  }

  lemma LeftIsShown(c: Config, notes: map<Addr, nat>, now: nat, rows: seq<BanRow>, want: map<Addr, int>, kernel: set<Addr>,
                    listing: seq<Addr>)
    requires c.Valid() && want == Desired(c, notes, now, rows, map[]) && Enumerates(listing, kernel - want.Keys)
    ensures ShowsLeft(c.never, notes, now, rows, kernel, First100(listing))
  {
    forall a
      ensures a in want <==> Banned(c.never, notes, now, rows, a)
    {
      WantIs(c, notes, now, rows, a);
    }
    assert forall a :: a in kernel - want.Keys <==> a in kernel && !Banned(c.never, notes, now, rows, a);
  }

  lemma PruningKeepsShown(never: seq<Prefix>, notes: map<Addr, nat>, pruned: map<Addr, nat>, now: nat, rows: seq<BanRow>,
                          kernel: set<Addr>, orphans: seq<Addr>)
    requires AllValid(never) && pruned == Pruned(notes, now) && ShowsLeft(never, pruned, now, rows, kernel, orphans)
    ensures ShowsLeft(never, notes, now, rows, kernel, orphans)
  {
    assert forall a :: Free(never, pruned, now, a) <==> Free(never, notes, now, a);
    assert forall a :: Banned(never, pruned, now, rows, a) <==> Banned(never, notes, now, rows, a);
  }

  /** Notes that have run out do not matter. */
  lemma PruningKeepsWork(never: seq<Prefix>, notes: map<Addr, nat>, pruned: map<Addr, nat>, now: nat, rows: seq<BanRow>,
                         was: set<Addr>, adds: seq<Command>, removes: seq<Command>, n: nat, answers: nat -> bool, after: set<Addr>)
    requires AllValid(never) && pruned == Pruned(notes, now)
    requires Worked(never, pruned, now, rows, was, adds, removes, n, answers, after)
    ensures Worked(never, notes, now, rows, was, adds, removes, n, answers, after)
  {
    assert forall a :: Free(never, pruned, now, a) <==> Free(never, notes, now, a);
    assert forall a :: Banned(never, pruned, now, rows, a) <==> Banned(never, notes, now, rows, a);
  }

  // ------------------------------------------------------------ a cycle, as its calls go

  /** The kernel's side at one moment, and the board's. */
  datatype Kernel = Kernel(elems: set<Addr>, ran: seq<Command>)
  datatype Shown =
    Shown(asked: nat, applied: map<Addr, nat>, refused: map<Addr, Prefix>, orphans: seq<Addr>, health: Option<int>)

  /** The board is told that the cycle could not be done, and nothing else. */
  predicate SaysUnable(was: Shown, answers: nat -> bool, board: Shown) {
    board == was.(asked := was.asked + 1, health := if answers(was.asked) then Some(-1) else was.health)
  }

  /** Reading the kernel was tried and failed, and nothing else was. */
  predicate NotRead(was: Kernel, answers: nat -> bool, kernel: Kernel) {
    kernel.elems == was.elems &&
    kernel.ran == was.ran + [Listed(true, answers(|was.ran|))] + if answers(|was.ran|) then [Listed(false, false)] else []
  }

  /** All that was run in a cycle: the two sets listed, the additions, the removals, and the two sets
      listed again, as far as that worked. */
  predicate RanAll(was: seq<Command>, adds: seq<Command>, removes: seq<Command>, answers: nat -> bool, readBack: bool,
                   ran: seq<Command>)
  {
    RanOn(was + [Listed(true, true)] + [Listed(false, true)], adds, removes, answers, readBack, ran)
  }

  predicate RanOn(was: seq<Command>, adds: seq<Command>, removes: seq<Command>, answers: nat -> bool, readBack: bool,
                  ran: seq<Command>)
  {
    var work := was + adds + removes;
    readBack == (answers(|work|) && answers(|work| + 1)) &&
    ran == work + [Listed(true, answers(|work|))] + if answers(|work|) then [Listed(false, readBack)] else []
  }

  /** The work of a cycle whose additions began with command `n`. */
  ghost predicate Worked(never: seq<Prefix>, notes: map<Addr, nat>, now: nat, rows: seq<BanRow>, was: set<Addr>,
                         adds: seq<Command>, removes: seq<Command>, n: nat, answers: nat -> bool, after: set<Addr>)
    requires AllValid(never)
  {
    AddsTheBanned(never, notes, now, rows, adds, n, answers, after) &&
    RemovesTheRest(never, notes, now, rows, was, removes, n + |adds|, answers, after) &&
    NothingElse(never, notes, now, rows, was, adds, after)
  }

  lemma WorkIsDone(c: Config, notes: map<Addr, nat>, now: nat, rows: seq<BanRow>, want: map<Addr, int>, was: set<Addr>,
                   adds: seq<Command>, removes: seq<Command>, n: nat, answers: nat -> bool, failed: set<Addr>, kept: set<Addr>,
                   after: set<Addr>)
    requires c.Valid() && want == Desired(c, notes, now, rows, map[]) && failed <= want.Keys && kept <= was - want.Keys
    requires AddsEach(adds, want, n, answers) && RemovesEach(removes, was - want.Keys, n + |adds|, answers)
    requires forall k :: 0 <= k < |adds| ==> (adds[k].addr in failed <==> !adds[k].ok)
    requires forall k :: 0 <= k < |removes| ==> (removes[k].addr in kept <==> !removes[k].ok)
    requires after == was + (want.Keys - failed) - (was - want.Keys - kept)
    ensures Worked(c.never, notes, now, rows, was, adds, removes, n, answers, after)
  {
    AddsAreTheBanned(c, notes, now, rows, want, adds, n, answers, after);
    RemovesAreTheRest(c, notes, now, rows, want, was, removes, n + |adds|, answers, after);
    WorkIsAll(c, notes, now, rows, want, was, adds, n, answers, failed, kept, after);
  }

  /** What the board is told of the kernel: what it holds, if it could be read back and the publish
      went through; and the number of addresses, or that they could not be read. */
  ghost predicate Told(never: seq<Prefix>, notes: map<Addr, nat>, now: nat, rows: seq<BanRow>, calls: Calls, kernel: set<Addr>,
                       later: nat, was: Shown, answers: nat -> bool, board: Shown)
    requires AllValid(never)
  {
    Answered(calls, answers, was.asked) && board.asked == was.asked + (if calls.readBack then 3 else 1) &&
    board.refused == was.refused &&
    board.health == (if calls.reported then Some(if calls.readBack then |kernel| else -1) else was.health) &&
    if calls.readBack && calls.published then
      TellsOf(kernel, was.applied, calls.stamps, later, board.applied) && ShowsLeft(never, notes, now, rows, kernel, board.orphans)
    else board.applied == was.applied && board.orphans == was.orphans
  }

  /** The stamps, the publish and the report, or the report alone, turned out as answered. */
  predicate Answered(calls: Calls, answers: nat -> bool, from: nat) {
    if calls.readBack then
      calls.stamps == answers(from) && calls.published == answers(from + 1) && calls.reported == answers(from + 2)
    else calls.reported == answers(from)
  }

  /** What the machine's state after the cycle comes down to. */
  ghost predicate ComesTo(calls: Calls, want: set<Addr>, was: set<Addr>, kernel: set<Addr>, later: nat, before: Shown, board: Shown)
  {
    kernel == KernelAfter(was, want, calls) && board.refused == before.refused &&
    (calls.readBack ==> Enumerates(calls.listing, kernel - want)) &&
    board.health == (if calls.reported then Some(if calls.readBack then |kernel| else -1) else before.health) &&
    if calls.readBack && calls.published then
      board.applied == Since(kernel, Earlier(before.applied, calls.stamps), later) && board.orphans == First100(calls.listing)
    else board.applied == before.applied && board.orphans == before.orphans
  }

  lemma PruningKeepsTold(never: seq<Prefix>, notes: map<Addr, nat>, pruned: map<Addr, nat>, now: nat, rows: seq<BanRow>,
                         calls: Calls, kernel: set<Addr>, later: nat, was: Shown, answers: nat -> bool, board: Shown)
    requires AllValid(never) && pruned == Pruned(notes, now)
    requires Told(never, pruned, now, rows, calls, kernel, later, was, answers, board)
    ensures Told(never, notes, now, rows, calls, kernel, later, was, answers, board)
  {
    if calls.readBack && calls.published {
      PruningKeepsShown(never, notes, pruned, now, rows, kernel, board.orphans);
    }
  }

  lemma ComesToAfterCycle(c: Config, s: State, calls: Calls, later: nat, before: Shown, board: Shown, t: State)
    requires c.Valid() && calls.bans.Some? && calls.listed && ComesTo(calls, WantedBy(c, s, calls).Keys, s.kernel, t.kernel, later, before, board)
    requires before.applied == s.applied && before.refused == s.refused && before.orphans == s.orphans && before.health == s.health
    requires t == State(later, t.kernel, Pruned(s.notes, s.clock), board.applied, board.refused, board.orphans, board.health,
                        s.feed, s.rec)
    ensures t == AfterCycle(c, s, calls, later)
  {
  }

  lemma MarkedNothing(notes: map<Addr, nat>, until: nat)
    ensures MarkedAll(notes, {}, until) == notes
  {
  }

  lemma AfterFlush(was: set<Addr>, left: set<Addr>, flush4: bool, flush6: bool)
    requires forall a :: a in left <==> a in was && !(flush4 && a.V4?) && !(flush6 && a.V6?)
    requires flush6 ==> flush4
    ensures left == if flush6 then {} else if flush4 then FamilyOf(was, false) else was
  {
  }

  lemma AfterReleaseAllIs(c: Config, s: State, listed: bool, flush4: bool, flush6: bool, forgot: bool, t: State)
    requires c.Valid() && (flush6 ==> flush4) && (forgot ==> flush6)
    requires t.clock == s.clock && t.health == s.health && t.feed == s.feed && t.rec == s.rec
    requires forall a :: a in t.kernel <==> a in s.kernel && !(flush4 && a.V4?) && !(flush6 && a.V6?)
    requires t.notes == if flush6 then MarkedAll(s.notes, if listed then s.kernel else {}, s.clock + c.Hold()) else s.notes
    requires if forgot then t.applied == map[] && t.refused == map[] && t.orphans == []
             else t.applied == s.applied && t.refused == s.refused && t.orphans == s.orphans
    ensures t == AfterReleaseAll(c, s, listed, flush4, flush6, forgot)
  {
    AfterFlush(s.kernel, t.kernel, flush4, flush6);
  }

  class Agent {
    const cfg: Config
    const never: NeverDropList
    const nft: Nftables
    const just: Tombstones
    const board: Board

    constructor (cfg: Config, never: NeverDropList, nft: Nftables, just: Tombstones, board: Board)
      ensures this.cfg == cfg && this.never == never && this.nft == nft && this.just == just && this.board == board
    {
      this.cfg, this.never, this.nft, this.just, this.board := cfg, never, nft, just, board;
    }

    ghost predicate Valid()
      reads this, never
    {
      cfg.Valid() && never.Valid() && never.prefixes == cfg.never
    }

    /** The machine state this object is in while neither actor is in the middle of anything. */
    ghost function View(clock: nat): State
      reads nft, just, board
    {
      State(clock, nft.elems, just.upto, board.applied, board.refused, board.orphans, board.health, Waiting, Idle)
    }

    ghost function Nft(): Kernel
      reads nft
    {
      Kernel(nft.elems, nft.ran)
    }

    ghost function Seen(): Shown
      reads board
    {
      Shown(board.asked, board.applied, board.refused, board.orphans, board.health)
    }

    // ---------------------------------------------------------- the consumer

    /** Nothing is known of any other address than before. */
    twostate predicate OnlyAbout(u: Addr)
      reads nft, just, board
    {
      (forall x :: x != u ==> (x in nft.elems <==> x in old(nft.elems))) &&
      (forall x :: x != u ==> (x in just.upto <==> x in old(just.upto)) && (x in just.upto ==> just.upto[x] == old(just.upto)[x])) &&
      (forall x :: x != u ==>
         (x in board.applied <==> x in old(board.applied)) && (x in board.applied ==> board.applied[x] == old(board.applied)[x])) &&
      (forall x :: x != u ==>
         (x in board.refused <==> x in old(board.refused)) && (x in board.refused ==> board.refused[x] == old(board.refused)[x])) &&
      board.orphans == old(board.orphans) && board.health == old(board.health)
    }

    method Drop(a: Addr, ttl: int, now: nat) returns (ghost added: bool, ghost noted: bool)
      requires Valid()
      modifies nft, just, board
      ensures Valid()
      ensures View(now) == AfterDrop(old(View(now)), a.Unmap(), FirstCover(cfg.never, a), ttl, added, noted)
      ensures OnlyAbout(a.Unmap())
      // without time left nothing happens
      ensures ttl <= 0 ==> View(now) == old(View(now)) && nft.ran == old(nft.ran) && board.asked == old(board.asked)
      // a protected address is refused, and the board told why if it can be
      ensures ttl > 0 && Covered(cfg.never, a) ==>
                nft.ran == old(nft.ran) && nft.elems == old(nft.elems) && just.upto == old(just.upto) &&
                board.asked == old(board.asked) + 1 &&
                if board.answers(old(board.asked)) then
                  a.Unmap() !in board.applied && a.Unmap() in board.refused && board.refused[a.Unmap()] in cfg.never &&
                  board.refused[a.Unmap()].Valid() && board.refused[a.Unmap()].Contains(a.Unmap())
                else board.applied == old(board.applied) && board.refused == old(board.refused)
      // any other loses its note and is handed to the kernel
      ensures ttl > 0 && !Covered(cfg.never, a) ==>
                a.Unmap() !in just.upto &&
                nft.ran == old(nft.ran) + [Added(a.Unmap(), ttl, nft.answers(|old(nft.ran)|))] &&
                nft.elems == (if nft.answers(|old(nft.ran)|) then old(nft.elems) + {a.Unmap()} else old(nft.elems)) &&
                board.asked == old(board.asked) + if nft.answers(|old(nft.ran)|) then 1 else 0
      // and the board is told of it if the kernel took it
      ensures ttl > 0 && !Covered(cfg.never, a) && nft.answers(|old(nft.ran)|) && board.answers(old(board.asked)) ==>
                a.Unmap() !in board.refused && a.Unmap() in board.applied &&
                board.applied[a.Unmap()] == if a.Unmap() in old(board.applied) then old(board.applied)[a.Unmap()] else now
      ensures ttl > 0 && !Covered(cfg.never, a) && !(nft.answers(|old(nft.ran)|) && board.answers(old(board.asked))) ==>
                board.applied == old(board.applied) && board.refused == old(board.refused)
    {
      added, noted := false, false;
      var u := a.Unmap();
      UnmapTwice(a);
      FirstCoverUnmaps(cfg.never, a);
      if ttl <= 0 {
        return;
      }
      var refused, why := never.Covers(u);
      if refused {
        var ok := board.NoteRefused(u, why.value);
        noted := ok;
        return;
      }
      just.Clear(u);
      var ok := nft.Add(u, ttl);
      added := ok;
      if !ok {
        return;
      }
      var told := board.NoteApplied(u, now);
      noted := told;
    }

    method Release(a: Addr, now: nat) returns (released: bool, ghost forgot: bool)
      requires Valid()
      modifies nft, just, board
      ensures Valid()
      ensures View(now) == AfterRelease(cfg, old(View(now)), a.Unmap(), released, forgot)
      ensures OnlyAbout(a.Unmap())
      // the kernel is asked to let the address go
      ensures released == nft.answers(|old(nft.ran)|) && nft.ran == old(nft.ran) + [Removed(a.Unmap(), released)]
      ensures !released ==> View(now) == old(View(now)) && board.asked == old(board.asked)
      // if it does, the release is noted for two intervals and the board told
      ensures released ==>
                nft.elems == old(nft.elems) - {a.Unmap()} && just.upto == old(just.upto)[a.Unmap() := now + 2 * cfg.resync] &&
                board.asked == old(board.asked) + 1
      ensures released && board.answers(old(board.asked)) ==> a.Unmap() !in board.applied && a.Unmap() !in board.refused
      ensures released && !board.answers(old(board.asked)) ==>
                board.applied == old(board.applied) && board.refused == old(board.refused)
    {
      forgot := false;
      var u := a.Unmap();
      released := nft.Remove(u);
      if !released {
        return;
      }
      just.Mark(u, 2 * cfg.resync, now);
      var told := board.Forget(u);
      forgot := told;
    }

    method ReleaseAll(now: nat) returns (ghost listed: bool, flush4: bool, flush6: bool, ghost forgot: bool)
      requires Valid()
      modifies nft, just, board
      ensures Valid()
      ensures View(now) == AfterReleaseAll(cfg, old(View(now)), listed, flush4, flush6, forgot)
      // both sets are listed, as far as that works, and then flushed, as far as that does
      ensures listed == (nft.answers(|old(nft.ran)|) && nft.answers(|old(nft.ran)| + 1))
      ensures var m := |old(nft.ran)| + if nft.answers(|old(nft.ran)|) then 2 else 1;
              flush4 == nft.answers(m) && flush6 == (flush4 && nft.answers(m + 1))
      ensures forall a :: a in nft.elems <==> a in old(nft.elems) && !(flush4 && a.V4?) && !(flush6 && a.V6?)
      // every address that was listed is noted for two intervals once both are flushed
      ensures listed && flush6 ==>
                just.upto.Keys == old(just.upto).Keys + old(nft.elems) &&
                forall a :: a in just.upto ==>
                  just.upto[a] == if a in old(nft.elems) then now + 2 * cfg.resync else old(just.upto)[a]
      ensures !(listed && flush6) ==> just.upto == old(just.upto)
      // and then the board forgets everything
      ensures board.asked == old(board.asked) + if flush6 then 1 else 0
      ensures flush6 && board.answers(old(board.asked)) ==>
                board.applied == map[] && board.refused == map[] && board.orphans == []
      ensures !(flush6 && board.answers(old(board.asked))) ==>
                board.applied == old(board.applied) && board.refused == old(board.refused) && board.orphans == old(board.orphans)
      ensures board.health == old(board.health)
    {
      forgot := false;
      var was := nft.List();
      listed := was.Some?;
      flush4, flush6 := nft.Flush();
      if flush6 {
        forgot := LetGo(was, now);
      }
      AfterReleaseAllIs(cfg, old(View(now)), listed, flush4, flush6, forgot, View(now));
    }

    /** The end of release_all, once both sets are flushed. */
    method LetGo(was: Option<set<Addr>>, now: nat) returns (forgot: bool)
      requires Valid()
      modifies just, board
      ensures just.upto == MarkedAll(old(just.upto), if was.Some? then was.value else {}, now + cfg.Hold())
      ensures was.Some? ==>
                just.upto.Keys == old(just.upto).Keys + was.value &&
                forall a :: a in just.upto ==> just.upto[a] == if a in was.value then now + 2 * cfg.resync else old(just.upto)[a]
      ensures was.None? ==> just.upto == old(just.upto)
      ensures forgot == board.answers(old(board.asked)) && board.asked == old(board.asked) + 1 && board.health == old(board.health)
      ensures forgot ==> board.applied == map[] && board.refused == map[] && board.orphans == []
      ensures !forgot ==>
                board.applied == old(board.applied) && board.refused == old(board.refused) && board.orphans == old(board.orphans)
    {
      MarkedNothing(just.upto, now + cfg.Hold());
      if was.Some? {
        MarkListed(was.value, now);
      }
      forgot := board.ForgetAll();
    }

    /** The notes of release_all. */
    method MarkListed(was: set<Addr>, now: nat)
      modifies just
      ensures just.upto == MarkedAll(old(just.upto), was, now + cfg.Hold())
      ensures just.upto.Keys == old(just.upto).Keys + was
      ensures forall a :: a in just.upto ==> just.upto[a] == if a in was then now + 2 * cfg.resync else old(just.upto)[a]
    {
      var todo := was;
      while todo != {}
        invariant todo <= was
        invariant just.upto == MarkedAll(old(just.upto), was - todo, now + cfg.Hold())
        decreases todo
      {
        var a :| a in todo;
        just.Mark(a, 2 * cfg.resync, now);
        todo := todo - {a};
        assert was - todo == (was - (todo + {a})) + {a};
      }
      assert was - {} == was;
    }

    // ----------------------------------------------------- the reconcile loop

    method DesiredOf(bans: seq<BanRow>, now: nat) returns (want: map<Addr, int>)
      requires Valid()
      ensures want == Desired(cfg, just.upto, now, bans, map[])
    {
      want := map[];
      var i := 0;
      while i < |bans|
        invariant 0 <= i <= |bans|
        invariant Desired(cfg, just.upto, now, bans[i..], want) == Desired(cfg, just.upto, now, bans, map[])
      {
        var b := bans[i];
        assert bans[i..][0] == b && bans[i..][1..] == bans[i + 1..];
        if b.ip.Some? && b.ttl > 0 {
          var u := b.ip.value.Unmap();
          var refused, _ := never.Covers(u);
          if !refused && !just.IsHeld(u, now) {
            want := want[u := b.ttl];
          }
        }
        i := i + 1;
      }
    }

    method AddEach(want: map<Addr, int>) returns (failed: set<Addr>, ghost work: seq<Command>)
      requires forall a :: a in want ==> want[a] > 0
      modifies nft
      ensures nft.ran == old(nft.ran) + work && AddsEach(work, want, |old(nft.ran)|, nft.answers)
      ensures failed <= want.Keys && forall k :: 0 <= k < |work| ==> (work[k].addr in failed <==> !work[k].ok)
      ensures nft.elems == old(nft.elems) + (want.Keys - failed)
    {
      failed, work := {}, [];
      var todo := want.Keys;
      while todo != {}
        invariant todo <= want.Keys && failed <= want.Keys - todo
        invariant nft.ran == old(nft.ran) + work && AddsSome(work, want, todo, |old(nft.ran)|, nft.answers)
        invariant forall k :: 0 <= k < |work| ==> (work[k].addr in failed <==> !work[k].ok)
        invariant nft.elems == old(nft.elems) + (want.Keys - todo - failed)
        decreases todo
      {
        var a :| a in todo;
        ghost var before := work;
        var ok := nft.Add(a, want[a]);
        AddsOneMore(work, want, todo, |old(nft.ran)|, nft.answers, a, ok);
        work := work + [Added(a, want[a], ok)];
        if !ok {
          failed := failed + {a};
        }
        todo := todo - {a};
      }
    }

    method RemoveEach(have: set<Addr>, want: map<Addr, int>) returns (failed: set<Addr>, ghost work: seq<Command>)
      modifies nft
      ensures nft.ran == old(nft.ran) + work && RemovesEach(work, have - want.Keys, |old(nft.ran)|, nft.answers)
      ensures failed <= have - want.Keys && forall k :: 0 <= k < |work| ==> (work[k].addr in failed <==> !work[k].ok)
      ensures nft.elems == old(nft.elems) - (have - want.Keys - failed)
    {
      failed, work := {}, [];
      var todo := have;
      while todo != {}
        invariant todo <= have && failed <= have - want.Keys - todo
        invariant nft.ran == old(nft.ran) + work && RemovesEach(work, have - want.Keys - todo, |old(nft.ran)|, nft.answers)
        invariant forall k :: 0 <= k < |work| ==> (work[k].addr in failed <==> !work[k].ok)
        invariant nft.elems == old(nft.elems) - (have - todo - want.Keys - failed)
        decreases todo
      {
        var a :| a in todo;
        if a !in want {
          var ok := nft.Remove(a);
          RemovesOneMore(work, have - want.Keys - todo, |old(nft.ran)|, nft.answers, a, ok);
          work := work + [Removed(a, ok)];
          if !ok {
            failed := failed + {a};
          }
        }
        assert have - want.Keys - (todo - {a}) == (have - want.Keys - todo) + if a in want then {} else {a};
        todo := todo - {a};
      }
      assert have - want.Keys - {} == have - want.Keys;
    }

    /** The addresses the kernel holds and nothing wants, in whatever order they come up. */
    method Orphans(final: set<Addr>, want: map<Addr, int>) returns (listing: seq<Addr>)
      ensures Enumerates(listing, final - want.Keys)
    {
      listing := [];
      var todo := final;
      while todo != {}
        invariant todo <= final && Enumerates(listing, final - todo - want.Keys)
        decreases todo
      {
        var a :| a in todo;
        todo := todo - {a};
        if a !in want {
          ghost var before := listing;
          listing := listing + [a];
          assert a !in before;
        }
      }
    }

    /** Both loops of a cycle: add what is wanted, take out what is not. */
    method Act(rows: seq<BanRow>, now: nat, want: map<Addr, int>, have: set<Addr>)
      returns (failedAdds: set<Addr>, failedRemoves: set<Addr>, ghost adds: seq<Command>, ghost removes: seq<Command>)
      requires Valid() && want == Desired(cfg, just.upto, now, rows, map[]) && have == nft.elems
      modifies nft
      ensures nft.ran == old(nft.ran) + adds + removes
      ensures nft.elems == old(nft.elems) + (want.Keys - failedAdds) - (old(nft.elems) - want.Keys - failedRemoves)
      ensures Worked(cfg.never, just.upto, now, rows, have, adds, removes, |old(nft.ran)|, nft.answers, nft.elems)
    {
      DesiredPositive(cfg, just.upto, now, rows, map[]);
      ghost var n := |nft.ran|;
      failedAdds, adds := AddEach(want);
      failedRemoves, removes := RemoveEach(have, want);
      WorkIsDone(cfg, just.upto, now, rows, want, have, adds, removes, n, nft.answers, failedAdds, failedRemoves, nft.elems);
    }

    /** The end of a cycle: the kernel is read back, and what it then holds is published. */
    method Tell(rows: seq<BanRow>, now: nat, want: map<Addr, int>, later: nat, failedAdds: set<Addr>, failedRemoves: set<Addr>,
                ghost was: set<Addr>)
      returns (ghost calls: Calls)
      requires Valid() && want == Desired(cfg, just.upto, now, rows, map[])
      requires nft.elems == was + (want.Keys - failedAdds) - (was - want.Keys - failedRemoves)
      modifies nft`ran, board
      ensures calls.bans == Some(rows) && calls.listed && RanOn(old(nft.ran), [], [], nft.answers, calls.readBack, nft.ran)
      ensures Told(cfg.never, just.upto, now, rows, calls, nft.elems, later, old(Seen()), board.answers, Seen())
      ensures ComesTo(calls, want.Keys, was, nft.elems, later, old(Seen()), Seen())
    {
      var final := nft.List();
      assert old(nft.ran) + [] + [] == old(nft.ran);
      if final.None? {
        var told := board.ReportHealth(-1);
        calls := Calls(Some(rows), true, failedAdds, failedRemoves, false, [], false, false, told);
        return;
      }
      var left := Orphans(final.value, want);
      LeftIsShown(cfg, just.upto, now, rows, want, nft.elems, left);
      var read, ok := board.PublishState(final.value, left, later);
      var told := board.ReportHealth(|final.value|);
      calls := Calls(Some(rows), true, failedAdds, failedRemoves, true, left, read, ok, told);
    }

    /** A cycle once the kernel has been read: act on it, then tell. */
    method Enact(rows: seq<BanRow>, now: nat, want: map<Addr, int>, have: set<Addr>, later: nat)
      returns (ghost calls: Calls, ghost adds: seq<Command>, ghost removes: seq<Command>)
      requires Valid() && want == Desired(cfg, just.upto, now, rows, map[]) && have == nft.elems
      modifies nft, board
      ensures calls.bans == Some(rows) && calls.listed
      ensures RanOn(old(nft.ran), adds, removes, nft.answers, calls.readBack, nft.ran)
      ensures Worked(cfg.never, just.upto, now, rows, have, adds, removes, |old(nft.ran)|, nft.answers, nft.elems)
      ensures Told(cfg.never, just.upto, now, rows, calls, nft.elems, later, old(Seen()), board.answers, Seen())
      ensures ComesTo(calls, want.Keys, have, nft.elems, later, old(Seen()), Seen())
    {
      var failedAdds, failedRemoves;
      failedAdds, failedRemoves, adds, removes := Act(rows, now, want, have);
      ghost var ran := nft.ran;
      calls := Tell(rows, now, want, later, failedAdds, failedRemoves, have);
      assert ran + [] + [] == ran;
    }

    /** A cycle once the list has been fetched: read the kernel, and if that works act on it and tell. */
    method Proceed(rows: seq<BanRow>, now: nat, later: nat)
      returns (ghost calls: Calls, ghost adds: seq<Command>, ghost removes: seq<Command>)
      requires Valid()
      modifies nft, board
      ensures calls.bans == Some(rows) && calls.listed == (nft.answers(|old(nft.ran)|) && nft.answers(|old(nft.ran)| + 1))
      ensures !calls.listed ==> NotRead(old(Nft()), nft.answers, Nft()) && SaysUnable(old(Seen()), board.answers, Seen())
      ensures !calls.listed ==> calls.reported == board.answers(old(board.asked))
      ensures calls.listed ==> RanAll(old(nft.ran), adds, removes, nft.answers, calls.readBack, nft.ran)
      ensures calls.listed ==>
                Worked(cfg.never, just.upto, now, rows, old(nft.elems), adds, removes, |old(nft.ran)| + 2, nft.answers, nft.elems)
      ensures calls.listed ==> Told(cfg.never, just.upto, now, rows, calls, nft.elems, later, old(Seen()), board.answers, Seen())
      ensures calls.listed ==>
                ComesTo(calls, Desired(cfg, just.upto, now, rows, map[]).Keys, old(nft.elems), nft.elems, later, old(Seen()), Seen())
    {
      adds, removes := [], [];
      var want := DesiredOf(rows, now);
      var have := nft.List();
      if have.None? {
        var told := board.ReportHealth(-1);
        calls := Calls(Some(rows), false, {}, {}, false, [], false, false, told);
        return;
      }
      calls, adds, removes := Enact(rows, now, want, have.value, later);
    }

    /** One cycle: `fetched` is None when the list could not be read or came back truncated. */
    method Reconcile(fetched: Option<seq<BanRow>>, now: nat, later: nat)
      returns (ghost calls: Calls, ghost adds: seq<Command>, ghost removes: seq<Command>)
      requires Valid() && now <= later
      modifies nft, just, board
      ensures Valid() && calls.bans == fetched
      ensures View(later) == AfterCycle(cfg, old(View(now)), calls, later)
      ensures fetched.Some? && calls.listed && calls.readBack ==>
                Enumerates(calls.listing, nft.elems - WantedBy(cfg, old(View(now)), calls).Keys)
      // the notes that have run out go, and no others
      ensures forall a :: a in just.upto <==> a in old(just.upto) && now < old(just.upto)[a]
      ensures forall a :: a in just.upto ==> just.upto[a] == old(just.upto)[a]
      // without a list, or without a reading of the kernel, nothing is done but to say so
      ensures calls.listed == (fetched.Some? && nft.answers(|old(nft.ran)|) && nft.answers(|old(nft.ran)| + 1))
      ensures fetched.None? ==> Nft() == old(Nft())
      ensures fetched.Some? && !calls.listed ==> NotRead(old(Nft()), nft.answers, Nft())
      ensures !calls.listed ==> SaysUnable(old(Seen()), board.answers, Seen())
      // with both, every banned address is handed to the kernel and every other is taken out, each once,
      // and what comes of it is what the kernel answers
      ensures calls.listed ==> RanAll(old(nft.ran), adds, removes, nft.answers, calls.readBack, nft.ran)
      ensures calls.listed ==>
                Worked(cfg.never, old(just.upto), now, fetched.value, old(nft.elems), adds, removes,
                       |old(nft.ran)| + 2, nft.answers, nft.elems)
      // and the board is told what the kernel then holds
      ensures calls.listed ==>
                Told(cfg.never, old(just.upto), now, fetched.value, calls, nft.elems, later, old(Seen()), board.answers, Seen())
    {
      just.Prune(now);
      if fetched.None? {
        var told := board.ReportHealth(-1);
        calls, adds, removes := Calls(None, false, {}, {}, false, [], false, false, told), [], [];
        return;
      }
      calls, adds, removes := Proceed(fetched.value, now, later);
      if calls.listed {
        ghost var rows := fetched.value;
        PruningKeepsWork(cfg.never, old(just.upto), just.upto, now, rows, old(nft.elems), adds, removes,
                         |old(nft.ran)| + 2, nft.answers, nft.elems);
        PruningKeepsTold(cfg.never, old(just.upto), just.upto, now, rows, calls, nft.elems, later, old(Seen()), board.answers, Seen());
        ComesToAfterCycle(cfg, old(View(now)), calls, later, old(Seen()), Seen(), View(later));
      }
    }
  }
}
