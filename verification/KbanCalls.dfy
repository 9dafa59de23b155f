/** What one undisturbed call of the agent comes to, for every way its own calls can turn out; and that
    it is one particular run of the interleaving machine. */
module KbanCalls {
  import opened Wrappers
  import opened NetAddr
  import opened NeverDrop
  import opened KbanMachine
  import opened KbanRuns
  import opened KbanSafety

  // ------------------------------------------------------------ the wanted set

  ghost predicate AdmitsFor(c: Config, notes: map<Addr, nat>, now: nat, row: BanRow, a: Addr)
    requires c.Valid()
  {
    Admits(c, notes, now, row) && row.ip.value.Unmap() == a
  }

  ghost predicate LastFor(c: Config, notes: map<Addr, nat>, now: nat, rows: seq<BanRow>, a: Addr, i: int)
    requires c.Valid()
  {
    0 <= i < |rows| && AdmitsFor(c, notes, now, rows[i], a) &&
    forall j :: i < j < |rows| ==> !AdmitsFor(c, notes, now, rows[j], a)
  }

  /** An address is wanted exactly when some row names it, in either spelling, with time left, and
      it is neither protected nor under a note; the last such row gives its time. */
  lemma {:induction false} DesiredMeans(c: Config, notes: map<Addr, nat>, now: nat, rows: seq<BanRow>, want: map<Addr, int>, a: Addr)
    requires c.Valid()
    ensures var w := Desired(c, notes, now, rows, want);
            if exists i :: 0 <= i < |rows| && AdmitsFor(c, notes, now, rows[i], a) then
              a in w && (exists i :: LastFor(c, notes, now, rows, a, i) && w[a] == rows[i].ttl)
            else (a in w <==> a in want) && (a in w ==> w[a] == want[a])
    decreases |rows|
  {
    if rows != [] {
      var rest := rows[1..];
      var next := TestRow(c, notes, now, rows[0], want);
      DesiredMeans(c, notes, now, rest, next, a);
      assert forall i :: 0 <= i < |rest| ==> rest[i] == rows[i + 1];
      if i :| 0 <= i < |rest| && AdmitsFor(c, notes, now, rest[i], a) {
        var k :| LastFor(c, notes, now, rest, a, k) && Desired(c, notes, now, rest, next)[a] == rest[k].ttl;
        assert AdmitsFor(c, notes, now, rows[k + 1], a);
        forall j | k + 1 < j < |rows|
          ensures !AdmitsFor(c, notes, now, rows[j], a)
        {
          assert rows[j] == rest[j - 1];
        }
        assert LastFor(c, notes, now, rows, a, k + 1);
      } else {
        forall j | 0 < j < |rows|
          ensures !AdmitsFor(c, notes, now, rows[j], a)
        {
          assert rows[j] == rest[j - 1];
        }
        if AdmitsFor(c, notes, now, rows[0], a) {
          assert LastFor(c, notes, now, rows, a, 0);
        }
      }
    }
  }

  // -------------------------------------- undisturbed calls as machine runs

  ghost function AfterDrop(s: State, u: Addr, why: Option<Prefix>, ttl: int, added: bool, noted: bool): State {
    if ttl <= 0 then s
    else if why.Some? then
      if noted then s.(refused := s.refused[u := why.value], applied := s.applied - {u}) else s
    else
      var t := s.(notes := s.notes - {u}, kernel := if added then s.kernel + {u} else s.kernel);
      if added && noted then
        t.(refused := t.refused - {u}, applied := if u in t.applied then t.applied else t.applied[u := t.clock])
      else t
  }

  lemma DropIsRun(c: Config, s: State, a: Addr, ttl: int, added: bool, noted: bool)
    requires c.Valid() && AtRest(s)
    ensures Handles(c, s, Event.Drop(Some(a), ttl), AfterDrop(s, a.Unmap(), FirstCover(c.never, a), ttl, added, noted))
  {
    var u := a.Unmap();
    var why := FirstCover(c.never, a);
    UnmapTwice(a);
    FirstCoverUnmaps(c.never, a);
    var start := Step(c, s, Receive(Event.Drop(Some(a), ttl)));
    ReachesItself(c, start, Consuming);
    if ttl > 0 && why.Some? {
      ReachesOneMore(c, start, start, Feed(noted), Consuming);
    } else if ttl > 0 {
      var s1 := s.(feed := DroppingOne(u), notes := s.notes - {u});
      ReachesNext(c, start, start, Feed(true), s1, Consuming);
      var s2 := Step(c, s1, Feed(added));
      ReachesNext(c, start, s1, Feed(added), s2, Consuming);
      if added {
        ReachesOneMore(c, start, s2, Feed(noted), Consuming);
      }
    }
  }

  lemma {:induction false} FirstCoverUnmaps(ps: seq<Prefix>, a: Addr)
    requires AllValid(ps)
    ensures FirstCover(ps, a.Unmap()) == FirstCover(ps, a)
    decreases |ps|
  {
    UnmapTwice(a);
    if ps != [] {
      FirstCoverUnmaps(ps[1..], a);
    }
  }

  ghost function AfterRelease(c: Config, s: State, u: Addr, released: bool, forgot: bool): State {
    if !released then s
    else
      var t := s.(kernel := s.kernel - {u}, notes := s.notes[u := s.clock + c.Hold()]);
      if forgot then t.(applied := t.applied - {u}, refused := t.refused - {u}) else t
  }

  lemma ReleaseIsRun(c: Config, s: State, a: Addr, released: bool, forgot: bool)
    requires c.Valid() && AtRest(s)
    ensures Handles(c, s, Event.Release(Some(a)), AfterRelease(c, s, a.Unmap(), released, forgot))
  {
    var u := a.Unmap();
    var start := Step(c, s, Receive(Event.Release(Some(a))));
    ReachesItself(c, start, Consuming);
    var s1 := if released then s.(feed := Marking(u), kernel := s.kernel - {u}) else s;
    ReachesNext(c, start, start, Feed(released), s1, Consuming);
    if released {
      MarkAndForgetIsRun(c, start, s1, forgot);
    }
  }

  lemma MarkAndForgetIsRun(c: Config, s: State, t: State, forgot: bool)
    requires c.Valid() && t.feed.Marking? && Reaches(c, s, t, Consuming)
    ensures var u := t.feed.addr;
            var t1 := t.(feed := Waiting, notes := t.notes[u := t.clock + c.Hold()]);
            Reaches(c, s, if forgot then t1.(applied := t.applied - {u}, refused := t.refused - {u}) else t1, Consuming)
  {
    var t1 := t.(feed := Forgetting(t.feed.addr), notes := t.notes[t.feed.addr := t.clock + c.Hold()]);
    ReachesNext(c, s, t, Feed(true), t1, Consuming);
    ReachesOneMore(c, s, t1, Feed(forgot), Consuming);
  }

  /** Notes written for every address of a set at one moment. */
  ghost function MarkedAll(notes: map<Addr, nat>, addrs: set<Addr>, until: nat): map<Addr, nat> {
    map a | a in notes.Keys + addrs :: if a in addrs then until else notes[a]
  }

  ghost predicate Marks(notes: map<Addr, nat>, addrs: set<Addr>, until: nat, after: map<Addr, nat>) {
    after.Keys == notes.Keys + addrs &&
    forall a :: a in after ==> after[a] == if a in addrs then until else notes[a]
  }

  lemma OneMarkIsRun(c: Config, s: State, t: State, notes: map<Addr, nat>) returns (t1: State)
    requires c.Valid() && t.feed.MarkingAll? && t.feed.rest != {} && Reaches(c, s, t, Consuming)
    requires Marks(t.notes, t.feed.rest, t.clock + c.Hold(), notes)
    ensures t1.feed.MarkingAll? && |t1.feed.rest| < |t.feed.rest| && t1.clock == t.clock
    ensures Marks(t1.notes, t1.feed.rest, t.clock + c.Hold(), notes)
    ensures t1.(feed := MarkingAll({}), notes := notes) == t.(feed := MarkingAll({}), notes := notes)
    ensures Reaches(c, s, t1, Consuming)
  {
    var a :| a in t.feed.rest;
    t1 := t.(feed := MarkingAll(t.feed.rest - {a}), notes := t.notes[a := t.clock + c.Hold()]);
    MarksShrink(t.notes, t.feed.rest, a, t.clock + c.Hold(), notes);
    MarkingIsRun(c, s, t, a);
  }

  lemma MarksShrink(notes: map<Addr, nat>, addrs: set<Addr>, a: Addr, until: nat, after: map<Addr, nat>)
    requires a in addrs && Marks(notes, addrs, until, after)
    ensures Marks(notes[a := until], addrs - {a}, until, after)
    ensures |addrs - {a}| < |addrs|
  {
    assert notes[a := until].Keys + (addrs - {a}) == notes.Keys + addrs;
  }

  lemma MarkingIsRun(c: Config, s: State, t: State, a: Addr)
    requires c.Valid() && t.feed.MarkingAll? && a in t.feed.rest && Reaches(c, s, t, Consuming)
    ensures Reaches(c, s, t.(feed := MarkingAll(t.feed.rest - {a}), notes := t.notes[a := t.clock + c.Hold()]), Consuming)
  {
    ReachesOneMore(c, s, t, FeedMark(a), Consuming);
  }

  lemma {:induction false} MarkAllIsRun(c: Config, s: State, t: State, notes: map<Addr, nat>)
    requires c.Valid() && t.feed.MarkingAll? && Reaches(c, s, t, Consuming)
    requires Marks(t.notes, t.feed.rest, t.clock + c.Hold(), notes)
    ensures Reaches(c, s, t.(feed := MarkingAll({}), notes := notes), Consuming)
    decreases |t.feed.rest|
  {
    if t.feed.rest == {} {
      assert notes == t.notes;
    } else {
      var t1 := OneMarkIsRun(c, s, t, notes);
      MarkAllIsRun(c, s, t1, notes);
    }
  }

  ghost function AfterReleaseAll(c: Config, s: State, listed: bool, flush4: bool, flush6: bool, forgot: bool): State {
    if !flush4 then s
    else if !flush6 then s.(kernel := FamilyOf(s.kernel, false))
    else
      var t := s.(kernel := {}, notes := MarkedAll(s.notes, if listed then s.kernel else {}, s.clock + c.Hold()));
      if forgot then t.(applied := map[], refused := map[], orphans := []) else t
  }

  /** Which addresses release_all lets go, and which of those it protects. The kernel lets go of an
      address when its family was flushed; a note stands for it only if listing and both flushes
      succeeded, or an earlier note lasts as long. So a listing that fails, or a second flush that
      does, leaves what was flushed free to be put back. */
  lemma ReleaseAllProtectsIff(c: Config, s: State, listed: bool, flush4: bool, flush6: bool, forgot: bool, a: Addr)
    requires c.Valid() && AtRest(s) && a in s.kernel
    ensures var t, u := AfterReleaseAll(c, s, listed, flush4, flush6, forgot), s.clock + c.Hold();
            (a !in t.kernel <==> flush4 && (a.V4? || flush6)) &&
            (Noted(c, t, a, u) <==> (listed && flush4 && flush6) || (a in s.notes && u <= s.notes[a])) &&
            (Noted(c, t, a, u) <==> Protected(c, t, a, u))
  {
  }

  lemma ReleaseAllHead(c: Config, s: State, list4: bool, list6: bool, start: State)
    requires c.Valid() && AtRest(s) && start == s.(feed := FlushList4)
    ensures Reaches(c, start, s.(feed := Flush4(if list4 && list6 then Some(s.kernel) else None)), Consuming)
  {
    var k4, k6 := FamilyOf(s.kernel, true), FamilyOf(s.kernel, false);
    assert k4 + k6 == s.kernel;
    ReachesItself(c, start, Consuming);
    var s1 := s.(feed := if list4 then FlushList6(k4) else Flush4(None));
    ReachesNext(c, start, start, Feed(list4), s1, Consuming);
    if list4 {
      ReachesOneMore(c, start, s1, Feed(list6), Consuming);
    }
  }

  lemma ReleaseAllIsRun(c: Config, s: State, list4: bool, list6: bool, flush4: bool, flush6: bool, forgot: bool)
    requires c.Valid() && AtRest(s)
    ensures Handles(c, s, ReleaseAll, AfterReleaseAll(c, s, list4 && list6, flush4, flush6, forgot))
  {
    var was: Option<set<Addr>> := if list4 && list6 then Some(s.kernel) else None;
    var k6 := FamilyOf(s.kernel, false);
    var start := Step(c, s, Receive(ReleaseAll));
    ReleaseAllHead(c, s, list4, list6, start);
    var s1 := s.(feed := Flush4(was));
    ReachesOneMore(c, start, s1, Feed(flush4), Consuming);
    if flush4 {
      var s2 := s.(feed := Flush6(was), kernel := k6);
      ReachesOneMore(c, start, s2, Feed(flush6), Consuming);
      if flush6 {
        assert FamilyOf(k6, true) == {};
        ReleaseAllTail(c, s, Step(c, s2, Feed(true)), was, forgot, start);
      }
    }
  }

  lemma ReleaseAllTail(c: Config, s: State, t: State, was: Option<set<Addr>>, forgot: bool, start: State)
    requires c.Valid() && AtRest(s) && Reaches(c, start, t, Consuming)
    requires t == s.(kernel := {}, feed := MarkingAll(if was.Some? then was.value else {}))
    requires was == None || was == Some(s.kernel)
    ensures Reaches(c, start, AfterReleaseAll(c, s, was.Some?, true, true, forgot), Consuming)
  {
    var notes := MarkedAll(s.notes, t.feed.rest, s.clock + c.Hold());
    assert Reaches(c, start, t.(feed := MarkingAll({}), notes := notes), Consuming) by {
      MarkAllIsRun(c, start, t, notes);
    }
    ForgetAllIsRun(c, start, t.(feed := MarkingAll({}), notes := notes), forgot);
  }

  lemma ForgetAllIsRun(c: Config, s: State, t: State, forgot: bool)
    requires c.Valid() && t.feed.MarkingAll? && t.feed.rest == {} && Reaches(c, s, t, Consuming)
    ensures Reaches(c, s, if forgot then t.(feed := Waiting, applied := map[], refused := map[], orphans := [])
                          else t.(feed := Waiting), Consuming)
  {
    ReachesNext(c, s, t, Feed(true), t.(feed := ForgettingAll), Consuming);
    ReachesOneMore(c, s, t.(feed := ForgettingAll), Feed(forgot), Consuming);
  }

  // ----------------------------------------------------------- a whole cycle

  lemma {:induction false} TestingIsRun(c: Config, s: State, t: State, who: Cast)
    requires c.Valid() && who.Cycling? && t.rec.Desiring? && Reaches(c, s, t, who)
    ensures Reaches(c, s, t.(rec := Listing4(t.rec.now, Desired(c, t.notes, t.rec.now, t.rec.rows, t.rec.want))), who)
    decreases |t.rec.rows|
  {
    ReachesOneMore(c, s, t, Test, who);
    if t.rec.rows != [] {
      TestingIsRun(c, s, Step(c, t, Test), who);
    }
  }

  lemma {:induction false} AddingIsRun(c: Config, s: State, t: State, failed: set<Addr>, who: Cast)
    requires c.Valid() && who.Cycling? && t.rec.Adding? && t.rec.todo <= t.rec.want.Keys && Reaches(c, s, t, who)
    requires forall a :: a in t.rec.want ==> t.rec.want[a] > 0
    ensures Reaches(c, s, t.(rec := Adding(t.rec.now, t.rec.want, t.rec.have, {}),
                             kernel := t.kernel + (t.rec.todo - failed)), who)
    decreases |t.rec.todo|
  {
    if t.rec.todo == {} {
      assert t.kernel + ({} - failed) == t.kernel;
    } else {
      var a :| a in t.rec.todo;
      var act := AddOne(a, a !in failed);
      ReachesOneMore(c, s, t, act, who);
      AddingIsRun(c, s, Step(c, t, act), failed, who);
      assert Step(c, t, act).kernel + (t.rec.todo - {a} - failed) == t.kernel + (t.rec.todo - failed);
    }
  }

  lemma {:induction false} RemovingIsRun(c: Config, s: State, t: State, failed: set<Addr>, who: Cast)
    requires c.Valid() && who.Cycling? && t.rec.Removing? && Reaches(c, s, t, who)
    ensures Reaches(c, s, t.(rec := Removing(t.rec.now, t.rec.want, t.rec.have, {}),
                             kernel := t.kernel - (t.rec.todo - failed)), who)
    decreases |t.rec.todo|
  {
    if t.rec.todo == {} {
      assert t.kernel - ({} - failed) == t.kernel;
    } else {
      var a :| a in t.rec.todo;
      var act := RemoveOne(a, a !in failed);
      ReachesOneMore(c, s, t, act, who);
      RemovingIsRun(c, s, Step(c, t, act), failed, who);
      assert Step(c, t, act).kernel - (t.rec.todo - {a} - failed) == t.kernel - (t.rec.todo - failed);
    }
  }

  /** How one cycle's calls turned out. */
  datatype Calls = Calls(
    bans: Option<seq<BanRow>>,
    listed: bool,
    failedAdds: set<Addr>,
    failedRemoves: set<Addr>,
    readBack: bool,
    listing: seq<Addr>,
    stamps: bool,
    published: bool,
    reported: bool)

  ghost function WantedBy(c: Config, s: State, calls: Calls): map<Addr, int>
    requires c.Valid() && calls.bans.Some?
  {
    Desired(c, Pruned(s.notes, s.clock), s.clock, calls.bans.value, map[])
  }

  ghost function KernelAfter(kernel: set<Addr>, want: set<Addr>, calls: Calls): set<Addr> {
    (kernel + (want - calls.failedAdds)) - (kernel - want - calls.failedRemoves)
  }

  /** The state one undisturbed cycle leaves, `later` being the time it publishes. */
  ghost function AfterCycle(c: Config, s: State, calls: Calls, later: nat): State
    requires c.Valid()
  {
    var t := s.(clock := later, notes := Pruned(s.notes, s.clock));
    if calls.bans.None? || !calls.listed then Reported(t, -1, calls.reported)
    else
      var want := WantedBy(c, s, calls).Keys;
      var t1 := t.(kernel := KernelAfter(s.kernel, want, calls));
      if !calls.readBack then Reported(t1, -1, calls.reported)
      else
        Reported(if calls.published
                 then t1.(applied := Since(t1.kernel, Earlier(s.applied, calls.stamps), later), orphans := First100(calls.listing))
                 else t1, |t1.kernel|, calls.reported)
  }

  function Reported(s: State, count: int, ok: bool): State {
    if ok then s.(health := Some(count)) else s
  }

  lemma {:induction false} DesiredPositive(c: Config, notes: map<Addr, nat>, now: nat, rows: seq<BanRow>, want: map<Addr, int>)
    requires c.Valid() && forall a :: a in want ==> want[a] > 0
    ensures forall a :: a in Desired(c, notes, now, rows, want) ==> Desired(c, notes, now, rows, want)[a] > 0
    decreases |rows|
  {
    if rows != [] {
      DesiredPositive(c, notes, now, rows[1..], TestRow(c, notes, now, rows[0], want));
    }
  }

  /** `list` twice over, one family at a time; either half may be the one that fails. */
  lemma ListingIsRun(c: Config, s: State, t: State, ok: bool, who: Cast)
    requires c.Valid() && who.Cycling? && (t.rec.Listing4? || t.rec.Reading4?) && Reaches(c, s, t, who)
    ensures !ok ==> Reaches(c, s, t.(rec := Reporting(t.rec.now, t.rec.want, -1)), who)
    ensures ok && t.rec.Listing4? ==>
              Reaches(c, s, t.(rec := Adding(t.rec.now, t.rec.want, t.kernel, t.rec.want.Keys)), who)
    ensures ok && t.rec.Reading4? ==>
              Reaches(c, s, t.(rec := Gathering(t.rec.now, t.rec.want, t.kernel)), who)
  {
    ReachesOneMore(c, s, t, List(ok), who);
    if ok {
      assert FamilyOf(t.kernel, true) + FamilyOf(t.kernel, false) == t.kernel;
      ReachesOneMore(c, s, Step(c, t, List(true)), List(true), who);
    }
  }

  lemma ReportIsRun(c: Config, s: State, t: State, later: nat, ok: bool, who: Cast)
    requires c.Valid() && who.Cycling? && t.rec.Reporting? && t.clock <= later && Reaches(c, s, t, who)
    ensures Reaches(c, s, Reported(t.(clock := later, rec := Idle), t.rec.count, ok), who)
  {
    var t1 := t.(clock := later);
    ReachesNext(c, s, t, Tick(later - t.clock), t1, who);
    ReachesOneMore(c, s, t1, Report(ok), who);
  }

  /** Fetch, test, list: the half of a cycle that only looks. */
  lemma LookingIsRun(c: Config, s: State, calls: Calls, later: nat, start: State, who: Cast)
    requires c.Valid() && AtRest(s) && s.clock <= later && start == Step(c, s, Begin) && who == Cycling(calls.bans)
    ensures var t := s.(notes := Pruned(s.notes, s.clock));
            if calls.bans.None? || !calls.listed then Reaches(c, start, AfterCycle(c, s, calls, later), who)
            else
              var want := WantedBy(c, s, calls);
              Reaches(c, start, t.(rec := Adding(s.clock, want, s.kernel, want.Keys)), who)
  {
    var t := s.(notes := Pruned(s.notes, s.clock));
    var now := s.clock;
    ReachesItself(c, start, who);
    ReachesOneMore(c, start, t.(rec := Fetching(now)), Fetch(calls.bans), who);
    if calls.bans.None? {
      ReportIsRun(c, start, t.(rec := Reporting(now, map[], -1)), later, calls.reported, who);
    } else {
      TestingIsRun(c, start, t.(rec := Desiring(now, map[], calls.bans.value)), who);
      var t1 := t.(rec := Listing4(now, WantedBy(c, s, calls)));
      ListingIsRun(c, start, t1, calls.listed, who);
      if !calls.listed {
        ReportIsRun(c, start, t1.(rec := Reporting(now, t1.rec.want, -1)), later, calls.reported, who);
      }
    }
  }

  /** Add, remove: the half that acts. */
  lemma ActingIsRun(c: Config, s: State, calls: Calls, t: State, who: Cast)
    requires c.Valid() && who.Cycling? && t.rec.Adding? && t.rec.have == t.kernel && t.rec.todo == t.rec.want.Keys
    requires forall a :: a in t.rec.want ==> t.rec.want[a] > 0
    requires Reaches(c, s, t, who)
    ensures Reaches(c, s, t.(rec := Reading4(t.rec.now, t.rec.want),
                             kernel := KernelAfter(t.kernel, t.rec.want.Keys, calls)), who)
  {
    var now, want, have := t.rec.now, t.rec.want, t.rec.have;
    AddingIsRun(c, s, t, calls.failedAdds, who);
    var t1 := t.(rec := Adding(now, want, have, {}), kernel := t.kernel + (want.Keys - calls.failedAdds));
    var t2 := t1.(rec := Removing(now, want, have, have - want.Keys));
    ReachesNext(c, s, t1, NextPhase, t2, who);
    RemovingIsRun(c, s, t2, calls.failedRemoves, who);
    var t3 := t2.(rec := Removing(now, want, have, {}), kernel := KernelAfter(t.kernel, want.Keys, calls));
    assert t2.kernel - (have - want.Keys - calls.failedRemoves) == t3.kernel;
    ReachesOneMore(c, s, t3, NextPhase, who);
  }

  /** Read back, publish, report. */
  lemma TellingIsRun(c: Config, s: State, calls: Calls, t: State, later: nat, who: Cast)
    requires c.Valid() && who.Cycling? && t.rec.Reading4? && t.clock <= later && Reaches(c, s, t, who)
    requires calls.readBack ==> Enumerates(calls.listing, t.kernel - t.rec.want.Keys)
    ensures var t1 := t.(clock := later, rec := Idle);
            Reaches(c, s,
              if !calls.readBack then Reported(t1, -1, calls.reported)
              else Reported(if calls.published
                            then t1.(applied := Since(t.kernel, Earlier(t.applied, calls.stamps), later), orphans := First100(calls.listing))
                            else t1, |t.kernel|, calls.reported), who)
  {
    var now, want := t.rec.now, t.rec.want;
    ListingIsRun(c, s, t, calls.readBack, who);
    if !calls.readBack {
      ReportIsRun(c, s, t.(rec := Reporting(now, want, -1)), later, calls.reported, who);
    } else {
      var t1 := t.(rec := Gathering(now, want, t.kernel));
      var t2 := t.(rec := Publishing(now, want, t.kernel, Earlier(t.applied, calls.stamps)));
      ReachesNext(c, s, t1, Gather(calls.stamps), t2, who);
      ReachesNext(c, s, t2, Tick(later - t.clock), t2.(clock := later), who);
      var t3 := Step(c, t2.(clock := later), Publish(calls.published, calls.listing));
      ReachesNext(c, s, t2.(clock := later), Publish(calls.published, calls.listing), t3, who);
      ReportIsRun(c, s, t3, later, calls.reported, who);
    }
  }

  /** An undisturbed cycle is one run of the machine, whatever fails and in whatever order Go
      walks its maps. */
  lemma CycleIsRun(c: Config, s: State, calls: Calls, later: nat)
    requires c.Valid() && AtRest(s) && s.clock <= later
    requires calls.bans.Some? && calls.listed && calls.readBack ==>
               Enumerates(calls.listing, AfterCycle(c, s, calls, later).kernel - WantedBy(c, s, calls).Keys)
    ensures Cycles(c, s, calls.bans, AfterCycle(c, s, calls, later))
  {
    var start, who := Step(c, s, Begin), Cycling(calls.bans);
    LookingIsRun(c, s, calls, later, start, who);
    if calls.bans.Some? && calls.listed {
      var want := WantedBy(c, s, calls);
      DesiredPositive(c, Pruned(s.notes, s.clock), s.clock, calls.bans.value, map[]);
      var t := s.(notes := Pruned(s.notes, s.clock), rec := Adding(s.clock, want, s.kernel, want.Keys));
      ActingIsRun(c, start, calls, t, who);
      var t1 := t.(rec := Reading4(s.clock, want), kernel := KernelAfter(s.kernel, want.Keys, calls));
      TellingIsRun(c, start, calls, t1, later, who);
    }
  }

  /** What a cycle leaves in the kernel. It loses exactly the unwanted addresses whose removal
      succeeded and gains exactly the wanted ones whose addition did, so that if nothing failed
      it is the wanted set. A ban list that could not be fetched, or came back truncated, or a
      kernel that could not be read, changes neither the kernel nor what is published. */
  lemma CycleKernel(c: Config, s: State, calls: Calls, later: nat, a: Addr)
    requires c.Valid() && AtRest(s)
    ensures var t := AfterCycle(c, s, calls, later);
            if calls.bans.None? || !calls.listed then
              t.kernel == s.kernel && t.applied == s.applied && t.orphans == s.orphans && t.refused == s.refused
            else
              (a in t.kernel <==>
                 if a in WantedBy(c, s, calls) then a in s.kernel || a !in calls.failedAdds
                 else a in s.kernel && a in calls.failedRemoves) &&
              (calls.failedAdds == {} && calls.failedRemoves == {} ==> t.kernel == WantedBy(c, s, calls).Keys)
  {
    if calls.bans.Some? && calls.listed {
      var want := WantedBy(c, s, calls).Keys;
      assert AfterCycle(c, s, calls, later).kernel == KernelAfter(s.kernel, want, calls);
      if calls.failedAdds == {} && calls.failedRemoves == {} {
        assert KernelAfter(s.kernel, want, calls) == want;
      }
    }
  }

  /** What a cycle that reads back and publishes says about the kernel: exactly what it then
      holds, every earlier stamp kept if they could be read, and as orphans the addresses it
      holds that nothing wants, all of them up to a hundred. */
  lemma CyclePublishes(c: Config, s: State, calls: Calls, later: nat)
    requires c.Valid() && AtRest(s)
    requires calls.bans.Some? && calls.listed && calls.readBack && calls.published
    requires Enumerates(calls.listing, AfterCycle(c, s, calls, later).kernel - WantedBy(c, s, calls).Keys)
    ensures var t := AfterCycle(c, s, calls, later);
            t.applied.Keys == t.kernel &&
            (forall a :: a in t.applied ==> t.applied[a] == if calls.stamps && a in s.applied then s.applied[a] else later)
    ensures var t := AfterCycle(c, s, calls, later);
            var unwanted := t.kernel - WantedBy(c, s, calls).Keys;
            (forall a :: a in t.orphans ==> a in unwanted) &&
            |t.orphans| == (if |unwanted| <= 100 then |unwanted| else 100) &&
            (|unwanted| <= 100 ==> forall a :: a in unwanted ==> a in t.orphans)
  {
    var t := AfterCycle(c, s, calls, later);
    var kernel, applied, orphans := t.kernel, t.applied, t.orphans;
    AfterCycleTells(c, s, calls, later);
    SinceMeans(kernel, Earlier(s.applied, calls.stamps), later);
    First100Means(calls.listing, kernel - WantedBy(c, s, calls).Keys);
  }

  lemma SinceMeans(final: set<Addr>, prev: map<Addr, nat>, clock: nat)
    ensures Since(final, prev, clock).Keys == final
    ensures forall a :: a in final ==> Since(final, prev, clock)[a] == if a in prev then prev[a] else clock
  {
  }

  lemma AfterCycleTells(c: Config, s: State, calls: Calls, later: nat)
    requires c.Valid() && calls.bans.Some? && calls.listed && calls.readBack && calls.published
    ensures var t := AfterCycle(c, s, calls, later);
            t.applied == Since(t.kernel, Earlier(s.applied, calls.stamps), later) &&
            t.orphans == First100(calls.listing)
  {
  }

  lemma First100Means(listing: seq<Addr>, s: set<Addr>)
    requires Enumerates(listing, s)
    ensures forall a :: a in First100(listing) ==> a in s
    ensures |First100(listing)| == if |s| <= ORPHAN_REPORT then |s| else ORPHAN_REPORT
    ensures |s| <= ORPHAN_REPORT ==> forall a :: a in s ==> a in First100(listing)
  {
    EnumerationSize(listing, s);
  }

  lemma {:induction false} EnumerationSize(listing: seq<Addr>, s: set<Addr>)
    requires Enumerates(listing, s)
    ensures |listing| == |s|
    decreases |listing|
  {
    if listing == [] {
      assert s == {};
    } else {
      var last := listing[|listing| - 1];
      var rest := listing[..|listing| - 1];
      assert listing == rest + [last];
      forall a
        ensures a in rest <==> a in s - {last}
      {
        if a in s - {last} {
          assert a in listing;
        }
        if a in rest {
          var i :| 0 <= i < |rest| && rest[i] == a;
          assert listing[i] == a && a != last;
        }
      }
      EnumerationSize(rest, s - {last});
    }
  }
}
