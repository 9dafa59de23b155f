/** What every interleaving of the two actors keeps. */
module KbanSafety {
  import opened Wrappers
  import opened NetAddr
  import opened NeverDrop
  import opened KbanMachine
  import opened KbanRuns

  // ------------------------------------------------ the never-drop guarantee

  ghost predicate Clear(c: Config, addrs: set<Addr>)
    requires c.Valid()
  {
    forall a :: a in addrs ==> !Covered(c.never, a)
  }

  /** The consumer is only ever about to drop an address the list does not cover, and
      about to record a refusal only for one it does. */
  ghost predicate FeedSound(c: Config, feed: Consumer)
    requires c.Valid()
  {
    match feed
    case ClearingNote(a, ttl) => !Covered(c.never, a) && ttl > 0
    case DroppingOne(a) => !Covered(c.never, a)
    case NotingApplied(a) => !Covered(c.never, a)
    case NotingRefused(a, why) => Covered(c.never, a) && why in c.never
    case _ => true
  }

  ghost predicate Inv(c: Config, s: State)
    requires c.Valid()
  {
    FeedSound(c, s.feed) && Clear(c, s.rec.Want().Keys) &&
    (forall a :: a in s.rec.Want() ==> s.rec.Want()[a] > 0) &&
    (!s.rec.Idle? ==> s.rec.now <= s.clock)
  }

  lemma UnmapTwice(a: Addr)
    ensures a.Unmap().Unmap() == a.Unmap()
  {
  }

  lemma FeedKeepsInv(c: Config, s: State, act: Act)
    requires c.Valid() && Inv(c, s) && Enabled(c, s, act) && OfConsumer(act)
    ensures Inv(c, Step(c, s, act))
  {
    if act.Feed? {
      FeedStaysSound(c, s, act.ok);
    } else if act.Receive? {
      ReceivedIsSound(c, act.event);
    }
  }

  lemma FeedStaysSound(c: Config, s: State, ok: bool)
    requires c.Valid() && FeedSound(c, s.feed) && Enabled(c, s, Feed(ok))
    ensures var t := FeedStep(c, s, ok); FeedSound(c, t.feed) && t.rec == s.rec && t.clock == s.clock
  {
    FeedLeavesCycle(c, s, ok);
    FeedGoesOn(c, s, ok);
  }

  /** The consumer never touches the cycle in progress. */
  lemma FeedLeavesCycle(c: Config, s: State, ok: bool)
    requires Enabled(c, s, Feed(ok))
    ensures FeedStep(c, s, ok).rec == s.rec && FeedStep(c, s, ok).clock == s.clock
  {
  }

  /** The only steps of a drop: clear the note, drop, note it. */
  lemma FeedGoesOn(c: Config, s: State, ok: bool)
    requires Enabled(c, s, Feed(ok))
    ensures var f := FeedStep(c, s, ok).feed;
            !f.ClearingNote? && !f.NotingRefused? &&
            (f.DroppingOne? ==> s.feed.ClearingNote? && f.addr == s.feed.addr) &&
            (f.NotingApplied? ==> s.feed.DroppingOne? && f.addr == s.feed.addr)
  {
  }

  lemma ReceivedIsSound(c: Config, ev: Event)
    requires c.Valid()
    ensures FeedSound(c, Received(c, ev))
  {
    if ev.Drop? && ev.ip.Some? {
      UnmapTwice(ev.ip.value);
    }
  }

  lemma CycleKeepsInv(c: Config, s: State, act: Act)
    requires c.Valid() && Inv(c, s) && Enabled(c, s, act) && !OfConsumer(act)
    ensures Inv(c, Step(c, s, act))
  {
    var t := Step(c, s, act);
    assert t.feed == s.feed;
    if act.Test? {
      if s.rec.rows != [] && s.rec.rows[0].ip.Some? {
        UnmapTwice(s.rec.rows[0].ip.value);
      }
    } else {
      assert t.rec.Want() == s.rec.Want() || t.rec.Want() == map[];
    }
  }

  /** The only two steps that put an address into the kernel. */
  ghost predicate Gains(s: State, act: Act, a: Addr) {
    (act == Feed(true) && s.feed == DroppingOne(a)) || act == AddOne(a, true)
  }

  lemma FeedGains(c: Config, s: State, ok: bool, a: Addr)
    requires c.Valid() && Enabled(c, s, Feed(ok))
    ensures a in FeedStep(c, s, ok).kernel ==> a in s.kernel || Gains(s, Feed(ok), a)
  {
  }

  lemma OnlyTwoStepsGain(c: Config, s: State, act: Act, a: Addr)
    requires c.Valid() && Enabled(c, s, act)
    ensures a in Step(c, s, act).kernel ==> a in s.kernel || Gains(s, act, a)
  {
    if act.Feed? {
      FeedGains(c, s, act.ok, a);
    } else if !act.AddOne? {
      assert Step(c, s, act).kernel <= s.kernel;
    }
  }

  lemma KernelGainsOnlyClear(c: Config, s: State, act: Act, a: Addr)
    requires c.Valid() && Inv(c, s) && Enabled(c, s, act)
    ensures a in Step(c, s, act).kernel ==> a in s.kernel || !Covered(c.never, a)
  {
    OnlyTwoStepsGain(c, s, act, a);
  }

  lemma StepKeepsInv(c: Config, s: State, act: Act)
    requires c.Valid() && Inv(c, s) && Enabled(c, s, act)
    ensures Inv(c, Step(c, s, act))
  {
    if OfConsumer(act) {
      FeedKeepsInv(c, s, act);
    } else {
      CycleKeepsInv(c, s, act);
    }
  }

  /** Whatever the two actors do, in whatever order, with whatever failures, an address the
      never-drop list covers is in the kernel set afterwards only if it was there before. */
  lemma {:induction false} NeverAddsCovered(c: Config, s: State, acts: seq<Act>, a: Addr)
    requires c.Valid() && Inv(c, s) && Runs(c, s, acts)
    ensures Inv(c, Exec(c, s, acts))
    ensures Covered(c.never, a) && a in Exec(c, s, acts).kernel ==> a in s.kernel
    decreases |acts|
  {
    if acts != [] {
      StepKeepsInv(c, s, acts[0]);
      KernelGainsOnlyClear(c, s, acts[0], a);
      NeverAddsCovered(c, Step(c, s, acts[0]), acts[1..], a);
    }
  }

  /** Everything the agent has seen in, or said about, the kernel is droppable; everything
      it says it refused is not. */
  ghost predicate Clean(c: Config, s: State)
    requires c.Valid()
  {
    Inv(c, s) && Clear(c, s.kernel) && Clear(c, s.applied.Keys) &&
    (forall a :: a in s.refused ==> Covered(c.never, a)) &&
    (s.rec.Listing6? || s.rec.Reading6? ==> Clear(c, s.rec.have)) &&
    (s.rec.Gathering? || s.rec.Publishing? ==> Clear(c, s.rec.final))
  }

  /** From a clean start the kernel set stays clean for ever, and no address is ever
      published as both applied and refused. */
  lemma {:induction false} CleanForever(c: Config, s: State, acts: seq<Act>)
    requires c.Valid() && Clean(c, s) && Runs(c, s, acts)
    ensures Clean(c, Exec(c, s, acts))
    ensures Exec(c, s, acts).applied.Keys !! Exec(c, s, acts).refused.Keys
    decreases |acts|
  {
    if acts != [] {
      var t := Step(c, s, acts[0]);
      StepKeepsClean(c, s, acts[0]);
      CleanForever(c, t, acts[1..]);
    }
  }

  lemma StepKeepsClean(c: Config, s: State, act: Act)
    requires c.Valid() && Clean(c, s) && Enabled(c, s, act)
    ensures Clean(c, Step(c, s, act))
  {
    var t := Step(c, s, act);
    StepKeepsInv(c, s, act);
    forall a | a in t.kernel
      ensures !Covered(c.never, a)
    {
      KernelGainsOnlyClear(c, s, act, a);
    }
    if OfConsumer(act) {
      FeedKeepsWordClean(c, s, act);
    } else {
      CycleKeepsWordClean(c, s, act);
    }
  }

  lemma FeedKeepsWordClean(c: Config, s: State, act: Act)
    requires c.Valid() && Clean(c, s) && Enabled(c, s, act) && OfConsumer(act)
    ensures Clear(c, Step(c, s, act).applied.Keys)
    ensures forall a :: a in Step(c, s, act).refused ==> Covered(c.never, a)
    ensures Step(c, s, act).rec == s.rec
  {
    if act.Feed? {
      FeedSays(c, s, act.ok);
    }
  }

  /** The consumer publishes nothing but the outcome it is about to note. */
  lemma FeedSays(c: Config, s: State, ok: bool)
    requires c.Valid() && Enabled(c, s, Feed(ok))
    ensures var t := FeedStep(c, s, ok);
            t.rec == s.rec &&
            t.applied.Keys <= s.applied.Keys + (if s.feed.NotingApplied? then {s.feed.addr} else {}) &&
            t.refused.Keys <= s.refused.Keys + (if s.feed.NotingRefused? then {s.feed.addr} else {})
  {
    FeedLeavesCycle(c, s, ok);
    FeedApplied(c, s, ok);
    FeedRefused(c, s, ok);
  }

  lemma FeedApplied(c: Config, s: State, ok: bool)
    requires Enabled(c, s, Feed(ok))
    ensures FeedStep(c, s, ok).applied.Keys <= s.applied.Keys + (if s.feed.NotingApplied? then {s.feed.addr} else {})
  {
  }

  lemma FeedRefused(c: Config, s: State, ok: bool)
    requires Enabled(c, s, Feed(ok))
    ensures FeedStep(c, s, ok).refused.Keys <= s.refused.Keys + (if s.feed.NotingRefused? then {s.feed.addr} else {})
  {
  }

  lemma ListKeepsClean(c: Config, s: State, ok: bool)
    requires c.Valid() && Clean(c, s) && Enabled(c, s, List(ok))
    ensures var t := ListStep(s, ok);
            (t.rec.Listing6? || t.rec.Reading6? ==> Clear(c, t.rec.have)) &&
            (t.rec.Gathering? ==> Clear(c, t.rec.final)) && !t.rec.Publishing?
    ensures ListStep(s, ok).applied == s.applied && ListStep(s, ok).refused == s.refused
  {
    assert FamilyOf(s.kernel, true) <= s.kernel && FamilyOf(s.kernel, false) <= s.kernel;
  }

  lemma CycleKeepsWordClean(c: Config, s: State, act: Act)
    requires c.Valid() && Clean(c, s) && Enabled(c, s, act) && !OfConsumer(act)
    ensures var t := Step(c, s, act);
            Clear(c, t.applied.Keys) &&
            (forall a :: a in t.refused ==> a in s.refused && t.refused[a] == s.refused[a]) &&
            (t.rec.Listing6? || t.rec.Reading6? ==> Clear(c, t.rec.have)) &&
            (t.rec.Gathering? || t.rec.Publishing? ==> Clear(c, t.rec.final))
  {
    if act.List? {
      ListKeepsClean(c, s, act.ok);
    } else if act.Publish? {
      assert Since(s.rec.final, s.rec.prev, s.clock).Keys == s.rec.final;
    } else {
      OthersSayNothing(c, s, act);
    }
  }

  /** The steps that neither read the kernel nor publish say nothing new. */
  lemma OthersSayNothing(c: Config, s: State, act: Act)
    requires c.Valid() && Enabled(c, s, act) && !OfConsumer(act) && !act.List? && !act.Publish?
    ensures var t := Step(c, s, act);
            (t.applied == s.applied || t.applied == map[]) && (t.refused == s.refused || t.refused == map[]) &&
            (t.rec == s.rec || !(t.rec.Listing6? || t.rec.Reading6? || t.rec.Gathering?)) &&
            (t.rec.Publishing? && t.rec != s.rec ==> s.rec.Gathering? && t.rec.final == s.rec.final)
  {
  }

  // ---------------------------------------------------- a release is honoured

  /** The consumer has taken in a drop of `a` and not yet acted on it. */
  predicate DropPending(feed: Consumer, a: Addr) {
    (feed.ClearingNote? || feed.DroppingOne?) && feed.addr == a
  }

  predicate DropsOf(act: Act, a: Addr) {
    act.Receive? && act.event.Drop? && act.event.ip.Some? && act.event.ip.value.Unmap() == a
  }

  ghost predicate NoDropOf(acts: seq<Act>, a: Addr) {
    forall i :: 0 <= i < |acts| ==> !DropsOf(acts[i], a)
  }

  /** Every cycle the run begins, it begins before `u`. */
  ghost predicate BeginsBefore(c: Config, s: State, acts: seq<Act>, u: nat)
    requires c.Valid() && Runs(c, s, acts)
    decreases |acts|
  {
    acts == [] ||
    ((acts[0].Begin? ==> s.clock < u) && BeginsBefore(c, Step(c, s, acts[0]), acts[1..], u))
  }

  /** A note on `a` that lasts at least until `u`, and nothing on its way to lift it. */
  ghost predicate Noted(c: Config, s: State, a: Addr, u: nat) {
    a in s.notes && u <= s.notes[a] && !DropPending(s.feed, a) && u <= s.clock + c.Hold()
  }

  /** The cycle in progress has decided to want the address and has not yet come to add it. */
  predicate StillToAdd(rec: Cycle, a: Addr) {
    a in rec.Want() &&
    (rec.Desiring? || rec.Listing4? || rec.Listing6? || (rec.Adding? && a in rec.todo))
  }

  /** ...and the cycle in progress, if it has yet to test the rows, started inside the window, and
      has no add of the address ahead of it. */
  ghost predicate Protected(c: Config, s: State, a: Addr, u: nat) {
    Noted(c, s, a, u) && (s.rec.Fetching? || s.rec.Desiring? ==> s.rec.now < u) && !StillToAdd(s.rec, a)
  }

  ghost predicate Adds(act: Act, a: Addr) {
    act.AddOne? && act.addr == a
  }

  lemma StepKeepsNote(c: Config, s: State, act: Act, a: Addr, u: nat)
    requires c.Valid() && Noted(c, s, a, u) && Enabled(c, s, act) && !DropsOf(act, a)
    requires act.Begin? ==> s.clock < u
    ensures Noted(c, Step(c, s, act), a, u)
    ensures act.Begin? || Protected(c, s, a, u) ==> Protected(c, Step(c, s, act), a, u)
  {
    if act.Feed? {
      FeedKeepsNote(c, s, act.ok, a, u);
    } else if act.Test? {
      TestKeepsNote(c, s, a, u);
    } else if act.List? {
      ListKeepsNote(s, act.ok);
    }
  }

  lemma FeedKeepsNote(c: Config, s: State, ok: bool, a: Addr, u: nat)
    requires c.Valid() && Noted(c, s, a, u) && Enabled(c, s, Feed(ok))
    ensures var t := FeedStep(c, s, ok); Noted(c, t, a, u) && t.rec == s.rec && t.clock == s.clock
  {
  }

  lemma TestKeepsNote(c: Config, s: State, a: Addr, u: nat)
    requires c.Valid() && Noted(c, s, a, u) && Enabled(c, s, Test)
    ensures Noted(c, Step(c, s, Test), a, u)
    ensures Protected(c, s, a, u) ==> Protected(c, Step(c, s, Test), a, u)
  {
  }

  lemma ListKeepsNote(s: State, ok: bool)
    requires s.rec.Listing4? || s.rec.Listing6? || s.rec.Reading4? || s.rec.Reading6?
    ensures var t := ListStep(s, ok);
            t.notes == s.notes && t.clock == s.clock && t.feed == s.feed &&
            t.rec.Want() == s.rec.Want() && !t.rec.Fetching? && !t.rec.Desiring? &&
            (t.rec.Adding? ==> s.rec.Listing6?)
  {
  }

  /** The release note does its work: from a moment when it is written and the cycle in progress has
      no add of the address ahead of it, no cycle begun inside the window adds it, however the steps
      interleave, until a drop event for it arrives. */
  lemma {:induction false} ReleasedStaysOut(c: Config, s: State, acts: seq<Act>, a: Addr, u: nat)
    requires c.Valid() && Protected(c, s, a, u)
    requires Runs(c, s, acts) && NoDropOf(acts, a) && BeginsBefore(c, s, acts, u)
    ensures Protected(c, Exec(c, s, acts), a, u)
    ensures forall i :: 0 <= i < |acts| ==> !Adds(acts[i], a)
    decreases |acts|
  {
    if acts != [] {
      StepKeepsNote(c, s, acts[0], a, u);
      NoDropOfRest(acts, a);
      ReleasedStaysOut(c, Step(c, s, acts[0]), acts[1..], a, u);
      forall i | 0 <= i < |acts|
        ensures !Adds(acts[i], a)
      {
        assert i > 0 ==> acts[i] == acts[1..][i - 1];
      }
    }
  }

  lemma NoDropOfRest(acts: seq<Act>, a: Addr)
    requires acts != [] && NoDropOf(acts, a)
    ensures !DropsOf(acts[0], a) && NoDropOf(acts[1..], a)
  {
    assert forall i :: 0 <= i < |acts| - 1 ==> acts[1..][i] == acts[i + 1];
  }

  /** Consequently the address is not in the kernel either, unless it already was. */
  lemma {:induction false} ReleasedIsGone(c: Config, s: State, acts: seq<Act>, a: Addr, u: nat)
    requires c.Valid() && Protected(c, s, a, u) && a !in s.kernel
    requires Runs(c, s, acts) && NoDropOf(acts, a) && BeginsBefore(c, s, acts, u)
    ensures a !in Exec(c, s, acts).kernel
    decreases |acts|
  {
    if acts != [] {
      StepKeepsNote(c, s, acts[0], a, u);
      NoDropOfRest(acts, a);
      KernelGainsOnlyWanted(c, s, acts[0], a);
      ReleasedIsGone(c, Step(c, s, acts[0]), acts[1..], a, u);
    }
  }

  /** A release that lands after `desired` has admitted the address can be undone, but only by
      the cycle in progress: an add after the next cycle begins is impossible. */
  lemma {:induction false} LateReleaseUndoneOnce(c: Config, s: State, acts: seq<Act>, a: Addr, u: nat)
    requires c.Valid() && Noted(c, s, a, u)
    requires Runs(c, s, acts) && NoDropOf(acts, a) && BeginsBefore(c, s, acts, u)
    ensures forall i, j :: 0 <= j < i < |acts| && acts[j].Begin? ==> !Adds(acts[i], a)
    decreases |acts|
  {
    if acts != [] {
      var t := Step(c, s, acts[0]);
      StepKeepsNote(c, s, acts[0], a, u);
      NoDropOfRest(acts, a);
      LateReleaseUndoneOnce(c, t, acts[1..], a, u);
      if acts[0].Begin? {
        ReleasedStaysOut(c, t, acts[1..], a, u);
      }
      forall i, j | 0 <= j < i < |acts| && acts[j].Begin?
        ensures !Adds(acts[i], a)
      {
        assert acts[i] == acts[1..][i - 1];
        assert j > 0 ==> acts[j] == acts[1..][j - 1];
      }
    }
  }

  // ------------------------------------------------- a lost release is repaired

  /** This cycle has no reason to want `a`: neither its rows nor its wanted set name it,
      or a note will stop the rows that do. */
  ghost predicate Unwanted(c: Config, s: State, a: Addr) {
    a !in s.rec.Want() &&
    (s.rec.Desiring? && Names(s.rec.rows, a) ==> exists u :: Protected(c, s, a, u))
  }

  /** How far the cycle has got in taking `a` out of the kernel. */
  ghost predicate Sweeping(c: Config, s: State, a: Addr) {
    !DropPending(s.feed, a) && Unwanted(c, s, a) && SweptAt(s, a)
  }

  ghost predicate SweptAt(s: State, a: Addr) {
    match s.rec
    case Listing6(_, _, have) => a.V4? && a in s.kernel ==> a in have
    case Adding(_, _, have, todo) => (a in s.kernel ==> a in have) && a !in todo
    case Removing(_, _, _, todo) => a in s.kernel ==> a in todo
    case Reading4(_, _) => a !in s.kernel
    case Reading6(_, _, have) => a !in s.kernel && a !in have
    case Gathering(_, _, final) => a !in s.kernel && a !in final
    case Publishing(_, _, final, _) => a !in s.kernel && a !in final
    case Reporting(_, _, count) => count >= 0 ==> a !in s.kernel
    case _ => true
  }

  /** A step of a cycle that is going well, as far as `a` is concerned: nothing that could
      put it back, no second cycle, and a fetched list that leaves it out or a note. */
  ghost predicate Favours(c: Config, s: State, act: Act, a: Addr)
    requires c.Valid() && Enabled(c, s, act)
  {
    !DropsOf(act, a) && !act.Begin? && act != RemoveOne(a, false) &&
    (act.Fetch? && act.bans.Some? && Names(act.bans.value, a) ==> exists u :: Protected(c, s, a, u))
  }

  ghost predicate AllFavour(c: Config, s: State, acts: seq<Act>, a: Addr)
    requires c.Valid() && Runs(c, s, acts)
    decreases |acts|
  {
    acts == [] || (Favours(c, s, acts[0], a) && AllFavour(c, Step(c, s, acts[0]), acts[1..], a))
  }

  lemma StepKeepsUnwanted(c: Config, s: State, act: Act, a: Addr)
    requires c.Valid() && Unwanted(c, s, a) && !DropPending(s.feed, a)
    requires Enabled(c, s, act) && Favours(c, s, act, a)
    ensures Unwanted(c, Step(c, s, act), a)
  {
    if (s.rec.Desiring? && Names(s.rec.rows, a)) || (act.Fetch? && act.bans.Some? && Names(act.bans.value, a)) {
      var u :| Protected(c, s, a, u);
      StepKeepsNote(c, s, act, a, u);
    } else if act.Test? && s.rec.rows != [] {
      NamesRest(s.rec.rows, a);
    } else {
      var t := Step(c, s, act);
      assert t.rec.Want() == s.rec.Want() || t.rec.Want() == map[];
    }
  }

  lemma NamesRest(rows: seq<BanRow>, a: Addr)
    requires rows != [] && !Names(rows, a)
    ensures rows[0].ip.Some? ==> rows[0].ip.value.Unmap() != a
    ensures !Names(rows[1..], a)
  {
    assert forall i :: 0 <= i < |rows| - 1 ==> rows[1..][i] == rows[i + 1];
  }

  lemma FeedKeepsQuiet(c: Config, s: State, act: Act, a: Addr)
    requires c.Valid() && Enabled(c, s, act) && !DropPending(s.feed, a) && !DropsOf(act, a)
    ensures !DropPending(Step(c, s, act).feed, a)
  {
    if act.Feed? {
      FeedDropsNothingNew(c, s, act.ok, a);
    } else if !OfConsumer(act) {
      assert Step(c, s, act).feed == s.feed;
    }
  }

  lemma FeedDropsNothingNew(c: Config, s: State, ok: bool, a: Addr)
    requires c.Valid() && Enabled(c, s, Feed(ok))
    ensures DropPending(FeedStep(c, s, ok).feed, a) ==> DropPending(s.feed, a)
  {
    FeedGoesOn(c, s, ok);
  }

  lemma KernelGainsOnlyWanted(c: Config, s: State, act: Act, a: Addr)
    requires c.Valid() && Enabled(c, s, act) && !DropPending(s.feed, a) && !DropsOf(act, a)
    ensures !DropPending(Step(c, s, act).feed, a)
    ensures a in Step(c, s, act).kernel ==> a in s.kernel || Adds(act, a)
  {
    FeedKeepsQuiet(c, s, act, a);
    OnlyTwoStepsGain(c, s, act, a);
  }

  lemma StepKeepsSweeping(c: Config, s: State, act: Act, a: Addr)
    requires c.Valid() && Sweeping(c, s, a) && Enabled(c, s, act) && Favours(c, s, act, a)
    ensures Sweeping(c, Step(c, s, act), a)
  {
    var t := Step(c, s, act);
    StepKeepsUnwanted(c, s, act, a);
    KernelGainsOnlyWanted(c, s, act, a);
    if s.rec != t.rec && !act.Test? && !act.Fetch? && !act.Report? {
      SweepAdvances(c, s, act, a);
    }
  }

  lemma SweepAdvances(c: Config, s: State, act: Act, a: Addr)
    requires c.Valid() && Sweeping(c, s, a) && Enabled(c, s, act) && Favours(c, s, act, a)
    requires !OfConsumer(act) && !act.Test? && !act.Fetch? && !act.Report?
    ensures SweptAt(Step(c, s, act), a)
  {
  }

  /** The backstop: take any cycle from its fetch on, interleaved with anything but a drop of
      `a`. If the list it fetched leaves `a` out (or a note covers `a`) and the kernel call
      removing `a` does not fail, then once the removals are done `a` is out of the kernel,
      and what the cycle reads back and publishes leaves it out too. */
  lemma {:induction false} NextCycleRemoves(c: Config, s: State, acts: seq<Act>, a: Addr)
    requires c.Valid() && Sweeping(c, s, a) && Runs(c, s, acts) && AllFavour(c, s, acts, a)
    ensures Sweeping(c, Exec(c, s, acts), a)
    decreases |acts|
  {
    if acts != [] {
      StepKeepsSweeping(c, s, acts[0], a);
      NextCycleRemoves(c, Step(c, s, acts[0]), acts[1..], a);
    }
  }

  /** One whole cycle, read from the outside: begun with no drop of `a` half taken in, favourable
      to `a` throughout, and far enough along to have read the kernel back successfully. */
  lemma CycleRepairs(c: Config, s: State, acts: seq<Act>, a: Addr)
    requires c.Valid() && Enabled(c, s, Begin) && !DropPending(s.feed, a)
    requires Runs(c, Step(c, s, Begin), acts) && AllFavour(c, Step(c, s, Begin), acts, a)
    ensures var t := Exec(c, Step(c, s, Begin), acts);
            (t.rec.Reading4? || t.rec.Reading6? || t.rec.Gathering? || t.rec.Publishing? ||
             (t.rec.Reporting? && t.rec.count >= 0)) ==>
            a !in t.kernel && (t.rec.Gathering? || t.rec.Publishing? ==> a !in t.rec.final)
  {
    assert Sweeping(c, Step(c, s, Begin), a);
    NextCycleRemoves(c, Step(c, s, Begin), acts, a);
  }
}
