/** Releases and drops that one cycle can still undo: exactly which, and runs in which it happens. */
module KbanRelease {
  import opened Wrappers
  import opened NetAddr
  import opened NeverDrop
  import opened ConfiguredRanges
  import opened KbanMachine
  import opened KbanRuns
  import opened KbanSafety

  // --------------------------------------------------- a release undone, exactly

  ghost predicate AddsIn(acts: seq<Act>, a: Addr) {
    exists i :: 0 <= i < |acts| && Adds(acts[i], a)
  }

  /** There is a continuation, with no new drop of `a` and with its cycles begun before `u`, in which
      the agent goes to add `a`. */
  ghost predicate CanBeUndone(c: Config, s: State, a: Addr, u: nat)
    requires c.Valid()
  {
    exists acts :: Runs(c, s, acts) && NoDropOf(acts, a) && BeginsBefore(c, s, acts, u) && AddsIn(acts, a)
  }

  /** The reconcile loop going about its cycle: nothing begun, nothing removed, nothing told. */
  predicate OnlyForward(acts: seq<Act>) {
    forall i :: 0 <= i < |acts| ==> acts[i].Test? || acts[i].List? || acts[i].AddOne?
  }

  ghost predicate Undoes(c: Config, s: State, acts: seq<Act>, a: Addr)
    requires c.Valid()
  {
    OnlyForward(acts) && Runs(c, s, acts) && AddsIn(acts, a) && a in Exec(c, s, acts).kernel
  }

  lemma UndoesFirst(c: Config, s: State, act: Act, rest: seq<Act>, a: Addr)
    requires c.Valid() && Enabled(c, s, act) && (act.Test? || act.List?) && Undoes(c, Step(c, s, act), rest, a)
    ensures Undoes(c, s, [act] + rest, a)
  {
    var acts := [act] + rest;
    assert acts[1..] == rest;
    var i :| 0 <= i < |rest| && Adds(rest[i], a);
    assert Adds(acts[i + 1], a);
  }

  lemma UndoesLast(c: Config, s: State, a: Addr)
    requires c.Valid() && Inv(c, s) && s.rec.Adding? && StillToAdd(s.rec, a)
    ensures Undoes(c, s, [AddOne(a, true)], a)
  {
    var acts := [AddOne(a, true)];
    RunsOne(c, s, acts[0]);
    assert Adds(acts[0], a);
  }

  function PhasesLeft(rec: Cycle): nat {
    if rec.Desiring? then 3 else if rec.Listing4? then 2 else if rec.Listing6? then 1 else 0
  }

  function RowsLeft(rec: Cycle): seq<BanRow> {
    if rec.Desiring? then rec.rows else []
  }

  lemma {:induction false} CycleGoesOn(c: Config, s: State, a: Addr) returns (acts: seq<Act>)
    requires c.Valid() && Inv(c, s) && StillToAdd(s.rec, a)
    ensures Undoes(c, s, acts, a)
    decreases PhasesLeft(s.rec), |RowsLeft(s.rec)|
  {
    if s.rec.Adding? {
      acts := [AddOne(a, true)];
      UndoesLast(c, s, a);
    } else {
      var act := if s.rec.Desiring? then Test else List(true);
      StepKeepsInv(c, s, act);
      var rest := CycleGoesOn(c, Step(c, s, act), a);
      acts := [act] + rest;
      UndoesFirst(c, s, act, rest, a);
    }
  }

  lemma {:induction false} ForwardBeginsNothing(c: Config, s: State, acts: seq<Act>, u: nat)
    requires c.Valid() && Runs(c, s, acts) && OnlyForward(acts)
    ensures BeginsBefore(c, s, acts, u)
    decreases |acts|
  {
    if acts != [] {
      assert forall i :: 0 <= i < |acts| - 1 ==> acts[1..][i] == acts[i + 1];
      ForwardBeginsNothing(c, Step(c, s, acts[0]), acts[1..], u);
    }
  }

  /** There is such a continuation that ends with `a` in the kernel. */
  ghost predicate CanEndUpBanned(c: Config, s: State, a: Addr, u: nat)
    requires c.Valid()
  {
    exists acts :: Runs(c, s, acts) && NoDropOf(acts, a) && BeginsBefore(c, s, acts, u) && a in Exec(c, s, acts).kernel
  }

  /** An address under a note can end up in the kernel without a new drop if and only if it is there
      already or the cycle in progress still has its add ahead. */
  lemma EndsUpBannedIff(c: Config, s: State, a: Addr, u: nat)
    requires c.Valid() && Inv(c, s) && Noted(c, s, a, u)
    requires s.rec.Fetching? || s.rec.Desiring? ==> s.rec.now < u
    ensures CanEndUpBanned(c, s, a, u) <==> a in s.kernel || StillToAdd(s.rec, a)
  {
    if a in s.kernel {
      var none: seq<Act> := [];
      assert Runs(c, s, none) && NoDropOf(none, a) && BeginsBefore(c, s, none, u) && Exec(c, s, none) == s;
    } else if StillToAdd(s.rec, a) {
      var acts := CycleGoesOn(c, s, a);
      ForwardBeginsNothing(c, s, acts, u);
      assert NoDropOf(acts, a);
    } else {
      assert Protected(c, s, a, u);
      forall acts | Runs(c, s, acts) && NoDropOf(acts, a) && BeginsBefore(c, s, acts, u)
        ensures a !in Exec(c, s, acts).kernel
      {
        ReleasedIsGone(c, s, acts, a, u);
      }
    }
  }

  /** A noted release can be undone if and only if the cycle in progress wants the address and still
      has its add ahead: before it, the note stops the cycle; after it, the cycle has nothing left
      that could put the address back. */
  lemma UndoneIff(c: Config, s: State, a: Addr, u: nat)
    requires c.Valid() && Inv(c, s) && Noted(c, s, a, u)
    requires s.rec.Fetching? || s.rec.Desiring? ==> s.rec.now < u
    ensures CanBeUndone(c, s, a, u) <==> StillToAdd(s.rec, a)
  {
    if StillToAdd(s.rec, a) {
      var acts := CycleGoesOn(c, s, a);
      ForwardBeginsNothing(c, s, acts, u);
      assert NoDropOf(acts, a);
    } else {
      assert Protected(c, s, a, u);
      forall acts | Runs(c, s, acts) && NoDropOf(acts, a) && BeginsBefore(c, s, acts, u)
        ensures !AddsIn(acts, a)
      {
        ReleasedStaysOut(c, s, acts, a, u);
      }
    }
  }

  /** The consumer writes a release's note for two intervals. From then on the released address can
      end up in the kernel without a new drop exactly when it is there again already - the cycle may
      have added it between the removal and the note - or its add is still ahead. */
  lemma MarkProtects(c: Config, s: State)
    requires c.Valid() && Inv(c, s) && s.feed.Marking?
    ensures var u := s.clock + c.Hold();
            Noted(c, Step(c, s, Feed(true)), s.feed.addr, u) &&
            (CanEndUpBanned(c, Step(c, s, Feed(true)), s.feed.addr, u) <==>
             s.feed.addr in s.kernel || StillToAdd(s.rec, s.feed.addr))
  {
    StepKeepsInv(c, s, Feed(true));
    EndsUpBannedIff(c, Step(c, s, Feed(true)), s.feed.addr, s.clock + c.Hold());
  }

  /** The same for every address release_all comes to note. */
  lemma MarkAllProtects(c: Config, s: State, a: Addr)
    requires c.Valid() && Inv(c, s) && Enabled(c, s, FeedMark(a))
    ensures var u := s.clock + c.Hold();
            Noted(c, Step(c, s, FeedMark(a)), a, u) &&
            (CanEndUpBanned(c, Step(c, s, FeedMark(a)), a, u) <==> a in s.kernel || StillToAdd(s.rec, a))
  {
    StepKeepsInv(c, s, FeedMark(a));
    EndsUpBannedIff(c, Step(c, s, FeedMark(a)), a, s.clock + c.Hold());
  }

  // ------------------------------------------------------------ from rest, step by step

  const RESTING := State(0, {}, map[], map[], map[], [], None, Waiting, Idle)
  const VISITOR := V4(0x0102_0304)

  /** A late release undone: with `t1` a state in which the consumer has finished releasing the
      visitor, gone from the kernel and noted, the reconcile loop's own steps alone put it back. */
  lemma ReleaseCanBeUndone(c: Config) returns (t1: State, t2: State)
    requires c.Valid() && !Covered(c.never, VISITOR)
    ensures Reaches(c, RESTING, t1, Both) && t1.feed.Waiting? && VISITOR !in t1.kernel
    ensures Noted(c, t1, VISITOR, t1.clock + c.Hold())
    ensures Reaches(c, t1, t2, LoopAlone) && VISITOR in t2.kernel
  {
    var at := Desiring(0, map[VISITOR := 60], []);
    VisitorWanted(c);
    VisitorReleased(c, at);
    t1 := RESTING.(rec := at, notes := map[VISITOR := c.Hold()]);
    var acts := CycleGoesOn(c, t1, VISITOR);
    t2 := Exec(c, t1, acts);
    assert Undisturbed(acts, LoopAlone);
  }

  /** The agent can be configured so: loopback and 192.168.0.0/16 are kept safe, and the visitor is
      not. */
  lemma VisitorCanBeBanned(resync: nat) returns (c: Config)
    requires 0 < resync
    ensures c.Valid() && c.resync == resync && !Covered(c.never, VISITOR)
    ensures var m := [Bare(V4(0x7F00_0001)), Cidr(INFRASTRUCTURE[6])];
            (forall x :: x in m + [] ==> x.Valid()) && Built(m, []) == Some(c.never)
  {
    var p := INFRASTRUCTURE[6];
    StrangerOutside(6);
    StrangerUncovered(p);
    c := Config(Built([Bare(V4(0x7F00_0001)), Cidr(p)], []).value, resync);
  }

  /** The gap between removing and noting: the release is taken in and the address removed, the cycle
      in progress adds it, and only then is it noted; it is in the kernel with its note written. */
  lemma AddCanPrecedeNote(c: Config) returns (t1: State)
    requires c.Valid() && !Covered(c.never, VISITOR)
    ensures Reaches(c, RESTING, t1, Both) && VISITOR in t1.kernel && !StillToAdd(t1.rec, VISITOR)
    ensures Noted(c, t1, VISITOR, t1.clock + c.Hold()) && t1.feed == Forgetting(VISITOR)
  {
    var want := map[VISITOR := 60];
    var s0 := RESTING;
    var s1 := s0.(rec := Adding(0, want, {}, {VISITOR}));
    VisitorListed(c, want);
    var s2 := s1.(feed := ReleasingOne(VISITOR));
    var s3 := s1.(feed := Marking(VISITOR));
    assert s0.kernel - {VISITOR} == {};
    ReachesNext(c, s0, s1, Receive(Release(Some(VISITOR))), s2, Both);
    ReachesNext(c, s0, s2, Feed(true), s3, Both);
    var s4 := s3.(rec := Adding(0, want, {}, {}), kernel := {VISITOR});
    assert {VISITOR} - {VISITOR} == {} && {} + {VISITOR} == {VISITOR};
    ReachesNext(c, s0, s3, AddOne(VISITOR, true), s4, Both);
    t1 := s4.(feed := Forgetting(VISITOR), notes := map[VISITOR := c.Hold()]);
    ReachesNext(c, s0, s4, Feed(true), t1, Both);
  }

  /** The cycle that wants the visitor has listed an empty kernel. */
  lemma VisitorListed(c: Config, want: map<Addr, int>)
    requires c.Valid() && !Covered(c.never, VISITOR) && want == map[VISITOR := 60]
    ensures Reaches(c, RESTING, RESTING.(rec := Adding(0, want, {}, {VISITOR})), Both)
  {
    var s0 := RESTING;
    VisitorWanted(c);
    ReachesNext(c, s0, s0.(rec := Desiring(0, want, [])), Test, s0.(rec := Listing4(0, want)), Both);
    assert FamilyOf({}, true) == {} && FamilyOf({}, false) == {};
    ReachesNext(c, s0, s0.(rec := Listing4(0, want)), List(true), s0.(rec := Listing6(0, want, {})), Both);
    assert {} + FamilyOf({}, false) == {} && want.Keys == {VISITOR};
    ReachesNext(c, s0, s0.(rec := Listing6(0, want, {})), List(true), s0.(rec := Adding(0, want, {}, {VISITOR})), Both);
  }

  /** The consumer takes in and finishes a release of the visitor while a cycle is at `at`. */
  lemma VisitorReleased(c: Config, at: Cycle)
    requires c.Valid() && Reaches(c, RESTING, RESTING.(rec := at), Both)
    ensures Reaches(c, RESTING, RESTING.(rec := at, notes := map[VISITOR := c.Hold()]), Both)
  {
    var s0 := RESTING;
    var s1 := s0.(rec := at);
    var s2 := s1.(feed := ReleasingOne(VISITOR));
    var s3 := s1.(feed := Marking(VISITOR));
    assert s0.kernel - {VISITOR} == {} && s0.applied - {VISITOR} == map[] && s0.refused - {VISITOR} == map[];
    ReachesNext(c, s0, s1, Receive(Release(Some(VISITOR))), s2, Both);
    ReachesNext(c, s0, s2, Feed(true), s3, Both);
    var s4 := s1.(feed := Forgetting(VISITOR), notes := map[VISITOR := c.Hold()]);
    ReachesNext(c, s0, s3, Feed(true), s4, Both);
    ReachesNext(c, s0, s4, Feed(true), s1.(notes := map[VISITOR := c.Hold()]), Both);
  }

  /** The visitor's ban is fetched and admitted. */
  lemma VisitorWanted(c: Config)
    requires c.Valid() && !Covered(c.never, VISITOR)
    ensures Reaches(c, RESTING, RESTING.(rec := Desiring(0, map[VISITOR := 60], [])), Both)
  {
    var row := BanRow(Some(VISITOR), 60);
    var s0 := RESTING;
    ReachesItself(c, s0, Both);
    assert Pruned(map[], 0) == map[];
    ReachesNext(c, s0, s0, Begin, s0.(rec := Fetching(0)), Both);
    ReachesNext(c, s0, s0.(rec := Fetching(0)), Fetch(Some([row])), s0.(rec := Desiring(0, map[], [row])), Both);
    assert [row][1..] == [] && TestRow(c, map[], 0, row, map[]) == map[VISITOR := 60];
    ReachesNext(c, s0, s0.(rec := Desiring(0, map[], [row])), Test, s0.(rec := Desiring(0, map[VISITOR := 60], [])), Both);
  }

  /** And a drop can be undone: with `t1` a state in which the consumer has finished dropping the
      visitor, the reconcile loop's own steps alone take it out again. */
  lemma DropCanBeUndone(c: Config) returns (t1: State, t2: State)
    requires c.Valid() && !Covered(c.never, VISITOR)
    ensures Reaches(c, RESTING, t1, Both) && t1.feed.Waiting? && VISITOR in t1.kernel && VISITOR in t1.applied
    ensures Reaches(c, t1, t2, LoopAlone) && VISITOR !in t2.kernel
  {
    var s0 := RESTING;
    var at := Desiring(0, map[], []);
    ReachesItself(c, s0, Both);
    assert Pruned(map[], 0) == map[];
    ReachesNext(c, s0, s0, Begin, s0.(rec := Fetching(0)), Both);
    ReachesNext(c, s0, s0.(rec := Fetching(0)), Fetch(Some([])), s0.(rec := at), Both);
    ReachesNext(c, s0, s0.(rec := at), Receive(Drop(Some(VISITOR), 60)), s0.(rec := at, feed := ClearingNote(VISITOR, 60)), Both);
    assert s0.notes - {VISITOR} == map[];
    ReachesNext(c, s0, s0.(rec := at, feed := ClearingNote(VISITOR, 60)), Feed(true), s0.(rec := at, feed := DroppingOne(VISITOR)), Both);
    t1 := s0.(rec := at, feed := Waiting, kernel := {VISITOR}, applied := map[VISITOR := 0]);
    var mid := s0.(rec := at, feed := NotingApplied(VISITOR), kernel := {VISITOR});
    ReachesNext(c, s0, s0.(rec := at, feed := DroppingOne(VISITOR)), Feed(true), mid, Both);
    assert s0.refused - {VISITOR} == map[];
    ReachesNext(c, s0, mid, Feed(true), t1, Both);
    t2 := VisitorSwept(c, t1);
  }

  lemma VisitorSwept(c: Config, t1: State) returns (t2: State)
    requires c.Valid() && t1.kernel == {VISITOR} && t1.rec == Desiring(0, map[], [])
    ensures Reaches(c, t1, t2, LoopAlone) && VISITOR !in t2.kernel
  {
    var none: map<Addr, int> := map[];
    assert none.Keys == {};
    ReachesItself(c, t1, LoopAlone);
    ReachesNext(c, t1, t1, Test, t1.(rec := Listing4(0, none)), LoopAlone);
    assert FamilyOf({VISITOR}, true) == {VISITOR} && FamilyOf({VISITOR}, false) == {};
    assert {VISITOR} + FamilyOf({VISITOR}, false) == {VISITOR};
    ReachesNext(c, t1, t1.(rec := Listing4(0, none)), List(true), t1.(rec := Listing6(0, none, {VISITOR})), LoopAlone);
    ReachesNext(c, t1, t1.(rec := Listing6(0, none, {VISITOR})), List(true), t1.(rec := Adding(0, none, {VISITOR}, {})), LoopAlone);
    ReachesNext(c, t1, t1.(rec := Adding(0, none, {VISITOR}, {})), NextPhase, t1.(rec := Removing(0, none, {VISITOR}, {VISITOR})), LoopAlone);
    t2 := Step(c, t1.(rec := Removing(0, none, {VISITOR}, {VISITOR})), RemoveOne(VISITOR, true));
    ReachesNext(c, t1, t1.(rec := Removing(0, none, {VISITOR}, {VISITOR})), RemoveOne(VISITOR, true), t2, LoopAlone);
  }

  ghost predicate Removes(act: Act, a: Addr) {
    act.RemoveOne? && act.addr == a
  }

  // ------------------------------------------------------ a drop undone, exactly

  /** Steps of the reconcile loop within the cycle in progress, and time: nothing from the consumer,
      no expiry, no new cycle. */
  predicate CycleAlone(act: Act) {
    !OfConsumer(act) && !act.Expire? && !act.Begin?
  }

  /** The cycle in progress, as things stand, is going to leave `a` out of what it keeps: its list is
      yet to come, or does not want `a`, and its listing has taken `a` in or is yet to. */
  ghost predicate Doomed(c: Config, s: State, a: Addr)
    requires c.Valid()
  {
    match s.rec
    case Fetching(_) => true
    case Desiring(now, want, rows) => a !in Desired(c, s.notes, now, rows, want)
    case Listing4(_, want) => a !in want
    case Listing6(_, want, have) => a !in want && (a.V4? ==> a in have)
    case Adding(_, _, _, _) => StillToRemove(s.rec, a)
    case Removing(_, _, _, _) => StillToRemove(s.rec, a)
    case _ => false
  }

  /** Left to itself the cycle never dooms an address it had spared, and keeps it in the kernel until
      it removes it. */
  lemma AloneStep(c: Config, s: State, act: Act, a: Addr)
    requires c.Valid() && a in s.kernel && Enabled(c, s, act) && CycleAlone(act)
    ensures Removes(act, a) ==> Doomed(c, s, a)
    ensures !Removes(act, a) ==> a in Step(c, s, act).kernel && (Doomed(c, Step(c, s, act), a) ==> Doomed(c, s, a))
  {
  }

  ghost predicate AllAlone(acts: seq<Act>) {
    forall i :: 0 <= i < |acts| ==> CycleAlone(acts[i])
  }

  lemma {:induction false} SparedStays(c: Config, s: State, acts: seq<Act>, a: Addr)
    requires c.Valid() && a in s.kernel && Runs(c, s, acts) && AllAlone(acts) && !Doomed(c, s, a)
    ensures a in Exec(c, s, acts).kernel
    decreases |acts|
  {
    if acts != [] {
      assert forall i :: 0 <= i < |acts| - 1 ==> acts[1..][i] == acts[i + 1];
      AloneStep(c, s, acts[0], a);
      SparedStays(c, Step(c, s, acts[0]), acts[1..], a);
    }
  }

  /** The next step of a cycle in which nothing fails; an empty list, if it is yet to be fetched. */
  ghost function Onward(s: State, a: Addr): Act
    requires s.rec.Fetching? || s.rec.Desiring? || s.rec.Listing4? || s.rec.Listing6? || s.rec.Adding? || s.rec.Removing?
  {
    if s.rec.Fetching? then Fetch(Some([]))
    else if s.rec.Desiring? then Test
    else if s.rec.Listing4? || s.rec.Listing6? then List(true)
    else if s.rec.Removing? then RemoveOne(a, true)
    else if s.rec.todo == {} then NextPhase
    else
      var b :| b in s.rec.todo;
      AddOne(b, true)
  }

  /** What is left to add is part of what is wanted. */
  predicate TodoWanted(rec: Cycle) {
    rec.Adding? ==> rec.todo <= rec.want.Keys
  }

  lemma StepKeepsTodo(c: Config, s: State, act: Act)
    requires c.Valid() && TodoWanted(s.rec) && Enabled(c, s, act)
    ensures TodoWanted(Step(c, s, act).rec)
  {
    if act.Feed? {
      FeedLeavesCycle(c, s, act.ok);
    }
  }

  function StagesLeft(rec: Cycle): nat {
    if rec.Fetching? then 5
    else if rec.Desiring? then 4
    else if rec.Listing4? then 3
    else if rec.Listing6? then 2
    else if rec.Adding? then 1
    else 0
  }

  function WorkLeft(rec: Cycle): nat {
    if rec.Desiring? then |rec.rows| else if rec.Adding? then |rec.todo| else 0
  }

  lemma OnwardIsDoomed(c: Config, s: State, a: Addr)
    requires c.Valid() && a in s.kernel && Doomed(c, s, a) && TodoWanted(s.rec) && !s.rec.Removing?
    ensures var act := Onward(s, a);
            Enabled(c, s, act) && CycleAlone(act) && a in Step(c, s, act).kernel && Doomed(c, Step(c, s, act), a) &&
            (StagesLeft(Step(c, s, act).rec) < StagesLeft(s.rec) ||
             (StagesLeft(Step(c, s, act).rec) == StagesLeft(s.rec) && WorkLeft(Step(c, s, act).rec) < WorkLeft(s.rec)))
  {
  }

  lemma AloneFirst(c: Config, s: State, act: Act, rest: seq<Act>)
    requires c.Valid() && Enabled(c, s, act) && CycleAlone(act) && Runs(c, Step(c, s, act), rest) && AllAlone(rest)
    ensures Runs(c, s, [act] + rest) && AllAlone([act] + rest)
    ensures Exec(c, s, [act] + rest) == Exec(c, Step(c, s, act), rest)
  {
    assert ([act] + rest)[1..] == rest;
  }

  lemma {:induction false} DoomedIsRemoved(c: Config, s: State, a: Addr) returns (acts: seq<Act>)
    requires c.Valid() && a in s.kernel && Doomed(c, s, a) && TodoWanted(s.rec)
    ensures Runs(c, s, acts) && AllAlone(acts) && a !in Exec(c, s, acts).kernel
    decreases StagesLeft(s.rec), WorkLeft(s.rec)
  {
    if s.rec.Removing? {
      acts := [RemoveOne(a, true)];
      RunsOne(c, s, acts[0]);
    } else {
      var act := Onward(s, a);
      OnwardIsDoomed(c, s, a);
      StepKeepsTodo(c, s, act);
      var rest := DoomedIsRemoved(c, Step(c, s, act), a);
      AloneFirst(c, s, act, rest);
      acts := [act] + rest;
    }
  }

  /** Exactly when the cycle in progress, left to itself, can undo a drop that has been carried out:
      when its list is yet to be fetched, or does not want the address - by the rows still to be
      tested and the notes as they stand - and the listing has taken the address in or is yet to. */
  lemma DropUndoneIff(c: Config, s: State, a: Addr)
    requires c.Valid() && a in s.kernel && TodoWanted(s.rec)
    ensures (exists acts :: Runs(c, s, acts) && AllAlone(acts) && a !in Exec(c, s, acts).kernel) <==> Doomed(c, s, a)
  {
    if Doomed(c, s, a) {
      var acts := DoomedIsRemoved(c, s, a);
    } else {
      forall acts | Runs(c, s, acts) && AllAlone(acts)
        ensures a in Exec(c, s, acts).kernel
      {
        SparedStays(c, s, acts, a);
      }
    }
  }

  /** The cycle in progress has the removal of `a` ahead of it. */
  predicate StillToRemove(rec: Cycle, a: Addr) {
    if rec.Adding? then a in rec.have && a !in rec.want else rec.Removing? && a in rec.todo
  }

  lemma RemovalStep(c: Config, s: State, act: Act, a: Addr)
    requires c.Valid() && (s.rec.Adding? || s.rec.Removing?) && Enabled(c, s, act) && !act.List?
    ensures var rec := Step(c, s, act).rec;
            (rec.Adding? || rec.Removing? || rec.Reading4?) &&
            (StillToRemove(s.rec, a) <==> Removes(act, a) || StillToRemove(rec, a))
  {
    if act.Feed? {
      FeedLeavesCycle(c, s, act.ok);
    }
  }

  ghost predicate RemovesIn(acts: seq<Act>, a: Addr) {
    exists i :: 0 <= i < |acts| && Removes(acts[i], a)
  }

  lemma RemovesFirstOrLater(acts: seq<Act>, a: Addr)
    requires acts != []
    ensures RemovesIn(acts, a) <==> Removes(acts[0], a) || RemovesIn(acts[1..], a)
  {
    var rest := acts[1..];
    if RemovesIn(rest, a) {
      var i :| 0 <= i < |rest| && Removes(rest[i], a);
      assert Removes(acts[i + 1], a);
    }
    if RemovesIn(acts, a) {
      var i :| 0 <= i < |acts| && Removes(acts[i], a);
      assert i > 0 ==> Removes(rest[i - 1], a);
    }
  }

  /** Exactly when that happens: a cycle that has listed the kernel and goes on to finish its
      removals tries to remove an address if and only if the listing held it and the ban list
      did not want it. A drop survives the cycle if it lands after the listing or is wanted. */
  lemma {:induction false} RemovedIffListedUnwanted(c: Config, s: State, acts: seq<Act>, a: Addr)
    requires c.Valid() && (s.rec.Adding? || s.rec.Removing?)
    requires Runs(c, s, acts) && Exec(c, s, acts).rec.Reading4?
    requires forall i :: 0 <= i < |acts| ==> !acts[i].List?
    ensures RemovesIn(acts, a) <==>
            if s.rec.Adding? then a in s.rec.have && a !in s.rec.want else a in s.rec.todo
    decreases |acts|
  {
    var t := Step(c, s, acts[0]);
    var rest := acts[1..];
    assert forall i :: 0 <= i < |rest| ==> rest[i] == acts[i + 1];
    RemovalStep(c, s, acts[0], a);
    RemovesFirstOrLater(acts, a);
    if t.rec.Reading4? {
      StaysReading(c, t, rest, a);
    } else {
      RemovedIffListedUnwanted(c, t, rest, a);
    }
  }

  lemma {:induction false} StaysReading(c: Config, s: State, acts: seq<Act>, a: Addr)
    requires c.Valid() && s.rec.Reading4? && Runs(c, s, acts)
    requires forall i :: 0 <= i < |acts| ==> !acts[i].List?
    ensures !RemovesIn(acts, a)
    decreases |acts|
  {
    if acts != [] {
      assert forall i :: 0 <= i < |acts| - 1 ==> acts[1..][i] == acts[i + 1];
      if acts[0].Feed? {
        FeedLeavesCycle(c, s, acts[0].ok);
      }
      assert Step(c, s, acts[0]).rec == s.rec;
      StaysReading(c, Step(c, s, acts[0]), acts[1..], a);
      RemovesFirstOrLater(acts, a);
    }
  }
}
