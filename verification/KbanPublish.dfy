/** When the published view tells the truth about the kernel. */
module KbanPublish {
  import opened Wrappers
  import opened NetAddr
  import opened NeverDrop
  import opened KbanMachine
  import opened KbanRuns
  import opened KbanSafety
  import opened KbanRelease

  // ------------------------------------------------ what happens to one address

  /** The kernel lets go of `a`: its timeout, a release of it, or the flush of its family. */
  predicate Loses(s: State, act: Act, a: Addr) {
    act == Expire(a) ||
    (act == Feed(true) &&
     (s.feed == ReleasingOne(a) || (s.feed.Flush4? && a.V4?) || (s.feed.Flush6? && !a.V4?)))
  }

  /** The consumer drops `a`. */
  predicate Regains(s: State, act: Act, a: Addr) {
    act == Feed(true) && s.feed == DroppingOne(a)
  }

  /** The cycle has already read back the family `a` belongs to. */
  predicate HasRead(rec: Cycle, a: Addr) {
    (a.V4? && rec.Reading6?) || rec.Gathering? || rec.Publishing?
  }

  /** Somewhere in the run `a` is dropped. */
  ghost predicate Redropped(c: Config, s: State, acts: seq<Act>, a: Addr)
    requires c.Valid() && Runs(c, s, acts)
    decreases |acts|
  {
    acts != [] && (Regains(s, acts[0], a) || Redropped(c, Step(c, s, acts[0]), acts[1..], a))
  }

  /** Every loss of `a` after its family was read back is followed by another drop of it. */
  ghost predicate Recovered(c: Config, s: State, acts: seq<Act>, a: Addr)
    requires c.Valid() && Runs(c, s, acts)
    decreases |acts|
  {
    acts == [] ||
    ((HasRead(s.rec, a) && Loses(s, acts[0], a) ==> Redropped(c, Step(c, s, acts[0]), acts[1..], a)) &&
     Recovered(c, Step(c, s, acts[0]), acts[1..], a))
  }

  // --------------------------------------------------- from read-back to rename

  /** Neither a rename nor a new cycle: one cycle between its read-back and its publish. */
  predicate BeforePublish(acts: seq<Act>) {
    forall i :: 0 <= i < |acts| ==> !acts[i].Publish? && !acts[i].Begin?
  }

  /** Where such a cycle can be; the last two only if the read-back failed. */
  ghost predicate Telling(rec: Cycle) {
    rec.Reading4? || (rec.Reading6? && forall b :: b in rec.have ==> b.V4?) || rec.Gathering? || rec.Publishing? ||
    rec.Reporting? || rec.Idle?
  }

  /** What has been read of the kernel so far. */
  function ReadSoFar(rec: Cycle): set<Addr> {
    if rec.Reading6? then rec.have else if rec.Gathering? || rec.Publishing? then rec.final else {}
  }

  lemma StayTelling(c: Config, s: State, act: Act)
    requires c.Valid() && Telling(s.rec) && Enabled(c, s, act) && !act.Publish? && !act.Begin?
    ensures Telling(Step(c, s, act).rec)
    ensures s.rec.Reporting? || s.rec.Idle? ==> Step(c, s, act).rec.Reporting? || Step(c, s, act).rec.Idle?
  {
    if act.Feed? {
      FeedSays(c, s, act.ok);
    }
  }

  /** While a cycle tells, only the consumer and time touch the kernel. */
  lemma KernelByEvents(c: Config, s: State, act: Act, a: Addr)
    requires c.Valid() && Telling(s.rec) && Enabled(c, s, act)
    ensures a in Step(c, s, act).kernel <==> Regains(s, act, a) || (a in s.kernel && !Loses(s, act, a))
  {
    if act.Feed? {
      FeedKernel(c, s, act.ok, a);
    }
  }

  lemma FeedKernel(c: Config, s: State, ok: bool, a: Addr)
    requires c.Valid() && Enabled(c, s, Feed(ok))
    ensures a in FeedStep(c, s, ok).kernel <==> Regains(s, Feed(ok), a) || (a in s.kernel && !Loses(s, Feed(ok), a))
  {
  }

  /** What one step of the telling does with `a`: what was read of it stays, and the step that reads
      its family takes in exactly what the kernel holds. */
  ghost predicate ReadFaithfully(s: State, t: State, a: Addr) {
    if HasRead(s.rec, a) then HasRead(t.rec, a) && (a in ReadSoFar(t.rec) <==> a in ReadSoFar(s.rec))
    else HasRead(t.rec, a) ==> t.kernel == s.kernel && (a in ReadSoFar(t.rec) <==> a in s.kernel)
  }

  lemma ListReads(s: State, a: Addr)
    requires Telling(s.rec) && (s.rec.Reading4? || s.rec.Reading6?)
    ensures ReadFaithfully(s, ListStep(s, true), a)
  {
  }

  lemma SameCycleReads(s: State, t: State, a: Addr)
    requires t.rec == s.rec
    ensures ReadFaithfully(s, t, a)
  {
  }

  lemma ReadsWhatIsThere(c: Config, s: State, act: Act, a: Addr)
    requires c.Valid() && Telling(s.rec) && Enabled(c, s, act) && !act.Publish? && !act.Begin?
    requires !Step(c, s, act).rec.Reporting? && !Step(c, s, act).rec.Idle?
    ensures ReadFaithfully(s, Step(c, s, act), a)
  {
    var t := Step(c, s, act);
    if act.List? {
      ListReads(s, a);
    } else if act.Feed? {
      FeedSays(c, s, act.ok);
      SameCycleReads(s, t, a);
    } else if !act.Gather? {
      assert t.rec == s.rec;
      SameCycleReads(s, t, a);
    }
  }

  /** Nothing leads from a failed read-back to a publish. */
  lemma {:induction false} FailedNeverPublishes(c: Config, s: State, acts: seq<Act>)
    requires c.Valid() && (s.rec.Reporting? || s.rec.Idle?) && Runs(c, s, acts) && BeforePublish(acts)
    ensures !Exec(c, s, acts).rec.Publishing?
    decreases |acts|
  {
    if acts != [] {
      StayTelling(c, s, acts[0]);
      BeforeRest(acts);
      FailedNeverPublishes(c, Step(c, s, acts[0]), acts[1..]);
    }
  }

  lemma BeforeRest(acts: seq<Act>)
    requires acts != [] && BeforePublish(acts)
    ensures !acts[0].Publish? && !acts[0].Begin? && BeforePublish(acts[1..])
  {
    assert forall i :: 0 <= i < |acts| - 1 ==> acts[1..][i] == acts[i + 1];
  }

  /** From when its family has been read back: the address is in the kernel at the end if and only
      if it was there, or was dropped since, and every loss of it was made good. */
  lemma {:induction false} ThereIffRecovered(c: Config, s: State, acts: seq<Act>, a: Addr)
    requires c.Valid() && Telling(s.rec) && HasRead(s.rec, a) && Runs(c, s, acts) && BeforePublish(acts)
    requires Exec(c, s, acts).rec.Publishing?
    ensures a in Exec(c, s, acts).rec.final <==> a in ReadSoFar(s.rec)
    ensures a in Exec(c, s, acts).kernel <==>
            (a in s.kernel || Redropped(c, s, acts, a)) && Recovered(c, s, acts, a)
    decreases |acts|
  {
    if acts != [] {
      var t := Step(c, s, acts[0]);
      BeforeRest(acts);
      StayTelling(c, s, acts[0]);
      if t.rec.Reporting? || t.rec.Idle? {
        FailedNeverPublishes(c, t, acts[1..]);
      }
      KernelByEvents(c, s, acts[0], a);
      ReadsWhatIsThere(c, s, acts[0], a);
      ThereIffRecovered(c, t, acts[1..], a);
    }
  }

  lemma {:induction false} ReadIffRecovered(c: Config, s: State, acts: seq<Act>, a: Addr)
    requires c.Valid() && Telling(s.rec) && (s.rec.Reading4? || s.rec.Reading6?) && !HasRead(s.rec, a)
    requires Runs(c, s, acts) && BeforePublish(acts) && Exec(c, s, acts).rec.Publishing?
    ensures a in Exec(c, s, acts).rec.final ==> (a in Exec(c, s, acts).kernel <==> Recovered(c, s, acts, a))
    decreases |acts|
  {
    var t := Step(c, s, acts[0]);
    BeforeRest(acts);
    StayTelling(c, s, acts[0]);
    if t.rec.Reporting? || t.rec.Idle? {
      FailedNeverPublishes(c, t, acts[1..]);
    }
    ReadsWhatIsThere(c, s, acts[0], a);
    if HasRead(t.rec, a) {
      ThereIffRecovered(c, t, acts[1..], a);
    } else {
      ReadIffRecovered(c, t, acts[1..], a);
    }
  }

  /** The view tells the truth: it names no address the kernel does not hold. */
  predicate Honest(s: State) {
    s.applied.Keys <= s.kernel
  }

  /** Exactly when a publish is honest. Take any interleaving from the moment a cycle goes to read the
      kernel back to its successful publish: the view it leaves names nothing the kernel has lost if
      and only if every address it read back that expired, was released or was flushed after its
      family was read, was dropped again before the publish. */
  lemma PublishHonestIff(c: Config, s: State, acts: seq<Act>, listing: seq<Addr>)
    requires c.Valid() && s.rec.Reading4? && Runs(c, s, acts) && BeforePublish(acts)
    requires Enabled(c, Exec(c, s, acts), Publish(true, listing))
    ensures Honest(Step(c, Exec(c, s, acts), Publish(true, listing))) <==>
            forall a :: a in Exec(c, s, acts).rec.final ==> Recovered(c, s, acts, a)
  {
    var t := Exec(c, s, acts);
    assert Since(t.rec.final, t.rec.prev, t.clock).Keys == t.rec.final;
    forall a | a in t.rec.final
      ensures a in t.kernel <==> Recovered(c, s, acts, a)
    {
      ReadIffRecovered(c, s, acts, a);
    }
  }

  // ------------------------------------------------------------ from rest, step by step

  /** A visitor's ban goes in: fetched, admitted, added. */
  lemma VisitorAdded(c: Config)
    requires c.Valid() && !Covered(c.never, VISITOR)
    ensures Reaches(c, RESTING, RESTING.(kernel := {VISITOR}, rec := Reading4(0, map[VISITOR := 60])), Both)
  {
    var want := map[VISITOR := 60];
    var s0 := RESTING;
    var s1 := s0.(kernel := {VISITOR});
    VisitorListed(c, want);
    assert {VISITOR} - {VISITOR} == {} && {} + {VISITOR} == {VISITOR} && {} - want.Keys == {};
    ReachesNext(c, s0, s0.(rec := Adding(0, want, {}, {VISITOR})), AddOne(VISITOR, true), s1.(rec := Adding(0, want, {}, {})), Both);
    ReachesNext(c, s0, s1.(rec := Adding(0, want, {}, {})), NextPhase, s1.(rec := Removing(0, want, {}, {})), Both);
    ReachesNext(c, s0, s1.(rec := Removing(0, want, {}, {})), NextPhase, s1.(rec := Reading4(0, want)), Both);
  }

  /** The cycle that added the visitor reads it back and goes to publish. */
  lemma VisitorReadBack(c: Config, s1: State, want: map<Addr, int>)
    requires c.Valid() && s1 == RESTING.(kernel := {VISITOR})
    requires Reaches(c, RESTING, s1.(rec := Reading4(0, want)), Both)
    ensures Reaches(c, RESTING, s1.(rec := Publishing(0, want, {VISITOR}, map[])), Both)
  {
    var s0 := RESTING;
    assert FamilyOf({VISITOR}, true) == {VISITOR} && FamilyOf({VISITOR}, false) == {};
    assert {VISITOR} + FamilyOf({VISITOR}, false) == {VISITOR};
    ReachesNext(c, s0, s1.(rec := Reading4(0, want)), List(true), s1.(rec := Reading6(0, want, {VISITOR})), Both);
    ReachesNext(c, s0, s1.(rec := Reading6(0, want, {VISITOR})), List(true), s1.(rec := Gathering(0, want, {VISITOR})), Both);
    ReachesNext(c, s0, s1.(rec := Gathering(0, want, {VISITOR})), Gather(true),
                s1.(rec := Publishing(0, want, {VISITOR}, map[])), Both);
  }

  /** So honesty does fail under interleaving: a release that lands between the read-back
      and the publish is overwritten, and the published view claims a rule that is gone. */
  lemma PublishCanOverstate(c: Config) returns (t: State)
    requires c.Valid() && !Covered(c.never, VISITOR)
    ensures Reaches(c, RESTING, t, Both)
    ensures VISITOR in t.applied && VISITOR !in t.kernel
  {
    var want := map[VISITOR := 60];
    var s0 := RESTING;
    var s1 := s0.(kernel := {VISITOR});
    var at := Publishing(0, want, {VISITOR}, map[]);
    VisitorAdded(c);
    VisitorReadBack(c, s1, want);
    var s2 := s1.(rec := at, feed := ReleasingOne(VISITOR));
    var s3 := s0.(rec := at, feed := Marking(VISITOR));
    ReachesNext(c, s0, s1.(rec := at), Receive(Release(Some(VISITOR))), s2, Both);
    ReachesNext(c, s0, s2, Feed(true), s3, Both);
    t := Overstated(c, s3, at);
  }

  lemma Overstated(c: Config, s: State, at: Cycle) returns (t: State)
    requires c.Valid() && Reaches(c, RESTING, s, Both) && VISITOR !in s.kernel && s.rec == at
    requires at.Publishing? && at.final == {VISITOR} && VISITOR in at.want
    ensures Reaches(c, RESTING, t, Both) && VISITOR in t.applied && VISITOR !in t.kernel
  {
    assert {VISITOR} - at.want.Keys == {};
    assert Enumerates([], {VISITOR} - at.want.Keys);
    t := Step(c, s, Publish(true, []));
    ReachesNext(c, RESTING, s, Publish(true, []), t, Both);
  }
}
