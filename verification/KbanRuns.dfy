/** Runs of the agent from one state to another with no help from the world. */
module KbanRuns {
  import opened Wrappers
  import opened NetAddr
  import opened KbanMachine

  predicate OfConsumer(act: Act) {
    act.Feed? || act.FeedMark? || act.Receive?
  }

  /** Who takes part in a run: both actors; the loop by itself; the consumer, within the one event it
      has in hand; or the loop, within one cycle that fetches this list. */
  datatype Cast = Both | LoopAlone | Consuming | Cycling(fetched: Option<seq<BanRow>>)

  predicate Plays(act: Act, cast: Cast) {
    !act.Expire? && !act.LapseKeys? &&
    match cast
    case Both => true
    case LoopAlone => !OfConsumer(act)
    case Consuming => act.Feed? || act.FeedMark?
    case Cycling(fetched) => !OfConsumer(act) && !act.Begin? && (act.Fetch? ==> act.bans == fetched)
  }

  predicate Undisturbed(acts: seq<Act>, cast: Cast) {
    forall i :: 0 <= i < |acts| ==> Plays(acts[i], cast)
  }

  /** `t` can follow `s` with no help from the world: no expiry, no lost keys. */
  ghost predicate Reaches(c: Config, s: State, t: State, cast: Cast)
    requires c.Valid()
  {
    exists acts :: Undisturbed(acts, cast) && Runs(c, s, acts) && Exec(c, s, acts) == t
  }

  /** The consumer at rest takes in this event, works on nothing else, and is at rest again in `t`. */
  ghost predicate Handles(c: Config, s: State, ev: Event, t: State)
    requires c.Valid()
  {
    s.feed.Waiting? && t.feed.Waiting? && Reaches(c, Step(c, s, Receive(ev)), t, Consuming)
  }

  /** The loop at rest begins one cycle, fetches this list or fails to, and is at rest again in `t`. */
  ghost predicate Cycles(c: Config, s: State, fetched: Option<seq<BanRow>>, t: State)
    requires c.Valid()
  {
    s.rec.Idle? && t.rec.Idle? && Reaches(c, Step(c, s, Begin), t, Cycling(fetched))
  }

  lemma ReachesItself(c: Config, s: State, cast: Cast)
    requires c.Valid()
    ensures Reaches(c, s, s, cast)
  {
    var none: seq<Act> := [];
    assert Undisturbed(none, cast) && Runs(c, s, none) && Exec(c, s, none) == s;
  }

  lemma RunsOne(c: Config, t: State, act: Act)
    requires c.Valid() && Enabled(c, t, act)
    ensures Runs(c, t, [act]) && Exec(c, t, [act]) == Step(c, t, act)
  {
    var u := Step(c, t, act);
    assert [act][0] == act && [act][1..] == [];
    assert Runs(c, u, []) && Exec(c, u, []) == u;
  }

  lemma ReachesOneMore(c: Config, s: State, t: State, act: Act, cast: Cast)
    requires c.Valid() && Reaches(c, s, t, cast) && Enabled(c, t, act) && Plays(act, cast)
    ensures Reaches(c, s, Step(c, t, act), cast)
  {
    var acts :| Undisturbed(acts, cast) && Runs(c, s, acts) && Exec(c, s, acts) == t;
    RunsOne(c, t, act);
    RunsJoin(c, s, acts, [act]);
    assert [act][0] == act;
    assert Undisturbed(acts + [act], cast);
  }

  lemma ReachesNext(c: Config, s: State, t: State, act: Act, next: State, cast: Cast)
    requires c.Valid() && Reaches(c, s, t, cast) && Enabled(c, t, act) && Plays(act, cast)
    requires Step(c, t, act) == next
    ensures Reaches(c, s, next, cast)
  {
    ReachesOneMore(c, s, t, act, cast);
  }
}
