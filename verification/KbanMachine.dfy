/** The kernel-ban agent of control/cmd/moswaf-kbans as two actors that interleave one
    atomic step at a time: the feed consumer and the reconcile loop. Every call that can
    fail carries its outcome in the step, and every order Go leaves open (map iteration)
    is chosen by the step. */
module KbanMachine {
  import opened Wrappers
  import opened NetAddr
  import opened NeverDrop

  datatype Config = Config(never: seq<Prefix>, resync: nat) {
    ghost predicate Valid() {
      AllValid(never) && 0 < resync
    }

    // holdFor: two reconcile intervals.
    function Hold(): nat {
      2 * resync
    }
  }

  datatype BanRow = BanRow(ip: Option<Addr>, ttl: int)

  datatype Event =
    | Unreadable
    | UnknownOp
    | ReleaseAll
    | Drop(ip: Option<Addr>, ttl: int)
    | Release(ip: Option<Addr>)

  /** Where the consumer is inside `apply`. */
  datatype Consumer =
    | Waiting
    | NotingRefused(addr: Addr, why: Prefix)
    | ClearingNote(addr: Addr, ttl: int)
    | DroppingOne(addr: Addr)
    | NotingApplied(addr: Addr)
    | ReleasingOne(addr: Addr)
    | Marking(addr: Addr)
    | Forgetting(addr: Addr)
    | FlushList4
    | FlushList6(was4: set<Addr>)
    | Flush4(was: Option<set<Addr>>)
    | Flush6(was: Option<set<Addr>>)
    | MarkingAll(rest: set<Addr>)
    | ForgettingAll

  /** Where the reconcile loop is, with its local snapshot. */
  datatype Cycle =
    | Idle
    | Fetching(now: nat)
    | Desiring(now: nat, want: map<Addr, int>, rows: seq<BanRow>)
    | Listing4(now: nat, want: map<Addr, int>)
    | Listing6(now: nat, want: map<Addr, int>, have: set<Addr>)
    | Adding(now: nat, want: map<Addr, int>, have: set<Addr>, todo: set<Addr>)
    | Removing(now: nat, want: map<Addr, int>, have: set<Addr>, todo: set<Addr>)
    | Reading4(now: nat, want: map<Addr, int>)
    | Reading6(now: nat, want: map<Addr, int>, have: set<Addr>)
    | Gathering(now: nat, want: map<Addr, int>, final: set<Addr>)
    | Publishing(now: nat, want: map<Addr, int>, final: set<Addr>, prev: map<Addr, nat>)
    | Reporting(now: nat, want: map<Addr, int>, count: int)
  {
    function Want(): map<Addr, int> {
      if Idle? || Fetching? then map[] else want
    }
  }

  datatype State = State(
    clock: nat,
    kernel: set<Addr>,
    notes: map<Addr, nat>,
    applied: map<Addr, nat>,
    refused: map<Addr, Prefix>,
    orphans: seq<Addr>,
    health: Option<int>,
    feed: Consumer,
    rec: Cycle)

  datatype Act =
    // the world
    | Tick(dt: nat)
    | Expire(addr: Addr)
    | LapseKeys
    // the consumer
    | Receive(event: Event)
    | Feed(ok: bool)
    | FeedMark(addr: Addr)
    // the reconcile loop
    | Begin
    | Fetch(bans: Option<seq<BanRow>>)
    | Test
    | List(ok: bool)
    | AddOne(addr: Addr, ok: bool)
    | RemoveOne(addr: Addr, ok: bool)
    | NextPhase
    | Gather(ok: bool)
    | Publish(ok: bool, listing: seq<Addr>)
    | Report(ok: bool)

  const ORPHAN_REPORT := 100

  // ------------------------------------------------------------- the notes

  function Pruned(notes: map<Addr, nat>, now: nat): map<Addr, nat> {
    map a | a in notes && now < notes[a] :: notes[a]
  }

  predicate Held(notes: map<Addr, nat>, a: Addr, now: nat) {
    a in notes && now < notes[a]
  }

  // ------------------------------------------------------ one row of `desired`

  ghost predicate Admits(c: Config, notes: map<Addr, nat>, now: nat, row: BanRow)
    requires c.Valid()
  {
    row.ip.Some? && row.ttl > 0 &&
    !Covered(c.never, row.ip.value.Unmap()) && !Held(notes, row.ip.value.Unmap(), now)
  }

  ghost function TestRow(c: Config, notes: map<Addr, nat>, now: nat, row: BanRow, want: map<Addr, int>): map<Addr, int>
    requires c.Valid()
  {
    if Admits(c, notes, now, row) then want[row.ip.value.Unmap() := row.ttl] else want
  }

  /** What `desired` returns for a list of rows. */
  ghost function Desired(c: Config, notes: map<Addr, nat>, now: nat, rows: seq<BanRow>, want: map<Addr, int>): map<Addr, int>
    requires c.Valid()
    decreases |rows|
  {
    if rows == [] then want
    else Desired(c, notes, now, rows[1..], TestRow(c, notes, now, rows[0], want))
  }

  predicate Names(rows: seq<BanRow>, a: Addr) {
    exists i :: 0 <= i < |rows| && rows[i].ip.Some? && rows[i].ip.value.Unmap() == a
  }

  // -------------------------------------------------------------- the consumer

  function Received(c: Config, ev: Event): (r: Consumer)
    requires c.Valid()
  {
    match ev
    case ReleaseAll => FlushList4
    case Drop(Some(ip), ttl) =>
      var a := ip.Unmap();
      if ttl <= 0 then Waiting
      else
        var why := FirstCover(c.never, a);
        if why.Some? then NotingRefused(a, why.value) else ClearingNote(a, ttl)
    case Release(Some(ip)) => ReleasingOne(ip.Unmap())
    case _ => Waiting
  }

  function FamilyOf(k: set<Addr>, four: bool): set<Addr> {
    set a | a in k && a.V4? == four
  }

  function FeedStep(c: Config, s: State, ok: bool): State
    requires !s.feed.Waiting? && (s.feed.MarkingAll? ==> s.feed.rest == {})
  {
    match s.feed
    case NotingRefused(a, why) =>
      if ok then s.(feed := Waiting, refused := s.refused[a := why], applied := s.applied - {a})
      else s.(feed := Waiting)
    case ClearingNote(a, ttl) => s.(feed := DroppingOne(a), notes := s.notes - {a})
    case DroppingOne(a) =>
      if ok then s.(feed := NotingApplied(a), kernel := s.kernel + {a}) else s.(feed := Waiting)
    case NotingApplied(a) =>
      if ok then
        s.(feed := Waiting, refused := s.refused - {a},
           applied := if a in s.applied then s.applied else s.applied[a := s.clock])
      else s.(feed := Waiting)
    case ReleasingOne(a) =>
      if ok then s.(feed := Marking(a), kernel := s.kernel - {a}) else s.(feed := Waiting)
    case Marking(a) => s.(feed := Forgetting(a), notes := s.notes[a := s.clock + c.Hold()])
    case Forgetting(a) =>
      if ok then s.(feed := Waiting, applied := s.applied - {a}, refused := s.refused - {a})
      else s.(feed := Waiting)
    case FlushList4 =>
      if ok then s.(feed := FlushList6(FamilyOf(s.kernel, true))) else s.(feed := Flush4(None))
    case FlushList6(was4) =>
      s.(feed := Flush4(if ok then Some(was4 + FamilyOf(s.kernel, false)) else None))
    case Flush4(was) =>
      if ok then s.(feed := Flush6(was), kernel := FamilyOf(s.kernel, false)) else s.(feed := Waiting)
    case Flush6(was) =>
      if ok then
        s.(feed := MarkingAll(if was.Some? then was.value else {}), kernel := FamilyOf(s.kernel, true))
      else s.(feed := Waiting)
    case MarkingAll(_) => s.(feed := ForgettingAll)
    case ForgettingAll =>
      if ok then s.(feed := Waiting, applied := map[], refused := map[], orphans := [])
      else s.(feed := Waiting)
  }

  // ------------------------------------------------------- the reconcile loop

  ghost predicate Enumerates(listing: seq<Addr>, s: set<Addr>) {
    (forall a :: a in listing <==> a in s) &&
    forall i, j :: 0 <= i < j < |listing| ==> listing[i] != listing[j]
  }

  function First100(listing: seq<Addr>): (r: seq<Addr>) {
    if |listing| > ORPHAN_REPORT then listing[..ORPHAN_REPORT] else listing
  }

  /** The stamps a publish starts from: those published so far, or none if they cannot be read. */
  function Earlier(applied: map<Addr, nat>, read: bool): map<Addr, nat> {
    if read then applied else map[]
  }

  function Since(final: set<Addr>, prev: map<Addr, nat>, clock: nat): map<Addr, nat> {
    map a | a in final :: if a in prev then prev[a] else clock
  }

  ghost predicate Enabled(c: Config, s: State, act: Act)
  {
    match act
    case Tick(_) => true
    case Expire(_) => true
    case LapseKeys => true
    case Receive(_) => s.feed.Waiting?
    case Feed(_) => !s.feed.Waiting? && (s.feed.MarkingAll? ==> s.feed.rest == {})
    case FeedMark(a) => s.feed.MarkingAll? && a in s.feed.rest
    case Begin => s.rec.Idle?
    case Fetch(_) => s.rec.Fetching?
    case Test => s.rec.Desiring?
    case List(_) => s.rec.Listing4? || s.rec.Listing6? || s.rec.Reading4? || s.rec.Reading6?
    case AddOne(a, _) => s.rec.Adding? && a in s.rec.todo && a in s.rec.want
    case RemoveOne(a, _) => s.rec.Removing? && a in s.rec.todo
    case NextPhase => (s.rec.Adding? || s.rec.Removing?) && s.rec.todo == {}
    case Gather(_) => s.rec.Gathering?
    case Publish(_, listing) => s.rec.Publishing? && Enumerates(listing, s.rec.final - s.rec.want.Keys)
    case Report(_) => s.rec.Reporting?
  }

  function ListStep(s: State, ok: bool): State
    requires s.rec.Listing4? || s.rec.Listing6? || s.rec.Reading4? || s.rec.Reading6?
  {
    var now, want := s.rec.now, s.rec.want;
    if !ok then s.(rec := Reporting(now, want, -1))
    else match s.rec
      case Listing4(_, _) => s.(rec := Listing6(now, want, FamilyOf(s.kernel, true)))
      case Listing6(_, _, have) =>
        s.(rec := Adding(now, want, have + FamilyOf(s.kernel, false), want.Keys))
      case Reading4(_, _) => s.(rec := Reading6(now, want, FamilyOf(s.kernel, true)))
      case Reading6(_, _, have) => s.(rec := Gathering(now, want, have + FamilyOf(s.kernel, false)))
  }

  ghost function Step(c: Config, s: State, act: Act): State
    requires c.Valid() && Enabled(c, s, act)
  {
    match act
    case Tick(dt) => s.(clock := s.clock + dt)
    case Expire(a) => s.(kernel := s.kernel - {a})
    case LapseKeys => s.(applied := map[], refused := map[], orphans := [], health := None)
    case Receive(ev) => s.(feed := Received(c, ev))
    case Feed(ok) => FeedStep(c, s, ok)
    case FeedMark(a) =>
      s.(feed := MarkingAll(s.feed.rest - {a}), notes := s.notes[a := s.clock + c.Hold()])
    case Begin => s.(rec := Fetching(s.clock), notes := Pruned(s.notes, s.clock))
    case Fetch(None) => s.(rec := Reporting(s.rec.now, map[], -1))
    case Fetch(Some(bans)) => s.(rec := Desiring(s.rec.now, map[], bans))
    case Test =>
      if s.rec.rows == [] then s.(rec := Listing4(s.rec.now, s.rec.want))
      else s.(rec := Desiring(s.rec.now, TestRow(c, s.notes, s.rec.now, s.rec.rows[0], s.rec.want), s.rec.rows[1..]))
    case List(ok) => ListStep(s, ok)
    case AddOne(a, ok) =>
      s.(rec := Adding(s.rec.now, s.rec.want, s.rec.have, s.rec.todo - {a}),
         kernel := if ok && s.rec.want[a] > 0 then s.kernel + {a} else s.kernel)
    case RemoveOne(a, ok) =>
      s.(rec := Removing(s.rec.now, s.rec.want, s.rec.have, s.rec.todo - {a}),
         kernel := if ok then s.kernel - {a} else s.kernel)
    case NextPhase =>
      if s.rec.Adding? then s.(rec := Removing(s.rec.now, s.rec.want, s.rec.have, s.rec.have - s.rec.want.Keys))
      else s.(rec := Reading4(s.rec.now, s.rec.want))
    case Gather(ok) => s.(rec := Publishing(s.rec.now, s.rec.want, s.rec.final, Earlier(s.applied, ok)))
    case Publish(ok, listing) =>
      var t := s.(rec := Reporting(s.rec.now, s.rec.want, |s.rec.final|));
      if ok then t.(applied := Since(s.rec.final, s.rec.prev, s.clock), orphans := First100(listing)) else t
    case Report(ok) => s.(rec := Idle, health := if ok then Some(s.rec.count) else s.health)
  }

  // -------------------------------------------------------------------- runs

  ghost predicate Runs(c: Config, s: State, acts: seq<Act>)
    requires c.Valid()
    decreases |acts|
  {
    acts == [] || (Enabled(c, s, acts[0]) && Runs(c, Step(c, s, acts[0]), acts[1..]))
  }

  ghost function Exec(c: Config, s: State, acts: seq<Act>): State
    requires c.Valid() && Runs(c, s, acts)
    decreases |acts|
  {
    if acts == [] then s else Exec(c, Step(c, s, acts[0]), acts[1..])
  }

  ghost predicate AtRest(s: State) {
    s.feed.Waiting? && s.rec.Idle?
  }

  lemma {:induction false} RunsJoin(c: Config, s: State, xs: seq<Act>, ys: seq<Act>)
    requires c.Valid() && Runs(c, s, xs) && Runs(c, Exec(c, s, xs), ys)
    ensures Runs(c, s, xs + ys)
    ensures Exec(c, s, xs + ys) == Exec(c, Exec(c, s, xs), ys)
    decreases |xs|
  {
    if xs == [] {
      assert xs + ys == ys;
    } else {
      assert (xs + ys)[1..] == xs[1..] + ys;
      RunsJoin(c, Step(c, s, xs[0]), xs[1..], ys);
    }
  }
}
