/** Revoking the sessions of a login gate: the accounts in the store (siteusers.go), the control
    plane's publishes (publisher.go) and what each data plane worker has loaded. */
module SiteSessions {
  import opened SessionToken

  /** A row of the accounts table. */
  datatype Account = Account(site: string, gen: nat)

  /** What a sign-in read from its row, and so what the session minted from it will carry. */
  datatype Grant = Grant(site: string, user: nat, gen: nat)

  /** A published configuration: the generation of every account of every served site, and when the
      accounts table was read for it. */
  datatype Config = Config(users: map<(string, nat), nat>, taken: nat)

  /** The publisher's mutex: free, held, held with the accounts read, held with the result stored. */
  datatype Publish = Idle | Started | Taken(snapshot: Config) | Stored

  datatype State = State(
    clock: nat,
    rows: map<nat, Account>,
    nextId: nat,
    grants: set<Grant>,
    publish: Publish,
    published: Config,
    inForce: map<nat, Config>)

  datatype Event =
    | Create(site: string, id: nat)     // CreateSiteUser; a sequence may skip but never goes back
    | Bump(id: nat)                     // SetSiteUserPassword, RevokeSiteUserSessions
    | Delete(id: nat)                   // DeleteSiteUser
    | DeleteSite(site: string)          // the accounts go with their site
    | SignIn(id: nat)                   // AuthenticateSiteUser reads the row
    | Lock                              // Publish takes the mutex
    | Snapshot(served: set<string>)     // SiteGenerations, for the sites that are enabled
    | Store                             // the configuration is set in Redis
    | Unlock                            // Publish returns, whether or not it got that far
    | Load(worker: nat)                 // a worker picks up what is published

  function Generations(rows: map<nat, Account>, served: set<string>): map<(string, nat), nat> {
    map u | u in rows && rows[u].site in served :: (rows[u].site, u) := rows[u].gen
  }

  predicate Enabled(s: State, e: Event) {
    match e
    case Create(_, id) => s.nextId <= id
    case Bump(id) => id in s.rows
    case Delete(id) => id in s.rows
    case SignIn(id) => id in s.rows
    case Lock => s.publish.Idle?
    case Snapshot(_) => s.publish.Started?
    case Store => s.publish.Taken?
    case Unlock => !s.publish.Idle?
    case _ => true
  }

  function Step(s: State, e: Event): State
    requires Enabled(s, e)
  {
    var t := s.(clock := s.clock + 1);
    match e
    case Create(site, id) => t.(rows := s.rows[id := Account(site, 1)], nextId := id + 1)
    case Bump(id) => t.(rows := s.rows[id := s.rows[id].(gen := s.rows[id].gen + 1)])
    case Delete(id) => t.(rows := s.rows - {id})
    case DeleteSite(site) => t.(rows := map u | u in s.rows && s.rows[u].site != site :: s.rows[u])
    case SignIn(id) => t.(grants := s.grants + {Grant(s.rows[id].site, id, s.rows[id].gen)})
    case Lock => t.(publish := Started)
    case Snapshot(served) => t.(publish := Taken(Config(Generations(s.rows, served), s.clock)))
    case Store => t.(publish := Stored, published := s.publish.snapshot)
    case Unlock => t.(publish := Idle)
    case Load(worker) => t.(inForce := s.inForce[worker := s.published])
  }

  ghost predicate Leads(s: State, e: Event, t: State) {
    Enabled(s, e) && t == Step(s, e)
  }

  ghost predicate Runs(start: State, es: seq<Event>, s: State)
    decreases |es|
  {
    if es == [] then s == start
    else
      var front, e := es[..|es| - 1], es[|es| - 1];
      exists p :: Runs(start, front, p) && Leads(p, e, s)
  }

  /** A worker takes a session: its site is the one served, and the account is on its generation. */
  predicate Accepts(s: State, worker: nat, g: Grant) {
    worker in s.inForce && (g.site, g.user) in s.inForce[worker].users &&
    s.inForce[worker].users[(g.site, g.user)] == g.gen
  }

  predicate Start(s: State) {
    s.clock == 1 && s.rows == map[] && s.grants == {} && s.publish == Idle && s.published == Config(map[], 0) &&
    s.inForce == map[]
  }

  // -------------------------------------------------------------- what every run keeps

  /** Ids are never reused, and a session never carries a generation its account has not reached. */
  ghost predicate ReadsAreOld(s: State) {
    (forall u :: u in s.rows ==> u < s.nextId) &&
    (forall g :: g in s.grants ==> g.user < s.nextId) &&
    (forall g :: g in s.grants && g.user in s.rows ==> g.gen <= s.rows[g.user].gen)
  }

  /** Configurations come into force in the order their accounts were read. */
  ghost predicate InOrder(s: State) {
    s.published.taken < s.clock &&
    (s.publish.Taken? ==> s.published.taken <= s.publish.snapshot.taken < s.clock) &&
    (forall w :: w in s.inForce ==> s.inForce[w].taken <= s.published.taken)
  }

  lemma StepKeeps(s: State, e: Event)
    requires ReadsAreOld(s) && InOrder(s) && Enabled(s, e)
    ensures ReadsAreOld(Step(s, e)) && InOrder(Step(s, e))
  {
  }

  lemma {:induction false} RunKeeps(start: State, es: seq<Event>, s: State)
    requires Runs(start, es, s) && ReadsAreOld(start) && InOrder(start)
    ensures ReadsAreOld(s) && InOrder(s)
    decreases |es|
  {
    if es != [] {
      var front, e := es[..|es| - 1], es[|es| - 1];
      var p :| Runs(start, front, p) && Leads(p, e, s);
      RunKeeps(start, front, p);
      StepKeeps(p, e);
    }
  }

  lemma StepNeverOlder(s: State, e: Event, worker: nat)
    requires InOrder(s) && Enabled(s, e) && worker in s.inForce
    ensures worker in Step(s, e).inForce && s.inForce[worker].taken <= Step(s, e).inForce[worker].taken
  {
  }

  /** A worker never goes back to accounts read earlier. This is what the mutex is for. */
  lemma {:induction false} NeverOlder(start: State, es: seq<Event>, s: State, worker: nat)
    requires Runs(start, es, s) && ReadsAreOld(start) && InOrder(start) && worker in start.inForce
    ensures worker in s.inForce && start.inForce[worker].taken <= s.inForce[worker].taken
    decreases |es|
  {
    if es != [] {
      var front, e := es[..|es| - 1], es[|es| - 1];
      var p :| Runs(start, front, p) && Leads(p, e, s);
      NeverOlder(start, front, p, worker);
      RunKeeps(start, front, p);
      StepNeverOlder(p, e, worker);
    }
  }

  // -------------------------------------------------------------------- revocation

  /** What ends the sessions of `id`: its password changes or its sessions are revoked, it is
      deleted, or its site is. */
  predicate Revokes(s: State, e: Event, id: nat) {
    id in s.rows && Enabled(s, e) &&
    match e
    case Bump(u) => u == id
    case Delete(u) => u == id
    case DeleteSite(site) => site == s.rows[id].site
    case _ => false
  }

  /** From `since` on, no accounts are read that show `id` at `gen` or below. */
  ghost predicate Above(c: Config, id: nat, gen: nat, since: nat) {
    c.taken >= since ==> forall site :: (site, id) in c.users ==> c.users[(site, id)] > gen
  }

  ghost predicate Floor(s: State, id: nat, gen: nat, since: nat) {
    id < s.nextId && (id in s.rows ==> s.rows[id].gen > gen) &&
    Above(s.published, id, gen, since) &&
    (s.publish.Taken? ==> Above(s.publish.snapshot, id, gen, since)) &&
    (forall w :: w in s.inForce ==> Above(s.inForce[w], id, gen, since))
  }

  lemma FloorBegins(s: State, e: Event, id: nat)
    requires ReadsAreOld(s) && InOrder(s) && Revokes(s, e, id)
    ensures Floor(Step(s, e), id, s.rows[id].gen, Step(s, e).clock)
  {
  }

  lemma FloorStays(s: State, e: Event, id: nat, gen: nat, since: nat)
    requires Floor(s, id, gen, since) && Enabled(s, e)
    ensures Floor(Step(s, e), id, gen, since)
  {
  }

  lemma {:induction false} FloorHolds(start: State, es: seq<Event>, s: State, id: nat, gen: nat, since: nat)
    requires Runs(start, es, s) && Floor(start, id, gen, since)
    ensures Floor(s, id, gen, since)
    decreases |es|
  {
    if es != [] {
      var front, e := es[..|es| - 1], es[|es| - 1];
      var p :| Runs(start, front, p) && Leads(p, e, s);
      FloorHolds(start, front, p, id, gen, since);
      FloorStays(p, e, id, gen, since);
    }
  }

  /** Revoked is revoked. Take any run up to a revocation of `id`, any continuation to a moment when
      a worker has loaded a configuration whose accounts were read after it, and any continuation of
      that. No session minted from a sign-in that read the account before the revocation is accepted
      by that worker - however late it was minted, whatever happens to the account, however many
      publishes fail, and whatever the other workers have loaded. */
  lemma RevokedIsRevoked(start: State, before: seq<Event>, s: State, e: Event, id: nat,
                         between: seq<Event>, mid: State, worker: nat, after: seq<Event>, end: State, g: Grant)
    requires Start(start) && Runs(start, before, s) && Revokes(s, e, id)
    requires g in s.grants && g.user == id
    requires Runs(Step(s, e), between, mid) && worker in mid.inForce
    requires mid.inForce[worker].taken > s.clock
    requires Runs(mid, after, end)
    ensures !Accepts(end, worker, g)
  {
    RunKeeps(start, before, s);
    FloorBegins(s, e, id);
    StepKeeps(s, e);
    var since := Step(s, e).clock;
    FloorHolds(Step(s, e), between, mid, id, s.rows[id].gen, since);
    RunKeeps(Step(s, e), between, mid);
    FloorHolds(mid, after, end, id, s.rows[id].gen, since);
    NeverOlder(mid, after, end, worker);
  }

  /** And nobody else is signed out by it: a worker holding accounts read just now accepts a session
      exactly when its account still exists on that site, the site is served and the generation is
      the one it was read with. */
  lemma FreshAcceptsIff(s: State, served: set<string>, worker: nat, g: Grant)
    requires s.publish.Started?
    ensures var end := Step(Step(Step(s, Snapshot(served)), Store), Load(worker));
            Accepts(end, worker, g) <==>
            g.user in s.rows && s.rows[g.user].site in served && s.rows[g.user] == Account(g.site, g.gen)
  {
  }

  // ------------------------------------------------- a revocation, start to finish

  lemma RunsOn(start: State, es: seq<Event>, s: State, e: Event) returns (more: seq<Event>)
    requires Runs(start, es, s) && Enabled(s, e)
    ensures Runs(start, more, Step(s, e))
  {
    more := es + [e];
    assert more[..|es|] == es;
    assert Leads(s, e, Step(s, e));
  }

  /** The publisher has the mutex and has read the accounts of `served`. */
  function Snapshotted(s: State, served: set<string>): State {
    s.(clock := s.clock + 2, publish := Taken(Config(Generations(s.rows, served), s.clock + 1)))
  }

  /** It has stored what it made and let go of the mutex. */
  function Released(s: State): State
    requires s.publish.Taken?
  {
    s.(clock := s.clock + 2, publish := Idle, published := s.publish.snapshot)
  }

  /** One publish of the accounts of `served`, picked up by `worker`. */
  function Republished(s: State, served: set<string>, worker: nat): State {
    Step(Released(Snapshotted(s, served)), Load(worker))
  }

  lemma SnapshotRuns(start: State, es: seq<Event>, s: State, served: set<string>) returns (more: seq<Event>)
    requires Runs(start, es, s) && s.publish.Idle?
    ensures Runs(start, more, Snapshotted(s, served))
  {
    var locked := s.(clock := s.clock + 1, publish := Started);
    more := RunsOn(start, es, s, Lock);
    SnapshotTakes(s, locked, served);
    more := RunsOn(start, more, locked, Snapshot(served));
  }

  lemma SnapshotTakes(s: State, locked: State, served: set<string>)
    requires s.publish.Idle? && locked == s.(clock := s.clock + 1, publish := Started)
    ensures Step(s, Lock) == locked && Step(locked, Snapshot(served)) == Snapshotted(s, served)
  {
  }

  lemma StoreRuns(start: State, es: seq<Event>, s: State) returns (more: seq<Event>)
    requires Runs(start, es, s) && s.publish.Taken?
    ensures Runs(start, more, Released(s))
  {
    more := RunsOn(start, es, s, Store);
    more := RunsOn(start, more, Step(s, Store), Unlock);
    assert Step(Step(s, Store), Unlock) == Released(s);
  }

  lemma RepublishRuns(start: State, es: seq<Event>, s: State, served: set<string>, worker: nat) returns (more: seq<Event>)
    requires Runs(start, es, s) && s.publish.Idle?
    ensures Runs(start, more, Republished(s, served, worker))
  {
    more := SnapshotRuns(start, es, s, served);
    more := StoreRuns(start, more, Snapshotted(s, served));
    more := RunsOn(start, more, Released(Snapshotted(s, served)), Load(worker));
  }

  /** The boundary: the revocation alone ends nothing. From anywhere a run can be, there is one in
      which a worker takes a session, still takes it right after its account is bumped, and refuses
      it once the next publish has been picked up. */
  lemma RevocationTakesAPublish(start: State, es: seq<Event>, s: State, id: nat, worker: nat, g: Grant)
    returns (before: seq<Event>, mid: State, after: seq<Event>, end: State)
    requires Runs(start, es, s) && s.publish.Idle? && id in s.rows
    requires g == Grant(s.rows[id].site, id, s.rows[id].gen)
    ensures Runs(start, before, mid) && Enabled(mid, Bump(id)) && g in mid.grants
    ensures Accepts(mid, worker, g) && Accepts(Step(mid, Bump(id)), worker, g)
    ensures Runs(Step(mid, Bump(id)), after, end) && !Accepts(end, worker, g)
    ensures worker in end.inForce && end.inForce[worker].taken > mid.clock
  {
    var s1 := Step(s, SignIn(id));
    before := RunsOn(start, es, s, SignIn(id));
    before := RepublishRuns(start, before, s1, {g.site}, worker);
    mid := Republished(s1, {g.site}, worker);
    GenerationsAt(s1.rows, {g.site}, id);
    var bumped := Step(mid, Bump(id));
    after := RepublishRuns(bumped, [], bumped, {g.site}, worker);
    end := Republished(bumped, {g.site}, worker);
    GenerationsAt(bumped.rows, {g.site}, id);
  }

  lemma GenerationsAt(rows: map<nat, Account>, served: set<string>, id: nat)
    requires id in rows && rows[id].site in served
    ensures (rows[id].site, id) in Generations(rows, served)
    ensures Generations(rows, served)[(rows[id].site, id)] == rows[id].gen
  {
  }

  // ---------------------------------------------------------- the cookie itself

  /** auth_users of one site in a configuration. */
  function AccountsOf(c: Config, site: string): map<nat, nat> {
    map p | p in c.users && p.0 == site :: p.1 := c.users[p]
  }

  lemma AccountsOfMeans(c: Config, site: string, user: nat)
    ensures user in AccountsOf(c, site) <==> (site, user) in c.users
    ensures user in AccountsOf(c, site) ==> AccountsOf(c, site)[user] == c.users[(site, user)]
  {
    if (site, user) in c.users {
      var p := (site, user);
      assert p.0 == site && p.1 == user;
    }
  }

  /** What a worker does with the cookie is what Accepts says of the session in it. */
  lemma VerifyIsAccepts(tag: Tag, s: State, worker: nat, g: Grant, exp: nat, served: string, users: map<string, nat>, now: nat)
    requires Unforgeable(tag) && worker in s.inForce && Lists(users, AccountsOf(s.inForce[worker], served))
    ensures Verify(tag, served, SignSession(tag, g.site, g.user, g.gen, exp), users, now).User? <==>
            served == g.site && now < exp && Accepts(s, worker, g)
  {
    SessionGoodIff(tag, g.site, g.user, g.gen, exp, served, users, AccountsOf(s.inForce[worker], served), now);
    AccountsOfMeans(s.inForce[worker], served, g.user);
  }
}
