/** Whole runs of the login guard: how fast one client can try passwords. */
module LoginRuns {
  import opened LoginGuard
  import opened Counting

  /** What happens to the guard. A client asks whether it may try; if it may, its password is checked
      in its own time and turns out wrong or right, or the request is abandoned. Different clients
      interleave freely, one client's attempts follow each other, and the reaper runs whenever it
      likes. `order` is how the map happened to be visited, should a record have to be evicted. */
  datatype Event =
    | Ask(key: string, at: nat)
    | Wrong(key: string, at: nat, order: seq<string>)
    | Right(key: string, at: nat)
    | Leave(key: string, at: nat)
    | Reap(at: nat)

  datatype State = State(book: Book, checking: set<string>, now: nat)

  ghost predicate Enabled(s: State, e: Event) {
    s.now <= e.at &&
    match e
    case Ask(key, _) => key !in s.checking
    case Wrong(key, _, order) => key in s.checking && Visits(s.book, order)
    case Right(key, _) => key in s.checking
    case Leave(key, _) => key in s.checking
    case Reap(_) => true
  }

  ghost function Step(s: State, e: Event): State
    requires Enabled(s, e)
  {
    match e
    case Ask(key, at) => State(s.book, if Blocked(s.book, key, at) > 0 then s.checking else s.checking + {key}, at)
    case Wrong(key, at, order) => State(AfterFail(s.book, key, at, Pick(s.book, order)), s.checking - {key}, at)
    case Right(key, at) => State(s.book - {key}, s.checking - {key}, at)
    case Leave(key, at) => State(s.book, s.checking - {key}, at)
    case Reap(at) => State(Reaped(s.book, at), s.checking, at)
  }

  ghost predicate Leads(s: State, e: Event, t: State) {
    Enabled(s, e) && t == Step(s, e)
  }

  /** From `start`, the run `es` leads to `s`. */
  ghost predicate Runs(start: State, es: seq<Event>, s: State)
    decreases |es|
  {
    if es == [] then s == start
    else
      var front, e := es[..|es| - 1], es[|es| - 1];
      exists p :: Runs(start, front, p) && Leads(p, e, s)
  }

  lemma RunsOn(start: State, es: seq<Event>, s: State, e: Event)
    requires Runs(start, es, s) && Enabled(s, e)
    ensures Runs(start, es + [e], Step(s, e))
  {
    assert (es + [e])[..|es|] == es;
    assert Leads(s, e, Step(s, e));
  }

  // ---------------------------------------------------------- one request, as served

  datatype Outcome = Unreadable | WrongPassword | RightPassword

  /** What is asked of the guard from outside: a request for a sign-in, let in at `asked` and its
      password checked by `done`, or a pass of the reaper. */
  datatype Call = SignIn(ip: string, asked: nat, done: nat, outcome: Outcome) | Sweep(at: nat)

  /** How the records may change over one call that was answered with `wait`. */
  ghost predicate Serves(before: Book, c: Call, wait: nat, after: Book) {
    match c
    case SignIn(ip, asked, done, outcome) =>
      asked <= done && (wait > 0 <==> ip in before && asked < before[ip].until) &&
      (wait > 0 || outcome == Unreadable ==> after == before) &&
      (wait == 0 && outcome == WrongPassword ==>
         ip in after && after[ip].last == done &&
         after[ip].fails == (if ip in before then before[ip].fails + 1 else 1) &&
         (after[ip].fails >= 10 ==> after[ip].until == done + 1_800_000_000_000) &&
         (5 <= after[ip].fails < 10 ==> after[ip].until == done + 300_000_000_000) &&
         (after[ip].fails < 5 ==> after[ip].until == if ip in before then before[ip].until else 0)) &&
      (wait == 0 && outcome == RightPassword ==> ip !in after) &&
      forall k :: k in after && k != ip ==> k in before && after[k] == before[k]
    case Sweep(at) =>
      (forall k :: k in after ==> k in before && after[k] == before[k]) &&
      forall k :: k in before && k !in after ==> before[k].until < at && before[k].last + 1_800_000_000_000 < at
  }

  /** A pass of the reaper is such a call. */
  lemma ReapServes(book: Book, at: nat)
    ensures Serves(book, Sweep(at), 0, Reaped(book, at))
  {
  }

  /** handleLogin, as far as the guard is concerned: turned away while the client is locked out,
      otherwise checked, and counted or cleared. It is one run of the machine. */
  method HandleLogin(g: Guard, ip: string, asked: nat, done: nat, outcome: Outcome)
    returns (wait: nat, ghost es: seq<Event>)
    requires asked <= done
    modifies g
    ensures wait > 0 <==> ip in old(g.data) && asked < old(g.data)[ip].until
    ensures wait > 0 ==> (wait - 1) * 1_000_000_000 <= old(g.data)[ip].until - asked < wait * 1_000_000_000
    ensures wait > 0 || outcome == Unreadable ==> g.data == old(g.data)
    // a wrong password is counted, and the client locked out from the fifth and from the tenth
    ensures wait == 0 && outcome == WrongPassword ==>
              ip in g.data && g.data[ip].last == done &&
              g.data[ip].fails == (if ip in old(g.data) then old(g.data)[ip].fails + 1 else 1) &&
              (g.data[ip].fails >= 10 ==> g.data[ip].until == done + 1_800_000_000_000) &&
              (5 <= g.data[ip].fails < 10 ==> g.data[ip].until == done + 300_000_000_000) &&
              (g.data[ip].fails < 5 ==> g.data[ip].until == if ip in old(g.data) then old(g.data)[ip].until else 0)
    // a right one clears what was held against the client
    ensures wait == 0 && outcome == RightPassword ==> ip !in g.data
    // nobody else's record changes, save the one that has to make room
    ensures forall k :: k in g.data && k != ip ==> k in old(g.data) && g.data[k] == old(g.data)[k]
    ensures forall j, k :: j in old(g.data) && k in old(g.data) && j != ip && k != ip && j !in g.data && k !in g.data
              ==> j == k && wait == 0 && outcome == WrongPassword && ip !in old(g.data) && |old(g.data)| >= 50_000
    ensures Serves(old(g.data), SignIn(ip, asked, done, outcome), wait, g.data)
    // and all this is one run of the machine
    ensures Runs(State(old(g.data), {}, asked), es, State(g.data, {}, if wait > 0 then asked else done))
  {
    ghost var start := State(g.data, {}, asked);
    ghost var ask := Ask(ip, asked);
    es := [];
    RunsOn(start, es, start, ask);
    es := es + [ask];
    wait := g.BlockedFor(ip, asked);
    if wait > 0 {
      return;
    }
    ghost var checking := State(g.data, {ip}, asked);
    assert Step(start, ask) == checking && {ip} - {ip} == {};
    ghost var last := Leave(ip, done);
    if outcome.WrongPassword? {
      ghost var order := g.Fail(ip, done);
      last := Wrong(ip, done, order);
    } else if outcome.RightPassword? {
      g.Success(ip);
      last := Right(ip, done);
    }
    RunsOn(start, es, checking, last);
    es := es + [last];
  }

  // ------------------------------------------------------------- what a run leaves behind

  /** The times at which `key` had a password turned down. */
  function Failures(es: seq<Event>, key: string): seq<nat> {
    if es == [] then []
    else
      var e := es[|es| - 1];
      Failures(es[..|es| - 1], key) + if e.Wrong? && e.key == key then [e.at] else []
  }

  /** This step throws away what is known of `key`: it signed in, or its record was evicted. */
  ghost predicate Forgets(s: State, e: Event, key: string)
    requires Enabled(s, e)
  {
    match e
    case Right(k, _) => k == key
    case Wrong(k, _, order) => k !in s.book && |s.book| >= GUARD_MAX_IPS && Pick(s.book, order) == key
    case _ => false
  }

  ghost predicate KeepsOn(s: State, e: Event, t: State, key: string) {
    Leads(s, e, t) && !Forgets(s, e, key)
  }

  /** A run that never forgets `key`. */
  ghost predicate Remembers(start: State, es: seq<Event>, s: State, key: string)
    decreases |es|
  {
    if es == [] then s == start
    else
      var front, e := es[..|es| - 1], es[|es| - 1];
      exists p :: Remembers(start, front, p, key) && KeepsOn(p, e, s, key)
  }

  // ------------------------------------------------------ what holds of one client

  ghost predicate Spaced(h: seq<nat>, n: nat, gap: nat) {
    forall i, j :: 0 <= i && j == i + n && j < |h| ==> h[i] + gap <= h[j]
  }

  ghost predicate Ordered(h: seq<nat>) {
    forall i, j :: 0 <= i <= j < |h| ==> h[i] <= h[j]
  }

  /** The record counts the latest failures, and before the first of them there was a pause longer
      than the reaper waits. */
  predicate Counts(a: Attempt, h: seq<nat>) {
    1 <= a.fails <= |h| && a.last == h[|h| - 1] &&
    (a.fails < |h| ==> h[|h| - a.fails - 1] + GUARD_RETENTION < h[|h| - a.fails]) &&
    a.until == if a.fails >= 10 then a.last + 30 * MINUTE else if a.fails >= 5 then a.last + 5 * MINUTE else 0
  }

  ghost predicate Tracks(s: State, h: seq<nat>, key: string) {
    Ordered(h) && (h != [] ==> h[|h| - 1] <= s.now) &&
    (if key in s.book then Counts(s.book[key], h) else h == [] || h[|h| - 1] + GUARD_RETENTION < s.now) &&
    (key in s.checking && key in s.book ==> s.book[key].until <= s.now)
  }

  ghost predicate Paced(h: seq<nat>) {
    Spaced(h, 5, 5 * MINUTE) && Spaced(h, 10, 30 * MINUTE)
  }

  lemma AppendSpaced(h: seq<nat>, n: nat, gap: nat, t: nat)
    requires Spaced(h, n, gap) && n > 0 && (n <= |h| ==> h[|h| - n] + gap <= t)
    ensures Spaced(h + [t], n, gap)
  {
  }

  /** A password the guard let through to be checked came late enough. */
  lemma NextIsPaced(s: State, h: seq<nat>, key: string, t: nat)
    requires Tracks(s, h, key) && Paced(h) && key in s.checking && s.now <= t
    ensures Paced(h + [t]) && Ordered(h + [t])
  {
    if key in s.book {
      var a := s.book[key];
      if a.fails < |h| {
        assert forall i :: 0 <= i < |h| - a.fails ==> h[i] <= h[|h| - a.fails - 1];
      }
      assert 5 <= |h| ==> h[|h| - 5] + 5 * MINUTE <= t;
      assert 10 <= |h| ==> h[|h| - 10] + 30 * MINUTE <= t;
    }
    AppendSpaced(h, 5, 5 * MINUTE, t);
    AppendSpaced(h, 10, 30 * MINUTE, t);
  }

  lemma FailureTracked(s: State, h: seq<nat>, key: string, e: Event)
    requires Tracks(s, h, key) && Enabled(s, e) && e.Wrong? && e.key == key
    ensures Tracks(Step(s, e), h + [e.at], key)
  {
    var g := h + [e.at];
    if key in s.book {
      var a := s.book[key];
      assert Failed(a, e.at).fails == a.fails + 1;
      assert g[|g| - (a.fails + 1)] == h[|h| - a.fails];
    }
  }

  lemma OthersTracked(s: State, h: seq<nat>, key: string, e: Event)
    requires Tracks(s, h, key) && Enabled(s, e) && !Forgets(s, e, key) && !(e.Wrong? && e.key == key)
    ensures Tracks(Step(s, e), h, key)
  {
  }

  lemma {:induction false} RunIsPaced(start: State, es: seq<Event>, s: State, key: string)
    requires key !in start.book && key !in start.checking && Remembers(start, es, s, key)
    ensures Tracks(s, Failures(es, key), key) && Paced(Failures(es, key))
    decreases |es|
  {
    if es != [] {
      var front, e := es[..|es| - 1], es[|es| - 1];
      var p :| Remembers(start, front, p, key) && KeepsOn(p, e, s, key);
      RunIsPaced(start, front, p, key);
      var h := Failures(front, key);
      if e.Wrong? && e.key == key {
        NextIsPaced(p, h, key, e.at);
        FailureTracked(p, h, key, e);
      } else {
        OthersTracked(p, h, key, e);
        assert h + [] == h;
      }
    }
  }

  // ---------------------------------------------------------------- the two limits

  ghost function InWindow(h: seq<nat>, from: nat, length: nat): set<nat> {
    set i: nat | i < |h| && from <= h[i] < from + length
  }

  lemma FewInWindow(h: seq<nat>, n: nat, gap: nat, from: nat)
    requires Ordered(h) && Spaced(h, n, gap)
    ensures |InWindow(h, from, gap)| <= n
  {
    var inside := InWindow(h, from, gap);
    if inside != {} {
      var first := Least(inside);
      forall i | first + n <= i < |h|
        ensures h[first] + gap <= h[i]
      {
        assert h[first] + gap <= h[first + n];
      }
      IntervalHolds(inside, first, n);
    }
  }

  lemma {:induction false} Least(xs: set<nat>) returns (m: nat)
    requires xs != {}
    ensures m in xs && forall x :: x in xs ==> m <= x
    decreases |xs|
  {
    var some :| some in xs;
    var rest := xs - {some};
    if rest == {} {
      forall x | x in xs
        ensures x == some
      {
        assert x != some ==> x in rest;
      }
      m := some;
    } else {
      var r := Least(rest);
      forall x | x in xs
        ensures x == some || x in rest
      {
      }
      m := if r < some then r else some;
    }
  }

  /** Guessing is slow. From any moment at which nothing is held against a client - the start, or
      its last sign-in - and for as long as it neither signs in nor has its record evicted, whatever
      the others do and however often the reaper runs, it gets at most five passwords turned down in
      any five minutes and at most ten in any thirty. */
  lemma GuessingIsSlow(start: State, es: seq<Event>, s: State, key: string, from: nat)
    requires key !in start.book && key !in start.checking && Remembers(start, es, s, key)
    ensures |InWindow(Failures(es, key), from, 300_000_000_000)| <= 5
    ensures |InWindow(Failures(es, key), from, 1_800_000_000_000)| <= 10
  {
    RunIsPaced(start, es, s, key);
    FewInWindow(Failures(es, key), 5, 5 * MINUTE, from);
    FewInWindow(Failures(es, key), 10, 30 * MINUTE, from);
  }

  // ------------------------------------------------- the same of the requests as answered

  function Begun(c: Call): nat {
    if c.SignIn? then c.asked else c.at
  }

  function Over(c: Call): nat {
    if c.SignIn? then c.done else c.at
  }

  /** Calls answered one after another, and what the guard held before, between and after them. */
  ghost predicate History(calls: seq<Call>, waits: seq<nat>, books: seq<Book>) {
    |waits| == |calls| && |books| == |calls| + 1 &&
    (forall i :: 0 <= i < |calls| ==> Serves(books[i], calls[i], waits[i], books[i + 1])) &&
    forall i :: 0 < i < |calls| ==> Over(calls[i - 1]) <= Begun(calls[i])
  }

  /** The i-th call let this client's password be checked, with this outcome. */
  predicate Checked(calls: seq<Call>, waits: seq<nat>, i: nat, ip: string, outcome: Outcome)
    requires |waits| == |calls|
  {
    i < |calls| && calls[i].SignIn? && calls[i].ip == ip && calls[i].outcome == outcome && waits[i] == 0
  }

  /** The client starts clear, never signs in and its record never goes to make room for another. */
  ghost predicate HeldAgainst(calls: seq<Call>, waits: seq<nat>, books: seq<Book>, ip: string)
    requires |waits| == |calls| && |books| == |calls| + 1
  {
    ip !in books[0] &&
    (forall i: nat :: !Checked(calls, waits, i, ip, RightPassword)) &&
    forall i: nat :: i < |calls| && calls[i].SignIn? && calls[i].ip != ip && ip in books[i] ==> ip in books[i + 1]
  }

  /** When the first `n` calls turned down a password of this client. */
  function Downs(calls: seq<Call>, waits: seq<nat>, ip: string, n: nat): seq<nat>
    requires |waits| == |calls| && n <= |calls|
  {
    if n == 0 then []
    else Downs(calls, waits, ip, n - 1) +
         if Checked(calls, waits, n - 1, ip, WrongPassword) then [Over(calls[n - 1])] else []
  }

  lemma LaterTracks(s: State, t: State, h: seq<nat>, key: string)
    requires Tracks(s, h, key) && s.book == t.book && s.now <= t.now
    requires key in t.checking && key in t.book ==> t.book[key].until <= t.now
    ensures Tracks(t, h, key)
  {
  }

  /** What is known of a client between two calls: its record, if any, counts its failures `h`, and they
      came slowly. */
  ghost predicate Known(book: Book, now: nat, h: seq<nat>, ip: string) {
    Tracks(State(book, {}, now), h, ip) && Paced(h)
  }

  /** One call keeps it so. */
  lemma CallTracked(before: Book, c: Call, wait: nat, after: Book, h: seq<nat>, ip: string, now: nat)
    requires Serves(before, c, wait, after) && now <= Begun(c)
    requires Known(before, now, h, ip)
    requires !(c.SignIn? && c.ip == ip && c.outcome == RightPassword && wait == 0)
    requires c.SignIn? && c.ip != ip && ip in before ==> ip in after
    ensures var down := c.SignIn? && c.ip == ip && c.outcome == WrongPassword && wait == 0;
            Known(after, Over(c), if down then h + [Over(c)] else h, ip)
  {
    if c.SignIn? && c.ip == ip && c.outcome == WrongPassword && wait == 0 {
      var checking := State(before, {ip}, c.asked);
      LaterTracks(State(before, {}, now), checking, h, ip);
      NextIsPaced(checking, h, ip, c.done);
      DownTracked(before, c, after, h, ip, now);
    }
  }

  lemma DownTracked(before: Book, c: Call, after: Book, h: seq<nat>, ip: string, now: nat)
    requires c.SignIn? && c.ip == ip && c.outcome == WrongPassword && Serves(before, c, 0, after) && now <= c.asked
    requires Tracks(State(before, {}, now), h, ip) && Ordered(h + [c.done])
    ensures Tracks(State(after, {}, c.done), h + [c.done], ip)
  {
    var g := h + [c.done];
    if ip in before {
      assert g[|g| - (before[ip].fails + 1)] == h[|h| - before[ip].fails];
    }
  }

  lemma {:induction false} HistoryTracked(calls: seq<Call>, waits: seq<nat>, books: seq<Book>, ip: string, n: nat)
    requires History(calls, waits, books) && HeldAgainst(calls, waits, books, ip) && n <= |calls|
    ensures Known(books[n], if n == 0 then 0 else Over(calls[n - 1]), Downs(calls, waits, ip, n), ip)
  {
    if n > 0 {
      HistoryTracked(calls, waits, books, ip, n - 1);
      assert !Checked(calls, waits, n - 1, ip, RightPassword);
      var h := Downs(calls, waits, ip, n - 1);
      assert h + [] == h;
      CallTracked(books[n - 1], calls[n - 1], waits[n - 1], books[n], h, ip, if n == 1 then 0 else Over(calls[n - 2]));
    }
  }

  /** Where in that list a call that turned down a password is to be found. */
  lemma {:induction false} DownAt(calls: seq<Call>, waits: seq<nat>, ip: string, i: nat, n: nat)
    requires |waits| == |calls| && i < n <= |calls| && Checked(calls, waits, i, ip, WrongPassword)
    ensures var h, k := Downs(calls, waits, ip, n), |Downs(calls, waits, ip, i)|;
            k < |Downs(calls, waits, ip, i + 1)| <= |h| && h[k] == calls[i].done
    decreases n
  {
    if i + 1 < n {
      DownAt(calls, waits, ip, i, n - 1);
    }
  }

  lemma {:induction false} DownsGrow(calls: seq<Call>, waits: seq<nat>, ip: string, i: nat, j: nat)
    requires |waits| == |calls| && i <= j <= |calls|
    ensures |Downs(calls, waits, ip, i)| <= |Downs(calls, waits, ip, j)|
    decreases j
  {
    if i < j {
      DownsGrow(calls, waits, ip, i, j - 1);
    }
  }

  /** The calls that turned down a password of this client within a stretch of time. */
  ghost function TurnedDown(calls: seq<Call>, waits: seq<nat>, ip: string, from: nat, length: nat): set<nat>
    requires |waits| == |calls|
  {
    set i: nat | i < |calls| && Checked(calls, waits, i, ip, WrongPassword) && from <= calls[i].done < from + length
  }

  lemma AsManyTurnedDown(calls: seq<Call>, waits: seq<nat>, ip: string, from: nat, length: nat)
    requires |waits| == |calls|
    ensures |TurnedDown(calls, waits, ip, from, length)| <= |InWindow(Downs(calls, waits, ip, |calls|), from, length)|
  {
    var place := (i: nat) => if i <= |calls| then |Downs(calls, waits, ip, i)| else 0;
    var down := TurnedDown(calls, waits, ip, from, length);
    forall i | i in down
      ensures place(i) in InWindow(Downs(calls, waits, ip, |calls|), from, length)
    {
      DownAt(calls, waits, ip, i, |calls|);
    }
    forall i, j | i in down && j in down && i < j
      ensures place(i) != place(j)
    {
      DownAt(calls, waits, ip, i, |calls|);
      DownsGrow(calls, waits, ip, i + 1, j);
    }
    InjectionSize(down, InWindow(Downs(calls, waits, ip, |calls|), from, length), place);
  }

  /** So guessing is slow as its answers show: of the requests answered one after another, with the
      reaper in between, those that let a client's password be checked and found it wrong are at most
      five in any five minutes and at most ten in any thirty. */
  lemma AnswersAreSlow(calls: seq<Call>, waits: seq<nat>, books: seq<Book>, ip: string, from: nat)
    requires History(calls, waits, books) && HeldAgainst(calls, waits, books, ip)
    ensures |TurnedDown(calls, waits, ip, from, 300_000_000_000)| <= 5
    ensures |TurnedDown(calls, waits, ip, from, 1_800_000_000_000)| <= 10
  {
    var h := Downs(calls, waits, ip, |calls|);
    HistoryTracked(calls, waits, books, ip, |calls|);
    FewInWindow(h, 5, 5 * MINUTE, from);
    FewInWindow(h, 10, 30 * MINUTE, from);
    AsManyTurnedDown(calls, waits, ip, from, 300_000_000_000);
    AsManyTurnedDown(calls, waits, ip, from, 1_800_000_000_000);
  }

  // ---------------------------------------------------------- and no slower than that

  lemma RemembersOn(start: State, es: seq<Event>, s: State, e: Event, key: string) returns (more: seq<Event>)
    requires Remembers(start, es, s, key) && Enabled(s, e) && !Forgets(s, e, key)
    ensures Remembers(start, more, Step(s, e), key)
    ensures Failures(more, key) == Failures(es, key) + if e.Wrong? && e.key == key then [e.at] else []
  {
    more := es + [e];
    assert more[..|es|] == es;
    assert KeepsOn(s, e, Step(s, e), key);
  }

  /** When a client that tries as early as it may gets its n-th password turned down. */
  function Eager(n: nat): nat {
    if n <= 5 then 0 else (n - 5) * 5 * MINUTE
  }

  function EagerRecord(n: nat): Attempt
    requires 0 < n
  {
    Attempt(n, if n >= 10 then Eager(n) + 30 * MINUTE else if n >= 5 then Eager(n) + 5 * MINUTE else 0, Eager(n))
  }

  function EagerState(n: nat, key: string): State {
    State(if n == 0 then map[] else map[key := EagerRecord(n)], {}, Eager(n))
  }

  lemma EagerStep(n: nat, key: string)
    requires n < 10
    ensures var s, t := EagerState(n, key), Eager(n + 1);
            var asked := State(s.book, {key}, t);
            Enabled(s, Ask(key, t)) && Step(s, Ask(key, t)) == asked &&
            Enabled(asked, Wrong(key, t, if n == 0 then [] else [key])) &&
            Step(asked, Wrong(key, t, if n == 0 then [] else [key])) == EagerState(n + 1, key)
  {
    var s, t := EagerState(n, key), Eager(n + 1);
    assert Blocked(s.book, key, t) == 0;
    var order: seq<string> := if n == 0 then [] else [key];
    assert Visits(s.book, order);
    assert {key} - {key} == {};
    assert AfterFail(s.book, key, t, Pick(s.book, order)) == EagerState(n + 1, key).book;
  }

  ghost predicate EagerTimes(h: seq<nat>, n: nat) {
    |h| == n && forall i :: 0 <= i < n ==> h[i] == Eager(i + 1)
  }

  lemma {:induction false} EagerRun(start: State, n: nat, key: string) returns (es: seq<Event>)
    requires n <= 10 && start == EagerState(0, key)
    ensures Remembers(start, es, EagerState(n, key), key)
    ensures EagerTimes(Failures(es, key), n)
    decreases n
  {
    if n == 0 {
      es := [];
    } else {
      es := EagerRun(start, n - 1, key);
      es := EagerAttempt(start, es, n - 1, key);
    }
  }

  lemma EagerAttempt(start: State, es: seq<Event>, n: nat, key: string) returns (more: seq<Event>)
    requires n < 10 && Remembers(start, es, EagerState(n, key), key)
    ensures Remembers(start, more, EagerState(n + 1, key), key)
    ensures Failures(more, key) == Failures(es, key) + [Eager(n + 1)]
  {
    var s, t := EagerState(n, key), Eager(n + 1);
    var asked := State(s.book, {key}, t);
    var wrong := Wrong(key, t, if n == 0 then [] else [key]);
    EagerStep(n, key);
    more := AskOn(start, es, s, key, t, asked);
    more := WrongOn(start, more, asked, wrong, EagerState(n + 1, key));
  }

  lemma AskOn(start: State, es: seq<Event>, s: State, key: string, t: nat, next: State) returns (more: seq<Event>)
    requires Remembers(start, es, s, key) && Enabled(s, Ask(key, t)) && next == Step(s, Ask(key, t))
    ensures Remembers(start, more, next, key) && Failures(more, key) == Failures(es, key)
  {
    more := RemembersOn(start, es, s, Ask(key, t), key);
    assert Failures(es, key) + [] == Failures(es, key);
  }

  lemma WrongOn(start: State, es: seq<Event>, s: State, e: Event, next: State) returns (more: seq<Event>)
    requires e.Wrong? && Remembers(start, es, s, e.key) && Enabled(s, e) && next == Step(s, e)
    requires !Forgets(s, e, e.key)
    ensures Remembers(start, more, next, e.key) && Failures(more, e.key) == Failures(es, e.key) + [e.at]
  {
    more := RemembersOn(start, es, s, e, e.key);
  }

  lemma {:induction false} CountBelow(xs: set<nat>, n: nat)
    requires forall i: nat :: i in xs <==> i < n
    ensures |xs| == n
    decreases n
  {
    if n > 0 {
      CountBelow(xs - {n - 1}, n - 1);
    } else {
      NothingInside(xs);
    }
  }

  lemma EagerWindow(h: seq<nat>, n: nat, length: nat)
    requires n <= 10 && EagerTimes(h, 10) && 0 < length
    requires n < 10 ==> Eager(n + 1) >= length
    requires n > 0 ==> Eager(n) < length
    ensures |InWindow(h, 0, length)| == n
  {
    forall i: nat | i < 10
      ensures h[i] < length <==> i < n
    {
      assert h[i] == Eager(i + 1);
    }
    CountBelow(InWindow(h, 0, length), n);
  }

  /** The limits are reached: a client that never waits longer than it must has five passwords
      turned down at once and ten within thirty minutes. */
  lemma LimitsAreReached(start: State, key: string) returns (es: seq<Event>, s: State)
    requires start == State(map[], {}, 0)
    ensures Remembers(start, es, s, key)
    ensures |InWindow(Failures(es, key), 0, 300_000_000_000)| == 5
    ensures |InWindow(Failures(es, key), 0, 1_800_000_000_000)| == 10
  {
    es := EagerRun(start, 10, key);
    s := EagerState(10, key);
    EagerWindow(Failures(es, key), 5, 5 * MINUTE);
    EagerWindow(Failures(es, key), 10, 30 * MINUTE);
  }

  /** As long as no client goes by the empty name, there are never more records than the ceiling. */
  lemma {:induction false} RecordsBounded(start: State, es: seq<Event>, s: State)
    requires |start.book| <= 50_000 && "" !in start.book && Runs(start, es, s)
    requires forall e :: e in es && e.Wrong? ==> e.key != ""
    ensures |s.book| <= 50_000 && "" !in s.book
    decreases |es|
  {
    if es != [] {
      var front, e := es[..|es| - 1], es[|es| - 1];
      var p :| Runs(start, front, p) && Leads(p, e, s);
      assert forall x :: x in front ==> x in es;
      assert e in es;
      RecordsBounded(start, front, p);
      match e {
        case Wrong(key, at, order) => CeilingHolds(p.book, key, at, order);
        case Right(key, _) => SubsetSize((p.book - {key}).Keys, p.book.Keys);
        case Reap(at) => SubsetSize(Reaped(p.book, at).Keys, p.book.Keys);
        case _ =>
      }
    }
  }
}
