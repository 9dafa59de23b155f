/** auth.go: the guard that slows down guessing a password. Times are nanoseconds since the zero
    time, which is what an attempt that locked nobody out carries. */
module LoginGuard {
  const SECOND: nat := 1_000_000_000
  const MINUTE: nat := 60_000_000_000
  const GUARD_RETENTION: nat := 30 * MINUTE
  const GUARD_MAX_IPS: nat := 50_000

  datatype Attempt = Attempt(fails: nat, until: nat, last: nat)

  type Book = map<string, Attempt>

  // ------------------------------------------------------------ the operations

  /** blocked: the seconds left to wait, so that waiting that long is enough and a whole second
      less is not. */
  function Blocked(book: Book, ip: string, now: nat): (r: nat)
    ensures r > 0 <==> ip in book && now < book[ip].until
    ensures r > 0 ==> (r - 1) * 1_000_000_000 <= book[ip].until - now < r * 1_000_000_000
  {
    if ip in book && book[ip].until > now then (book[ip].until - now) / SECOND + 1 else 0
  }

  predicate Stale(a: Attempt, now: nat) {
    now > a.until && now > a.last + GUARD_RETENTION
  }

  function Reaped(book: Book, now: nat): Book {
    map ip | ip in book && !Stale(book[ip], now) :: book[ip]
  }

  /** The record one more failure leaves. */
  function Failed(a: Attempt, now: nat): Attempt {
    var n := a.fails + 1;
    Attempt(n, if n >= 10 then now + 30 * MINUTE else if n >= 5 then now + 5 * MINUTE else a.until, now)
  }

  /** The keys of the map in the order a `range` happened to visit them. */
  ghost predicate Visits(book: Book, order: seq<string>) {
    (forall k :: k in order <==> k in book) && forall i, j :: 0 <= i < j < |order| ==> order[i] != order[j]
  }

  /** The scan of evictOldestLocked, whose "nothing yet" is the empty key. */
  function Pick(book: Book, order: seq<string>): (r: string)
    requires forall k :: k in order ==> k in book
    ensures order == [] ==> r == ""
    ensures order != [] ==> r in order
  {
    if order == [] then ""
    else
      var best, k := Pick(book, order[..|order| - 1]), order[|order| - 1];
      if best == "" || book[k].last < book[best].last then k else best
  }

  function Evicted(book: Book, victim: string): Book {
    if victim == "" then book else book - {victim}
  }

  function AfterFail(book: Book, ip: string, now: nat, victim: string): Book {
    if ip in book then book[ip := Failed(book[ip], now)]
    else
      var room := if |book| >= GUARD_MAX_IPS then Evicted(book, victim) else book;
      room[ip := Failed(Attempt(0, 0, 0), now)]
  }

  class Guard {
    var data: Book

    constructor ()
      ensures data == map[]
    {
      data := map[];
    }

    method BlockedFor(ip: string, now: nat) returns (seconds: nat)
      ensures seconds == Blocked(data, ip, now)
      ensures seconds > 0 <==> ip in data && now < data[ip].until
      ensures seconds > 0 ==> (seconds - 1) * 1_000_000_000 <= data[ip].until - now < seconds * 1_000_000_000
    {
      if ip !in data {
        return 0;
      }
      var a := data[ip];
      if a.until > now {
        return (a.until - now) / SECOND + 1;
      }
      return 0;
    }

    method Reap(now: nat)
      modifies this
      ensures data == Reaped(old(data), now)
      ensures forall k :: k in data <==>
                k in old(data) && (now <= old(data)[k].until || now <= old(data)[k].last + 1_800_000_000_000)
      ensures forall k :: k in data ==> data[k] == old(data)[k]
    {
      var left := data.Keys;
      while left != {}
        invariant left <= old(data).Keys
        invariant forall k :: k in data <==> k in old(data) && (k in left || !Stale(old(data)[k], now))
        invariant forall k :: k in data ==> data[k] == old(data)[k]
        decreases |left|
      {
        var k :| k in left;
        left := left - {k};
        if now > data[k].until && now > data[k].last + GUARD_RETENTION {
          data := data - {k};
        }
      }
    }

    method EvictOldest() returns (ghost order: seq<string>)
      modifies this
      ensures Visits(old(data), order) && data == Evicted(old(data), Pick(old(data), order))
      ensures forall k :: k in data ==> k in old(data) && data[k] == old(data)[k]
      ensures forall j, k :: j in old(data) && k in old(data) && j !in data && k !in data ==> j == k
      ensures "" !in old(data) && old(data) != map[] ==>
                exists k :: k in old(data) && k !in data && forall j :: j in old(data) ==> old(data)[k].last <= old(data)[j].last
    {
      ghost var was := data;
      var oldestKey, oldest := "", 0;
      var left := data.Keys;
      order := [];
      while left != {}
        invariant left <= data.Keys
        invariant forall k :: k in order <==> k in data && k !in left
        invariant forall i, j :: 0 <= i < j < |order| ==> order[i] != order[j]
        invariant oldestKey == Pick(data, order)
        invariant oldestKey != "" ==> oldest == data[oldestKey].last
        decreases |left|
      {
        var k :| k in left;
        left := left - {k};
        assert (order + [k])[..|order|] == order;
        order := order + [k];
        if oldestKey == "" || data[k].last < oldest {
          oldestKey, oldest := k, data[k].last;
        }
      }
      if oldestKey != "" {
        data := data - {oldestKey};
      }
      PickIsOldest(was, order);
    }

    method Fail(ip: string, now: nat) returns (ghost order: seq<string>)
      modifies this
      ensures Visits(old(data), order) && data == AfterFail(old(data), ip, now, Pick(old(data), order))
      ensures ip in data && data[ip].last == now
      ensures data[ip].fails == if ip in old(data) then old(data)[ip].fails + 1 else 1
      ensures data[ip].fails >= 10 ==> data[ip].until == now + 1_800_000_000_000
      ensures 5 <= data[ip].fails < 10 ==> data[ip].until == now + 300_000_000_000
      ensures data[ip].fails < 5 ==> data[ip].until == if ip in old(data) then old(data)[ip].until else 0
      ensures forall k :: k in data && k != ip ==> k in old(data) && data[k] == old(data)[k]
      ensures ip in old(data) || |old(data)| < 50_000 ==> forall k :: k in old(data) ==> k in data
      ensures forall j, k :: j in old(data) && k in old(data) && j !in data && k !in data ==> j == k
      ensures ip !in old(data) && |old(data)| >= 50_000 && "" !in old(data) ==>
                exists k :: k in old(data) && k !in data && forall j :: j in old(data) ==> old(data)[k].last <= old(data)[j].last
    {
      order := AnyOrder(data.Keys);
      var a;
      if ip in data {
        a := data[ip];
      } else {
        if |data| >= GUARD_MAX_IPS {
          order := EvictOldest();
        }
        a := Attempt(0, 0, 0);
      }
      a := Count(a, now);
      data := data[ip := a];
    }

    static method Count(was: Attempt, now: nat) returns (a: Attempt)
      ensures a == Failed(was, now)
    {
      a := was.(fails := was.fails + 1, last := now);
      if a.fails >= 10 {
        a := a.(until := now + 30 * MINUTE);
      } else if a.fails >= 5 {
        a := a.(until := now + 5 * MINUTE);
      }
    }

    method Success(ip: string)
      modifies this
      ensures ip !in data
      ensures forall k :: k != ip ==> (k in data <==> k in old(data)) && (k in data ==> data[k] == old(data)[k])
      ensures data == old(data) - {ip}
    {
      data := data - {ip};
    }
  }

  lemma AnyOrder(keys: set<string>) returns (order: seq<string>)
    ensures forall k :: k in order <==> k in keys
    ensures forall i, j :: 0 <= i < j < |order| ==> order[i] != order[j]
    decreases |keys|
  {
    if keys == {} {
      order := [];
    } else {
      var k :| k in keys;
      var rest := AnyOrder(keys - {k});
      order := [k] + rest;
    }
  }

  // ----------------------------------------------------------- what reaping loses

  /** Reaping never changes what anyone is told from that moment on. */
  lemma ReapKeepsAnswers(book: Book, now: nat, ip: string, later: nat)
    requires now <= later
    ensures Blocked(Reaped(book, now), ip, later) == Blocked(book, ip, later)
  {
  }

  // -------------------------------------------------------------- what is evicted

  /** Without the empty key the scan finds a record no other is older than. */
  lemma {:induction false} PicksOldest(book: Book, order: seq<string>)
    requires order != [] && forall k :: k in order ==> k in book && k != ""
    ensures Pick(book, order) != "" && forall k :: k in order ==> book[Pick(book, order)].last <= book[k].last
    decreases |order|
  {
    var front := order[..|order| - 1];
    assert order == front + [order[|order| - 1]];
    assert order[|order| - 1] in order;
    if front != [] {
      assert forall k :: k in front ==> k in order;
      PicksOldest(book, front);
    }
  }

  lemma NonEmptyVisit(book: Book, order: seq<string>)
    requires Visits(book, order)
    ensures order == [] <==> book == map[]
  {
    if book != map[] {
      var k :| k in book;
      assert k in order;
    }
    if order != [] {
      assert order[0] in order;
    }
  }

  /** In a map without the empty key the one record that goes is one no other is older than. */
  lemma PickIsOldest(book: Book, order: seq<string>)
    requires Visits(book, order)
    ensures "" !in book && book != map[] ==>
              Pick(book, order) in book && forall k :: k in book ==> book[Pick(book, order)].last <= book[k].last
  {
    if "" !in book && book != map[] {
      NonEmptyVisit(book, order);
      PicksOldest(book, order);
    }
  }

  /** Exactly when an eviction can come to nothing: there is nothing to evict, or the record under
      the empty key is the one that should go. */
  lemma EvictionFailsIff(book: Book)
    ensures (exists order :: Visits(book, order) && Pick(book, order) == "") <==>
            book == map[] || ("" in book && forall k :: k in book && k != "" ==> book[""].last < book[k].last)
  {
    if book == map[] {
      assert Visits(book, []) && Pick(book, []) == "";
    } else if "" in book && forall k :: k in book && k != "" ==> book[""].last < book[k].last {
      var others := AnyOrder(book.Keys - {""});
      var order := others + [""];
      assert order[..|order| - 1] == others;
      assert Visits(book, order);
      assert Pick(book, order) == "";
    } else {
      forall order | Visits(book, order)
        ensures Pick(book, order) != ""
      {
        NonEmptyVisit(book, order);
        EmptyOnlyIfOldest(book, order);
      }
    }
  }

  lemma EmptyOnlyIfOldest(book: Book, order: seq<string>)
    requires Visits(book, order) && order != []
    ensures Pick(book, order) == "" ==> "" in book && forall k :: k in book && k != "" ==> book[""].last < book[k].last
  {
    if Pick(book, order) == "" {
      var n := |order| - 1;
      var front := order[..n];
      assert order == front + [order[n]];
      assert forall k :: k in book && k != "" ==> k in front;
      if front != [] {
        assert forall k :: k in front ==> k in order;
        PicksOldest(book, front);
      }
    }
  }

  /** So for non-empty keys the number of records never passes the ceiling. */
  lemma CeilingHolds(book: Book, ip: string, now: nat, order: seq<string>)
    requires |book| <= 50_000 && "" !in book && ip != "" && Visits(book, order)
    ensures var after := AfterFail(book, ip, now, Pick(book, order));
            |after| <= 50_000 && "" !in after
  {
    if ip !in book {
      if |book| >= GUARD_MAX_IPS {
        NonEmptyVisit(book, order);
        PicksOldest(book, order);
        var victim := Pick(book, order);
        assert victim in order;
        assert (book - {victim}).Keys == book.Keys - {victim};
        OneMore(book - {victim}, ip, Failed(Attempt(0, 0, 0), now));
      } else {
        OneMore(book, ip, Failed(Attempt(0, 0, 0), now));
      }
    } else {
      assert book[ip := Failed(book[ip], now)].Keys == book.Keys;
    }
  }

  lemma OneMore(book: Book, ip: string, a: Attempt)
    ensures |book[ip := a]| <= |book| + 1
  {
    assert book[ip := a].Keys == book.Keys + {ip};
  }
}
