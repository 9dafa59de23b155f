/** safeline-import.py, walk and directives: finding blocks by name at any depth. */
module NginxWalk {
  import opened Wrappers
  import opened NginxConf

  predicate Named(args: seq<string>, name: string) {
    args != [] && args[0] == name
  }

  /** walk: every block called `name`, each before whatever is inside it. */
  function Walk(nodes: seq<Node>, name: string): seq<Node> {
    if nodes == [] then []
    else
      (match nodes[0]
       case Directive(_) => []
       case Block(args, children) => (if Named(args, name) then [nodes[0]] else []) + Walk(children, name))
      + Walk(nodes[1..], name)
  }

  // ------------------------------------------------------------ places in a tree

  /** A place: which node, then which of its children, and so on down. */
  type Path = seq<nat>

  function Find(nodes: seq<Node>, p: Path): Option<Node> {
    if p == [] || p[0] >= |nodes| then None
    else if |p| == 1 then Some(nodes[p[0]])
    else match nodes[p[0]]
      case Directive(_) => None
      case Block(_, children) => Find(children, p[1..])
  }

  /** Document order: a block comes before what is inside it. */
  predicate Before(p: Path, q: Path) {
    q != [] && (p == [] || p[0] < q[0] || (p[0] == q[0] && Before(p[1..], q[1..])))
  }

  function Under(k: nat, ps: seq<Path>): (r: seq<Path>)
    ensures |r| == |ps| && forall i :: 0 <= i < |ps| ==> r[i] == [k] + ps[i]
  {
    seq(|ps|, i requires 0 <= i < |ps| => [k] + ps[i])
  }

  /** The places of what Walk yields; `k` is the place of the first node among its siblings. */
  function Places(nodes: seq<Node>, k: nat, name: string): seq<Path> {
    if nodes == [] then []
    else
      (match nodes[0]
       case Directive(_) => []
       case Block(args, children) => (if Named(args, name) then [[k]] else []) + Under(k, Places(children, 0, name)))
      + Places(nodes[1..], k + 1, name)
  }

  predicate Wanted(nodes: seq<Node>, p: Path, name: string) {
    var n := Find(nodes, p);
    n.Some? && n.value.Block? && Named(n.value.args, name)
  }

  /** The sibling list shifted: a place counted from `k`. */
  predicate WantedFrom(nodes: seq<Node>, k: nat, p: Path, name: string) {
    p != [] && p[0] >= k && Wanted(nodes, [p[0] - k] + p[1..], name)
  }

  lemma FindHead(nodes: seq<Node>, p: Path)
    requires nodes != [] && p != [] && p[0] == 0
    ensures Find(nodes, p) ==
            if |p| == 1 then Some(nodes[0])
            else if nodes[0].Directive? then None else Find(nodes[0].children, p[1..])
  {
  }

  lemma FindTail(nodes: seq<Node>, p: Path)
    requires nodes != [] && p != [] && p[0] > 0
    ensures Find(nodes, p) == Find(nodes[1..], [p[0] - 1] + p[1..])
  {
    assert ([p[0] - 1] + p[1..])[1..] == p[1..];
  }

  lemma WantedHead(nodes: seq<Node>, k: nat, p: Path, name: string)
    requires nodes != [] && p != [] && p[0] == k
    ensures WantedFrom(nodes, k, p, name) <==>
            nodes[0].Block? && if |p| == 1 then Named(nodes[0].args, name) else WantedFrom(nodes[0].children, 0, p[1..], name)
  {
    var q := [p[0] - k] + p[1..];
    assert q[1..] == p[1..];
    FindHead(nodes, q);
    assert |p| > 1 ==> [p[1..][0] - 0] + p[1..][1..] == p[1..];
  }

  lemma WantedTail(nodes: seq<Node>, k: nat, p: Path, name: string)
    requires nodes != [] && p != [] && p[0] > k
    ensures WantedFrom(nodes, k, p, name) <==> WantedFrom(nodes[1..], k + 1, p, name)
  {
    var q := [p[0] - k] + p[1..];
    assert q[1..] == p[1..];
    FindTail(nodes, q);
  }

  /** Exactly the places of the blocks called `name`. */
  lemma {:induction false} PlacesAreWanted(nodes: seq<Node>, k: nat, name: string, p: Path)
    ensures p in Places(nodes, k, name) <==> WantedFrom(nodes, k, p, name)
    decreases nodes
  {
    if nodes != [] {
      PlacesAreWanted(nodes[1..], k + 1, name, p);
      if p != [] && p[0] > k {
        WantedTail(nodes, k, p, name);
      }
      if p != [] && p[0] == k {
        WantedHead(nodes, k, p, name);
        assert |p| == 1 ==> p == [k];
      }
      if nodes[0].Block? {
        UnderMeans(k, Places(nodes[0].children, 0, name), p);
        if p != [] {
          PlacesAreWanted(nodes[0].children, 0, name, p[1..]);
        }
      }
    }
  }

  lemma UnderMeans(k: nat, ps: seq<Path>, p: Path)
    ensures p in Under(k, ps) <==> p != [] && p[0] == k && p[1..] in ps
  {
    var r := Under(k, ps);
    if p in r {
      var i :| 0 <= i < |r| && r[i] == p;
      assert p[1..] == ps[i];
    }
    if p != [] && p[0] == k && p[1..] in ps {
      var i :| 0 <= i < |ps| && ps[i] == p[1..];
      assert r[i] == p;
    }
  }

  ghost predicate InDocumentOrder(ps: seq<Path>) {
    forall i, j :: 0 <= i < j < |ps| ==> Before(ps[i], ps[j])
  }

  lemma OrderJoins(a: seq<Path>, b: seq<Path>)
    requires InDocumentOrder(a) && InDocumentOrder(b)
    requires forall p, q :: p in a && q in b ==> Before(p, q)
    ensures InDocumentOrder(a + b)
  {
  }

  lemma UnderOrder(k: nat, ps: seq<Path>)
    requires InDocumentOrder(ps)
    ensures InDocumentOrder(Under(k, ps))
  {
    var r := Under(k, ps);
    forall i, j | 0 <= i < j < |r|
      ensures Before(r[i], r[j])
    {
      assert r[i][1..] == ps[i] && r[j][1..] == ps[j];
    }
  }

  /** Each exactly once and in document order. */
  lemma {:induction false} PlacesInOrder(nodes: seq<Node>, k: nat, name: string)
    ensures InDocumentOrder(Places(nodes, k, name))
    decreases nodes
  {
    if nodes != [] {
      var rest := Places(nodes[1..], k + 1, name);
      PlacesInOrder(nodes[1..], k + 1, name);
      match nodes[0] {
        case Directive(_) =>
          assert Places(nodes, k, name) == [] + rest == rest;
        case Block(args, children) =>
          var inner := Places(children, 0, name);
          PlacesInOrder(children, 0, name);
          UnderOrder(k, inner);
          var own: seq<Path> := if Named(args, name) then [[k]] else [];
          forall p, q | p in own && q in Under(k, inner)
            ensures Before(p, q)
          {
            UnderMeans(k, inner, q);
            PlacesAreWanted(children, 0, name, q[1..]);
            assert p[1..] == [];
          }
          OrderJoins(own, Under(k, inner));
          forall p, q | p in own + Under(k, inner) && q in rest
            ensures Before(p, q)
          {
            UnderMeans(k, inner, p);
            PlacesAreWanted(nodes[1..], k + 1, name, q);
          }
          OrderJoins(own + Under(k, inner), rest);
      }
    }
  }

  ghost predicate Finds(nodes: seq<Node>, k: nat, ps: seq<Path>, out: seq<Node>) {
    |ps| == |out| &&
    forall i :: 0 <= i < |ps| ==> ps[i] != [] && ps[i][0] >= k && Find(nodes, [ps[i][0] - k] + ps[i][1..]) == Some(out[i])
  }

  lemma FindsJoin(nodes: seq<Node>, k: nat, a: seq<Path>, x: seq<Node>, b: seq<Path>, y: seq<Node>)
    requires Finds(nodes, k, a, x) && Finds(nodes, k, b, y)
    ensures Finds(nodes, k, a + b, x + y)
  {
  }

  lemma FindsUnder(nodes: seq<Node>, k: nat, ps: seq<Path>, out: seq<Node>)
    requires nodes != [] && nodes[0].Block? && Finds(nodes[0].children, 0, ps, out)
    ensures Finds(nodes, k, Under(k, ps), out)
  {
    forall i | 0 <= i < |ps|
      ensures Find(nodes, [0] + Under(k, ps)[i][1..]) == Some(out[i])
    {
      assert Under(k, ps)[i][1..] == ps[i];
      assert [ps[i][0] - 0] + ps[i][1..] == ps[i];
      assert ([0] + ps[i])[1..] == ps[i];
      FindHead(nodes, [0] + ps[i]);
    }
  }

  lemma FindsAfter(nodes: seq<Node>, k: nat, ps: seq<Path>, out: seq<Node>)
    requires nodes != [] && Finds(nodes[1..], k + 1, ps, out)
    ensures Finds(nodes, k, ps, out)
  {
    forall i | 0 <= i < |ps|
      ensures Find(nodes, [ps[i][0] - k] + ps[i][1..]) == Some(out[i])
    {
      var p := [ps[i][0] - k] + ps[i][1..];
      assert p[1..] == ps[i][1..];
      FindTail(nodes, p);
    }
  }

  lemma {:induction false} WalkFindsPlaces(nodes: seq<Node>, k: nat, name: string)
    ensures Finds(nodes, k, Places(nodes, k, name), Walk(nodes, name))
    decreases nodes
  {
    if nodes != [] {
      WalkFindsPlaces(nodes[1..], k + 1, name);
      FindsAfter(nodes, k, Places(nodes[1..], k + 1, name), Walk(nodes[1..], name));
      match nodes[0] {
        case Directive(_) =>
          FindsJoin(nodes, k, [], [], Places(nodes[1..], k + 1, name), Walk(nodes[1..], name));
        case Block(args, children) =>
          WalkFindsPlaces(children, 0, name);
          FindsUnder(nodes, k, Places(children, 0, name), Walk(children, name));
          var at: seq<Path> := if Named(args, name) then [[k]] else [];
          var own: seq<Node> := if Named(args, name) then [nodes[0]] else [];
          assert [k][1..] == [];
          assert Finds(nodes, k, at, own);
          FindsJoin(nodes, k, at, own, Under(k, Places(children, 0, name)), Walk(children, name));
          FindsJoin(nodes, k, at + Under(k, Places(children, 0, name)), own + Walk(children, name),
                    Places(nodes[1..], k + 1, name), Walk(nodes[1..], name));
      }
    }
  }

  /** Walk yields every block called `name`, at any depth, exactly once and in document order: there
      is a strictly increasing list of places, one for each node yielded and holding it, that are
      exactly the places of such blocks. */
  lemma WalkIsComplete(nodes: seq<Node>, name: string) returns (places: seq<Path>)
    ensures |places| == |Walk(nodes, name)|
    ensures forall i :: 0 <= i < |places| ==> Find(nodes, places[i]) == Some(Walk(nodes, name)[i])
    ensures InDocumentOrder(places) && forall i, j :: 0 <= i < j < |places| ==> places[i] != places[j]
    ensures forall p :: p in places <==> Wanted(nodes, p, name)
  {
    places := Places(nodes, 0, name);
    WalkFindsPlaces(nodes, 0, name);
    PlacesInOrder(nodes, 0, name);
    OrderIsDistinct(places);
    forall p
      ensures p in places <==> Wanted(nodes, p, name)
    {
      PlacesAreWanted(nodes, 0, name, p);
      FromZero(nodes, p, name);
    }
    FoundFromZero(nodes, places, Walk(nodes, name));
  }

  lemma OrderIsDistinct(ps: seq<Path>)
    requires InDocumentOrder(ps)
    ensures forall i, j :: 0 <= i < j < |ps| ==> ps[i] != ps[j]
  {
    forall i, j | 0 <= i < j < |ps|
      ensures ps[i] != ps[j]
    {
      BeforeIsStrict(ps[i]);
    }
  }

  lemma FromZero(nodes: seq<Node>, p: Path, name: string)
    ensures WantedFrom(nodes, 0, p, name) <==> Wanted(nodes, p, name)
  {
    assert p != [] ==> [p[0] - 0] + p[1..] == p;
  }

  lemma FoundFromZero(nodes: seq<Node>, ps: seq<Path>, out: seq<Node>)
    requires Finds(nodes, 0, ps, out)
    ensures forall i :: 0 <= i < |ps| ==> Find(nodes, ps[i]) == Some(out[i])
  {
    forall i | 0 <= i < |ps|
      ensures Find(nodes, ps[i]) == Some(out[i])
    {
      assert [ps[i][0] - 0] + ps[i][1..] == ps[i];
    }
  }

  /** Document order is strict, so no place is listed twice. */
  lemma {:induction false} BeforeIsStrict(p: Path)
    ensures !Before(p, p)
    decreases |p|
  {
    if p != [] {
      BeforeIsStrict(p[1..]);
    }
  }
}
