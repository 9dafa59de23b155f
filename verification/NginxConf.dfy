/** safeline-import.py, parse and walk: tokens to a tree of directives and blocks, and back. */
module NginxConf {
  import opened Wrappers
  import opened NginxLex

  /** A directive (no children) or a block. */
  datatype Node = Directive(args: seq<string>) | Block(args: seq<string>, children: seq<Node>)

  predicate IsMark(t: string) {
    t == ";" || t == "{" || t == "}"
  }

  // ------------------------------------------------------------------ parse

  datatype Read = Read(nodes: seq<Node>, next: nat)

  /** Reading from `i` with `args` already in hand. */
  function ParseFrom(tokens: seq<string>, i: nat, args: seq<string>): (r: Read)
    requires i <= |tokens|
    ensures i <= r.next <= |tokens| && (i < |tokens| ==> i < r.next)
    decreases |tokens| - i
  {
    if i == |tokens| then Read([], i)
    else if tokens[i] == ";" then
      var r := ParseFrom(tokens, i + 1, []);
      Read((if args == [] then [] else [Directive(args)]) + r.nodes, r.next)
    else if tokens[i] == "{" then
      var inner := ParseFrom(tokens, i + 1, []);
      var r := ParseFrom(tokens, inner.next, []);
      Read([Block(args, inner.nodes)] + r.nodes, r.next)
    else if tokens[i] == "}" then Read([], i + 1)
    else ParseFrom(tokens, i + 1, args + [tokens[i]])
  }

  method Parse(tokens: seq<string>, start: nat) returns (nodes: seq<Node>, i: nat)
    requires start <= |tokens|
    ensures Read(nodes, i) == ParseFrom(tokens, start, [])
    decreases |tokens| - start
  {
    nodes, i := [], start;
    var args: seq<string> := [];
    while i < |tokens|
      invariant start <= i <= |tokens|
      invariant ParseFrom(tokens, start, []) == Ahead(nodes, ParseFrom(tokens, i, args))
    {
      var t := tokens[i];
      ghost var was := nodes;
      if t == ";" {
        AheadTwice(nodes, if args == [] then [] else [Directive(args)], ParseFrom(tokens, i + 1, []));
        if args != [] {
          nodes := nodes + [Directive(args)];
        } else {
          assert nodes + [] == nodes;
        }
        args, i := [], i + 1;
      } else if t == "{" {
        var children, j := Parse(tokens, i + 1);
        AheadTwice(nodes, [Block(args, children)], ParseFrom(tokens, j, []));
        nodes := nodes + [Block(args, children)];
        args, i := [], j;
      } else if t == "}" {
        return nodes, i + 1;
      } else {
        args := args + [t];
        i := i + 1;
      }
    }
  }

  function Ahead(nodes: seq<Node>, r: Read): Read {
    Read(nodes + r.nodes, r.next)
  }

  lemma AheadTwice(a: seq<Node>, b: seq<Node>, r: Read)
    ensures Ahead(a, Ahead(b, r)) == Ahead(a + b, r)
  {
    assert a + (b + r.nodes) == a + b + r.nodes;
  }

  // --------------------------------------------------------- where parse stops

  /** How far nested the position `j` is, seen from `i`: `{` opens, `}` closes. */
  function Depth(tokens: seq<string>, i: nat, j: nat): int
    requires i <= j <= |tokens|
  {
    if i == j then 0
    else Depth(tokens, i, j - 1) + if tokens[j - 1] == "{" then 1 else if tokens[j - 1] == "}" then -1 else 0
  }

  /** The token at `j` is a `}` and no `{` since `i` is still open for it. */
  predicate Closes(tokens: seq<string>, i: nat, j: nat)
    requires i <= |tokens|
  {
    i <= j < |tokens| && tokens[j] == "}" && Depth(tokens, i, j) == 0
  }

  lemma {:induction false} DepthSplits(tokens: seq<string>, i: nat, k: nat, j: nat)
    requires i <= k <= j <= |tokens|
    ensures Depth(tokens, i, j) == Depth(tokens, i, k) + Depth(tokens, k, j)
    decreases j
  {
    if k < j {
      DepthSplits(tokens, i, k, j - 1);
    }
  }

  /** Never below the start before the first unmatched `}`. */
  lemma {:induction false} DepthFloor(tokens: seq<string>, i: nat, j: nat)
    requires i <= j <= |tokens| && forall k :: i <= k < j ==> !Closes(tokens, i, k)
    ensures Depth(tokens, i, j) >= 0
    decreases j
  {
    if i < j {
      DepthFloor(tokens, i, j - 1);
      assert !Closes(tokens, i, j - 1);
    }
  }

  ghost predicate EverCloses(tokens: seq<string>, i: nat)
    requires i <= |tokens|
  {
    exists j :: Closes(tokens, i, j)
  }

  /** `next` is one past the first `}` that closes nothing opened since `i`; or the end. */
  ghost predicate FirstClose(tokens: seq<string>, i: nat, next: nat)
    requires i <= next <= |tokens|
  {
    if EverCloses(tokens, i)
    then next > i && Closes(tokens, i, next - 1) && forall j :: i <= j < next - 1 ==> !Closes(tokens, i, j)
    else next == |tokens|
  }

  /** Moving past a token that neither opens nor closes. */
  lemma CloseSkips(tokens: seq<string>, i: nat, next: nat)
    requires i < next <= |tokens| && tokens[i] != "{" && tokens[i] != "}" && FirstClose(tokens, i + 1, next)
    ensures FirstClose(tokens, i, next)
  {
    forall j | i + 1 <= j < |tokens|
      ensures Closes(tokens, i, j) <==> Closes(tokens, i + 1, j)
    {
      DepthSplits(tokens, i, i + 1, j);
      assert Depth(tokens, i, i + 1) == 0;
    }
    assert !Closes(tokens, i, i);
    if next == i + 1 {
      assert !EverCloses(tokens, i + 1);
    }
  }

  /** Moving past a whole block. */
  lemma CloseSkipsBlock(tokens: seq<string>, i: nat, m: nat, next: nat)
    requires i < m <= next <= |tokens| && tokens[i] == "{"
    requires FirstClose(tokens, i + 1, m) && FirstClose(tokens, m, next)
    ensures FirstClose(tokens, i, next)
  {
    var closed := EverCloses(tokens, i + 1);
    forall j | i <= j < |tokens| && (j < m || !closed)
      ensures !Closes(tokens, i, j)
    {
      if i < j {
        DepthSplits(tokens, i, i + 1, j);
        assert Depth(tokens, i, i + 1) == 1;
        DepthFloor(tokens, i + 1, j);
      }
    }
    if closed {
      forall j | m <= j < |tokens|
        ensures Closes(tokens, i, j) <==> Closes(tokens, m, j)
      {
        DepthSplits(tokens, i, i + 1, m);
        DepthSplits(tokens, i, m, j);
        assert Depth(tokens, i, i + 1) == 1 && Depth(tokens, i + 1, m) == -1;
      }
    }
  }

  /** Where parse stops: one past the first `}` that closes nothing opened since `i`, or at the end
      of the tokens when there is none. */
  lemma {:induction false} ParseStops(tokens: seq<string>, i: nat, args: seq<string>)
    requires i <= |tokens|
    ensures FirstClose(tokens, i, ParseFrom(tokens, i, args).next)
    decreases |tokens| - i
  {
    if i < |tokens| {
      var next := ParseFrom(tokens, i, args).next;
      if tokens[i] == "{" {
        var inner := ParseFrom(tokens, i + 1, []);
        ParseStops(tokens, i + 1, []);
        ParseStops(tokens, inner.next, []);
        CloseSkipsBlock(tokens, i, inner.next, next);
      } else if tokens[i] == "}" {
        assert Closes(tokens, i, i);
      } else if tokens[i] == ";" {
        ParseStops(tokens, i + 1, []);
        CloseSkips(tokens, i, next);
      } else {
        ParseStops(tokens, i + 1, args + [tokens[i]]);
        CloseSkips(tokens, i, next);
      }
    }
  }

  /** Read from the top, everything is consumed exactly when no `}` is unmatched, but perhaps the
      very last token; a stray one ends the reading there and the rest is never looked at. */
  lemma ReadToTheEnd(tokens: seq<string>)
    ensures ParseFrom(tokens, 0, []).next == |tokens| <==>
            forall j :: 0 <= j < |tokens| - 1 ==> !Closes(tokens, 0, j)
  {
    ParseStops(tokens, 0, []);
  }

  // ------------------------------------------------------------- round trip

  /** A tree that a configuration can spell: no word is a bare punctuation mark and a directive has
      a word. */
  predicate Printable(nodes: seq<Node>) {
    forall n :: n in nodes ==> PrintableNode(n)
  }

  predicate PrintableNode(n: Node) {
    (forall w :: w in n.args ==> !IsMark(w)) &&
    match n
    case Directive(args) => args != []
    case Block(_, children) => Printable(children)
  }

  function NodeTokens(n: Node): seq<string> {
    match n
    case Directive(args) => args + [";"]
    case Block(args, children) => args + ["{"] + Flatten(children) + ["}"]
  }

  function Flatten(nodes: seq<Node>): seq<string> {
    if nodes == [] then [] else NodeTokens(nodes[0]) + Flatten(nodes[1..])
  }

  predicate At(tokens: seq<string>, i: nat, part: seq<string>) {
    i + |part| <= |tokens| && tokens[i..i + |part|] == part
  }

  lemma AtSplits(tokens: seq<string>, i: nat, a: seq<string>, b: seq<string>)
    ensures At(tokens, i, a + b) <==> At(tokens, i, a) && At(tokens, i + |a|, b)
  {
    if At(tokens, i, a + b) {
      assert tokens[i..i + |a|] == (a + b)[..|a|] == a;
      assert tokens[i + |a|..i + |a| + |b|] == (a + b)[|a|..] == b;
    }
    if At(tokens, i, a) && At(tokens, i + |a|, b) {
      assert tokens[i..i + |a| + |b|] == tokens[i..i + |a|] + tokens[i + |a|..i + |a| + |b|];
    }
  }

  lemma AtOne(tokens: seq<string>, i: nat, t: string)
    requires At(tokens, i, [t])
    ensures i < |tokens| && tokens[i] == t
  {
    assert tokens[i..i + 1] == [tokens[i]];
  }

  lemma {:induction false} WordsGather(tokens: seq<string>, i: nat, args: seq<string>, words: seq<string>)
    requires At(tokens, i, words) && forall w :: w in words ==> !IsMark(w)
    ensures ParseFrom(tokens, i, args) == ParseFrom(tokens, i + |words|, args + words)
    decreases |words|
  {
    if words == [] {
      assert args + [] == args;
    } else {
      assert words == [words[0]] + words[1..];
      AtSplits(tokens, i, [words[0]], words[1..]);
      AtOne(tokens, i, words[0]);
      assert words[0] in words;
      WordsGather(tokens, i + 1, args + [words[0]], words[1..]);
      assert args + [words[0]] + words[1..] == args + words;
    }
  }

  lemma DirectiveReads(tokens: seq<string>, i: nat, args: seq<string>)
    requires At(tokens, i, args + [";"]) && args != [] && forall w :: w in args ==> !IsMark(w)
    ensures ParseFrom(tokens, i, []) == Ahead([Directive(args)], ParseFrom(tokens, i + |args| + 1, []))
  {
    AtSplits(tokens, i, args, [";"]);
    WordsGather(tokens, i, [], args);
    assert [] + args == args;
    AtOne(tokens, i + |args|, ";");
  }

  lemma BlockReads(tokens: seq<string>, i: nat, args: seq<string>, inner: Read)
    requires At(tokens, i, args + ["{"]) && forall w :: w in args ==> !IsMark(w)
    requires ParseFrom(tokens, i + |args| + 1, []) == inner
    ensures ParseFrom(tokens, i, []) == Ahead([Block(args, inner.nodes)], ParseFrom(tokens, inner.next, []))
  {
    AtSplits(tokens, i, args, ["{"]);
    WordsGather(tokens, i, [], args);
    assert [] + args == args;
    AtOne(tokens, i + |args|, "{");
  }

  /** What follows a list of nodes: the end of the tokens, or the `}` that closes them. */
  predicate Ends(tokens: seq<string>, i: nat, stop: nat) {
    i <= |tokens| && if i == |tokens| then stop == i else tokens[i] == "}" && stop == i + 1
  }

  lemma BlockLayout(tokens: seq<string>, i: nat, args: seq<string>, inside: seq<string>)
    requires At(tokens, i, args + ["{"] + inside + ["}"])
    ensures At(tokens, i, args + ["{"]) && At(tokens, i + |args| + 1, inside)
    ensures i + |args| + 1 + |inside| < |tokens| && tokens[i + |args| + 1 + |inside|] == "}"
  {
    var j := i + |args| + 1;
    AtSplits(tokens, i, args + ["{"] + inside, ["}"]);
    AtSplits(tokens, i, args + ["{"], inside);
    AtOne(tokens, j + |inside|, "}");
  }

  lemma {:induction false} NodeReads(tokens: seq<string>, i: nat, n: Node)
    requires PrintableNode(n) && At(tokens, i, NodeTokens(n))
    ensures ParseFrom(tokens, i, []) == Ahead([n], ParseFrom(tokens, i + |NodeTokens(n)|, []))
    decreases n
  {
    match n {
      case Directive(args) =>
        DirectiveReads(tokens, i, args);
      case Block(args, children) =>
        var inside := Flatten(children);
        var j := i + |args| + 1;
        BlockLayout(tokens, i, args, inside);
        FlattenReads(tokens, j, children, j + |inside| + 1);
        BlockReads(tokens, i, args, Read(children, j + |inside| + 1));
    }
  }

  lemma {:induction false} FlattenReads(tokens: seq<string>, i: nat, nodes: seq<Node>, stop: nat)
    requires Printable(nodes) && At(tokens, i, Flatten(nodes)) && Ends(tokens, i + |Flatten(nodes)|, stop)
    ensures ParseFrom(tokens, i, []) == Read(nodes, stop)
    decreases nodes
  {
    if nodes != [] {
      var n, rest := nodes[0], nodes[1..];
      assert n in nodes && nodes == [n] + rest;
      AtSplits(tokens, i, NodeTokens(n), Flatten(rest));
      NodeReads(tokens, i, n);
      FlattenReads(tokens, i + |NodeTokens(n)|, rest, stop);
    }
  }

  /** Parsing undoes flattening, and uses every token. */
  lemma ParseFlatten(nodes: seq<Node>)
    requires Printable(nodes)
    ensures ParseFrom(Flatten(nodes), 0, []) == Read(nodes, |Flatten(nodes)|)
  {
    FlattenReads(Flatten(nodes), 0, nodes, |Flatten(nodes)|);
  }
}
