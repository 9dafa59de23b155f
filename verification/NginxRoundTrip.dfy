/** Writing a configuration tree and reading it back, and reading any text, writing it and reading
    it again. */
module NginxRoundTrip {
  import opened Wrappers
  import opened NginxLex
  import opened NginxConf

  // ----------------------------------------------- what parse makes can be written

  lemma {:induction false} ParsedIsPrintable(tokens: seq<string>, i: nat, args: seq<string>)
    requires i <= |tokens| && forall w :: w in args ==> !IsMark(w)
    ensures Printable(ParseFrom(tokens, i, args).nodes)
    decreases |tokens| - i
  {
    if i < |tokens| && tokens[i] != "}" {
      if tokens[i] == ";" {
        ParsedIsPrintable(tokens, i + 1, []);
      } else if tokens[i] == "{" {
        ParsedIsPrintable(tokens, i + 1, []);
        ParsedIsPrintable(tokens, ParseFrom(tokens, i + 1, []).next, []);
      } else {
        ParsedIsPrintable(tokens, i + 1, args + [tokens[i]]);
      }
    }
  }

  // -------------------------------------------------------- which tokens survive

  /** Tokens with nothing to lose: every `;` ends a directive that has a word, no word is left over
      before a `}` or the end, and the braces match. */
  predicate Tidy(tokens: seq<string>, i: nat, depth: nat, inWords: bool)
    requires i <= |tokens|
    decreases |tokens| - i
  {
    if i == |tokens| then depth == 0 && !inWords
    else
      var next := TidyNext(tokens[i], depth, inWords);
      next.Some? && Tidy(tokens, i + 1, next.value.0, next.value.1)
  }

  /** Whether a token is tidy where it stands, and how nested and how far into words it leaves the
      reading. */
  function TidyNext(t: string, depth: nat, inWords: bool): Option<(nat, bool)> {
    if t == ";" then if inWords then Some((depth, false)) else None
    else if t == "{" then Some((depth + 1, false))
    else if t == "}" then if depth > 0 && !inWords then Some((depth - 1, false)) else None
    else Some((depth, true))
  }

  function Closing(depth: nat): seq<string> {
    if depth > 0 then ["}"] else []
  }

  lemma FlattenCons(n: Node, rest: seq<Node>)
    ensures Flatten([n] + rest) == NodeTokens(n) + Flatten(rest)
  {
    assert ([n] + rest)[1..] == rest;
  }

  lemma PartsJoin(tokens: seq<string>, i: nat, j: nat, k: nat)
    requires i < j <= k <= |tokens|
    ensures tokens[i..k] == [tokens[i]] + tokens[i + 1..j] + tokens[j..k]
  {
  }

  /** A reading `r` from `i` that kept every token up to where it stopped. */
  ghost predicate Kept(tokens: seq<string>, i: nat, args: seq<string>, depth: nat, r: Read)
  {
    i <= r.next <= |tokens| &&
    args + tokens[i..r.next] == Flatten(r.nodes) + Closing(depth) &&
    if depth > 0 then Tidy(tokens, r.next, depth - 1, false) else r.next == |tokens|
  }

  lemma DirectiveParts(args: seq<string>, a: seq<string>, f: seq<string>, c: seq<string>)
    requires [] + a == f + c
    ensures args + ([";"] + a) == args + [";"] + f + c
  {
    assert a == [] + a;
  }

  lemma KeptDirective(tokens: seq<string>, i: nat, args: seq<string>, depth: nat, r: Read)
    requires i < |tokens| && tokens[i] == ";" && Kept(tokens, i + 1, [], depth, r)
    ensures Kept(tokens, i, args, depth, NginxConf.Ahead([Directive(args)], r))
  {
    FlattenCons(Directive(args), r.nodes);
    assert tokens[i..r.next] == [";"] + tokens[i + 1..r.next];
    DirectiveParts(args, tokens[i + 1..r.next], Flatten(r.nodes), Closing(depth));
  }

  lemma BlockParts(args: seq<string>, a: seq<string>, b: seq<string>, g: seq<string>, f: seq<string>, c: seq<string>)
    requires [] + a == g + ["}"] && [] + b == f + c
    ensures args + (["{"] + a + b) == args + ["{"] + g + ["}"] + f + c
  {
    assert a == [] + a && b == [] + b;
  }

  lemma KeptBlock(tokens: seq<string>, i: nat, args: seq<string>, depth: nat, inner: Read, r: Read)
    requires i < |tokens| && tokens[i] == "{" && Kept(tokens, i + 1, [], depth + 1, inner)
    requires Kept(tokens, inner.next, [], depth, r)
    ensures Kept(tokens, i, args, depth, NginxConf.Ahead([Block(args, inner.nodes)], r))
  {
    FlattenCons(Block(args, inner.nodes), r.nodes);
    PartsJoin(tokens, i, inner.next, r.next);
    BlockParts(args, tokens[i + 1..inner.next], tokens[inner.next..r.next],
               Flatten(inner.nodes), Flatten(r.nodes), Closing(depth));
  }

  lemma KeptWord(tokens: seq<string>, i: nat, args: seq<string>, depth: nat, r: Read)
    requires i < |tokens| && Kept(tokens, i + 1, args + [tokens[i]], depth, r)
    ensures Kept(tokens, i, args, depth, r)
  {
    assert tokens[i..r.next] == [tokens[i]] + tokens[i + 1..r.next];
    assert args + ([tokens[i]] + tokens[i + 1..r.next]) == args + [tokens[i]] + tokens[i + 1..r.next];
  }

  lemma {:induction false} TidyIsKept(tokens: seq<string>, i: nat, args: seq<string>, depth: nat)
    requires i <= |tokens| && Tidy(tokens, i, depth, args != [])
    ensures Kept(tokens, i, args, depth, ParseFrom(tokens, i, args))
    decreases |tokens| - i
  {
    if i == |tokens| {
    } else if tokens[i] == ";" {
      TidyIsKept(tokens, i + 1, [], depth);
      KeptDirective(tokens, i, args, depth, ParseFrom(tokens, i + 1, []));
    } else if tokens[i] == "{" {
      TidyIsKept(tokens, i + 1, [], depth + 1);
      var inner := ParseFrom(tokens, i + 1, []);
      TidyIsKept(tokens, inner.next, [], depth);
      KeptBlock(tokens, i, args, depth, inner, ParseFrom(tokens, inner.next, []));
    } else if tokens[i] == "}" {
    } else {
      TidyIsKept(tokens, i + 1, args + [tokens[i]], depth);
      KeptWord(tokens, i, args, depth, ParseFrom(tokens, i + 1, args + [tokens[i]]));
    }
  }

  lemma {:induction false} WordsAreTidy(tokens: seq<string>, i: nat, words: seq<string>, depth: nat, inWords: bool)
    requires At(tokens, i, words) && forall w :: w in words ==> !IsMark(w)
    ensures Tidy(tokens, i, depth, inWords) <==> Tidy(tokens, i + |words|, depth, inWords || words != [])
    decreases |words|
  {
    if words != [] {
      assert words == [words[0]] + words[1..];
      AtSplits(tokens, i, [words[0]], words[1..]);
      AtOne(tokens, i, words[0]);
      assert words[0] in words;
      WordsAreTidy(tokens, i + 1, words[1..], depth, true);
    }
  }

  lemma MarkAfter(tokens: seq<string>, i: nat, words: seq<string>, mark: string)
    requires At(tokens, i, words + [mark])
    ensures At(tokens, i, words) && i + |words| < |tokens| && tokens[i + |words|] == mark
  {
    AtSplits(tokens, i, words, [mark]);
    AtOne(tokens, i + |words|, mark);
  }

  lemma WordsThen(tokens: seq<string>, i: nat, words: seq<string>, mark: string, depth: nat)
    requires At(tokens, i, words + [mark]) && forall w :: w in words ==> !IsMark(w)
    ensures i + |words| < |tokens| && tokens[i + |words|] == mark
    ensures Tidy(tokens, i, depth, false) <==> Tidy(tokens, i + |words|, depth, words != [])
  {
    MarkAfter(tokens, i, words, mark);
    WordsAreTidy(tokens, i, words, depth, false);
  }

  lemma DirectiveIsTidy(tokens: seq<string>, i: nat, args: seq<string>, depth: nat)
    requires At(tokens, i, args + [";"]) && args != [] && forall w :: w in args ==> !IsMark(w)
    ensures Tidy(tokens, i, depth, false) <==> Tidy(tokens, i + |args| + 1, depth, false)
  {
    WordsThen(tokens, i, args, ";", depth);
  }

  lemma BlockOpens(tokens: seq<string>, i: nat, args: seq<string>, depth: nat)
    requires At(tokens, i, args + ["{"]) && forall w :: w in args ==> !IsMark(w)
    ensures Tidy(tokens, i, depth, false) <==> Tidy(tokens, i + |args| + 1, depth + 1, false)
  {
    WordsThen(tokens, i, args, "{", depth);
  }

  lemma {:induction false} NodeIsTidy(tokens: seq<string>, i: nat, n: Node, depth: nat)
    requires PrintableNode(n) && At(tokens, i, NodeTokens(n))
    ensures Tidy(tokens, i, depth, false) <==> Tidy(tokens, i + |NodeTokens(n)|, depth, false)
    decreases n
  {
    match n {
      case Directive(args) =>
        DirectiveIsTidy(tokens, i, args, depth);
      case Block(args, children) =>
        var inside := Flatten(children);
        BlockLayout(tokens, i, args, inside);
        BlockOpens(tokens, i, args, depth);
        FlattenIsTidy(tokens, i + |args| + 1, children, depth + 1);
    }
  }

  lemma {:induction false} FlattenIsTidy(tokens: seq<string>, i: nat, nodes: seq<Node>, depth: nat)
    requires Printable(nodes) && At(tokens, i, Flatten(nodes))
    ensures Tidy(tokens, i, depth, false) <==> Tidy(tokens, i + |Flatten(nodes)|, depth, false)
    decreases nodes
  {
    if nodes != [] {
      assert nodes[0] in nodes;
      AtSplits(tokens, i, NodeTokens(nodes[0]), Flatten(nodes[1..]));
      NodeIsTidy(tokens, i, nodes[0], depth);
      FlattenIsTidy(tokens, i + |NodeTokens(nodes[0])|, nodes[1..], depth);
    }
  }

  /** Reading keeps every token, in order, exactly when the tokens are tidy. */
  lemma NothingLostIff(tokens: seq<string>)
    ensures Flatten(ParseFrom(tokens, 0, []).nodes) == tokens <==> Tidy(tokens, 0, 0, false)
  {
    var nodes := ParseFrom(tokens, 0, []).nodes;
    if Tidy(tokens, 0, 0, false) {
      TidyIsKept(tokens, 0, [], 0);
      assert [] + tokens[0..|tokens|] == tokens;
    }
    if Flatten(nodes) == tokens {
      ParsedIsPrintable(tokens, 0, []);
      FlattenIsTidy(tokens, 0, nodes, 0);
    }
  }

  // ------------------------------------------------------------------ writing

  /** The characters of a word, between double quotes. */
  function Marked(w: string): seq<Mark> {
    if w == "" then []
    else [if w[0] == '"' || w[0] == '\\' then Escaped(w[0]) else Plain(w[0])] + Marked(w[1..])
  }

  function Written(t: string): seq<Lexeme> {
    if IsMark(t) then [Punct(t[0])] else [Word([Run('"', Marked(t))]), Blank(' ')]
  }

  function WrittenAll(tokens: seq<string>): seq<Lexeme> {
    if tokens == [] then [] else Written(tokens[0]) + WrittenAll(tokens[1..])
  }

  function Print(nodes: seq<Node>): string {
    Render(WrittenAll(Flatten(nodes)))
  }

  function ReadText(text: string): Read {
    ParseFrom(Lex(text), 0, [])
  }

  lemma {:induction false} MarkedIsWord(w: string)
    ensures MarksValue(Marked(w)) == w && forall m :: m in Marked(w) ==> MarkOk(m, '"')
    decreases |w|
  {
    if w != "" {
      MarkedIsWord(w[1..]);
      var first := if w[0] == '"' || w[0] == '\\' then Escaped(w[0]) else Plain(w[0]);
      assert Marked(w)[1..] == Marked(w[1..]) && Marked(w)[0] == first;
      assert w == [w[0]] + w[1..];
    }
  }

  lemma WrittenOk(t: string)
    ensures forall l :: l in Written(t) ==> LexemeOk(l)
    ensures Tokens(Written(t)) == [t]
  {
    MarkedIsWord(t);
    var doc := Written(t);
    if IsMark(t) {
      assert doc[1..] == [] && t == [t[0]];
    } else {
      assert doc[1..] == [Blank(' ')] && doc[1..][1..] == [];
      var run := Run('"', Marked(t));
      assert [run][1..] == [] && PiecesValue([run]) == t + "" == t;
      assert Tokens(doc[1..]) == [];
    }
  }

  lemma {:induction false} TokensJoin(a: seq<Lexeme>, b: seq<Lexeme>)
    ensures Tokens(a + b) == Tokens(a) + Tokens(b)
    decreases |a|
  {
    if a == [] {
      assert a + b == b;
    } else {
      assert (a + b)[1..] == a[1..] + b;
      TokensJoin(a[1..], b);
    }
  }

  lemma WrittenJoins(t: string, rest: seq<Lexeme>)
    requires DocumentOk(rest)
    ensures DocumentOk(Written(t) + rest)
  {
    WrittenOk(t);
    var head := Written(t);
    DocumentsJoin(head, rest);
  }

  /** A document that does not end in a word can be followed by any other. */
  lemma DocumentsJoin(head: seq<Lexeme>, rest: seq<Lexeme>)
    requires DocumentOk(head) && DocumentOk(rest) && head != [] && !head[|head| - 1].Word?
    ensures DocumentOk(head + rest)
  {
    var doc := head + rest;
    assert forall l :: l in doc ==> l in head || l in rest;
    forall i | 0 <= i < |doc| - 1
      ensures !(doc[i].Word? && doc[i + 1].Word?)
    {
      assert i < |head| - 1 ==> doc[i] == head[i] && doc[i + 1] == head[i + 1];
      assert i >= |head| ==> doc[i] == rest[i - |head|] && doc[i + 1] == rest[i - |head| + 1];
    }
  }

  lemma {:induction false} WrittenTokens(tokens: seq<string>)
    ensures DocumentOk(WrittenAll(tokens)) && Tokens(WrittenAll(tokens)) == tokens
    decreases |tokens|
  {
    if tokens != [] {
      WrittenTokens(tokens[1..]);
      WrittenJoins(tokens[0], WrittenAll(tokens[1..]));
      WrittenOk(tokens[0]);
      TokensJoin(Written(tokens[0]), WrittenAll(tokens[1..]));
      assert tokens == [tokens[0]] + tokens[1..];
    }
  }

  // -------------------------------------------------------------- round trips

  /** However a tree is laid out, reading the text gives the tree back and uses every token. */
  lemma AnyLayoutReadsBack(nodes: seq<Node>, doc: seq<Lexeme>)
    requires Printable(nodes) && DocumentOk(doc) && Tokens(doc) == Flatten(nodes)
    ensures ReadText(Render(doc)) == Read(nodes, |Lex(Render(doc))|)
  {
    LayoutDoesNotMatter(doc);
    ParseFlatten(nodes);
  }

  /** Printing then reading: the same tree, for words of any characters, the empty word included. */
  lemma PrintThenRead(nodes: seq<Node>)
    requires Printable(nodes)
    ensures ReadText(Print(nodes)) == Read(nodes, |Lex(Print(nodes))|)
  {
    WrittenTokens(Flatten(nodes));
    AnyLayoutReadsBack(nodes, WrittenAll(Flatten(nodes)));
  }

  /** Reading any text, printing what was read and reading that gives the same tree: whatever the
      first reading dropped, the second drops nothing more. */
  lemma ReadPrintRead(text: string)
    ensures ReadText(Print(ReadText(text).nodes)).nodes == ReadText(text).nodes
  {
    ParsedIsPrintable(Lex(text), 0, []);
    PrintThenRead(ReadText(text).nodes);
  }

  /** Trees of the excluded kinds really cannot be written: nothing reads back as one. */
  lemma UnprintableNeverRead(nodes: seq<Node>, text: string)
    requires !Printable(nodes)
    ensures ReadText(text).nodes != nodes
  {
    ParsedIsPrintable(Lex(text), 0, []);
  }
}
