/** How a word, a directive and a whole tree may be spelt, character by character, so that they read
    back; and what of an untidy text is read. */
module NginxSpelling {
  import opened Wrappers
  import opened NginxLex
  import opened NginxConf
  import opened NginxRoundTrip

  /** The word with a backslash before each quote of that kind and each backslash. */
  function EscapedIn(w: string, quote: char): string {
    if w == "" then ""
    else (if w[0] == quote || w[0] == '\\' then ['\\', w[0]] else [w[0]]) + EscapedIn(w[1..], quote)
  }

  function MarksIn(w: string, quote: char): seq<Mark> {
    if w == "" then []
    else [if w[0] == quote || w[0] == '\\' then Escaped(w[0]) else Plain(w[0])] + MarksIn(w[1..], quote)
  }

  lemma {:induction false} MarksSpell(w: string, quote: char)
    ensures MarksText(MarksIn(w, quote)) == EscapedIn(w, quote) && MarksValue(MarksIn(w, quote)) == w
    ensures forall m :: m in MarksIn(w, quote) ==> MarkOk(m, quote)
    decreases |w|
  {
    if w != "" {
      MarksSpell(w[1..], quote);
      var first := if w[0] == quote || w[0] == '\\' then Escaped(w[0]) else Plain(w[0]);
      var ms := MarksIn(w, quote);
      assert ms[0] == first && ms[1..] == MarksIn(w[1..], quote);
      assert w == [w[0]] + w[1..];
    }
  }

  // ----------------------------------------------------------------- documents

  lemma {:induction false} RenderJoin(a: seq<Lexeme>, b: seq<Lexeme>)
    ensures Render(a + b) == Render(a) + Render(b)
    decreases |a|
  {
    if a == [] {
      assert a + b == b;
    } else {
      assert (a + b)[1..] == a[1..] + b;
      RenderJoin(a[1..], b);
    }
  }

  function Quoted(w: string, quote: char): Lexeme {
    Word([Run(quote, MarksIn(w, quote))])
  }

  lemma QuotedSpells(w: string, quote: char)
    requires quote == '"' || quote == '\''
    ensures LexemeOk(Quoted(w, quote)) && LexemeToken(Quoted(w, quote)) == [w]
    ensures LexemeText(Quoted(w, quote)) == [quote] + EscapedIn(w, quote) + [quote]
  {
    MarksSpell(w, quote);
    var run := Run(quote, MarksIn(w, quote));
    assert [run][1..] == [] && Quoted(w, quote) == Word([run]);
    assert PiecesText([run]) == PieceText(run) + "" == PieceText(run);
    assert PiecesValue([run]) == w + "" == w;
    assert PieceText(run) == [quote] + (EscapedIn(w, quote) + [quote]) == [quote] + EscapedIn(w, quote) + [quote];
  }

  function BarePieces(w: string): seq<Piece> {
    seq(|w|, i requires 0 <= i < |w| => Bare(w[i]))
  }

  /** A character that stands for itself in a word outside quotes. */
  predicate Ordinary(c: char) {
    c != '#' && c != '"' && c != '\'' && c != '{' && c != '}' && c != ';' && !Separates(c)
  }

  lemma {:induction false} BareSpells(w: string)
    ensures PiecesText(BarePieces(w)) == w && PiecesValue(BarePieces(w)) == w
    decreases |w|
  {
    if w != "" {
      assert BarePieces(w)[1..] == BarePieces(w[1..]);
      BareSpells(w[1..]);
      assert w == [w[0]] + w[1..];
    }
  }

  lemma OneLexeme(l: Lexeme)
    requires LexemeOk(l)
    ensures DocumentOk([l]) && Render([l]) == LexemeText(l) && Tokens([l]) == LexemeToken(l)
  {
    assert [l][1..] == [];
    assert LexemeText(l) + "" == LexemeText(l) && LexemeToken(l) + [] == LexemeToken(l);
  }

  /** Any word, of any characters, between quotes of either kind reads back as that one word. */
  lemma QuotedWordReads(w: string, quote: char)
    requires quote == '"' || quote == '\''
    ensures Lex([quote] + EscapedIn(w, quote) + [quote]) == [w]
  {
    QuotedSpells(w, quote);
    OneLexeme(Quoted(w, quote));
    LayoutDoesNotMatter([Quoted(w, quote)]);
  }

  /** A word of ordinary characters reads back as it stands. */
  lemma BareWordReads(w: string)
    requires w != "" && forall i :: 0 <= i < |w| ==> Ordinary(w[i])
    ensures Lex(w) == [w]
  {
    BareSpells(w);
    OneLexeme(Word(BarePieces(w)));
    LayoutDoesNotMatter([Word(BarePieces(w))]);
  }

  function BlanksOf(sep: string): seq<Lexeme> {
    seq(|sep|, i requires 0 <= i < |sep| => Blank(sep[i]))
  }

  lemma {:induction false} BlanksSpell(sep: string)
    requires forall i :: 0 <= i < |sep| ==> Separates(sep[i])
    ensures DocumentOk(BlanksOf(sep)) && Render(BlanksOf(sep)) == sep && Tokens(BlanksOf(sep)) == []
    decreases |sep|
  {
    if sep != "" {
      assert BlanksOf(sep)[1..] == BlanksOf(sep[1..]);
      BlanksSpell(sep[1..]);
      assert sep == [sep[0]] + sep[1..];
    }
  }

  // ------------------------------------------------------------- a whole text

  /** Tokens written out: punctuation as it is, words between quotes with blanks after each. */
  function SpeltIn(tokens: seq<string>, quote: char, sep: string): string {
    if tokens == [] then ""
    else
      (if tokens[0] == ";" || tokens[0] == "{" || tokens[0] == "}" then tokens[0]
       else [quote] + EscapedIn(tokens[0], quote) + [quote] + sep) + SpeltIn(tokens[1..], quote, sep)
  }

  function DocOf(t: string, quote: char, sep: string): seq<Lexeme> {
    if t == ";" || t == "{" || t == "}" then [Punct(t[0])] else [Quoted(t, quote)] + BlanksOf(sep)
  }

  lemma DocOfSpells(t: string, quote: char, sep: string)
    requires quote == '"' || quote == '\''
    requires sep != "" && forall i :: 0 <= i < |sep| ==> Separates(sep[i])
    ensures var doc := DocOf(t, quote, sep);
            DocumentOk(doc) && doc != [] && !doc[|doc| - 1].Word? && Tokens(doc) == [t] &&
            Render(doc) == if t == ";" || t == "{" || t == "}" then t else [quote] + EscapedIn(t, quote) + [quote] + sep
  {
    if t == ";" || t == "{" || t == "}" {
      OneLexeme(Punct(t[0]));
      assert t == [t[0]];
    } else {
      QuotedSpells(t, quote);
      OneLexeme(Quoted(t, quote));
      BlanksSpell(sep);
      RenderJoin([Quoted(t, quote)], BlanksOf(sep));
      TokensJoin([Quoted(t, quote)], BlanksOf(sep));
      WordThenBlanks(Quoted(t, quote), BlanksOf(sep));
    }
  }

  lemma WordThenBlanks(w: Lexeme, blanks: seq<Lexeme>)
    requires LexemeOk(w) && DocumentOk(blanks) && blanks != [] && forall i :: 0 <= i < |blanks| ==> !blanks[i].Word?
    ensures DocumentOk([w] + blanks) && !([w] + blanks)[|blanks|].Word?
  {
    var doc := [w] + blanks;
    assert forall l :: l in doc ==> l == w || l in blanks;
  }

  lemma {:induction false} SpeltDocument(tokens: seq<string>, quote: char, sep: string) returns (doc: seq<Lexeme>)
    requires quote == '"' || quote == '\''
    requires sep != "" && forall i :: 0 <= i < |sep| ==> Separates(sep[i])
    ensures DocumentOk(doc) && Tokens(doc) == tokens && Render(doc) == SpeltIn(tokens, quote, sep)
    decreases |tokens|
  {
    doc := [];
    if tokens != [] {
      var rest := SpeltDocument(tokens[1..], quote, sep);
      var head := DocOf(tokens[0], quote, sep);
      DocOfSpells(tokens[0], quote, sep);
      DocumentsJoin(head, rest);
      RenderJoin(head, rest);
      TokensJoin(head, rest);
      assert tokens == [tokens[0]] + tokens[1..];
      doc := head + rest;
    }
  }

  /** A whole tree, its words between quotes of either kind and parted by any blanks - spaces, tabs,
      newlines or others - reads back as that tree, to the last token. */
  lemma SpeltTreeReads(nodes: seq<Node>, quote: char, sep: string)
    requires Printable(nodes) && (quote == '"' || quote == '\'')
    requires sep != "" && forall i :: 0 <= i < |sep| ==> Separates(sep[i])
    ensures ReadText(SpeltIn(Flatten(nodes), quote, sep)) == Read(nodes, |Flatten(nodes)|)
    ensures Lex(SpeltIn(Flatten(nodes), quote, sep)) == Flatten(nodes)
  {
    var doc := SpeltDocument(Flatten(nodes), quote, sep);
    LayoutDoesNotMatter(doc);
    AnyLayoutReadsBack(nodes, doc);
  }

  /** A directive as people write it: a bare name, a blank, a quoted word and a semicolon. */
  lemma DirectiveReads(name: string, blank: char, w: string, quote: char, text: string)
    requires name != "" && (forall i :: 0 <= i < |name| ==> Ordinary(name[i])) && Separates(blank)
    requires quote == '"' || quote == '\''
    requires text == name + [blank] + ([quote] + EscapedIn(w, quote) + [quote] + [';'])
    ensures Lex(text) == [name, w, ";"]
    ensures w != ";" && w != "{" && w != "}" ==> ReadText(text).nodes == [Directive([name, w])]
  {
    var a, b, c, d := Word(BarePieces(name)), Blank(blank), Quoted(w, quote), Punct(';');
    BareSpells(name);
    QuotedSpells(w, quote);
    assert LexemeOk(a);
    FourLexemes(a, b, c, d);
    LayoutDoesNotMatter([a, b, c, d]);
    FourTokens(LexemeToken(a) + LexemeToken(b) + (LexemeToken(c) + LexemeToken(d)), name, w);
    assert !IsMark(name);
    DirectiveParsed(name, w);
  }

  lemma FourTokens(tokens: seq<string>, name: string, w: string)
    requires tokens == [name] + [] + ([w] + [[';']])
    ensures tokens == [name, w, ";"]
  {
  }

  lemma FourLexemes(a: Lexeme, b: Lexeme, c: Lexeme, d: Lexeme)
    requires LexemeOk(a) && LexemeOk(b) && LexemeOk(c) && LexemeOk(d) && !b.Word? && !d.Word?
    ensures DocumentOk([a, b, c, d])
    ensures Render([a, b, c, d]) == LexemeText(a) + LexemeText(b) + (LexemeText(c) + LexemeText(d))
    ensures Tokens([a, b, c, d]) == LexemeToken(a) + LexemeToken(b) + (LexemeToken(c) + LexemeToken(d))
  {
    OneLexeme(a);
    OneLexeme(b);
    OneLexeme(c);
    OneLexeme(d);
    LexemesJoin([a], [b], [a, b]);
    LexemesJoin([c], [d], [c, d]);
    LexemesJoin([a, b], [c, d], [a, b, c, d]);
  }

  lemma LexemesJoin(x: seq<Lexeme>, y: seq<Lexeme>, doc: seq<Lexeme>)
    requires doc == x + y
    ensures Render(doc) == Render(x) + Render(y) && Tokens(doc) == Tokens(x) + Tokens(y)
  {
    RenderJoin(x, y);
    TokensJoin(x, y);
  }

  lemma DirectiveParsed(name: string, w: string)
    requires !IsMark(name)
    ensures !IsMark(w) ==> ParseFrom([name, w, ";"], 0, []).nodes == [Directive([name, w])]
  {
    if !IsMark(w) {
      var nodes := [Directive([name, w])];
      assert nodes[1..] == [] && Flatten(nodes) == [name, w, ";"];
      ParseFlatten(nodes);
    }
  }

  /** A comment, from its sign to the end of its line, is as good as a blank. */
  lemma CommentReads(body: string, doc: seq<Lexeme>)
    requires '\n' !in body && DocumentOk(doc)
    ensures Lex("#" + body + "\n" + Render(doc)) == Lex(Render(doc))
  {
    OneLexeme(Comment(body));
    DocumentsJoin([Comment(body)], doc);
    RenderJoin([Comment(body)], doc);
    TokensJoin([Comment(body)], doc);
    LayoutDoesNotMatter([Comment(body)] + doc);
    LayoutDoesNotMatter(doc);
    assert LexemeText(Comment(body)) == "#" + body + "\n";
  }

  // ----------------------------------------------------- where the text breaks off

  lemma TailReads(quote: char, tail: string)
    requires quote == '"' || quote == '\''
    requires tail == "" || tail == ['\\']
    ensures QuotedText(tail, quote) == (tail, "")
  {
    if tail != "" {
      assert tail[1..] == "" && [tail[0]] + "" == tail;
    }
  }

  lemma PlainReads(c: char, rest: string, quote: char, text: string)
    requires text == [c] + rest && c != quote && c != '\\'
    ensures QuotedText(text, quote) == NginxLex.Ahead([c], QuotedText(rest, quote))
  {
    assert text[0] == c && text[1..] == rest;
  }

  lemma EscapeReads(c: char, rest: string, quote: char, text: string)
    requires text == ['\\', c] + rest && quote != '\\'
    ensures QuotedText(text, quote) == NginxLex.Ahead([c], QuotedText(rest, quote))
  {
    assert text[0] == '\\' && text[1] == c && text[2..] == rest;
  }

  lemma {:induction false} OpenMarksRead(w: string, quote: char, tail: string)
    requires quote == '"' || quote == '\''
    requires tail == "" || tail == ['\\']
    ensures QuotedText(EscapedIn(w, quote) + tail, quote) == (w + tail, "")
    decreases |w|
  {
    var text := EscapedIn(w, quote) + tail;
    if w == "" {
      assert text == tail && w + tail == tail;
      TailReads(quote, tail);
    } else {
      var rest := EscapedIn(w[1..], quote) + tail;
      OpenMarksRead(w[1..], quote, tail);
      assert w + tail == [w[0]] + (w[1..] + tail);
      if w[0] == quote || w[0] == '\\' {
        EscapeReads(w[0], rest, quote, text);
      } else {
        PlainReads(w[0], rest, quote, text);
      }
    }
  }

  /** A quote that is never closed takes everything, and a backslash that ends the text stands for
      itself. */
  lemma OpenQuoteReads(w: string, quote: char, tail: string)
    requires quote == '"' || quote == '\''
    requires tail == "" || tail == ['\\']
    ensures Lex([quote] + (EscapedIn(w, quote) + tail)) == [w + tail]
  {
    var text := [quote] + (EscapedIn(w, quote) + tail);
    OpenMarksRead(w, quote, tail);
    assert text[0] == quote && text[1..] == EscapedIn(w, quote) + tail;
    var r := Turn(Reading([], text, None));
    assert r == Reading([], "", Some("" + (w + tail)));
    assert "" + (w + tail) == w + tail;
    assert Finish(r) == [] + [w + tail];
  }

  lemma {:induction false} OpenCommentSkipped(body: string)
    requires '\n' !in body
    ensures AfterComment(body) == ""
    decreases |body|
  {
    if body != "" {
      OpenCommentSkipped(body[1..]);
    }
  }

  /** A comment that the text ends in is nothing. */
  lemma OpenCommentReads(body: string)
    requires '\n' !in body
    ensures Lex("#" + body) == []
  {
    var text := "#" + body;
    OpenCommentSkipped(body);
    assert text[0] == '#' && text[1..] == body;
    var r := Reading([], text, None);
    assert Turn(r) == Reading([], "", None);
    assert Finish(Turn(r)) == [] + Flush(None) == [];
  }

  // ---------------------------------------------------------- what is read of it

  function Closings(depth: nat): seq<string> {
    if depth == 0 then [] else ["}"] + Closings(depth - 1)
  }

  /** The tokens that count, in one pass with a counter: a `;` without words goes, words before a `}`
      or the end go, the first `}` that closes nothing ends it all, and blocks left open are closed. */
  function Cleaned(tokens: seq<string>, i: nat, depth: nat, words: seq<string>): seq<string>
    requires i <= |tokens|
    decreases |tokens| - i
  {
    if i == |tokens| then Closings(depth)
    else if tokens[i] == ";" then (if words == [] then [] else words + [";"]) + Cleaned(tokens, i + 1, depth, [])
    else if tokens[i] == "{" then words + ["{"] + Cleaned(tokens, i + 1, depth + 1, [])
    else if tokens[i] == "}" then if depth == 0 then [] else ["}"] + Cleaned(tokens, i + 1, depth - 1, [])
    else Cleaned(tokens, i + 1, depth, words + [tokens[i]])
  }

  /** What the reader that calls itself makes of the tokens from `i`, seen from `depth` blocks deep. */
  ghost predicate Agrees(tokens: seq<string>, i: nat, depth: nat, words: seq<string>, r: Read)
    requires i <= |tokens|
  {
    r.next <= |tokens| &&
    Cleaned(tokens, i, depth, words) ==
    Flatten(r.nodes) + if depth == 0 then [] else ["}"] + Cleaned(tokens, r.next, depth - 1, [])
  }

  lemma AgreesOnDirective(tokens: seq<string>, i: nat, depth: nat, words: seq<string>, r: Read)
    requires i < |tokens| && tokens[i] == ";" && Agrees(tokens, i + 1, depth, [], r)
    ensures Agrees(tokens, i, depth, words, NginxConf.Ahead(if words == [] then [] else [Directive(words)], r))
  {
    if words == [] {
      assert [] + r.nodes == r.nodes;
    } else {
      FlattenCons(Directive(words), r.nodes);
    }
  }

  lemma AgreesOnBlock(tokens: seq<string>, i: nat, depth: nat, words: seq<string>, inner: Read, r: Read)
    requires i < |tokens| && tokens[i] == "{" && Agrees(tokens, i + 1, depth + 1, [], inner)
    requires Agrees(tokens, inner.next, depth, [], r)
    ensures Agrees(tokens, i, depth, words, NginxConf.Ahead([Block(words, inner.nodes)], r))
  {
    FlattenCons(Block(words, inner.nodes), r.nodes);
    var tail := if depth == 0 then [] else ["}"] + Cleaned(tokens, r.next, depth - 1, []);
    assert words + ["{"] + (Flatten(inner.nodes) + (["}"] + (Flatten(r.nodes) + tail))) ==
           words + ["{"] + Flatten(inner.nodes) + ["}"] + Flatten(r.nodes) + tail;
  }

  lemma {:induction false} ReadAgrees(tokens: seq<string>, i: nat, depth: nat, words: seq<string>)
    requires i <= |tokens|
    ensures Agrees(tokens, i, depth, words, ParseFrom(tokens, i, words))
    decreases |tokens| - i
  {
    if i == |tokens| {
    } else if tokens[i] == ";" {
      ReadAgrees(tokens, i + 1, depth, []);
      AgreesOnDirective(tokens, i, depth, words, ParseFrom(tokens, i + 1, []));
    } else if tokens[i] == "{" {
      var inner := ParseFrom(tokens, i + 1, []);
      ReadAgrees(tokens, i + 1, depth + 1, []);
      ReadAgrees(tokens, inner.next, depth, []);
      AgreesOnBlock(tokens, i, depth, words, inner, ParseFrom(tokens, inner.next, []));
    } else if tokens[i] == "}" {
    } else {
      ReadAgrees(tokens, i + 1, depth, words + [tokens[i]]);
    }
  }

  /** What is read of any tokens at all, tidy or not: the tree of those that count. */
  lemma ReadIsCleaned(tokens: seq<string>)
    ensures Flatten(ParseFrom(tokens, 0, []).nodes) == Cleaned(tokens, 0, 0, [])
    ensures forall nodes :: Printable(nodes) && Flatten(nodes) == Cleaned(tokens, 0, 0, []) ==>
                            nodes == ParseFrom(tokens, 0, []).nodes
  {
    ReadAgrees(tokens, 0, 0, []);
    ParsedIsPrintable(tokens, 0, []);
    var read := ParseFrom(tokens, 0, []).nodes;
    forall nodes | Printable(nodes) && Flatten(nodes) == Flatten(read)
      ensures nodes == read
    {
      FlattenInjective(nodes, read);
    }
  }

  lemma FlattenInjective(a: seq<Node>, b: seq<Node>)
    requires Printable(a) && Printable(b) && Flatten(a) == Flatten(b)
    ensures a == b
  {
    ParseFlatten(a);
    ParseFlatten(b);
  }
}
