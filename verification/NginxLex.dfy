/** safeline-import.py, tokenize: nginx configuration text to words and punctuation. */
module NginxLex {
  import opened Wrappers

  /** Python's str.isspace for one character. */
  predicate IsBlank(c: char) {
    var n := c as int;
    9 <= n <= 13 || 28 <= n <= 32 || n == 0x85 || n == 0xA0 || n == 0x1680 || 0x2000 <= n <= 0x200A ||
    n == 0x2028 || n == 0x2029 || n == 0x202F || n == 0x205F || n == 0x3000
  }

  predicate IsQuote(c: char) {
    c == '"' || c == '\''
  }

  predicate IsPunct(c: char) {
    c == '{' || c == '}' || c == ';'
  }

  // ------------------------------------------------- what the reader makes of text

  /** The word being read: nothing yet, or something, possibly the empty word. */
  type Pending = Option<string>

  function Flush(buf: Pending): seq<string> {
    if buf.None? then [] else [buf.value]
  }

  function Extend(buf: Pending, s: string): Pending {
    Some((if buf.None? then "" else buf.value) + s)
  }

  /** The rest of the text from the first newline on. */
  function AfterComment(s: string): (r: string)
    ensures |r| <= |s|
  {
    if s == "" || s[0] == '\n' then s else AfterComment(s[1..])
  }

  /** The text up to the closing quote, unescaped, and what follows it; an unclosed quote takes
      everything, and a backslash that ends the text stands for itself. */
  function QuotedText(s: string, quote: char): (r: (string, string))
    ensures |r.1| <= |s|
  {
    if s == "" then ("", "")
    else if s[0] == quote then ("", s[1..])
    else if s[0] == '\\' && |s| > 1 then
      Ahead([s[1]], QuotedText(s[2..], quote))
    else
      Ahead([s[0]], QuotedText(s[1..], quote))
  }

  /** A reading under way: the tokens so far, the text still to read, the word pending. */
  datatype Reading = Reading(tokens: seq<string>, rest: string, buf: Pending)

  function Turn(r: Reading): (n: Reading)
    requires r.rest != ""
    ensures |n.rest| < |r.rest|
  {
    var c, after := r.rest[0], r.rest[1..];
    if c == '#' then Reading(r.tokens, AfterComment(after), r.buf)
    else if IsQuote(c) then
      var (w, rest) := QuotedText(after, c);
      Reading(r.tokens, rest, Extend(r.buf, w))
    else if IsBlank(c) then Reading(r.tokens + Flush(r.buf), after, None)
    else if IsPunct(c) then Reading(r.tokens + Flush(r.buf) + [[c]], after, None)
    else Reading(r.tokens, after, Extend(r.buf, [c]))
  }

  function Finish(r: Reading): seq<string>
    decreases |r.rest|
  {
    if r.rest == "" then r.tokens + Flush(r.buf) else Finish(Turn(r))
  }

  function Lex(text: string): seq<string> {
    Finish(Reading([], text, None))
  }

  // -------------------------------------------------------------- the loops

  function Joined(buf: seq<string>): string {
    if buf == [] then "" else Joined(buf[..|buf| - 1]) + buf[|buf| - 1]
  }

  function PendingOf(buf: seq<string>): Pending {
    if buf == [] then None else Some(Joined(buf))
  }

  lemma PendingNext(buf: seq<string>, s: string)
    ensures PendingOf(buf + [s]) == Extend(PendingOf(buf), s)
  {
    assert (buf + [s])[..|buf|] == buf;
  }

  method SkipComment(text: string, start: nat) returns (i: nat)
    requires start <= |text|
    ensures start <= i <= |text| && text[i..] == AfterComment(text[start..])
  {
    i := start;
    while i < |text| && text[i] != '\n'
      invariant start <= i <= |text| && AfterComment(text[i..]) == AfterComment(text[start..])
    {
      assert text[i..][1..] == text[i + 1..];
      i := i + 1;
    }
  }

  function Ahead(s: string, r: (string, string)): (string, string) {
    (s + r.0, r.1)
  }

  lemma AheadTwice(a: string, b: string, r: (string, string))
    ensures Ahead(a, Ahead(b, r)) == Ahead(a + b, r)
  {
    assert a + (b + r.0) == a + b + r.0;
  }

  method ReadQuoted(text: string, start: nat, quote: char) returns (s: string, i: nat)
    requires start <= |text|
    ensures start <= i && (s, if i <= |text| then text[i..] else "") == QuotedText(text[start..], quote)
  {
    s, i := "", start;
    ghost var whole := QuotedText(text[start..], quote);
    assert "" + whole.0 == whole.0;
    while i < |text| && text[i] != quote
      invariant start <= i <= |text|
      invariant QuotedText(text[start..], quote) == Ahead(s, QuotedText(text[i..], quote))
    {
      if text[i] == '\\' && i + 1 < |text| {
        assert text[i..][2..] == text[i + 2..];
        AheadTwice(s, [text[i + 1]], QuotedText(text[i + 2..], quote));
        s := s + [text[i + 1]];
        i := i + 2;
      } else {
        assert text[i..][1..] == text[i + 1..];
        AheadTwice(s, [text[i]], QuotedText(text[i + 1..], quote));
        s := s + [text[i]];
        i := i + 1;
      }
    }
    assert i < |text| ==> text[i..][1..] == text[i + 1..];
    assert s + "" == s;
    i := i + 1;
  }

  function From(text: string, i: nat): string {
    if i <= |text| then text[i..] else ""
  }

  /** One turn of the loop. */
  method ReadOne(text: string, i: nat, tokens: seq<string>, buf: seq<string>)
    returns (out: seq<string>, j: nat, after: seq<string>)
    requires i < |text|
    ensures i < j && Reading(out, From(text, j), PendingOf(after)) == Turn(Reading(tokens, text[i..], PendingOf(buf)))
  {
    var c := text[i];
    assert text[i..][0] == c && text[i..][1..] == text[i + 1..];
    out, j, after := tokens, i + 1, buf;
    if c == '#' {
      j := SkipComment(text, i + 1);
    } else if IsQuote(c) {
      var s;
      s, j := ReadQuoted(text, i + 1, c);
      PendingNext(buf, s);
      after := buf + [s];
    } else if IsBlank(c) {
      if buf != [] {
        out, after := out + [Joined(buf)], [];
      }
    } else if IsPunct(c) {
      if buf != [] {
        out, after := out + [Joined(buf)], [];
      }
      out := out + [[c]];
    } else {
      PendingNext(buf, [c]);
      after := buf + [[c]];
    }
  }

  method Tokenize(text: string) returns (tokens: seq<string>)
    ensures tokens == Lex(text)
  {
    tokens := [];
    var buf: seq<string> := [];
    var i := 0;
    assert From(text, 0) == text;
    while i < |text|
      invariant Finish(Reading(tokens, From(text, i), PendingOf(buf))) == Lex(text)
      decreases |text| - i
    {
      tokens, i, buf := ReadOne(text, i, tokens, buf);
    }
    if buf != [] {
      tokens := tokens + [Joined(buf)];
    }
  }

  // ------------------------------------------------------- every way to write it

  /** One character between quotes, as itself or behind a backslash. */
  datatype Mark = Plain(c: char) | Escaped(c: char)

  /** A stretch of a word: a character on its own, or a quoted run. */
  datatype Piece = Bare(c: char) | Run(quote: char, marks: seq<Mark>)

  datatype Lexeme = Word(pieces: seq<Piece>) | Punct(c: char) | Blank(c: char) | Comment(body: string)

  predicate MarkOk(m: Mark, quote: char) {
    m.Plain? ==> m.c != quote && m.c != '\\'
  }

  /** The characters that part words, by their codes. */
  predicate Separates(c: char) {
    c as int in {9, 10, 11, 12, 13, 28, 29, 30, 31, 32, 0x85, 0xA0, 0x1680, 0x2000, 0x2001, 0x2002, 0x2003, 0x2004, 0x2005,
                 0x2006, 0x2007, 0x2008, 0x2009, 0x200A, 0x2028, 0x2029, 0x202F, 0x205F, 0x3000}
  }

  predicate PieceOk(p: Piece) {
    match p
    case Bare(c) => c != '#' && c != '"' && c != '\'' && c != '{' && c != '}' && c != ';' && !Separates(c)
    case Run(q, ms) => (q == '"' || q == '\'') && forall m :: m in ms ==> MarkOk(m, q)
  }

  predicate LexemeOk(l: Lexeme) {
    match l
    case Word(ps) => ps != [] && forall p :: p in ps ==> PieceOk(p)
    case Punct(c) => c == '{' || c == '}' || c == ';'
    case Blank(c) => Separates(c)
    case Comment(body) => '\n' !in body
  }

  /** A well-formed text: two words in a row need something between them. */
  predicate DocumentOk(doc: seq<Lexeme>) {
    (forall l :: l in doc ==> LexemeOk(l)) &&
    forall i :: 0 <= i < |doc| - 1 ==> !(doc[i].Word? && doc[i + 1].Word?)
  }

  function MarksText(ms: seq<Mark>): string {
    if ms == [] then "" else (if ms[0].Plain? then [ms[0].c] else ['\\', ms[0].c]) + MarksText(ms[1..])
  }

  function MarksValue(ms: seq<Mark>): string {
    if ms == [] then "" else [ms[0].c] + MarksValue(ms[1..])
  }

  function PieceText(p: Piece): string {
    match p
    case Bare(c) => [c]
    case Run(q, ms) => [q] + (MarksText(ms) + [q])
  }

  function PieceValue(p: Piece): string {
    match p
    case Bare(c) => [c]
    case Run(_, ms) => MarksValue(ms)
  }

  function PiecesText(ps: seq<Piece>): string {
    if ps == [] then "" else PieceText(ps[0]) + PiecesText(ps[1..])
  }

  function PiecesValue(ps: seq<Piece>): string {
    if ps == [] then "" else PieceValue(ps[0]) + PiecesValue(ps[1..])
  }

  function LexemeText(l: Lexeme): string {
    match l
    case Word(ps) => PiecesText(ps)
    case Punct(c) => [c]
    case Blank(c) => [c]
    case Comment(body) => ['#'] + (body + ['\n'])
  }

  function LexemeToken(l: Lexeme): seq<string> {
    match l
    case Word(ps) => [PiecesValue(ps)]
    case Punct(c) => [[c]]
    case Blank(_) => []
    case Comment(_) => []
  }

  function Render(doc: seq<Lexeme>): string {
    if doc == [] then "" else LexemeText(doc[0]) + Render(doc[1..])
  }

  function Tokens(doc: seq<Lexeme>): seq<string> {
    if doc == [] then [] else LexemeToken(doc[0]) + Tokens(doc[1..])
  }

  lemma {:induction false} MarksRead(ms: seq<Mark>, quote: char, rest: string)
    requires quote == '"' || quote == '\''
    requires forall m :: m in ms ==> MarkOk(m, quote)
    ensures QuotedText(MarksText(ms) + ([quote] + rest), quote) == (MarksValue(ms), rest)
    decreases |ms|
  {
    var text := MarksText(ms) + ([quote] + rest);
    if ms == [] {
      assert text == [quote] + rest;
    } else {
      var tail := MarksText(ms[1..]) + ([quote] + rest);
      assert ms[0] in ms;
      MarksRead(ms[1..], quote, rest);
      if ms[0].Plain? {
        assert text == [ms[0].c] + tail;
        assert text[1..] == tail;
      } else {
        assert text == ['\\', ms[0].c] + tail;
        assert text[2..] == tail && |text| > 1;
      }
    }
  }

  lemma PieceRead(p: Piece, tokens: seq<string>, rest: string, buf: Pending)
    requires PieceOk(p)
    ensures Finish(Reading(tokens, PieceText(p) + rest, buf)) == Finish(Reading(tokens, rest, Extend(buf, PieceValue(p))))
  {
    var text := PieceText(p) + rest;
    match p {
      case Bare(c) =>
        assert text[0] == c && text[1..] == rest;
      case Run(q, ms) =>
        MarksRead(ms, q, rest);
        assert text == [q] + (MarksText(ms) + ([q] + rest));
        assert text[0] == q && text[1..] == MarksText(ms) + ([q] + rest);
    }
    assert Turn(Reading(tokens, text, buf)) == Reading(tokens, rest, Extend(buf, PieceValue(p)));
  }

  lemma {:induction false} PiecesRead(ps: seq<Piece>, tokens: seq<string>, rest: string, buf: Pending)
    requires ps != [] && forall p :: p in ps ==> PieceOk(p)
    ensures Finish(Reading(tokens, PiecesText(ps) + rest, buf)) == Finish(Reading(tokens, rest, Extend(buf, PiecesValue(ps))))
    decreases |ps|
  {
    assert ps[0] in ps;
    var tail := PiecesText(ps[1..]) + rest;
    assert PiecesText(ps) + rest == PieceText(ps[0]) + tail;
    PieceRead(ps[0], tokens, tail, buf);
    if |ps| == 1 {
      assert ps[1..] == [] && tail == rest;
      assert PiecesValue(ps) == PieceValue(ps[0]) + "" == PieceValue(ps[0]);
    } else {
      PiecesRead(ps[1..], tokens, rest, Extend(buf, PieceValue(ps[0])));
      ExtendTwice(buf, PieceValue(ps[0]), PiecesValue(ps[1..]));
    }
  }

  lemma ExtendTwice(buf: Pending, a: string, b: string)
    ensures Extend(Extend(buf, a), b) == Extend(buf, a + b)
  {
    var w := if buf.None? then "" else buf.value;
    assert (w + a) + b == w + (a + b);
  }

  lemma {:induction false} CommentRead(body: string, rest: string)
    requires '\n' !in body
    ensures AfterComment(body + (['\n'] + rest)) == ['\n'] + rest
    decreases |body|
  {
    var text := body + (['\n'] + rest);
    if body != "" {
      assert text[0] == body[0] && text[1..] == body[1..] + (['\n'] + rest);
      CommentRead(body[1..], rest);
    } else {
      assert text == ['\n'] + rest;
    }
  }

  lemma PunctRead(c: char, tokens: seq<string>, rest: string, buf: Pending)
    requires LexemeOk(Punct(c))
    ensures Finish(Reading(tokens, [c] + rest, buf)) == Finish(Reading(tokens + Flush(buf) + [[c]], rest, None))
  {
    var text := [c] + rest;
    assert text[0] == c && text[1..] == rest;
    assert !IsBlank(c) && !IsQuote(c) && c != '#';
  }

  lemma BlankRead(c: char, tokens: seq<string>, rest: string, buf: Pending)
    requires LexemeOk(Blank(c))
    ensures Finish(Reading(tokens, [c] + rest, buf)) == Finish(Reading(tokens + Flush(buf), rest, None))
  {
    var text := [c] + rest;
    assert text[0] == c && text[1..] == rest;
    assert IsBlank(c) && !IsQuote(c) && c != '#';
  }

  lemma CommentEnds(body: string, tokens: seq<string>, rest: string, buf: Pending)
    requires '\n' !in body
    ensures Finish(Reading(tokens, ['#'] + (body + ['\n']) + rest, buf)) == Finish(Reading(tokens + Flush(buf), rest, None))
  {
    CommentRead(body, rest);
    var text := ['#'] + (body + ['\n']) + rest;
    var after := ['\n'] + rest;
    assert text == ['#'] + (body + after);
    assert text[0] == '#' && text[1..] == body + after;
    assert Turn(Reading(tokens, text, buf)) == Reading(tokens, after, buf);
    BlankRead('\n', tokens, rest, buf);
  }

  /** Everything but a word ends the word before it. */
  lemma SeparatorRead(l: Lexeme, tokens: seq<string>, rest: string, buf: Pending)
    requires LexemeOk(l) && !l.Word?
    ensures Finish(Reading(tokens, LexemeText(l) + rest, buf)) == Finish(Reading(tokens + Flush(buf) + LexemeToken(l), rest, None))
  {
    assert tokens + Flush(buf) + [] == tokens + Flush(buf);
    match l {
      case Punct(c) => PunctRead(c, tokens, rest, buf);
      case Blank(c) => BlankRead(c, tokens, rest, buf);
      case Comment(body) => CommentEnds(body, tokens, rest, buf);
    }
  }

  lemma DocumentTail(doc: seq<Lexeme>)
    requires DocumentOk(doc) && doc != []
    ensures LexemeOk(doc[0]) && DocumentOk(doc[1..])
    ensures doc[0].Word? && doc[1..] != [] ==> !doc[1..][0].Word?
  {
    var rest := doc[1..];
    assert doc[0] in doc;
    assert forall i :: 0 <= i < |rest| ==> rest[i] == doc[i + 1];
    assert forall l :: l in rest ==> l in doc;
  }

  lemma WordRead(ps: seq<Piece>, tokens: seq<string>, rest: string)
    requires LexemeOk(Word(ps))
    ensures Finish(Reading(tokens, PiecesText(ps) + rest, None)) == Finish(Reading(tokens, rest, Some(PiecesValue(ps))))
  {
    PiecesRead(ps, tokens, rest, None);
    assert "" + PiecesValue(ps) == PiecesValue(ps);
  }

  lemma Regroup(a: seq<string>, b: seq<string>, c: seq<string>, d: seq<string>)
    ensures a + b + c + d == a + b + (c + d)
  {
  }

  lemma {:induction false} DocumentRead(doc: seq<Lexeme>, tokens: seq<string>, buf: Pending)
    requires DocumentOk(doc) && (buf.Some? && doc != [] ==> !doc[0].Word?)
    ensures Finish(Reading(tokens, Render(doc), buf)) == tokens + Flush(buf) + Tokens(doc)
    decreases |doc|
  {
    if doc != [] {
      var rest := doc[1..];
      DocumentTail(doc);
      Regroup(tokens, Flush(buf), LexemeToken(doc[0]), Tokens(rest));
      if doc[0].Word? {
        WordRead(doc[0].pieces, tokens, Render(rest));
        DocumentRead(rest, tokens, Some(PiecesValue(doc[0].pieces)));
        assert tokens + Flush(buf) == tokens;
      } else {
        SeparatorRead(doc[0], tokens, Render(rest), buf);
        DocumentRead(rest, tokens + Flush(buf) + LexemeToken(doc[0]), None);
        assert tokens + Flush(buf) + LexemeToken(doc[0]) + Flush(None) == tokens + Flush(buf) + LexemeToken(doc[0]);
      }
    }
  }

  /** Tokenizing undoes writing: however a text is laid out - words bare, quoted, escaped or pieced
      together, any blanks, any comments, as long as two words never touch - its tokens are the
      words and the punctuation, in order. */
  lemma LayoutDoesNotMatter(doc: seq<Lexeme>)
    requires DocumentOk(doc)
    ensures Lex(Render(doc)) == Tokens(doc)
  {
    DocumentRead(doc, [], None);
  }
}
