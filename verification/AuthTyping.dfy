/** siteusers.go, NormaliseAuthPaths: what a list of paths comes out as, by how each is typed. */
module AuthTyping {
  import opened Wrappers
  import opened Text
  import opened AuthPaths

  /** An entry as typed: blanks, a path, possibly a query or a fragment, possibly one star after
      further blanks, and blanks. Every entry that is not blank or a lone star is typed so. */
  ghost predicate TypedAs(raw: string, pre: string, path: string, query: string, gap: string, star: bool, post: string) {
    raw == pre + (path + query) + (if star then gap + "*" else "") + post &&
    AllBlank(pre) && AllBlank(gap) && AllBlank(post) && path + query != "" &&
    !BlankCode((path + query)[0] as int) && !BlankCode((path + query)[|path + query| - 1] as int) &&
    (!star ==> (path + query)[|path + query| - 1] != '*') &&
    (forall i :: 0 <= i < |path| ==> path[i] != '?' && path[i] != '#') &&
    (query != "" ==> query[0] == '?' || query[0] == '#')
  }

  lemma {:induction false} BeforeIs(path: string, query: string)
    requires forall i :: 0 <= i < |path| ==> path[i] != '?' && path[i] != '#'
    requires query != "" ==> query[0] == '?' || query[0] == '#'
    ensures Before(path + query) == path
    decreases |path|
  {
    if path == "" {
      assert path + query == query;
    } else {
      assert (path + query)[1..] == path[1..] + query;
      BeforeIs(path[1..], query);
    }
  }

  lemma TrimmedPlain(pre: string, text: string, post: string)
    requires AllBlank(pre) && AllBlank(post) && text != ""
    requires !BlankCode(text[0] as int) && !BlankCode(text[|text| - 1] as int) && text[|text| - 1] != '*'
    ensures Trimmed(pre + text + post) == text
  {
    TrimSpaceIs(pre, text, post);
    StarEnds(text);
  }

  lemma TrimStarOf(t: string)
    ensures TrimStar(t + "*") == t
  {
    StarEnds(t + "*");
    assert (t + "*")[..|t|] == t;
  }

  lemma TrimmedSteps(raw: string, a: string, b: string, c: string)
    requires TrimSpace(raw) == a && TrimStar(a) == b && TrimSpace(b) == c
    ensures Trimmed(raw) == c
  {
  }

  lemma TrimmedStarred(raw: string, pre: string, text: string, gap: string, post: string, a: string, b: string)
    requires AllBlank(pre) && AllBlank(gap) && AllBlank(post) && text != ""
    requires !BlankCode(text[0] as int) && !BlankCode(text[|text| - 1] as int)
    requires b == "" + text + gap && a == b + "*" && raw == pre + a + post
    ensures Trimmed(raw) == text
  {
    CoreEnds(text, gap, a);
    TrimSpaceIs(pre, a, post);
    TrimStarOf(b);
    TrimSpaceIs("", text, gap);
    TrimmedSteps(raw, a, b, text);
  }

  lemma CoreEnds(text: string, gap: string, core: string)
    requires text != "" && core == text + gap + "*"
    ensures core != "" && core[0] == text[0] && core[|core| - 1] == '*'
  {
  }

  lemma TrimmedIs(raw: string, pre: string, path: string, query: string, gap: string, star: bool, post: string)
    requires TypedAs(raw, pre, path, query, gap, star, post)
    ensures Trimmed(raw) == path + query
  {
    var text := path + query;
    if star {
      var b := "" + text + gap;
      assert raw == pre + (b + "*") + post;
      TrimmedStarred(raw, pre, text, gap, post, b + "*", b);
    } else {
      assert raw == pre + text + post;
      TrimmedPlain(pre, text, post);
    }
  }

  ghost predicate Empty2(p: string) {
    exists i :: 0 <= i < |p| - 1 && p[i] == '/' && p[i + 1] == '/'
  }

  ghost predicate DotDot(p: string) {
    exists i :: 0 <= i < |p| - 2 && p[i] == '/' && p[i + 1] == '.' && p[i + 2] == '.' && (i + 3 == |p| || p[i + 3] == '/')
  }

  ghost predicate LineEnd(p: string) {
    exists i :: 0 <= i < |p| && (p[i] as int == 0 || p[i] as int == 10 || p[i] as int == 13)
  }

  lemma RefusedIs(p: string)
    ensures Refused(p) <==> Empty2(p) || DotDot(p) || LineEnd(p)
  {
    RefusedMeans(p);
    EmptyIs(p);
    DotsAre(p);
  }

  lemma EmptyIs(p: string)
    ensures EmptySegment(p) <==> Empty2(p)
  {
    if i :| 0 <= i < |p| && EmptyAt(p, i) {
      assert p[i] == '/' && p[i + 1] == '/';
    }
    if i :| 0 <= i < |p| - 1 && p[i] == '/' && p[i + 1] == '/' {
      assert EmptyAt(p, i);
    }
  }

  lemma DotsAre(p: string)
    ensures DotDotSegment(p) <==> DotDot(p)
  {
    if i :| 0 <= i < |p| && DotDotAt(p, i) {
      assert p[i] == '/' && p[i + 1] == '.' && p[i + 2] == '.';
    }
    if DotDot(p) {
      var i :| 0 <= i < |p| - 2 && p[i] == '/' && p[i + 1] == '.' && p[i + 2] == '.' && (i + 3 == |p| || p[i + 3] == '/');
      assert DotDotAt(p, i);
    }
  }

  /** Where an entry with this path goes: nowhere when the path has an empty segment, one that is two
      dots, or a control character, or is too long; else it is made absolute and loses its last slash. */
  lemma CleanTyped(raw: string, pre: string, path: string, query: string, gap: string, star: bool, post: string, p: string)
    requires TypedAs(raw, pre, path, query, gap, star, post)
    requires p == if path != "" && path[0] == '/' then path else "/" + path
    ensures Empty2(p) || DotDot(p) || LineEnd(p) ==> Clean(raw) == None
    ensures !Empty2(p) && !DotDot(p) && !LineEnd(p) ==>
              var q := if |p| > 1 && p[|p| - 1] == '/' then p[..|p| - 1] else p;
              Clean(raw) == if |q| <= 256 then Some(q) else None
  {
    TrimmedIs(raw, pre, path, query, gap, star, post);
    BeforeIs(path, query);
    CleanIs(raw, path + query, path, p);
    PathSettles(p);
  }

  lemma PathSettles(p: string)
    requires p != "" && p[0] == '/'
    ensures Empty2(p) || DotDot(p) || LineEnd(p) ==> Refused(p)
    ensures !Empty2(p) && !DotDot(p) && !LineEnd(p) ==>
              !Refused(p) && StripSlashes(p) == if |p| > 1 && p[|p| - 1] == '/' then p[..|p| - 1] else p
  {
    RefusedIs(p);
    if !Refused(p) {
      RefusedMeans(p);
      StripOnce(p);
    }
  }

  lemma CleanIs(raw: string, text: string, path: string, p: string)
    requires Trimmed(raw) == text && text != "" && Before(text) == path && Rooted(path) == p
    ensures Clean(raw) == if Refused(p) || |StripSlashes(p)| > 256 then None else Some(StripSlashes(p))
  {
  }

  /** An entry of blanks, with or without a star among them, asks for nothing. */
  lemma BlankTyped(raw: string, pre: string, star: bool, post: string)
    requires raw == pre + (if star then "*" else "") + post && AllBlank(pre) && AllBlank(post)
    ensures Clean(raw) == None
  {
    TrimSpaceIs(pre, if star then "*" else "", post);
  }

  /** One segment of letters is nothing the loop refuses. */
  lemma OneSegment(p: string, n: nat)
    requires 2 <= n <= |p| <= n + 1 && p[0] == '/' && (n < |p| ==> p[n] == '/')
    requires forall i :: 1 <= i < n ==> 'a' <= p[i] <= 'z'
    ensures !Empty2(p) && !DotDot(p) && !LineEnd(p)
  {
    NoEmpty(p, n);
    NoDots(p, n);
  }

  lemma NoEmpty(p: string, n: nat)
    requires 2 <= n <= |p| <= n + 1 && forall i :: 1 <= i < n ==> 'a' <= p[i] <= 'z'
    ensures !Empty2(p)
  {
    assert forall i :: 0 <= i < |p| - 1 && p[i] == '/' ==> i == 0 && 'a' <= p[1] <= 'z';
  }

  lemma NoDots(p: string, n: nat)
    requires 2 <= n <= |p| <= n + 1 && forall i :: 1 <= i < n ==> 'a' <= p[i] <= 'z'
    ensures !DotDot(p)
  {
    assert forall i :: 0 <= i < |p| - 2 && p[i] == '/' ==> i == 0 && 'a' <= p[1] <= 'z';
  }

  ghost predicate Letters(name: string) {
    forall i :: 0 <= i < |name| ==> 'a' <= name[i] <= 'z'
  }

  /** So the ways to write one name all come to the same: with or without the slash before it and the
      one after it, with a query or a fragment, with a star. */
  lemma NameTyped(raw: string, rooted: bool, name: string, slash: bool, query: string, star: bool)
    requires name != "" && |name| < 256 && Letters(name)
    requires raw == (if rooted then "/" else "") + name + (if slash then "/" else "") + query + (if star then "*" else "")
    requires query != "" ==> query[0] == '?' || query[0] == '#'
    requires query != "" ==> !BlankCode(query[|query| - 1] as int) && query[|query| - 1] != '*'
    ensures Clean(raw) == Some("/" + name)
  {
    var path := (if rooted then "/" else "") + name + (if slash then "/" else "");
    var q := "/" + name;
    var p := q + if slash then "/" else "";
    NameParts(path, rooted, name, slash);
    NameIsTyped(raw, path, query, star);
    RootedName(path, rooted, name, slash, q, p);
    CleanTyped(raw, "", path, query, "", star, "", p);
  }

  lemma RootedName(path: string, rooted: bool, name: string, slash: bool, q: string, p: string)
    requires name != "" && Letters(name) && path == (if rooted then "/" else "") + name + (if slash then "/" else "")
    requires q == "/" + name && p == q + (if slash then "/" else "")
    ensures !Empty2(p) && !DotDot(p) && !LineEnd(p)
    ensures |p| > 1 && q == (if p[|p| - 1] == '/' then p[..|p| - 1] else p)
    ensures p == if path != "" && path[0] == '/' then path else "/" + path
  {
    NameShape(name, slash, q, p);
    OneSegment(p, |q|);
    PathShape(path, rooted, name, slash, p);
  }

  lemma NameShape(name: string, slash: bool, q: string, p: string)
    requires name != "" && Letters(name) && q == "/" + name && p == q + (if slash then "/" else "")
    ensures 2 <= |q| <= |p| <= |q| + 1 && p[0] == '/' && (|q| < |p| ==> p[|q|] == '/')
    ensures forall i :: 1 <= i < |q| ==> 'a' <= p[i] <= 'z'
    ensures q == if p[|p| - 1] == '/' then p[..|p| - 1] else p
  {
    assert forall i :: 1 <= i < |q| ==> p[i] == name[i - 1];
    if slash {
      assert p[..|p| - 1] == q;
    } else {
      assert p == q && p[|p| - 1] == name[|name| - 1];
    }
  }

  lemma PathShape(path: string, rooted: bool, name: string, slash: bool, p: string)
    requires name != "" && Letters(name) && path == (if rooted then "/" else "") + name + (if slash then "/" else "")
    requires p == "/" + name + (if slash then "/" else "")
    ensures p == if path != "" && path[0] == '/' then path else "/" + path
  {
    assert path[0] == if rooted then '/' else name[0];
  }

  lemma TextEnds(path: string, query: string, text: string)
    requires path != "" && text == path + query
    ensures text != "" && text[0] == path[0]
    ensures text[|text| - 1] == if query == "" then path[|path| - 1] else query[|query| - 1]
  {
  }

  lemma NameIsTyped(raw: string, path: string, query: string, star: bool)
    requires path != "" && forall i :: 0 <= i < |path| ==> path[i] == '/' || 'a' <= path[i] <= 'z'
    requires raw == path + query + (if star then "*" else "")
    requires query != "" ==> query[0] == '?' || query[0] == '#'
    requires query != "" ==> !BlankCode(query[|query| - 1] as int) && query[|query| - 1] != '*'
    ensures TypedAs(raw, "", path, query, "", star, "")
  {
    TextEnds(path, query, path + query);
    assert raw == "" + (path + query) + (if star then "" + "*" else "") + "";
  }

  lemma NameParts(path: string, rooted: bool, name: string, slash: bool)
    requires path == (if rooted then "/" else "") + name + (if slash then "/" else "")
    requires name != "" && Letters(name)
    ensures forall i :: 0 <= i < |path| ==> path[i] == '/' || 'a' <= path[i] <= 'z'
    ensures path != "" && (path[0] == '/' <==> rooted)
  {
  }

  /** So the bare name, the path with a query and the path with a star below it are all "/admin". */
  lemma AdminTyped(raw: string)
    requires raw == "admin" || raw == "/admin?x" || raw == "/admin/*"
    ensures Clean(raw) == Some("/admin")
  {
    var name := "admin";
    assert "/" + name == "/admin";
    if raw == "admin" {
      assert raw == "" + name + "" + "" + "";
      NameTyped(raw, false, name, false, "", false);
    } else if raw == "/admin?x" {
      assert raw == "/" + name + "" + "?x" + "";
      NameTyped(raw, true, name, false, "?x", false);
    } else {
      assert raw == "/" + name + "/" + "" + "*";
      NameTyped(raw, true, name, true, "", true);
    }
  }

  // ------------------------------------------------------------------ whole lists

  /** What a list comes out as, entry by entry: `from` says which entry each path is, the first of those
      alike but for case, in order, and none is left out until the limit is reached. */
  ghost predicate Firsts(entries: seq<Option<string>>, n: nat, out: seq<string>, from: seq<nat>)
    requires n <= |entries|
  {
    |from| == |out| <= 32 &&
    (forall k :: 0 <= k < |from| ==> from[k] < n && entries[from[k]] == Some(out[k])) &&
    (forall k, l :: 0 <= k < l < |from| ==> from[k] < from[l]) &&
    (forall k, j :: 0 <= k < |from| && 0 <= j < from[k] && entries[j].Some? ==> ToLower(entries[j].value) != ToLower(out[k])) &&
    (|out| < 32 ==> forall j :: 0 <= j < n && entries[j].Some? ==> Among(out, entries[j].value))
  }

  predicate Among(out: seq<string>, p: string) {
    exists k :: 0 <= k < |out| && ToLower(out[k]) == ToLower(p)
  }

  lemma FirstsSkip(entries: seq<Option<string>>, n: nat, out: seq<string>, from: seq<nat>)
    requires n < |entries| && Firsts(entries, n, out, from)
    requires entries[n].Some? ==> Among(out, entries[n].value)
    ensures Firsts(entries, n + 1, out, from)
  {
  }

  lemma AmongMore(out: seq<string>, p: string, q: string)
    ensures Among(out + [p], p)
    ensures Among(out, q) ==> Among(out + [p], q)
  {
    assert (out + [p])[|out|] == p;
    if Among(out, q) {
      var k :| 0 <= k < |out| && ToLower(out[k]) == ToLower(q);
      assert (out + [p])[k] == out[k];
    }
  }

  lemma FirstsTake(entries: seq<Option<string>>, n: nat, out: seq<string>, from: seq<nat>, p: string)
    requires n < |entries| && Firsts(entries, n, out, from) && entries[n] == Some(p) && !Among(out, p) && |out| < 32
    ensures Firsts(entries, n + 1, out + [p], from + [n])
  {
    forall j | 0 <= j < n && entries[j].Some?
      ensures ToLower(entries[j].value) != ToLower(p) && Among(out + [p], entries[j].value)
    {
      var k :| 0 <= k < |out| && ToLower(out[k]) == ToLower(entries[j].value);
      AmongMore(out, p, entries[j].value);
    }
    AmongMore(out, p, p);
  }

  lemma FirstsNext(entries: seq<Option<string>>, n: nat, out: seq<string>, from: seq<nat>) returns (more: seq<nat>)
    requires n < |entries| && |out| < 32 && Firsts(entries, n, out, from) && Next(out, entries[n]).Going?
    ensures Firsts(entries, n + 1, Next(out, entries[n]).out, more)
  {
    if entries[n].Some? && !Among(out, entries[n].value) {
      more := from + [n];
      FirstsTake(entries, n, out, from, entries[n].value);
    } else {
      more := from;
      FirstsSkip(entries, n, out, from);
    }
  }

  lemma {:induction false} GatherFirsts(entries: seq<Option<string>>, n: nat) returns (from: seq<nat>)
    requires n <= |entries| && Gather(entries[..n]).Going?
    ensures Firsts(entries, n, Gather(entries[..n]).out, from)
    decreases n
  {
    from := [];
    if n > 0 {
      GatherNext(entries, n - 1);
      var before := Gather(entries[..n - 1]);
      from := GatherFirsts(entries, n - 1);
      if |before.out| < 32 {
        from := FirstsNext(entries, n - 1, before.out, from);
      }
    }
  }

  lemma WholeAt(entries: seq<Option<string>>, i: nat)
    requires i < |entries| && i < 32 && entries[i] == Some("/")
    ensures Gather(entries).Whole?
  {
    if Gather(entries[..i]).Whole? {
      GatherStops(entries, i);
    } else {
      GatherFull(entries, i);
      GatherNext(entries, i);
      GatherStops(entries, i + 1);
    }
  }

  /** One of the first thirty-two entries asks for the whole site. */
  ghost predicate AsksWholeSoon(entries: seq<Option<string>>) {
    exists i :: 0 <= i < |entries| && i < 32 && entries[i] == Some("/")
  }

  /** An entry asks for the whole site, or none can be used. */
  ghost predicate AsksWholeOrNothing(entries: seq<Option<string>>) {
    (exists i :: 0 <= i < |entries| && entries[i] == Some("/")) || forall i :: 0 <= i < |entries| ==> entries[i] == None
  }

  lemma EntriesAre(entries: seq<Option<string>>) returns (from: seq<nat>)
    ensures AsksWholeSoon(entries) ==> Result(Gather(entries)) == ["/"]
    ensures Result(Gather(entries)) == ["/"] ==> AsksWholeOrNothing(entries)
    ensures Result(Gather(entries)) != ["/"] ==> Firsts(entries, |entries|, Result(Gather(entries)), from)
  {
    from := [];
    assert entries[..|entries|] == entries;
    if AsksWholeSoon(entries) {
      var i :| 0 <= i < |entries| && i < 32 && entries[i] == Some("/");
      WholeAt(entries, i);
    }
    if Gather(entries).Going? {
      from := GatherFirsts(entries, |entries|);
      if Result(Gather(entries)) == ["/"] {
        NoneLeft(entries);
      }
    } else {
      WholeAsked(entries, |entries|);
    }
  }

  /** Every list comes out as the whole site, which it does when one of its first thirty-two entries
      asks for it and only when some entry does or none can be used; or else as the first of each. */
  lemma ListIs(paths: seq<string>) returns (from: seq<nat>)
    ensures AsksWholeSoon(CleanAll(paths)) ==> Normalised(paths) == ["/"]
    ensures Normalised(paths) == ["/"] ==> AsksWholeOrNothing(CleanAll(paths))
    ensures Normalised(paths) != ["/"] ==> Firsts(CleanAll(paths), |paths|, Normalised(paths), from)
  {
    from := EntriesAre(CleanAll(paths));
  }

  lemma NoneLeft(entries: seq<Option<string>>)
    requires Gather(entries).Going? && Result(Gather(entries)) == ["/"]
    ensures forall i :: 0 <= i < |entries| ==> entries[i] == None
  {
    assert entries[..|entries|] == entries;
    var from := GatherFirsts(entries, |entries|);
    NeverRoot(entries, |entries|);
  }

  lemma {:induction false} NeverRoot(entries: seq<Option<string>>, n: nat)
    requires n <= |entries| && Gather(entries[..n]).Going?
    ensures "/" !in Gather(entries[..n]).out
    decreases n
  {
    if n > 0 {
      GatherNext(entries, n - 1);
      NeverRoot(entries, n - 1);
    }
  }

  lemma {:induction false} WholeAsked(entries: seq<Option<string>>, n: nat)
    requires n <= |entries| && Gather(entries[..n]).Whole?
    ensures exists i :: 0 <= i < n && entries[i] == Some("/")
    decreases n
  {
    GatherNext(entries, n - 1);
    if Gather(entries[..n - 1]).Whole? {
      WholeAsked(entries, n - 1);
    } else {
      assert entries[n - 1] == Some("/");
    }
  }
}
