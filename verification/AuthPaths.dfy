/** siteusers.go, NormaliseAuthPaths: the list of paths a login gate stands in front of. */
module AuthPaths {
  import opened Wrappers
  import opened Text

  const MAX_AUTH_PATHS: nat := 32
  const MAX_LENGTH: nat := 256

  // -------------------------------------------------------------- one entry

  predicate At(s: string, part: string, i: int) {
    0 <= i && i + |part| <= |s| && s[i..i + |part|] == part
  }

  predicate Contains(s: string, part: string) {
    exists i :: 0 <= i <= |s| && At(s, part, i)
  }

  predicate HasSuffix(s: string, part: string) {
    |part| <= |s| && s[|s| - |part|..] == part
  }

  function TrimStar(s: string): string {
    if HasSuffix(s, "*") then s[..|s| - 1] else s
  }

  /** Up to the first `?` or `#`. */
  function Before(s: string): (r: string)
    ensures |r| <= |s| && r == s[..|r|]
    ensures forall i :: 0 <= i < |r| ==> r[i] != '?' && r[i] != '#'
    ensures '?' !in s && '#' !in s ==> r == s
  {
    if s == "" || s[0] == '?' || s[0] == '#' then ""
    else
      assert s == [s[0]] + s[1..];
      [s[0]] + Before(s[1..])
  }

  function StripSlashes(s: string): (r: string)
    ensures |r| <= |s| && r == s[..|r|]
    ensures s != "" ==> r != "" && (|r| > 1 ==> r[|r| - 1] != '/')
    ensures s != "" && (|s| > 1 ==> s[|s| - 1] != '/') ==> r == s
  {
    if |s| > 1 && s[|s| - 1] == '/' then StripSlashes(s[..|s| - 1]) else s
  }

  function Trimmed(raw: string): string {
    TrimSpace(TrimStar(TrimSpace(raw)))
  }

  function Rooted(s: string): (r: string)
    ensures r != "" && r[0] == '/'
  {
    if s != "" && s[0] == '/' then s else "/" + s
  }

  predicate Refused(s: string) {
    Contains(s, "/../") || HasSuffix(s, "/..") || Contains(s, "//") ||
    '\0' in s || '\n' in s || '\r' in s
  }

  /** What becomes of one entry before it meets the others. */
  function Clean(raw: string): Option<string> {
    var s := Trimmed(raw);
    if s == "" then None
    else
      var p := Rooted(Before(s));
      if Refused(p) || |StripSlashes(p)| > MAX_LENGTH then None else Some(StripSlashes(p))
  }

  method CleanPath(raw: string) returns (r: Option<string>)
    ensures r == Clean(raw)
  {
    var p := TrimSpace(raw);
    p := TrimStar(p);
    p := TrimSpace(p);
    if p == "" {
      return None;
    }
    p := Before(p);
    if !(p != "" && p[0] == '/') {
      p := "/" + p;
    }
    if Contains(p, "/../") || HasSuffix(p, "/..") || Contains(p, "//") {
      return None;
    }
    if '\0' in p || '\n' in p || '\r' in p {
      return None;
    }
    ghost var rooted := p;
    while |p| > 1 && p[|p| - 1] == '/'
      invariant StripSlashes(p) == StripSlashes(rooted)
    {
      p := p[..|p| - 1];
    }
    if |p| > MAX_LENGTH {
      return None;
    }
    r := Some(p);
  }

  // ------------------------------------------------------------------ the list

  datatype Progress = Going(out: seq<string>) | Whole

  function Next(out: seq<string>, entry: Option<string>): Progress {
    if entry.None? then Going(out)
    else if entry.value == "/" then Whole
    else if exists i :: 0 <= i < |out| && ToLower(out[i]) == ToLower(entry.value) then Going(out)
    else Going(out + [entry.value])
  }

  function Gather(entries: seq<Option<string>>): Progress {
    if entries == [] then Going([])
    else
      var before := Gather(entries[..|entries| - 1]);
      if before.Whole? || |before.out| >= MAX_AUTH_PATHS then before
      else Next(before.out, entries[|entries| - 1])
  }

  function Result(p: Progress): seq<string> {
    if p.Whole? || p.out == [] then ["/"] else p.out
  }

  function CleanAll(paths: seq<string>): (r: seq<Option<string>>)
    ensures |r| == |paths| && forall i :: 0 <= i < |r| ==> r[i] == Clean(paths[i])
  {
    seq(|paths|, i requires 0 <= i < |paths| => Clean(paths[i]))
  }

  function Normalised(paths: seq<string>): seq<string> {
    Result(Gather(CleanAll(paths)))
  }

  lemma GatherNext(entries: seq<Option<string>>, i: nat)
    requires i < |entries|
    ensures Gather(entries[..i + 1]) ==
            var before := Gather(entries[..i]);
            if before.Whole? || |before.out| >= MAX_AUTH_PATHS then before else Next(before.out, entries[i])
  {
    assert entries[..i + 1][..i] == entries[..i];
  }

  /** Once it has stopped it stays stopped. */
  lemma {:induction false} GatherStops(entries: seq<Option<string>>, i: nat)
    requires i <= |entries|
    requires Gather(entries[..i]).Whole? || |Gather(entries[..i]).out| >= MAX_AUTH_PATHS
    ensures Gather(entries) == Gather(entries[..i])
    decreases |entries| - i
  {
    if i < |entries| {
      GatherNext(entries, i);
      GatherStops(entries, i + 1);
    } else {
      assert entries[..i] == entries;
    }
  }

  /** The lower-cased keys of the entries so far. */
  ghost predicate Keys(seen: set<string>, out: seq<string>) {
    (forall j :: 0 <= j < |out| ==> ToLower(out[j]) in seen) &&
    (forall k :: k in seen ==> exists j :: 0 <= j < |out| && ToLower(out[j]) == k)
  }

  lemma KeysNext(seen: set<string>, out: seq<string>, p: string)
    requires Keys(seen, out)
    ensures Keys(seen + {ToLower(p)}, out + [p])
  {
    var after := out + [p];
    forall k | k in seen + {ToLower(p)}
      ensures exists j :: 0 <= j < |after| && ToLower(after[j]) == k
    {
      if k in seen {
        var j :| 0 <= j < |out| && ToLower(out[j]) == k;
        assert after[j] == out[j];
      } else {
        assert after[|out|] == p;
      }
    }
  }

  /** One turn of the loop. */
  method TakeEntry(out: seq<string>, seen: set<string>, entry: Option<string>)
    returns (whole: bool, after: seq<string>, keys: set<string>)
    requires Keys(seen, out)
    ensures Next(out, entry) == if whole then Whole else Going(after)
    ensures !whole ==> Keys(keys, after)
  {
    if entry.None? {
      return false, out, seen;
    }
    var p := entry.value;
    if p == "/" {
      return true, out, seen;
    }
    var key := ToLower(p);
    if key in seen {
      return false, out, seen;
    }
    KeysNext(seen, out, p);
    return false, out + [p], seen + {key};
  }

  method TakePath(out: seq<string>, seen: set<string>, raw: string)
    returns (whole: bool, after: seq<string>, keys: set<string>)
    requires Keys(seen, out)
    ensures Next(out, Clean(raw)) == if whole then Whole else Going(after)
    ensures !whole ==> Keys(keys, after)
  {
    var p := CleanPath(raw);
    whole, after, keys := TakeEntry(out, seen, p);
  }

  /** The loop, to its end, its limit or the whole site. */
  method GatherPaths(paths: seq<string>) returns (whole: bool, out: seq<string>)
    ensures Gather(CleanAll(paths)) == if whole then Whole else Going(out)
  {
    ghost var entries := CleanAll(paths);
    out := [];
    var seen: set<string> := {};
    var i := 0;
    while i < |paths| && |out| < MAX_AUTH_PATHS
      invariant 0 <= i <= |paths|
      invariant Gather(entries[..i]) == Going(out)
      invariant Keys(seen, out)
    {
      GatherNext(entries, i);
      whole, out, seen := TakePath(out, seen, paths[i]);
      i := i + 1;
      if whole {
        GatherStops(entries, i);
        return;
      }
    }
    whole := false;
    GatherEnds(entries, i);
  }

  lemma GatherEnds(entries: seq<Option<string>>, i: nat)
    requires i <= |entries| && Gather(entries[..i]).Going?
    requires i == |entries| || |Gather(entries[..i]).out| >= MAX_AUTH_PATHS
    ensures Gather(entries) == Gather(entries[..i])
  {
    if i == |entries| {
      assert entries[..i] == entries;
    } else {
      GatherStops(entries, i);
    }
  }

  method NormaliseAuthPaths(paths: seq<string>) returns (out: seq<string>)
    ensures out == Normalised(paths)
  {
    var whole;
    whole, out := GatherPaths(paths);
    if whole || |out| == 0 {
      return ["/"];
    }
  }

  // ------------------------------------------------------- what an entry looks like

  /** Two slashes in a row. */
  predicate EmptySegment(p: string) {
    exists i :: 0 <= i < |p| && EmptyAt(p, i)
  }

  predicate EmptyAt(p: string, i: int) {
    0 <= i < |p| - 1 && p[i] == '/' && p[i + 1] == '/'
  }

  predicate DotDotAt(p: string, i: int) {
    0 <= i && i + 3 <= |p| && p[i] == '/' && p[i + 1] == '.' && p[i + 2] == '.' && (i + 3 == |p| || p[i + 3] == '/')
  }

  /** A segment that is exactly two dots. */
  predicate DotDotSegment(p: string) {
    exists i :: 0 <= i < |p| && DotDotAt(p, i)
  }

  predicate StrayChar(c: char) {
    c == '?' || c == '#' || c == '\0' || c == '\n' || c == '\r'
  }

  /** An absolute path that a decoded, collapsed request path could equal. */
  predicate GoodPath(p: string) {
    p != "" && p[0] == '/' && |p| <= 256 && !EmptySegment(p) && !DotDotSegment(p) &&
    (forall c :: c in p ==> !StrayChar(c)) && (|p| > 1 ==> p[|p| - 1] != '/')
  }

  lemma TwoAt(p: string, i: int)
    ensures At(p, "//", i) <==> EmptyAt(p, i)
  {
    if 0 <= i < |p| - 1 {
      var s := p[i..i + 2];
      assert s[0] == p[i] && s[1] == p[i + 1];
      assert s == [p[i], p[i + 1]];
    }
  }

  lemma FourAt(p: string, i: int)
    ensures At(p, "/../", i) <==> 0 <= i < |p| - 3 && p[i] == '/' && p[i + 1] == '.' && p[i + 2] == '.' && p[i + 3] == '/'
  {
    if 0 <= i < |p| - 3 {
      assert p[i..i + 4] == [p[i], p[i + 1], p[i + 2], p[i + 3]];
    }
  }

  lemma ThreeLast(p: string)
    ensures HasSuffix(p, "/..") <==> |p| >= 3 && p[|p| - 3] == '/' && p[|p| - 2] == '.' && p[|p| - 1] == '.'
  {
    if |p| >= 3 {
      assert p[|p| - 3..] == [p[|p| - 3], p[|p| - 2], p[|p| - 1]];
    }
  }

  lemma ContainsTwo(p: string)
    ensures Contains(p, "//") <==> EmptySegment(p)
  {
    forall i
      ensures At(p, "//", i) <==> EmptyAt(p, i)
    {
      TwoAt(p, i);
    }
  }

  lemma ContainsDotDot(p: string)
    ensures Contains(p, "/../") || HasSuffix(p, "/..") <==> DotDotSegment(p)
  {
    ThreeLast(p);
    forall i
      ensures At(p, "/../", i) <==> DotDotAt(p, i) && i + 3 < |p|
    {
      FourAt(p, i);
    }
    assert HasSuffix(p, "/..") <==> DotDotAt(p, |p| - 3);
  }

  /** The substring tests refuse exactly the paths with an empty or a dot-dot segment or a control
      character that would end a line. */
  lemma RefusedMeans(p: string)
    ensures Refused(p) <==> EmptySegment(p) || DotDotSegment(p) || '\0' in p || '\n' in p || '\r' in p
  {
    ContainsTwo(p);
    ContainsDotDot(p);
  }

  lemma StripOnce(p: string)
    requires p != "" && p[0] == '/' && !EmptySegment(p)
    ensures StripSlashes(p) == if |p| > 1 && p[|p| - 1] == '/' then p[..|p| - 1] else p
  {
    if |p| > 1 && p[|p| - 1] == '/' {
      var q := p[..|p| - 1];
      assert q[|q| - 1] == p[|p| - 2];
      assert !EmptyAt(p, |p| - 2);
      assert |p| > 2 ==> p[|p| - 2] != '/';
      assert StripSlashes(q) == q;
    }
  }

  lemma StrippedKeeps(p: string)
    requires p != "" && p[0] == '/' && !EmptySegment(p) && !DotDotSegment(p)
    ensures var r := StripSlashes(p);
            r != "" && r[0] == '/' && !EmptySegment(r) && !DotDotSegment(r) && (|r| > 1 ==> r[|r| - 1] != '/')
  {
    var r := StripSlashes(p);
    StripOnce(p);
    forall i | 0 <= i < |r|
      ensures !EmptyAt(r, i)
    {
      assert EmptyAt(r, i) ==> EmptyAt(p, i);
    }
    forall i | 0 <= i < |r|
      ensures !DotDotAt(r, i)
    {
      assert DotDotAt(r, i) ==> DotDotAt(p, i);
    }
  }

  lemma RootedClean(s: string)
    requires !Refused(Rooted(Before(s)))
    ensures forall c :: c in Rooted(Before(s)) ==> !StrayChar(c)
  {
    var b := Before(s);
    var p := Rooted(b);
    forall c | c in p
      ensures !StrayChar(c)
    {
      assert c in b || c == '/';
    }
  }

  lemma CleanIsGood(raw: string)
    requires Clean(raw).Some?
    ensures GoodPath(Clean(raw).value)
  {
    var p := Rooted(Before(Trimmed(raw)));
    RefusedMeans(p);
    RootedClean(Trimmed(raw));
    StrippedKeeps(p);
    assert forall c :: c in StripSlashes(p) ==> c in p;
  }

  predicate EndsLoose(p: string) {
    p != "" && (IsSpace(p[|p| - 1]) || p[|p| - 1] == '*')
  }

  lemma GoodPasses(p: string)
    requires GoodPath(p)
    ensures !Refused(p) && StripSlashes(p) == p && Before(p) == p && Rooted(p) == p
  {
    RefusedMeans(p);
    StripOnce(p);
    assert !StrayChar('/');
    assert '?' !in p && '#' !in p && '\0' !in p && '\n' !in p && '\r' !in p by {
      assert StrayChar('?') && StrayChar('#') && StrayChar('\0') && StrayChar('\n') && StrayChar('\r');
    }
  }

  lemma StarEnds(s: string)
    ensures HasSuffix(s, "*") <==> s != "" && s[|s| - 1] == '*'
  {
    if s != "" {
      assert s[|s| - 1..] == [s[|s| - 1]];
    }
  }

  lemma TrimOfEnd(s: string)
    requires s != "" && IsSpace(s[|s| - 1])
    ensures |TrimSpace(s)| < |s|
  {
    var l := TrimLeft(s);
    assert |TrimRight(l)| <= |l|;
    if |l| == |s| {
      assert l == s;
      TrimRightShrinks(s);
    }
  }

  lemma TrimRightShrinks(s: string)
    requires s != "" && IsSpace(s[|s| - 1])
    ensures |TrimRight(s)| < |s|
  {
    var r := TrimRight(s);
    assert |r| == |s| ==> r == s;
  }

  lemma TrimKeepsFront(s: string)
    requires s != "" && !IsSpace(s[0])
    ensures TrimSpace(s) != "" && TrimSpace(s)[0] == s[0]
  {
    assert TrimLeft(s) == s;
  }

  /** Trimming a path that does not end in a blank or a star does nothing; otherwise it shortens it,
      and never past the leading slash. */
  lemma TrimmedPath(p: string)
    requires p != "" && p[0] == '/'
    ensures !EndsLoose(p) ==> Trimmed(p) == p
    ensures EndsLoose(p) ==> |Trimmed(p)| < |p|
    ensures Trimmed(p) != "" && Trimmed(p)[0] == '/'
  {
    TrimKeepsFront(p);
    var a := TrimSpace(p);
    StarEnds(a);
    var b := TrimStar(a);
    assert b != "" && b[0] == '/';
    TrimKeepsFront(b);
    if IsSpace(p[|p| - 1]) {
      TrimOfEnd(p);
    } else {
      assert a == p;
    }
    assert |TrimSpace(b)| <= |b| <= |a| <= |p|;
  }

  lemma BeforeKeepsFront(s: string)
    requires s != "" && s[0] == '/'
    ensures Before(s) != "" && Before(s)[0] == '/'
  {
  }

  /** A clean entry is left alone unless it ends in a blank or a star, and then it is cut or lost. */
  lemma CleanAgain(p: string)
    requires GoodPath(p)
    ensures !EndsLoose(p) ==> Clean(p) == Some(p)
    ensures EndsLoose(p) ==> Clean(p) != Some(p)
  {
    TrimmedPath(p);
    GoodPasses(p);
    var s := Trimmed(p);
    BeforeKeepsFront(s);
    assert |StripSlashes(Rooted(Before(s)))| <= |s|;
  }

  // ------------------------------------------------------- what the list looks like

  ghost predicate Unlike(out: seq<string>) {
    forall i, j :: 0 <= i < j < |out| ==> ToLower(out[i]) != ToLower(out[j])
  }

  lemma {:induction false} GatherShape(entries: seq<Option<string>>)
    requires forall e :: e in entries && e.Some? ==> GoodPath(e.value)
    ensures var p := Gather(entries);
            p.Going? ==> |p.out| <= MAX_AUTH_PATHS && Unlike(p.out) && forall s :: s in p.out ==> GoodPath(s) && s != "/"
    decreases |entries|
  {
    if entries != [] {
      var k := |entries| - 1;
      assert forall e :: e in entries[..k] ==> e in entries;
      GatherShape(entries[..k]);
      assert entries[k] in entries;
    }
  }

  lemma CleanAllGood(paths: seq<string>)
    ensures forall e :: e in CleanAll(paths) && e.Some? ==> GoodPath(e.value)
  {
    forall e | e in CleanAll(paths) && e.Some?
      ensures GoodPath(e.value)
    {
      var i :| 0 <= i < |paths| && CleanAll(paths)[i] == e;
      CleanIsGood(paths[i]);
    }
  }

  lemma RootIsGood()
    ensures GoodPath("/") && !EndsLoose("/")
  {
    assert forall c :: c in "/" ==> c == '/';
  }

  /** Whatever it is given, the result is between one and thirty-two absolute paths, no two alike
      but for case, each free of query, fragment, empty and dot-dot segments and trailing slash;
      and the whole site, when listed, is listed alone. */
  lemma ResultShape(paths: seq<string>)
    ensures var out := Normalised(paths);
            1 <= |out| <= 32 && Unlike(out) &&
            (forall p :: p in out ==> GoodPath(p)) &&
            ("/" in out ==> out == ["/"])
  {
    CleanAllGood(paths);
    GatherShape(CleanAll(paths));
    RootIsGood();
  }

  // ----------------------------------------------------------------- a second pass

  /** A list of clean entries passes through as it is. */
  lemma {:induction false} GatherKeeps(out: seq<string>, entries: seq<Option<string>>, n: nat)
    requires n <= |out| == |entries| <= MAX_AUTH_PATHS && Unlike(out) && "/" !in out
    requires forall i :: 0 <= i < |out| ==> entries[i] == Some(out[i])
    ensures Gather(entries[..n]) == Going(out[..n])
    decreases n
  {
    if n > 0 {
      GatherKeeps(out, entries, n - 1);
      GatherNext(entries, n - 1);
      assert out[n - 1] in out;
      assert out[..n] == out[..n - 1] + [out[n - 1]];
      var q := out[..n - 1];
      forall i | 0 <= i < |q|
        ensures ToLower(q[i]) != ToLower(out[n - 1])
      {
        assert q[i] == out[i];
      }
    }
  }

  /** As many out as went in means each went in as it came out. */
  lemma {:induction false} GatherFull(entries: seq<Option<string>>, n: nat)
    requires n <= |entries| && Gather(entries[..n]).Going?
    ensures |Gather(entries[..n]).out| <= n
    ensures |Gather(entries[..n]).out| == n ==>
              forall i :: 0 <= i < n ==> entries[i] == Some(Gather(entries[..n]).out[i])
    decreases n
  {
    if n > 0 {
      GatherNext(entries, n - 1);
      GatherFull(entries, n - 1);
    }
  }

  lemma PassKeeps(entries: seq<Option<string>>, out: seq<string>)
    requires 1 <= |out| == |entries| <= MAX_AUTH_PATHS && Unlike(out) && ("/" in out ==> out == ["/"])
    requires forall i :: 0 <= i < |out| ==> entries[i] == Some(out[i])
    ensures Result(Gather(entries)) == out
  {
    if "/" in out {
      GatherNext(entries, 0);
      assert entries[..1] == entries;
    } else {
      GatherKeeps(out, entries, |out|);
      assert entries[..|out|] == entries && out[..|out|] == out;
    }
  }

  lemma SecondPassKeeps(out: seq<string>)
    requires 1 <= |out| <= MAX_AUTH_PATHS && Unlike(out) && ("/" in out ==> out == ["/"])
    requires forall p :: p in out ==> GoodPath(p) && !EndsLoose(p)
    ensures Normalised(out) == out
  {
    var entries := CleanAll(out);
    forall i | 0 <= i < |out|
      ensures entries[i] == Some(out[i])
    {
      assert out[i] in out;
      CleanAgain(out[i]);
    }
    PassKeeps(entries, out);
  }

  lemma FullPass(entries: seq<Option<string>>, out: seq<string>)
    requires |entries| == |out| && out != ["/"] && Result(Gather(entries)) == out
    ensures forall i :: 0 <= i < |out| ==> entries[i] == Some(out[i])
  {
    assert entries[..|out|] == entries;
    GatherFull(entries, |out|);
  }

  lemma SecondPassChanges(out: seq<string>, i: nat)
    requires i < |out| && GoodPath(out[i]) && EndsLoose(out[i])
    ensures Normalised(out) != out
  {
    var entries := CleanAll(out);
    RootIsGood();
    CleanAgain(out[i]);
    assert entries[i] != Some(out[i]);
    if Normalised(out) == out {
      FullPass(entries, out);
    }
  }

  /** Normalising again what has been normalised changes nothing exactly when no
      entry ends in a blank or a star. */
  lemma SecondPassIff(paths: seq<string>)
    ensures var out := Normalised(paths);
            Normalised(out) == out <==> forall p :: p in out ==> !EndsLoose(p)
  {
    var out := Normalised(paths);
    ResultShape(paths);
    if forall p :: p in out ==> !EndsLoose(p) {
      SecondPassKeeps(out);
    } else {
      var p :| p in out && EndsLoose(p);
      var i :| 0 <= i < |out| && out[i] == p;
      SecondPassChanges(out, i);
    }
  }

  // ------------------------------------------------------------- one pass is not enough

  lemma CleanOf(raw: string, s: string)
    requires Trimmed(raw) == s && GoodPath(s)
    ensures Clean(raw) == Some(s)
  {
    GoodPasses(s);
  }

  /** A path that ends in a star loses it, and only it. */
  lemma StarGoes(q: string)
    requires GoodPath(q) && !IsSpace(q[|q| - 1])
    ensures Clean(q + "*") == Some(q)
  {
    TrimmedStar(q);
    CleanOf(q + "*", q);
  }

  lemma TrimmedStar(q: string)
    requires q != "" && !IsSpace(q[0]) && !IsSpace(q[|q| - 1])
    ensures Trimmed(q + "*") == q
  {
    var p := q + "*";
    assert p[0] == q[0] && p[|p| - 1] == '*';
    assert TrimSpace(p) == p;
    StarEnds(p);
    assert p[..|p| - 1] == q;
    assert TrimSpace(q) == q;
  }

  lemma PlainPath(p: string)
    requires 2 <= |p| <= MAX_LENGTH && p[0] == '/' && forall i :: 1 <= i < |p| ==> p[i] == 'a' || p[i] == '*'
    ensures GoodPath(p)
  {
    forall c | c in p
      ensures !StrayChar(c)
    {
      var i :| 0 <= i < |p| && p[i] == c;
    }
  }

  lemma OneGathered(p: string)
    requires p != "/"
    ensures Result(Gather([Some(p)])) == [p]
  {
    var entries := [Some(p)];
    GatherNext(entries, 0);
    assert entries[..1] == entries && entries[..0] == [];
    assert [] + [p] == [p];
  }

  lemma OneEntry(raw: string, p: string)
    requires Clean(raw) == Some(p) && p != "/"
    ensures Normalised([raw]) == [p]
  {
    assert CleanAll([raw]) == [Some(p)];
    OneGathered(p);
  }

  lemma StarredEntry(q: string, typed: string)
    requires GoodPath(q) && q != "/" && !IsSpace(q[|q| - 1]) && typed == q + "*"
    ensures Normalised([typed]) == [q]
  {
    StarGoes(q);
    OneEntry(typed, q);
  }

  function Stars(m: nat): string {
    if m == 0 then "" else Stars(m - 1) + "*"
  }

  lemma StarKeepsGood(q: string)
    requires GoodPath(q) && |q| < MAX_LENGTH
    ensures GoodPath(q + "*")
  {
    var p := q + "*";
    forall i | 0 <= i < |p|
      ensures !EmptyAt(p, i) && !DotDotAt(p, i)
    {
      assert i < |q| ==> !EmptyAt(q, i) && !DotDotAt(q, i);
    }
  }

  lemma {:induction false} StarsKeepGood(q: string, m: nat)
    requires GoodPath(q) && q != "/" && !EndsLoose(q) && |q| + m <= MAX_LENGTH
    ensures var p := q + Stars(m); GoodPath(p) && p != "/" && |p| == |q| + m && !IsSpace(p[|p| - 1])
    decreases m
  {
    if m > 0 {
      StarsKeepGood(q, m - 1);
      StarKeepsGood(q + Stars(m - 1));
      assert q + Stars(m) == q + Stars(m - 1) + "*";
    } else {
      assert q + "" == q;
    }
  }

  /** `k` passes over a list. */
  function Pass(paths: seq<string>, k: nat): seq<string> {
    Repeat(Normalised, paths, k)
  }

  function Repeat<T>(f: T -> T, x: T, k: nat): T
    decreases k
  {
    if k == 0 then x else Repeat(f, f(x), k - 1)
  }

  /** A pass takes one star: of an entry that ends in `m` of them, `k` passes leave what is over. */
  lemma OneStarAPass(q: string, m: nat, k: nat)
    requires GoodPath(q) && q != "/" && !EndsLoose(q) && |q| + m <= MAX_LENGTH
    ensures Pass([q + Stars(m)], k) == [q + Stars(Over(m, k))]
  {
    var lists := seq(k + 1, i requires 0 <= i <= k => [q + Stars(Over(m, i))]);
    forall i | 0 <= i < k
      ensures Normalised(lists[i]) == lists[i + 1]
    {
      PassOnStars(q, Over(m, i));
      assert Over(Over(m, i), 1) == Over(m, i + 1);
    }
    RepeatChain(Normalised, lists, k);
  }

  /** If each list is one pass over the one before, the last is that many passes over the first. */
  lemma {:induction false} RepeatChain<T>(f: T -> T, lists: seq<T>, k: nat)
    requires |lists| == k + 1 && forall i :: 0 <= i < k ==> f(lists[i]) == lists[i + 1]
    ensures Repeat(f, lists[0], k) == lists[k]
    decreases k
  {
    if k > 0 {
      assert lists[1..][0] == lists[1];
      RepeatChain(f, lists[1..], k - 1);
    }
  }

  function Over(m: nat, k: nat): nat {
    if k < m then m - k else 0
  }

  lemma PassOnStars(q: string, m: nat)
    requires GoodPath(q) && q != "/" && !EndsLoose(q) && |q| + m <= MAX_LENGTH
    ensures Normalised([q + Stars(m)]) == [q + Stars(Over(m, 1))]
  {
    if m > 0 {
      StarsKeepGood(q, m - 1);
      MoreStars(q, m);
      StarredEntry(q + Stars(m - 1), q + Stars(m));
    } else {
      assert q + "" == q;
      PlainEntryStays(q);
    }
  }

  lemma MoreStars(q: string, m: nat)
    requires m > 0
    ensures q + Stars(m) == q + Stars(m - 1) + "*"
  {
  }

  lemma PlainEntryStays(q: string)
    requires GoodPath(q) && q != "/" && !EndsLoose(q)
    ensures Normalised([q]) == [q]
  {
    CleanAgain(q);
    OneEntry(q, q);
  }

  /** So one pass is not enough in general. */
  lemma OnePassIsNotEnough(typed: string)
    requires |typed| == 4 && typed[0] == '/' && typed[1] == 'a' && typed[2] == '*' && typed[3] == '*'
    ensures Normalised(Normalised([typed])) != Normalised([typed])
  {
    var q, stored := typed[..2], typed[..3];
    assert stored == q + "*" && typed == stored + "*";
    PlainPath(q);
    PlainPath(stored);
    StarredEntry(stored, typed);
    StarredEntry(q, stored);
  }
}
