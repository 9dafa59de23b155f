/** auth.lua, gated: which requests the login gate stands in front of, for a path list after any number
    of passes of the normaliser. */
module GatePaths {
  import opened Wrappers
  import opened Text
  import opened AuthPaths

  // ------------------------------------------------------------------ the gate

  const LOGIN_URI := "/__moswaf/login"
  const LOGOUT_URI := "/__moswaf/logout"
  const ACME_PREFIX := "/.well-known/acme-challenge/"

  /** Requests no gate stops: signing in and out, and the certificate authority's. */
  predicate Exempt(uri: string) {
    uri == LOGIN_URI || uri == LOGOUT_URI || (|uri| >= |ACME_PREFIX| && uri[..|ACME_PREFIX|] == ACME_PREFIX)
  }

  /** auth.lua, the loop of gated: a path covers itself and everything below it, case aside; an empty
      one is passed over. */
  predicate Covers(p: string, uri: string) {
    p != "" &&
    (p == "/" || ToLower(uri) == ToLower(p) ||
     (|uri| > |p| && ToLower(uri)[..|p|] == ToLower(p) && uri[|p|] == '/'))
  }

  predicate Listed(paths: seq<string>, uri: string) {
    exists i :: 0 <= i < |paths| && Covers(paths[i], uri)
  }

  /** An empty list means the whole site. */
  predicate Gated(paths: seq<string>, uri: string) {
    !Exempt(uri) && (paths == [] || Listed(paths, uri))
  }

  /** The path is the whole site, or the request, in whatever case, is the path itself or below it. */
  ghost predicate StandsBefore(p: string, uri: string) {
    p == "/" ||
    (p != "" && |p| <= |uri| && (forall i :: 0 <= i < |p| ==> LowerCode(p[i] as int) == LowerCode(uri[i] as int)) &&
     (|p| == |uri| || uri[|p|] == '/'))
  }

  function LowerCode(n: int): int {
    if 65 <= n <= 90 then n + 32 else n
  }

  lemma CoversMeans(p: string, uri: string)
    ensures Covers(p, uri) <==> StandsBefore(p, uri)
  {
    var a, b := ToLower(p), ToLower(uri);
    if StandsBefore(p, uri) && p != "/" {
      forall i | 0 <= i < |p|
        ensures a[i] == b[i]
      {
      }
      assert b[..|p|] == a;
    }
    if Covers(p, uri) && p != "/" {
      assert b[..|p|] == a;
      forall i | 0 <= i < |p|
        ensures LowerCode(p[i] as int) == LowerCode(uri[i] as int)
      {
        assert a[i] == b[i];
      }
    }
  }

  method IsGated(paths: seq<string>, uri: string) returns (gated: bool)
    ensures gated == Gated(paths, uri)
    ensures gated <==>
            uri != "/__moswaf/login" && uri != "/__moswaf/logout" && !("/.well-known/acme-challenge/" <= uri) &&
            (paths == [] || exists i :: 0 <= i < |paths| && StandsBefore(paths[i], uri))
  {
    forall i | 0 <= i < |paths|
      ensures Covers(paths[i], uri) <==> StandsBefore(paths[i], uri)
    {
      CoversMeans(paths[i], uri);
    }
    if Exempt(uri) {
      return false;
    }
    if |paths| == 0 {
      return true;
    }
    var lower := ToLower(uri);
    for i := 0 to |paths|
      invariant forall j :: 0 <= j < i ==> !Covers(paths[j], uri)
    {
      if paths[i] != "" {
        var p := ToLower(paths[i]);
        if paths[i] == "/" || lower == p || (|lower| > |p| && lower[..|p|] == p && uri[|p|] == '/') {
          return true;
        }
      }
    }
    return false;
  }

  // ------------------------------------------------------------------ one pass

  predicate Asked(entries: seq<Option<string>>, uri: string) {
    exists i :: 0 <= i < |entries| && entries[i].Some? && Covers(entries[i].value, uri)
  }

  lemma SameButForCase(a: string, b: string, uri: string)
    requires ToLower(a) == ToLower(b) && a != "/" && b != "/"
    ensures Covers(a, uri) <==> Covers(b, uri)
  {
  }

  lemma AskedNext(entries: seq<Option<string>>, n: nat, uri: string)
    requires n < |entries|
    ensures Asked(entries[..n + 1], uri) <==>
            Asked(entries[..n], uri) || (entries[n].Some? && Covers(entries[n].value, uri))
  {
    var a, b := entries[..n], entries[..n + 1];
    if Asked(a, uri) {
      var i :| 0 <= i < |a| && a[i].Some? && Covers(a[i].value, uri);
      assert b[i] == a[i];
    }
    if Asked(b, uri) {
      var i :| 0 <= i < |b| && b[i].Some? && Covers(b[i].value, uri);
      assert i < n ==> a[i] == b[i];
    }
    assert b[n] == entries[n];
  }

  lemma GatedNext(out: seq<string>, p: string, uri: string)
    ensures Listed(out + [p], uri) <==> Listed(out, uri) || Covers(p, uri)
  {
    var after := out + [p];
    if Listed(out, uri) {
      var i :| 0 <= i < |out| && Covers(out[i], uri);
      assert after[i] == out[i];
    }
    assert after[|out|] == p;
  }

  lemma NextProtects(out: seq<string>, entry: Option<string>, uri: string)
    requires Next(out, entry).Going? && "/" !in out
    ensures Listed(Next(out, entry).out, uri) <==> Listed(out, uri) || (entry.Some? && Covers(entry.value, uri))
    ensures "/" !in Next(out, entry).out
  {
    if entry.Some? {
      GatedNext(out, entry.value, uri);
      if Next(out, entry).out == out {
        var i :| 0 <= i < |out| && ToLower(out[i]) == ToLower(entry.value);
        assert out[i] in out;
        SameButForCase(out[i], entry.value, uri);
      }
    }
  }

  // ------------------------------------------------------- what a pass gets to read

  /** The loop never stopped before the end of these entries. */
  ghost predicate AllRead(entries: seq<Option<string>>) {
    forall i :: 0 <= i < |entries| ==> Reads(entries[..i])
  }

  predicate Reads(before: seq<Option<string>>) {
    Gather(before).Going? && |Gather(before).out| < MAX_AUTH_PATHS
  }

  /** How many entries the loop reads: it stops at the whole site and at its limit. */
  function Cut(entries: seq<Option<string>>): (n: nat)
    ensures n <= |entries|
  {
    if entries == [] then 0
    else
      var front := entries[..|entries| - 1];
      if Reads(front) then |entries| else Cut(front)
  }

  /** What it reads decides everything, and it reads on until it has to stop. */
  lemma {:induction false} CutMeans(entries: seq<Option<string>>)
    ensures var n := Cut(entries);
            AllRead(entries[..n]) && Gather(entries[..n]) == Gather(entries) &&
            (n < |entries| ==> !Reads(entries[..n]))
    decreases |entries|
  {
    if entries == [] {
      assert entries[..0] == entries;
    } else {
      var k := |entries| - 1;
      var front := entries[..k];
      CutMeans(front);
      if Reads(front) {
        assert entries[..|entries|] == entries;
        ReadSoFar(front);
        assert forall i :: 0 <= i <= k ==> entries[..i] == if i < k then front[..i] else front;
      } else {
        var n := Cut(front);
        assert front[..n] == entries[..n];
      }
    }
  }

  /** Had it stopped, it would have stayed stopped. */
  lemma {:induction false} ReadSoFar(front: seq<Option<string>>)
    requires Reads(front)
    ensures AllRead(front)
  {
    forall i | 0 <= i < |front|
      ensures Reads(front[..i])
    {
      if !Reads(front[..i]) {
        GatherStops(front, i);
      }
    }
  }

  /** A list no longer than the limit is read to its end, or to an entry that is the whole site. */
  lemma ShortIsRead(entries: seq<Option<string>>)
    requires |entries| <= MAX_AUTH_PATHS
    ensures Cut(entries) < |entries| ==> Gather(entries).Whole?
  {
    var n := Cut(entries);
    CutMeans(entries);
    if n < |entries| && Gather(entries[..n]).Going? {
      GatherFull(entries, n);
    }
  }

  // ------------------------------------------------------------------ one pass

  lemma {:induction false} GatherProtects(entries: seq<Option<string>>, n: nat, uri: string)
    requires n <= |entries| && AllRead(entries) && Gather(entries[..n]).Going?
    ensures "/" !in Gather(entries[..n]).out
    ensures Listed(Gather(entries[..n]).out, uri) <==> Asked(entries[..n], uri)
    decreases n
  {
    if n > 0 {
      assert Reads(entries[..n - 1]);
      GatherNext(entries, n - 1);
      GatherProtects(entries, n - 1, uri);
      AskedNext(entries, n - 1, uri);
      NextProtects(Gather(entries[..n - 1]).out, entries[n - 1], uri);
    }
  }

  /** The whole site was asked for. */
  lemma {:induction false} WholeWasAsked(entries: seq<Option<string>>, n: nat)
    requires n <= |entries| && Gather(entries[..n]).Whole?
    ensures Some("/") in entries[..n]
    decreases n
  {
    GatherNext(entries, n - 1);
    if Gather(entries[..n - 1]).Whole? {
      WholeWasAsked(entries, n - 1);
      assert forall e :: e in entries[..n - 1] ==> e in entries[..n];
    } else {
      assert entries[..n][n - 1] == Some("/");
    }
  }

  lemma WholeIsThere(entries: seq<Option<string>>)
    requires Gather(entries).Whole?
    ensures Some("/") in entries
  {
    assert entries[..|entries|] == entries;
    WholeWasAsked(entries, |entries|);
  }

  predicate NoneUsable(entries: seq<Option<string>>) {
    forall i :: 0 <= i < |entries| ==> entries[i].None?
  }

  lemma RootListed(uri: string)
    ensures Listed(["/"], uri)
  {
    assert ["/"][0] == "/" && Covers("/", uri);
  }

  lemma {:induction false} EmptyMeansNone(entries: seq<Option<string>>, n: nat)
    requires n <= |entries| && Gather(entries[..n]).Going?
    ensures Gather(entries[..n]).out == [] <==> forall i :: 0 <= i < n ==> entries[i].None?
    decreases n
  {
    if n > 0 {
      GatherNext(entries, n - 1);
      EmptyMeansNone(entries, n - 1);
    }
  }

  lemma NothingGathered(entries: seq<Option<string>>)
    requires Gather(entries).Going?
    ensures Gather(entries).out == [] <==> NoneUsable(entries)
  {
    assert entries[..|entries|] == entries;
    EmptyMeansNone(entries, |entries|);
  }

  /** One of the entries covers the request, or none could be used. */
  predicate Meant(entries: seq<Option<string>>, uri: string) {
    Asked(entries, uri) || NoneUsable(entries)
  }

  lemma RootEntryAsks(entries: seq<Option<string>>, i: nat, uri: string)
    requires i < |entries| && entries[i] == Some("/")
    ensures Asked(entries, uri)
  {
    assert Covers(entries[i].value, uri);
  }

  lemma ListedIffMeant(entries: seq<Option<string>>, uri: string)
    requires AllRead(entries)
    ensures Listed(Result(Gather(entries)), uri) <==> Meant(entries, uri)
  {
    assert entries[..|entries|] == entries;
    RootListed(uri);
    if Gather(entries).Whole? {
      WholeIsThere(entries);
      var i :| 0 <= i < |entries| && entries[i] == Some("/");
      RootEntryAsks(entries, i, uri);
    } else {
      GatherProtects(entries, |entries|, uri);
      NothingGathered(entries);
    }
  }

  /** The entries of a list that one pass gets to read. */
  function ReadOf(paths: seq<string>): seq<string> {
    paths[..Cut(CleanAll(paths))]
  }

  lemma ReadOfCleans(paths: seq<string>)
    ensures CleanAll(ReadOf(paths)) == CleanAll(paths)[..Cut(CleanAll(paths))]
    ensures AllRead(CleanAll(ReadOf(paths))) && Gather(CleanAll(ReadOf(paths))) == Gather(CleanAll(paths))
  {
    CutMeans(CleanAll(paths));
  }

  /** One pass, for every list: a request that is not exempt is behind the gate exactly when one of the
      entries that were read covers it, or none of those could be used and the gate stands in front of
      everything. An entry past the limit protects nothing. */
  lemma ProtectsWhatWasAsked(paths: seq<string>, uri: string)
    ensures Gated(Normalised(paths), uri) <==> !Exempt(uri) && Meant(CleanAll(ReadOf(paths)), uri)
  {
    ResultShape(paths);
    ReadOfCleans(paths);
    ListedIffMeant(CleanAll(ReadOf(paths)), uri);
  }

  // ---------------------------------------------------- cleaning does not see case

  lemma LowerChars(c: char)
    ensures IsSpace(LowerChar(c)) == IsSpace(c)
    ensures (LowerChar(c) == '/') == (c == '/') && (LowerChar(c) == '*') == (c == '*') && (LowerChar(c) == '.') == (c == '.')
    ensures StrayChar(LowerChar(c)) == StrayChar(c)
    ensures (LowerChar(c) == '?' || LowerChar(c) == '#') == (c == '?' || c == '#')
    ensures (LowerChar(c) == '\0' || LowerChar(c) == '\n' || LowerChar(c) == '\r') == (c == '\0' || c == '\n' || c == '\r')
  {
  }

  lemma LowerSlice(s: string, i: nat, j: nat)
    requires i <= j <= |s|
    ensures ToLower(s[i..j]) == ToLower(s)[i..j]
  {
  }

  lemma {:induction false} TrimLeftLower(s: string)
    ensures TrimLeft(ToLower(s)) == ToLower(TrimLeft(s))
    decreases |s|
  {
    if s != "" {
      LowerChars(s[0]);
      LowerSlice(s, 1, |s|);
      assert s[1..|s|] == s[1..] && ToLower(s)[1..|s|] == ToLower(s)[1..];
      TrimLeftLower(s[1..]);
    }
  }

  lemma {:induction false} TrimRightLower(s: string)
    ensures TrimRight(ToLower(s)) == ToLower(TrimRight(s))
    decreases |s|
  {
    if s != "" {
      LowerChars(s[|s| - 1]);
      LowerSlice(s, 0, |s| - 1);
      assert s[0..|s| - 1] == s[..|s| - 1] && ToLower(s)[0..|s| - 1] == ToLower(s)[..|s| - 1];
      TrimRightLower(s[..|s| - 1]);
    }
  }

  lemma TrimLower(s: string)
    ensures TrimSpace(ToLower(s)) == ToLower(TrimSpace(s))
  {
    TrimLeftLower(s);
    TrimRightLower(TrimLeft(s));
  }

  lemma TrimStarLower(s: string)
    ensures TrimStar(ToLower(s)) == ToLower(TrimStar(s))
  {
    StarEnds(s);
    StarEnds(ToLower(s));
    if s != "" {
      LowerChars(s[|s| - 1]);
      LowerSlice(s, 0, |s| - 1);
      assert s[0..|s| - 1] == s[..|s| - 1] && ToLower(s)[0..|s| - 1] == ToLower(s)[..|s| - 1];
    }
  }

  lemma {:induction false} BeforeLower(s: string)
    ensures Before(ToLower(s)) == ToLower(Before(s))
    decreases |s|
  {
    if s != "" {
      LowerChars(s[0]);
      LowerSlice(s, 1, |s|);
      assert s[1..|s|] == s[1..] && ToLower(s)[1..|s|] == ToLower(s)[1..];
      BeforeLower(s[1..]);
    }
  }

  lemma RootedLower(s: string)
    ensures Rooted(ToLower(s)) == ToLower(Rooted(s))
  {
    if s != "" {
      LowerChars(s[0]);
    }
  }

  lemma {:induction false} StripLower(s: string)
    ensures StripSlashes(ToLower(s)) == ToLower(StripSlashes(s))
    decreases |s|
  {
    if |s| > 1 {
      LowerChars(s[|s| - 1]);
      LowerSlice(s, 0, |s| - 1);
      assert s[0..|s| - 1] == s[..|s| - 1] && ToLower(s)[0..|s| - 1] == ToLower(s)[..|s| - 1];
      StripLower(s[..|s| - 1]);
    }
  }

  predicate LineEnder(c: char) {
    c == '\0' || c == '\n' || c == '\r'
  }

  predicate HasLineEnder(s: string) {
    exists i :: 0 <= i < |s| && LineEnder(s[i])
  }

  lemma LineEndersMean(s: string)
    ensures HasLineEnder(s) <==> '\0' in s || '\n' in s || '\r' in s
  {
    if HasLineEnder(s) {
      var i :| 0 <= i < |s| && LineEnder(s[i]);
      assert s[i] in s;
    }
  }

  lemma RefusedLower(s: string)
    ensures Refused(ToLower(s)) == Refused(s)
  {
    RefusedMeans(s);
    RefusedMeans(ToLower(s));
    LineEndersMean(s);
    LineEndersMean(ToLower(s));
    var t := ToLower(s);
    forall i | 0 <= i < |s|
      ensures EmptyAt(t, i) == EmptyAt(s, i) && DotDotAt(t, i) == DotDotAt(s, i) && LineEnder(t[i]) == LineEnder(s[i])
    {
      SameAtLower(s, i);
    }
  }

  lemma SameAtLower(s: string, i: nat)
    requires i < |s|
    ensures var t := ToLower(s);
            EmptyAt(t, i) == EmptyAt(s, i) && DotDotAt(t, i) == DotDotAt(s, i) && LineEnder(t[i]) == LineEnder(s[i])
  {
    forall j | 0 <= j < |s|
      ensures (ToLower(s)[j] == '/') == (s[j] == '/') && (ToLower(s)[j] == '.') == (s[j] == '.')
    {
      LowerChars(s[j]);
    }
    LowerChars(s[i]);
  }

  function Lowered(e: Option<string>): Option<string> {
    if e.None? then None else Some(ToLower(e.value))
  }

  lemma TrimmedLower(raw: string)
    ensures Trimmed(ToLower(raw)) == ToLower(Trimmed(raw))
  {
    TrimLower(raw);
    TrimStarLower(TrimSpace(raw));
    TrimLower(TrimStar(TrimSpace(raw)));
  }

  lemma CleanLower(raw: string)
    ensures Clean(ToLower(raw)) == Lowered(Clean(raw))
  {
    TrimmedLower(raw);
    var s := Trimmed(raw);
    BeforeLower(s);
    RootedLower(Before(s));
    RefusedLower(Rooted(Before(s)));
    StripLower(Rooted(Before(s)));
  }

  /** Entries that differ only in case come out of a pass differing only in case. */
  lemma CleanIgnoresCase(a: string, b: string)
    requires ToLower(a) == ToLower(b)
    ensures Lowered(Clean(a)) == Lowered(Clean(b))
  {
    CleanLower(a);
    CleanLower(b);
  }

  // ------------------------------------------------------------------ any number of passes

  /** What one pass makes of one entry. */
  type Cleaner = string -> Option<string>

  /** What becomes of an entry through `k` passes. */
  function Through(clean: Cleaner, raw: string, k: nat): Option<string>
    decreases k
  {
    if k == 0 then Some(raw)
    else if clean(raw).None? then None
    else Through(clean, clean(raw).value, k - 1)
  }

  function EachThrough(clean: Cleaner, paths: seq<string>, k: nat): (r: seq<Option<string>>)
    ensures |r| == |paths| && forall i :: 0 <= i < |r| ==> r[i] == Through(clean, paths[i], k)
  {
    seq(|paths|, i requires 0 <= i < |paths| => Through(clean, paths[i], k))
  }

  function ThroughAll(paths: seq<string>, k: nat): seq<Option<string>> {
    EachThrough(Clean, paths, k)
  }

  ghost predicate CaseBlind(clean: Cleaner) {
    forall a, b :: ToLower(a) == ToLower(b) ==> Lowered(clean(a)) == Lowered(clean(b))
  }

  lemma CleanIsCaseBlind()
    ensures CaseBlind(Clean)
  {
    forall a, b | ToLower(a) == ToLower(b)
      ensures Lowered(Clean(a)) == Lowered(Clean(b))
    {
      CleanIgnoresCase(a, b);
    }
  }

  lemma ThroughOnce(paths: seq<string>)
    ensures ThroughAll(paths, 1) == CleanAll(paths)
  {
    EachOnce(Clean, paths, CleanAll(paths));
  }

  lemma EachOnce(clean: Cleaner, paths: seq<string>, entries: seq<Option<string>>)
    requires |entries| == |paths| && forall i :: 0 <= i < |paths| ==> entries[i] == clean(paths[i])
    ensures EachThrough(clean, paths, 1) == entries
  {
    forall i | 0 <= i < |paths|
      ensures Through(clean, paths[i], 1) == entries[i]
    {
      assert clean(paths[i]).Some? ==> Through(clean, clean(paths[i]).value, 0) == clean(paths[i]);
    }
  }

  lemma {:induction false} ThroughIgnoresCase(clean: Cleaner, a: string, b: string, k: nat)
    requires CaseBlind(clean) && ToLower(a) == ToLower(b)
    ensures Lowered(Through(clean, a, k)) == Lowered(Through(clean, b, k))
    decreases k
  {
    if k > 0 {
      assert Lowered(clean(a)) == Lowered(clean(b));
      if clean(a).Some? {
        ThroughIgnoresCase(clean, clean(a).value, clean(b).value, k - 1);
      }
    }
  }

  lemma RootStays()
    ensures Clean("/") == Some("/")
  {
    RootIsGood();
    CleanAgain("/");
  }

  lemma {:induction false} FixedThrough(clean: Cleaner, p: string, k: nat)
    requires clean(p) == Some(p)
    ensures Through(clean, p, k) == Some(p)
    decreases k
  {
    if k > 0 {
      FixedThrough(clean, p, k - 1);
    }
  }

  lemma {:induction false} GatheredFrom(entries: seq<Option<string>>, n: nat, j: nat)
    requires n <= |entries| && Gather(entries[..n]).Going? && j < |Gather(entries[..n]).out|
    ensures exists i :: 0 <= i < n && entries[i] == Some(Gather(entries[..n]).out[j])
    decreases n
  {
    if n > 0 {
      GatherNext(entries, n - 1);
      if j < |Gather(entries[..n - 1]).out| {
        GatheredFrom(entries, n - 1, j);
      } else {
        assert entries[n - 1] == Some(Gather(entries[..n]).out[j]);
      }
    }
  }

  predicate HasLike(out: seq<string>, p: string) {
    exists j :: 0 <= j < |out| && ToLower(out[j]) == ToLower(p)
  }

  lemma HasLikeGrows(out: seq<string>, p: string, q: string)
    ensures HasLike(out, p) ==> HasLike(out + [q], p)
    ensures HasLike(out + [q], q)
  {
    var after := out + [q];
    if HasLike(out, p) {
      var j :| 0 <= j < |out| && ToLower(out[j]) == ToLower(p);
      assert after[j] == out[j];
    }
    assert after[|out|] == q;
  }

  /** Every usable entry that was read is there, up to case. */
  lemma {:induction false} GatherHasLike(entries: seq<Option<string>>, n: nat, i: nat)
    requires i < n <= |entries| && AllRead(entries) && Gather(entries[..n]).Going?
    requires entries[i].Some?
    ensures HasLike(Gather(entries[..n]).out, entries[i].value)
    decreases n
  {
    assert Reads(entries[..n - 1]);
    GatherNext(entries, n - 1);
    var before := Gather(entries[..n - 1]);
    if i < n - 1 {
      GatherHasLike(entries, n - 1, i);
      if entries[n - 1].Some? {
        HasLikeGrows(before.out, entries[i].value, entries[n - 1].value);
      }
    } else {
      HasLikeGrows(before.out, entries[i].value, entries[i].value);
    }
  }

  lemma LikeCovers(a: string, b: string, uri: string)
    requires ToLower(a) == ToLower(b)
    ensures Covers(a, uri) <==> Covers(b, uri)
  {
    assert |a| == |ToLower(a)| == |b|;
    if |a| == 1 {
      LowerChars(a[0]);
      LowerChars(b[0]);
      assert ToLower(a)[0] == ToLower(b)[0];
      assert a == [a[0]] && b == [b[0]];
    }
    if a != "/" && b != "/" {
      SameButForCase(a, b, uri);
    }
  }

  ghost predicate ComesFrom(clean: Cleaner, p: string, paths: seq<string>) {
    exists i :: 0 <= i < |paths| && clean(paths[i]) == Some(p)
  }

  /** `out` is what a pass makes of `paths`: nothing added and, up to case, nothing left out. */
  ghost predicate StandsFor(clean: Cleaner, out: seq<string>, paths: seq<string>) {
    (forall j :: 0 <= j < |out| ==> ComesFrom(clean, out[j], paths)) &&
    (forall i :: 0 <= i < |paths| && clean(paths[i]).Some? ==> HasLike(out, clean(paths[i]).value))
  }

  lemma GatheredStandsFor(paths: seq<string>, out: seq<string>)
    requires AllRead(CleanAll(paths)) && Gather(CleanAll(paths)) == Going(out)
    ensures StandsFor(Clean, out, paths)
  {
    GatheredTruly(CleanAll(paths), out);
    EntriesStandFor(Clean, CleanAll(paths), out, paths);
  }

  lemma EntriesStandFor(clean: Cleaner, entries: seq<Option<string>>, out: seq<string>, paths: seq<string>)
    requires |entries| == |paths| && forall i :: 0 <= i < |paths| ==> entries[i] == clean(paths[i])
    requires forall j :: 0 <= j < |out| ==> exists i :: 0 <= i < |entries| && entries[i] == Some(out[j])
    requires forall i :: 0 <= i < |entries| && entries[i].Some? ==> HasLike(out, entries[i].value)
    ensures StandsFor(clean, out, paths)
  {
    forall j | 0 <= j < |out|
      ensures ComesFrom(clean, out[j], paths)
    {
      var i :| 0 <= i < |entries| && entries[i] == Some(out[j]);
      assert clean(paths[i]) == Some(out[j]);
    }
    forall i | 0 <= i < |paths| && clean(paths[i]).Some?
      ensures HasLike(out, clean(paths[i]).value)
    {
      assert entries[i].Some?;
    }
  }

  lemma GatheredTruly(entries: seq<Option<string>>, out: seq<string>)
    requires AllRead(entries) && Gather(entries) == Going(out)
    ensures forall j :: 0 <= j < |out| ==> exists i :: 0 <= i < |entries| && entries[i] == Some(out[j])
    ensures forall i :: 0 <= i < |entries| && entries[i].Some? ==> HasLike(out, entries[i].value)
  {
    assert entries[..|entries|] == entries;
    forall j | 0 <= j < |out|
      ensures exists i :: 0 <= i < |entries| && entries[i] == Some(out[j])
    {
      GatheredFrom(entries, |entries|, j);
    }
    forall i | 0 <= i < |entries| && entries[i].Some?
      ensures HasLike(out, entries[i].value)
    {
      GatherHasLike(entries, |entries|, i);
    }
  }

  /** One entry of what a pass made, against an entry it stands for, through `k` passes more. */
  lemma LikeThrough(clean: Cleaner, p: string, out: string, raw: string, k: nat, uri: string)
    requires CaseBlind(clean) && clean(raw) == Some(p) && ToLower(out) == ToLower(p)
    ensures Through(clean, raw, k + 1).Some? <==> Through(clean, out, k).Some?
    ensures Through(clean, raw, k + 1).Some? ==>
              (Covers(Through(clean, raw, k + 1).value, uri) <==> Covers(Through(clean, out, k).value, uri))
  {
    ThroughIgnoresCase(clean, out, p, k);
    if Through(clean, p, k).Some? {
      LikeCovers(Through(clean, p, k).value, Through(clean, out, k).value, uri);
    }
  }

  lemma StandsForMeansSame(clean: Cleaner, paths: seq<string>, out: seq<string>, k: nat, uri: string)
    requires CaseBlind(clean) && StandsFor(clean, out, paths)
    ensures Meant(EachThrough(clean, out, k), uri) <==> Meant(EachThrough(clean, paths, k + 1), uri)
  {
    var a, b := EachThrough(clean, out, k), EachThrough(clean, paths, k + 1);
    forall j | 0 <= j < |a| && a[j].Some?
      ensures UsedIn(b, a[j].value, uri)
    {
      SourceIsUsed(clean, paths, out, k, uri, j);
    }
    forall i | 0 <= i < |b| && b[i].Some?
      ensures UsedIn(a, b[i].value, uri)
    {
      LikeIsUsed(clean, paths, out, k, uri, i);
    }
    SameUseSameMeaning(a, b, uri);
  }

  lemma SourceIsUsed(clean: Cleaner, paths: seq<string>, out: seq<string>, k: nat, uri: string, j: nat)
    requires StandsFor(clean, out, paths) && j < |out| && Through(clean, out[j], k).Some?
    ensures UsedIn(EachThrough(clean, paths, k + 1), Through(clean, out[j], k).value, uri)
  {
    assert ComesFrom(clean, out[j], paths);
    var i :| 0 <= i < |paths| && clean(paths[i]) == Some(out[j]);
    assert EachThrough(clean, paths, k + 1)[i] == Through(clean, out[j], k);
  }

  lemma LikeIsUsed(clean: Cleaner, paths: seq<string>, out: seq<string>, k: nat, uri: string, i: nat)
    requires CaseBlind(clean) && StandsFor(clean, out, paths)
    requires i < |paths| && Through(clean, paths[i], k + 1).Some?
    ensures UsedIn(EachThrough(clean, out, k), Through(clean, paths[i], k + 1).value, uri)
  {
    var p := clean(paths[i]).value;
    assert HasLike(out, p);
    var j :| 0 <= j < |out| && ToLower(out[j]) == ToLower(p);
    LikeThrough(clean, p, out[j], paths[i], k, uri);
    assert EachThrough(clean, out, k)[j] == Through(clean, out[j], k);
  }

  /** A usable entry that covers the request just when `p` does. */
  predicate UsedIn(entries: seq<Option<string>>, p: string, uri: string) {
    exists i :: 0 <= i < |entries| && entries[i].Some? && (Covers(entries[i].value, uri) <==> Covers(p, uri))
  }

  lemma SameUseSameMeaning(a: seq<Option<string>>, b: seq<Option<string>>, uri: string)
    requires forall j :: 0 <= j < |a| && a[j].Some? ==> UsedIn(b, a[j].value, uri)
    requires forall i :: 0 <= i < |b| && b[i].Some? ==> UsedIn(a, b[i].value, uri)
    ensures Meant(a, uri) <==> Meant(b, uri)
  {
  }

  lemma RootMeant(clean: Cleaner, paths: seq<string>, i: nat, k: nat, uri: string)
    requires i < |paths| && clean(paths[i]) == Some("/") && clean("/") == Some("/") && k > 0
    ensures Meant(EachThrough(clean, paths, k), uri)
  {
    FixedThrough(clean, "/", k - 1);
    assert Through(clean, paths[i], k) == Some("/");
    RootEntryAsks(EachThrough(clean, paths, k), i, uri);
  }

  lemma UnusableMeant(clean: Cleaner, paths: seq<string>, k: nat, uri: string)
    requires k > 0 && forall i :: 0 <= i < |paths| ==> clean(paths[i]).None?
    ensures Meant(EachThrough(clean, paths, k), uri)
  {
    forall i | 0 <= i < |paths|
      ensures EachThrough(clean, paths, k)[i].None?
    {
      assert clean(paths[i]).None?;
    }
  }

  /** Some entry comes to the whole site. */
  lemma WholeMeant(paths: seq<string>, k: nat, uri: string)
    requires Gather(CleanAll(paths)).Whole? && k > 0
    ensures Meant(ThroughAll(paths, k), uri)
  {
    WholeIsThere(CleanAll(paths));
    var i :| 0 <= i < |paths| && CleanAll(paths)[i] == Some("/");
    RootMeantAt(paths, i, k, uri);
  }

  lemma RootMeantAt(paths: seq<string>, i: nat, k: nat, uri: string)
    requires i < |paths| && CleanAll(paths)[i] == Some("/") && k > 0
    ensures Meant(ThroughAll(paths, k), uri)
  {
    RootStays();
    assert CleanAll(paths)[i] == Clean(paths[i]);
    RootMeant(Clean, paths, i, k, uri);
  }

  lemma RootAlone(k: nat, uri: string)
    requires k > 0
    ensures Meant(ThroughAll(["/"], k), uri)
  {
    RootStays();
    RootMeant(Clean, ["/"], 0, k, uri);
  }

  lemma NothingMeant(paths: seq<string>, k: nat, uri: string)
    requires Gather(CleanAll(paths)) == Going([]) && k > 0
    ensures Meant(ThroughAll(paths, k), uri)
  {
    NothingGathered(CleanAll(paths));
    forall i | 0 <= i < |paths|
      ensures Clean(paths[i]).None?
    {
      assert CleanAll(paths)[i].None?;
    }
    UnusableMeant(Clean, paths, k, uri);
  }

  /** What a pass made means, through `k` passes more, what it read meant through one more still. */
  lemma PassMeansSame(paths: seq<string>, k: nat, uri: string)
    requires k > 0 && AllRead(CleanAll(paths))
    ensures Meant(ThroughAll(Result(Gather(CleanAll(paths))), k), uri) <==> Meant(ThroughAll(paths, k + 1), uri)
  {
    var p := Gather(CleanAll(paths));
    if p.Going? && p.out != [] {
      GatheredStandsFor(paths, p.out);
      CleanIsCaseBlind();
      StandsForMeansSame(Clean, paths, p.out, k, uri);
    } else {
      RootAlone(k, uri);
      if p.Whole? {
        WholeMeant(paths, k + 1, uri);
      } else {
        NothingMeant(paths, k + 1, uri);
      }
    }
  }

  /** Of a list no longer than the limit all that matters is read. */
  lemma ShortMeansSame(paths: seq<string>, k: nat, uri: string)
    requires k > 0 && |paths| <= MAX_AUTH_PATHS
    ensures Meant(ThroughAll(ReadOf(paths), k), uri) <==> Meant(ThroughAll(paths, k), uri)
  {
    ShortIsRead(CleanAll(paths));
    ReadOfCleans(paths);
    if Cut(CleanAll(paths)) < |paths| {
      WholeMeant(ReadOf(paths), k, uri);
      WholeMeant(paths, k, uri);
    } else {
      assert ReadOf(paths) == paths;
    }
  }

  lemma FirstPassProtects(paths: seq<string>, uri: string)
    ensures Gated(Normalised(paths), uri) <==> InForce(paths, 1, uri)
  {
    ProtectsWhatWasAsked(paths, uri);
    ThroughOnce(ReadOf(paths));
  }

  lemma OnePassFewer(paths: seq<string>, next: seq<string>, k: nat, uri: string)
    requires k > 0 && next == Normalised(paths)
    ensures InForce(next, k, uri) <==> InForce(paths, k + 1, uri)
  {
    ResultShape(paths);
    ShortMeansSame(next, k, uri);
    ReadOfCleans(paths);
    PassMeansSame(ReadOf(paths), k, uri);
  }

  /** Peeling passes off one at a time. */
  lemma {:induction false} Peel<T(!new)>(pass: T -> T, now: T -> bool, after: (T, nat) -> bool, x: T, k: nat)
    requires k > 0 && forall y :: now(pass(y)) == after(y, 1)
    requires forall y, j: nat :: j > 0 ==> after(pass(y), j) == after(y, j + 1)
    ensures now(Repeat(pass, x, k)) == after(x, k)
    decreases k
  {
    if k == 1 {
      assert Repeat(pass, pass(x), 0) == pass(x);
    } else {
      Peel(pass, now, after, pass(x), k - 1);
    }
  }

  /** The request is not exempt, and one of the entries that the first pass reads covers it in what
      `k` passes leave of that entry, or they leave nothing of any. */
  predicate InForce(paths: seq<string>, k: nat, uri: string) {
    !Exempt(uri) && Meant(ThroughAll(ReadOf(paths), k), uri)
  }

  /** What is in force after any number of passes, for every list, cut or not: exactly that. Only the
      first pass can cut a list, and an entry it does not read protects nothing. */
  lemma PassesProtect(paths: seq<string>, k: nat, uri: string)
    requires k > 0
    ensures Gated(Pass(paths, k), uri) <==> InForce(paths, k, uri)
  {
    forall y: seq<string>
      ensures Gated(Normalised(y), uri) == InForce(y, 1, uri)
    {
      FirstPassProtects(y, uri);
    }
    forall y: seq<string>, j: nat | j > 0
      ensures InForce(Normalised(y), j, uri) == InForce(y, j + 1, uri)
    {
      OnePassFewer(y, Normalised(y), j, uri);
    }
    Peel(Normalised, y => Gated(y, uri), (y, j) => InForce(y, j, uri), paths, k);
  }

  /** From typing to publishing a list is passed four times: when the site is validated, when it is
      stored, when its row is read back and when it is published. */
  lemma PublishedProtects(typed: seq<string>, passes: nat, uri: string)
    requires passes == 4
    ensures Gated(Pass(typed, passes), uri) <==> InForce(typed, passes, uri)
  {
    PassesProtect(typed, passes, uri);
  }

  /** A row as it stands in the table has two of those ahead of it. */
  lemma RowProtects(row: seq<string>, passes: nat, uri: string)
    requires passes == 2
    ensures Gated(Pass(row, passes), uri) <==> InForce(row, passes, uri)
  {
    PassesProtect(row, passes, uri);
  }
}
