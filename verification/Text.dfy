/** Strings as Go's strings package treats them, for ASCII. */
module Text {

  predicate IsSpace(c: char) {
    c == ' ' || 9 as char <= c <= 13 as char || c == 0x85 as char || c == 0xA0 as char
  }

  function TrimLeft(s: string): (r: string)
    ensures |r| <= |s| && r == s[|s| - |r|..]
    ensures r != [] ==> !IsSpace(r[0])
    ensures forall i :: 0 <= i < |s| - |r| ==> IsSpace(s[i])
  {
    if s != [] && IsSpace(s[0]) then TrimLeft(s[1..]) else s
  }

  function TrimRight(s: string): (r: string)
    ensures |r| <= |s| && r == s[..|r|]
    ensures r != [] ==> !IsSpace(r[|r| - 1])
    ensures forall i :: |r| <= i < |s| ==> IsSpace(s[i])
  {
    if s != [] && IsSpace(s[|s| - 1]) then TrimRight(s[..|s| - 1]) else s
  }

  function TrimSpace(s: string): (r: string)
    ensures |r| <= |s|
    ensures r != [] ==> !IsSpace(r[0]) && !IsSpace(r[|r| - 1])
    ensures s != [] && !IsSpace(s[0]) && !IsSpace(s[|s| - 1]) ==> r == s
  {
    TrimRight(TrimLeft(s))
  }

  /** The blanks, by their codes: tab to carriage return, the space, and two more beyond ASCII. */
  predicate BlankCode(n: int) {
    n == 32 || 9 <= n <= 13 || n == 133 || n == 160
  }

  ghost predicate AllBlank(s: string) {
    forall i :: 0 <= i < |s| ==> BlankCode(s[i] as int)
  }

  /** The part of a text between its outer blanks. */
  ghost predicate Core(s: string, a: int, b: int) {
    0 <= a <= b <= |s| &&
    (forall i :: 0 <= i < a ==> BlankCode(s[i] as int)) &&
    (forall i :: b <= i < |s| ==> BlankCode(s[i] as int)) &&
    (a < b ==> !BlankCode(s[a] as int) && !BlankCode(s[b - 1] as int))
  }

  ghost predicate LeftCut(s: string, left: string) {
    |left| <= |s| && left == s[|s| - |left|..] &&
    (forall i :: 0 <= i < |s| - |left| ==> BlankCode(s[i] as int)) && (left != "" ==> !BlankCode(left[0] as int))
  }

  ghost predicate RightCut(s: string, core: string) {
    |core| <= |s| && core == s[..|core|] &&
    (forall i :: |core| <= i < |s| ==> BlankCode(s[i] as int)) && (core != "" ==> !BlankCode(core[|core| - 1] as int))
  }

  lemma LeftEdge(s: string)
    ensures LeftCut(s, TrimLeft(s))
  {
  }

  lemma RightEdge(s: string)
    ensures RightCut(s, TrimRight(s))
  {
  }

  lemma CutsAreCore(s: string, left: string, core: string, a: nat, b: nat)
    requires LeftCut(s, left) && RightCut(left, core) && a == |s| - |left| && b == a + |core|
    ensures Core(s, a, b) && core == s[a..b]
  {
    assert forall i :: a <= i < |s| ==> s[i] == left[i - a];
    if core != "" {
      assert core[0] == left[0] == s[a] && core[|core| - 1] == left[|core| - 1] == s[b - 1];
    }
  }

  /** What trimming leaves is the part between the outer blanks. */
  lemma TrimSpaceWhere(s: string) returns (a: nat, b: nat)
    ensures Core(s, a, b) && TrimSpace(s) == s[a..b]
  {
    var left, core := TrimLeft(s), TrimSpace(s);
    LeftEdge(s);
    RightEdge(left);
    a := |s| - |left|;
    b := a + |core|;
    CutsAreCore(s, left, core, a, b);
  }

  lemma OneCore(s: string, a: int, b: int, c: int, d: int)
    requires Core(s, a, b) && Core(s, c, d)
    ensures s[a..b] == s[c..d]
  {
    assert a < b ==> !BlankCode(s[a] as int) && !BlankCode(s[b - 1] as int);
    assert c < d ==> !BlankCode(s[c] as int) && !BlankCode(s[d - 1] as int);
    assert a < b <==> c < d;
    assert a < b ==> a == c && b == d;
  }

  /** And there is only one such part. */
  lemma TrimSpaceAt(s: string, a: int, b: int)
    requires Core(s, a, b)
    ensures TrimSpace(s) == s[a..b]
  {
    var c, d := TrimSpaceWhere(s);
    OneCore(s, a, b, c, d);
  }

  /** Trimming takes off the blanks at both ends and nothing else. */
  lemma TrimSpaceIs(pre: string, mid: string, post: string)
    requires AllBlank(pre) && AllBlank(post)
    requires mid != "" ==> !BlankCode(mid[0] as int) && !BlankCode(mid[|mid| - 1] as int)
    ensures TrimSpace(pre + mid + post) == mid
  {
    var s, a := pre + mid + post, |pre|;
    assert Core(s, a, a + |mid|) && s[a..a + |mid|] == mid;
    TrimSpaceAt(s, a, a + |mid|);
  }

  function UpperChar(c: char): char {
    if 'a' <= c <= 'z' then c - 32 as char else c
  }

  function LowerChar(c: char): char {
    if 'A' <= c <= 'Z' then c + 32 as char else c
  }

  function ToUpper(s: string): (r: string)
    ensures |r| == |s| && forall i :: 0 <= i < |s| ==> r[i] == UpperChar(s[i])
    ensures forall i :: 0 <= i < |s| ==> r[i] as int == s[i] as int - if 97 <= s[i] as int <= 122 then 32 else 0
  {
    seq(|s|, i requires 0 <= i < |s| => UpperChar(s[i]))
  }

  function ToLower(s: string): (r: string)
    ensures |r| == |s| && forall i :: 0 <= i < |s| ==> r[i] == LowerChar(s[i])
    ensures forall i :: 0 <= i < |s| ==> r[i] as int == s[i] as int + if 65 <= s[i] as int <= 90 then 32 else 0
  {
    seq(|s|, i requires 0 <= i < |s| => LowerChar(s[i]))
  }

  /** strings.IndexByte: the first position of `c`, or -1. */
  function IndexOf(s: string, c: char): (r: int)
    ensures -1 <= r < |s|
    ensures r >= 0 ==> s[r] == c && forall i :: 0 <= i < r ==> s[i] != c
    ensures r < 0 ==> c !in s
  {
    if s == [] then -1
    else if s[0] == c then 0
    else
      var r := IndexOf(s[1..], c);
      if r < 0 then -1 else r + 1
  }

  // ------------------------------------------------------- byte-wise order

  predicate LexLess(a: string, b: string) {
    b != [] && (a == [] || a[0] < b[0] || (a[0] == b[0] && LexLess(a[1..], b[1..])))
  }

  predicate LexLe(a: string, b: string) {
    !LexLess(b, a)
  }

  lemma {:induction false} LexTotal(a: string, b: string)
    ensures LexLess(a, b) || a == b || LexLess(b, a)
    ensures !(LexLess(a, b) && LexLess(b, a))
    ensures !LexLess(a, a)
  {
    if a != [] && b != [] && a[0] == b[0] {
      LexTotal(a[1..], b[1..]);
      assert a == [a[0]] + a[1..] && b == [b[0]] + b[1..];
    }
    if a != [] {
      LexTotal(a[1..], a[1..]);
    }
  }

  lemma {:induction false} LexTransitive(a: string, b: string, c: string)
    ensures LexLess(a, b) && LexLess(b, c) ==> LexLess(a, c)
  {
    if a != [] && b != [] && c != [] {
      LexTransitive(a[1..], b[1..], c[1..]);
    }
  }

  lemma LexLeTransitive(a: string, b: string, c: string)
    ensures LexLe(a, b) && LexLe(b, c) ==> LexLe(a, c)
  {
    LexTotal(a, b);
    LexTotal(b, c);
    LexTransitive(c, a, b);
    LexTransitive(c, b, a);
    LexTransitive(b, c, a);
  }

  // ------------------------------------------------------------- sort.Strings

  predicate Sorted(ss: seq<string>) {
    forall i, j :: 0 <= i < j < |ss| ==> LexLe(ss[i], ss[j])
  }

  function Insert(s: string, ss: seq<string>): (r: seq<string>)
    ensures multiset(r) == multiset(ss) + multiset{s}
  {
    if ss == [] || LexLe(s, ss[0]) then
      assert ss == [] || multiset([s] + ss) == multiset{s} + multiset(ss);
      [s] + ss
    else
      assert ss == [ss[0]] + ss[1..];
      [ss[0]] + Insert(s, ss[1..])
  }

  function SortStrings(ss: seq<string>): (r: seq<string>)
    ensures multiset(r) == multiset(ss)
  {
    if ss == [] then []
    else
      assert ss == [ss[0]] + ss[1..];
      Insert(ss[0], SortStrings(ss[1..]))
  }

  lemma {:induction false} InsertSorted(s: string, ss: seq<string>)
    requires Sorted(ss)
    ensures Sorted(Insert(s, ss))
  {
    if ss == [] {
    } else if LexLe(s, ss[0]) {
      forall j | 0 <= j < |ss|
        ensures LexLe(s, ss[j])
      {
        LexLeTransitive(s, ss[0], ss[j]);
      }
    } else {
      InsertSorted(s, ss[1..]);
      var rest := Insert(s, ss[1..]);
      forall j | 0 <= j < |rest|
        ensures LexLe(ss[0], rest[j])
      {
        assert rest[j] in multiset(rest);
        LexTotal(s, ss[0]);
        if rest[j] != s {
          assert rest[j] in ss[1..];
        }
      }
    }
  }

  lemma {:induction false} SortStringsSorted(ss: seq<string>)
    ensures Sorted(SortStrings(ss))
  {
    if ss != [] {
      SortStringsSorted(ss[1..]);
      InsertSorted(ss[0], SortStrings(ss[1..]));
    }
  }

  lemma SortedHeads(a: seq<string>, b: seq<string>)
    requires Sorted(a) && Sorted(b) && multiset(a) == multiset(b) && a != [] && b != []
    ensures a[0] == b[0]
  {
    assert a[0] in multiset(b) && b[0] in multiset(a);
    var i :| 0 <= i < |a| && a[i] == b[0];
    var j :| 0 <= j < |b| && b[j] == a[0];
    LexTotal(a[0], b[0]);
  }

  lemma TailMultiset(a: seq<string>)
    requires a != []
    ensures multiset(a[1..]) == multiset(a) - multiset{a[0]}
  {
    assert a == [a[0]] + a[1..];
  }

  /** There is only one way to put the same strings in order. */
  lemma {:induction false} SortedUnique(a: seq<string>, b: seq<string>)
    requires Sorted(a) && Sorted(b) && multiset(a) == multiset(b)
    ensures a == b
    decreases |a|
  {
    assert |a| == |multiset(a)| && |b| == |multiset(b)|;
    if a != [] {
      SortedHeads(a, b);
      TailMultiset(a);
      TailMultiset(b);
      SortedUnique(a[1..], b[1..]);
      assert a == [a[0]] + a[1..] && b == [b[0]] + b[1..];
    }
  }

  function Join(ss: seq<string>, sep: string): string {
    if ss == [] then "" else if |ss| == 1 then ss[0] else ss[0] + sep + Join(ss[1..], sep)
  }
}
