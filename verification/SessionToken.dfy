/** sitelogin.go, signSession, and auth.lua, verify: the signed session cookie of the login gate. */
module SessionToken {
  predicate IsDigit(c: char) {
    '0' <= c <= '9'
  }

  predicate Digits(s: string) {
    s != "" && forall i :: 0 <= i < |s| ==> IsDigit(s[i])
  }

  /** %d of a number that is not negative. */
  function Dec(n: nat): (s: string)
    ensures Digits(s)
  {
    if n < 10 then [Digit(n)] else Dec(n / 10) + [Digit(n % 10)]
  }

  function Digit(d: nat): (c: char)
    requires d < 10
    ensures IsDigit(c) && c as int - '0' as int == d
  {
    '0' + d as char
  }

  /** tonumber of digits. */
  function Number(s: string): nat
    requires forall i :: 0 <= i < |s| ==> IsDigit(s[i])
  {
    if s == "" then 0
    else
      assert IsDigit(s[|s| - 1]);
      Number(s[..|s| - 1]) * 10 + (s[|s| - 1] as int - '0' as int)
  }

  lemma {:induction false} NumberOfDec(n: nat)
    ensures Number(Dec(n)) == n
    decreases n
  {
    var s := Dec(n);
    if n >= 10 {
      NumberOfDec(n / 10);
      assert s[..|s| - 1] == Dec(n / 10);
    } else {
      assert s[..0] == "";
    }
  }

  lemma DecInjective(a: nat, b: nat)
    ensures Dec(a) == Dec(b) ==> a == b
  {
    NumberOfDec(a);
    NumberOfDec(b);
  }

  // ------------------------------------------------------------- what is signed

  function Payload(site: string, user: string, gen: string, exp: string): string {
    site + "|" + user + "|" + gen + "|" + exp
  }

  lemma LastBar(a: string, x: string, b: string, y: string)
    requires '|' !in x && '|' !in y && a + "|" + x == b + "|" + y
    ensures a == b && x == y
  {
    var s := a + "|" + x;
    if |x| < |y| {
      BarInside(a, x, b, y);
    } else if |y| < |x| {
      BarInside(b, y, a, x);
    } else {
      assert x == s[|s| - |x|..] == y;
      assert a == s[..|a|] == b;
    }
  }

  lemma BarInside(a: string, x: string, b: string, y: string)
    requires a + "|" + x == b + "|" + y && |x| < |y|
    ensures '|' in y
  {
    var s := a + "|" + x;
    assert s[|a|] == '|';
    assert s[|a|] == y[|a| - |b| - 1];
  }

  lemma NoBar(s: string)
    requires Digits(s)
    ensures '|' !in s
  {
  }

  /** The signed text says one thing only: whatever the site ids contain, two sets of fields that
      sign alike are the same. */
  lemma PayloadInjective(site: string, user: string, gen: string, exp: string,
                         site': string, user': string, gen': string, exp': string)
    requires Digits(user) && Digits(gen) && Digits(exp) && Digits(user') && Digits(gen') && Digits(exp')
    requires Payload(site, user, gen, exp) == Payload(site', user', gen', exp')
    ensures site == site' && user == user' && gen == gen' && exp == exp'
  {
    NoBar(exp);
    NoBar(exp');
    LastBar(site + "|" + user + "|" + gen, exp, site' + "|" + user' + "|" + gen', exp');
    NoBar(gen);
    NoBar(gen');
    LastBar(site + "|" + user, gen, site' + "|" + user', gen');
    NoBar(user);
    NoBar(user');
    LastBar(site, user, site', user');
  }

  // ---------------------------------------------------------- signing and verifying

  datatype Cookie = Cookie(user: string, gen: string, exp: string, sig: string)

  /** The keyed hash, as a function of the text alone: one secret signs every site. */
  type Tag = string -> string

  ghost predicate Unforgeable(tag: Tag) {
    forall a, b :: tag(a) == tag(b) ==> a == b
  }

  function SignSession(tag: Tag, site: string, user: nat, gen: nat, exp: nat): Cookie {
    Cookie(Dec(user), Dec(gen), Dec(exp), tag(Payload(site, Dec(user), Dec(gen), Dec(exp))))
  }

  datatype Answer = User(id: string) | Malformed | Expired | BadSignature | NoSuchUser | Revoked

  /** verify, once a secret and a cookie are there: `site` is the site being served and `users` the
      accounts published for it. */
  function Verify(tag: Tag, site: string, c: Cookie, users: map<string, nat>, now: nat): Answer {
    if !Digits(c.user) || !Digits(c.gen) || !Digits(c.exp) then Malformed
    else if Number(c.exp) <= now then Expired
    else if c.sig != tag(Payload(site, c.user, c.gen, c.exp)) then BadSignature
    else if c.user !in users then NoSuchUser
    else if Dec(users[c.user]) != c.gen then Revoked
    else User(c.user)
  }

  /** The accounts of one site as published: numbers become the keys of a JSON object. */
  ghost predicate Lists(users: map<string, nat>, accounts: map<nat, nat>) {
    (forall u :: u in accounts ==> Dec(u) in users && users[Dec(u)] == accounts[u]) &&
    (forall s :: s in users ==> exists u :: u in accounts && s == Dec(u))
  }

  /** A session is good on the one site it was signed for, until it expires, while the account exists
      and is on the generation it was signed with - and nowhere and never else. */
  lemma SessionGoodIff(tag: Tag, site: string, user: nat, gen: nat, exp: nat,
                       served: string, users: map<string, nat>, accounts: map<nat, nat>, now: nat)
    requires Unforgeable(tag) && Lists(users, accounts)
    ensures Verify(tag, served, SignSession(tag, site, user, gen, exp), users, now).User? <==>
            served == site && now < exp && user in accounts && accounts[user] == gen
    ensures Verify(tag, served, SignSession(tag, site, user, gen, exp), users, now) ==
            if exp <= now then Expired
            else if served != site then BadSignature
            else if user !in accounts then NoSuchUser
            else if accounts[user] != gen then Revoked
            else User(Dec(user))
  {
    var c := SignSession(tag, site, user, gen, exp);
    NumberOfDec(exp);
    if c.sig == tag(Payload(served, c.user, c.gen, c.exp)) {
      PayloadInjective(site, c.user, c.gen, c.exp, served, c.user, c.gen, c.exp);
    }
    if Dec(user) in users {
      var u :| u in accounts && Dec(user) == Dec(u);
      DecInjective(user, u);
      DecInjective(users[Dec(user)], gen);
    }
  }

  /** A cookie altered in any field the signature covers is refused, whatever else is published. */
  lemma AlteredIsRefused(tag: Tag, site: string, user: nat, gen: nat, exp: nat, c: Cookie,
                         served: string, users: map<string, nat>, now: nat)
    requires Unforgeable(tag) && c.sig == SignSession(tag, site, user, gen, exp).sig
    requires (served, c.user, c.gen, c.exp) != (site, Dec(user), Dec(gen), Dec(exp))
    ensures !Verify(tag, served, c, users, now).User?
  {
    if Digits(c.user) && Digits(c.gen) && Digits(c.exp) && c.sig == tag(Payload(served, c.user, c.gen, c.exp)) {
      PayloadInjective(site, Dec(user), Dec(gen), Dec(exp), served, c.user, c.gen, c.exp);
    }
  }
}
