/**
  Usernames for the users left without one (migration 0075): a cleaned local part, cut to 64
  characters, with a number behind it when the name is taken.
 */
module Usernames {
  import opened Wrappers
  import opened Text

  const LONGEST: nat := 64

  // --- The cleaned name -------------------------------------------------------------------

  predicate IsAlphanumeric(c: char) {
    'a' <= c <= 'z' || IsDigit(c)
  }

  predicate Allowed(c: char) {
    IsAlphanumeric(c) || c == '.' || c == '_' || c == '-'
  }

  predicate AllAllowed(s: string) {
    forall i | 0 <= i < |s| :: Allowed(s[i])
  }

  predicate IsName(s: string) {
    0 < |s| <= LONGEST && AllAllowed(s) && IsAlphanumeric(s[0])
  }

  /** `email.split("@", 1)[0]` */
  function LocalPart(email: string): string {
    if email == "" || email[0] == '@' then "" else [email[0]] + LocalPart(email[1..])
  }

  function Dashed(s: string): (r: string)
    ensures |r| == |s| && forall i | 0 <= i < |s| :: r[i] == if Allowed(s[i]) then s[i] else '-'
  {
    seq(|s|, i requires 0 <= i < |s| => if Allowed(s[i]) then s[i] else '-')
  }

  /** `s.strip(".-")` */
  function Trimmed(s: string): (r: string)
    ensures AllAllowed(s) ==> AllAllowed(r)
    ensures r != "" ==> r[0] !in ".-" && r[|r| - 1] !in ".-"
  {
    if s != "" && s[0] in ".-" then Trimmed(s[1..])
    else if s != "" && s[|s| - 1] in ".-" then Trimmed(s[..|s| - 1])
    else s
  }

  function Cleaned(lower: string -> string, email: Option<string>): (r: string)
    ensures r != "" && AllAllowed(r) && IsAlphanumeric(r[0])
  {
    var base := Dashed(lower(LocalPart(if email.Some? then email.value else "")));
    var name := if Trimmed(base) == "" then "user" else Trimmed(base);
    if IsAlphanumeric(name[0]) then name else "u-" + name
  }

  /** The characters of a name. */
  lemma AllowedIff(c: char)
    ensures Allowed(c) <==> c in "abcdefghijklmnopqrstuvwxyz" || c in "0123456789" || c in "._-"
    ensures IsAlphanumeric(c) <==> c in "abcdefghijklmnopqrstuvwxyz" || c in "0123456789"
  {
    var letters := "abcdefghijklmnopqrstuvwxyz";
    assert forall i | 0 <= i < 26 :: letters[i] == 'a' + i as char;
    if 'a' <= c <= 'z' { assert letters[c as int - 'a' as int] == c; }
    var digits := "0123456789";
    assert forall i | 0 <= i < 10 :: digits[i] == '0' + i as char;
    if '0' <= c <= '9' { assert digits[c as int - '0' as int] == c; }
  }

  /** An address is cut at its first `@`, if it has one. */
  lemma {:induction false} LocalPartIs(local: string, domain: string)
    requires forall i | 0 <= i < |local| :: local[i] != '@'
    ensures LocalPart(local + "@" + domain) == local && LocalPart(local) == local
  {
    if local != "" {
      assert (local + "@" + domain)[1..] == local[1..] + "@" + domain;
      LocalPartIs(local[1..], domain);
    }
  }

  predicate AllStripped(s: string) {
    forall i | 0 <= i < |s| :: s[i] == '.' || s[i] == '-'
  }

  /** It starts and ends with something else. */
  predicate IsTidy(s: string) {
    s != "" ==> s[0] != '.' && s[0] != '-' && s[|s| - 1] != '.' && s[|s| - 1] != '-'
  }

  lemma {:induction false} FrontComesOff(a: string, rest: string)
    requires AllStripped(a)
    ensures Trimmed(a + rest) == Trimmed(rest)
  {
    if a == "" {
      assert a + rest == rest;
    } else {
      assert (a + rest)[1..] == a[1..] + rest;
      FrontComesOff(a[1..], rest);
    }
  }

  lemma {:induction false} BackComesOff(mid: string, b: string)
    requires AllStripped(b) && IsTidy(mid) && mid != ""
    ensures Trimmed(mid + b) == mid
  {
    if b == "" {
      assert mid + b == mid;
    } else {
      assert (mid + b)[..|mid + b| - 1] == mid + b[..|b| - 1];
      BackComesOff(mid, b[..|b| - 1]);
    }
  }

  /** `strip` takes the dots and dashes off both ends and nothing else. */
  lemma TrimmedIs(a: string, mid: string, b: string)
    requires AllStripped(a) && AllStripped(b) && IsTidy(mid)
    ensures Trimmed(a + mid + b) == mid
  {
    if mid == "" {
      assert a + mid + b == (a + b) + "";
      FrontComesOff(a + b, "");
    } else {
      assert a + mid + b == a + (mid + b);
      FrontComesOff(a, mid + b);
      BackComesOff(mid, b);
    }
  }

  /** The lower-cased local part, with dashes for what is not allowed, stripped; an underscore gets a letter in front. */
  lemma CleanedIs(lower: string -> string, local: string, domain: string, a: string, mid: string, b: string)
    requires forall i | 0 <= i < |local| :: local[i] != '@'
    requires AllStripped(a) && AllStripped(b) && IsTidy(mid) && |a + mid + b| == |lower(local)|
    requires forall i | 0 <= i < |lower(local)| :: (a + mid + b)[i] == if Allowed(lower(local)[i]) then lower(local)[i] else '-'
    ensures var name := if mid == "" then "user" else if mid[0] == '_' then "u-" + mid else mid;
            && Cleaned(lower, Some(local + "@" + domain)) == name && Cleaned(lower, Some(local)) == name
            && (local == "" ==> Cleaned(lower, None) == name)
  {
    LocalPartIs(local, domain);
    assert Dashed(lower(local)) == a + mid + b;
    TrimmedIs(a, mid, b);
    if mid != "" { FirstIsAllowed(lower(local), a, mid, b); }
  }

  lemma FirstIsAllowed(s: string, a: string, mid: string, b: string)
    requires mid != "" && IsTidy(mid) && Dashed(s) == a + mid + b
    ensures IsAlphanumeric(mid[0]) <==> mid[0] != '_'
  {
    assert Dashed(s)[|a|] == mid[0];
    assert Allowed(mid[0]);
  }

  // --- Candidates -------------------------------------------------------------------------

  /** `s[:k]`, which counts a negative `k` from the end. */
  function Take(s: string, k: int): (r: string)
    ensures r <= s && (k >= 0 ==> |r| <= k)
  {
    if k >= |s| then s else if k >= 0 then s[..k] else if |s| + k >= 0 then s[..|s| + k] else ""
  }

  function Suffixed(cleaned: string, n: nat): string {
    Take(cleaned, LONGEST - |"-" + Digits(n)|) + ("-" + Digits(n))
  }

  /** The `k`-th name tried: the cut name itself, then those numbered from 2. */
  function Attempt(cleaned: string, k: nat): string {
    if k == 0 then Take(cleaned, LONGEST) else Suffixed(cleaned, k + 1)
  }

  predicate NoDash(s: string) {
    forall i | 0 <= i < |s| :: s[i] != '-'
  }

  /** What follows the last dash is determined by the whole. */
  lemma LastDash(a: string, d: string, b: string, e: string)
    requires a + ("-" + d) == b + ("-" + e) && NoDash(d) && NoDash(e)
    ensures d == e
  {
    var s, t := a + ("-" + d), b + ("-" + e);
    assert s[|a|] == '-' && forall i | |a| < i < |s| :: s[i] == d[i - |a| - 1] != '-';
    assert t[|b|] == '-' && forall i | |b| < i < |t| :: t[i] == e[i - |b| - 1] != '-';
    assert |a| == |b|;
    assert s[|a| + 1..] == d && t[|b| + 1..] == e;
  }

  /** Numbered names of one user never coincide, however the name in front is cut. */
  lemma SuffixedIsInjective(cleaned: string, m: nat, n: nat)
    requires Suffixed(cleaned, m) == Suffixed(cleaned, n)
    ensures m == n
  {
    LastDash(Take(cleaned, LONGEST - |"-" + Digits(m)|), Digits(m), Take(cleaned, LONGEST - |"-" + Digits(n)|), Digits(n));
    ValueOfDigits(m);
    ValueOfDigits(n);
  }

  /** A numbered name is well formed exactly when its number leaves room for one character. */
  lemma SuffixedIsNameIff(cleaned: string, n: nat)
    requires cleaned != "" && AllAllowed(cleaned) && IsAlphanumeric(cleaned[0])
    ensures IsName(Suffixed(cleaned, n)) <==> |Digits(n)| <= 62
  {
    var suffix := "-" + Digits(n);
    var front := Take(cleaned, LONGEST - |suffix|);
    var s := Suffixed(cleaned, n);
    assert s == front + suffix && suffix[0] == '-';
    if |Digits(n)| <= 62 {
      assert s[0] == cleaned[0];
      forall i | 0 <= i < |s| ensures Allowed(s[i]) {
        if i >= |front| { assert s[i] == suffix[i - |front|]; }
      }
    } else if |Digits(n)| == 63 {
      assert front == "" && s[0] == '-';
    }
  }

  lemma AttemptIsName(cleaned: string, k: nat)
    requires cleaned != "" && AllAllowed(cleaned) && IsAlphanumeric(cleaned[0])
    requires k + 1 < Pow10(62)
    ensures IsName(Attempt(cleaned, k))
  {
    if k > 0 {
      DigitsAreShort(k + 1, 62);
      SuffixedIsNameIff(cleaned, k + 1);
    }
  }

  // --- The search -------------------------------------------------------------------------

  ghost function Tried(cleaned: string, k: nat): set<string> {
    set i | 1 <= i < k :: Attempt(cleaned, i)
  }

  lemma {:induction false} TriedGrows(cleaned: string, k: nat)
    requires k > 0
    ensures |Tried(cleaned, k)| == k - 1
  {
    if k > 1 {
      TriedGrows(cleaned, k - 1);
      var last := Attempt(cleaned, k - 1);
      assert last !in Tried(cleaned, k - 1) by {
        forall i | 1 <= i < k - 1 ensures Attempt(cleaned, i) != last {
          if Attempt(cleaned, i) == last { SuffixedIsInjective(cleaned, i + 1, k); }
        }
      }
      assert Tried(cleaned, k) == Tried(cleaned, k - 1) + {last};
    } else {
      assert Tried(cleaned, k) == {};
    }
  }

  /** If the numbered attempts before the `k`-th are all taken there are at least that many names. */
  lemma Pigeonhole(cleaned: string, k: nat, taken: set<string>)
    requires k > 0 && Tried(cleaned, k) <= taken
    ensures k - 1 <= |taken|
  {
    TriedGrows(cleaned, k);
    SubsetSize(Tried(cleaned, k), taken);
  }

  /** The first attempt that is not taken. */
  ghost predicate IsFirstFree(cleaned: string, taken: set<string>, name: string, k: nat) {
    && name == Attempt(cleaned, k) && name !in taken
    && forall i | 0 <= i < k :: Attempt(cleaned, i) in taken
  }

  /** The search ends for every set of taken names. */
  method FreeName(cleaned: string, taken: set<string>) returns (candidate: string)
    ensures exists k: nat :: k <= |taken| + 1 && IsFirstFree(cleaned, taken, candidate, k)
  {
    candidate := Take(cleaned, LONGEST);
    var n := 2;
    ghost var k: nat := 0;
    while candidate in taken
      invariant n == k + 2 && candidate == Attempt(cleaned, k)
      invariant forall i | 0 <= i < k :: Attempt(cleaned, i) in taken
      invariant k <= |taken| + 1
      decreases |taken| + 1 - k
    {
      assert Tried(cleaned, k + 1) <= taken;
      Pigeonhole(cleaned, k + 1, taken);
      var suffix := "-" + Digits(n);
      candidate := Take(cleaned, LONGEST - |suffix|) + suffix;
      n := n + 1;
      k := k + 1;
    }
    if k > 0 {
      assert Tried(cleaned, k) <= taken;
      Pigeonhole(cleaned, k, taken);
    }
    assert IsFirstFree(cleaned, taken, candidate, k);
  }

  // --- The table --------------------------------------------------------------------------

  datatype User = User(email: Option<string>, username: Option<string>)

  function Names(users: map<nat, User>): set<string> {
    set u | u in users && users[u].username.Some? :: users[u].username.value
  }

  /** The users without a name, in the order the query returns them. */
  ghost predicate AreLeftovers(users: map<nat, User>, ids: seq<nat>) {
    && (forall i | 0 <= i < |ids| :: ids[i] in users)
    && (forall i, j | 0 <= i < j < |ids| :: ids[i] != ids[j])
    && (forall u | u in users :: u in ids <==> users[u].username.None?)
  }

  ghost predicate NamesAreUnique(users: map<nat, User>) {
    forall u, v | u in users && v in users && u != v && users[u].username.Some? :: users[u].username != users[v].username
  }

  /** `name` is the first attempt at the cleaned address that is not among the names of others. */
  ghost predicate Earned(cleaned: string, name: string, names: set<string>) {
    exists k: nat :: name == Attempt(cleaned, k) && forall i | 0 <= i < k :: Attempt(cleaned, i) in names
  }

  ghost predicate NamedFor(lower: string -> string, users: map<nat, User>, u: nat) {
    u in users && users[u].username.Some? && Earned(Cleaned(lower, users[u].email), users[u].username.value, Names(users))
  }

  /** Names were added for `ids` alone: each of them new, its own, and the one its address calls for. */
  ghost predicate NamesAdded(lower: string -> string, was: map<nat, User>, now: map<nat, User>, ids: seq<nat>) {
    && now.Keys == was.Keys
    && (forall u | u in was && u !in ids :: now[u] == was[u])
    && (forall u | u in ids :: NamedFor(lower, now, u) && u in was && now[u].email == was[u].email)
    && (forall u | u in ids :: u in now && now[u].username.Some? && now[u].username.value !in Names(was))
    && NamesApart(now, ids)
  }

  ghost predicate NamesApart(users: map<nat, User>, ids: seq<nat>) {
    forall u, v | u in ids && v in ids && u != v :: u in users && v in users && users[u].username != users[v].username
  }

  /** The search gives every one of `ids` a well-formed name. */
  ghost predicate WellNamed(users: map<nat, User>, ids: seq<nat>) {
    forall u | u in ids :: u in users && users[u].username.Some? && IsName(users[u].username.value)
  }

  /** Few enough users that their numbers leave room for a name. */
  ghost predicate Roomy(users: map<nat, User>, ids: seq<nat>) {
    |Names(users)| + |ids| + 1 < Pow10(62)
  }

  lemma NamesGrow(users: map<nat, User>, u: nat, name: string)
    requires u in users && users[u].username.None?
    ensures Names(users[u := users[u].(username := Some(name))]) == Names(users) + {name}
  {
    var next := users[u := users[u].(username := Some(name))];
    assert u in next && next[u].username == Some(name);
    forall x | x in Names(users) ensures x in Names(next) {
      var v :| v in users && users[v].username.Some? && users[v].username.value == x;
      assert v in next && next[v] == users[v];
    }
  }

  lemma EarnedStays(cleaned: string, name: string, names: set<string>, more: set<string>)
    requires Earned(cleaned, name, names) && names <= more
    ensures Earned(cleaned, name, more)
  {
    var k: nat :| name == Attempt(cleaned, k) && forall i | 0 <= i < k :: Attempt(cleaned, i) in names;
  }

  lemma OldNamesStay(lower: string -> string, was: map<nat, User>, now: map<nat, User>, ids: seq<nat>)
    requires NamesAdded(lower, was, now, ids) && forall u | u in ids :: u in was && was[u].username.None?
    ensures Names(was) <= Names(now)
  {
    forall x | x in Names(was) ensures x in Names(now) {
      var v :| v in was && was[v].username.Some? && was[v].username.value == x;
      assert v in now && now[v] == was[v];
    }
  }

  /** The next name is new, and the earlier ones keep what they have. */
  lemma OneMoreName(lower: string -> string, was: map<nat, User>, now: map<nat, User>, ids: seq<nat>, n: nat,
      name: string, k: nat)
    requires AreLeftovers(was, ids) && n < |ids| && NamesAdded(lower, was, now, ids[..n])
    requires ids[n] in now && IsFirstFree(Cleaned(lower, now[ids[n]].email), Names(now), name, k)
    ensures now[ids[n]].username.None?
    ensures NamesAdded(lower, was, now[ids[n] := now[ids[n]].(username := Some(name))], ids[..n + 1])
  {
    var u, init := ids[n], ids[..n];
    LeftoverIsNew(was, ids, n);
    OldNamesStay(lower, was, now, init);
    EarlierNamesStay(lower, now, u, name, init);
    NewNameIsEarned(lower, now, u, name, k);
    AddName(lower, was, now, now[u := now[u].(username := Some(name))], init, u);
  }

  lemma LeftoverIsNew(was: map<nat, User>, ids: seq<nat>, n: nat)
    requires AreLeftovers(was, ids) && n < |ids|
    ensures ids[..n + 1] == ids[..n] + [ids[n]] && ids[n] !in ids[..n]
    ensures ids[n] in was && was[ids[n]].username.None?
    ensures forall v | v in ids[..n] :: v in was && was[v].username.None?
  {
    assert ids[n] in ids;
    forall v | v in ids[..n] ensures v != ids[n] && v in ids {
      var i :| 0 <= i < n && ids[i] == v;
    }
  }

  lemma EarlierNamesStay(lower: string -> string, now: map<nat, User>, u: nat, name: string, init: seq<nat>)
    requires u in now && now[u].username.None? && name !in Names(now)
    requires forall v | v in init :: NamedFor(lower, now, v)
    ensures var next := now[u := now[u].(username := Some(name))];
      forall v | v in init :: v in next && NamedFor(lower, next, v) && next[v].username != next[u].username
  {
    forall v | v in init
      ensures var next := now[u := now[u].(username := Some(name))];
        NamedFor(lower, next, v) && next[v] == now[v] && next[v].username != Some(name)
    {
      EarlierNameStays(lower, now, u, name, v);
    }
  }

  lemma AddName(lower: string -> string, was: map<nat, User>, now: map<nat, User>, next: map<nat, User>, init: seq<nat>,
      u: nat)
    requires NamesAdded(lower, was, now, init) && u in was && u in now && u in next && u !in init
    requires next == now[u := next[u]] && next[u].email == was[u].email && NamedFor(lower, next, u)
    requires next[u].username.Some? && next[u].username.value !in Names(was)
    requires forall v | v in init :: v in next && NamedFor(lower, next, v) && next[v].username != next[u].username
    ensures NamesAdded(lower, was, next, init + [u])
  {
  }

  lemma EarlierNameStays(lower: string -> string, now: map<nat, User>, u: nat, name: string, v: nat)
    requires u in now && now[u].username.None? && name !in Names(now) && NamedFor(lower, now, v)
    ensures var next := now[u := now[u].(username := Some(name))];
      NamedFor(lower, next, v) && next[v] == now[v] && next[v].username != Some(name)
  {
    NamesGrow(now, u, name);
    EarnedStays(Cleaned(lower, now[v].email), now[v].username.value, Names(now), Names(now) + {name});
    assert now[v].username.value in Names(now);
  }

  lemma NewNameIsEarned(lower: string -> string, now: map<nat, User>, u: nat, name: string, k: nat)
    requires u in now && now[u].username.None? && IsFirstFree(Cleaned(lower, now[u].email), Names(now), name, k)
    ensures NamedFor(lower, now[u := now[u].(username := Some(name))], u)
  {
    NamesGrow(now, u, name);
    assert Earned(Cleaned(lower, now[u].email), name, Names(now));
    EarnedStays(Cleaned(lower, now[u].email), name, Names(now), Names(now) + {name});
  }

  lemma OneMoreWellNamed(users: map<nat, User>, ids: seq<nat>, n: nat, name: string)
    requires n < |ids| && ids[n] in users && WellNamed(users, ids[..n]) && IsName(name)
    ensures WellNamed(users[ids[n] := users[ids[n]].(username := Some(name))], ids[..n + 1])
  {
    assert forall v :: v in ids[..n + 1] <==> v in ids[..n] || v == ids[n];
  }

  /** Afterwards the unique index on usernames builds exactly when the names given earlier were distinct. */
  lemma IndexBuildsIff(lower: string -> string, was: map<nat, User>, now: map<nat, User>, ids: seq<nat>)
    requires AreLeftovers(was, ids) && NamesAdded(lower, was, now, ids)
    ensures NamesAreUnique(now) <==> NamesAreUnique(was)
    ensures forall u | u in now :: now[u].username.Some?
  {
    forall u, v | u in was && v in was && u != v && was[u].username.Some? && was[u].username == was[v].username
      ensures !NamesAreUnique(now)
    {
      assert now[u] == was[u] && now[v] == was[v];
    }
    forall u, v | u in now && v in now && u != v && now[u].username == now[v].username
      ensures !NamesAreUnique(was)
    {
      assert u in ids ==> v !in ids;
      assert v !in ids ==> was[v].username.Some? && was[v].username.value in Names(was);
      assert u !in ids ==> was[u].username.Some? && was[u].username.value in Names(was);
    }
  }

  class Database {
    var users: map<nat, User>

    /** One round of the loop. */
    method NameOne(lower: string -> string, ghost was: map<nat, User>, ghost leftovers: seq<nat>, ghost n: nat,
        u: nat, taken: set<string>)
      returns (taken': set<string>)
      requires AreLeftovers(was, leftovers) && n < |leftovers| && u == leftovers[n]
      requires taken == Names(users) && |taken| <= |Names(was)| + n && NamesAdded(lower, was, users, leftovers[..n])
      requires Roomy(was, leftovers) ==> WellNamed(users, leftovers[..n])
      modifies this
      ensures taken' == Names(users) && |taken'| <= |Names(was)| + n + 1 && NamesAdded(lower, was, users, leftovers[..n + 1])
      ensures Roomy(was, leftovers) ==> WellNamed(users, leftovers[..n + 1])
    {
      assert u in leftovers;
      var cleaned := Cleaned(lower, users[u].email);
      var candidate := FreeName(cleaned, taken);
      ghost var k: nat :| k <= |taken| + 1 && IsFirstFree(cleaned, taken, candidate, k);
      OneMoreName(lower, was, users, leftovers, n, candidate, k);
      NamesGrow(users, u, candidate);
      if Roomy(was, leftovers) {
        AttemptIsName(cleaned, k);
        OneMoreWellNamed(users, leftovers, n, candidate);
      }
      taken' := taken + {candidate};
      users := users[u := users[u].(username := Some(candidate))];
    }

    method NameLeftovers(lower: string -> string, leftovers: seq<nat>)
      requires AreLeftovers(users, leftovers)
      modifies this
      ensures NamesAdded(lower, old(users), users, leftovers)
      ensures Roomy(old(users), leftovers) ==> WellNamed(users, leftovers)
    {
      ghost var was := users;
      var taken := Names(users);
      NothingAdded(lower, was, leftovers[..0]);
      for n := 0 to |leftovers|
        invariant taken == Names(users) && |taken| <= |Names(was)| + n
        invariant NamesAdded(lower, was, users, leftovers[..n])
        invariant Roomy(was, leftovers) ==> WellNamed(users, leftovers[..n])
      {
        taken := NameOne(lower, was, leftovers, n, leftovers[n], taken);
      }
      assert leftovers[..|leftovers|] == leftovers;
    }
  }

  lemma NothingAdded(lower: string -> string, users: map<nat, User>, none: seq<nat>)
    requires none == []
    ensures NamesAdded(lower, users, users, none) && WellNamed(users, none)
  {
  }
}
