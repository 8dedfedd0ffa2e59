/**
  The alias tables in migration 0033: tenants and normal forms are filled in, then colliding strong
  identifiers are deleted by a join of the table with itself, and a unique index has to build.
 */
module Aliases {
  import opened Wrappers
  import opened AliasText

  datatype Kind =
    | Email | Username | Hostname | Fqdn | IpAddress | SerialNumber | ExternalId
    | DisplayName | OtherKind

  datatype Alias = Alias(identity: nat, tenant: Option<nat>, kind: Kind, text: string, normal: Option<string>,
      createdAt: int)

  datatype Identity = Identity(tenant: nat, name: string, normal: Option<string>)

  /** Identifiers stand for UUIDs and carry only their order. */
  type Rows = map<nat, Alias>
  type Identities = map<nat, Identity>

  predicate Strong(k: Kind) {
    !k.DisplayName? && !k.OtherKind?
  }

  // --- The statements ---------------------------------------------------------------------

  function NamedRow(lower: char -> char, c: Identity): Identity {
    if c.normal.None? then c.(normal := Some(Normalized(lower, c.name))) else c
  }

  function WithTenant(identities: Identities, a: Alias): Alias {
    if a.tenant.None? && a.identity in identities then a.(tenant := Some(identities[a.identity].tenant)) else a
  }

  function WithNormal(lower: char -> char, a: Alias): Alias {
    if a.normal.None? then a.(normal := Some(Normalized(lower, a.text))) else a
  }

  function Filled(lower: char -> char, identities: Identities, rows: Rows): Rows {
    map id | id in rows :: WithNormal(lower, WithTenant(identities, rows[id]))
  }

  /** The equalities of the DELETE; a null is equal to nothing. */
  predicate SameKey(a: Alias, b: Alias) {
    a.tenant.Some? && a.tenant == b.tenant && a.kind == b.kind && a.normal.Some? && a.normal == b.normal
  }

  predicate Older(rows: Rows, b: nat, a: nat)
    requires a in rows && b in rows
  {
    rows[b].createdAt < rows[a].createdAt || (rows[b].createdAt == rows[a].createdAt && b < a)
  }

  predicate Doomed(rows: Rows, a: nat)
    requires a in rows
  {
    Strong(rows[a].kind) && exists b | b in rows :: SameKey(rows[a], rows[b]) && Older(rows, b, a)
  }

  function Deduplicated(rows: Rows): Rows {
    map a | a in rows && !Doomed(rows, a) :: rows[a]
  }

  function Upgraded(lower: char -> char, identities: Identities, rows: Rows): Rows {
    Deduplicated(Filled(lower, identities, rows))
  }

  /** Tenant and normal form are as they were, or filled in where they were null; nothing else has changed. */
  ghost predicate OnlyFilled(lower: char -> char, identities: Identities, was: Alias, now: Alias) {
    && now == was.(tenant := now.tenant, normal := now.normal)
    && now.normal == Some(if was.normal != None then was.normal.value else Normalized(lower, was.text))
    && (was.tenant != None ==> now.tenant == was.tenant)
    && (was.tenant == None ==>
          now.tenant == if was.identity in identities then Some(identities[was.identity].tenant) else None)
  }

  ghost predicate AllOnlyFilled(lower: char -> char, identities: Identities, was: Rows, now: Rows) {
    forall a | a in now :: a in was && OnlyFilled(lower, identities, was[a], now[a])
  }

  lemma UpgradedIsOnlyFilled(lower: char -> char, identities: Identities, rows: Rows)
    ensures AllOnlyFilled(lower, identities, rows, Upgraded(lower, identities, rows))
  {
  }

  class Database {
    var identities: Identities
    var aliases: Rows

    method NormalizeNames(lower: char -> char)
      modifies `identities
      ensures identities.Keys == old(identities).Keys
      ensures forall c | c in identities :: identities[c] == NamedRow(lower, old(identities)[c])
    {
      identities := map c | c in identities :: NamedRow(lower, identities[c]);
    }

    method FillTenants()
      modifies `aliases
      ensures aliases.Keys == old(aliases).Keys
      ensures forall a | a in aliases :: aliases[a] == WithTenant(identities, old(aliases)[a])
    {
      aliases := map a | a in aliases :: WithTenant(identities, aliases[a]);
    }

    method NormalizeAliases(lower: char -> char)
      modifies `aliases
      ensures aliases.Keys == old(aliases).Keys
      ensures forall a | a in aliases :: aliases[a] == WithNormal(lower, old(aliases)[a])
    {
      aliases := map a | a in aliases :: WithNormal(lower, aliases[a]);
    }

    method DeleteDuplicates()
      modifies `aliases
      ensures aliases == Deduplicated(old(aliases))
    {
      aliases := map a | a in aliases && !Doomed(aliases, a) :: aliases[a];
    }

    /** Missing names are filled in, and of every strong key exactly the oldest row stays. */
    method Upgrade(lower: char -> char)
      modifies this
      ensures identities.Keys == old(identities).Keys
      ensures forall c | c in identities ::
                var was := old(identities)[c];
                identities[c].normal == Some(if was.normal != None then was.normal.value else Normalized(lower, was.name)) &&
                identities[c] == was.(normal := identities[c].normal)
      ensures aliases == Upgraded(lower, old(identities), old(aliases))
      ensures AllOnlyFilled(lower, old(identities), old(aliases), aliases)
      ensures IndexBuilds(aliases)
    {
      NormalizeNames(lower);
      FillTenants();
      NormalizeAliases(lower);
      assert aliases == Filled(lower, old(identities), old(aliases));
      DeleteDuplicates();
      UniqueIndexBuilds(Filled(lower, old(identities), old(aliases)));
      UpgradedIsOnlyFilled(lower, old(identities), old(aliases));
    }
  }

  // --- Who survives -----------------------------------------------------------------------

  /** The partial unique index: no two strong rows share kind, tenant and normal form, a null being equal to nothing. */
  ghost predicate IndexBuilds(rows: Rows) {
    forall a, b | a in rows && b in rows && a != b && IsIdentifier(rows[a].kind) ::
      rows[a].tenant == None || rows[a].normal == None ||
      rows[b].kind != rows[a].kind || rows[b].tenant != rows[a].tenant || rows[b].normal != rows[a].normal
  }

  lemma UniqueIndexBuilds(rows: Rows)
    ensures IndexBuilds(Deduplicated(rows))
  {
    var left := Deduplicated(rows);
    forall a, b | a in left && b in left && a != b && IsIdentifier(left[a].kind) ensures !SameKey(left[a], left[b]) {
      IdentifierIff(left[a].kind);
      assert !Doomed(rows, a) && !Doomed(rows, b);
      assert Older(rows, a, b) || Older(rows, b, a);
    }
  }

  /** `b` was created before `a`, or with it and under a smaller id. */
  ghost predicate Precedes(rows: Rows, b: nat, a: nat)
    requires a in rows && b in rows
  {
    rows[b].createdAt <= rows[a].createdAt && (rows[b].createdAt == rows[a].createdAt ==> b < a)
  }

  /** The identifiers that stand for one thing only. */
  ghost predicate IsIdentifier(k: Kind) {
    k in {Email, Username, Hostname, Fqdn, IpAddress, SerialNumber, ExternalId}
  }

  /** The oldest row of the group of `a`. */
  ghost predicate IsOldest(rows: Rows, a: nat, s: nat)
    requires a in rows
  {
    && s in rows && SameKey(rows[a], rows[s])
    && forall b | b in rows && b != s && SameKey(rows[a], rows[b]) :: Precedes(rows, s, b)
  }

  lemma {:induction false} OldestExists(rows: Rows, a: nat, group: set<nat>) returns (s: nat)
    requires a in rows && a in group && group <= rows.Keys && forall b | b in group :: SameKey(rows[a], rows[b])
    ensures s in group && forall b | b in group && b != s :: Older(rows, s, b)
    decreases |group|
  {
    var rest := group - {a};
    assert forall b | b in group :: b == a || b in rest;
    if b :| b in rest {
      s := OldestExists(rows, b, rest);
      if Older(rows, a, s) { s := a; }
    } else {
      s := a;
    }
  }

  /** Of every strong key exactly one row stays: the oldest, and of two as old the one with the smaller id. */
  lemma ExactlyTheOldestSurvives(rows: Rows, a: nat) returns (s: nat)
    requires a in rows && IsIdentifier(rows[a].kind) && rows[a].tenant != None && rows[a].normal != None
    ensures IsOldest(rows, a, s)
    ensures forall b | b in rows && SameKey(rows[a], rows[b]) :: b in Deduplicated(rows) <==> b == s
  {
    var group := set b | b in rows && SameKey(rows[a], rows[b]);
    s := OldestExists(rows, a, group);
    forall b | b in rows && SameKey(rows[a], rows[b]) ensures b in Deduplicated(rows) <==> b == s {
      assert b in group;
      if b == s {
        forall c | c in rows && SameKey(rows[b], rows[c]) ensures !Older(rows, c, b) {
          assert c in group;
        }
      } else {
        assert SameKey(rows[b], rows[s]) && Older(rows, s, b);
      }
    }
  }

  /** Everything else stays, and what stays is unchanged. */
  lemma OnlyKeyedRowsGo(rows: Rows, a: nat)
    requires a in rows
    requires !IsIdentifier(rows[a].kind) || rows[a].tenant == None || rows[a].normal == None
    ensures a in Deduplicated(rows)
  {
    forall b | b in rows ensures !(Strong(rows[a].kind) && SameKey(rows[a], rows[b])) {}
  }

  // --- Runs of the migration --------------------------------------------------------------

  /** Running the migration again changes nothing. */
  lemma RerunIsSafe(lower: char -> char, identities: Identities, rows: Rows)
    ensures var once := Upgraded(lower, identities, rows);
      Upgraded(lower, identities, once) == once
  {
    var full := Filled(lower, identities, rows);
    var once := Deduplicated(full);
    assert Filled(lower, identities, once) == once;
    forall a | a in once ensures !Doomed(once, a) {
      assert !Doomed(full, a);
      assert forall b | b in once :: b in full && once[b] == full[b];
    }
    assert Deduplicated(once) == once;
  }

  /** What the columns hold, if anything, is what the migration would put there. */
  ghost predicate Sound(lower: char -> char, identities: Identities, rows: Rows) {
    forall a | a in rows :: IsSound(lower, identities, rows[a])
  }

  ghost predicate IsSound(lower: char -> char, identities: Identities, a: Alias) {
    && a.identity in identities
    && (a.tenant.Some? ==> a.tenant.value == identities[a.identity].tenant)
    && (a.normal.Some? ==> a.normal.value == Normalized(lower, a.text))
  }

  /** The same strong identifier: one kind, one tenant, the same words up to case. */
  ghost predicate Collides(lower: char -> char, identities: Identities, a: Alias, b: Alias)
    requires a.identity in identities && b.identity in identities
  {
    && a.kind == b.kind
    && identities[a.identity].tenant == identities[b.identity].tenant
    && LoweredAll(lower, Words(a.text)) == LoweredAll(lower, Words(b.text))
  }

  lemma SameKeyIff(lower: char -> char, identities: Identities, a: Alias, b: Alias)
    requires Folds(lower) && IsSound(lower, identities, a) && IsSound(lower, identities, b)
    ensures SameKey(WithNormal(lower, WithTenant(identities, a)), WithNormal(lower, WithTenant(identities, b))) <==>
            Collides(lower, identities, a, b)
  {
    SameNormalFormIff(lower, a.text, b.text);
  }

  /** An older alias collides with it. */
  ghost predicate IsPreceded(lower: char -> char, identities: Identities, rows: Rows, a: nat)
    requires Sound(lower, identities, rows) && a in rows
  {
    exists b | b in rows :: Collides(lower, identities, rows[a], rows[b]) && Precedes(rows, b, a)
  }

  /** An alias is deleted exactly when it is strong and an older alias collides with it. */
  lemma DeletedIffCollides(lower: char -> char, identities: Identities, rows: Rows, a: nat)
    requires Folds(lower) && Sound(lower, identities, rows) && a in rows
    ensures a !in Upgraded(lower, identities, rows) <==> IsIdentifier(rows[a].kind) && IsPreceded(lower, identities, rows, a)
  {
    IdentifierIff(rows[a].kind);
    forall b | b in rows
      ensures var full := Filled(lower, identities, rows);
              SameKey(full[a], full[b]) && Older(full, b, a) <==>
              Collides(lower, identities, rows[a], rows[b]) && Precedes(rows, b, a)
    {
      SameKeyIff(lower, identities, rows[a], rows[b]);
      OlderIff(Filled(lower, identities, rows), rows, a, b);
    }
  }

  lemma IdentifierIff(k: Kind)
    ensures Strong(k) <==> IsIdentifier(k)
  {
  }

  lemma OlderIff(full: Rows, rows: Rows, a: nat, b: nat)
    requires a in rows && b in rows && a in full && b in full
    requires full[a].createdAt == rows[a].createdAt && full[b].createdAt == rows[b].createdAt
    ensures Older(full, b, a) <==> Precedes(rows, b, a)
  {
  }
}
