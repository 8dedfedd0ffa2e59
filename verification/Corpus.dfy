/**
  `apply_changes`: one transaction that carries out the remediation decisions on the playbook
  tables, and the counters of `consistency_check`.
 */
module Corpus {
  import opened Wrappers
  import Merges

  type Action = Merges.Action

  /** `current_version_id` is a plain column: no foreign key ties it to the versions. */
  datatype Playbook = Playbook(pattern: Option<Uuid>, current: Option<Uuid>, retired: bool, description: string)
  datatype Version = Version(playbook: Uuid, semantic: string, steps: string, derivedFrom: Option<Uuid>)
  datatype VersionLink = VersionLink(version: Uuid, evidence: Option<Uuid>, episode: Option<Uuid>)
  /** Its foreign key to the version has no ON DELETE action. */
  datatype Approval = Approval(playbook: Uuid, version: Option<Uuid>)
  datatype PatternLink = PatternLink(pattern: Uuid, episode: Option<Uuid>)

  datatype EdgeKind = BelongsTo | OtherKind(name: string)
  datatype NodeType = PlaybookNode | EpisodeNode | PatternNode | OtherNode(name: string)
  datatype Edge = Edge(kind: EdgeKind, sourceType: NodeType, source: Uuid, targetType: NodeType, target: Uuid)

  datatype Db = Db(
    playbooks: map<Uuid, Playbook>,
    versions: map<Uuid, Version>,
    links: map<Uuid, VersionLink>,
    approvals: map<Uuid, Approval>,
    edges: map<Uuid, Edge>,
    patternActive: map<Uuid, bool>,
    patternLinks: map<Uuid, PatternLink>)

  /**
    A decision with the columns that were loaded with its playbook. `next` is the text of the next
    version, `note` what a merge or suppression appends to the description.
   */
  datatype Change = Change(
    playbook: Uuid, action: Action, pattern: Uuid, current: Uuid, next: string, newSteps: string, note: string,
    patternCounts: map<Uuid, nat>)

  // --- What the loader saw ----------------------------------------------------------------

  function PatternsOf(db: Db, episode: Uuid): set<Uuid> {
    set l | l in db.patternLinks && db.patternLinks[l].episode == Some(episode) :: db.patternLinks[l].pattern
  }

  /** One decision per loaded playbook, with the pattern, pointer and episode counts of the database. */
  ghost predicate LoadedFrom(db: Db, cs: seq<Change>) {
    && (forall i, j | 0 <= i < j < |cs| :: cs[i].playbook != cs[j].playbook)
    && forall i | 0 <= i < |cs| :: IsLoaded(db, cs[i])
  }

  ghost predicate IsLoaded(db: Db, c: Change) {
    && c.playbook in db.playbooks
    && db.playbooks[c.playbook].pattern == Some(c.pattern) && c.pattern in db.patternActive
    && db.playbooks[c.playbook].current == Some(c.current)
    && forall e | e in c.patternCounts :: c.patternCounts[e] == |PatternsOf(db, e)|
  }

  // --- consistency_check ------------------------------------------------------------------

  function BrokenCurrent(db: Db): set<Uuid> {
    set p | p in db.playbooks && db.playbooks[p].current.Some? && db.playbooks[p].current.value !in db.versions
  }

  function OrphanVersions(db: Db): set<Uuid> {
    set v | v in db.versions && db.versions[v].playbook !in db.playbooks
  }

  function OrphanLinks(db: Db): set<Uuid> {
    set l | l in db.links && db.links[l].version !in db.versions
  }

  function BrokenPattern(db: Db): set<Uuid> {
    set p | p in db.playbooks && db.playbooks[p].pattern.Some? && db.playbooks[p].pattern.value !in db.patternActive
  }

  function OrphanPatternLinks(db: Db): set<Uuid> {
    set l | l in db.patternLinks && db.patternLinks[l].pattern !in db.patternActive
  }

  // --- One decision -----------------------------------------------------------------------

  predicate Revises(c: Change) {
    c.action.Improve? || c.action.Rewrite?
  }

  /** `uq_playbook_versions_playbook_semantic_version` refuses the insert, and the transaction fails. */
  predicate Collides(db: Db, c: Change) {
    exists v | v in db.versions :: db.versions[v].playbook == c.playbook && db.versions[v].semantic == c.next
  }

  /** The version of a revision fits `VARCHAR(20)`; a longer one refuses the insert as well. */
  predicate FitsColumn(c: Change) {
    |c.next| <= 20
  }

  /** An approval of another playbook names a version of this one: its versions cannot be deleted. */
  predicate IsNamedElsewhere(db: Db, p: Uuid) {
    exists a | a in db.approvals :: NamesVersionOf(db.versions, db.approvals[a], p)
  }

  predicate NamesVersionOf(versions: map<Uuid, Version>, a: Approval, p: Uuid) {
    a.playbook != p && a.version.Some? && IsVersionOf(versions, a.version.value, p)
  }

  /** The decision cannot be carried out in this state. */
  predicate Blocked(db: Db, c: Change) {
    || (Revises(c) && (Collides(db, c) || !FitsColumn(c)))
    || (c.action.Delete? && IsNamedElsewhere(db, c.playbook))
  }

  /** `after` adds to `before` a copy, at version `to`, of every link of version `from`. */
  ghost predicate LinksCopied(before: map<Uuid, VersionLink>, after: map<Uuid, VersionLink>, from: Uuid, to: Uuid) {
    && Extends(before, after)
    && (forall x | x in after && x !in before :: IsCopy(before, after[x], from, to))
    && (forall l | l in before && before[l].version == from :: HasCopy(before, after, before[l], to))
  }

  /** `r` is a link of version `from`, moved to version `to`. */
  ghost predicate IsCopy(before: map<Uuid, VersionLink>, r: VersionLink, from: Uuid, to: Uuid) {
    exists l | l in before :: before[l].version == from && r == before[l].(version := to)
  }

  /** A new link is `r` moved to version `to`. */
  ghost predicate HasCopy(before: map<Uuid, VersionLink>, after: map<Uuid, VersionLink>, r: VersionLink, to: Uuid) {
    exists x | x in after :: x !in before && after[x] == r.(version := to)
  }

  /** The new version `v` of a revised playbook; `seen` are the ids in use so far. */
  ghost predicate Revised(seen: set<Uuid>, db: Db, after: Db, c: Change, v: Uuid) {
    && v !in seen && v !in db.versions && c.playbook in db.playbooks
    && LinksCopied(db.links, after.links, c.current, v)
    && after == db.(versions := db.versions[v := Version(c.playbook, c.next, c.newSteps, None)],
                    links := after.links,
                    playbooks := db.playbooks[c.playbook := db.playbooks[c.playbook].(current := Some(v))])
  }

  function Retired(db: Db, c: Change): Db
    requires c.playbook in db.playbooks
  {
    var row := db.playbooks[c.playbook];
    db.(playbooks := db.playbooks[c.playbook := row.(retired := true, description := row.description + c.note)])
  }

  /** The playbook with its versions, their evidence links, its approvals and its outgoing edges removed. */
  function WithoutPlaybook(db: Db, p: Uuid): Db {
    db.(playbooks := map q | q in db.playbooks && q != p :: db.playbooks[q],
        versions := VersionsWithout(db.versions, p),
        links := LinksWithout(db.versions, db.links, p),
        approvals := ApprovalsWithout(db.approvals, p),
        edges := EdgesWithout(db.edges, p))
  }

  /** The versions of other playbooks; ON DELETE SET NULL clears what was derived from a removed one. */
  function VersionsWithout(versions: map<Uuid, Version>, p: Uuid): map<Uuid, Version> {
    map v | v in versions && versions[v].playbook != p :: Severed(versions, versions[v], p)
  }

  function Severed(versions: map<Uuid, Version>, w: Version, p: Uuid): Version {
    if w.derivedFrom.Some? && IsVersionOf(versions, w.derivedFrom.value, p) then w.(derivedFrom := None) else w
  }

  predicate IsVersionOf(versions: map<Uuid, Version>, v: Uuid, p: Uuid) {
    v in versions && versions[v].playbook == p
  }

  function LinksWithout(versions: map<Uuid, Version>, links: map<Uuid, VersionLink>, p: Uuid): map<Uuid, VersionLink> {
    map l | l in links && !IsVersionOf(versions, links[l].version, p) :: links[l]
  }

  function ApprovalsWithout(approvals: map<Uuid, Approval>, p: Uuid): map<Uuid, Approval> {
    map a | a in approvals && approvals[a].playbook != p :: approvals[a]
  }

  function EdgesWithout(edges: map<Uuid, Edge>, p: Uuid): map<Uuid, Edge> {
    map e | e in edges && !(edges[e].sourceType.PlaybookNode? && edges[e].source == p) :: edges[e]
  }

  /** Episodes that belonged to one pattern at most when the corpus was loaded. */
  function Exclusive(c: Change): set<Uuid> {
    set e | e in c.patternCounts && c.patternCounts[e] <= 1
  }

  predicate IsExclusiveLink(c: Change, l: PatternLink) {
    l.pattern == c.pattern && l.episode.Some? && l.episode.value in Exclusive(c)
  }

  predicate IsExclusiveEdge(c: Change, e: Edge) {
    e.kind.BelongsTo? && e.sourceType.EpisodeNode? && e.targetType.PatternNode? && e.target == c.pattern &&
    e.source in Exclusive(c)
  }

  function WithoutExclusive(db: Db, c: Change): Db {
    db.(patternLinks := map l | l in db.patternLinks && !IsExclusiveLink(c, db.patternLinks[l]) :: db.patternLinks[l],
        edges := map e | e in db.edges && !IsExclusiveEdge(c, db.edges[e]) :: db.edges[e])
  }

  predicate HasPlaybook(playbooks: map<Uuid, Playbook>, pattern: Uuid) {
    exists p | p in playbooks :: playbooks[p].pattern == Some(pattern)
  }

  function Deactivated(db: Db, pattern: Uuid): Db {
    if HasPlaybook(db.playbooks, pattern) then db else db.(patternActive := db.patternActive[pattern := false])
  }

  function Deleted(db: Db, c: Change): Db {
    Deactivated(WithoutExclusive(WithoutPlaybook(db, c.playbook), c), c.pattern)
  }

  ghost predicate Applied(seen: set<Uuid>, db: Db, after: Db, c: Change) {
    match c.action
    case Keep => after == db
    case Improve => exists v :: Revised(seen, db, after, c, v)
    case Rewrite => exists v :: Revised(seen, db, after, c, v)
    case Merge => c.playbook in db.playbooks && after == Retired(db, c)
    case Suppress => c.playbook in db.playbooks && after == Retired(db, c)
    case Delete => after == Deleted(db, c)
  }

  /** The decisions carried out in order from `start`; new ids are new to `start` as well. */
  ghost predicate Ran(start: Db, db: Db, cs: seq<Change>)
    decreases |cs|, 1
  {
    if cs == [] then db == start else exists mid :: RanLast(start, mid, db, cs)
  }

  /** `mid` is the state before the last decision. */
  ghost predicate RanLast(start: Db, mid: Db, db: Db, cs: seq<Change>)
    requires cs != []
    decreases |cs|, 0
  {
    Ran(start, mid, cs[..|cs| - 1]) && Applied(start.versions.Keys, mid, db, cs[|cs| - 1])
  }

  // --- The transaction --------------------------------------------------------------------

  /** Every new link is a copy, and each of `done` has its copy. */
  ghost predicate CopiesMade(before: map<Uuid, VersionLink>, links: map<Uuid, VersionLink>, done: set<Uuid>,
      from: Uuid, to: Uuid)
  {
    && (forall x | x in links && x !in before :: IsCopy(before, links[x], from, to))
    && (forall l | l in done :: l in before && HasCopy(before, links, before[l], to))
  }

  lemma OneMoreCopy(before: map<Uuid, VersionLink>, links: map<Uuid, VersionLink>, done: set<Uuid>, from: Uuid, to: Uuid,
      l: Uuid, id: Uuid)
    requires Extends(before, links) && CopiesMade(before, links, done, from, to)
    requires l in before && before[l].version == from && id !in links
    ensures CopiesMade(before, links[id := before[l].(version := to)], done + {l}, from, to)
    ensures Extends(before, links[id := before[l].(version := to)])
  {
    var after := links[id := before[l].(version := to)];
    assert id in after && id !in before && after[id] == before[l].(version := to);
    assert IsCopy(before, after[id], from, to) && HasCopy(before, after, before[l], to);
    forall m | m in done ensures HasCopy(before, after, before[m], to) {
      var x :| x in links && x !in before && links[x] == before[m].(version := to);
      assert x in after && after[x] == links[x];
    }
  }

  lemma AllCopied(before: map<Uuid, VersionLink>, links: map<Uuid, VersionLink>, done: set<Uuid>, from: Uuid, to: Uuid)
    requires Extends(before, links) && CopiesMade(before, links, done, from, to)
    requires forall l | l in before && before[l].version == from :: l in done
    ensures LinksCopied(before, links, from, to)
  {
  }

  /** The INSERT ... SELECT of the evidence links, row by row. */
  method Copies(source: map<Uuid, VersionLink>, from: Uuid, to: Uuid) returns (links: map<Uuid, VersionLink>)
    ensures LinksCopied(source, links, from, to)
  {
    links := source;
    var todo := set l | l in source && source[l].version == from;
    ghost var all, done := todo, {};
    while todo != {}
      invariant todo <= all && done == all - todo
      invariant Extends(source, links) && CopiesMade(source, links, done, from, to)
    {
      var l :| l in todo;
      var id := NewUuid(links.Keys);
      OneMoreCopy(source, links, done, from, to, l, id);
      links := links[id := source[l].(version := to)];
      MoveOver(all, todo, done, l);
      todo, done := todo - {l}, done + {l};
    }
    AllCopied(source, links, done, from, to);
  }

  lemma Partition(was: map<Uuid, PatternLink>, kept: map<Uuid, PatternLink>, gone: set<Uuid>)
    requires gone <= was.Keys && kept.Keys == was.Keys - gone
    ensures |was| == |kept| + |gone|
  {
    assert was.Keys == kept.Keys + gone;
  }

  class Transaction {
    var db: Db
    var seen: set<Uuid>
    var episodeLinksRemoved: nat

    constructor (db: Db)
      ensures this.db == db && seen == db.versions.Keys && episodeLinksRemoved == 0
    {
      this.db, seen, episodeLinksRemoved := db, db.versions.Keys, 0;
    }

    method CopyLinks(from: Uuid, to: Uuid)
      modifies `db
      ensures db == old(db).(links := db.links)
      ensures LinksCopied(old(db).links, db.links, from, to)
    {
      var links := Copies(db.links, from, to);
      db := db.(links := links);
    }

    method Revise(c: Change, ghost start: Db) returns (ok: bool)
      requires c.playbook in db.playbooks && start.versions.Keys <= seen
      modifies `db, `seen
      ensures ok <==> |c.next| <= 20 &&
                      forall v | v in old(db).versions && old(db).versions[v].playbook == c.playbook ::
                        old(db).versions[v].semantic != c.next
      ensures !ok ==> db == old(db)
      ensures old(seen) <= seen
      ensures ok ==> exists v :: Revised(start.versions.Keys, old(db), db, c, v)
      ensures db.patternLinks == old(db).patternLinks
    {
      if Collides(db, c) || !FitsColumn(c) {
        return false;
      }
      ghost var was := db;
      var v := NewUuid(seen + db.versions.Keys);
      seen := seen + {v};
      db := db.(versions := db.versions[v := Version(c.playbook, c.next, c.newSteps, None)]);
      CopyLinks(c.current, v);
      db := db.(playbooks := db.playbooks[c.playbook := db.playbooks[c.playbook].(current := Some(v))]);
      assert Revised(start.versions.Keys, was, db, c, v);
      ok := true;
    }

    /** Refused when a version is still named by an approval once those of the playbook are gone. */
    method RemovePlaybook(p: Uuid) returns (ok: bool)
      requires p in db.playbooks
      modifies `db
      ensures ok <==> !IsNamedElsewhere(old(db), p)
      ensures ok ==> db == WithoutPlaybook(old(db), p)
    {
      ghost var was := db;
      RemoveDependents(p);
      db := db.(playbooks := db.playbooks[p := db.playbooks[p].(current := None)]);
      ApprovalsLeft(was, p);
      if exists a | a in db.approvals :: db.approvals[a].version.Some? && IsVersionOf(db.versions, db.approvals[a].version.value, p) {
        return false;
      }
      db := db.(versions := VersionsWithout(db.versions, p));
      db := db.(playbooks := map q | q in db.playbooks && q != p :: db.playbooks[q]);
      assert db.playbooks == WithoutPlaybook(was, p).playbooks;
      ok := true;
    }

    /** Evidence links of its versions, approvals and outgoing edges go before the versions themselves. */
    method RemoveDependents(p: Uuid)
      modifies `db
      ensures db == old(db).(links := LinksWithout(old(db).versions, old(db).links, p),
                             approvals := ApprovalsWithout(old(db).approvals, p),
                             edges := EdgesWithout(old(db).edges, p))
    {
      var versions := set v | v in db.versions && db.versions[v].playbook == p;
      var links := map l | l in db.links && db.links[l].version !in versions :: db.links[l];
      assert links == LinksWithout(db.versions, db.links, p);
      db := db.(links := links);
      db := db.(approvals := ApprovalsWithout(db.approvals, p));
      db := db.(edges := EdgesWithout(db.edges, p));
    }

    method RemoveExclusive(c: Change)
      modifies this
      ensures db == WithoutExclusive(old(db), c) && seen == old(seen)
      ensures episodeLinksRemoved + |db.patternLinks| == old(episodeLinksRemoved) + |old(db).patternLinks|
    {
      if Exclusive(c) != {} {
        var gone := set l | l in db.patternLinks && IsExclusiveLink(c, db.patternLinks[l]);
        ghost var was := db.patternLinks;
        db := db.(patternLinks := map l | l in db.patternLinks && l !in gone :: db.patternLinks[l]);
        Partition(was, db.patternLinks, gone);
        episodeLinksRemoved := episodeLinksRemoved + |gone|;
        db := db.(edges := map e | e in db.edges && !IsExclusiveEdge(c, db.edges[e]) :: db.edges[e]);
      }
      assert db.patternLinks == WithoutExclusive(old(db), c).patternLinks;
      assert db.edges == WithoutExclusive(old(db), c).edges;
    }

    /** The branch that removes a playbook, statement by statement. */
    method Remove(c: Change) returns (ok: bool)
      requires c.playbook in db.playbooks
      modifies this
      ensures ok <==> !IsNamedElsewhere(old(db), c.playbook)
      ensures ok ==> db == Deleted(old(db), c)
      ensures seen == old(seen)
      ensures ok ==> episodeLinksRemoved + |db.patternLinks| == old(episodeLinksRemoved) + |old(db).patternLinks|
    {
      ok := RemovePlaybook(c.playbook);
      if !ok {
        return;
      }
      RemoveExclusive(c);
      if !HasPlaybook(db.playbooks, c.pattern) {
        db := db.(patternActive := db.patternActive[c.pattern := false]);
      }
    }

    method ApplyOne(c: Change, ghost start: Db) returns (ok: bool)
      requires c.playbook in db.playbooks && start.versions.Keys <= seen
      modifies this
      ensures ok <==> !Blocked(old(db), c)
      ensures old(seen) <= seen
      ensures ok ==> Applied(start.versions.Keys, old(db), db, c)
      ensures ok ==> episodeLinksRemoved + |db.patternLinks| == old(episodeLinksRemoved) + |old(db).patternLinks|
    {
      ok := true;
      match c.action {
        case Keep =>
        case Improve => ok := Revise(c, start);
        case Rewrite => ok := Revise(c, start);
        case Merge => db := Retired(db, c);
        case Suppress => db := Retired(db, c);
        case Delete => ok := Remove(c);
      }
    }

    /**
      All decisions in one transaction: a refused statement undoes everything. That happens exactly
      when a revision's version text is taken or too long, or a deleted playbook has a version that
      an approval of a playbook not deleted before it names.
     */
    method Apply(cs: seq<Change>) returns (ok: bool)
      requires LoadedFrom(db, cs) && seen == db.versions.Keys && episodeLinksRemoved == 0
      modifies this
      ensures ok <==> forall i | 0 <= i < |cs| :: !BlockedAt(old(db), cs, i)
      ensures !ok ==> db == old(db)
      ensures ok ==> Ran(old(db), db, cs)
      ensures ok ==> episodeLinksRemoved == |old(db).patternLinks| - |db.patternLinks|
    {
      var saved := db;
      for i := 0 to |cs|
        invariant Ran(saved, db, cs[..i]) && saved.versions.Keys <= seen
        invariant episodeLinksRemoved + |db.patternLinks| == |saved.patternLinks|
        invariant forall j | 0 <= j < i :: !BlockedAt(saved, cs, j)
      {
        assert cs[..i + 1] == cs[..i] + [cs[i]] && cs[..i + 1][..i] == cs[..i];
        LaterIsUntouched(saved, db, cs, i);
        ghost var mid := db;
        ok := ApplyOne(cs[i], saved);
        if !ok {
          db := saved;
          return;
        }
        assert RanLast(saved, mid, db, cs[..i + 1]);
      }
      assert cs[..|cs|] == cs;
      ok := true;
    }
  }

  lemma ApprovalsLeft(db: Db, p: Uuid)
    ensures IsNamedElsewhere(db, p) <==>
      (exists a | a in ApprovalsWithout(db.approvals, p) ::
         db.approvals[a].version.Some? && IsVersionOf(db.versions, db.approvals[a].version.value, p))
  {
    if a :| a in db.approvals && NamesVersionOf(db.versions, db.approvals[a], p) {
      assert a in ApprovalsWithout(db.approvals, p);
    }
  }

  // --- What a run leaves alone ------------------------------------------------------------

  ghost predicate DeletesPlaybook(cs: seq<Change>, p: Uuid) {
    exists i | 0 <= i < |cs| :: cs[i].playbook == p && cs[i].action.Delete?
  }

  /** The `i`-th decision is refused, as the database loaded and the decisions before it tell. */
  ghost predicate BlockedAt(start: Db, cs: seq<Change>, i: nat)
    requires i < |cs|
  {
    || (Revises(cs[i]) &&
        (|cs[i].next| > 20 ||
         exists v | v in start.versions :: start.versions[v].playbook == cs[i].playbook && start.versions[v].semantic == cs[i].next))
    || (cs[i].action.Delete? && IsStillNamed(start, cs[..i], cs[i].playbook))
  }

  /** An approval names a version of `p`, and its own playbook has not been deleted before. */
  ghost predicate IsStillNamed(start: Db, before: seq<Change>, p: Uuid) {
    exists a | a in start.approvals :: StillNames(start, before, start.approvals[a], p)
  }

  ghost predicate StillNames(start: Db, before: seq<Change>, a: Approval, p: Uuid) {
    NamesVersionOf(start.versions, a, p) && !DeletesPlaybook(before, a.playbook)
  }

  /** The same version, but for what it was derived from. */
  predicate SameVersion(v: Version, w: Version) {
    w.(derivedFrom := v.derivedFrom) == v
  }

  /** Playbook `p` has the same row and the same versions in both. */
  ghost predicate Untouched(db: Db, after: Db, p: Uuid) {
    && (p in after.playbooks <==> p in db.playbooks)
    && (p in db.playbooks ==> after.playbooks[p] == db.playbooks[p])
    && (forall v | v in db.versions && db.versions[v].playbook == p ::
          v in after.versions && SameVersion(db.versions[v], after.versions[v]))
    && (forall v | v in after.versions && after.versions[v].playbook == p ::
          v in db.versions && db.versions[v].playbook == p)
  }

  lemma RevisingLeavesOthers(seen: set<Uuid>, db: Db, after: Db, c: Change, v: Uuid, p: Uuid)
    requires Revised(seen, db, after, c, v) && p != c.playbook
    ensures Untouched(db, after, p)
  {
  }

  lemma DeletingLeavesOthers(db: Db, c: Change, p: Uuid)
    requires p != c.playbook
    ensures Untouched(db, Deleted(db, c), p)
  {
    var without := WithoutPlaybook(db, c.playbook);
    assert Deleted(db, c).playbooks == without.playbooks && Deleted(db, c).versions == without.versions;
  }

  lemma StepLeavesOthers(seen: set<Uuid>, db: Db, after: Db, c: Change, p: Uuid)
    requires Applied(seen, db, after, c) && p != c.playbook
    ensures Untouched(db, after, p)
  {
    match c.action {
      case Improve => var v :| Revised(seen, db, after, c, v); RevisingLeavesOthers(seen, db, after, c, v, p);
      case Rewrite => var v :| Revised(seen, db, after, c, v); RevisingLeavesOthers(seen, db, after, c, v, p);
      case Delete => DeletingLeavesOthers(db, c, p);
      case _ =>
    }
  }

  ghost predicate Concerns(cs: seq<Change>, p: Uuid) {
    exists i | 0 <= i < |cs| :: cs[i].playbook == p
  }

  /** A run leaves every playbook it has no decision for, and its versions, as they were. */
  lemma {:induction false} RunLeavesOthers(start: Db, db: Db, cs: seq<Change>, p: Uuid)
    requires Ran(start, db, cs) && !Concerns(cs, p)
    ensures Untouched(start, db, p)
    decreases |cs|
  {
    if cs != [] {
      var last := |cs| - 1;
      var mid :| RanLast(start, mid, db, cs);
      assert cs[last].playbook != p;
      assert !Concerns(cs[..last], p) by {
        if i :| 0 <= i < last && cs[..last][i].playbook == p { assert cs[i].playbook == p; }
      }
      RunLeavesOthers(start, mid, cs[..last], p);
      StepLeavesOthers(start.versions.Keys, mid, db, cs[last], p);
    }
  }

  /** An approval goes exactly with its playbook. */
  lemma {:induction false} FateOfApprovals(start: Db, db: Db, cs: seq<Change>)
    requires Ran(start, db, cs)
    ensures db.approvals == map a | a in start.approvals && !DeletesPlaybook(cs, start.approvals[a].playbook) :: start.approvals[a]
    decreases |cs|
  {
    if cs != [] {
      var init, c := cs[..|cs| - 1], cs[|cs| - 1];
      var mid :| RanLast(start, mid, db, cs);
      FateOfApprovals(start, mid, init);
      StepOnApprovals(start.versions.Keys, mid, db, c);
      forall a | a in start.approvals
        ensures DeletesPlaybook(cs, start.approvals[a].playbook) <==>
          DeletesPlaybook(init, start.approvals[a].playbook) || (c.playbook == start.approvals[a].playbook && c.action.Delete?)
      {
        LastDeletes(cs, start.approvals[a].playbook);
      }
    }
  }

  lemma StepOnApprovals(seen: set<Uuid>, db: Db, after: Db, c: Change)
    requires Applied(seen, db, after, c)
    ensures after.approvals == if c.action.Delete? then ApprovalsWithout(db.approvals, c.playbook) else db.approvals
  {
    if Revises(c) {
      var v :| Revised(seen, db, after, c, v);
    } else if c.action.Delete? {
      assert Deleted(db, c).approvals == WithoutPlaybook(db, c.playbook).approvals;
    }
  }

  lemma LastDeletes(cs: seq<Change>, p: Uuid)
    requires cs != []
    ensures DeletesPlaybook(cs, p) <==>
      DeletesPlaybook(cs[..|cs| - 1], p) || (cs[|cs| - 1].playbook == p && cs[|cs| - 1].action.Delete?)
  {
    var init := cs[..|cs| - 1];
    if i :| 0 <= i < |cs| && cs[i].playbook == p && cs[i].action.Delete? {
      assert i < |init| ==> init[i].playbook == p && init[i].action.Delete?;
    }
    if i :| 0 <= i < |init| && init[i].playbook == p && init[i].action.Delete? {
      assert cs[i].playbook == p && cs[i].action.Delete?;
    }
  }

  /** What blocks a decision can be read off the database loaded and the decisions before. */
  lemma LaterIsUntouched(start: Db, db: Db, cs: seq<Change>, i: nat)
    requires LoadedFrom(start, cs) && i < |cs| && Ran(start, db, cs[..i])
    ensures cs[i].playbook in db.playbooks && db.playbooks[cs[i].playbook] == start.playbooks[cs[i].playbook]
    ensures Blocked(db, cs[i]) <==> BlockedAt(start, cs, i)
  {
    assert !Concerns(cs[..i], cs[i].playbook);
    RunLeavesOthers(start, db, cs[..i], cs[i].playbook);
    assert IsLoaded(start, cs[i]);
    CollidesAlike(start, db, cs[i]);
    NamedAlike(start, db, cs[..i], cs[i].playbook);
  }

  lemma CollidesAlike(start: Db, db: Db, c: Change)
    requires Untouched(start, db, c.playbook)
    ensures Collides(db, c) <==> Collides(start, c)
  {
    if v :| v in start.versions && start.versions[v].playbook == c.playbook && start.versions[v].semantic == c.next {
      assert SameVersion(start.versions[v], db.versions[v]);
    }
    if v :| v in db.versions && db.versions[v].playbook == c.playbook && db.versions[v].semantic == c.next {
      assert v in start.versions && SameVersion(start.versions[v], db.versions[v]);
    }
  }

  lemma NamedAlike(start: Db, db: Db, before: seq<Change>, p: Uuid)
    requires Ran(start, db, before) && Untouched(start, db, p)
    ensures IsNamedElsewhere(db, p) <==> IsStillNamed(start, before, p)
  {
    FateOfApprovals(start, db, before);
    forall v ensures IsVersionOf(db.versions, v, p) <==> IsVersionOf(start.versions, v, p) {
      if IsVersionOf(start.versions, v, p) { assert SameVersion(start.versions[v], db.versions[v]); }
    }
    if a :| a in db.approvals && NamesVersionOf(db.versions, db.approvals[a], p) {
      assert a in start.approvals && StillNames(start, before, start.approvals[a], p);
    }
    if a :| a in start.approvals && StillNames(start, before, start.approvals[a], p) {
      assert a in db.approvals && NamesVersionOf(db.versions, db.approvals[a], p);
    }
  }
}
