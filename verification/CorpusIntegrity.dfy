/**
  What `apply_changes` keeps: the counters of `consistency_check`, the pattern links of shared
  episodes, and the activity of patterns that still have a playbook.
 */
module CorpusIntegrity {
  import opened Wrappers
  import opened Corpus
  import Merges

  // --- Counters that every decision keeps at zero -----------------------------------------

  ghost predicate NothingOrphaned(db: Db) {
    OrphanVersions(db) == {} && OrphanLinks(db) == {} && BrokenPattern(db) == {} && OrphanPatternLinks(db) == {}
  }

  /** The same, as facts about single rows. */
  lemma OrphansAreRows(db: Db)
    ensures NothingOrphaned(db) <==>
      && (forall v | v in db.versions :: db.versions[v].playbook in db.playbooks)
      && (forall l | l in db.links :: db.links[l].version in db.versions)
      && (forall p | p in db.playbooks && db.playbooks[p].pattern.Some? :: db.playbooks[p].pattern.value in db.patternActive)
      && (forall l | l in db.patternLinks :: db.patternLinks[l].pattern in db.patternActive)
  {
    assert forall v :: v in OrphanVersions(db) <==> v in db.versions && db.versions[v].playbook !in db.playbooks;
    assert forall l :: l in OrphanLinks(db) <==> l in db.links && db.links[l].version !in db.versions;
    assert forall p :: p in BrokenPattern(db) <==>
      p in db.playbooks && db.playbooks[p].pattern.Some? && db.playbooks[p].pattern.value !in db.patternActive;
    assert forall l :: l in OrphanPatternLinks(db) <==> l in db.patternLinks && db.patternLinks[l].pattern !in db.patternActive;
  }

  lemma RevisingOrphansNothing(seen: set<Uuid>, db: Db, after: Db, c: Change, v: Uuid)
    requires NothingOrphaned(db) && Revised(seen, db, after, c, v)
    ensures NothingOrphaned(after)
  {
    OrphansAreRows(db);
    forall x | x in after.links ensures after.links[x].version in after.versions {
      if x !in db.links {
        var l :| l in db.links && db.links[l].version == c.current && after.links[x] == db.links[l].(version := v);
      }
    }
    OrphansAreRows(after);
  }

  lemma DeletingOrphansNothing(db: Db, c: Change)
    requires NothingOrphaned(db)
    ensures NothingOrphaned(Deleted(db, c))
  {
    var after := Deleted(db, c);
    OrphansAreRows(db);
    DeletedTables(db, c);
    forall v | v in after.versions ensures after.versions[v].playbook in after.playbooks {
      assert db.versions[v].playbook in db.playbooks;
    }
    forall l | l in after.links ensures after.links[l].version in after.versions {
      assert db.links[l].version in db.versions;
    }
    OrphansAreRows(after);
  }

  lemma StepOrphansNothing(seen: set<Uuid>, db: Db, after: Db, c: Change)
    requires NothingOrphaned(db) && Applied(seen, db, after, c)
    ensures NothingOrphaned(after)
  {
    match c.action {
      case Improve => var v :| Revised(seen, db, after, c, v); RevisingOrphansNothing(seen, db, after, c, v);
      case Rewrite => var v :| Revised(seen, db, after, c, v); RevisingOrphansNothing(seen, db, after, c, v);
      case Delete => DeletingOrphansNothing(db, c);
      case _ => OrphansAreRows(db); OrphansAreRows(after);
    }
  }

  /** Orphan versions, orphan evidence links and broken pattern references stay at zero. */
  lemma {:induction false} RunOrphansNothing(start: Db, db: Db, cs: seq<Change>)
    requires NothingOrphaned(start) && Ran(start, db, cs)
    ensures NothingOrphaned(db)
    decreases |cs|
  {
    if cs != [] {
      var mid :| RanLast(start, mid, db, cs);
      RunOrphansNothing(start, mid, cs[..|cs| - 1]);
      StepOrphansNothing(start.versions.Keys, mid, db, cs[|cs| - 1]);
    }
  }

  /** What a revision leaves alone. */
  lemma RevisedKeeps(seen: set<Uuid>, db: Db, after: Db, c: Change, v: Uuid)
    requires Revised(seen, db, after, c, v)
    ensures v !in seen && after.versions == db.versions[v := Version(c.playbook, c.next, c.newSteps, None)]
    ensures after.patternLinks == db.patternLinks && after.patternActive == db.patternActive && after.edges == db.edges
    ensures after.playbooks.Keys == db.playbooks.Keys
    ensures forall p | p in after.playbooks :: after.playbooks[p].pattern == db.playbooks[p].pattern
  {
  }

  /** What a deletion does, table by table. */
  lemma DeletedTables(db: Db, c: Change)
    ensures Deleted(db, c).patternLinks == WithoutExclusive(db, c).patternLinks
    ensures Deleted(db, c).playbooks == map p | p in db.playbooks && p != c.playbook :: db.playbooks[p]
    ensures Deleted(db, c).versions == VersionsWithout(db.versions, c.playbook)
    ensures Deleted(db, c).links == LinksWithout(db.versions, db.links, c.playbook)
    ensures Deleted(db, c).edges == WithoutExclusive(db.(edges := EdgesWithout(db.edges, c.playbook)), c).edges
    ensures Deleted(db, c).patternActive
      == if HasPlaybook(Deleted(db, c).playbooks, c.pattern) then db.patternActive else db.patternActive[c.pattern := false]
  {
  }

  // --- The fate of a playbook and of a version --------------------------------------------

  ghost predicate RevisesPlaybook(cs: seq<Change>, p: Uuid) {
    exists i | 0 <= i < |cs| :: cs[i].playbook == p && Revises(cs[i])
  }

  lemma LastRevises(cs: seq<Change>, p: Uuid)
    requires cs != []
    ensures RevisesPlaybook(cs, p) <==>
      RevisesPlaybook(cs[..|cs| - 1], p) || (cs[|cs| - 1].playbook == p && Revises(cs[|cs| - 1]))
  {
    var init := cs[..|cs| - 1];
    if i :| 0 <= i < |cs| && cs[i].playbook == p && Revises(cs[i]) {
      assert i < |init| ==> init[i].playbook == p && Revises(init[i]);
    }
    if i :| 0 <= i < |init| && init[i].playbook == p && Revises(init[i]) {
      assert cs[i].playbook == p && Revises(cs[i]);
    }
  }

  lemma LastConcerns(cs: seq<Change>, p: Uuid)
    requires cs != []
    ensures Concerns(cs, p) <==> Concerns(cs[..|cs| - 1], p) || cs[|cs| - 1].playbook == p
  {
    var init := cs[..|cs| - 1];
    if i :| 0 <= i < |cs| && cs[i].playbook == p {
      assert i < |init| ==> init[i].playbook == p;
    }
    if i :| 0 <= i < |init| && init[i].playbook == p {
      assert cs[i].playbook == p;
    }
  }

  /** Splitting off the last decision. */
  lemma LastDecision(cs: seq<Change>, p: Uuid)
    requires cs != []
    ensures var init, last := cs[..|cs| - 1], cs[|cs| - 1];
            && (DeletesPlaybook(cs, p) <==> DeletesPlaybook(init, p) || (last.playbook == p && last.action.Delete?))
            && (RevisesPlaybook(cs, p) <==> RevisesPlaybook(init, p) || (last.playbook == p && Revises(last)))
            && (Concerns(cs, p) <==> Concerns(init, p) || last.playbook == p)
  {
    LastDeletes(cs, p);
    LastRevises(cs, p);
    LastConcerns(cs, p);
  }

  lemma EarlierDoNotConcern(start: Db, cs: seq<Change>)
    requires cs != [] && LoadedFrom(start, cs)
    ensures LoadedFrom(start, cs[..|cs| - 1]) && !Concerns(cs[..|cs| - 1], cs[|cs| - 1].playbook)
  {
    var n := |cs| - 1;
    assert forall i | 0 <= i < n :: cs[..n][i] == cs[i];
  }

  /** The row of `p` after its own decision. */
  ghost predicate Fate(start: Db, db: Db, cs: seq<Change>, p: Uuid) {
    && (p in db.playbooks <==> p in start.playbooks && !DeletesPlaybook(cs, p))
    && (p in db.playbooks ==>
          && db.playbooks[p].pattern == start.playbooks[p].pattern
          && (RevisesPlaybook(cs, p) ==> PointsAtOwn(start, db, p))
          && (!RevisesPlaybook(cs, p) ==> db.playbooks[p].current == start.playbooks[p].current))
  }

  /** The pointer leads to a new version of the playbook itself. */
  ghost predicate PointsAtOwn(start: Db, db: Db, p: Uuid)
    requires p in db.playbooks
  {
    var v := db.playbooks[p].current;
    v.Some? && v.value in db.versions && db.versions[v.value].playbook == p && v.value !in start.versions
  }

  lemma OwnDecision(start: Db, mid: Db, db: Db, c: Change)
    requires Untouched(start, mid, c.playbook) && c.playbook in start.playbooks
    requires Applied(start.versions.Keys, mid, db, c)
    ensures c.playbook in db.playbooks <==> !c.action.Delete?
    ensures !c.action.Delete? ==> db.playbooks[c.playbook].pattern == start.playbooks[c.playbook].pattern
    ensures Revises(c) ==> PointsAtOwn(start, db, c.playbook)
    ensures !c.action.Delete? && !Revises(c) ==> db.playbooks[c.playbook].current == start.playbooks[c.playbook].current
  {
    if Revises(c) {
      var v :| Revised(start.versions.Keys, mid, db, c, v);
      RevisedPointer(start, mid, db, c, v);
    } else if c.action.Delete? {
      DeletedTables(mid, c);
    }
  }

  lemma RevisedPointer(start: Db, mid: Db, db: Db, c: Change, v: Uuid)
    requires Untouched(start, mid, c.playbook) && c.playbook in start.playbooks
    requires Revised(start.versions.Keys, mid, db, c, v)
    ensures c.playbook in db.playbooks && PointsAtOwn(start, db, c.playbook)
    ensures db.playbooks[c.playbook].pattern == start.playbooks[c.playbook].pattern
  {
    assert db.playbooks[c.playbook] == mid.playbooks[c.playbook].(current := Some(v));
    assert db.versions[v] == Version(c.playbook, c.next, c.newSteps, None);
  }

  lemma {:induction false} FateOfPlaybook(start: Db, db: Db, cs: seq<Change>, p: Uuid)
    requires LoadedFrom(start, cs) && Ran(start, db, cs)
    ensures Fate(start, db, cs, p)
    decreases |cs|
  {
    if cs != [] {
      var init, c := cs[..|cs| - 1], cs[|cs| - 1];
      var mid :| RanLast(start, mid, db, cs);
      LastDecision(cs, p);
      EarlierDoNotConcern(start, cs);
      if c.playbook == p {
        assert IsLoaded(start, c);
        RunLeavesOthers(start, mid, init, p);
        OwnDecision(start, mid, db, c);
        assert !DeletesPlaybook(init, p) && !RevisesPlaybook(init, p);
      } else {
        FateOfPlaybook(start, mid, init, p);
        StepLeavesOthers(start.versions.Keys, mid, db, c, p);
      }
    }
  }

  // --- Retirement -------------------------------------------------------------------------

  /** The `i`-th decision is to merge or to suppress `p`. */
  ghost predicate RetiredBy(cs: seq<Change>, i: nat, p: Uuid) {
    i < |cs| && cs[i].playbook == p && (cs[i].action.Merge? || cs[i].action.Suppress?)
  }

  /** A playbook left is retired by its merge or suppression and no other decision, with that one's note appended. */
  lemma {:induction false} FateOfRetirement(start: Db, db: Db, cs: seq<Change>, p: Uuid)
    requires LoadedFrom(start, cs) && Ran(start, db, cs) && p in db.playbooks
    ensures p in start.playbooks
    ensures forall i: nat | RetiredBy(cs, i, p) ::
              db.playbooks[p].retired && db.playbooks[p].description == start.playbooks[p].description + cs[i].note
    ensures (forall i: nat :: !RetiredBy(cs, i, p)) ==>
              && db.playbooks[p].retired == start.playbooks[p].retired
              && db.playbooks[p].description == start.playbooks[p].description
    decreases |cs|
  {
    FateOfPlaybook(start, db, cs, p);
    if cs != [] {
      var n := |cs| - 1;
      var init, c := cs[..n], cs[n];
      var mid :| RanLast(start, mid, db, cs);
      EarlierDoNotConcern(start, cs);
      assert forall i: nat | i < n :: init[i] == cs[i];
      LastDecision(cs, p);
      if c.playbook == p {
        RunLeavesOthers(start, mid, init, p);
        OwnRetirement(start.versions.Keys, mid, db, c);
        assert forall i: nat | i < n :: init[i].playbook != p;
        assert RetiredBy(cs, n, p) <==> c.action.Merge? || c.action.Suppress?;
      } else {
        StepLeavesOthers(start.versions.Keys, mid, db, c, p);
        FateOfRetirement(start, mid, init, p);
        forall i: nat ensures RetiredBy(cs, i, p) <==> RetiredBy(init, i, p) {}
      }
    }
  }

  /** The row as its own decision leaves it, unless it is the one to delete it. */
  ghost predicate RowDecided(was: Playbook, now: Playbook, c: Change) {
    if c.action.Merge? || c.action.Suppress? then now.retired && now.description == was.description + c.note
    else now.retired == was.retired && now.description == was.description
  }

  lemma OwnRetirement(seen: set<Uuid>, mid: Db, db: Db, c: Change)
    requires Applied(seen, mid, db, c) && !c.action.Delete? && c.playbook in mid.playbooks
    ensures c.playbook in db.playbooks && RowDecided(mid.playbooks[c.playbook], db.playbooks[c.playbook], c)
  {
    match c.action
    case Keep =>
    case Improve => var v :| Revised(seen, mid, db, c, v); RevisedRow(seen, mid, db, c, v);
    case Rewrite => var v :| Revised(seen, mid, db, c, v); RevisedRow(seen, mid, db, c, v);
    case Merge => RetiredRow(mid, c);
    case Suppress => RetiredRow(mid, c);
  }

  lemma RevisedRow(seen: set<Uuid>, mid: Db, db: Db, c: Change, v: Uuid)
    requires Revised(seen, mid, db, c, v)
    ensures c.playbook in db.playbooks && db.playbooks[c.playbook] == mid.playbooks[c.playbook].(current := Some(v))
  {
  }

  lemma RetiredRow(mid: Db, c: Change)
    requires c.playbook in mid.playbooks
    ensures var was := mid.playbooks[c.playbook];
            && c.playbook in Retired(mid, c).playbooks
            && Retired(mid, c).playbooks[c.playbook] == was.(retired := true, description := was.description + c.note)
  {
  }

  /** The pointer of a revised playbook leads to a version with the text and steps of that decision. */
  lemma {:induction false} FateOfRevision(start: Db, db: Db, cs: seq<Change>, i: nat)
    requires LoadedFrom(start, cs) && Ran(start, db, cs) && i < |cs| && (cs[i].action.Improve? || cs[i].action.Rewrite?)
    ensures var p := cs[i].playbook;
            && p in db.playbooks && db.playbooks[p].current.Some?
            && var v := db.playbooks[p].current.value;
               v !in start.versions && v in db.versions &&
               db.versions[v] == Version(p, cs[i].next, cs[i].newSteps, None)
    decreases |cs|
  {
    var n := |cs| - 1;
    var init, c := cs[..n], cs[n];
    var mid :| RanLast(start, mid, db, cs);
    EarlierDoNotConcern(start, cs);
    assert IsLoaded(start, cs[i]);
    if i == n {
      RunLeavesOthers(start, mid, init, c.playbook);
      var v :| Revised(start.versions.Keys, mid, db, c, v);
      RevisedPointer(start, mid, db, c, v);
    } else {
      assert init[i] == cs[i];
      FateOfRevision(start, mid, init, i);
      var p := cs[i].playbook;
      StepLeavesOthers(start.versions.Keys, mid, db, c, p);
      OtherVersions(start.versions.Keys, mid, db, c, mid.playbooks[p].current.value);
    }
  }

  lemma StepAddsNoOldVersion(start: Db, mid: Db, db: Db, c: Change, v: Uuid)
    requires Applied(start.versions.Keys, mid, db, c) && v in start.versions && v !in mid.versions
    ensures v !in db.versions
  {
    if Revises(c) {
      var w :| Revised(start.versions.Keys, mid, db, c, w);
      RevisedKeeps(start.versions.Keys, mid, db, c, w);
    } else if c.action.Delete? {
      DeletedTables(mid, c);
    }
  }

  /** What happens to a version of the playbook a decision is about. */
  lemma OwnVersions(seen: set<Uuid>, mid: Db, db: Db, c: Change, v: Uuid)
    requires Applied(seen, mid, db, c) && IsVersionOf(mid.versions, v, c.playbook)
    ensures v in db.versions <==> !c.action.Delete?
    ensures v in db.versions ==> db.versions[v] == mid.versions[v]
  {
    if Revises(c) {
      var w :| Revised(seen, mid, db, c, w);
      assert w !in mid.versions;
      RevisedKeeps(seen, mid, db, c, w);
    } else if c.action.Delete? {
      DeletedTables(mid, c);
    }
  }

  /** And to one of another playbook. */
  lemma OtherVersions(seen: set<Uuid>, mid: Db, db: Db, c: Change, v: Uuid)
    requires Applied(seen, mid, db, c) && v in mid.versions && mid.versions[v].playbook != c.playbook
    ensures v in db.versions
    ensures db.versions[v] == if c.action.Delete? then Severed(mid.versions, mid.versions[v], c.playbook) else mid.versions[v]
  {
    if Revises(c) {
      var w :| Revised(seen, mid, db, c, w);
      RevisedKeeps(seen, mid, db, c, w);
    } else if c.action.Delete? {
      DeletedTables(mid, c);
    }
  }

  /** The foreign key of `derived_from_version_id`. */
  ghost predicate OriginsExist(db: Db) {
    forall v | v in db.versions && db.versions[v].derivedFrom.Some? :: db.versions[v].derivedFrom.value in db.versions
  }

  /** The version after the run: it forgets its origin exactly when that one's playbook is deleted. */
  ghost function Remembered(start: Db, cs: seq<Change>, w: Version): Version {
    if w.derivedFrom.Some? && w.derivedFrom.value in start.versions &&
       DeletesPlaybook(cs, start.versions[w.derivedFrom.value].playbook)
    then w.(derivedFrom := None) else w
  }

  /** A version disappears exactly with its playbook, and changes in nothing but its origin. */
  lemma {:induction false} FateOfVersion(start: Db, db: Db, cs: seq<Change>, v: Uuid)
    requires LoadedFrom(start, cs) && Ran(start, db, cs) && v in start.versions
    ensures v in db.versions <==> !DeletesPlaybook(cs, start.versions[v].playbook)
    ensures v in db.versions ==> SameVersion(start.versions[v], db.versions[v])
    decreases |cs|
  {
    if cs != [] {
      var init, c := cs[..|cs| - 1], cs[|cs| - 1];
      var mid :| RanLast(start, mid, db, cs);
      LastDecision(cs, start.versions[v].playbook);
      EarlierDoNotConcern(start, cs);
      FateOfVersion(start, mid, init, v);
      if v !in mid.versions {
        StepAddsNoOldVersion(start, mid, db, c, v);
      } else if mid.versions[v].playbook == c.playbook {
        OwnVersions(start.versions.Keys, mid, db, c, v);
      } else {
        OtherVersions(start.versions.Keys, mid, db, c, v);
      }
    }
  }

  /** A version that is left forgets its origin exactly when that one's playbook is deleted. */
  lemma {:induction false} VersionsForgetOrigins(start: Db, db: Db, cs: seq<Change>, v: Uuid)
    requires LoadedFrom(start, cs) && Ran(start, db, cs) && OriginsExist(start)
    requires v in start.versions && v in db.versions
    ensures db.versions[v] == Remembered(start, cs, start.versions[v])
    decreases |cs|
  {
    if cs != [] {
      var init, c := cs[..|cs| - 1], cs[|cs| - 1];
      var mid :| RanLast(start, mid, db, cs);
      if v !in mid.versions { StepAddsNoOldVersion(start, mid, db, c, v); }
      EarlierDoNotConcern(start, cs);
      VersionsForgetOrigins(start, mid, init, v);
      FateOfVersion(start, mid, init, v);
      if start.versions[v].derivedFrom.Some? {
        var origin := start.versions[v].derivedFrom.value;
        LastDecision(cs, start.versions[origin].playbook);
        FateOfVersion(start, mid, init, origin);
      }
      if mid.versions[v].playbook == c.playbook {
        OwnVersions(start.versions.Keys, mid, db, c, v);
      } else {
        OtherVersions(start.versions.Keys, mid, db, c, v);
      }
    }
  }

  // --- The fate of an evidence link and of an edge ------------------------------------------

  /** An evidence link stays exactly as long as the playbook of its version does. */
  lemma {:induction false} FateOfLinks(start: Db, db: Db, cs: seq<Change>, l: Uuid)
    requires LoadedFrom(start, cs) && Ran(start, db, cs) && NothingOrphaned(start) && l in start.links
    ensures start.links[l].version in start.versions
    ensures DeletesPlaybook(cs, start.versions[start.links[l].version].playbook) ==>
              forall m | m in db.links :: db.links[m].version != start.links[l].version
    ensures !DeletesPlaybook(cs, start.versions[start.links[l].version].playbook) ==>
              l in db.links && db.links[l] == start.links[l]
    decreases |cs|
  {
    OrphansAreRows(start);
    RunOrphansNothing(start, db, cs);
    OrphansAreRows(db);
    var v := start.links[l].version;
    FateOfVersion(start, db, cs, v);
    if cs != [] {
      var init := cs[..|cs| - 1];
      var mid :| RanLast(start, mid, db, cs);
      LastDecision(cs, start.versions[v].playbook);
      EarlierDoNotConcern(start, cs);
      FateOfLinks(start, mid, init, l);
      FateOfVersion(start, mid, init, v);
      StepOnLinks(start.versions.Keys, mid, db, cs[|cs| - 1]);
    }
  }

  lemma StepOnLinks(seen: set<Uuid>, db: Db, after: Db, c: Change)
    requires Applied(seen, db, after, c)
    ensures forall l | l in db.links ::
              (c.action.Delete? && IsVersionOf(db.versions, db.links[l].version, c.playbook)) ||
              (l in after.links && after.links[l] == db.links[l])
  {
    if Revises(c) {
      var v :| Revised(seen, db, after, c, v);
    } else if c.action.Delete? {
      DeletedTables(db, c);
    }
  }

  /** An edge that leaves the deleted playbook, or ties an episode to the pattern as the only one counted for it. */
  ghost predicate TakesEdge(c: Change, e: Edge) {
    && c.action.Delete?
    && (|| (e.sourceType == PlaybookNode && e.source == c.playbook)
        || (e.kind == BelongsTo && e.sourceType == EpisodeNode && e.targetType == PatternNode && e.target == c.pattern &&
            e.source in c.patternCounts && c.patternCounts[e.source] <= 1))
  }

  ghost predicate DropsEdge(cs: seq<Change>, e: Edge) {
    exists i | 0 <= i < |cs| :: TakesEdge(cs[i], e)
  }

  lemma StepDropsEdges(seen: set<Uuid>, db: Db, after: Db, c: Change)
    requires Applied(seen, db, after, c)
    ensures after.edges == map e | e in db.edges && !TakesEdge(c, db.edges[e]) :: db.edges[e]
  {
    if c.action.Delete? {
      DeletedTables(db, c);
      DeletedEdges(db, c);
    } else {
      OnlyDeletionsDrop(seen, db, after, c);
    }
  }

  /** Any other decision leaves the edges and the pattern links as they are. */
  lemma OnlyDeletionsDrop(seen: set<Uuid>, db: Db, after: Db, c: Change)
    requires Applied(seen, db, after, c) && !c.action.Delete?
    ensures after.edges == db.edges && after.patternLinks == db.patternLinks
  {
    if Revises(c) {
      var v :| Revised(seen, db, after, c, v);
      RevisedKeeps(seen, db, after, c, v);
    }
  }

  lemma DeletedEdges(db: Db, c: Change)
    requires c.action.Delete?
    ensures WithoutExclusive(db.(edges := EdgesWithout(db.edges, c.playbook)), c).edges ==
      map e | e in db.edges && !TakesEdge(c, db.edges[e]) :: db.edges[e]
  {
    var without := EdgesWithout(db.edges, c.playbook);
    assert forall e | e in db.edges ::
        TakesEdge(c, db.edges[e]) <==> e !in without || IsExclusiveEdge(c, db.edges[e]);
  }

  lemma SplitDropsEdge(cs: seq<Change>, e: Edge)
    requires cs != []
    ensures DropsEdge(cs, e) <==> DropsEdge(cs[..|cs| - 1], e) || TakesEdge(cs[|cs| - 1], e)
  {
    var n := |cs| - 1;
    if i :| 0 <= i < |cs| && TakesEdge(cs[i], e) {
      assert i < n ==> TakesEdge(cs[..n][i], e);
    }
    if i :| 0 <= i < n && TakesEdge(cs[..n][i], e) {
      assert TakesEdge(cs[i], e);
    }
  }

  /** Edges are never added, and go exactly when a deletion takes them. */
  lemma {:induction false} FateOfEdges(start: Db, db: Db, cs: seq<Change>)
    requires Ran(start, db, cs)
    ensures db.edges == map e | e in start.edges && !DropsEdge(cs, start.edges[e]) :: start.edges[e]
    decreases |cs|
  {
    if cs != [] {
      var init, c := cs[..|cs| - 1], cs[|cs| - 1];
      var mid :| RanLast(start, mid, db, cs);
      FateOfEdges(start, mid, init);
      StepDropsEdges(start.versions.Keys, mid, db, c);
      forall e | e in start.edges
        ensures DropsEdge(cs, start.edges[e]) <==> DropsEdge(init, start.edges[e]) || TakesEdge(c, start.edges[e])
      {
        SplitDropsEdge(cs, start.edges[e]);
      }
    }
  }

  // --- Current-version pointers -----------------------------------------------------------

  /** Kept as it is, and pointing at a version of a playbook that the run deletes. */
  ghost predicate Strays(start: Db, cs: seq<Change>, p: Uuid) {
    && p in start.playbooks && !DeletesPlaybook(cs, p) && !RevisesPlaybook(cs, p)
    && start.playbooks[p].current.Some? && start.playbooks[p].current.value in start.versions
    && DeletesPlaybook(cs, start.versions[start.playbooks[p].current.value].playbook)
  }

  lemma BrokenAfterIffStrays(start: Db, db: Db, cs: seq<Change>, p: Uuid)
    requires LoadedFrom(start, cs) && Ran(start, db, cs) && BrokenCurrent(start) == {}
    ensures p in BrokenCurrent(db) <==> Strays(start, cs, p)
  {
    FateOfPlaybook(start, db, cs, p);
    if p in start.playbooks && start.playbooks[p].current.Some? {
      assert p !in BrokenCurrent(start);
      FateOfVersion(start, db, cs, start.playbooks[p].current.value);
    }
  }

  /**
    From a database with intact pointers, pointers are intact afterwards exactly when no playbook
    that is kept as it is points at a version of a deleted one; no foreign key rules that out.
   */
  lemma PointersStayIntactIff(start: Db, db: Db, cs: seq<Change>)
    requires LoadedFrom(start, cs) && Ran(start, db, cs) && BrokenCurrent(start) == {}
    ensures BrokenCurrent(db) == {} <==> forall p | p in start.playbooks :: !Strays(start, cs, p)
  {
    forall p ensures p in BrokenCurrent(db) <==> Strays(start, cs, p) {
      BrokenAfterIffStrays(start, db, cs, p);
    }
  }

  /** In particular when every pointer leads to a version of its own playbook. */
  lemma OwnPointersStayIntact(start: Db, db: Db, cs: seq<Change>)
    requires LoadedFrom(start, cs) && Ran(start, db, cs) && BrokenCurrent(start) == {}
    requires forall p | p in start.playbooks && start.playbooks[p].current.Some? ::
               start.playbooks[p].current.value in start.versions ==>
               start.versions[start.playbooks[p].current.value].playbook == p
    ensures BrokenCurrent(db) == {}
  {
    forall p | p in start.playbooks ensures !Strays(start, cs, p) {
      if start.playbooks[p].current.Some? {
        assert p !in BrokenCurrent(start);
      }
    }
    PointersStayIntactIff(start, db, cs);
  }

  // --- Corpora as the loader returns them -------------------------------------------------

  /** Its current version and its pattern exist: the two JOINs of `load_corpus`. */
  predicate IsJoined(db: Db, p: Uuid) {
    && p in db.playbooks
    && db.playbooks[p].current.Some? && db.playbooks[p].current.value in db.versions
    && db.playbooks[p].pattern.Some? && db.playbooks[p].pattern.value in db.patternActive
  }

  /** The episodes of its current version and of its pattern, whose patterns the loader counts. */
  function EpisodesOf(db: Db, c: Change): set<Uuid> {
    (set l | l in db.links && db.links[l].version == c.current && db.links[l].episode.Some? :: db.links[l].episode.value) +
    (set l | l in db.patternLinks && db.patternLinks[l].pattern == c.pattern && db.patternLinks[l].episode.Some? ::
       db.patternLinks[l].episode.value)
  }

  /** One decision for each playbook that the loader returns. */
  ghost predicate IsCorpus(db: Db, cs: seq<Change>) {
    && LoadedFrom(db, cs)
    && (forall p :: Concerns(cs, p) <==> IsJoined(db, p))
    && forall i | 0 <= i < |cs| :: cs[i].patternCounts.Keys == EpisodesOf(db, cs[i])
  }

  /** Two playbooks of one pattern whose pointers share a version. */
  ghost function SharedVersion(): Db {
    Db(map[1 := Playbook(Some(9), Some(5), false, ""), 2 := Playbook(Some(9), Some(5), false, "")],
       map[5 := Version(1, "0.1.0", "", None)], map[], map[], map[], map[9 := true], map[])
  }

  /** The owner of the version is to be deleted. */
  ghost function OwnerGoes(): seq<Change> {
    [Change(1, Merges.Delete, 9, 5, "", "", "", map[]), Change(2, Merges.Keep, 9, 5, "", "", "", map[])]
  }

  lemma SharedVersionIsCorpus()
    ensures IsCorpus(SharedVersion(), OwnerGoes()) && NothingOrphaned(SharedVersion())
    ensures BrokenCurrent(SharedVersion()) == {}
  {
    var start, cs := SharedVersion(), OwnerGoes();
    OrphansAreRows(start);
    assert IsLoaded(start, cs[0]) && IsLoaded(start, cs[1]);
    assert cs[0].playbook == 1 && cs[1].playbook == 2;
    assert forall i | 0 <= i < |cs| :: EpisodesOf(start, cs[i]) == {};
  }

  lemma OnlyTheOtherStrays(p: Uuid)
    ensures Strays(SharedVersion(), OwnerGoes(), p) <==> p == 2
    ensures forall i | 0 <= i < |OwnerGoes()| :: !BlockedAt(SharedVersion(), OwnerGoes(), i)
  {
    var cs := OwnerGoes();
    assert cs[0].playbook == 1 && cs[0].action.Delete? && cs[1].playbook == 2;
  }

  /** The deletion is carried out, and the other playbook's pointer breaks. */
  lemma SharedVersionBreaksPointer() returns (start: Db, cs: seq<Change>)
    ensures IsCorpus(start, cs) && NothingOrphaned(start) && BrokenCurrent(start) == {}
    ensures forall i | 0 <= i < |cs| :: !BlockedAt(start, cs, i)
    ensures forall db | Ran(start, db, cs) :: BrokenCurrent(db) == {2}
  {
    start, cs := SharedVersion(), OwnerGoes();
    SharedVersionIsCorpus();
    OnlyTheOtherStrays(2);
    forall db, p | Ran(start, db, cs) ensures p in BrokenCurrent(db) <==> p == 2 {
      BrokenAfterIffStrays(start, db, cs, p);
      OnlyTheOtherStrays(p);
    }
  }

  /** Two playbooks with a version each, and an approval of the second that names the first one's version. */
  ghost function ForeignApproval(): Db {
    Db(map[1 := Playbook(Some(9), Some(5), false, ""), 2 := Playbook(Some(9), Some(6), false, "")],
       map[5 := Version(1, "0.1.0", "", None), 6 := Version(2, "0.1.0", "", None)], map[],
       map[3 := Approval(2, Some(5))], map[], map[9 := true], map[])
  }

  /** The first is to be deleted. */
  ghost function FirstGoes(): seq<Change> {
    [Change(1, Merges.Delete, 9, 5, "", "", "", map[]), Change(2, Merges.Keep, 9, 6, "", "", "", map[])]
  }

  lemma ForeignApprovalIsCorpus()
    ensures IsCorpus(ForeignApproval(), FirstGoes()) && NothingOrphaned(ForeignApproval())
  {
    var start, cs := ForeignApproval(), FirstGoes();
    OrphansAreRows(start);
    assert IsLoaded(start, cs[0]) && IsLoaded(start, cs[1]);
    assert cs[0].playbook == 1 && cs[1].playbook == 2;
    assert forall i | 0 <= i < |cs| :: EpisodesOf(start, cs[i]) == {};
  }

  /** An approval of a kept playbook names a version of one to be deleted: nothing is carried out. */
  lemma ApprovalBlocksDelete() returns (start: Db, cs: seq<Change>)
    ensures IsCorpus(start, cs) && NothingOrphaned(start)
    ensures |cs| == 2 && BlockedAt(start, cs, 0)
  {
    start, cs := ForeignApproval(), FirstGoes();
    ForeignApprovalIsCorpus();
    assert 3 in start.approvals && StillNames(start, cs[..0], start.approvals[3], 1);
  }

  // --- Pattern links ----------------------------------------------------------------------

  /** The deletion names the pattern of the link, and counted one pattern at most for its episode. */
  ghost predicate TakesLink(c: Change, l: PatternLink) {
    && c.action.Delete? && l.pattern == c.pattern
    && l.episode.Some? && l.episode.value in c.patternCounts && c.patternCounts[l.episode.value] <= 1
  }

  ghost predicate DropsLink(cs: seq<Change>, l: PatternLink) {
    exists i | 0 <= i < |cs| :: TakesLink(cs[i], l)
  }

  lemma StepDropsLinks(seen: set<Uuid>, db: Db, after: Db, c: Change)
    requires Applied(seen, db, after, c)
    ensures after.patternLinks == map l | l in db.patternLinks && !TakesLink(c, db.patternLinks[l]) :: db.patternLinks[l]
  {
    if c.action.Delete? {
      DeletedTables(db, c);
      ExclusiveLinksGo(db, c);
    } else {
      OnlyDeletionsDrop(seen, db, after, c);
    }
  }

  lemma ExclusiveLinksGo(db: Db, c: Change)
    requires c.action.Delete?
    ensures WithoutExclusive(db, c).patternLinks ==
      map l | l in db.patternLinks && !TakesLink(c, db.patternLinks[l]) :: db.patternLinks[l]
  {
    assert forall l | l in db.patternLinks :: TakesLink(c, db.patternLinks[l]) <==> IsExclusiveLink(c, db.patternLinks[l]);
  }

  /** A pattern link goes exactly when a deletion names its pattern and counts its episode as exclusive. */
  lemma {:induction false} FateOfPatternLinks(start: Db, db: Db, cs: seq<Change>)
    requires Ran(start, db, cs)
    ensures db.patternLinks == map l | l in start.patternLinks && !DropsLink(cs, start.patternLinks[l]) :: start.patternLinks[l]
    decreases |cs|
  {
    if cs != [] {
      var init, c := cs[..|cs| - 1], cs[|cs| - 1];
      var mid :| RanLast(start, mid, db, cs);
      FateOfPatternLinks(start, mid, init);
      StepDropsLinks(start.versions.Keys, mid, db, c);
      forall l | l in start.patternLinks
        ensures DropsLink(cs, start.patternLinks[l]) <==> DropsLink(init, start.patternLinks[l]) || TakesLink(c, start.patternLinks[l])
      {
        SplitDrops(cs, start.patternLinks[l]);
      }
    }
  }

  lemma SplitDrops(cs: seq<Change>, l: PatternLink)
    requires cs != []
    ensures DropsLink(cs, l) <==> DropsLink(cs[..|cs| - 1], l) || TakesLink(cs[|cs| - 1], l)
  {
    var n := |cs| - 1;
    if i :| 0 <= i < |cs| && TakesLink(cs[i], l) {
      assert i < n ==> TakesLink(cs[..n][i], l);
    }
    if i :| 0 <= i < n && TakesLink(cs[..n][i], l) {
      assert TakesLink(cs[i], l);
    }
  }

  /** Every link of the episode leads to the one pattern. */
  ghost predicate IsExclusiveTo(db: Db, episode: Uuid, pattern: Uuid) {
    forall m | m in db.patternLinks && db.patternLinks[m].episode == Some(episode) :: db.patternLinks[m].pattern == pattern
  }

  lemma ExclusiveIff(db: Db, l: Uuid, e: Uuid)
    requires l in db.patternLinks && db.patternLinks[l].episode == Some(e)
    ensures |PatternsOf(db, e)| <= 1 <==> IsExclusiveTo(db, e, db.patternLinks[l].pattern)
  {
    var pattern := db.patternLinks[l].pattern;
    assert pattern in PatternsOf(db, e);
    if |PatternsOf(db, e)| <= 1 {
      Singleton(PatternsOf(db, e), pattern);
      assert forall m | m in db.patternLinks && db.patternLinks[m].episode == Some(e) ::
          db.patternLinks[m].pattern in PatternsOf(db, e);
    }
    if IsExclusiveTo(db, e, pattern) {
      assert PatternsOf(db, e) == {pattern};
    }
  }

  /** The episode of a removed link belonged to that one pattern when the corpus was loaded. */
  lemma RemovedLinksAreExclusive(start: Db, db: Db, cs: seq<Change>, l: Uuid)
    requires LoadedFrom(start, cs) && Ran(start, db, cs)
    requires l in start.patternLinks && l !in db.patternLinks
    ensures var link := start.patternLinks[l];
            link.episode.Some? && IsExclusiveTo(start, link.episode.value, link.pattern)
  {
    FateOfPatternLinks(start, db, cs);
    var i :| 0 <= i < |cs| && TakesLink(cs[i], start.patternLinks[l]);
    assert IsLoaded(start, cs[i]);
    ExclusiveIff(start, l, start.patternLinks[l].episode.value);
  }

  /**
    Of the corpus that the loader returns, a pattern link goes exactly when a deletion names its
    pattern and its episode is linked to no other pattern.
   */
  lemma LinkGoesIff(start: Db, db: Db, cs: seq<Change>, l: Uuid)
    requires IsCorpus(start, cs) && Ran(start, db, cs) && l in start.patternLinks
    ensures var link := start.patternLinks[l];
            l !in db.patternLinks <==>
            && (exists i | 0 <= i < |cs| :: cs[i].action.Delete? && cs[i].pattern == link.pattern)
            && link.episode.Some? && IsExclusiveTo(start, link.episode.value, link.pattern)
  {
    var link := start.patternLinks[l];
    FateOfPatternLinks(start, db, cs);
    if l !in db.patternLinks {
      var i :| 0 <= i < |cs| && TakesLink(cs[i], link);
      RemovedLinksAreExclusive(start, db, cs, l);
    }
    if link.episode.Some? && IsExclusiveTo(start, link.episode.value, link.pattern) {
      ExclusiveIff(start, l, link.episode.value);
      forall i | 0 <= i < |cs| && cs[i].action.Delete? && cs[i].pattern == link.pattern ensures TakesLink(cs[i], link) {
        assert IsLoaded(start, cs[i]) && link.episode.value in EpisodesOf(start, cs[i]);
      }
    }
  }

  lemma Singleton(s: set<Uuid>, x: Uuid)
    requires x in s && |s| <= 1
    ensures s == {x}
  {
    assert |s - {x}| == 0;
  }

  /** An episode shared between patterns keeps every link. */
  lemma SharedEpisodesKeepLinks(start: Db, db: Db, cs: seq<Change>, l: Uuid, m: Uuid)
    requires LoadedFrom(start, cs) && Ran(start, db, cs) && l in start.patternLinks && m in start.patternLinks
    requires start.patternLinks[m].episode == start.patternLinks[l].episode
    requires start.patternLinks[m].pattern != start.patternLinks[l].pattern
    ensures l in db.patternLinks && db.patternLinks[l] == start.patternLinks[l]
  {
    if l !in db.patternLinks {
      RemovedLinksAreExclusive(start, db, cs, l);
      assert false;
    }
    FateOfPatternLinks(start, db, cs);
  }

  /** The pattern has lost a link of those it had. */
  ghost predicate LosesLink(start: Db, db: Db, pattern: Uuid) {
    exists l | l in start.patternLinks :: start.patternLinks[l].pattern == pattern && l !in db.patternLinks
  }

  /** A deletion names the pattern and counts an episode of it as exclusive. */
  ghost predicate IsStripped(start: Db, cs: seq<Change>, pattern: Uuid) {
    exists l | l in start.patternLinks :: start.patternLinks[l].pattern == pattern && DropsLink(cs, start.patternLinks[l])
  }

  /** Every playbook of the pattern is deleted in the run. */
  ghost predicate IsEmptied(start: Db, cs: seq<Change>, pattern: Uuid) {
    forall p | p in start.playbooks && start.playbooks[p].pattern == Some(pattern) :: DeletesPlaybook(cs, p)
  }

  lemma LosesLinkIffStripped(start: Db, db: Db, cs: seq<Change>, pattern: Uuid)
    requires Ran(start, db, cs)
    ensures LosesLink(start, db, pattern) <==> IsStripped(start, cs, pattern)
  {
    FateOfPatternLinks(start, db, cs);
  }

  lemma HasNoPlaybookIffEmptied(start: Db, db: Db, cs: seq<Change>, pattern: Uuid)
    requires LoadedFrom(start, cs) && Ran(start, db, cs)
    ensures !HasPlaybook(db.playbooks, pattern) <==> IsEmptied(start, cs, pattern)
  {
    forall p ensures Fate(start, db, cs, p) {
      FateOfPlaybook(start, db, cs, p);
    }
    if p :| p in start.playbooks && start.playbooks[p].pattern == Some(pattern) && !DeletesPlaybook(cs, p) {
      assert Fate(start, db, cs, p);
      assert p in db.playbooks && db.playbooks[p].pattern == Some(pattern);
    }
    if p :| p in db.playbooks && db.playbooks[p].pattern == Some(pattern) {
      assert Fate(start, db, cs, p);
    }
  }

  /**
    The comment at remediate_playbook_corpus.py:1246-1248 promises to drop a pattern's links only if
    the pattern has no playbook left. The code asks for that only before it deactivates the pattern,
    so over a run the promise holds exactly for patterns that keep their links or lose all playbooks.
   */
  lemma LinksDropOnlyWithLastPlaybookIff(start: Db, db: Db, cs: seq<Change>, pattern: Uuid)
    requires LoadedFrom(start, cs) && Ran(start, db, cs)
    ensures (LosesLink(start, db, pattern) ==> !HasPlaybook(db.playbooks, pattern)) <==>
      !IsStripped(start, cs, pattern) || IsEmptied(start, cs, pattern)
  {
    LosesLinkIffStripped(start, db, cs, pattern);
    HasNoPlaybookIffEmptied(start, db, cs, pattern);
  }

  /** Two playbooks of pattern 9, and an episode that belongs to that pattern alone. */
  ghost function TwoOfOnePattern(): Db {
    Db(map[1 := Playbook(Some(9), Some(5), false, ""), 2 := Playbook(Some(9), Some(6), false, "")],
       map[5 := Version(1, "0.1.0", "", None), 6 := Version(2, "0.1.0", "", None)], map[], map[], map[],
       map[9 := true], map[3 := PatternLink(9, Some(4))])
  }

  /** One of them is to be deleted. */
  ghost function OneOfTwo(): seq<Change> {
    [Change(1, Merges.Delete, 9, 5, "", "", "", map[4 := 1]), Change(2, Merges.Keep, 9, 6, "", "", "", map[4 := 1])]
  }

  lemma OneOfTwoIsLoaded()
    ensures NothingOrphaned(TwoOfOnePattern())
    ensures LoadedFrom(TwoOfOnePattern(), OneOfTwo())
  {
    var start, cs := TwoOfOnePattern(), OneOfTwo();
    OrphansAreRows(start);
    assert start.patternLinks[3] == PatternLink(9, Some(4)) && PatternsOf(start, 4) == {9};
    assert IsLoaded(start, cs[0]) && IsLoaded(start, cs[1]);
  }

  lemma OneOfTwoIsCorpus()
    ensures IsCorpus(TwoOfOnePattern(), OneOfTwo())
  {
    var start, cs := TwoOfOnePattern(), OneOfTwo();
    OneOfTwoIsLoaded();
    assert cs[0].playbook == 1 && cs[1].playbook == 2;
    assert start.patternLinks[3] == PatternLink(9, Some(4));
    assert forall i | 0 <= i < |cs| :: EpisodesOf(start, cs[i]) == {4};
  }

  lemma OneOfTwoStrips()
    ensures IsStripped(TwoOfOnePattern(), OneOfTwo(), 9) && !IsEmptied(TwoOfOnePattern(), OneOfTwo(), 9)
    ensures forall i | 0 <= i < |OneOfTwo()| :: !BlockedAt(TwoOfOnePattern(), OneOfTwo(), i)
  {
    var start, cs := TwoOfOnePattern(), OneOfTwo();
    assert 3 in start.patternLinks && start.patternLinks[3] == PatternLink(9, Some(4));
    assert TakesLink(cs[0], start.patternLinks[3]);
    assert DropsLink(cs, start.patternLinks[3]);
    assert 2 in start.playbooks && start.playbooks[2].pattern == Some(9) && !DeletesPlaybook(cs, 2);
  }

  /** The deletion is carried out; the pattern then loses its link and keeps a playbook. */
  lemma LinkDropsBeforeLastPlaybook() returns (start: Db, cs: seq<Change>)
    ensures IsCorpus(start, cs) && NothingOrphaned(start)
    ensures forall i | 0 <= i < |cs| :: !BlockedAt(start, cs, i)
    ensures forall db | Ran(start, db, cs) :: LosesLink(start, db, 9) && HasPlaybook(db.playbooks, 9)
  {
    start, cs := TwoOfOnePattern(), OneOfTwo();
    OneOfTwoIsLoaded();
    OneOfTwoIsCorpus();
    OneOfTwoStrips();
    forall db | Ran(start, db, cs) ensures LosesLink(start, db, 9) && HasPlaybook(db.playbooks, 9) {
      LosesLinkIffStripped(start, db, cs, 9);
      HasNoPlaybookIffEmptied(start, db, cs, 9);
    }
  }

  // --- Pattern activity -------------------------------------------------------------------

  ghost predicate NamedByDeletion(cs: seq<Change>, pattern: Uuid) {
    exists i | 0 <= i < |cs| :: cs[i].action.Delete? && cs[i].pattern == pattern
  }

  /** A decision adds no playbook, changes no playbook's pattern, and deactivates only a pattern left empty. */
  lemma StepOnRows(seen: set<Uuid>, db: Db, after: Db, c: Change)
    requires Applied(seen, db, after, c) && IsLoadedNow(db, c)
    ensures forall p | p in after.playbooks :: p in db.playbooks && after.playbooks[p].pattern == db.playbooks[p].pattern
    ensures forall p | p in db.playbooks :: p in after.playbooks || (c.action.Delete? && p == c.playbook)
    ensures after.patternActive == if c.action.Delete? && !HasPlaybook(after.playbooks, c.pattern)
                                   then db.patternActive[c.pattern := false] else db.patternActive
  {
    if Revises(c) {
      var v :| Revised(seen, db, after, c, v);
      RevisedKeeps(seen, db, after, c, v);
    } else if c.action.Delete? {
      DeletedTables(db, c);
    }
  }

  lemma PatternsKeepPlaybooks(before: map<Uuid, Playbook>, after: map<Uuid, Playbook>, c: Change, pattern: Uuid)
    requires forall p | p in after :: p in before && after[p].pattern == before[p].pattern
    requires forall p | p in before :: p in after || (c.action.Delete? && p == c.playbook)
    requires c.playbook in before && before[c.playbook].pattern == Some(c.pattern)
    ensures HasPlaybook(after, pattern) ==> HasPlaybook(before, pattern)
    ensures !(c.action.Delete? && c.pattern == pattern) && HasPlaybook(before, pattern) ==> HasPlaybook(after, pattern)
  {
    if HasPlaybook(after, pattern) {
      var p :| p in after && after[p].pattern == Some(pattern);
      assert p in before;
    }
    if !(c.action.Delete? && c.pattern == pattern) && HasPlaybook(before, pattern) {
      var p :| p in before && before[p].pattern == Some(pattern);
      assert p in after;
    }
  }

  ghost predicate IsLoadedNow(db: Db, c: Change) {
    c.playbook in db.playbooks && db.playbooks[c.playbook].pattern == Some(c.pattern)
  }

  /**
    A pattern's flag changes exactly when a deletion takes its last playbook; it is then inactive,
    and in the end no playbook refers to it.
   */
  lemma {:induction false} FateOfPattern(start: Db, db: Db, cs: seq<Change>, pattern: Uuid)
    requires LoadedFrom(start, cs) && Ran(start, db, cs) && pattern in start.patternActive
    ensures pattern in db.patternActive
    ensures db.patternActive[pattern] ==
            if NamedByDeletion(cs, pattern) && !HasPlaybook(db.playbooks, pattern) then false else start.patternActive[pattern]
    decreases |cs|
  {
    if cs != [] {
      var init, c := cs[..|cs| - 1], cs[|cs| - 1];
      var mid :| RanLast(start, mid, db, cs);
      EarlierDoNotConcern(start, cs);
      FateOfPattern(start, mid, init, pattern);
      RunLeavesOthers(start, mid, init, c.playbook);
      assert IsLoaded(start, c);
      StepOnRows(start.versions.Keys, mid, db, c);
      PatternsKeepPlaybooks(mid.playbooks, db.playbooks, c, pattern);
      SplitNamed(cs, pattern);
    }
  }

  lemma SplitNamed(cs: seq<Change>, pattern: Uuid)
    requires cs != []
    ensures NamedByDeletion(cs, pattern) <==>
      NamedByDeletion(cs[..|cs| - 1], pattern) || (cs[|cs| - 1].action.Delete? && cs[|cs| - 1].pattern == pattern)
  {
    var n := |cs| - 1;
    assert forall i | 0 <= i < n :: cs[..n][i] == cs[i];
    if NamedByDeletion(cs, pattern) {
      var i :| 0 <= i < |cs| && cs[i].action.Delete? && cs[i].pattern == pattern;
      if i < n { assert cs[..n][i].action.Delete? && cs[..n][i].pattern == pattern; }
    }
    if NamedByDeletion(cs[..n], pattern) {
      var i :| 0 <= i < n && cs[..n][i].action.Delete? && cs[..n][i].pattern == pattern;
      assert cs[i].action.Delete? && cs[i].pattern == pattern;
    }
  }
}
