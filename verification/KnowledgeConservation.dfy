/**
  Migrate-then-delete never becomes delete-without-migrate, and what the downgrade can and cannot
  put back.
 */
module KnowledgeConservation {
  import opened Wrappers
  import opened KnowledgeMigration

  ghost predicate NoEarlierTombstones(t: Tables) {
    t.episodeBackup.None? && t.stepBackup.None?
  }

  // --- Conservation -----------------------------------------------------------------------

  ghost predicate IsCaseFor(t: Tables, cases: map<Uuid, KnowledgeCase>, c: Uuid, e: Uuid)
    requires Resolved(t, e)
  {
    c in cases && cases[c].tenant == t.episodes[e].tenant && cases[c].source == Source(t, e)
  }

  /** Invalidated because its source is no observation: a document someone wrote. */
  ghost predicate IsMisread(t: Tables, e: Uuid) {
    && e in t.episodes && t.episodes[e].reviewerState == "invalidated"
    && t.episodes[e].invalidReason == Some("source_not_observational")
  }

  /** Without an earlier tombstone in the way, a target is in the new one with all its steps, and nothing else is. */
  lemma TargetIsTombstoned(t: Tables, u: Tables, e: Uuid)
    requires Upgraded(t, u) && e in Targets(t)
    ensures u.episodeBackup.Some? && u.stepBackup.Some?
    ensures t.episodeBackup.None? ==> forall f | f in u.episodeBackup.value :: IsMisread(t, f)
    ensures t.stepBackup.None? ==>
      forall s | s in u.stepBackup.value :: s in t.steps && IsMisread(t, t.steps[s].episode)
    ensures t.episodeBackup.None? ==> e in u.episodeBackup.value && u.episodeBackup.value[e] == t.episodes[e]
    ensures t.stepBackup.None? ==>
      forall s | s in t.steps && t.steps[s].episode == e :: s in u.stepBackup.value && u.stepBackup.value[s] == t.steps[s]
  {
    assert Targets(t) != {};
    BackupsAreMade(t, u);
    TargetEpisodesAreMisread(t);
    TargetStepsAreMisread(t);
  }

  lemma BackupsAreMade(t: Tables, u: Tables)
    requires Upgraded(t, u) && Targets(t) != {}
    ensures u.episodeBackup == Backup(t.episodeBackup, TargetEpisodes(t)) && u.stepBackup == Backup(t.stepBackup, TargetSteps(t))
  {
  }

  lemma TargetEpisodesAreMisread(t: Tables)
    ensures forall f | f in TargetEpisodes(t) :: IsMisread(t, f)
    ensures forall f | f in Targets(t) :: f in TargetEpisodes(t) && TargetEpisodes(t)[f] == t.episodes[f]
  {
  }

  lemma TargetStepsAreMisread(t: Tables)
    ensures forall s | s in TargetSteps(t) :: s in t.steps && IsMisread(t, t.steps[s].episode)
    ensures forall s | s in t.steps && t.steps[s].episode in Targets(t) :: s in TargetSteps(t) && TargetSteps(t)[s] == t.steps[s]
  {
  }

  /**
    A target stays live exactly when none of its evidence is a knowledge document; otherwise exactly
    one case stands for its (tenant, source).
   */
  lemma TargetIsConserved(t: Tables, u: Tables, e: Uuid)
    requires Upgraded(t, u) && e in Targets(t)
    ensures e in u.episodes <==> forall id | id in t.episodes[e].evidenceIds :: !IsKnowledge(t.evidence, id)
    ensures Resolved(t, e) ==> exists c :: IsCaseFor(t, u.cases, c, e) && forall d | IsCaseFor(t, u.cases, d, e) :: d == c
    ensures !Resolved(t, e) ==> u.episodes[e] == t.episodes[e]
  {
    assert Targets(t) != {};
    if Resolved(t, e) {
      assert HasCase(u.cases, t.episodes[e].tenant, Source(t, e));
      var c :| c in u.cases && u.cases[c].tenant == t.episodes[e].tenant && u.cases[c].source == Source(t, e);
      assert IsCaseFor(t, u.cases, c, e);
    }
  }

  /** Only resolved episodes lose anything, and those are targets. */
  lemma WithoutResolvedKeepsOthers(t: Tables)
    ensures var w := WithoutResolved(t);
      && w.episodes.Keys <= t.episodes.Keys
      && (forall e | e in t.episodes && e !in Targets(t) :: e in w.episodes && w.episodes[e] == t.episodes[e])
      && (forall s | s in t.steps && t.steps[s].episode !in Targets(t) :: s in w.steps && w.steps[s] == t.steps[s])
      && (forall l | l in t.links && t.links[l].episode !in Targets(t) :: l in w.links && w.links[l] == t.links[l])
      && (forall l | l in t.issues && t.issues[l].episode !in Targets(t) :: l in w.issues && w.issues[l] == t.issues[l])
  {
    assert forall e :: Resolved(t, e) ==> e in Targets(t);
  }

  /** Episodes that are not targets keep their row, their steps and their links. */
  lemma OthersAreUntouched(t: Tables, u: Tables)
    requires Upgraded(t, u)
    ensures u.episodes.Keys <= t.episodes.Keys
    ensures forall e :: e in Targets(t) <==> IsMisread(t, e)
    ensures forall e | e in t.episodes && e !in Targets(t) :: e in u.episodes && u.episodes[e] == t.episodes[e]
    ensures forall s | s in t.steps && t.steps[s].episode !in Targets(t) :: s in u.steps && u.steps[s] == t.steps[s]
    ensures forall l | l in t.links && t.links[l].episode !in Targets(t) :: l in u.links && u.links[l] == t.links[l]
    ensures forall l | l in t.issues && t.issues[l].episode !in Targets(t) :: l in u.issues && u.issues[l] == t.issues[l]
    ensures u.patternLinks == t.patternLinks
    ensures Extends(t.cases, u.cases) && Extends(t.caseSteps, u.caseSteps)
  {
    WithoutResolvedKeepsOthers(t);
  }

  /** Nothing dangles afterwards, and the unique keys still hold. */
  lemma UpgradeKeepsValid(t: Tables, u: Tables)
    requires Valid(t) && Upgraded(t, u)
    ensures Valid(u)
  {
    if Targets(t) != {} {
      forall x | x in u.caseSteps ensures u.caseSteps[x].case_ in u.cases {
        if x !in t.caseSteps {
          var s :| IsNewStep(t, u.cases, u.caseSteps[x], s);
        } else {
          assert t.caseSteps[x].case_ in t.cases;
        }
      }
    }
  }

  // --- What a new case is -----------------------------------------------------------------

  /** Case step `x` of `c` is the image of episode step `s`. */
  ghost predicate IsImage(t: Tables, u: Tables, c: Uuid, x: Uuid, s: Uuid) {
    && x in u.caseSteps && s in t.steps
    && var step, was := u.caseSteps[x], t.steps[s];
       && step.case_ == c && step.order == was.order && step.kind == was.kind && step.text == was.text
       && step.expectedOutcome == was.observation && step.confidence == was.confidence && step.refs == was.refs
  }

  /**
    A case that was not there before is a richest reconstruction of its (tenant, source), and its
    steps are the images of that episode's steps, one for one.
   */
  lemma NewCaseIsRichest(t: Tables, u: Tables, c: Uuid) returns (e: Uuid)
    requires Valid(t) && Upgraded(t, u) && c in u.cases && c !in t.cases
    ensures Richest(Candidates(t), e) && u.cases[c] == CaseFrom(t, e)
    ensures Resolved(t, e) && forall f | Resolved(t, f) && OfSameDocument(t, e, f) :: IsNoRicher(t, f, e)
    ensures forall s | s in t.steps && t.steps[s].episode == e :: exists x :: IsImage(t, u, c, x, s)
    ensures forall x | x in u.caseSteps && u.caseSteps[x].case_ == c ::
              exists s :: IsImage(t, u, c, x, s) && t.steps[s].episode == e
    ensures forall x, y, s | IsImage(t, u, c, x, s) && IsImage(t, u, c, y, s) :: x == y
  {
    e :| IsNewCase(t, u.cases[c], e);
    assert u.cases[c].migratedFrom == Some(e);
    NewCaseCarriesSteps(t, u, c, e);
    forall f | Resolved(t, f) && OfSameDocument(t, e, f) ensures IsNoRicher(t, f, e) {
      RichestIsNoPoorer(t, e, f);
    }
  }

  lemma RichestIsNoPoorer(t: Tables, e: Uuid, f: Uuid)
    requires Resolved(t, e) && Resolved(t, f) && OfSameDocument(t, e, f) && Richest(Candidates(t), e)
    ensures IsNoRicher(t, f, e)
  {
    assert f in Candidates(t) && SamePartition(Candidates(t)[e], Candidates(t)[f]);
    CountsSteps(t, e);
    CountsSteps(t, f);
  }

  lemma CountsSteps(t: Tables, e: Uuid)
    ensures StepCount(t, e) == |StepsOf(t, e)|
  {
    assert StepsOf(t, e) == (set s | s in t.steps && t.steps[s].episode == e);
  }

  /** Reconstructions of one document for one tenant. */
  ghost predicate OfSameDocument(t: Tables, e: Uuid, f: Uuid)
    requires Resolved(t, e) && Resolved(t, f)
  {
    t.episodes[f].tenant == t.episodes[e].tenant && Source(t, f) == Source(t, e)
  }

  ghost function StepsOf(t: Tables, e: Uuid): set<Uuid> {
    set s | s in t.steps && t.steps[s].episode == e
  }

  /** No more steps; with as many, no higher confidence; with the same confidence, no later. */
  ghost predicate IsNoRicher(t: Tables, f: Uuid, e: Uuid)
    requires f in t.episodes && e in t.episodes
  {
    var m, n := |StepsOf(t, f)|, |StepsOf(t, e)|;
    && m <= n
    && (m == n ==> t.episodes[f].confidence <= t.episodes[e].confidence)
    && (m == n && t.episodes[f].confidence == t.episodes[e].confidence ==>
          t.episodes[f].createdAt <= t.episodes[e].createdAt)
  }

  /**
    Column by column: cause and outcome become the documented cause and resolution, and a case made
    from several documents, of which the earliest stands for it, is up for review.
   */
  lemma NewCaseReads(t: Tables, u: Tables, c: Uuid) returns (e: Uuid)
    requires Valid(t) && Upgraded(t, u) && c in u.cases && c !in t.cases
    ensures e in t.episodes && u.cases[c].migratedFrom == Some(e)
    ensures var case_, ep := u.cases[c], t.episodes[e];
            && case_.tenant == ep.tenant && case_.title == ep.title && case_.createdAt == ep.createdAt
            && case_.documentedCause == ep.rootCause && case_.documentedResolution == ep.finalOutcome
            && case_.confidence == ep.confidence && case_.synthesisedFrom == ep.evidenceIds
            && (case_.needsReview <==> |ep.evidenceIds| > 1)
    ensures var source := u.cases[c].source;
            && source in t.episodes[e].evidenceIds && source in t.evidence
            && u.cases[c].sourceKind == t.evidence[source].kind && !t.evidence[source].kind.OtherType?
    ensures forall id | id in t.episodes[e].evidenceIds && id in t.evidence && !t.evidence[id].kind.OtherType? ::
              ComesFirst(t.evidence, u.cases[c].source, id)
  {
    e := NewCaseIsRichest(t, u, c);
  }

  lemma NewCaseCarriesSteps(t: Tables, u: Tables, c: Uuid, e: Uuid)
    requires Valid(t) && StepsInserted(t, u.cases, u.caseSteps)
    requires c in u.cases && c !in t.cases && u.cases[c].migratedFrom == Some(e)
    ensures forall s | s in t.steps && t.steps[s].episode == e :: exists x :: IsImage(t, u, c, x, s)
    ensures forall x | x in u.caseSteps && u.caseSteps[x].case_ == c ::
              exists s :: IsImage(t, u, c, x, s) && t.steps[s].episode == e
    ensures forall x, y, s | IsImage(t, u, c, x, s) && IsImage(t, u, c, y, s) :: x == y
  {
    forall x | x in u.caseSteps && u.caseSteps[x].case_ == c
      ensures exists s :: IsImage(t, u, c, x, s) && t.steps[s].episode == e
    {
      assert x !in t.caseSteps;
      var s :| IsNewStep(t, u.cases, u.caseSteps[x], s);
      assert IsImage(t, u, c, x, s);
    }
    forall s | s in t.steps && t.steps[s].episode == e ensures exists x :: IsImage(t, u, c, x, s) {
      assert HasStep(u.caseSteps, c, t.steps[s].order);
      var x :| x in u.caseSteps && u.caseSteps[x].case_ == c && u.caseSteps[x].order == t.steps[s].order;
      var r :| IsImage(t, u, c, x, r) && t.steps[r].episode == e;
      assert r == s;
    }
  }

  /** Where no case stood for the document before, the one that stands for it now is new. */
  lemma FirstCaseIsNew(t: Tables, u: Tables, e: Uuid, c: Uuid)
    requires Upgraded(t, u) && Resolved(t, e) && IsCaseFor(t, u.cases, c, e)
    ensures !HasCase(t.cases, t.episodes[e].tenant, Source(t, e)) <==> c !in t.cases
  {
    assert e in Targets(t);
    if HasCase(t.cases, t.episodes[e].tenant, Source(t, e)) {
      var d :| d in t.cases && t.cases[d].tenant == t.episodes[e].tenant && t.cases[d].source == Source(t, e);
      assert d in u.cases && u.cases[d] == t.cases[d];
    }
  }

  // --- What the downgrade puts back -------------------------------------------------------

  /** The rows of `now` are those of `table`, and the rows of `backup` under the ids it lacks. */
  ghost predicate Completes<V>(table: map<Uuid, V>, backup: map<Uuid, V>, now: map<Uuid, V>) {
    && now.Keys == table.Keys + backup.Keys
    && (forall k | k in table :: now[k] == table[k])
    && forall k | k in backup && k !in table :: now[k] == backup[k]
  }

  /** A step has its episode, and no other of that episode has its order. */
  ghost predicate Belongs(t: Tables, s: Uuid)
    requires s in t.steps
  {
    && t.steps[s].episode in t.episodes
    && forall r | r in t.steps && t.steps[r].episode == t.steps[s].episode && r != s :: t.steps[r].order != t.steps[s].order
  }

  /** With both tombstones, the tables as completed by them; the downgrade fits exactly when all their steps do. */
  lemma DowngradeReads(t: Tables)
    requires t.episodeBackup != None && t.stepBackup != None
    ensures var d := Downgraded(t);
            && Completes(t.episodes, t.episodeBackup.value, d.episodes)
            && Completes(t.steps, t.stepBackup.value, d.steps)
            && (DowngradeFits(t) <==> forall s | s in d.steps :: Belongs(d, s))
            && (forall c :: c in d.cases <==> c in t.cases && t.cases[c].migratedFrom == None)
            && (forall c | c in d.cases :: d.cases[c] == t.cases[c])
            && d.episodeBackup == None && d.stepBackup == None
  {
    var d := Downgraded(t);
    if forall s | s in d.steps :: Belongs(d, s) {
      forall s, r | s in d.steps && r in d.steps && d.steps[s].episode == d.steps[r].episode &&
                    d.steps[s].order == d.steps[r].order
        ensures s == r
      {
        assert Belongs(d, s);
      }
    }
  }

  // --- Round trip -------------------------------------------------------------------------

  /** `INSERT ... ON CONFLICT DO NOTHING` rebuilds a table exactly from what is left of it and a backup of the rest. */
  lemma RebuildsIff<V>(whole: map<Uuid, V>, kept: map<Uuid, V>, backup: map<Uuid, V>)
    requires Extends(kept, whole)
    ensures InsertMissing(kept, backup) == whole <==>
      && (forall k | k in whole && k !in kept :: k in backup && backup[k] == whole[k])
      && (forall k | k in backup :: k in whole)
  {
    var d := InsertMissing(kept, backup);
    assert d.Keys == backup.Keys + kept.Keys;
    if d == whole {
      assert forall k | k in whole && k !in kept :: d[k] == backup[k];
    }
  }

  /** Upgrade then downgrade: episodes and steps come back exactly, unmigrated cases never changed. */
  lemma RoundTrip(t: Tables, u: Tables)
    requires Valid(t) && Upgraded(t, u) && NoEarlierTombstones(t)
    ensures var d := Downgraded(u);
            && DowngradeFits(u)
            && d.episodes == t.episodes && d.steps == t.steps
            && d.evidence == t.evidence && d.patternLinks == t.patternLinks
            && NoEarlierTombstones(d)
            && (Targets(t) != {} ==> && d.cases == Unmigrated(t.cases)
                                     && d.caseSteps == UnmigratedSteps(t.cases, t.caseSteps)
                                     && d.links == WithoutResolved(t).links
                                     && d.issues == WithoutResolved(t).issues)
            && (Targets(t) == {} ==> d == t)
  {
    if Targets(t) != {} {
      EpisodesAndStepsGoBack(t, u);
      CasesGoBack(t, u);
    }
  }

  lemma EpisodesAndStepsGoBack(t: Tables, u: Tables)
    requires Upgraded(t, u) && NoEarlierTombstones(t) && Targets(t) != {}
    ensures Downgraded(u).episodes == t.episodes && Downgraded(u).steps == t.steps
  {
    RebuildsIff(t.episodes, WithoutResolved(t).episodes, TargetEpisodes(t));
    forall s | s in t.steps && s !in WithoutResolved(t).steps ensures s in TargetSteps(t) {
      assert t.steps[s].episode in Targets(t);
    }
    RebuildsIff(t.steps, WithoutResolved(t).steps, TargetSteps(t));
  }

  lemma NewRowsAreMigrated(t: Tables, cases: map<Uuid, KnowledgeCase>, caseSteps: map<Uuid, CaseStep>)
    requires CasesInserted(t, cases) && StepsInserted(t, cases, caseSteps)
    ensures forall c | c in cases && c !in t.cases :: cases[c].migratedFrom.Some?
    ensures forall x | x in caseSteps && x !in t.caseSteps ::
              caseSteps[x].case_ in cases && cases[caseSteps[x].case_].migratedFrom.Some?
  {
    forall c | c in cases && c !in t.cases ensures cases[c].migratedFrom.Some? {
      var e :| IsNewCase(t, cases[c], e);
    }
    forall x | x in caseSteps && x !in t.caseSteps
      ensures caseSteps[x].case_ in cases && cases[caseSteps[x].case_].migratedFrom.Some?
    {
      var s :| IsNewStep(t, cases, caseSteps[x], s);
    }
  }

  lemma UnmigratedGoBack(cases: map<Uuid, KnowledgeCase>, after: map<Uuid, KnowledgeCase>,
                         caseSteps: map<Uuid, CaseStep>, stepsAfter: map<Uuid, CaseStep>)
    requires Extends(cases, after) && Extends(caseSteps, stepsAfter)
    requires forall x | x in caseSteps :: caseSteps[x].case_ in cases
    requires forall c | c in after && c !in cases :: after[c].migratedFrom.Some?
    requires forall x | x in stepsAfter && x !in caseSteps ::
               stepsAfter[x].case_ in after && after[stepsAfter[x].case_].migratedFrom.Some?
    ensures Unmigrated(after) == Unmigrated(cases)
    ensures UnmigratedSteps(after, stepsAfter) == UnmigratedSteps(cases, caseSteps)
  {
    forall x | x in caseSteps ensures after[caseSteps[x].case_] == cases[caseSteps[x].case_] {}
  }

  lemma CasesGoBack(t: Tables, u: Tables)
    requires u.episodeBackup.Some? && u.stepBackup.Some?
    requires CasesInserted(t, u.cases) && StepsInserted(t, u.cases, u.caseSteps)
    requires forall x | x in t.caseSteps :: t.caseSteps[x].case_ in t.cases
    ensures Downgraded(u).cases == Unmigrated(t.cases)
    ensures Downgraded(u).caseSteps == UnmigratedSteps(t.cases, t.caseSteps)
  {
    var d := Downgraded(u);
    assert d.cases == Unmigrated(u.cases) && d.caseSteps == UnmigratedSteps(u.cases, u.caseSteps);
    NewRowsAreMigrated(t, u.cases, u.caseSteps);
    UnmigratedGoBack(t.cases, u.cases, t.caseSteps, u.caseSteps);
  }

  lemma NothingMigratedIff(t: Tables)
    requires Valid(t)
    ensures Unmigrated(t.cases) == t.cases <==> forall c | c in t.cases :: t.cases[c].migratedFrom.None?
    ensures Unmigrated(t.cases) == t.cases ==> UnmigratedSteps(t.cases, t.caseSteps) == t.caseSteps
  {
    if Unmigrated(t.cases) == t.cases {
      forall c | c in t.cases ensures t.cases[c].migratedFrom.None? {
        assert c in Unmigrated(t.cases);
      }
    }
  }

  lemma NoLinkLostIff(t: Tables)
    ensures WithoutResolved(t).links == t.links <==> forall l | l in t.links :: !Resolved(t, t.links[l].episode)
    ensures WithoutResolved(t).issues == t.issues <==> forall l | l in t.issues :: !Resolved(t, t.issues[l].episode)
  {
    if WithoutResolved(t).links == t.links {
      forall l | l in t.links ensures !Resolved(t, t.links[l].episode) {
        assert l in WithoutResolved(t).links;
      }
    }
    if WithoutResolved(t).issues == t.issues {
      forall l | l in t.issues ensures !Resolved(t, t.issues[l].episode) {
        assert l in WithoutResolved(t).issues;
      }
    }
  }

  /** No case was migrated earlier, and no cascading link hangs on an episode to be deleted. */
  ghost predicate NothingElseLost(t: Tables) {
    && (forall c | c in t.cases :: t.cases[c].migratedFrom.None?)
    && (forall l | l in t.links :: !Resolved(t, t.links[l].episode))
    && (forall l | l in t.issues :: !Resolved(t, t.issues[l].episode))
  }

  /**
    The whole database comes back exactly when there was no target and no pair of old tombstones, or
    there was no tombstone at all and nothing else was lost: cascaded links have no tombstone.
   */
  lemma RoundTripIsExactIff(t: Tables, u: Tables)
    requires Valid(t) && Upgraded(t, u)
    ensures DowngradeFits(u) && Downgraded(u) == t <==>
      if Targets(t) == {} then t.episodeBackup.None? || t.stepBackup.None?
      else NoEarlierTombstones(t) && NothingElseLost(t)
  {
    if Targets(t) != {} {
      assert Downgraded(u).episodeBackup.None? && Downgraded(u).stepBackup.None?;
      if NoEarlierTombstones(t) {
        ExactIfNothingElseLost(t, u);
      }
    }
  }

  lemma ExactIfNothingElseLost(t: Tables, u: Tables)
    requires Valid(t) && Upgraded(t, u) && NoEarlierTombstones(t) && Targets(t) != {}
    ensures DowngradeFits(u) && (Downgraded(u) == t <==> NothingElseLost(t))
  {
    RoundTrip(t, u);
    NothingElseLostIff(t);
    RestEqual(t, Downgraded(u));
  }

  lemma NothingElseLostIff(t: Tables)
    requires Valid(t)
    ensures NothingElseLost(t) <==>
      && Unmigrated(t.cases) == t.cases && UnmigratedSteps(t.cases, t.caseSteps) == t.caseSteps
      && WithoutResolved(t).links == t.links && WithoutResolved(t).issues == t.issues
  {
    NothingMigratedIff(t);
    NoLinkLostIff(t);
  }

  /** Databases that agree on what always comes back are equal when they agree on the rest. */
  lemma RestEqual(t: Tables, d: Tables)
    requires d.episodes == t.episodes && d.steps == t.steps && d.evidence == t.evidence && d.patternLinks == t.patternLinks
    requires NoEarlierTombstones(t) && NoEarlierTombstones(d)
    ensures d == t <==>
      && d.cases == t.cases && d.caseSteps == t.caseSteps
      && d.links == t.links && d.issues == t.issues
  {
  }

  // --- Tombstones left by an earlier run --------------------------------------------------

  /** The earlier episode tombstone says of this database what a new one would need to say. */
  ghost predicate StandsIn(t: Tables, backup: map<Uuid, Episode>) {
    && (forall e | Resolved(t, e) :: e in backup && backup[e] == t.episodes[e])
    && forall e | e in backup :: e in t.episodes
  }

  /** The same of the tombstone of steps. */
  ghost predicate StepsStandIn(t: Tables, backup: map<Uuid, EpisodeStep>) {
    && (forall s | s in t.steps && Resolved(t, t.steps[s].episode) :: s in backup && backup[s] == t.steps[s])
    && forall s | s in backup :: s in t.steps
  }

  /** Whatever tombstones there are stand in for new ones, unless nothing is done in either direction. */
  ghost predicate TombstonesStandIn(t: Tables) {
    || (Targets(t) == {} && (t.episodeBackup.None? || t.stepBackup.None?))
    || ((t.episodeBackup.Some? ==> StandsIn(t, t.episodeBackup.value)) &&
        (t.stepBackup.Some? ==> StepsStandIn(t, t.stepBackup.value)))
  }

  /**
    `CREATE TABLE IF NOT EXISTS` keeps a tombstone that is already there. So the downgrade succeeds
    and puts episodes and steps back exactly when those tombstones hold every deleted row as it was,
    and no row that was gone.
   */
  lemma EpisodesComeBackIff(t: Tables, u: Tables)
    requires Valid(t) && Upgraded(t, u)
    ensures DowngradeFits(u) && Downgraded(u).episodes == t.episodes && Downgraded(u).steps == t.steps <==>
      TombstonesStandIn(t)
  {
    if Targets(t) == {} {
      NoTargetComesBackIff(t);
    } else {
      RebuiltIff(t, u);
      RestoredFits(t, u);
    }
  }

  lemma RebuiltIff(t: Tables, u: Tables)
    requires Valid(t) && Upgraded(t, u) && Targets(t) != {}
    ensures Downgraded(u).episodes == t.episodes && Downgraded(u).steps == t.steps <==> TombstonesStandIn(t)
  {
    NewTombstonesStandIn(t);
    EpisodesRebuildIff(t, u.episodes, u.episodeBackup.value);
    StepsRebuildIff(t, u.steps, u.stepBackup.value);
  }

  lemma RestoredFits(t: Tables, u: Tables)
    requires Valid(t)
    ensures Downgraded(u).episodes == t.episodes && Downgraded(u).steps == t.steps ==> DowngradeFits(u)
  {
  }

  lemma EpisodesRebuildIff(t: Tables, kept: map<Uuid, Episode>, backup: map<Uuid, Episode>)
    requires kept == WithoutResolved(t).episodes
    ensures InsertMissing(kept, backup) == t.episodes <==> StandsIn(t, backup)
  {
    ResolvedAreGone(t);
    RebuildsIff(t.episodes, kept, backup);
  }

  lemma StepsRebuildIff(t: Tables, kept: map<Uuid, EpisodeStep>, backup: map<Uuid, EpisodeStep>)
    requires kept == WithoutResolved(t).steps
    ensures InsertMissing(kept, backup) == t.steps <==> StepsStandIn(t, backup)
  {
    ResolvedAreGone(t);
    RebuildsIff(t.steps, kept, backup);
  }

  lemma NoTargetComesBackIff(t: Tables)
    requires Valid(t) && Targets(t) == {}
    ensures DowngradeFits(t) && Downgraded(t).episodes == t.episodes && Downgraded(t).steps == t.steps <==>
      TombstonesStandIn(t)
  {
    assert forall e :: Resolved(t, e) ==> e in Targets(t);
    if t.episodeBackup.Some? && t.stepBackup.Some? {
      RebuildsIff(t.episodes, t.episodes, t.episodeBackup.value);
      RebuildsIff(t.steps, t.steps, t.stepBackup.value);
      assert StepsFit(t.episodes, t.steps);
    }
  }

  lemma NewTombstonesStandIn(t: Tables)
    requires Valid(t)
    ensures StandsIn(t, TargetEpisodes(t)) && StepsStandIn(t, TargetSteps(t))
  {
    forall s | s in t.steps && Resolved(t, t.steps[s].episode) ensures s in TargetSteps(t) {
      assert t.steps[s].episode in Targets(t);
    }
  }

  lemma ResolvedAreGone(t: Tables)
    ensures Extends(WithoutResolved(t).episodes, t.episodes) && Extends(WithoutResolved(t).steps, t.steps)
    ensures forall e :: Resolved(t, e) <==> e in t.episodes && e !in WithoutResolved(t).episodes
    ensures forall s | s in t.steps :: Resolved(t, t.steps[s].episode) <==> s !in WithoutResolved(t).steps
  {
  }

  // --- Inputs for which something is lost -------------------------------------------------

  const KB_EPISODE := Episode(7, "", None, None, 0.0, 0, "invalidated", Some("source_not_observational"), [5], "")

  /** One invalidated episode with a knowledge article, and nothing that hangs on it. */
  function OneTarget(): (t: Tables)
    ensures Valid(t) && Resolved(t, 1) && NoEarlierTombstones(t) && t.patternLinks == map[]
  {
    var t := Tables(map[5 := Evidence(KbArticle, None)], map[1 := KB_EPISODE], map[], map[], map[], map[], map[], map[], None, None);
    assert 5 in KB_EPISODE.evidenceIds && IsKnowledge(t.evidence, 5);
    t
  }

  /** `t` has the episodes and the evidence of `t0`. */
  lemma SameTarget(t0: Tables, t: Tables)
    requires t.evidence == t0.evidence && t.episodes == t0.episodes && Resolved(t0, 1)
    ensures Resolved(t, 1) && Targets(t) != {}
  {
    assert 1 in Targets(t);
  }

  /** An empty tombstone of an earlier run: the episode is then in neither table. */
  lemma StaleTombstoneLosesEpisode() returns (t: Tables, e: Uuid)
    ensures Valid(t) && Resolved(t, e) && !Refused(t)
    ensures forall u | Upgraded(t, u) :: e !in u.episodes && e !in u.episodeBackup.value && e !in Downgraded(u).episodes
  {
    e := 1;
    t := OneTarget().(episodeBackup := Some(map[]), stepBackup := Some(map[]));
    SameTarget(OneTarget(), t);
  }

  /** A target with one step, and only the tombstone of steps left over. */
  lemma OneStepOfTarget() returns (t: Tables, s: Uuid)
    ensures Valid(t) && !Refused(t) && Targets(t) != {}
    ensures t.episodeBackup.None? && t.stepBackup == Some(map[])
    ensures s in t.steps && Resolved(t, t.steps[s].episode)
  {
    s := 2;
    t := OneTarget().(steps := map[s := EpisodeStep(1, 1, "", "", None, 0.0, "", "")], stepBackup := Some(map[]));
    SameTarget(OneTarget(), t);
    assert t.steps[s].episode == 1;
  }

  /** The episode comes back without its step. */
  lemma StaleStepTombstoneLosesStep() returns (t: Tables, s: Uuid)
    ensures Valid(t) && !Refused(t) && s in t.steps && t.episodeBackup.None?
    ensures forall u | Upgraded(t, u) :: Downgraded(u).episodes == t.episodes && s !in Downgraded(u).steps
  {
    t, s := OneStepOfTarget();
    forall u | Upgraded(t, u) ensures Downgraded(u).episodes == t.episodes && s !in Downgraded(u).steps {
      StepLost(t, u, s);
    }
  }

  lemma StepLost(t: Tables, u: Tables, s: Uuid)
    requires Valid(t) && Upgraded(t, u) && Targets(t) != {} && t.episodeBackup.None? && t.stepBackup == Some(map[])
    requires s in t.steps && Resolved(t, t.steps[s].episode)
    ensures Downgraded(u).episodes == t.episodes && s !in Downgraded(u).steps
  {
    NewTombstonesStandIn(t);
    EpisodesRebuildIff(t, u.episodes, u.episodeBackup.value);
  }

  /** With no target the upgrade does nothing, and the downgrade resurrects an episode long gone. */
  lemma OldTombstonesResurrect() returns (t: Tables, e: Uuid)
    ensures Valid(t) && Targets(t) == {} && e !in t.episodes
    ensures forall u | Upgraded(t, u) :: DowngradeFits(u) && e in Downgraded(u).episodes
  {
    e := 1;
    t := OneTarget().(episodes := map[], episodeBackup := Some(map[e := KB_EPISODE]), stepBackup := Some(map[]));
  }

  /** An evidence link and an issue link of a migrated episode are gone for good. */
  lemma CascadedLinksAreLost() returns (t: Tables)
    ensures Valid(t) && !Refused(t) && NoEarlierTombstones(t) && t.links != map[] && t.issues != map[]
    ensures forall u | Upgraded(t, u) :: DowngradeFits(u) && Downgraded(u).links == map[] && Downgraded(u).issues == map[]
  {
    t := WithLinks(OneTarget());
    forall u | Upgraded(t, u) ensures DowngradeFits(u) && Downgraded(u).links == map[] && Downgraded(u).issues == map[] {
      AllLinksLost(t, u, 1);
    }
  }

  lemma WithLinks(t0: Tables) returns (t: Tables)
    requires Valid(t0) && Resolved(t0, 1) && NoEarlierTombstones(t0) && t0.patternLinks == map[]
    ensures Valid(t) && Resolved(t, 1) && NoEarlierTombstones(t) && !Refused(t) && Targets(t) != {}
    ensures t.links != map[] && forall l | l in t.links :: t.links[l].episode == 1
    ensures t.issues != map[] && forall l | l in t.issues :: t.issues[l].episode == 1
  {
    t := t0.(links := map[3 := EvidenceLink(1, 5)], issues := map[4 := IssueLink(1, 6)]);
    SameTarget(t0, t);
    assert 3 in t.links && 4 in t.issues;
  }

  lemma AllLinksLost(t: Tables, u: Tables, e: Uuid)
    requires Valid(t) && NoEarlierTombstones(t) && Upgraded(t, u) && Resolved(t, e) && Targets(t) != {}
    requires (forall l | l in t.links :: t.links[l].episode == e) && (forall l | l in t.issues :: t.issues[l].episode == e)
    ensures DowngradeFits(u) && Downgraded(u).links == map[] && Downgraded(u).issues == map[]
  {
    RoundTrip(t, u);
    assert forall l :: l !in WithoutResolved(t).links && l !in WithoutResolved(t).issues;
  }

  /** A pattern that counts the episode refuses the whole migration. */
  lemma PatternLinkRefuses() returns (t: Tables)
    ensures Valid(t) && NoEarlierTombstones(t) && Refused(t)
  {
    t := OneTarget().(patternLinks := map[3 := PatternLink(8, Some(1))]);
    SameTarget(OneTarget(), t);
    assert 3 in t.patternLinks;
  }
}
