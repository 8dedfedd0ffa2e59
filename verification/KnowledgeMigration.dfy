/**
  The migration of 0073: episodes reconstructed from knowledge documents become knowledge cases,
  are kept in tombstone tables and deleted; the downgrade puts them back.
 */
module KnowledgeMigration {
  import opened Wrappers

  datatype EvidenceType = KbArticle | Sop | Runbook | Documentation | OtherType(name: string)
  datatype Evidence = Evidence(kind: EvidenceType, createdAtSource: Option<int>)

  datatype Episode = Episode(
    tenant: Uuid, title: string, rootCause: Option<string>, finalOutcome: Option<string>, confidence: real,
    createdAt: int, reviewerState: string, invalidReason: Option<string>, evidenceIds: seq<Uuid>, rest: string)

  datatype EpisodeStep = EpisodeStep(
    episode: Uuid, order: int, kind: string, text: string, observation: Option<string>, confidence: real,
    refs: string, outcomeFlags: string)

  /** Links that ON DELETE CASCADE takes along with their episode. */
  datatype EvidenceLink = EvidenceLink(episode: Uuid, evidence: Uuid)
  datatype IssueLink = IssueLink(episode: Uuid, signature: Uuid)

  /** A link of `pattern_evidence_links`, whose foreign key to its episode has no ON DELETE action. */
  datatype PatternLink = PatternLink(pattern: Uuid, episode: Option<Uuid>)

  datatype KnowledgeCase = KnowledgeCase(
    tenant: Uuid, source: Uuid, sourceKind: EvidenceType, title: string, documentedCause: Option<string>,
    documentedResolution: Option<string>, confidence: real, migratedFrom: Option<Uuid>,
    synthesisedFrom: seq<Uuid>, needsReview: bool, createdAt: int)

  datatype CaseStep = CaseStep(
    case_: Uuid, order: int, kind: string, text: string, expectedOutcome: Option<string>, confidence: real,
    refs: string)

  /** The tables the migration reads and writes; a backup table that does not exist is `None`. */
  datatype Tables = Tables(
    evidence: map<Uuid, Evidence>,
    episodes: map<Uuid, Episode>,
    steps: map<Uuid, EpisodeStep>,
    links: map<Uuid, EvidenceLink>,
    issues: map<Uuid, IssueLink>,
    patternLinks: map<Uuid, PatternLink>,
    cases: map<Uuid, KnowledgeCase>,
    caseSteps: map<Uuid, CaseStep>,
    episodeBackup: Option<map<Uuid, Episode>>,
    stepBackup: Option<map<Uuid, EpisodeStep>>)

  // --- Constraints of the schema (0037, 0045, 0071, 0072) ----------------------------------------

  predicate OneStepPerOrder(steps: map<Uuid, EpisodeStep>) {
    forall s, r | s in steps && r in steps && steps[s].episode == steps[r].episode && steps[s].order == steps[r].order :: s == r
  }

  ghost predicate OneCasePerSource(cases: map<Uuid, KnowledgeCase>) {
    forall c, d | c in cases && d in cases && cases[c].tenant == cases[d].tenant && cases[c].source == cases[d].source :: c == d
  }

  ghost predicate OneCaseStepPerOrder(caseSteps: map<Uuid, CaseStep>) {
    forall s, r | s in caseSteps && r in caseSteps && caseSteps[s].case_ == caseSteps[r].case_ &&
      caseSteps[s].order == caseSteps[r].order :: s == r
  }

  ghost predicate Valid(t: Tables) {
    && (forall s | s in t.steps :: t.steps[s].episode in t.episodes)
    && (forall l | l in t.links :: t.links[l].episode in t.episodes)
    && (forall l | l in t.issues :: t.issues[l].episode in t.episodes)
    && (forall l | l in t.patternLinks && t.patternLinks[l].episode.Some? :: t.patternLinks[l].episode.value in t.episodes)
    && (forall s | s in t.caseSteps :: t.caseSteps[s].case_ in t.cases)
    && OneStepPerOrder(t.steps) && OneCasePerSource(t.cases) && OneCaseStepPerOrder(t.caseSteps)
  }

  // --- Selection --------------------------------------------------------------------------

  predicate IsTarget(e: Episode) {
    e.reviewerState == "invalidated" && e.invalidReason == Some("source_not_observational")
  }

  function Targets(t: Tables): set<Uuid> {
    set e | e in t.episodes && IsTarget(t.episodes[e])
  }

  predicate IsKnowledge(evidence: map<Uuid, Evidence>, id: Uuid) {
    id in evidence && !evidence[id].kind.OtherType?
  }

  /** `ORDER BY created_at_source NULLS LAST, id`. */
  predicate Before(evidence: map<Uuid, Evidence>, a: Uuid, b: Uuid)
    requires a in evidence && b in evidence
  {
    var x, y := evidence[a].createdAtSource, evidence[b].createdAtSource;
    if x.Some? && y.Some? then x.value < y.value || (x.value == y.value && a < b)
    else if x.None? && y.None? then a < b
    else x.Some?
  }

  /** `a` is dated and `b` is not, or is dated earlier; with equal dates, or none, its id is no larger. */
  ghost predicate ComesFirst(evidence: map<Uuid, Evidence>, a: Uuid, b: Uuid)
    requires a in evidence && b in evidence
  {
    var x, y := evidence[a].createdAtSource, evidence[b].createdAtSource;
    && (y != None ==> x != None && x.value <= y.value)
    && (x == y ==> a <= b)
  }

  /** The first knowledge document among the evidence ids. */
  function SourceOf(evidence: map<Uuid, Evidence>, ids: seq<Uuid>): (r: Option<Uuid>)
    ensures r.None? <==> forall id | id in ids :: !IsKnowledge(evidence, id)
    ensures r.Some? ==> r.value in ids && IsKnowledge(evidence, r.value)
    ensures r.Some? ==> forall id | id in ids && IsKnowledge(evidence, id) :: ComesFirst(evidence, r.value, id)
  {
    if ids == [] then None
    else
      var rest := SourceOf(evidence, ids[1..]);
      if !IsKnowledge(evidence, ids[0]) then rest
      else if rest.None? || Before(evidence, ids[0], rest.value) then Some(ids[0])
      else rest
  }

  /** Targets that resolve to a knowledge document: the rows of `_kc_migration`. */
  predicate Resolved(t: Tables, e: Uuid) {
    e in t.episodes && IsTarget(t.episodes[e]) && SourceOf(t.evidence, t.episodes[e].evidenceIds).Some?
  }

  function Source(t: Tables, e: Uuid): Uuid
    requires Resolved(t, e)
  {
    SourceOf(t.evidence, t.episodes[e].evidenceIds).value
  }

  function StepCount(t: Tables, e: Uuid): nat {
    |set s | s in t.steps && t.steps[s].episode == e|
  }

  /** A row of `_kc_migration`: the partition and the columns it is ranked by. */
  datatype Candidate = Candidate(tenant: Uuid, source: Uuid, steps: nat, confidence: real, createdAt: int)

  function Candidates(t: Tables): map<Uuid, Candidate> {
    map e | e in t.episodes && Resolved(t, e) ::
      Candidate(t.episodes[e].tenant, Source(t, e), StepCount(t, e), t.episodes[e].confidence, t.episodes[e].createdAt)
  }

  predicate SamePartition(a: Candidate, b: Candidate) {
    a.tenant == b.tenant && a.source == b.source
  }

  /** Strictly ahead by (step count, confidence, created_at), each descending. */
  predicate Richer(a: Candidate, b: Candidate) {
    a.steps > b.steps ||
    (a.steps == b.steps && (a.confidence > b.confidence || (a.confidence == b.confidence && a.createdAt > b.createdAt)))
  }

  /** No fewer steps; with as many, no lower confidence; with the same confidence, no older. */
  ghost predicate AtLeast(a: Candidate, b: Candidate) {
    && b.steps <= a.steps
    && (b.steps == a.steps ==> b.confidence <= a.confidence)
    && (b.steps == a.steps && b.confidence == a.confidence ==> b.createdAt <= a.createdAt)
  }

  /** Nothing in its partition is ahead of it. */
  ghost predicate Richest(cands: map<Uuid, Candidate>, e: Uuid) {
    e in cands && forall f | f in cands && SamePartition(cands[e], cands[f]) :: AtLeast(cands[e], cands[f])
  }

  // --- What a case carries ----------------------------------------------------------------

  function CaseFrom(t: Tables, e: Uuid): KnowledgeCase
    requires Resolved(t, e)
  {
    var ep := t.episodes[e];
    KnowledgeCase(ep.tenant, Source(t, e), t.evidence[Source(t, e)].kind, ep.title, ep.rootCause, ep.finalOutcome,
                  ep.confidence, Some(e), ep.evidenceIds, |ep.evidenceIds| > 1, ep.createdAt)
  }

  /** The outcome flags stay behind, and the observation becomes the expected outcome. */
  function StepFrom(c: Uuid, s: EpisodeStep): CaseStep {
    CaseStep(c, s.order, s.kind, s.text, s.observation, s.confidence, s.refs)
  }

  predicate HasCase(cases: map<Uuid, KnowledgeCase>, tenant: Uuid, source: Uuid) {
    exists c | c in cases :: cases[c].tenant == tenant && cases[c].source == source
  }

  // --- The effect of the upgrade ----------------------------------------------------------

  /** One winner per (tenant, source) of `done`, and no episode of the partition is ahead of it. */
  ghost predicate AreWinners(cands: map<Uuid, Candidate>, done: set<Uuid>, winners: set<Uuid>) {
    && winners <= done <= cands.Keys
    && (forall e, f | e in winners && f in winners && SamePartition(cands[e], cands[f]) :: e == f)
    && forall e | e in done :: IsCovered(cands, winners, e)
  }

  ghost predicate IsCovered(cands: map<Uuid, Candidate>, winners: set<Uuid>, e: Uuid)
    requires winners <= cands.Keys && e in cands
  {
    exists w | w in winners :: SamePartition(cands[w], cands[e]) && AtLeast(cands[w], cands[e])
  }

  ghost predicate CasesInserted(t: Tables, cases: map<Uuid, KnowledgeCase>) {
    && Extends(t.cases, cases) && OneCasePerSource(cases)
    && (forall c | c in cases && c !in t.cases :: exists e :: IsNewCase(t, cases[c], e))
    && forall e | Resolved(t, e) :: HasCase(cases, t.episodes[e].tenant, Source(t, e))
  }

  ghost predicate IsNewCase(t: Tables, c: KnowledgeCase, e: Uuid) {
    Richest(Candidates(t), e) && c == CaseFrom(t, e) && !HasCase(t.cases, c.tenant, c.source)
  }

  ghost predicate StepsInserted(t: Tables, cases: map<Uuid, KnowledgeCase>, caseSteps: map<Uuid, CaseStep>) {
    && Extends(t.caseSteps, caseSteps) && OneCaseStepPerOrder(caseSteps)
    && (forall x | x in caseSteps && x !in t.caseSteps :: exists s :: IsNewStep(t, cases, caseSteps[x], s))
    && forall c, s | c in cases && s in t.steps && cases[c].migratedFrom == Some(t.steps[s].episode) ::
         HasStep(caseSteps, c, t.steps[s].order)
  }

  ghost predicate IsNewStep(t: Tables, cases: map<Uuid, KnowledgeCase>, x: CaseStep, s: Uuid) {
    && s in t.steps && x.case_ in cases && cases[x.case_].migratedFrom == Some(t.steps[s].episode)
    && x == StepFrom(x.case_, t.steps[s])
  }

  predicate HasStep(caseSteps: map<Uuid, CaseStep>, c: Uuid, order: int) {
    exists x | x in caseSteps :: caseSteps[x].case_ == c && caseSteps[x].order == order
  }

  /** `CREATE TABLE IF NOT EXISTS ... AS SELECT`: a table that exists is left as it is. */
  function Backup<V>(existing: Option<map<Uuid, V>>, selected: map<Uuid, V>): Option<map<Uuid, V>> {
    if existing.Some? then existing else Some(selected)
  }

  function TargetEpisodes(t: Tables): map<Uuid, Episode> {
    map e | e in t.episodes && IsTarget(t.episodes[e]) :: t.episodes[e]
  }

  function TargetSteps(t: Tables): map<Uuid, EpisodeStep> {
    map s | s in t.steps && t.steps[s].episode in Targets(t) :: t.steps[s]
  }

  /** A pattern link points at an episode to be deleted: the DELETE fails, and with it the migration. */
  predicate Refused(t: Tables) {
    exists l | l in t.patternLinks :: t.patternLinks[l].episode.Some? && Resolved(t, t.patternLinks[l].episode.value)
  }

  /** A successful run relates the tables before and after; ties and new ids leave it a choice. */
  ghost predicate Upgraded(t: Tables, u: Tables) {
    if Targets(t) == {} then u == t
    else
      && !Refused(t)
      && u.evidence == t.evidence && u.patternLinks == t.patternLinks
      && u.episodeBackup == Backup(t.episodeBackup, TargetEpisodes(t))
      && u.stepBackup == Backup(t.stepBackup, TargetSteps(t))
      && CasesInserted(t, u.cases)
      && StepsInserted(t, u.cases, u.caseSteps)
      && u.steps == WithoutResolved(t).steps
      && u.episodes == WithoutResolved(t).episodes
      && u.links == WithoutResolved(t).links
      && u.issues == WithoutResolved(t).issues
  }

  /** The resolved episodes deleted: their steps first, their evidence and issue links by cascade. */
  function WithoutResolved(t: Tables): Tables {
    t.(steps := map s | s in t.steps && !Resolved(t, t.steps[s].episode) :: t.steps[s],
       episodes := map e | e in t.episodes && !Resolved(t, e) :: t.episodes[e],
       links := map l | l in t.links && !Resolved(t, t.links[l].episode) :: t.links[l],
       issues := map l | l in t.issues && !Resolved(t, t.issues[l].episode) :: t.issues[l])
  }

  function InsertMissing<V>(live: map<Uuid, V>, backup: map<Uuid, V>): map<Uuid, V> {
    backup + live
  }

  function Unmigrated(cases: map<Uuid, KnowledgeCase>): map<Uuid, KnowledgeCase> {
    map c | c in cases && cases[c].migratedFrom.None? :: cases[c]
  }

  function UnmigratedSteps(cases: map<Uuid, KnowledgeCase>, caseSteps: map<Uuid, CaseStep>): map<Uuid, CaseStep> {
    map s | s in caseSteps && !(caseSteps[s].case_ in cases && cases[caseSteps[s].case_].migratedFrom.Some?) ::
      caseSteps[s]
  }

  /** The rows put back satisfy the foreign key and the unique key of the steps; if not, the downgrade fails. */
  predicate DowngradeFits(t: Tables) {
    t.episodeBackup.Some? && t.stepBackup.Some? ==>
      StepsFit(InsertMissing(t.episodes, t.episodeBackup.value), InsertMissing(t.steps, t.stepBackup.value))
  }

  predicate StepsFit(episodes: map<Uuid, Episode>, steps: map<Uuid, EpisodeStep>) {
    (forall s | s in steps :: steps[s].episode in episodes) && OneStepPerOrder(steps)
  }

  /** The downgrade; without both backup tables it does nothing. */
  function Downgraded(t: Tables): Tables {
    if t.episodeBackup.None? || t.stepBackup.None? then t
    else
      t.(episodes := InsertMissing(t.episodes, t.episodeBackup.value),
         steps := InsertMissing(t.steps, t.stepBackup.value),
         caseSteps := UnmigratedSteps(t.cases, t.caseSteps),
         cases := Unmigrated(t.cases),
         episodeBackup := None, stepBackup := None)
  }

  // --- The statements ---------------------------------------------------------------------

  class Store {
    var tables: Tables

    constructor (tables: Tables)
      ensures this.tables == tables
    {
      this.tables := tables;
    }

    /** `CREATE TEMP TABLE _kc_migration`: the episodes with `rank_for_source = 1`. */
    method RankSources() returns (winners: set<Uuid>)
      ensures AreWinners(Candidates(tables), Candidates(tables).Keys, winners)
    {
      var cands := Candidates(tables);
      var todo := cands.Keys;
      winners := {};
      while todo != {}
        invariant todo <= cands.Keys
        invariant AreWinners(cands, cands.Keys - todo, winners)
      {
        var e :| e in todo;
        ghost var done := cands.Keys - todo;
        todo := todo - {e};
        assert cands.Keys - todo == done + {e};
        if w :| w in winners && SamePartition(cands[w], cands[e]) {
          if Richer(cands[e], cands[w]) {
            ReplaceWinner(cands, done, winners, w, e);
            winners := winners - {w} + {e};
          }
        } else {
          AddWinner(cands, done, winners, e);
          winners := winners + {e};
        }
      }
      assert cands.Keys - {} == cands.Keys;
    }

    /** One row of the INSERT below. */
    method InsertCase(ghost t: Tables, ghost done: set<Uuid>, e: Uuid)
      requires tables == t.(cases := tables.cases) && CasesSoFar(t, done, tables.cases) && Richest(Candidates(t), e)
      modifies this
      ensures tables == t.(cases := tables.cases) && CasesSoFar(t, done + {e}, tables.cases)
    {
      SameSelection(t, tables);
      if !HasCase(tables.cases, tables.episodes[e].tenant, Source(tables, e)) {
        var id := NewUuid(tables.cases.Keys);
        OneMoreCase(t, done, tables.cases, e, id);
        tables := tables.(cases := tables.cases[id := CaseFrom(tables, e)]);
      } else {
        ConflictingCase(t, done, tables.cases, e);
      }
    }

    method InsertRichest(winners: set<Uuid>)
      requires OneCasePerSource(tables.cases) && forall e | e in winners :: Richest(Candidates(tables), e)
      modifies this
      ensures tables == old(tables).(cases := tables.cases)
      ensures CasesSoFar(old(tables), winners, tables.cases)
    {
      ghost var t := tables;
      ghost var done: set<Uuid> := {};
      var todo := winners;
      while todo != {}
        invariant todo <= winners && done == winners - todo
        invariant tables == t.(cases := tables.cases)
        invariant CasesSoFar(t, done, tables.cases)
      {
        var e :| e in todo;
        InsertCase(t, done, e);
        MoveOver(winners, todo, done, e);
        todo, done := todo - {e}, done + {e};
      }
    }

    /** `INSERT INTO knowledge_cases ... ON CONFLICT (tenant_id, source_evidence_id) DO NOTHING`. */
    method InsertCases(winners: set<Uuid>)
      requires OneCasePerSource(tables.cases)
      requires AreWinners(Candidates(tables), Candidates(tables).Keys, winners)
      modifies this
      ensures tables == old(tables).(cases := tables.cases)
      ensures CasesInserted(old(tables), tables.cases)
    {
      ghost var t := tables;
      forall e | e in winners ensures Richest(Candidates(t), e) {
        WinnerIsRichest(Candidates(t), winners, e);
      }
      InsertRichest(winners);
      AllCasesInserted(t, winners, tables.cases);
    }

    /** `INSERT INTO knowledge_case_steps ... ON CONFLICT (knowledge_case_id, step_order) DO NOTHING`. */
    method InsertSteps()
      requires OneCaseStepPerOrder(tables.caseSteps)
      modifies this
      ensures tables == old(tables).(caseSteps := tables.caseSteps)
      ensures StepsInserted(old(tables), old(tables).cases, tables.caseSteps)
    {
      ghost var t := tables;
      var pairs := set c, s | c in tables.cases && s in tables.steps &&
        tables.cases[c].migratedFrom == Some(tables.steps[s].episode) :: (c, s);
      var todo := pairs;
      while todo != {}
        invariant todo <= pairs
        invariant tables == t.(caseSteps := tables.caseSteps)
        invariant StepsSoFar(t, pairs - todo, tables.caseSteps)
      {
        var p :| p in todo;
        InsertStep(t, pairs - todo, p.0, p.1);
        assert pairs - (todo - {p}) == pairs - todo + {p};
        todo := todo - {p};
      }
      forall c, s | c in t.cases && s in t.steps && t.cases[c].migratedFrom == Some(t.steps[s].episode)
        ensures HasStep(tables.caseSteps, c, t.steps[s].order)
      {
        assert (c, s) in pairs - todo;
      }
    }

    method InsertStep(ghost t: Tables, ghost done: set<(Uuid, Uuid)>, c: Uuid, s: Uuid)
      requires tables == t.(caseSteps := tables.caseSteps) && StepsSoFar(t, done, tables.caseSteps)
      requires c in t.cases && s in t.steps && t.cases[c].migratedFrom == Some(t.steps[s].episode)
      modifies this
      ensures tables == t.(caseSteps := tables.caseSteps) && StepsSoFar(t, done + {(c, s)}, tables.caseSteps)
    {
      var new_ := StepFrom(c, tables.steps[s]);
      if !HasStep(tables.caseSteps, new_.case_, new_.order) {
        var id := NewUuid(tables.caseSteps.Keys);
        OneMoreStep(t, done, tables.caseSteps, c, s, id);
        tables := tables.(caseSteps := tables.caseSteps[id := new_]);
      }
    }

    /** Tombstones, before anything is removed. */
    method Tombstone()
      modifies this
      ensures tables == old(tables).(episodeBackup := Backup(old(tables).episodeBackup, TargetEpisodes(old(tables))),
                                     stepBackup := Backup(old(tables).stepBackup, TargetSteps(old(tables))))
    {
      tables := tables.(episodeBackup := Backup(tables.episodeBackup, TargetEpisodes(tables)));
      tables := tables.(stepBackup := Backup(tables.stepBackup, TargetSteps(tables)));
    }

    /** Every episode whose source document now has a case, whichever tenant's case it is. */
    method DeleteRepresented() returns (ok: bool)
      requires forall e | Resolved(tables, e) :: HasCase(tables.cases, tables.episodes[e].tenant, Source(tables, e))
      modifies this
      ensures ok <==> !Refused(old(tables))
      ensures ok ==> tables == WithoutResolved(old(tables))
    {
      ghost var was := tables;
      var represented := Represented();
      tables := tables.(steps := StepsWithout(tables.steps, represented));
      assert tables.steps == WithoutResolved(was).steps;
      if exists l | l in tables.patternLinks ::
        tables.patternLinks[l].episode.Some? && tables.patternLinks[l].episode.value in represented
      {
        return false;
      }
      tables := tables.(episodes := map e | e in tables.episodes && e !in represented :: tables.episodes[e],
                        links := LinksWithout(tables.links, represented),
                        issues := IssuesWithout(tables.issues, represented));
      assert tables.episodes == WithoutResolved(was).episodes;
      assert tables.links == WithoutResolved(was).links;
      assert tables.issues == WithoutResolved(was).issues;
      ok := true;
    }

    /** The subquery of both DELETEs. */
    method Represented() returns (represented: set<Uuid>)
      requires forall e | Resolved(tables, e) :: HasCase(tables.cases, tables.episodes[e].tenant, Source(tables, e))
      ensures forall e :: e in represented <==> Resolved(tables, e)
    {
      var sources := map e | e in tables.episodes && Resolved(tables, e) :: Source(tables, e);
      represented := set e | e in sources && exists c | c in tables.cases :: tables.cases[c].source == sources[e];
      forall e | e in sources ensures e in represented {
        var c :| c in tables.cases && tables.cases[c].tenant == tables.episodes[e].tenant &&
                 tables.cases[c].source == Source(tables, e);
      }
    }

    /** The statements in order; a refused DELETE undoes them all. */
    method Upgrade() returns (ok: bool)
      requires Valid(tables)
      modifies this
      ensures ok <==> !Refused(old(tables))
      ensures ok ==> Upgraded(old(tables), tables)
      ensures !ok ==> tables == old(tables)
    {
      if Targets(tables) == {} {
        assert forall e :: Resolved(tables, e) ==> e in Targets(tables);
        return true;
      }
      var start := tables;
      Tombstone();
      ghost var u := tables;
      SameSelection(start, u);
      var winners := RankSources();
      InsertCases(winners);
      CasesOfSameSelection(start, u, tables.cases);
      ghost var v := tables;
      InsertSteps();
      StepsOfSameSelection(start, v, tables.caseSteps);
      SameSelection(start, tables);
      SameResolved(start, tables);
      ok := DeleteRepresented();
      if !ok {
        tables := start;
      }
    }

    method Downgrade() returns (ok: bool)
      modifies this
      ensures ok <==> DowngradeFits(old(tables))
      ensures tables == if ok then Downgraded(old(tables)) else old(tables)
    {
      if tables.episodeBackup.None? || tables.stepBackup.None? {
        return true;
      }
      var start := tables;
      tables := tables.(episodes := InsertMissing(tables.episodes, tables.episodeBackup.value));
      tables := tables.(steps := InsertMissing(tables.steps, tables.stepBackup.value));
      if !StepsFit(tables.episodes, tables.steps) {
        tables := start;
        return false;
      }
      tables := tables.(caseSteps := UnmigratedSteps(tables.cases, tables.caseSteps));
      tables := tables.(cases := Unmigrated(tables.cases));
      tables := tables.(stepBackup := None);
      tables := tables.(episodeBackup := None);
      ok := true;
    }
  }

  function StepsWithout(steps: map<Uuid, EpisodeStep>, gone: set<Uuid>): map<Uuid, EpisodeStep> {
    map s | s in steps && steps[s].episode !in gone :: steps[s]
  }

  function LinksWithout(links: map<Uuid, EvidenceLink>, gone: set<Uuid>): map<Uuid, EvidenceLink> {
    map l | l in links && links[l].episode !in gone :: links[l]
  }

  function IssuesWithout(issues: map<Uuid, IssueLink>, gone: set<Uuid>): map<Uuid, IssueLink> {
    map l | l in issues && issues[l].episode !in gone :: issues[l]
  }

  // --- Lemmas behind the statements -------------------------------------------------------

  lemma RicherIsTransitive(a: Candidate, b: Candidate, c: Candidate)
    requires Richer(a, b) && AtLeast(b, c)
    ensures AtLeast(a, c)
  {
  }

  lemma StaysCovered(cands: map<Uuid, Candidate>, winners: set<Uuid>, w: Uuid, f: Uuid)
    requires winners <= cands.Keys && f in cands && w in winners
    requires SamePartition(cands[w], cands[f]) && AtLeast(cands[w], cands[f])
    ensures IsCovered(cands, winners, f)
  {
  }

  lemma AddWinner(cands: map<Uuid, Candidate>, done: set<Uuid>, winners: set<Uuid>, e: Uuid)
    requires AreWinners(cands, done, winners) && e in cands && e !in done
    requires forall w | w in winners :: !SamePartition(cands[w], cands[e])
    ensures AreWinners(cands, done + {e}, winners + {e})
  {
    var more := winners + {e};
    StaysCovered(cands, more, e, e);
    forall f | f in done ensures IsCovered(cands, more, f) {
      var v :| v in winners && SamePartition(cands[v], cands[f]) && AtLeast(cands[v], cands[f]);
      StaysCovered(cands, more, v, f);
    }
  }

  lemma ReplaceWinner(cands: map<Uuid, Candidate>, done: set<Uuid>, winners: set<Uuid>, w: Uuid, e: Uuid)
    requires AreWinners(cands, done, winners) && e in cands && e !in done
    requires w in winners && SamePartition(cands[w], cands[e]) && Richer(cands[e], cands[w])
    ensures AreWinners(cands, done + {e}, winners - {w} + {e})
  {
    var more := winners - {w} + {e};
    StaysCovered(cands, more, e, e);
    forall f | f in done ensures IsCovered(cands, more, f) {
      var v :| v in winners && SamePartition(cands[v], cands[f]) && AtLeast(cands[v], cands[f]);
      if v == w {
        RicherIsTransitive(cands[e], cands[w], cands[f]);
        StaysCovered(cands, more, e, f);
      } else {
        StaysCovered(cands, more, v, f);
      }
    }
  }

  lemma WinnerIsRichest(cands: map<Uuid, Candidate>, winners: set<Uuid>, e: Uuid)
    requires AreWinners(cands, cands.Keys, winners) && e in winners
    ensures Richest(cands, e)
  {
    forall f | f in cands && SamePartition(cands[e], cands[f]) ensures AtLeast(cands[e], cands[f]) {
      assert IsCovered(cands, winners, f);
      var w :| w in winners && SamePartition(cands[w], cands[f]) && AtLeast(cands[w], cands[f]);
      assert SamePartition(cands[w], cands[e]);
    }
  }

  /** The case steps after the pairs in `done` have been inserted. */
  ghost predicate StepsSoFar(t: Tables, done: set<(Uuid, Uuid)>, caseSteps: map<Uuid, CaseStep>) {
    && Extends(t.caseSteps, caseSteps) && OneCaseStepPerOrder(caseSteps)
    && (forall x | x in caseSteps && x !in t.caseSteps :: exists s :: IsNewStep(t, t.cases, caseSteps[x], s))
    && forall p | p in done :: p.1 in t.steps && HasStep(caseSteps, p.0, t.steps[p.1].order)
  }

  lemma OneMoreStep(t: Tables, done: set<(Uuid, Uuid)>, was: map<Uuid, CaseStep>, c: Uuid, s: Uuid, id: Uuid)
    requires StepsSoFar(t, done, was) && id !in was
    requires c in t.cases && s in t.steps && t.cases[c].migratedFrom == Some(t.steps[s].episode)
    requires !HasStep(was, c, t.steps[s].order)
    ensures StepsSoFar(t, done + {(c, s)}, was[id := StepFrom(c, t.steps[s])])
  {
    var new_ := StepFrom(c, t.steps[s]);
    var after := was[id := new_];
    assert IsNewStep(t, t.cases, after[id], s) && after[id].case_ == c;
    forall p | p in done ensures HasStep(after, p.0, t.steps[p.1].order) {
      var x :| x in was && was[x].case_ == p.0 && was[x].order == t.steps[p.1].order;
      assert x in after && after[x] == was[x];
    }
  }

  /** The cases after the winners in `done` have been inserted. */
  ghost predicate CasesSoFar(t: Tables, done: set<Uuid>, cases: map<Uuid, KnowledgeCase>) {
    && Extends(t.cases, cases) && OneCasePerSource(cases)
    && NewCasesOf(t, done, cases)
    && HaveCases(Candidates(t), done, cases)
  }

  /** The partitions of `done` have their cases. */
  ghost predicate HaveCases(cands: map<Uuid, Candidate>, done: set<Uuid>, cases: map<Uuid, KnowledgeCase>) {
    forall e | e in done :: e in cands && HasCase(cases, cands[e].tenant, cands[e].source)
  }

  lemma RepresentedGrows(cands: map<Uuid, Candidate>, done: set<Uuid>, cases: map<Uuid, KnowledgeCase>,
      after: map<Uuid, KnowledgeCase>, e: Uuid)
    requires HaveCases(cands, done, cases) && Extends(cases, after)
    requires e in cands && HasCase(after, cands[e].tenant, cands[e].source)
    ensures HaveCases(cands, done + {e}, after)
  {
    forall f | f in done ensures HasCase(after, cands[f].tenant, cands[f].source) {
      ExtendsHasNoMore(cases, after, cands[f].tenant, cands[f].source);
    }
  }

  /** Every case that was not there before is a new case of one of `done`. */
  ghost predicate NewCasesOf(t: Tables, done: set<Uuid>, cases: map<Uuid, KnowledgeCase>) {
    forall c | c in cases && c !in t.cases :: exists e :: e in done && IsNewCase(t, cases[c], e)
  }

  lemma NewCasesGrow(t: Tables, done: set<Uuid>, cases: map<Uuid, KnowledgeCase>, e: Uuid)
    requires NewCasesOf(t, done, cases)
    ensures NewCasesOf(t, done + {e}, cases)
  {
    forall c | c in cases && c !in t.cases ensures exists f :: f in done + {e} && IsNewCase(t, cases[c], f) {
      var f :| f in done && IsNewCase(t, cases[c], f);
      assert f in done + {e};
    }
  }

  lemma OneNewCase(t: Tables, done: set<Uuid>, cases: map<Uuid, KnowledgeCase>, e: Uuid, id: Uuid, new_: KnowledgeCase)
    requires NewCasesOf(t, done, cases) && e in done && IsNewCase(t, new_, e)
    ensures NewCasesOf(t, done, cases[id := new_])
  {
    var after := cases[id := new_];
    forall c | c in after && c !in t.cases ensures exists f :: f in done && IsNewCase(t, after[c], f) {
      if c == id {
        assert IsNewCase(t, after[c], e);
      } else {
        var f :| f in done && IsNewCase(t, cases[c], f);
        assert IsNewCase(t, after[c], f);
      }
    }
  }

  lemma ExtendsByOne(first: map<Uuid, KnowledgeCase>, cases: map<Uuid, KnowledgeCase>, id: Uuid, new_: KnowledgeCase)
    requires Extends(first, cases) && id !in cases
    ensures Extends(first, cases[id := new_]) && Extends(cases, cases[id := new_])
  {
  }

  lemma OneMoreCase(t: Tables, done: set<Uuid>, cases: map<Uuid, KnowledgeCase>, e: Uuid, id: Uuid)
    requires CasesSoFar(t, done, cases) && id !in cases && Richest(Candidates(t), e)
    requires !HasCase(cases, t.episodes[e].tenant, Source(t, e))
    ensures CasesSoFar(t, done + {e}, cases[id := CaseFrom(t, e)])
  {
    var new_ := CaseFrom(t, e);
    var after := cases[id := new_];
    ExtendsHasNoMore(t.cases, cases, new_.tenant, new_.source);
    ExtendsByOne(t.cases, cases, id, new_);
    AddCase(cases, id, new_);
    NewCasesGrow(t, done, cases, e);
    OneNewCase(t, done + {e}, cases, e, id, new_);
    RepresentedGrows(Candidates(t), done, cases, after, e);
  }

  lemma ConflictingCase(t: Tables, done: set<Uuid>, cases: map<Uuid, KnowledgeCase>, e: Uuid)
    requires CasesSoFar(t, done, cases) && e in Candidates(t)
    requires HasCase(cases, t.episodes[e].tenant, Source(t, e))
    ensures CasesSoFar(t, done + {e}, cases)
  {
    NewCasesGrow(t, done, cases, e);
    RepresentedGrows(Candidates(t), done, cases, cases, e);
  }

  lemma AllCasesInserted(t: Tables, winners: set<Uuid>, cases: map<Uuid, KnowledgeCase>)
    requires AreWinners(Candidates(t), Candidates(t).Keys, winners) && CasesSoFar(t, winners, cases)
    ensures CasesInserted(t, cases)
  {
    var cands := Candidates(t);
    forall e | Resolved(t, e) ensures HasCase(cases, t.episodes[e].tenant, Source(t, e)) {
      assert e in cands && IsCovered(cands, winners, e);
      var w :| w in winners && SamePartition(cands[w], cands[e]);
      assert HasCase(cases, cands[w].tenant, cands[w].source);
    }
  }

  lemma ExtendsHasNoMore(small: map<Uuid, KnowledgeCase>, big: map<Uuid, KnowledgeCase>, tenant: Uuid, source: Uuid)
    requires Extends(small, big)
    ensures HasCase(small, tenant, source) ==> HasCase(big, tenant, source)
  {
    if HasCase(small, tenant, source) {
      var c :| c in small && small[c].tenant == tenant && small[c].source == source;
      assert c in big && big[c] == small[c];
    }
  }

  lemma AddCase(cases: map<Uuid, KnowledgeCase>, id: Uuid, new_: KnowledgeCase)
    requires OneCasePerSource(cases) && id !in cases && !HasCase(cases, new_.tenant, new_.source)
    ensures OneCasePerSource(cases[id := new_]) && HasCase(cases[id := new_], new_.tenant, new_.source)
  {
    assert cases[id := new_][id] == new_;
  }

  /** Selecting and ranking do not look at the backup tables. */
  lemma SameSelection(t: Tables, u: Tables)
    requires u.episodes == t.episodes && u.evidence == t.evidence && u.steps == t.steps
    ensures Candidates(u) == Candidates(t)
    ensures forall e | e in Candidates(t) :: Source(u, e) == Source(t, e) && CaseFrom(u, e) == CaseFrom(t, e)
  {
    forall e ensures Resolved(u, e) <==> Resolved(t, e) {}
    forall e | Resolved(t, e) ensures Source(u, e) == Source(t, e) && CaseFrom(u, e) == CaseFrom(t, e) {
      SameSource(t, u, e);
    }
    forall e | e in t.episodes ensures StepCount(u, e) == StepCount(t, e) {}
  }

  lemma SameSource(t: Tables, u: Tables, e: Uuid)
    requires u.episodes == t.episodes && u.evidence == t.evidence && Resolved(t, e) && Resolved(u, e)
    ensures Source(u, e) == Source(t, e) && CaseFrom(u, e) == CaseFrom(t, e)
  {
  }

  lemma SameResolved(t: Tables, u: Tables)
    requires u.episodes == t.episodes && u.evidence == t.evidence && u.steps == t.steps
    requires u.links == t.links && u.issues == t.issues && u.patternLinks == t.patternLinks
    ensures forall e :: Resolved(u, e) <==> Resolved(t, e)
    ensures Refused(u) <==> Refused(t)
    ensures WithoutResolved(u).episodes == WithoutResolved(t).episodes
    ensures WithoutResolved(u).steps == WithoutResolved(t).steps
    ensures WithoutResolved(u).links == WithoutResolved(t).links
    ensures WithoutResolved(u).issues == WithoutResolved(t).issues
  {
  }

  lemma CasesOfSameSelection(t: Tables, u: Tables, cases: map<Uuid, KnowledgeCase>)
    requires u.episodes == t.episodes && u.evidence == t.evidence && u.steps == t.steps && u.cases == t.cases
    requires CasesInserted(u, cases)
    ensures CasesInserted(t, cases)
  {
    SameSelection(t, u);
    forall c | c in cases && c !in t.cases ensures exists e :: IsNewCase(t, cases[c], e) {
      var e :| IsNewCase(u, cases[c], e);
      SameNewCase(t, u, cases[c], e);
    }
  }

  lemma SameNewCase(t: Tables, u: Tables, c: KnowledgeCase, e: Uuid)
    requires u.episodes == t.episodes && u.evidence == t.evidence && u.steps == t.steps && u.cases == t.cases
    requires IsNewCase(u, c, e)
    ensures IsNewCase(t, c, e)
  {
    SameSelection(t, u);
  }

  lemma StepsOfSameSelection(t: Tables, u: Tables, caseSteps: map<Uuid, CaseStep>)
    requires u.steps == t.steps && u.caseSteps == t.caseSteps
    requires StepsInserted(u, u.cases, caseSteps)
    ensures StepsInserted(t, u.cases, caseSteps)
  {
    forall x | x in caseSteps && x !in t.caseSteps ensures exists s :: IsNewStep(t, u.cases, caseSteps[x], s) {
      var s :| IsNewStep(u, u.cases, caseSteps[x], s);
      assert IsNewStep(t, u.cases, caseSteps[x], s);
    }
  }
}
