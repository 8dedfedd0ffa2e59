# Tenant isolation, data migrations and corpus repair: a verified model

This project models the parts of the backend whose behaviour is hard to see from one function, and
proves what they promise. Identifiers (UUIDs) and timestamps are natural numbers or integers: only
their equality and order matter. Tables are maps from identifiers to rows, and a method that runs
SQL statements updates those maps statement by statement.

**Tenant isolation** (`RowSecurity`, `Isolation`, `Statements`, `Noninterference`, `CompositeKeys`,
`MspTenancy`, `MspDeletion`).
A transition system over the tenant-scoped tables: client sessions insert, update and delete; the
two BEFORE triggers run in name order and see only what row security shows; the single-column and
composite foreign keys see everything; WITH CHECK filters new rows, USING filters the rows an update
or delete reaches. ON DELETE CASCADE and SET NULL follow references without asking any policy, and
the UPDATE by which SET NULL clears a column fires the triggers with the eyes of the owner, who sees
every parent. Isolation and noninterference of tenants are shown to hold exactly when the composite
keys are in place: the loop of 0082 gives every key its twin, while a key declared later has one
only if its migration adds it. The claims are about statements on the tenant-scoped tables: the row
of the session's own MSP in `msps` is admitted to it as well, and deleting that takes the rows of
all tenants of the MSP, and of no other (`MspDeletion.MspTakesItsTenants`).

**Tenant backfill** (`TenantBackfill`). The ordered UPDATEs and DELETEs of migration 0078, with what
the foreign keys make of each DELETE. Where the constraints of the schema hold, no row is left
without a tenant and the DELETEs find nothing.

**Knowledge migration** (`KnowledgeMigration`, `KnowledgeConservation`). Migration 0073 as table
transformations: select, rank, insert, tombstone, delete; and its downgrade.

**Corpus remediation** (`Merges`, `RebuildSteps`, `Cleanup`, `Corpus`, `CorpusIntegrity`). Which
playbooks are merged into which, the last pass over rebuilt steps, the white-space clean-up, and the
transaction that carries the decisions out.

**Defect repair** (`PatchLoop`, `PatchExactness`, `MixedPatches`, `EditPairs`, `TriggerText`). The
guarded edit-and-insert loop over a step list, and the budgeted walk over trigger conditions.

**Fresh names** (`Usernames`, `Versions`, `VersionTable`). The username allocator of 0075 and the
version allocator and duplicate renaming of 0005.

**Aliases and step comparison** (`AliasText`, `Aliases`, `Pairing`). The alias normal form and the
self-join DELETE of 0033, and the greedy pairing of the quality report.

Six promises of the repository turned out not to hold as written; each has an input that shows it
and the exact condition under which it does hold:

- Rows of one tenant are out of reach of the others (0082, 0097) only while the foreign-key actions
  are confined (`Isolation.IsolationIffActionsConfined`). The SET NULL keys of
  backend/alembic/versions/0093_playbook_version_editing.py:51-59,
  backend/alembic/versions/0094_playbook_quality_foundation.py:92-97 and
  backend/alembic/versions/0095_playbook_clarification.py:135-137 get no twin, which is the case of
  `Isolation.ForeignChildIsTouched`.
- Downgrading 0073 restores episodes and steps only if the tombstones found stand in for what is
  deleted and for nothing else, because the backup tables are created with IF NOT EXISTS
  (`KnowledgeConservation.EpisodesComeBackIff`; lost rows in
  `KnowledgeConservation.StaleTombstoneLosesEpisode` and
  `KnowledgeConservation.StaleStepTombstoneLosesStep`, resurrected ones in
  `KnowledgeConservation.OldTombstonesResurrect`), and it never restores cascaded evidence and issue
  links (`KnowledgeConservation.RoundTripIsExactIff`, `KnowledgeConservation.CascadedLinksAreLost`).
- The comment at backend/alembic/versions/0097_msp_tenancy_and_role_rls.py:88-89 says a row can never
  disagree with the MSP of its tenant. A session with another scope stores one that does
  (`MspTenancy.WrongScopeDisagrees`), and so can clearing a column (`MspTenancy.UnmappedRowIsFilled`,
  `MspTenancy.ClearedRowMoves`); `MspTenancy.KeepsAgreementIff` says exactly when none can.
- `apply_changes` can leave a playbook pointing at a version it has deleted, since
  `playbooks.current_version_id` has no foreign key (backend/src/contextedge/models/playbook.py:125)
  (`CorpusIntegrity.PointersStayIntactIff`, `CorpusIntegrity.SharedVersionBreaksPointer`).
- The comment at backend/scripts/remediate_playbook_corpus.py:1246-1248 says pattern links go only
  once their pattern has no playbook left; the code removes them before it looks
  (`CorpusIntegrity.LinksDropOnlyWithLastPlaybookIff`, `CorpusIntegrity.LinkDropsBeforeLastPlaybook`).
- The repair script is not idempotent (its claim at line 58) for every patch: a new text with white
  space at its ends is not recognised, so each run edits another step that has the old text
  (`PatchExactness.HarmfulEditTwice`), and an inserted step without its declared text is inserted
  again (`MixedPatches.UnsuppliedTwice`). It is for well-formed patches
  (`PatchLoop.RepairIsIdempotent`); for patches whose texts do not meet the exact condition is
  `MixedPatches.PatchesAreIdempotentIff`, and for two edits whose texts may meet
  `EditPairs.PairsAreIdempotentIff`.

## Model

| member | source | states |
|---|---|---|
| RowSecurity.CeFillMspId | backend/alembic/versions/0097_msp_tenancy_and_role_rls.py:83-109 | whatever `tenants` holds, a session's row without an msp_id gets the msp of the session setting, a malformed setting counting as none; a given one is never overwritten; only the owner gets the mapping of the row's tenant |
| RowSecurity.CeFillTenantId | backend/alembic/versions/0091_fix_ce_fill_tenant_id_playbooks.py:45-120 | a visible parent of any of the thirteen child tables decides the tenant, overriding the value given; the session setting only fills a gap |
| RowSecurity.WrittenRowIsAdmittedIff | backend/alembic/versions/0097_msp_tenancy_and_role_rls.py:320-326 | after both triggers WITH CHECK admits a row exactly when it names no msp or the session's and has a visible parent, or the session's tenant, or no tenant on a child table |
| RowSecurity.VisibleParentDecides | backend/alembic/versions/0091_fix_ce_fill_tenant_id_playbooks.py:105-106 | a child that names a visible parent gets that parent's tenant whatever was supplied, and is stored with its msp or not at all |
| RowSecurity.TriggersCommute | backend/alembic/versions/0097_msp_tenancy_and_role_rls.py:249-263 | the name order of the two triggers makes no difference to a client session |
| RowSecurity.OwnerMovesRow | backend/alembic/versions/0091_fix_ce_fill_tenant_id_playbooks.py:105-106 | fired by a foreign-key action, the triggers move a row to the tenant of a parent only the owner sees, with the msp of the tenant it leaves |
| RowSecurity.AdmittedRow | backend/alembic/versions/0097_msp_tenancy_and_role_rls.py:55-59 | with null semantics the client predicate admits a row exactly when both settings are set and equal the row's msp and tenant |
| Statements.InsertIs | backend/alembic/versions/0097_msp_tenancy_and_role_rls.py:320-326 | an INSERT of a scoped session is carried out exactly when the row may be written, is new and finds its references, and stores what was written with the session's tenant and MSP; otherwise nothing changes, and the status says why |
| Statements.UpdateIs | backend/alembic/versions/0097_msp_tenancy_and_role_rls.py:321-326 | an UPDATE reaches a row of the session's tenant and MSP only and replaces it by what was written under the same conditions; otherwise nothing changes |
| Statements.UnscopedDoesNothing | backend/alembic/versions/0097_msp_tenancy_and_role_rls.py:55-59 | without both settings a session writes, changes and deletes nothing; a malformed one fails |
| Statements.DeleteIs | backend/alembic/versions/0097_msp_tenancy_and_role_rls.py:320-326 | a DELETE carried out takes the named rows of its tenant and MSP and the least set that refers to them by CASCADE keys, counts the named ones, and leaves every other row as it was but for references cleared by SET NULL keys; nothing left leads to a row that went |
| Statements.DeleteIsRefusedIff | backend/alembic/versions/0082_composite_tenant_fks_and_trigger.py:82-104 | with confined actions a DELETE is refused exactly when a row outside what it takes refers into it by a RESTRICT or NO ACTION key |
| Isolation.ClosureIsClosed | backend/alembic/versions/0097_msp_tenancy_and_role_rls.py:306-347 | the cascade of a delete reaches every transitive CASCADE child and nothing outside the table |
| Isolation.CascadeStaysInTenant | backend/alembic/versions/0082_composite_tenant_fks_and_trigger.py:82-104 | a cascade that starts in one tenant never leaves it when every CASCADE key has its composite twin, although cascades ignore policies |
| Isolation.ClearedStaysInTenant | backend/alembic/versions/0082_composite_tenant_fks_and_trigger.py:82-104 | with twins on SET NULL keys, and on the keys their tables derive tenants along, clearing a column touches rows of that tenant only and moves none |
| Isolation.StepKeepsConsistent | backend/alembic/versions/0082_composite_tenant_fks_and_trigger.py:50-104 | whatever one client statement does, each child with a composite key still has its parent's tenant, though the trigger may be blind to the parent and a parent's tenant may be updated |
| Isolation.RunKeepsConsistent | backend/alembic/versions/0082_composite_tenant_fks_and_trigger.py:50-104 | the same in every state reachable by any interleaving of client statements |
| Isolation.StepLeavesOthers | backend/alembic/versions/0097_msp_tenancy_and_role_rls.py:306-347 | one statement of a session leaves all rows of every tenant it is not scoped to unchanged, cascades and cleared columns included |
| Isolation.RunLeavesOthers | backend/alembic/versions/0097_msp_tenancy_and_role_rls.py:306-347 | the same over any run of other tenants' sessions |
| Isolation.ForeignChildIsTouched | backend/alembic/versions/0091_fix_ce_fill_tenant_id_playbooks.py:105-116 | from a lone parent: without the composite twin a session stores a row under a parent the trigger cannot see, and deleting the parent takes the row along (CASCADE) or clears its reference (SET NULL) |
| Isolation.DetachedChildMoves | backend/alembic/versions/0091_fix_ce_fill_tenant_id_playbooks.py:105-106 | with a twin on a SET NULL key but none on the key the table derives its tenant along, clearing the column moves the session's own row to another tenant |
| Isolation.IsolationIffActionsConfined | backend/alembic/versions/0082_composite_tenant_fks_and_trigger.py:50-104 | isolation over all runs from consistent states holds if and only if every CASCADE and SET NULL key has its composite twin, and so has the key along which a table with a SET NULL key derives its tenant |
| Noninterference.TriggersFromView | backend/alembic/versions/0091_fix_ce_fill_tenant_id_playbooks.py:45-120 | both triggers compute the same row from a tenant's own rows as from the whole database |
| Noninterference.StepFromView | backend/alembic/versions/0097_msp_tenancy_and_role_rls.py:306-347 | a statement's status and its effect on its tenant depend on that tenant's rows alone |
| Noninterference.RunIsOwnRun | backend/alembic/versions/0097_msp_tenancy_and_role_rls.py:306-347 | a tenant's rows and statuses after an interleaving are those of its own statements run alone |
| Noninterference.MissingTwinInterferes | backend/alembic/versions/0082_composite_tenant_fks_and_trigger.py:82-104 | any one key without its twin, whatever its delete rule, lets a tenant change what another tenant's rows or statements are |
| Noninterference.NoninterferesIffAllComposite | backend/alembic/versions/0082_composite_tenant_fks_and_trigger.py:50-104 | noninterference of tenants over all runs holds if and only if every foreign key has its composite twin |
| CompositeKeys.Catalog.AddCompositeKeys | backend/alembic/versions/0082_composite_tenant_fks_and_trigger.py:50-104 | the loop adds exactly the twins of the eligible keys, with CASCADE and RESTRICT kept and every other rule turned into NO ACTION; afterwards no tenant interferes with another |
| CompositeKeys.TwinsGiveNoninterference | backend/alembic/versions/0082_composite_tenant_fks_and_trigger.py:50-104 | whatever composite keys there are, tenants do not interfere if and only if the twin of every eligible key is among them |
| CompositeKeys.TwinsAddNoAction | backend/alembic/versions/0082_composite_tenant_fks_and_trigger.py:93-97 | the twins' own delete rules change no outcome of any statement: a twin repeats its key's action, or waits with NO ACTION for the column to be cleared |
| MspTenancy.Database.MapTenants | backend/alembic/versions/0097_msp_tenancy_and_role_rls.py:208-228 | every unmapped tenant ends in the default MSP, created only if needed, and mapped tenants keep their MSP |
| MspTenancy.Database.FillRows | backend/alembic/versions/0097_msp_tenancy_and_role_rls.py:230-243 | the table loop fills exactly the missing msp_ids of the scoped tables from their tenants |
| MspTenancy.Database.Upgrade | backend/alembic/versions/0097_msp_tenancy_and_role_rls.py:208-243 | after mapping and filling, every row is the old one with its msp_id filled from the final mapping |
| MspTenancy.BackfillAgreesIff | backend/alembic/versions/0097_msp_tenancy_and_role_rls.py:236-243 | afterwards every row agrees with the mapping if and only if the values found beforehand did |
| MspTenancy.CascadeStaysWithin | backend/alembic/versions/0092_copilot_audit.py:74-79 | every row a cascade takes is of the tenant it started in, or in a table at the end of a chain of CASCADE keys with one that has no twin |
| MspTenancy.KeepsAgreementIff | backend/alembic/versions/0097_msp_tenancy_and_role_rls.py:83-109 | for any foreign keys, all statements of a session keep that agreement if and only if its scope agrees with the mapping and what its deletes clear does too: a SET NULL key without a twin, or under a table that cascades reach from other tenants, meets no unmapped tenant, and no row derives its way into a tenant of another MSP |
| MspTenancy.ScopeIsEnough | backend/alembic/versions/0082_composite_tenant_fks_and_trigger.py:50-104 | with the twins of 0082 in place that condition is the agreement of the scope alone |
| MspTenancy.UnmappedRowIsFilled | backend/alembic/versions/0097_msp_tenancy_and_role_rls.py:98-104 | along any chain of cascades that leads to it, a row of an unmapped tenant that loses a reference gets the MSP of the session that deleted the first row |
| MspTenancy.ClearedRowMoves | backend/alembic/versions/0097_msp_tenancy_and_role_rls.py:88-93 | a row that loses a reference derives a tenant of another MSP and keeps the MSP it had |
| MspTenancy.RunKeepsMspAgreement | backend/alembic/versions/0097_msp_tenancy_and_role_rls.py:249-263 | runs of such sessions keep every row's msp_id the mapping of its tenant |
| MspTenancy.SeesAllOrNothing | backend/alembic/versions/0097_msp_tenancy_and_role_rls.py:55-59 | a session sees all rows of the tenant it speaks for, and none with an unset, empty or disagreeing scope |
| MspTenancy.BackfillThenRunThenRead | backend/alembic/versions/0097_msp_tenancy_and_role_rls.py:230-263 | the same for a reader after backfilling new columns and any run of such sessions |
| MspDeletion.MspTakesItsTenants | backend/alembic/versions/0097_msp_tenancy_and_role_rls.py:365-398 | with all twins in place, deleting the row of the session's MSP is carried out and takes all rows of every tenant mapped to it and no row of another MSP's tenants |
| MspDeletion.MspDeleteIs | backend/alembic/versions/0097_msp_tenancy_and_role_rls.py:365-398 | with whatever keys, the delete takes the least set that holds the rows of the session's MSP and of its tenants and what refers to them by CASCADE keys, and only clears references of other rows, which then name an MSP and a tenant that are left; refused or without a setting that names an MSP it changes nothing |
| MspDeletion.NothingOfMspIsLeft | backend/alembic/versions/0097_msp_tenancy_and_role_rls.py:365-398 | after the row of an MSP is deleted no row is of that MSP or of a tenant mapped to it, and no reference left leads to a row that went |
| TenantBackfill.FillReachesRoots | backend/alembic/versions/0078_tenant_owned_children_and_rls.py:28-95 | each UPDATE of a right order gives its table, where it has none, the tenant found first on the way to the root, through two-level chains |
| TenantBackfill.FillOrderIsOrdered | backend/alembic/versions/0078_tenant_owned_children_and_rls.py:28-95 | the order used is right: no statement reads a table a later one fills |
| TenantBackfill.LinksBeforeVersionsStayOwnerless | backend/alembic/versions/0078_tenant_owned_children_and_rls.py:59-70 | with links filled before the versions no link without a tenant would get one |
| TenantBackfill.GoneGrows | backend/alembic/versions/0078_tenant_owned_children_and_rls.py:135-138 | deleting table by table, cascades included, takes the rows that one deletion of all ownerless rows would take |
| TenantBackfill.LeftReads | backend/alembic/versions/0078_tenant_owned_children_and_rls.py:135-138 | the rows left are all but the least set that holds the ownerless ones and what refers to them by CASCADE keys, with their tenants, changed in nothing but references lost to SET NULL keys, and none refers to a row that went |
| TenantBackfill.EveryRowHasTenant | backend/src/contextedge/models/playbook.py:189-193 | deriving columns being NOT NULL foreign keys and the other tables' tenants NOT NULL, every child finds a tenant |
| TenantBackfill.Database.Sweep | backend/alembic/versions/0078_tenant_owned_children_and_rls.py:135-138 | the DELETEs fail exactly when, at some table, a row outside all cascades so far points by a RESTRICT or NO ACTION key at one inside, and otherwise leave the rows outside the cascade of all ownerless ones |
| TenantBackfill.Database.Backfill | backend/alembic/versions/0078_tenant_owned_children_and_rls.py:120-134 | the statement loop leaves every child with its own tenant or the one found first on the way to its root, and changes nothing else |
| TenantBackfill.Database.Upgrade | backend/alembic/versions/0078_tenant_owned_children_and_rls.py:110-139 | exactly when no DELETE is refused the upgrade succeeds, leaving the filled rows outside the cascade of the ownerless ones; under the constraints of the schema it succeeds for any foreign keys and keeps every row, each with a tenant |
| KnowledgeMigration.Store.RankSources | backend/alembic/versions/0073_migrate_knowledge_episodes_to_cases.py:116-143 | the ranking picks one episode per (tenant, source), and each of its partition has at most its steps, with equal steps at most its confidence, with that equal too was created no later |
| KnowledgeMigration.Store.InsertCases | backend/alembic/versions/0073_migrate_knowledge_episodes_to_cases.py:145-184 | every resolved (tenant, source) has exactly one case, new ones made from a richest episode, existing ones kept |
| KnowledgeMigration.Store.InsertSteps | backend/alembic/versions/0073_migrate_knowledge_episodes_to_cases.py:189-206 | every migrated case has the steps of its episode, one per order, and existing steps are kept |
| KnowledgeMigration.Store.DeleteRepresented | backend/alembic/versions/0073_migrate_knowledge_episodes_to_cases.py:224-234 | exactly the resolved episodes, their steps and their cascading evidence and issue links go, or nothing, when a pattern link points at one |
| KnowledgeMigration.Store.Upgrade | backend/alembic/versions/0073_migrate_knowledge_episodes_to_cases.py:75-245 | the statements in order have the combined effect, and none at all when there is no target; the upgrade fails exactly when a pattern link points at a resolved episode |
| KnowledgeMigration.Store.Downgrade | backend/alembic/versions/0073_migrate_knowledge_episodes_to_cases.py:255-294 | the downgrade reinserts what is missing from both tombstones and drops migrated cases, or does nothing when a tombstone is absent; it fails exactly when a step restored has no episode or takes a taken order |
| KnowledgeConservation.TargetIsTombstoned | backend/alembic/versions/0073_migrate_knowledge_episodes_to_cases.py:208-222 | a target is in a new tombstone with all its steps, and a new tombstone holds only invalidated episodes that were not observational, and their steps |
| KnowledgeConservation.TargetIsConserved | backend/alembic/versions/0073_migrate_knowledge_episodes_to_cases.py:208-234 | migrate-then-delete never becomes delete-without-migrate, whatever tombstones there are: each target is live exactly when no evidence of it is knowledge-typed, and else represented by exactly one case |
| KnowledgeConservation.OthersAreUntouched | backend/alembic/versions/0073_migrate_knowledge_episodes_to_cases.py:68-72 | episodes outside the selection keep their row, steps and links, and pattern links and existing cases stay |
| KnowledgeConservation.UpgradeKeepsValid | backend/alembic/versions/0071_episode_step_uniqueness.py:32-37 | references and unique keys still hold afterwards |
| KnowledgeConservation.NewCaseIsRichest | backend/alembic/versions/0073_migrate_knowledge_episodes_to_cases.py:104-143 | no episode of the tenant that resolves to the same document has more steps than the one a new case is made from, nor with equal steps a higher confidence, nor with that equal too a later date; the case carries its steps one for one |
| KnowledgeConservation.NewCaseReads | backend/alembic/versions/0073_migrate_knowledge_episodes_to_cases.py:145-184 | column by column, what a new case says of its episode and of the knowledge document that comes first among the episode's evidence |
| KnowledgeConservation.DowngradeReads | backend/alembic/versions/0073_migrate_knowledge_episodes_to_cases.py:255-294 | the downgrade completes both tables from the tombstones, keeps exactly the cases not migrated, drops the tombstones, and fits exactly when every step then has its episode and its order to itself |
| KnowledgeConservation.FirstCaseIsNew | backend/alembic/versions/0073_migrate_knowledge_episodes_to_cases.py:177-181 | the case of a document is new exactly when none stood for it before |
| KnowledgeConservation.RoundTrip | backend/alembic/versions/0073_migrate_knowledge_episodes_to_cases.py:255-294 | without earlier tombstones, upgrade then downgrade restores episodes and steps exactly and leaves unmigrated cases and their steps as they were |
| KnowledgeConservation.RoundTripIsExactIff | backend/alembic/versions/0073_migrate_knowledge_episodes_to_cases.py:222-245 | the whole database comes back exactly when, with no target, there were not both tombstones before, or else there was none, no case was migrated before, and no evidence or issue link hung on a deleted episode |
| KnowledgeConservation.CascadedLinksAreLost | backend/alembic/versions/0045_issue_signatures.py:54-62 | a valid database whose evidence link and issue link are gone after upgrade and downgrade |
| KnowledgeConservation.PatternLinkRefuses | backend/src/contextedge/models/pattern.py:70-74 | a valid database whose migration a pattern link refuses |
| KnowledgeConservation.EpisodesComeBackIff | backend/alembic/versions/0073_migrate_knowledge_episodes_to_cases.py:86-102 | for every valid database, episodes and steps come back exactly when the tombstones found hold every deleted row as it was and no row that was gone, or there is no target and one of the two is absent |
| KnowledgeConservation.StaleTombstoneLosesEpisode | backend/alembic/versions/0073_migrate_knowledge_episodes_to_cases.py:86-102 | a database with an empty earlier tombstone from which an episode is lost from all tables |
| KnowledgeConservation.StaleStepTombstoneLosesStep | backend/alembic/versions/0073_migrate_knowledge_episodes_to_cases.py:97-102 | a database with an empty earlier step tombstone from which a step is lost although its episode returns |
| KnowledgeConservation.OldTombstonesResurrect | backend/alembic/versions/0073_migrate_knowledge_episodes_to_cases.py:255-294 | a database without a target in which the downgrade brings back an episode long gone |
| Merges.Pass.MergePair | backend/scripts/remediate_playbook_corpus.py:996-1012 | one merge keeps every edge pointing up and marks one of the two, even if it was dropped before |
| Merges.Pass.DetectMerges | backend/scripts/remediate_playbook_corpus.py:955-1012 | every merge edge joins two open records of one component of which the earlier has at least 0.8 of its title tokens and 0.85 of its signature tokens in the later, and strictly rises in (score, earlier position); no such pair is left unmerged; other records are unchanged |
| Merges.AlikeIff | backend/scripts/remediate_playbook_corpus.py:991-995 | two records are merged candidates exactly when those shares reach 0.8 and 0.85 |
| Merges.KeeperIsStronger | backend/scripts/remediate_playbook_corpus.py:997-1005 | the record kept is the one of higher specificity, then coverage, then episodes, then fewer old steps, then the earlier one |
| Merges.AboveLowersRank | backend/scripts/remediate_playbook_corpus.py:997-1005 | following an edge lowers a natural number, so the relation has no cycle |
| Merges.ChainsEndAtSurvivors | backend/scripts/remediate_playbook_corpus.py:963-1012 | every chain ends at a playbook of the same component that is not merged, suppressed or deleted and is above the start |
| Merges.KeeperIsNamed | backend/scripts/remediate_playbook_corpus.py:1006-1007 | the id in merge_into names that keeper and no other |
| RebuildSteps.Finish | backend/scripts/remediate_playbook_corpus.py:806-819 | the loop returns the first eight, renumbered, of the steps that survive the sweep |
| RebuildSteps.KeptIff | backend/scripts/remediate_playbook_corpus.py:808-816 | a step survives exactly when it is not junk and not a near-duplicate of one kept before it |
| RebuildSteps.FinalIsDistinct | backend/scripts/remediate_playbook_corpus.py:806-819 | the result is numbered 1..k, holds no junk, and no later step is a near-duplicate of an earlier one |
| RebuildSteps.NoTwoOverlap | backend/scripts/remediate_playbook_corpus.py:811-815 | no two steps returned are mutually above 0.88 token overlap |
| RebuildSteps.FinalKeepsOrder | backend/scripts/remediate_playbook_corpus.py:806-819 | the steps come in their old order and change in nothing but their number |
| RebuildSteps.DroppedForAReason | backend/scripts/remediate_playbook_corpus.py:808-816 | below the limit every missing step is junk or a near-duplicate of a kept one |
| RebuildSteps.FinalIsStable | backend/scripts/remediate_playbook_corpus.py:806-819 | passing a result through again changes nothing |
| RebuildSteps.TwinsOverlapIff | backend/scripts/remediate_playbook_corpus.py:210-214 | two steps with the same text collapse exactly when the text has a token |
| Cleanup.CleanIsNormalForm | backend/scripts/remediate_playbook_corpus.py:699-702 | the result has no run of blanks, no blank before comma, semicolon or sentence-ending dot and no space at the ends, and exactly such text is left alone |
| Cleanup.CleanIsIdempotent | backend/scripts/remediate_playbook_corpus.py:699-702 | cleaning twice is cleaning once, on every string |
| Cleanup.CleanKeepsInk | backend/scripts/remediate_playbook_corpus.py:695-702 | the sequence of characters that are not white space comes through exactly |
| Cleanup.CleanKeepsWordsApart | backend/scripts/remediate_playbook_corpus.py:696-701 | blanks between visible text and a word, or a dot that starts a file name, stay as one |
| Corpus.Transaction.Revise | backend/scripts/remediate_playbook_corpus.py:1103-1175 | a revision adds one new version with copies of all evidence links and moves the pointer, or is refused exactly when the version text is taken or longer than its column |
| Corpus.Transaction.Remove | backend/scripts/remediate_playbook_corpus.py:1211-1281 | the branch removes exactly the playbook's rows and exclusive links, clears the origins that named its versions, deactivates an empty pattern and counts the links removed, or is refused exactly when an approval of another playbook names one of its versions |
| Corpus.Transaction.Apply | backend/scripts/remediate_playbook_corpus.py:1089-1287 | the loop carries out all decisions or none; it fails exactly when a revision's version text is among those of its playbook or longer than 20 characters, or a playbook to be deleted has a version that an approval of one not deleted before it names; it reports the number of links removed |
| Corpus.RunLeavesOthers | backend/scripts/remediate_playbook_corpus.py:1096-1281 | playbooks without a decision, and their versions, are as they were |
| CorpusIntegrity.RunOrphansNothing | backend/scripts/remediate_playbook_corpus.py:1305-1322 | orphan versions, orphan links and broken pattern references stay at zero for every decision list |
| CorpusIntegrity.FateOfPlaybook | backend/scripts/remediate_playbook_corpus.py:1096-1281 | a playbook disappears exactly by its deletion, and its pointer changes exactly by a revision, to a new version of its own |
| CorpusIntegrity.FateOfRetirement | backend/scripts/remediate_playbook_corpus.py:1177-1208 | a playbook left is retired by its merge or suppression and no other decision, and its description is the old one followed by that decision's note, otherwise unchanged |
| CorpusIntegrity.FateOfRevision | backend/scripts/remediate_playbook_corpus.py:1103-1175 | a revised playbook ends pointing at a version not there before, with the version text and steps of that decision |
| CorpusIntegrity.FateOfVersion | backend/scripts/remediate_playbook_corpus.py:1231-1231 | a version disappears exactly with its playbook and is otherwise unchanged but for its origin |
| CorpusIntegrity.VersionsForgetOrigins | backend/src/contextedge/models/playbook.py:234-238 | a version that stays forgets its origin exactly when the origin's playbook is deleted |
| CorpusIntegrity.FateOfLinks | backend/scripts/remediate_playbook_corpus.py:1211-1231 | an evidence link stays as it is exactly as long as the playbook of its version, and no link to the versions of a deleted one is left |
| CorpusIntegrity.FateOfEdges | backend/scripts/remediate_playbook_corpus.py:1220-1266 | an edge goes exactly when it leaves a deleted playbook or ties an episode counted as exclusive to the pattern of a deletion |
| CorpusIntegrity.PointersStayIntactIff | backend/scripts/remediate_playbook_corpus.py:1301-1304 | broken pointers stay at zero if and only if no playbook kept as it is points at a version of a deleted one |
| CorpusIntegrity.OwnPointersStayIntact | backend/scripts/remediate_playbook_corpus.py:1301-1304 | so they stay at zero whenever pointers lead to versions of their own playbook |
| CorpusIntegrity.SharedVersionBreaksPointer | backend/scripts/remediate_playbook_corpus.py:1228-1232 | a corpus as the loader returns it whose decisions are carried out and leave the counter at one |
| CorpusIntegrity.ApprovalBlocksDelete | backend/src/contextedge/models/playbook.py:292-296 | a corpus whose deletion an approval of another playbook refuses |
| CorpusIntegrity.FateOfPatternLinks | backend/scripts/remediate_playbook_corpus.py:1234-1256 | a pattern link goes exactly when a deletion names its pattern and counts its episode as exclusive |
| CorpusIntegrity.LinkGoesIff | backend/scripts/remediate_playbook_corpus.py:1234-1256 | of the corpus that the loader returns, a pattern link goes exactly when a deletion names its pattern and its episode is linked to no other |
| CorpusIntegrity.RemovedLinksAreExclusive | backend/scripts/remediate_playbook_corpus.py:1234-1256 | every link of the episode of a removed link led to that one pattern at load |
| CorpusIntegrity.SharedEpisodesKeepLinks | backend/scripts/remediate_playbook_corpus.py:1268-1268 | an episode with links to two patterns keeps every link |
| CorpusIntegrity.LinksDropOnlyWithLastPlaybookIff | backend/scripts/remediate_playbook_corpus.py:1245-1278 | over any run, a pattern loses links only with its last playbook if and only if no deletion naming it counts a linked episode as exclusive or all its playbooks are deleted |
| CorpusIntegrity.LinkDropsBeforeLastPlaybook | backend/scripts/remediate_playbook_corpus.py:1245-1278 | a corpus whose decisions are carried out and leave a pattern with a playbook but without its link |
| CorpusIntegrity.FateOfPattern | backend/scripts/remediate_playbook_corpus.py:1272-1280 | a pattern becomes inactive exactly when a deletion names it and no playbook of it is left |
| PatchLoop.Playbook.Run | backend/scripts/fix_remediation_defects.py:276-320 | edits, insertions and renumbering in place compute the repair function, and the list counts as changed exactly when something was edited or inserted |
| PatchLoop.RepairSettles | backend/scripts/fix_remediation_defects.py:276-313 | after one run of a well-formed patch every edit has nothing left to do and every inserted text is there |
| PatchLoop.RepairIsIdempotent | backend/scripts/fix_remediation_defects.py:58-58 | a second run of such a patch changes nothing, order numbers included |
| PatchLoop.InsertionLands | backend/scripts/fix_remediation_defects.py:306-311 | an inserted step lands behind the position it names, a negative one meaning the front and one past the end the end |
| PatchExactness.EditsAreIdempotentIff | backend/scripts/fix_remediation_defects.py:283-303 | a patch of edits whose texts do not meet is idempotent on all step lists if and only if every edit is harmless: its old text is its new one or has white space at its ends, or its new text is non-empty and stripped or strips to the old one |
| PatchExactness.HarmlessEditsTwice | backend/scripts/fix_remediation_defects.py:283-320 | with harmless edits a second run changes nothing, even where it hits a step again |
| PatchExactness.HarmfulEditTwice | backend/scripts/fix_remediation_defects.py:283-303 | for any edit that is not harmless, among edits whose texts do not meet, a step list that a second run changes again |
| PatchExactness.InsertionsAreIdempotentIff | backend/scripts/fix_remediation_defects.py:306-313 | a patch of insertions is idempotent on all step lists if and only if every declared text is carried by the step of some insertion declaring it |
| MixedPatches.UnsuppliedTwice | backend/scripts/fix_remediation_defects.py:306-313 | for any declared text no insertion supplies, a step list that grows on both runs |
| MixedPatches.PatchesAreIdempotentIff | backend/scripts/fix_remediation_defects.py:276-320 | a patch of edits and insertions whose texts do not meet is idempotent on all step lists if and only if every edit is harmless and every declared text is supplied |
| EditPairs.PairsAreIdempotentIff | backend/scripts/fix_remediation_defects.py:283-303 | two edits with findable new texts are idempotent on all step lists if and only if one of them can change nothing, neither looks for what the other leaves, or they undo each other |
| EditPairs.EarlierLeaves | backend/scripts/fix_remediation_defects.py:283-303 | for any two edits of which the second carries on what the first leaves, a list on which every run carries on one step more |
| PatchLoop.RepairTraces | backend/scripts/fix_remediation_defects.py:276-320 | for every patch old steps keep their relative order and change in nothing but number and, by an edit, text, and the list grows by exactly the steps inserted; with a well-formed patch only steps an edit was waiting for get a new text |
| TriggerText.FlattenTriggers | backend/scripts/fix_remediation_defects.py:121-143 | the budgeted walk returns the first 1200 characters of the join of all stripped non-blank strings in traversal order |
| TriggerText.Walk.Visit | backend/scripts/fix_remediation_defects.py:126-139 | a visit appends a prefix of the node's strings, each while budget was left, and all of them unless none is left |
| TriggerText.StringsAreThoseHeld | backend/scripts/fix_remediation_defects.py:126-139 | the texts walked are exactly the strings anywhere in objects and arrays, stripped and not blank |
| TriggerText.EarlyStopIsInvisible | backend/scripts/fix_remediation_defects.py:141-143 | strings beyond the budget cannot show in the characters kept |
| Usernames.FreeName | backend/alembic/versions/0075_user_username_login.py:111-116 | the search ends for every set of taken names and returns the first attempt not taken |
| Usernames.AllowedIff | backend/alembic/versions/0075_user_username_login.py:107-110 | the characters of a name are the lower-case letters, digits, dot, underscore and dash, and it starts with a letter or digit |
| Usernames.LocalPartIs | backend/alembic/versions/0075_user_username_login.py:106-106 | an address is cut at its first at sign and is its own local part without one |
| Usernames.CleanedIs | backend/alembic/versions/0075_user_username_login.py:106-110 | the cleaned name is the lower-cased local part with dashes for what is not allowed, without the dots and dashes at its ends, `user` if that leaves nothing, and with `u-` before an underscore |
| Usernames.SuffixedIsInjective | backend/alembic/versions/0075_user_username_login.py:113-115 | numbered candidates differ in what follows the last dash, however the front is cut |
| Usernames.SuffixedIsNameIff | backend/alembic/versions/0075_user_username_login.py:106-115 | a candidate is a well-formed name of at most 64 characters if and only if its number has at most 62 digits |
| Usernames.Database.NameLeftovers | backend/alembic/versions/0075_user_username_login.py:98-121 | every user left over gets the first free attempt at its own address, distinct from all names before and all names given, well formed if there is room; nobody else changes |
| Usernames.IndexBuildsIff | backend/alembic/versions/0075_user_username_login.py:123-126 | the unique index builds if and only if the names given by the earlier steps were distinct |
| Versions.ParsePrint | backend/alembic/versions/0005_playbook_version_semantic_unique.py:17-28 | printing a triple and parsing it is the identity |
| Versions.ParsedIsDotted | backend/alembic/versions/0005_playbook_version_semantic_unique.py:17-28 | what parses is three numerals between two dots, none empty, read as decimal numbers |
| Versions.NextFree | backend/alembic/versions/0005_playbook_version_semantic_unique.py:31-43 | the answer is the first candidate, one patch above the highest parseable version or 0.1.0: the search loop never runs |
| Versions.NextIsFree | backend/alembic/versions/0005_playbook_version_semantic_unique.py:31-43 | that version is not used and has higher precedence than every parseable one |
| VersionTable.Database.FindKeep | backend/alembic/versions/0005_playbook_version_semantic_unique.py:46-55 | the kept row is the maximum of its group: against each twin it is the current version, or neither is and it comes first by published, last touched, created, id |
| VersionTable.Database.RenameDuplicates | backend/alembic/versions/0005_playbook_version_semantic_unique.py:107-175 | the nested loops rename the other rows of each group one after the other, each above all versions its playbook has had by then, or leave everything as it was, exactly when one of the new versions is longer than 20 characters |
| VersionTable.FitsIff | backend/src/contextedge/models/playbook.py:195-195 | no rename is refused if and only if every renamed row ends with a version of at most 20 characters |
| VersionTable.AllRenamed | backend/alembic/versions/0005_playbook_version_semantic_unique.py:157-175 | only the renamed rows change, only in their version, and versions rise in the order of renaming |
| VersionTable.LosersAreOutranked | backend/alembic/versions/0005_playbook_version_semantic_unique.py:154-159 | a row is renamed if and only if another row with its playbook and version is preferred to it |
| VersionTable.DeduplicationIsRight | backend/alembic/versions/0005_playbook_version_semantic_unique.py:107-175 | afterwards no two versions of a playbook agree, each outranked row has a version above all its playbook had, and every other row is unchanged |
| VersionTable.KeptIsPreferred | backend/alembic/versions/0005_playbook_version_semantic_unique.py:46-55 | a row that keeps its version against a twin is the current one, or no twin is and it comes before that one: published before unpublished, then later touched, then later created, then by id |
| VersionTable.CurrentIsKept | backend/alembic/versions/0005_playbook_version_semantic_unique.py:49-50 | the current version of a playbook is never renamed |
| AliasText.TrimmedIsJoined | backend/alembic/versions/0033_identity_resolution_hardening.py:58-64 | collapse-then-trim equals split-and-join on every string |
| AliasText.NormalizedIsIdempotent | backend/alembic/versions/0033_identity_resolution_hardening.py:58-64 | normalising a normal form changes nothing |
| AliasText.SameNormalFormIff | backend/alembic/versions/0033_identity_resolution_hardening.py:86-88 | two aliases share a normal form if and only if they have the same words up to case |
| Aliases.Database.Upgrade | backend/alembic/versions/0033_identity_resolution_hardening.py:62-113 | the statements fill tenants, names and normal forms only where they are null and change nothing else, and the unique index builds |
| Aliases.ExactlyTheOldestSurvives | backend/alembic/versions/0033_identity_resolution_hardening.py:96-109 | of each strong key exactly the (created_at, id) minimum survives the DELETE |
| Aliases.OnlyKeyedRowsGo | backend/alembic/versions/0033_identity_resolution_hardening.py:102-109 | rows that are not strong, or have a null in the key, stay |
| Aliases.DeletedIffCollides | backend/alembic/versions/0033_identity_resolution_hardening.py:81-109 | from sound columns an alias is deleted if and only if it is strong and an older one of its kind and tenant has the same words up to case |
| Aliases.RerunIsSafe | backend/alembic/versions/0033_identity_resolution_hardening.py:26-27 | running the migration twice is running it once |
| Pairing.FindBest | backend/scripts/generate_manager_quality_report.py:138-145 | the inner loop finds the first most similar unused text, if one is at least 0.45 similar |
| Pairing.Compare | backend/scripts/generate_manager_quality_report.py:127-150 | the outcome is that of greedy partners over the removed and added texts |
| Pairing.GreedyIsUnique | backend/scripts/generate_manager_quality_report.py:137-149 | greedy partners are determined by the texts and similarities |
| Pairing.EachUsedOnce | backend/scripts/generate_manager_quality_report.py:139-147 | no added text is paired twice |
| Pairing.NothingAlikeIsLeft | backend/scripts/generate_manager_quality_report.py:145-150 | no leftover removed text and leftover added text are 0.45 alike |
| Pairing.NothingIsLost | backend/scripts/generate_manager_quality_report.py:127-150 | every old and every new text is common, paired or left over, counted with repeats |
| Pairing.PairsAreChanges | backend/scripts/generate_manager_quality_report.py:127-147 | a pair is an old text that is gone and a new text that was not there, at least 0.45 alike |

## Left out

- Isolation.RunLeavesOthers: covers client-role sessions on tenant-scoped tables; MSP, platform and owner sessions, and inserts, updates and the remaining deletes on `tenants` and `msps`, are outside the transition system.
- MspDeletion.MspTakesItsTenants: counts every key on `tenant_id` as CASCADE, although some tables declare it without; where rows agree with the mapping the key on `msp_id` takes the same rows.
- Isolation.StepLeavesOthers: several SET NULL updates of one row in a statement are one update, and its triggers see the rows that the cascade has left; ON DELETE SET DEFAULT counts as SET NULL, since no reference column of the schema has a default.
- Noninterference.RunIsOwnRun: assumes each identifier is ever used by one tenant, as random UUIDs are; a primary-key clash would show in a status.
- Primary-key updates, and multi-row INSERT and UPDATE in one statement, which the model runs row by row.
- RESTRICT is checked at the end of the statement like NO ACTION.
- Which error is reported first when several apply; the model says only that the statement fails.
- Truncation of constraint names to 63 characters, and the catalog queries that list tables and keys, which are parameters.
- TenantBackfill.Database.Upgrade: takes the foreign keys between the tables as a parameter; the NOT NULL, foreign-key and index statements after each DELETE are not modelled.
- KnowledgeMigration.Store.Upgrade: carries the columns the selection, the cases and the steps depend on; embedding, workspace, domain, applicability and the rest of the provenance travel as opaque text or not at all, and `final` timestamps set to now() are dropped.
- Corpus.Transaction.Apply: takes the text of the next version and of appended notes as given; tables the script never writes are left out, whether they would refuse a delete (execution runs, backend/alembic/versions/0011_execution_governance.py:25-26) or lose rows with it (scan states, content revisions).
- CorpusIntegrity.RunOrphansNothing: does not count playbooks without steps, nor pattern links whose episode is gone, since no decision touches episodes.
- Cleanup.CleanKeepsWordsApart: the substitution of hedging phrases that precedes the white-space tail is a regular-expression judgement and not modelled.
- PatchLoop.RepairIsIdempotent: for patches of three or more edits that look for each other's texts, or of edits that look for texts insertions bring, the condition is sufficient only. Edits and insertions come in processing order, after sorting, and which playbooks are skipped as published or missing is not modelled.
- TriggerText.FlattenTriggers: `build_lexical_text`, which joins and truncates in one expression, is not modelled.
- RebuildSteps.Finish: the junk pattern and the tokens of a text are parameters, and the steps before this pass are given.
- Scores, confidences, overlap ratios and similarities are integers or reals, not floating-point numbers.
- Usernames.Database.NameLeftovers: takes the names given by the known-address and role steps as they are, and lower-casing as a parameter.
- VersionTable.Database.RenameDuplicates: takes the grouped query result as a parameter and requires only that it is a grouping of the duplicates.
- AliasText.NormalizedIsIdempotent: lower-casing works character by character and is a parameter that settles after one step and keeps white space; PostgreSQL and Python may disagree on which rare characters are white space.
- Aliases.Database.Upgrade: the 500-character limit of the normal-form columns is not modelled.
- Report phrases, tags and counts built from the pairing; database drivers, argument parsing and all remaining migrations.
