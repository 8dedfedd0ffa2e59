/**
  One statement of a client-role session against the tenant-scoped tables: the BEFORE ROW
  triggers, the row-security policy, the foreign keys with ON DELETE CASCADE and SET NULL.

  Row security filters what a statement or a trigger lookup can see. Foreign-key checks and
  actions are carried out by the database itself as the owner of the tables and see every row,
  and so do the triggers that fire on the UPDATE by which ON DELETE SET NULL clears a column.
 */
module RowSecurity {
  import opened Wrappers

  /** The child tables of 0091, the parents they derive their tenant from, and any other scoped table. */
  datatype Table =
    | SourceCredentials | SyncCheckpoints | PatternEvidenceLinks | KnowledgeCaseSteps | AttachmentArtifacts
    | PlaybookVersions | PlaybookEvidenceLinks | PlaybookApprovals | EpisodeSteps | ClaimEvidence
    | DecisionEvidence | IdentityAliases | EvidenceIdentityLinks
    | Sources | SourceObjects | Patterns | KnowledgeCases | EvidenceItems | Playbooks | Episodes | Claims
    | Decisions | CanonicalIdentities
    | OtherTable(name: string)

  type Column = string

  datatype Key = Key(table: Table, id: Uuid)

  /** A row; a reference column that holds NULL is absent from `refs`. */
  datatype Row = Row(tenant: Option<Uuid>, msp: Option<Uuid>, refs: map<Column, Uuid>, data: string)

  type Rows = map<Key, Row>

  datatype DeleteRule = Cascade | Restrict | NoAction | SetNull

  datatype ForeignKey = ForeignKey(child: Table, column: Column, parent: Table, rule: DeleteRule)

  /** `keys` reference `parent (id)`; those in `composite` reference `parent (tenant_id, id)` as well. */
  datatype Schema = Schema(keys: set<ForeignKey>, composite: set<ForeignKey>)

  /** What a statement reads besides the scoped tables: `tenants` with its MSP mapping, and `msps`. */
  datatype World = World(schema: Schema, tenants: map<Uuid, Option<Uuid>>, msps: set<Uuid>)

  /** A session setting: never set, set to '', set to the text of a uuid, or set to other text. */
  datatype Setting = Unset | Empty | Scope(id: Uuid) | Malformed

  datatype Session = Session(msp: Setting, tenant: Setting)

  // --- Policies ---------------------------------------------------------------------------

  /** SQL truth values: a policy admits a row only when it is `Yes`. */
  datatype Truth = Yes | No | Unknown

  function And(p: Truth, q: Truth): Truth {
    if p.No? || q.No? then No else if p.Unknown? || q.Unknown? then Unknown else Yes
  }

  function SqlEqual(a: Option<Uuid>, b: Option<Uuid>): Truth {
    if a.None? || b.None? then Unknown else if a.value == b.value then Yes else No
  }

  function IsNotNull(a: Option<Uuid>): Truth {
    if a.Some? then Yes else No
  }

  /** `NULLIF(current_setting(..., true), '')::uuid` for a setting whose cast does not raise. */
  function ScopeOf(s: Setting): Option<Uuid> {
    if s.Scope? then Some(s.id) else None
  }

  function ClientPredicate(s: Session, row: Row): Truth {
    And(And(IsNotNull(row.msp), SqlEqual(row.msp, ScopeOf(s.msp))), SqlEqual(row.tenant, ScopeOf(s.tenant)))
  }

  predicate Admits(s: Session, row: Row) {
    ClientPredicate(s, row) == Yes
  }

  /** The client policy of the `tenants` table itself. */
  function TenantRowPredicate(s: Session, id: Uuid, msp: Option<Uuid>): Truth {
    And(And(IsNotNull(msp), SqlEqual(msp, ScopeOf(s.msp))), SqlEqual(Some(id), ScopeOf(s.tenant)))
  }

  // --- BEFORE INSERT OR UPDATE triggers ---------------------------------------------------

  /** Who runs the statement a trigger fires on: the session's role, or the owner for a foreign-key action. */
  datatype Role = Client | Owner

  /** `SELECT msp_id FROM tenants WHERE id = ...` as the role sees it. */
  function LookupMsp(w: World, s: Session, role: Role, tenant: Uuid): Option<Uuid> {
    if tenant in w.tenants && (role.Owner? || TenantRowPredicate(s, tenant, w.tenants[tenant]) == Yes)
    then w.tenants[tenant] else None
  }

  /** The role sees a row at `p`. */
  predicate Sees(rows: Rows, s: Session, role: Role, p: Key) {
    p in rows && (role.Owner? || Admits(s, rows[p]))
  }

  datatype Parent = Parent(column: Column, table: Table)

  /** The tables that carry `trg_ce_fill_tenant_id`, with the reference each derives its tenant from. */
  function DerivingParent(t: Table): Option<Parent> {
    match t
    case SourceCredentials => Some(Parent("source_id", Sources))
    case SyncCheckpoints => Some(Parent("source_object_id", SourceObjects))
    case PatternEvidenceLinks => Some(Parent("pattern_id", Patterns))
    case KnowledgeCaseSteps => Some(Parent("knowledge_case_id", KnowledgeCases))
    case AttachmentArtifacts => Some(Parent("evidence_id", EvidenceItems))
    case PlaybookVersions => Some(Parent("playbook_id", Playbooks))
    case PlaybookEvidenceLinks => Some(Parent("playbook_version_id", PlaybookVersions))
    case PlaybookApprovals => Some(Parent("playbook_id", Playbooks))
    case EpisodeSteps => Some(Parent("episode_id", Episodes))
    case ClaimEvidence => Some(Parent("claim_id", Claims))
    case DecisionEvidence => Some(Parent("decision_id", Decisions))
    case IdentityAliases => Some(Parent("canonical_identity_id", CanonicalIdentities))
    case EvidenceIdentityLinks => Some(Parent("evidence_id", EvidenceItems))
    case _ => None
  }

  function FillMsp(w: World, s: Session, role: Role, row: Row): (filled: Row)
    ensures filled == row.(msp := filled.msp)
    ensures role.Client? ==> filled.msp == if row.msp.Some? then row.msp else ScopeOf(s.msp)
  {
    if row.msp.Some? then row
    else
      var derived := if row.tenant.Some? then LookupMsp(w, s, role, row.tenant.value) else None;
      row.(msp := if derived.Some? then derived else ScopeOf(s.msp))
  }

  /** The parent a row of table `t` derives its tenant from, when that column is set. */
  function ParentKey(t: Table, row: Row): Option<Key> {
    var d := DerivingParent(t);
    if d.Some? && d.value.column in row.refs then Some(Key(d.value.table, row.refs[d.value.column])) else None
  }

  /** `SELECT tenant_id FROM <parent> WHERE id = ...` as the role sees it. */
  function DerivedTenant(rows: Rows, s: Session, role: Role, parent: Option<Key>): Option<Uuid> {
    if parent.Some? && Sees(rows, s, role, parent.value) then rows[parent.value].tenant else None
  }

  function FillTenant(rows: Rows, s: Session, role: Role, t: Table, row: Row): Row {
    var derived := DerivedTenant(rows, s, role, ParentKey(t, row));
    if derived.Some? then row.(tenant := derived)
    else if DerivingParent(t).Some? && row.tenant.None? then row.(tenant := ScopeOf(s.tenant))
    else row
  }

  /** Triggers fire in name order: `trg_ce_fill_msp_id`, then `trg_ce_fill_tenant_id`. */
  function BeforeRow(w: World, rows: Rows, s: Session, role: Role, t: Table, row: Row): Row {
    FillTenant(rows, s, role, t, FillMsp(w, s, role, row))
  }

  /** Whatever `tenants` holds, a session's row that names no MSP gets the session's; a given one stays. */
  method CeFillMspId(w: World, s: Session, role: Role, row: Row) returns (new_: Row)
    ensures new_ == row.(msp := new_.msp)
    ensures row.msp.Some? ==> new_.msp == row.msp
    ensures row.msp.None? && role.Client? ==> new_.msp == ScopeOf(s.msp)
    ensures (row.msp.None? && role.Owner? && row.tenant.Some? && row.tenant.value in w.tenants)
            ==> (w.tenants[row.tenant.value].Some? ==> new_.msp == w.tenants[row.tenant.value])
    ensures new_ == FillMsp(w, s, role, row)
  {
    new_ := row;
    if new_.msp.None? && new_.tenant.Some? {
      var derived := LookupMsp(w, s, role, new_.tenant.value);
      if derived.Some? {
        new_ := new_.(msp := derived);
      }
    }
    if new_.msp.None? {
      // A setting that is not a uuid raises; the handler leaves NULL.
      new_ := new_.(msp := if s.msp.Malformed? then None else ScopeOf(s.msp));
    }
  }

  /** The tenant of a visible parent wins over the one given; the session's fills a gap only. */
  method CeFillTenantId(rows: Rows, s: Session, role: Role, t: Table, row: Row) returns (new_: Row)
    requires DerivingParent(t).Some?
    ensures new_ == row.(tenant := new_.tenant)
    ensures var derived := DerivedTenant(rows, s, role, ParentKey(t, row));
            new_.tenant == if derived.Some? then derived else if row.tenant.Some? then row.tenant else ScopeOf(s.tenant)
    ensures new_ == FillTenant(rows, s, role, t, row)
  {
    new_ := row;
    var derived := DerivedTenant(rows, s, role, ParentKey(t, new_));
    if derived.Some? {
      new_ := new_.(tenant := derived);
    } else if new_.tenant.None? {
      var sessionTenant := if s.tenant.Malformed? then None else ScopeOf(s.tenant);
      if sessionTenant.Some? {
        new_ := new_.(tenant := sessionTenant);
      }
    }
  }

  // --- What the triggers give a client session --------------------------------------------

  lemma AdmittedRow(s: Session, row: Row)
    ensures Admits(s, row) <==>
      s.msp.Scope? && s.tenant.Scope? && row.msp == Some(s.msp.id) && row.tenant == Some(s.tenant.id)
  {
  }

  /** The row derives its tenant from a parent the session sees. */
  predicate HasVisibleParent(rows: Rows, s: Session, t: Table, row: Row) {
    ParentKey(t, row).Some? && Sees(rows, s, Client, ParentKey(t, row).value)
  }

  /**
    WITH CHECK after the triggers, in terms of what the session wrote: it may leave the MSP out,
    it may leave the tenant of a child row out, and the tenant does not matter under a visible parent.
   */
  lemma WrittenRowIsAdmittedIff(w: World, rows: Rows, s: Session, t: Table, row: Row)
    requires s.msp.Scope? && s.tenant.Scope?
    ensures Admits(s, BeforeRow(w, rows, s, Client, t, row)) <==>
            && (row.msp == None || row.msp == Some(s.msp.id))
            && (HasVisibleParent(rows, s, t, row) || row.tenant == Some(s.tenant.id) ||
                (row.tenant == None && DerivingParent(t).Some?))
  {
    AdmittedRow(s, BeforeRow(w, rows, s, Client, t, row));
    var p := ParentKey(t, row);
    if p.Some? && p.value in rows {
      AdmittedRow(s, rows[p.value]);
    }
  }

  /** A child under a parent the session sees has that parent's tenant and MSP or is not stored. */
  lemma VisibleParentDecides(w: World, rows: Rows, s: Session, t: Table, row: Row)
    requires HasVisibleParent(rows, s, t, row)
    ensures var new_, p := BeforeRow(w, rows, s, Client, t, row), rows[ParentKey(t, row).value];
            && new_.tenant == p.tenant
            && (Admits(s, new_) <==> row.msp == None || row.msp == p.msp)
            && (Admits(s, new_) ==> new_.msp == p.msp)
  {
    AdmittedRow(s, rows[ParentKey(t, row).value]);
    AdmittedRow(s, BeforeRow(w, rows, s, Client, t, row));
  }

  /** The name order of the two triggers makes no difference to a client session. */
  lemma TriggersCommute(w: World, rows: Rows, s: Session, t: Table, row: Row)
    ensures BeforeRow(w, rows, s, Client, t, row) == FillMsp(w, s, Client, FillTenant(rows, s, Client, t, row))
  {
    assert ParentKey(t, FillMsp(w, s, Client, row)) == ParentKey(t, row);
  }

  /**
    It does to the owner, who sees every parent and every mapping: a row without an MSP that moves to
    its parent's tenant gets the MSP of the tenant it leaves.
   */
  lemma OwnerMovesRow(w: World, rows: Rows, s: Session, t: Table, row: Row)
    requires row.msp == None && row.tenant.Some? && row.tenant.value in w.tenants
    requires w.tenants[row.tenant.value].Some?
    requires ParentKey(t, row).Some? && ParentKey(t, row).value in rows && rows[ParentKey(t, row).value].tenant.Some?
    ensures BeforeRow(w, rows, s, Owner, t, row) ==
            row.(msp := w.tenants[row.tenant.value], tenant := rows[ParentKey(t, row).value].tenant)
  {
  }

  // --- Foreign keys -----------------------------------------------------------------------

  predicate References(fk: ForeignKey, k: Key, row: Row, p: Key) {
    fk.child == k.table && fk.column in row.refs && p == Key(fk.parent, row.refs[fk.column])
  }

  /** The referencing side, checked for the row at `k` once it is stored. */
  predicate ReferencesHold(w: World, rows: Rows, k: Key)
    requires k in rows
  {
    && (rows[k].tenant.Some? ==> rows[k].tenant.value in w.tenants)
    && (rows[k].msp.Some? ==> rows[k].msp.value in w.msps)
    && forall fk | fk in w.schema.keys && fk.child == k.table && fk.column in rows[k].refs ::
         var p := Key(fk.parent, rows[k].refs[fk.column]);
         && p in rows
         && (fk in w.schema.composite && rows[k].tenant.Some? ==> rows[p].tenant == rows[k].tenant)
  }

  /** A row that still holds the composite key `(tenant, k.id)`. */
  predicate HeldByChild(schema: Schema, rows: Rows, k: Key, tenant: Option<Uuid>) {
    tenant.Some? &&
    exists c, fk | c in rows && fk in schema.composite :: References(fk, c, rows[c], k) && rows[c].tenant == tenant
  }

  /** Rows outside `gone` that ON DELETE CASCADE takes along with `gone`. */
  function Cascaded(schema: Schema, rows: Rows, gone: set<Key>): set<Key> {
    set k | k in rows && k !in gone &&
      exists fk :: fk in schema.keys && fk.rule.Cascade? && PointsInto(fk, k, rows[k], gone)
  }

  function CascadeClosure(schema: Schema, rows: Rows, gone: set<Key>): set<Key>
    decreases rows.Keys - gone
  {
    var next := Cascaded(schema, rows, gone);
    if next == {} then gone
    else
      assert next <= rows.Keys - gone;
      CascadeClosure(schema, rows, gone + next)
  }

  /** A remaining row still points at a deleted one: RESTRICT and NO ACTION refuse the statement. */
  predicate Dangles(schema: Schema, rows: Rows, gone: set<Key>) {
    exists k, fk | k in rows && fk in schema.keys ::
      (fk.rule.Restrict? || fk.rule.NoAction?) && PointsInto(fk, k, rows[k], gone)
  }

  predicate PointsInto(fk: ForeignKey, k: Key, row: Row, gone: set<Key>) {
    fk.child == k.table && fk.column in row.refs && Key(fk.parent, row.refs[fk.column]) in gone
  }

  /** The columns of `row` at `k` that ON DELETE SET NULL clears once `gone` is deleted. */
  function Cleared(schema: Schema, k: Key, row: Row, gone: set<Key>): set<Column> {
    set fk | fk in schema.keys && fk.rule.SetNull? && PointsInto(fk, k, row, gone) :: fk.column
  }

  /** What ON DELETE SET NULL leaves of the row at `k`: an UPDATE by the owner, on which the triggers fire. */
  function DetachedRow(w: World, rows: Rows, s: Session, gone: set<Key>, k: Key): Row
    requires k in rows
  {
    var cleared := Cleared(w.schema, k, rows[k], gone);
    if cleared == {} then rows[k]
    else BeforeRow(w, rows, s, Owner, k.table, rows[k].(refs := rows[k].refs - cleared))
  }

  function Detached(w: World, rows: Rows, s: Session, gone: set<Key>): Rows {
    map k | k in rows :: DetachedRow(w, rows, s, gone, k)
  }

  /** The foreign keys of each row that the update from `before` to `after` changed. */
  predicate UpdateHolds(w: World, before: Rows, after: Rows, k: Key)
    requires k in before && k in after
  {
    ReferencesHold(w, after, k) &&
    (after[k].tenant != before[k].tenant ==> !HeldByChild(w.schema, after, k, before[k].tenant))
  }

  predicate UpdatesHold(w: World, before: Rows, after: Rows)
    requires before.Keys == after.Keys
  {
    forall k | k in before :: after[k] != before[k] ==> UpdateHolds(w, before, after, k)
  }

  // --- Statements -------------------------------------------------------------------------

  datatype Statement =
    | Insert(key: Key, row: Row)
    | Update(key: Key, row: Row)
    | Delete(where_: set<Key>)

  datatype Status = Done(count: nat) | InvalidText | CheckViolation | UniqueViolation | ForeignKeyViolation

  datatype Outcome = Outcome(rows: Rows, status: Status)

  /** A failing statement leaves the tables as they were. */
  function Exec(w: World, rows: Rows, s: Session, stmt: Statement): Outcome {
    if s.msp.Malformed? || s.tenant.Malformed? then Outcome(rows, InvalidText)
    else match stmt
      case Insert(k, row) => ExecInsert(w, rows, s, k, row)
      case Update(k, row) => ExecUpdate(w, rows, s, k, row)
      case Delete(where_) => ExecDelete(w, rows, s, where_)
  }

  function ExecInsert(w: World, rows: Rows, s: Session, k: Key, row: Row): Outcome {
    var new_ := BeforeRow(w, rows, s, Client, k.table, row);
    var after := rows[k := new_];
    if !Admits(s, new_) then Outcome(rows, CheckViolation)
    else if k in rows then Outcome(rows, UniqueViolation)
    else if !ReferencesHold(w, after, k) then Outcome(rows, ForeignKeyViolation)
    else Outcome(after, Done(1))
  }

  function ExecUpdate(w: World, rows: Rows, s: Session, k: Key, row: Row): Outcome {
    if k !in rows || !Admits(s, rows[k]) then Outcome(rows, Done(0))
    else
      var new_ := BeforeRow(w, rows, s, Client, k.table, row);
      var after := rows[k := new_];
      if !Admits(s, new_) then Outcome(rows, CheckViolation)
      else if !UpdateHolds(w, rows, after, k) then Outcome(rows, ForeignKeyViolation)
      else Outcome(after, Done(1))
  }

  /** The rows a statement reaches: its WHERE clause filtered by USING. */
  function Targets(rows: Rows, s: Session, where_: set<Key>): set<Key> {
    set k | k in where_ && k in rows && Admits(s, rows[k])
  }

  function ExecDelete(w: World, rows: Rows, s: Session, where_: set<Key>): Outcome {
    var roots := Targets(rows, s, where_);
    var gone := CascadeClosure(w.schema, rows, roots);
    var left := rows - gone;
    var after := Detached(w, left, s, gone);
    if Dangles(w.schema, after, gone) || !UpdatesHold(w, left, after) then Outcome(rows, ForeignKeyViolation)
    else Outcome(after, Done(|roots|))
  }

  /** A run: each statement with the session that issues it. */
  datatype Op = Op(session: Session, stmt: Statement)

  function Run(w: World, rows: Rows, ops: seq<Op>): Rows
    decreases |ops|
  {
    if ops == [] then rows
    else Run(w, Exec(w, rows, ops[0].session, ops[0].stmt).rows, ops[1..])
  }
}
