/**
  The catalog loop of 0082 that gives each foreign key between tenant-carrying tables a twin on
  `(tenant_id, <column>)`, and what that buys: noninterference between tenants.
 */
module CompositeKeys {
  import opened RowSecurity
  import opened Noninterference
  import opened Isolation

  datatype CatalogRule = CASCADE | RESTRICT | NO_ACTION | SET_NULL | SET_DEFAULT

  /** One row of the catalog query over `information_schema`. */
  datatype CatalogKey = CatalogKey(child: Table, column: Column, parent: Table, parentColumn: Column, rule: CatalogRule)

  predicate Eligible(r: CatalogKey, tenantTables: set<Table>) {
    r.parentColumn == "id" && r.column != "tenant_id" && r.child in tenantTables && r.parent in tenantTables
  }

  /** A key on some other column than `tenant_id`, to the id of its parent, where both tables carry a tenant. */
  ghost predicate IsTenantKey(r: CatalogKey, tenantTables: set<Table>) {
    {r.child, r.parent} <= tenantTables && r.column != "tenant_id" && r.parentColumn == "id"
  }

  /** `FOREIGN KEY (tenant_id, column) REFERENCES parent (tenant_id, id)`. */
  datatype CompositeKey = CompositeKey(child: Table, column: Column, parent: Table, rule: CatalogRule)

  /** CASCADE and RESTRICT carry over; a SET action would clear `tenant_id` too, and becomes NO ACTION. */
  function Twin(r: CatalogKey): CompositeKey {
    CompositeKey(r.child, r.column, r.parent, if r.rule.CASCADE? || r.rule.RESTRICT? then r.rule else NO_ACTION)
  }

  // --- What the catalog means for the statements of a session -----------------------------

  /** What a delete of the parent does to the child; no reference column has a default to be set to. */
  function ActionOf(rule: CatalogRule): DeleteRule {
    match rule
    case CASCADE => Cascade
    case RESTRICT => Restrict
    case NO_ACTION => NoAction
    case SET_NULL => SetNull
    case SET_DEFAULT => SetNull
  }

  function KeyOf(r: CatalogKey): ForeignKey {
    ForeignKey(r.child, r.column, r.parent, ActionOf(r.rule))
  }

  /** The foreign keys between tenant-carrying tables, and those of them that have their twin. */
  ghost function SchemaOf(found: seq<CatalogKey>, tenantTables: set<Table>, composite: set<CompositeKey>): Schema {
    Schema(set r | r in found && IsTenantKey(r, tenantTables) :: KeyOf(r),
           set r | r in found && IsTenantKey(r, tenantTables) && Twin(r) in composite :: KeyOf(r))
  }

  /** As in this schema: a column carries one foreign key, and tenants are derived along foreign keys. */
  ghost predicate Sound(found: seq<CatalogKey>, tenantTables: set<Table>) {
    && (forall r, q | r in found && q in found && r.child == q.child && r.column == q.column :: r == q)
    && forall r | r in found && IsTenantKey(r, tenantTables) && DerivingParent(r.child).Some? ::
         FoundDeriving(found, tenantTables, r.child)
  }

  ghost predicate FoundDeriving(found: seq<CatalogKey>, tenantTables: set<Table>, t: Table) {
    exists q | q in found :: q.child == t && IsTenantKey(q, tenantTables) && Derives(KeyOf(q))
  }

  lemma SoundIsWellFormed(found: seq<CatalogKey>, tenantTables: set<Table>, composite: set<CompositeKey>)
    requires Sound(found, tenantTables)
    ensures WellFormed(SchemaOf(found, tenantTables, composite))
  {
    var schema := SchemaOf(found, tenantTables, composite);
    forall f | f in schema.keys && DerivingParent(f.child).Some? ensures HasDerivingKey(schema, f.child) {
      assert FoundDeriving(found, tenantTables, f.child);
      var q :| q in found && q.child == f.child && IsTenantKey(q, tenantTables) && Derives(KeyOf(q));
      assert KeyOf(q) in schema.keys;
    }
  }

  ghost predicate AllTwins(found: seq<CatalogKey>, tenantTables: set<Table>, composite: set<CompositeKey>) {
    forall r | r in found && IsTenantKey(r, tenantTables) :: Twin(r) in composite
  }

  /** Tenants do not interfere if and only if the twins of all eligible keys are there, whatever else is. */
  lemma TwinsGiveNoninterference(found: seq<CatalogKey>, tenantTables: set<Table>, composite: set<CompositeKey>)
    requires Sound(found, tenantTables)
    ensures Noninterferes(SchemaOf(found, tenantTables, composite)) <==> AllTwins(found, tenantTables, composite)
  {
    var schema := SchemaOf(found, tenantTables, composite);
    SoundIsWellFormed(found, tenantTables, composite);
    NoninterferesIffAllComposite(schema);
    if AllComposite(schema) {
      forall r | r in found && IsTenantKey(r, tenantTables) ensures Twin(r) in composite {
        assert KeyOf(r) in schema.composite;
        var q :| q in found && IsTenantKey(q, tenantTables) && Twin(q) in composite && KeyOf(q) == KeyOf(r);
        assert q == r;
      }
    }
  }

  // --- The twins act themselves, too ------------------------------------------------------

  /** The schema in which each twin is a key with a delete action of its own. */
  function WithActingTwins(schema: Schema, composite: set<CompositeKey>): (acting: Schema)
    ensures acting.composite == schema.composite && schema.keys <= acting.keys
    ensures forall c | c in composite :: ForeignKey(c.child, c.column, c.parent, ActionOf(c.rule)) in acting.keys
  {
    schema.(keys := schema.keys + set c | c in composite :: ForeignKey(c.child, c.column, c.parent, ActionOf(c.rule)))
  }

  ghost predicate OnlyTwins(found: seq<CatalogKey>, tenantTables: set<Table>, composite: set<CompositeKey>) {
    forall c | c in composite :: exists r | r in found :: IsTenantKey(r, tenantTables) && c == Twin(r)
  }

  /** An acting twin is the key over again, or waits with NO ACTION beside a key that clears the column. */
  ghost predicate Shadows(schema: Schema, acting: Schema) {
    && schema.keys <= acting.keys && schema.composite == acting.composite <= schema.keys
    && forall t | t in acting.keys :: t in schema.keys || (t.rule.NoAction? && t.(rule := SetNull) in schema.keys)
  }

  lemma TwinsShadow(found: seq<CatalogKey>, tenantTables: set<Table>, composite: set<CompositeKey>)
    requires OnlyTwins(found, tenantTables, composite)
    ensures var schema := SchemaOf(found, tenantTables, composite); Shadows(schema, WithActingTwins(schema, composite))
  {
    var schema := SchemaOf(found, tenantTables, composite);
    forall c | c in composite
      ensures var t := ForeignKey(c.child, c.column, c.parent, ActionOf(c.rule));
              t in schema.keys || (t.rule.NoAction? && t.(rule := SetNull) in schema.keys)
    {
      var r :| r in found && IsTenantKey(r, tenantTables) && c == Twin(r);
      assert KeyOf(r) in schema.keys;
    }
  }

  lemma {:induction false} ClosureShadows(schema: Schema, acting: Schema, rows: Rows, gone: set<Key>)
    requires Shadows(schema, acting)
    ensures CascadeClosure(acting, rows, gone) == CascadeClosure(schema, rows, gone)
    decreases rows.Keys - gone
  {
    assert Cascaded(acting, rows, gone) == Cascaded(schema, rows, gone);
    var next := Cascaded(schema, rows, gone);
    if next != {} {
      assert next <= rows.Keys - gone;
      ClosureShadows(schema, acting, rows, gone + next);
    }
  }

  lemma ReferencesShadow(w: World, acting: Schema, rows: Rows, k: Key)
    requires Shadows(w.schema, acting) && k in rows
    ensures ReferencesHold(w.(schema := acting), rows, k) <==> ReferencesHold(w, rows, k)
  {
    if ReferencesHold(w, rows, k) {
      forall t | t in acting.keys && t.child == k.table && t.column in rows[k].refs && t !in w.schema.keys
        ensures Key(t.parent, rows[k].refs[t.column]) in rows
      {
        assert t.(rule := SetNull) in w.schema.keys;
      }
    }
  }

  lemma BeforeRowShadows(w: World, acting: Schema, rows: Rows, s: Session, role: Role, t: Table, row: Row)
    ensures BeforeRow(w.(schema := acting), rows, s, role, t, row) == BeforeRow(w, rows, s, role, t, row)
  {
  }

  lemma DetachedShadows(w: World, acting: Schema, left: Rows, s: Session, gone: set<Key>)
    requires Shadows(w.schema, acting)
    ensures Detached(w.(schema := acting), left, s, gone) == Detached(w, left, s, gone)
    ensures var after := Detached(w, left, s, gone); Dangles(acting, after, gone) <==> Dangles(w.schema, after, gone)
  {
    var after := Detached(w, left, s, gone);
    forall k | k in left ensures DetachedRow(w.(schema := acting), left, s, gone, k) == DetachedRow(w, left, s, gone, k) {
      assert Cleared(acting, k, left[k], gone) == Cleared(w.schema, k, left[k], gone);
      BeforeRowShadows(w, acting, left, s, Owner, k.table,
                       left[k].(refs := left[k].refs - Cleared(w.schema, k, left[k], gone)));
    }
    forall k, t | k in after && t in acting.keys && PointsInto(t, k, after[k], gone) ensures t in w.schema.keys {
      if t !in w.schema.keys {
        DetachedReference(w, left, s, gone, k, t.(rule := SetNull));
      }
    }
  }

  lemma UpdatesShadow(w: World, acting: Schema, before: Rows, after: Rows)
    requires Shadows(w.schema, acting) && before.Keys == after.Keys
    ensures UpdatesHold(w.(schema := acting), before, after) <==> UpdatesHold(w, before, after)
  {
    forall k | k in before ensures UpdateHolds(w.(schema := acting), before, after, k) <==> UpdateHolds(w, before, after, k) {
      UpdateShadows(w, acting, before, after, k);
    }
  }

  lemma UpdateShadows(w: World, acting: Schema, before: Rows, after: Rows, k: Key)
    requires Shadows(w.schema, acting) && k in before && k in after
    ensures UpdateHolds(w.(schema := acting), before, after, k) <==> UpdateHolds(w, before, after, k)
  {
    ReferencesShadow(w, acting, after, k);
    assert HeldByChild(acting, after, k, before[k].tenant) <==> HeldByChild(w.schema, after, k, before[k].tenant);
  }

  lemma DeleteShadows(w: World, acting: Schema, rows: Rows, s: Session, where_: set<Key>)
    requires Shadows(w.schema, acting)
    ensures ExecDelete(w.(schema := acting), rows, s, where_) == ExecDelete(w, rows, s, where_)
  {
    var roots := Targets(rows, s, where_);
    var gone := CascadeClosure(w.schema, rows, roots);
    ClosureShadows(w.schema, acting, rows, roots);
    DetachedShadows(w, acting, rows - gone, s, gone);
    UpdatesShadow(w, acting, rows - gone, Detached(w, rows - gone, s, gone));
  }

  /** So no statement does anything else on account of the twins' own delete rules. */
  lemma TwinsAddNoAction(found: seq<CatalogKey>, tenantTables: set<Table>, composite: set<CompositeKey>,
                         w: World, rows: Rows, s: Session, stmt: Statement)
    requires OnlyTwins(found, tenantTables, composite)
    requires w.schema == SchemaOf(found, tenantTables, composite)
    ensures Exec(w.(schema := WithActingTwins(w.schema, composite)), rows, s, stmt) == Exec(w, rows, s, stmt)
  {
    var acting := WithActingTwins(w.schema, composite);
    TwinsShadow(found, tenantTables, composite);
    match stmt
    case Insert(k, row) =>
      BeforeRowShadows(w, acting, rows, s, Client, k.table, row);
      ReferencesShadow(w, acting, rows[k := BeforeRow(w, rows, s, Client, k.table, row)], k);
    case Update(k, row) =>
      BeforeRowShadows(w, acting, rows, s, Client, k.table, row);
      if k in rows {
        UpdateShadows(w, acting, rows, rows[k := BeforeRow(w, rows, s, Client, k.table, row)], k);
      }
    case Delete(where_) => DeleteShadows(w, acting, rows, s, where_);
  }

  class Catalog {
    var composite: set<CompositeKey>

    constructor ()
      ensures composite == {}
    {
      composite := {};
    }

    method AddCompositeKeys(found: seq<CatalogKey>, tenantTables: set<Table>)
      modifies this
      ensures composite == old(composite) + set r | r in found && IsTenantKey(r, tenantTables) :: Twin(r)
      ensures Sound(found, tenantTables) ==> Noninterferes(SchemaOf(found, tenantTables, composite))
    {
      for i := 0 to |found|
        invariant composite == old(composite) + set r | r in found[..i] && IsTenantKey(r, tenantTables) :: Twin(r)
      {
        var r := found[i];
        assert found[..i + 1] == found[..i] + [r];
        // A constraint that exists already raises duplicate_object, which the loop swallows.
        if Eligible(r, tenantTables) && Twin(r) !in composite {
          composite := composite + {Twin(r)};
        }
      }
      assert found[..|found|] == found;
      if Sound(found, tenantTables) {
        TwinsGiveNoninterference(found, tenantTables, composite);
      }
    }
  }
}
