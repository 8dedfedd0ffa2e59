/**
  What a tenant's sessions see and do does not depend on the other tenants: dropping every
  operation of the others from a run changes neither the tenant's rows nor the status of any
  of its statements.
 */
module Noninterference {
  import opened Wrappers
  import opened RowSecurity
  import opened Isolation

  /** Every foreign key has a composite twin, as the loop of 0082 leaves it: each reference stays in its tenant. */
  ghost predicate AllComposite(schema: Schema) {
    schema.keys <= schema.composite
  }

  /** Row ids are drawn so that no two tenants use the same key: `owner` tells whose it is. */
  ghost predicate OwnsIds(owner: Key -> Uuid, rows: Rows, ops: seq<Op>) {
    && (forall k | k in rows :: rows[k].tenant == Some(owner(k)))
    && forall i | 0 <= i < |ops| && ops[i].stmt.Insert? && ops[i].session.tenant.Scope? ::
         owner(ops[i].stmt.key) == ops[i].session.tenant.id
  }

  ghost function Purge(ops: seq<Op>, u: Uuid): seq<Op> {
    if ops == [] then []
    else (if ScopeOf(ops[0].session.tenant) == Some(u) then [ops[0]] else []) + Purge(ops[1..], u)
  }

  /** The statuses returned to the sessions of tenant `u`, in order. */
  ghost function Statuses(w: World, rows: Rows, ops: seq<Op>, u: Uuid): seq<Status>
    decreases |ops|
  {
    if ops == [] then []
    else
      var out := Exec(w, rows, ops[0].session, ops[0].stmt);
      (if ScopeOf(ops[0].session.tenant) == Some(u) then [out.status] else []) + Statuses(w, out.rows, ops[1..], u)
  }

  // --- One step reads its own tenant's rows only ------------------------------------------

  lemma TriggersFromView(w: World, rows: Rows, s: Session, t: Table, row: Row, u: Uuid)
    requires ScopeOf(s.tenant) == Some(u)
    ensures BeforeRow(w, rows, s, Client, t, row) == BeforeRow(w, View(rows, u), s, Client, t, row)
  {
    var p := ParentKey(t, row);
    if p.Some? && p.value in rows {
      AdmittedRow(s, rows[p.value]);
    }
  }

  lemma ReferencesFromView(w: World, rows: Rows, k: Key, u: Uuid)
    requires AllComposite(w.schema) && k in rows && rows[k].tenant == Some(u)
    ensures ReferencesHold(w, rows, k) <==> ReferencesHold(w, View(rows, u), k)
  {
    var view := View(rows, u);
    assert k in view && view[k] == rows[k];
    forall fk | fk in w.schema.keys && fk.child == k.table && fk.column in rows[k].refs
      ensures var p := Key(fk.parent, rows[k].refs[fk.column]);
              (p in rows && rows[p].tenant == Some(u)) <==> p in view
    {
    }
  }

  lemma {:induction false} ClosureFromView(schema: Schema, rows: Rows, gone: set<Key>, u: Uuid)
    requires Consistent(schema, rows) && AllComposite(schema)
    requires gone <= View(rows, u).Keys
    ensures CascadeClosure(schema, rows, gone) == CascadeClosure(schema, View(rows, u), gone)
    decreases rows.Keys - gone
  {
    var view := View(rows, u);
    var next := Cascaded(schema, rows, gone);
    forall k | k in next ensures k in Cascaded(schema, view, gone) {
      var fk :| fk in schema.keys && fk.rule.Cascade? && PointsInto(fk, k, rows[k], gone);
      assert Agrees(schema, rows, k, fk);
      assert k in view && PointsInto(fk, k, view[k], gone);
    }
    forall k | k in Cascaded(schema, view, gone) ensures k in next {
      var fk :| fk in schema.keys && fk.rule.Cascade? && PointsInto(fk, k, view[k], gone);
      assert PointsInto(fk, k, rows[k], gone);
    }
    assert next == Cascaded(schema, view, gone);
    if next != {} {
      assert next <= rows.Keys - gone;
      ClosureFromView(schema, rows, gone + next, u);
    }
  }

  /** ON DELETE SET NULL, although it fires the triggers with the owner's eyes, reads and writes one tenant only. */
  lemma DetachedFromView(w: World, rows: Rows, s: Session, gone: set<Key>, u: Uuid)
    requires WellFormed(w.schema) && Consistent(w.schema, rows) && AllComposite(w.schema)
    requires gone <= View(rows, u).Keys
    ensures View(Detached(w, rows - gone, s, gone), u) == Detached(w, View(rows, u) - gone, s, gone)
    ensures forall k | k in rows - gone && rows[k].tenant != Some(u) :: DetachedRow(w, rows - gone, s, gone, k) == rows[k]
  {
    var left, own := rows - gone, View(rows, u) - gone;
    forall k | k in left
      ensures if rows[k].tenant == Some(u)
              then k in own && DetachedRow(w, left, s, gone, k) == DetachedRow(w, own, s, gone, k)
                   && DetachedRow(w, left, s, gone, k).tenant == Some(u)
              else DetachedRow(w, left, s, gone, k) == rows[k]
    {
      if Cleared(w.schema, k, rows[k], gone) != {} {
        ClearedStaysInTenant(w, rows, s, gone, u, k);
        ClearedFromView(w, rows, s, gone, u, k);
      }
    }
  }

  lemma ClearedFromView(w: World, rows: Rows, s: Session, gone: set<Key>, u: Uuid, k: Key)
    requires WellFormed(w.schema) && Consistent(w.schema, rows) && AllComposite(w.schema)
    requires gone <= View(rows, u).Keys && k in rows - gone && rows[k].tenant == Some(u)
    requires Cleared(w.schema, k, rows[k], gone) != {}
    ensures DetachedRow(w, rows - gone, s, gone, k) == DetachedRow(w, View(rows, u) - gone, s, gone, k)
  {
    var cleared := Cleared(w.schema, k, rows[k], gone);
    var c :| c in cleared;
    assert exists fk :: fk in w.schema.keys && fk.rule.SetNull? && fk.child == k.table;
    var p := ParentKey(k.table, rows[k].(refs := rows[k].refs - cleared));
    if p.Some? {
      assert HasDerivingKey(w.schema, k.table);
      var g :| g in w.schema.keys && g.child == k.table && Derives(g);
      assert Agrees(w.schema, rows, k, g);
    }
  }

  lemma DanglesFromView(w: World, rows: Rows, s: Session, gone: set<Key>, u: Uuid)
    requires WellFormed(w.schema) && Consistent(w.schema, rows) && AllComposite(w.schema)
    requires gone <= View(rows, u).Keys
    ensures var left, own := rows - gone, View(rows, u) - gone;
            Dangles(w.schema, Detached(w, left, s, gone), gone) <==> Dangles(w.schema, Detached(w, own, s, gone), gone)
  {
    var left, own := rows - gone, View(rows, u) - gone;
    var after, mine := Detached(w, left, s, gone), Detached(w, own, s, gone);
    DetachedFromView(w, rows, s, gone, u);
    assert View(after, u) == mine;
    if Dangles(w.schema, after, gone) {
      var k, fk :| k in after && fk in w.schema.keys && (fk.rule.Restrict? || fk.rule.NoAction?) &&
                   PointsInto(fk, k, after[k], gone);
      DetachedReference(w, left, s, gone, k, fk);
      assert Agrees(w.schema, rows, k, fk);
      assert PointsInto(fk, k, mine[k], gone);
    }
    if Dangles(w.schema, mine, gone) {
      var k, fk :| k in mine && fk in w.schema.keys && (fk.rule.Restrict? || fk.rule.NoAction?) &&
                   PointsInto(fk, k, mine[k], gone);
      assert PointsInto(fk, k, after[k], gone);
    }
  }

  lemma UpdatesFromView(w: World, rows: Rows, s: Session, gone: set<Key>, u: Uuid)
    requires WellFormed(w.schema) && Consistent(w.schema, rows) && AllComposite(w.schema)
    requires gone <= View(rows, u).Keys
    ensures var left, own := rows - gone, View(rows, u) - gone;
            UpdatesHold(w, left, Detached(w, left, s, gone)) <==> UpdatesHold(w, own, Detached(w, own, s, gone))
  {
    var left, own := rows - gone, View(rows, u) - gone;
    var after, mine := Detached(w, left, s, gone), Detached(w, own, s, gone);
    DetachedFromView(w, rows, s, gone, u);
    forall k | k in own
      ensures k in left && own[k] == left[k] && mine[k] == after[k]
      ensures UpdateHolds(w, left, after, k) <==> UpdateHolds(w, own, mine, k)
    {
      assert mine[k] == View(after, u)[k];
      ReferencesFromView(w, after, k, u);
    }
  }

  /** The outcome of a statement, restricted to its own tenant, computed from that tenant's rows alone. */
  lemma StepFromView(w: World, rows: Rows, s: Session, stmt: Statement, u: Uuid)
    requires WellFormed(w.schema) && Consistent(w.schema, rows) && AllComposite(w.schema)
    requires ScopeOf(s.tenant) == Some(u)
    requires stmt.Insert? && stmt.key in rows ==> stmt.key in View(rows, u)
    ensures var out, own := Exec(w, rows, s, stmt), Exec(w, View(rows, u), s, stmt);
            out.status == own.status && View(out.rows, u) == own.rows
  {
    var view := View(rows, u);
    match stmt
    case Insert(k, row) => StoreFromView(w, rows, s, k, row, u);
    case Update(k, row) =>
      if k in rows && Admits(s, rows[k]) {
        AdmittedRow(s, rows[k]);
        StoreFromView(w, rows, s, k, row, u);
      }
    case Delete(where_) => DeleteFromView(w, rows, s, where_, u);
  }

  lemma DeleteFromView(w: World, rows: Rows, s: Session, where_: set<Key>, u: Uuid)
    requires WellFormed(w.schema) && Consistent(w.schema, rows) && AllComposite(w.schema)
    requires ScopeOf(s.tenant) == Some(u)
    ensures var out, own := ExecDelete(w, rows, s, where_), ExecDelete(w, View(rows, u), s, where_);
            out.status == own.status && View(out.rows, u) == own.rows
  {
    var roots := Targets(rows, s, where_);
    forall k | k in roots ensures k in View(rows, u) { AdmittedRow(s, rows[k]); }
    assert Targets(View(rows, u), s, where_) == roots;
    ClosureFromView(w.schema, rows, roots, u);
    CascadeStaysInTenant(w.schema, rows, roots, u);
    var gone := CascadeClosure(w.schema, rows, roots);
    DanglesFromView(w, rows, s, gone, u);
    DetachedFromView(w, rows, s, gone, u);
    UpdatesFromView(w, rows, s, gone, u);
  }

  lemma StoreFromView(w: World, rows: Rows, s: Session, k: Key, row: Row, u: Uuid)
    requires AllComposite(w.schema) && ScopeOf(s.tenant) == Some(u)
    requires k in rows ==> k in View(rows, u)
    ensures var new_ := BeforeRow(w, rows, s, Client, k.table, row);
            && new_ == BeforeRow(w, View(rows, u), s, Client, k.table, row)
            && (Admits(s, new_) ==>
                  && new_.tenant == Some(u)
                  && View(rows[k := new_], u) == View(rows, u)[k := new_]
                  && (ReferencesHold(w, rows[k := new_], k) <==> ReferencesHold(w, View(rows, u)[k := new_], k)))
  {
    TriggersFromView(w, rows, s, k.table, row, u);
    var new_ := BeforeRow(w, rows, s, Client, k.table, row);
    AdmittedRow(s, new_);
    if Admits(s, new_) {
      ReferencesFromView(w, rows[k := new_], k, u);
      assert View(rows[k := new_], u) == View(rows, u)[k := new_];
    }
  }

  // --- Whole runs -------------------------------------------------------------------------

  lemma DeleteKeepsTenants(w: World, rows: Rows, s: Session, where_: set<Key>, k: Key)
    requires WellFormed(w.schema) && Consistent(w.schema, rows) && AllComposite(w.schema)
    requires k in ExecDelete(w, rows, s, where_).rows
    ensures k in rows && ExecDelete(w, rows, s, where_).rows[k].tenant == rows[k].tenant
  {
    var roots := Targets(rows, s, where_);
    var gone := CascadeClosure(w.schema, rows, roots);
    if roots == {} {
      assert gone == {};
    } else {
      forall r | r in roots ensures ScopeOf(s.tenant).Some? && r in View(rows, ScopeOf(s.tenant).value) {
        AdmittedRow(s, rows[r]);
      }
      var u := ScopeOf(s.tenant).value;
      CascadeStaysInTenant(w.schema, rows, roots, u);
      if k in rows - gone && Cleared(w.schema, k, rows[k], gone) != {} {
        ClearedStaysInTenant(w, rows, s, gone, u, k);
      }
    }
  }

  lemma StepKeepsOwnership(w: World, rows: Rows, op: Op, owner: Key -> Uuid)
    requires WellFormed(w.schema) && Consistent(w.schema, rows) && AllComposite(w.schema)
    requires forall k | k in rows :: rows[k].tenant == Some(owner(k))
    requires op.stmt.Insert? && op.session.tenant.Scope? ==> owner(op.stmt.key) == op.session.tenant.id
    ensures var after := Exec(w, rows, op.session, op.stmt).rows;
            forall k | k in after :: after[k].tenant == Some(owner(k))
  {
    var s := op.session;
    match op.stmt
    case Insert(k, row) => AdmittedRow(s, BeforeRow(w, rows, s, Client, k.table, row));
    case Update(k, row) =>
      if k in rows { AdmittedRow(s, rows[k]); }
      AdmittedRow(s, BeforeRow(w, rows, s, Client, k.table, row));
    case Delete(where_) =>
      forall k | k in ExecDelete(w, rows, s, where_).rows
        ensures k in rows && ExecDelete(w, rows, s, where_).rows[k].tenant == rows[k].tenant
      {
        DeleteKeepsTenants(w, rows, s, where_, k);
      }
  }

  lemma StepKeepsOwnsIds(w: World, rows: Rows, op: Op, owner: Key -> Uuid, rest: seq<Op>)
    requires WellFormed(w.schema) && Consistent(w.schema, rows) && AllComposite(w.schema)
    requires OwnsIds(owner, rows, [op] + rest)
    ensures OwnsIds(owner, Exec(w, rows, op.session, op.stmt).rows, rest)
  {
    assert ([op] + rest)[0] == op;
    StepKeepsOwnership(w, rows, op, owner);
    forall i | 0 <= i < |rest| && rest[i].stmt.Insert? && rest[i].session.tenant.Scope?
      ensures owner(rest[i].stmt.key) == rest[i].session.tenant.id
    {
      assert ([op] + rest)[i + 1] == rest[i];
    }
  }

  /**
    The tenant's own operations, replayed on the tenant's own rows, end in the same rows and
    return the same statuses as they do inside the whole interleaving.
   */
  lemma {:induction false} RunIsOwnRun(w: World, rows: Rows, ops: seq<Op>, owner: Key -> Uuid, u: Uuid)
    requires WellFormed(w.schema) && Consistent(w.schema, rows) && AllComposite(w.schema) && OwnsIds(owner, rows, ops)
    ensures View(Run(w, rows, ops), u) == Run(w, View(rows, u), Purge(ops, u))
    ensures Statuses(w, rows, ops, u) == Statuses(w, View(rows, u), Purge(ops, u), u)
    decreases |ops|
  {
    if ops != [] {
      var op, rest := ops[0], ops[1..];
      assert ops == [op] + rest;
      var out := Exec(w, rows, op.session, op.stmt);
      StepKeepsConsistent(w, rows, op.session, op.stmt);
      StepKeepsOwnsIds(w, rows, op, owner, rest);
      RunIsOwnRun(w, out.rows, rest, owner, u);
      if ScopeOf(op.session.tenant) == Some(u) {
        StepFromView(w, rows, op.session, op.stmt, u);
        assert Purge(ops, u)[0] == op && Purge(ops, u)[1..] == Purge(rest, u);
      } else {
        StepLeavesOthers(w, rows, op.session, op.stmt, u);
        assert Purge(ops, u) == Purge(rest, u);
      }
    }
  }

  /** For tenant `u` the run is as if the other tenants had not taken part. */
  ghost predicate Undisturbed(w: World, rows: Rows, ops: seq<Op>, u: Uuid) {
    && View(Run(w, rows, ops), u) == View(Run(w, rows, Purge(ops, u)), u)
    && Statuses(w, rows, ops, u) == Statuses(w, rows, Purge(ops, u), u)
  }

  ghost predicate Noninterferes(schema: Schema) {
    forall w: World, rows: Rows, ops: seq<Op>, owner: Key -> Uuid, u: Uuid
      | w.schema == schema && Consistent(schema, rows) && OwnsIds(owner, rows, ops) ::
      Undisturbed(w, rows, ops, u)
  }

  lemma {:induction false} PurgeTwice(ops: seq<Op>, u: Uuid)
    ensures Purge(Purge(ops, u), u) == Purge(ops, u)
    ensures forall op | op in Purge(ops, u) :: op in ops
  {
    if ops != [] {
      PurgeTwice(ops[1..], u);
      if ScopeOf(ops[0].session.tenant) == Some(u) {
        assert Purge(ops, u)[0] == ops[0] && Purge(ops, u)[1..] == Purge(ops[1..], u);
      } else {
        assert Purge(ops, u) == Purge(ops[1..], u);
      }
    }
  }

  lemma AllCompositeNoninterferes(w: World, rows: Rows, ops: seq<Op>, owner: Key -> Uuid, u: Uuid)
    requires WellFormed(w.schema) && Consistent(w.schema, rows) && AllComposite(w.schema) && OwnsIds(owner, rows, ops)
    ensures Undisturbed(w, rows, ops, u)
  {
    PurgeTwice(ops, u);
    forall i | 0 <= i < |Purge(ops, u)| ensures Purge(ops, u)[i] in ops {
      assert Purge(ops, u)[i] in Purge(ops, u);
    }
    RunIsOwnRun(w, rows, ops, owner, u);
    RunIsOwnRun(w, rows, Purge(ops, u), owner, u);
  }

  /**
    A foreign key without its twin lets tenant 2 store a child under a row of tenant 1: the trigger
    does not see the parent and the single-column key does. Deleting the parent then takes the child
    of tenant 2 along (CASCADE), clears its reference (SET NULL), or is refused to tenant 1 (RESTRICT,
    NO ACTION).
   */
  lemma MissingTwinInterferes(schema: Schema, fk: ForeignKey)
    requires WellFormed(schema) && fk in schema.keys && fk !in schema.composite
    ensures !Noninterferes(schema)
  {
    var parent, child := Key(fk.parent, 0), Key(fk.child, 1);
    var rows := map[parent := RowOf(1, map[])];
    var ins := Op(SessionOf(2), Insert(child, RowOf(2, map[fk.column := 0])));
    var del := Op(SessionOf(1), Delete({parent}));
    var u := if fk.rule.Cascade? || fk.rule.SetNull? then 2 else 1;
    var owner := (k: Key) => if k.id == 0 then 1 else 2;
    LoneParent(schema, parent, rows, ins, del, owner);
    ForeignChildDisturbs(schema, rows, ins, del, fk, u);
    Interferes(schema, TwoTenants(schema), rows, [ins, del], owner, u);
  }

  lemma Interferes(schema: Schema, w: World, rows: Rows, ops: seq<Op>, owner: Key -> Uuid, u: Uuid)
    requires w.schema == schema && Consistent(schema, rows) && OwnsIds(owner, rows, ops)
    requires !Undisturbed(w, rows, ops, u)
    ensures !Noninterferes(schema)
  {
  }

  lemma LoneParent(schema: Schema, parent: Key, rows: Rows, ins: Op, del: Op, owner: Key -> Uuid)
    requires rows == map[parent := RowOf(1, map[])] && parent.id == 0
    requires ins.stmt.Insert? && ins.stmt.key.id == 1 && ins.session.tenant == Scope(2) && del.stmt.Delete?
    requires forall k: Key :: owner(k) == if k.id == 0 then 1 else 2
    ensures OwnsIds(owner, rows, [ins, del]) && Consistent(schema, rows)
  {
    assert forall k | k in rows :: k == parent;
  }

  lemma ForeignChildDisturbs(schema: Schema, rows: Rows, ins: Op, del: Op, fk: ForeignKey, u: Uuid)
    requires WellFormed(schema) && fk in schema.keys && fk !in schema.composite
    requires rows == map[Key(fk.parent, 0) := RowOf(1, map[])]
    requires ins == Op(SessionOf(2), Insert(Key(fk.child, 1), RowOf(2, map[fk.column := 0])))
    requires del == Op(SessionOf(1), Delete({Key(fk.parent, 0)}))
    requires u == if fk.rule.Cascade? || fk.rule.SetNull? then 2 else 1
    ensures !Undisturbed(TwoTenants(schema), rows, [ins, del], u)
  {
    var parent, child := Key(fk.parent, 0), Key(fk.child, 1);
    var both := rows[child := ins.stmt.row];
    ForeignChildIsStored(schema, fk, rows, both);
    ParentIsDeleted(schema, fk, both);
    LoneParentIsDeleted(schema, parent, rows);
    ShortRuns(TwoTenants(schema), rows, ins, del, u);
    if u == 2 {
      assert child in View(both, 2) && fk.column in View(both, 2)[child].refs;
      assert child in UnderDeletedParent(fk, both) ==> UnderDeletedParent(fk, both)[child].refs == map[];
    } else {
      assert parent in View(both, 1) && parent !in View(map[], 1);
    }
  }

  lemma LoneParentIsDeleted(schema: Schema, parent: Key, rows: Rows)
    requires rows == map[parent := RowOf(1, map[])]
    ensures Exec(TwoTenants(schema), rows, SessionOf(1), Delete({parent})).rows == map[]
  {
    assert Cascaded(schema, rows, {parent}) == {};
    AdmittedRow(SessionOf(1), rows[parent]);
    DeleteOfOne(TwoTenants(schema), rows, SessionOf(1), parent, {parent});
    assert rows - {parent} == map[];
    NothingIsLeft(TwoTenants(schema), {parent});
  }

  /** Two operations of two different tenants, and each of them alone. */
  lemma ShortRuns(w: World, rows: Rows, first: Op, second: Op, u: Uuid)
    requires first.session.tenant == Scope(2) && second.session.tenant == Scope(1) && u in {1, 2}
    ensures Purge([first, second], u) == if u == 2 then [first] else [second]
    ensures Run(w, rows, [first, second]) ==
            Exec(w, Exec(w, rows, first.session, first.stmt).rows, second.session, second.stmt).rows
    ensures Run(w, rows, [first]) == Exec(w, rows, first.session, first.stmt).rows
    ensures Run(w, rows, [second]) == Exec(w, rows, second.session, second.stmt).rows
  {
    var next := Exec(w, rows, first.session, first.stmt).rows;
    assert [first, second][1..] == [second] && [first][1..] == [] && [second][1..] == [];
    assert Purge([], u) == [];
    assert Purge([second], u) == if u == 2 then [] else [second];
    assert Run(w, rows, [first, second]) == Run(w, next, [second]);
    assert Run(w, next, [second]) == Run(w, Exec(w, next, second.session, second.stmt).rows, []);
  }

  /** Noninterference between tenants holds exactly when every foreign key has its composite twin. */
  lemma NoninterferesIffAllComposite(schema: Schema)
    requires WellFormed(schema)
    ensures Noninterferes(schema) <==> AllComposite(schema)
  {
    if AllComposite(schema) {
      forall w: World, rows: Rows, ops: seq<Op>, owner: Key -> Uuid, u: Uuid
        | w.schema == schema && Consistent(schema, rows) && OwnsIds(owner, rows, ops)
        ensures Undisturbed(w, rows, ops, u)
      {
        AllCompositeNoninterferes(w, rows, ops, owner, u);
      }
    } else {
      var fk :| fk in schema.keys && fk !in schema.composite;
      MissingTwinInterferes(schema, fk);
    }
  }
}
