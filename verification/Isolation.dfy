/**
  Tenant isolation over every run of client-role sessions, and the agreement between a child
  row and its parent on which it rests.
 */
module Isolation {
  import opened Wrappers
  import opened RowSecurity

  /** The rows that belong to tenant `u`. */
  function View(rows: Rows, u: Uuid): Rows {
    map k | k in rows && rows[k].tenant == Some(u) :: rows[k]
  }

  /** Every stored row has a tenant, every reference finds its row, and a composite one agrees on the tenant. */
  ghost predicate Consistent(schema: Schema, rows: Rows) {
    && (forall k | k in rows :: rows[k].tenant.Some?)
    && (forall k, fk | k in rows && fk in schema.keys && fk.child == k.table && fk.column in rows[k].refs ::
          Agrees(schema, rows, k, fk))
  }

  ghost predicate Agrees(schema: Schema, rows: Rows, k: Key, fk: ForeignKey)
    requires k in rows && fk.column in rows[k].refs
  {
    var p := Key(fk.parent, rows[k].refs[fk.column]);
    p in rows && (fk in schema.composite ==> rows[p].tenant == rows[k].tenant)
  }

  ghost predicate OneKeyPerColumn(schema: Schema) {
    forall f, g | f in schema.keys && g in schema.keys && f.child == g.child && f.column == g.column :: f == g
  }

  /** Composite keys are twins of foreign keys, and a table with a SET NULL key derives its tenant along a key. */
  ghost predicate WellFormed(schema: Schema) {
    && OneKeyPerColumn(schema) && schema.composite <= schema.keys
    && forall f | f in schema.keys && f.rule.SetNull? && DerivingParent(f.child).Some? :: HasDerivingKey(schema, f.child)
  }

  /** `g` is the key along which the trigger derives the tenant of its table. */
  predicate Derives(g: ForeignKey) {
    DerivingParent(g.child) == Some(Parent(g.column, g.parent))
  }

  ghost predicate HasDerivingKey(schema: Schema, t: Table) {
    exists g | g in schema.keys :: g.child == t && Derives(g)
  }

  /** Every cascading foreign key has a composite twin. */
  ghost predicate CascadesComposite(schema: Schema) {
    forall fk | fk in schema.keys && fk.rule.Cascade? :: fk in schema.composite
  }

  /**
    Besides, every SET NULL key has one, and so has the key along which a table with a SET NULL key
    derives its tenant: clearing the column fires the trigger, which then sees every parent.
   */
  ghost predicate ActionsConfined(schema: Schema) {
    && CascadesComposite(schema)
    && (forall fk | fk in schema.keys && fk.rule.SetNull? :: fk in schema.composite)
    && forall fk, g | fk in schema.keys && g in schema.keys && fk.rule.SetNull? && g.child == fk.child && Derives(g) ::
         g in schema.composite
  }

  // --- Cascades ---------------------------------------------------------------------------

  lemma {:induction false} ClosureIsClosed(schema: Schema, rows: Rows, gone: set<Key>)
    ensures gone <= CascadeClosure(schema, rows, gone) <= gone + rows.Keys
    ensures Cascaded(schema, rows, CascadeClosure(schema, rows, gone)) == {}
    decreases rows.Keys - gone
  {
    var next := Cascaded(schema, rows, gone);
    if next != {} {
      assert next <= rows.Keys - gone;
      ClosureIsClosed(schema, rows, gone + next);
    }
  }

  /** A closed set that holds the start of a cascade holds all of it. */
  lemma {:induction false} ClosureIsLeast(schema: Schema, rows: Rows, gone: set<Key>, closed: set<Key>)
    requires gone <= closed && Cascaded(schema, rows, closed) == {}
    ensures CascadeClosure(schema, rows, gone) <= closed
    decreases rows.Keys - gone
  {
    var next := Cascaded(schema, rows, gone);
    if next != {} {
      assert next <= rows.Keys - gone;
      forall k | k in next ensures k in closed {
        var fk :| fk in schema.keys && fk.rule.Cascade? && PointsInto(fk, k, rows[k], gone);
        assert PointsInto(fk, k, rows[k], closed);
        assert k !in Cascaded(schema, rows, closed);
      }
      ClosureIsLeast(schema, rows, gone + next, closed);
    }
  }

  /** A cascade that starts in one tenant never leaves it. */
  lemma {:induction false} CascadeStaysInTenant(schema: Schema, rows: Rows, gone: set<Key>, t: Uuid)
    requires Consistent(schema, rows) && CascadesComposite(schema)
    requires gone <= View(rows, t).Keys
    ensures CascadeClosure(schema, rows, gone) <= View(rows, t).Keys
    decreases rows.Keys - gone
  {
    var next := Cascaded(schema, rows, gone);
    if next != {} {
      assert next <= rows.Keys - gone;
      forall k | k in next ensures k in View(rows, t) {
        var fk :| fk in schema.keys && fk.rule.Cascade? && PointsInto(fk, k, rows[k], gone);
        assert Agrees(schema, rows, k, fk);
      }
      CascadeStaysInTenant(schema, rows, gone + next, t);
    }
  }

  /** ON DELETE SET NULL clears columns in that tenant only, and the triggers it fires move no row. */
  lemma ClearedStaysInTenant(w: World, rows: Rows, s: Session, gone: set<Key>, t: Uuid, k: Key)
    requires WellFormed(w.schema) && Consistent(w.schema, rows) && ActionsConfined(w.schema)
    requires gone <= View(rows, t).Keys && k in rows - gone && Cleared(w.schema, k, rows[k], gone) != {}
    ensures rows[k].tenant == DetachedRow(w, rows - gone, s, gone, k).tenant == Some(t)
  {
    var cleared := Cleared(w.schema, k, rows[k], gone);
    var c :| c in cleared;
    var fk :| fk in w.schema.keys && fk.rule.SetNull? && PointsInto(fk, k, rows[k], gone) && fk.column == c;
    assert Agrees(w.schema, rows, k, fk);
    var p := ParentKey(k.table, rows[k].(refs := rows[k].refs - cleared));
    if p.Some? {
      assert HasDerivingKey(w.schema, fk.child);
      var g :| g in w.schema.keys && g.child == k.table && Derives(g);
      assert Agrees(w.schema, rows, k, g);
    }
  }

  // --- Every step keeps the agreement -----------------------------------------------------

  lemma StoreKeepsConsistent(w: World, rows: Rows, k: Key, new_: Row)
    requires Consistent(w.schema, rows) && new_.tenant.Some?
    requires ReferencesHold(w, rows[k := new_], k)
    requires k in rows ==> rows[k].tenant == new_.tenant || !HeldByChild(w.schema, rows[k := new_], k, rows[k].tenant)
    ensures Consistent(w.schema, rows[k := new_])
  {
    var after := rows[k := new_];
    forall c, fk | c in after && fk in w.schema.keys && fk.child == c.table && fk.column in after[c].refs
      ensures Agrees(w.schema, after, c, fk)
    {
      if c != k {
        assert Agrees(w.schema, rows, c, fk);
        var p := Key(fk.parent, rows[c].refs[fk.column]);
        if p == k && fk in w.schema.composite && rows[k].tenant != new_.tenant {
          assert References(fk, c, after[c], k);
        }
      }
    }
  }

  lemma PointerIsCleared(schema: Schema, k: Key, row: Row, gone: set<Key>, fk: ForeignKey)
    ensures fk in schema.keys && fk.rule.SetNull? && PointsInto(fk, k, row, gone) ==>
            fk.column in Cleared(schema, k, row, gone)
  {
  }

  lemma DetachedReference(w: World, left: Rows, s: Session, gone: set<Key>, c: Key, fk: ForeignKey)
    requires c in left && fk.child == c.table && fk.column in DetachedRow(w, left, s, gone, c).refs
    ensures fk.column in left[c].refs && DetachedRow(w, left, s, gone, c).refs[fk.column] == left[c].refs[fk.column]
    ensures fk in w.schema.keys && fk.rule.SetNull? ==> !PointsInto(fk, c, left[c], gone)
  {
    PointerIsCleared(w.schema, c, left[c], gone, fk);
  }

  lemma DeleteKeepsConsistent(w: World, rows: Rows, s: Session, gone: set<Key>)
    requires Consistent(w.schema, rows) && Cascaded(w.schema, rows, gone) == {}
    requires !Dangles(w.schema, Detached(w, rows - gone, s, gone), gone)
    requires UpdatesHold(w, rows - gone, Detached(w, rows - gone, s, gone))
    ensures Consistent(w.schema, Detached(w, rows - gone, s, gone))
  {
    var left := rows - gone;
    var after := Detached(w, left, s, gone);
    forall c, fk | c in after && fk in w.schema.keys && fk.child == c.table && fk.column in after[c].refs
      ensures Agrees(w.schema, after, c, fk)
    {
      if after[c] != left[c] {
        assert UpdateHolds(w, left, after, c);
      } else {
        ReferenceStays(w, rows, s, gone, c, fk);
      }
    }
  }

  lemma ReferenceStays(w: World, rows: Rows, s: Session, gone: set<Key>, c: Key, fk: ForeignKey)
    requires Consistent(w.schema, rows) && Cascaded(w.schema, rows, gone) == {}
    requires !Dangles(w.schema, Detached(w, rows - gone, s, gone), gone)
    requires UpdatesHold(w, rows - gone, Detached(w, rows - gone, s, gone))
    requires c in rows - gone && DetachedRow(w, rows - gone, s, gone, c) == rows[c]
    requires fk in w.schema.keys && fk.child == c.table && fk.column in rows[c].refs
    ensures Agrees(w.schema, Detached(w, rows - gone, s, gone), c, fk)
  {
    var left := rows - gone;
    var after := Detached(w, left, s, gone);
    DetachedReference(w, left, s, gone, c, fk);
    assert Agrees(w.schema, rows, c, fk);
    var p := Key(fk.parent, rows[c].refs[fk.column]);
    assert p in gone ==> PointsInto(fk, c, after[c], gone);
    assert c !in Cascaded(w.schema, rows, gone);
    if fk in w.schema.composite && after[p].tenant != left[p].tenant {
      assert UpdateHolds(w, left, after, p);
      assert References(fk, c, after[c], p);
    }
  }

  /** Whatever a client session runs, each child keeps its parent's tenant. */
  lemma StepKeepsConsistent(w: World, rows: Rows, s: Session, stmt: Statement)
    requires Consistent(w.schema, rows)
    ensures Consistent(w.schema, Exec(w, rows, s, stmt).rows)
  {
    if Exec(w, rows, s, stmt).rows != rows {
      match stmt
      case Insert(k, row) =>
        var new_ := BeforeRow(w, rows, s, Client, k.table, row);
        AdmittedRow(s, new_);
        StoreKeepsConsistent(w, rows, k, new_);
      case Update(k, row) =>
        var new_ := BeforeRow(w, rows, s, Client, k.table, row);
        AdmittedRow(s, new_);
        StoreKeepsConsistent(w, rows, k, new_);
      case Delete(where_) =>
        var roots := Targets(rows, s, where_);
        ClosureIsClosed(w.schema, rows, roots);
        DeleteKeepsConsistent(w, rows, s, CascadeClosure(w.schema, rows, roots));
    }
  }

  lemma {:induction false} RunKeepsConsistent(w: World, rows: Rows, ops: seq<Op>)
    requires Consistent(w.schema, rows)
    ensures Consistent(w.schema, Run(w, rows, ops))
    decreases |ops|
  {
    if ops != [] {
      StepKeepsConsistent(w, rows, ops[0].session, ops[0].stmt);
      RunKeepsConsistent(w, Exec(w, rows, ops[0].session, ops[0].stmt).rows, ops[1..]);
    }
  }

  // --- Every step leaves the other tenants alone ------------------------------------------

  /** A session leaves every row of a tenant it is not scoped to unchanged, foreign-key actions included. */
  lemma StepLeavesOthers(w: World, rows: Rows, s: Session, stmt: Statement, u: Uuid)
    requires WellFormed(w.schema) && Consistent(w.schema, rows) && ActionsConfined(w.schema)
    requires ScopeOf(s.tenant) != Some(u)
    ensures View(Exec(w, rows, s, stmt).rows, u) == View(rows, u)
  {
    if Exec(w, rows, s, stmt).rows != rows {
      match stmt
      case Insert(k, row) =>
        AdmittedRow(s, BeforeRow(w, rows, s, Client, k.table, row));
      case Update(k, row) =>
        AdmittedRow(s, rows[k]);
        AdmittedRow(s, BeforeRow(w, rows, s, Client, k.table, row));
      case Delete(where_) =>
        var roots := Targets(rows, s, where_);
        forall k | k in roots ensures ScopeOf(s.tenant).Some? && k in View(rows, ScopeOf(s.tenant).value) {
          AdmittedRow(s, rows[k]);
        }
        DeleteLeavesOthers(w, rows, s, roots, u);
    }
  }

  lemma DeleteLeavesOthers(w: World, rows: Rows, s: Session, roots: set<Key>, u: Uuid)
    requires WellFormed(w.schema) && Consistent(w.schema, rows) && ActionsConfined(w.schema)
    requires ScopeOf(s.tenant) != Some(u)
    requires roots != {} ==> ScopeOf(s.tenant).Some? && roots <= View(rows, ScopeOf(s.tenant).value).Keys
    ensures var gone := CascadeClosure(w.schema, rows, roots);
            View(Detached(w, rows - gone, s, gone), u) == View(rows, u)
  {
    var gone := CascadeClosure(w.schema, rows, roots);
    if roots != {} {
      var t := ScopeOf(s.tenant).value;
      CascadeStaysInTenant(w.schema, rows, roots, t);
      forall k | k in rows - gone && Cleared(w.schema, k, rows[k], gone) != {}
        ensures rows[k].tenant == DetachedRow(w, rows - gone, s, gone, k).tenant == Some(t)
      {
        ClearedStaysInTenant(w, rows, s, gone, t, k);
      }
    } else {
      assert gone == {} && rows - gone == rows;
    }
  }

  /** No operation of the run is issued under the scope of tenant `u`. */
  ghost predicate OnlyOthers(ops: seq<Op>, u: Uuid) {
    forall i | 0 <= i < |ops| :: ScopeOf(ops[i].session.tenant) != Some(u)
  }

  lemma {:induction false} RunLeavesOthers(w: World, rows: Rows, ops: seq<Op>, u: Uuid)
    requires WellFormed(w.schema) && Consistent(w.schema, rows) && ActionsConfined(w.schema)
    requires OnlyOthers(ops, u)
    ensures View(Run(w, rows, ops), u) == View(rows, u)
    decreases |ops|
  {
    if ops != [] {
      var next := Exec(w, rows, ops[0].session, ops[0].stmt).rows;
      StepKeepsConsistent(w, rows, ops[0].session, ops[0].stmt);
      StepLeavesOthers(w, rows, ops[0].session, ops[0].stmt, u);
      RunLeavesOthers(w, next, ops[1..], u);
    }
  }

  // --- Isolation holds exactly when every action is confined ------------------------------

  ghost predicate Isolates(schema: Schema) {
    forall w: World, rows: Rows, ops: seq<Op>, u: Uuid
      | w.schema == schema && Consistent(schema, rows) && OnlyOthers(ops, u) ::
      View(Run(w, rows, ops), u) == View(rows, u)
  }

  /** Tenants 1 and 2 of one MSP. */
  ghost function TwoTenants(schema: Schema): World {
    World(schema, map[1 := Some(9), 2 := Some(9)], {9})
  }

  ghost function SessionOf(u: Uuid): Session {
    Session(Scope(9), Scope(u))
  }

  ghost function RowOf(u: Uuid, refs: map<Column, Uuid>): Row {
    Row(Some(u), Some(9), refs, "")
  }

  /** A session of tenant 2 stores a child under a parent of tenant 1, which the trigger does not see. */
  lemma ForeignChildIsStored(schema: Schema, fk: ForeignKey, rows: Rows, both: Rows)
    requires WellFormed(schema) && fk in schema.keys && fk !in schema.composite
    requires rows == map[Key(fk.parent, 0) := RowOf(1, map[])]
    requires both == rows[Key(fk.child, 1) := RowOf(2, map[fk.column := 0])]
    ensures Consistent(schema, rows) && Consistent(schema, both)
    ensures var child := Key(fk.child, 1);
            Exec(TwoTenants(schema), rows, SessionOf(2), Insert(child, both[child])) == Outcome(both, Done(1))
  {
    var child := Key(fk.child, 1);
    AdmittedRow(SessionOf(2), both[child]);
    forall p | p in rows ensures !Admits(SessionOf(2), rows[p]) { AdmittedRow(SessionOf(2), rows[p]); }
    assert BeforeRow(TwoTenants(schema), rows, SessionOf(2), Client, child.table, both[child]) == both[child];
    assert ReferencesHold(TwoTenants(schema), both, child);
    StepKeepsConsistent(TwoTenants(schema), rows, SessionOf(2), Insert(child, both[child]));
  }

  /** What is left of `both` when tenant 1 deletes the parent. */
  ghost function UnderDeletedParent(fk: ForeignKey, both: Rows): Rows {
    match fk.rule
    case Cascade => map[]
    case SetNull => map[Key(fk.child, 1) := RowOf(2, map[])]
    case _ => both
  }

  lemma ClosureOfParent(schema: Schema, rows: Rows, fk: ForeignKey)
    requires WellFormed(schema) && fk in schema.keys
    requires rows == map[Key(fk.parent, 0) := RowOf(1, map[]), Key(fk.child, 1) := RowOf(2, map[fk.column := 0])]
    ensures CascadeClosure(schema, rows, {Key(fk.parent, 0)}) == if fk.rule.Cascade? then rows.Keys else {Key(fk.parent, 0)}
  {
    var parent, child := Key(fk.parent, 0), Key(fk.child, 1);
    assert PointsInto(fk, child, rows[child], {parent});
    if fk.rule.Cascade? {
      assert child in Cascaded(schema, rows, {parent});
      ClosureIsClosed(schema, rows, {parent} + Cascaded(schema, rows, {parent}));
      ClosureIsClosed(schema, rows, {parent});
      assert rows.Keys == {parent, child};
    } else {
      assert Cascaded(schema, rows, {parent}) == {};
    }
  }

  /** The delete of one row, in terms of what it takes along. */
  lemma DeleteOfOne(w: World, rows: Rows, s: Session, parent: Key, gone: set<Key>)
    requires parent in rows && Admits(s, rows[parent]) && gone == CascadeClosure(w.schema, rows, {parent})
    ensures var left, after := rows - gone, Detached(w, rows - gone, s, gone);
            Exec(w, rows, s, Delete({parent})).rows ==
            if Dangles(w.schema, after, gone) || !UpdatesHold(w, left, after) then rows else after
  {
    AdmittedRow(s, rows[parent]);
    assert Targets(rows, s, {parent}) == {parent};
  }

  lemma ParentIsDeleted(schema: Schema, fk: ForeignKey, both: Rows)
    requires WellFormed(schema) && fk in schema.keys
    requires both == map[Key(fk.parent, 0) := RowOf(1, map[]), Key(fk.child, 1) := RowOf(2, map[fk.column := 0])]
    ensures Exec(TwoTenants(schema), both, SessionOf(1), Delete({Key(fk.parent, 0)})).rows == UnderDeletedParent(fk, both)
  {
    var parent := Key(fk.parent, 0);
    ClosureOfParent(schema, both, fk);
    var gone := CascadeClosure(schema, both, {parent});
    AdmittedRow(SessionOf(1), both[parent]);
    DeleteOfOne(TwoTenants(schema), both, SessionOf(1), parent, gone);
    ParentIsTaken(schema, fk, both, gone, both - gone);
  }

  lemma ParentIsTaken(schema: Schema, fk: ForeignKey, both: Rows, gone: set<Key>, left: Rows)
    requires WellFormed(schema) && fk in schema.keys
    requires both == map[Key(fk.parent, 0) := RowOf(1, map[]), Key(fk.child, 1) := RowOf(2, map[fk.column := 0])]
    requires gone == (if fk.rule.Cascade? then both.Keys else {Key(fk.parent, 0)}) && left == both - gone
    ensures var w := TwoTenants(schema);
            var after := Detached(w, left, SessionOf(1), gone);
            UnderDeletedParent(fk, both) == if Dangles(schema, after, gone) || !UpdatesHold(w, left, after) then both else after
  {
    if fk.rule.Cascade? {
      assert left == map[];
      NothingIsLeft(TwoTenants(schema), gone);
    } else {
      assert left == map[Key(fk.child, 1) := both[Key(fk.child, 1)]];
      if fk.rule.SetNull? {
        ChildIsDetached(schema, fk, left);
      } else {
        ParentIsHeld(schema, fk, left);
      }
    }
  }

  lemma NothingIsLeft(w: World, gone: set<Key>)
    ensures Detached(w, map[], SessionOf(1), gone) == map[]
    ensures !Dangles(w.schema, map[], gone) && UpdatesHold(w, map[], map[])
  {
  }

  lemma ParentIsHeld(schema: Schema, fk: ForeignKey, left: Rows)
    requires WellFormed(schema) && fk in schema.keys && (fk.rule.Restrict? || fk.rule.NoAction?)
    requires left == map[Key(fk.child, 1) := RowOf(2, map[fk.column := 0])]
    ensures var gone := {Key(fk.parent, 0)}; Dangles(schema, Detached(TwoTenants(schema), left, SessionOf(1), gone), gone)
  {
    var child, gone := Key(fk.child, 1), {Key(fk.parent, 0)};
    assert Cleared(schema, child, left[child], gone) == {};
    assert PointsInto(fk, child, Detached(TwoTenants(schema), left, SessionOf(1), gone)[child], gone);
  }

  lemma ChildIsDetached(schema: Schema, fk: ForeignKey, left: Rows)
    requires WellFormed(schema) && fk in schema.keys && fk.rule.SetNull?
    requires left == map[Key(fk.child, 1) := RowOf(2, map[fk.column := 0])]
    ensures var w, gone := TwoTenants(schema), {Key(fk.parent, 0)};
            var after := Detached(w, left, SessionOf(1), gone);
            after == map[Key(fk.child, 1) := RowOf(2, map[])] && UpdatesHold(w, left, after) && !Dangles(schema, after, gone)
  {
    var child, gone := Key(fk.child, 1), {Key(fk.parent, 0)};
    assert PointsInto(fk, child, left[child], gone);
    assert Cleared(schema, child, left[child], gone) == {fk.column};
    assert left[child].refs - {fk.column} == map[];
  }

  /**
    A CASCADE or SET NULL key without its twin: one session stores a child under a parent of another
    tenant, whose session then deletes the parent; the child goes along or loses its reference.
   */
  lemma ForeignChildIsTouched(schema: Schema, fk: ForeignKey, rows: Rows)
    returns (ins: Op, del: Op)
    requires WellFormed(schema) && fk in schema.keys && fk !in schema.composite
    requires fk.rule.Cascade? || fk.rule.SetNull?
    requires rows == map[Key(fk.parent, 0) := RowOf(1, map[])]
    ensures Consistent(schema, rows)
    ensures ScopeOf(ins.session.tenant) == Some(2) && ScopeOf(del.session.tenant) == Some(1)
    ensures var both := Exec(TwoTenants(schema), rows, ins.session, ins.stmt).rows;
            && View(both, 2) != View(rows, 2) && Consistent(schema, both)
            && View(Exec(TwoTenants(schema), both, del.session, del.stmt).rows, 2) != View(both, 2)
  {
    var parent, child := Key(fk.parent, 0), Key(fk.child, 1);
    var both := rows[child := RowOf(2, map[fk.column := 0])];
    ins, del := Op(SessionOf(2), Insert(child, both[child])), Op(SessionOf(1), Delete({parent}));
    ForeignChildIsStored(schema, fk, rows, both);
    ParentIsDeleted(schema, fk, both);
    assert child in View(both, 2) && child !in View(rows, 2);
    assert fk.column in View(both, 2)[child].refs;
    assert child in UnderDeletedParent(fk, both) ==> UnderDeletedParent(fk, both)[child].refs == map[];
  }

  // A SET NULL key that has its twin, in a table that derives its tenant along a key that has none.

  lemma MovableChildIsStored(schema: Schema, fk: ForeignKey, g: ForeignKey, rows: Rows, row: Row)
    requires WellFormed(schema) && fk in schema.keys && g in schema.keys && g !in schema.composite
    requires g.child == fk.child && Derives(g) && fk != g
    requires rows == map[Key(fk.parent, 0) := RowOf(1, map[]), Key(g.parent, 2) := RowOf(2, map[])]
    requires row == RowOf(1, map[fk.column := 0, g.column := 2])
    ensures Consistent(schema, rows)
    ensures Exec(TwoTenants(schema), rows, SessionOf(1), Insert(Key(fk.child, 1), row)) ==
            Outcome(rows[Key(fk.child, 1) := row], Done(1))
  {
    var q, child := Key(g.parent, 2), Key(fk.child, 1);
    AdmittedRow(SessionOf(1), row);
    AdmittedRow(SessionOf(1), rows[q]);
    assert ParentKey(fk.child, row) == Some(q);
    assert BeforeRow(TwoTenants(schema), rows, SessionOf(1), Client, fk.child, row) == row;
    assert ReferencesHold(TwoTenants(schema), rows[child := row], child);
  }

  /** What is left once the parent is deleted: a child of tenant 1 and the row of tenant 2 it derives from. */
  ghost function Movable(fk: ForeignKey, g: ForeignKey): Rows {
    map[Key(g.parent, 2) := RowOf(2, map[]), Key(fk.child, 1) := RowOf(1, map[fk.column := 0, g.column := 2])]
  }

  ghost function Moved(fk: ForeignKey, g: ForeignKey): Rows {
    Movable(fk, g)[Key(fk.child, 1) := RowOf(2, map[g.column := 2])]
  }

  lemma MovableChildMoves(schema: Schema, fk: ForeignKey, g: ForeignKey, left: Rows)
    requires WellFormed(schema) && fk in schema.keys && g in schema.keys
    requires g.child == fk.child && Derives(g) && fk != g && fk.rule.SetNull? && left == Movable(fk, g)
    ensures Detached(TwoTenants(schema), left, SessionOf(1), {Key(fk.parent, 0)}) == Moved(fk, g)
  {
    var w, gone, q, child := TwoTenants(schema), {Key(fk.parent, 0)}, Key(g.parent, 2), Key(fk.child, 1);
    assert PointsInto(fk, child, left[child], gone);
    assert Cleared(schema, child, left[child], gone) == {fk.column};
    assert left[child].refs - {fk.column} == map[g.column := 2];
    var row := RowOf(1, map[g.column := 2]);
    assert ParentKey(fk.child, row) == Some(q);
    assert BeforeRow(w, left, SessionOf(1), Owner, fk.child, row) == RowOf(2, map[g.column := 2]);
  }

  lemma MoveHolds(schema: Schema, fk: ForeignKey, g: ForeignKey)
    requires WellFormed(schema) && g in schema.keys && g !in schema.composite && g.child == fk.child && fk != g
    requires fk in schema.keys && fk.rule.SetNull?
    ensures UpdatesHold(TwoTenants(schema), Movable(fk, g), Moved(fk, g))
    ensures !Dangles(schema, Moved(fk, g), {Key(fk.parent, 0)})
  {
    assert UpdateHolds(TwoTenants(schema), Movable(fk, g), Moved(fk, g), Key(fk.child, 1));
  }

  lemma MovableCascadesNothing(schema: Schema, fk: ForeignKey, g: ForeignKey, all: Rows)
    requires WellFormed(schema) && fk in schema.keys && fk.rule.SetNull? && g.child == fk.child && fk != g
    requires all == Movable(fk, g)[Key(fk.parent, 0) := RowOf(1, map[])]
    ensures CascadeClosure(schema, all, {Key(fk.parent, 0)}) == {Key(fk.parent, 0)}
    ensures all - {Key(fk.parent, 0)} == Movable(fk, g) && Admits(SessionOf(1), all[Key(fk.parent, 0)])
  {
    AdmittedRow(SessionOf(1), all[Key(fk.parent, 0)]);
    assert Cascaded(schema, all, {Key(fk.parent, 0)}) == {};
  }

  lemma MovableParentIsDeleted(schema: Schema, fk: ForeignKey, g: ForeignKey, all: Rows)
    requires WellFormed(schema) && fk in schema.keys && g in schema.keys && g !in schema.composite
    requires g.child == fk.child && Derives(g) && fk != g && fk.rule.SetNull?
    requires all == Movable(fk, g)[Key(fk.parent, 0) := RowOf(1, map[])]
    ensures Exec(TwoTenants(schema), all, SessionOf(1), Delete({Key(fk.parent, 0)})).rows == Moved(fk, g)
  {
    MovableCascadesNothing(schema, fk, g, all);
    DeleteOfOne(TwoTenants(schema), all, SessionOf(1), Key(fk.parent, 0), {Key(fk.parent, 0)});
    MovableChildMoves(schema, fk, g, Movable(fk, g));
    MoveHolds(schema, fk, g);
  }

  /** Tenant 1 stores a child under its own parent and deletes that parent; the child ends in tenant 2. */
  lemma DetachedChildMoves(schema: Schema, fk: ForeignKey, g: ForeignKey, rows: Rows) returns (ins: Op, del: Op)
    requires WellFormed(schema) && fk in schema.keys && g in schema.keys && g !in schema.composite
    requires g.child == fk.child && Derives(g) && fk != g && fk.rule.SetNull?
    requires rows == map[Key(fk.parent, 0) := RowOf(1, map[]), Key(g.parent, 2) := RowOf(2, map[])]
    ensures Consistent(schema, rows)
    ensures ScopeOf(ins.session.tenant) == ScopeOf(del.session.tenant) == Some(1)
    ensures var w := TwoTenants(schema);
            View(Exec(w, Exec(w, rows, ins.session, ins.stmt).rows, del.session, del.stmt).rows, 2) != View(rows, 2)
  {
    var parent, child := Key(fk.parent, 0), Key(fk.child, 1);
    var row := RowOf(1, map[fk.column := 0, g.column := 2]);
    ins, del := Op(SessionOf(1), Insert(child, row)), Op(SessionOf(1), Delete({parent}));
    MovableChildIsStored(schema, fk, g, rows, row);
    assert rows[child := row] == Movable(fk, g)[parent := RowOf(1, map[])];
    MovableParentIsDeleted(schema, fk, g, rows[child := row]);
    assert child in View(Moved(fk, g), 2) && child !in View(rows, 2);
  }

  /** No session disturbs another tenant if and only if the foreign-key actions are confined. */
  lemma IsolationIffActionsConfined(schema: Schema)
    requires WellFormed(schema)
    ensures Isolates(schema) <==> ActionsConfined(schema)
  {
    if ActionsConfined(schema) {
      forall w: World, rows: Rows, ops: seq<Op>, u: Uuid
        | w.schema == schema && Consistent(schema, rows) && OnlyOthers(ops, u)
        ensures View(Run(w, rows, ops), u) == View(rows, u)
      {
        RunLeavesOthers(w, rows, ops, u);
      }
    } else if fk :| fk in schema.keys && (fk.rule.Cascade? || fk.rule.SetNull?) && fk !in schema.composite {
      var rows := map[Key(fk.parent, 0) := RowOf(1, map[])];
      var ins, del := ForeignChildIsTouched(schema, fk, rows);
      var both := Exec(TwoTenants(schema), rows, ins.session, ins.stmt).rows;
      RunOfOne(TwoTenants(schema), both, del);
      Disturbs(schema, TwoTenants(schema), both, [del], 2);
    } else {
      var fk, g :| fk in schema.keys && g in schema.keys && fk.rule.SetNull? && g.child == fk.child && Derives(g) &&
                   g !in schema.composite;
      var rows := map[Key(fk.parent, 0) := RowOf(1, map[]), Key(g.parent, 2) := RowOf(2, map[])];
      var ins, del := DetachedChildMoves(schema, fk, g, rows);
      RunOfTwo(TwoTenants(schema), rows, ins, del);
      Disturbs(schema, TwoTenants(schema), rows, [ins, del], 2);
    }
  }

  lemma Disturbs(schema: Schema, w: World, rows: Rows, ops: seq<Op>, u: Uuid)
    requires w.schema == schema && Consistent(schema, rows) && OnlyOthers(ops, u)
    requires View(Run(w, rows, ops), u) != View(rows, u)
    ensures !Isolates(schema)
  {
  }

  lemma RunOfOne(w: World, rows: Rows, op: Op)
    ensures Run(w, rows, [op]) == Exec(w, rows, op.session, op.stmt).rows
  {
    assert [op][1..] == [];
  }

  lemma RunOfTwo(w: World, rows: Rows, first: Op, second: Op)
    ensures Run(w, rows, [first, second]) ==
            Exec(w, Exec(w, rows, first.session, first.stmt).rows, second.session, second.stmt).rows
  {
    assert [first, second][1..] == [second];
    RunOfOne(w, Exec(w, rows, first.session, first.stmt).rows, second);
  }
}
