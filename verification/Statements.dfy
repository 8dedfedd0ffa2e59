/**
  What the statements of a client session do, in terms of what it wrote and what is stored: which
  INSERTs, UPDATEs and DELETEs are carried out, and what they leave behind.
 */
module Statements {
  import opened Wrappers
  import opened RowSecurity
  import opened Isolation

  /** Both settings are uuids: `m` is the session's MSP and `t` its tenant. */
  predicate IsScoped(s: Session, m: Uuid, t: Uuid) {
    s.msp == Scope(m) && s.tenant == Scope(t)
  }

  predicate Belongs(row: Row, m: Uuid, t: Uuid) {
    row.msp == Some(m) && row.tenant == Some(t)
  }

  /** The key the row names its deriving parent by is that of a row of the session's tenant and MSP. */
  predicate NamesOwnParent(rows: Rows, table: Table, row: Row, m: Uuid, t: Uuid) {
    match DerivingParent(table)
    case None => false
    case Some(d) =>
      d.column in row.refs &&
      var p := Key(d.table, row.refs[d.column]);
      p in rows && Belongs(rows[p], m, t)
  }

  /** What a session may write: its MSP or none, and its tenant, or on a child table none or an own parent. */
  predicate MayWrite(rows: Rows, table: Table, row: Row, m: Uuid, t: Uuid) {
    && (row.msp == None || row.msp == Some(m))
    && (row.tenant == Some(t) || NamesOwnParent(rows, table, row, m, t) ||
        (row.tenant == None && DerivingParent(table) != None))
  }

  /** Every reference finds its row, in the same tenant where the key has a twin; `k` may refer to itself. */
  predicate Finds(w: World, rows: Rows, k: Key, refs: map<Column, Uuid>, m: Uuid, t: Uuid) {
    && t in w.tenants && m in w.msps
    && forall fk | fk in w.schema.keys && fk.child == k.table && fk.column in refs ::
         var p := Key(fk.parent, refs[fk.column]);
         p == k || (p in rows && (fk in w.schema.composite ==> rows[p].tenant == Some(t)))
  }

  /** The written row with the session's tenant and MSP. */
  function Stamped(row: Row, m: Uuid, t: Uuid): Row {
    Row(Some(t), Some(m), row.refs, row.data)
  }

  lemma WrittenRow(w: World, rows: Rows, s: Session, table: Table, row: Row, m: Uuid, t: Uuid)
    requires IsScoped(s, m, t)
    ensures var new_ := BeforeRow(w, rows, s, Client, table, row);
            && (Admits(s, new_) <==> MayWrite(rows, table, row, m, t))
            && (Admits(s, new_) ==> new_ == Stamped(row, m, t))
  {
    AdmittedRow(s, BeforeRow(w, rows, s, Client, table, row));
    WrittenRowIsAdmittedIff(w, rows, s, table, row);
    var p := ParentKey(table, row);
    if p.Some? && p.value in rows { AdmittedRow(s, rows[p.value]); }
    TriggersKeepWriting(w, rows, s, table, row);
  }

  lemma TriggersKeepWriting(w: World, rows: Rows, s: Session, table: Table, row: Row)
    ensures var new_ := BeforeRow(w, rows, s, Client, table, row); new_.refs == row.refs && new_.data == row.data
  {
  }

  lemma FindsIff(w: World, rows: Rows, k: Key, row: Row, m: Uuid, t: Uuid)
    ensures ReferencesHold(w, rows[k := Stamped(row, m, t)], k) <==> Finds(w, rows, k, row.refs, m, t)
  {
  }

  /** An INSERT stores the written row, stamped, exactly when it may be written, is new and finds its references. */
  lemma InsertIs(w: World, rows: Rows, s: Session, k: Key, row: Row, m: Uuid, t: Uuid)
    requires IsScoped(s, m, t)
    ensures Exec(w, rows, s, Insert(k, row)) ==
      if !MayWrite(rows, k.table, row, m, t) then Outcome(rows, CheckViolation)
      else if k in rows then Outcome(rows, UniqueViolation)
      else if !Finds(w, rows, k, row.refs, m, t) then Outcome(rows, ForeignKeyViolation)
      else Outcome(rows[k := Stamped(row, m, t)], Done(1))
  {
    WrittenRow(w, rows, s, k.table, row, m, t);
    FindsIff(w, rows, k, row, m, t);
  }

  /** An UPDATE reaches a row of the session's tenant and MSP only, and replaces it under the same conditions. */
  lemma UpdateIs(w: World, rows: Rows, s: Session, k: Key, row: Row, m: Uuid, t: Uuid)
    requires IsScoped(s, m, t)
    ensures Exec(w, rows, s, Update(k, row)) ==
      if !(k in rows && Belongs(rows[k], m, t)) then Outcome(rows, Done(0))
      else if !MayWrite(rows, k.table, row, m, t) then Outcome(rows, CheckViolation)
      else if !Finds(w, rows, k, row.refs, m, t) then Outcome(rows, ForeignKeyViolation)
      else Outcome(rows[k := Stamped(row, m, t)], Done(1))
  {
    if k in rows { AdmittedRow(s, rows[k]); }
    WrittenRow(w, rows, s, k.table, row, m, t);
    FindsIff(w, rows, k, row, m, t);
  }

  /** A session without a complete scope writes and deletes nothing. */
  lemma UnscopedDoesNothing(w: World, rows: Rows, s: Session, stmt: Statement)
    requires !(s.msp.Scope? && s.tenant.Scope?)
    ensures Exec(w, rows, s, stmt).rows == rows
    ensures stmt.Insert? ==> !Exec(w, rows, s, stmt).status.Done?
    ensures s.msp == Malformed || s.tenant == Malformed ==> Exec(w, rows, s, stmt).status == InvalidText
  {
    match stmt
    case Insert(k, row) => AdmittedRow(s, BeforeRow(w, rows, s, Client, k.table, row));
    case Update(k, row) => if k in rows { AdmittedRow(s, rows[k]); }
    case Delete(where_) =>
      forall k | k in rows ensures !Admits(s, rows[k]) { AdmittedRow(s, rows[k]); }
      NothingReached(w, rows, s, where_);
  }

  lemma NothingReached(w: World, rows: Rows, s: Session, where_: set<Key>)
    requires forall k | k in rows :: !Admits(s, rows[k])
    ensures ExecDelete(w, rows, s, where_) == Outcome(rows, Done(0))
  {
    var roots := Targets(rows, s, where_);
    assert roots == {} && CascadeClosure(w.schema, rows, roots) == {};
    assert rows - {} == rows;
    assert Detached(w, rows, s, {}) == rows;
  }

  // --- DELETE -----------------------------------------------------------------------------

  /** The rows the WHERE clause names that are of the session's tenant and MSP. */
  function Named(rows: Rows, where_: set<Key>, m: Uuid, t: Uuid): set<Key> {
    set k | k in where_ && k in rows && Belongs(rows[k], m, t)
  }

  /** A row that refers, by a CASCADE key, to one that goes does not stay. */
  ghost predicate TakesReferrers(schema: Schema, rows: Rows, gone: set<Key>) {
    forall k, fk | k in rows && fk in schema.keys && fk.rule == Cascade && Refers(k, rows[k], fk) &&
                   Referred(rows[k], fk) in gone :: k in gone
  }

  predicate Refers(k: Key, row: Row, fk: ForeignKey) {
    fk.child == k.table && fk.column in row.refs
  }

  function Referred(row: Row, fk: ForeignKey): Key
    requires fk.column in row.refs
  {
    Key(fk.parent, row.refs[fk.column])
  }

  /** Nothing goes but what is named and what refers by CASCADE keys to something that goes. */
  ghost predicate IsLeastTaken(schema: Schema, rows: Rows, named: set<Key>, gone: set<Key>) {
    && named <= gone && TakesReferrers(schema, rows, gone)
    && forall other: set<Key> | named <= other && TakesReferrers(schema, rows, other) :: gone <= other
  }

  lemma TakesIffClosed(schema: Schema, rows: Rows, gone: set<Key>)
    ensures TakesReferrers(schema, rows, gone) <==> Cascaded(schema, rows, gone) == {}
  {
    if TakesReferrers(schema, rows, gone) {
      forall k | k in rows && k !in gone ensures k !in Cascaded(schema, rows, gone) {
        forall fk | fk in schema.keys && fk.rule.Cascade? ensures !PointsInto(fk, k, rows[k], gone) {
          assert Refers(k, rows[k], fk) ==> Referred(rows[k], fk) !in gone;
        }
      }
    }
    if Cascaded(schema, rows, gone) == {} {
      forall k, fk | k in rows && fk in schema.keys && fk.rule == Cascade && Refers(k, rows[k], fk) &&
                     Referred(rows[k], fk) in gone
        ensures k in gone
      {
        assert PointsInto(fk, k, rows[k], gone) && k !in Cascaded(schema, rows, gone);
      }
    }
  }

  lemma ClosureIsTaken(schema: Schema, rows: Rows, named: set<Key>)
    ensures IsLeastTaken(schema, rows, named, CascadeClosure(schema, rows, named))
  {
    ClosureIsClosed(schema, rows, named);
    TakesIffClosed(schema, rows, CascadeClosure(schema, rows, named));
    forall other: set<Key> | named <= other && TakesReferrers(schema, rows, other)
      ensures CascadeClosure(schema, rows, named) <= other
    {
      TakesIffClosed(schema, rows, other);
      ClosureIsLeast(schema, rows, named, other);
    }
  }

  /** `now` is `row` but for references, tenant and MSP; a reference is lost by a SET NULL key into `gone` alone. */
  ghost predicate OnlyCleared(schema: Schema, k: Key, row: Row, now: Row, gone: set<Key>) {
    && now.data == row.data
    && (forall c | c in now.refs :: c in row.refs && now.refs[c] == row.refs[c])
    && (forall c | c in row.refs && c !in now.refs ::
          exists fk | fk in schema.keys :: fk.rule == SetNull && fk.column == c && Refers(k, row, fk) &&
                                           Referred(row, fk) in gone)
    && (now.refs == row.refs ==> now == row)
  }

  /** No reference that is left leads to a row that went. */
  ghost predicate NothingLeadsInto(schema: Schema, rows: Rows, gone: set<Key>) {
    forall k, fk | k in rows && fk in schema.keys && Refers(k, rows[k], fk) :: Referred(rows[k], fk) !in gone
  }

  /**
    A DELETE that is carried out takes the named rows and what refers to them by CASCADE keys, counts
    the named ones, and leaves every other row as it was but for references cleared by SET NULL keys.
   */
  lemma DeleteIs(w: World, rows: Rows, s: Session, where_: set<Key>, m: Uuid, t: Uuid) returns (gone: set<Key>)
    requires IsScoped(s, m, t) && Exec(w, rows, s, Delete(where_)).status.Done?
    ensures IsLeastTaken(w.schema, rows, Named(rows, where_, m, t), gone)
    ensures Exec(w, rows, s, Delete(where_)).status == Done(|Named(rows, where_, m, t)|)
    ensures Exec(w, rows, s, Delete(where_)).rows.Keys == rows.Keys - gone
    ensures forall k | k in Exec(w, rows, s, Delete(where_)).rows ::
              OnlyCleared(w.schema, k, rows[k], Exec(w, rows, s, Delete(where_)).rows[k], gone)
    ensures NothingLeadsInto(w.schema, Exec(w, rows, s, Delete(where_)).rows, gone)
  {
    gone := CascadeClosure(w.schema, rows, Targets(rows, s, where_));
    forall k | k in rows ensures Admits(s, rows[k]) <==> Belongs(rows[k], m, t) { AdmittedRow(s, rows[k]); }
    assert Targets(rows, s, where_) == Named(rows, where_, m, t);
    ClosureIsTaken(w.schema, rows, Named(rows, where_, m, t));
    var left := rows - gone;
    var after := Detached(w, left, s, gone);
    forall k | k in left ensures OnlyCleared(w.schema, k, rows[k], after[k], gone) {
      ClearedIsOnly(w, left, s, gone, k);
    }
    forall k, fk | k in after && fk in w.schema.keys && Refers(k, after[k], fk) ensures Referred(after[k], fk) !in gone {
      LeftLeadsElsewhere(w, rows, s, gone, k, fk);
    }
  }

  lemma ClearedIsOnly(w: World, left: Rows, s: Session, gone: set<Key>, k: Key)
    requires k in left
    ensures OnlyCleared(w.schema, k, left[k], DetachedRow(w, left, s, gone, k), gone)
  {
    var cleared := Cleared(w.schema, k, left[k], gone);
    OwnerKeepsWriting(w, left, s, k.table, left[k].(refs := left[k].refs - cleared));
    forall c | c in cleared
      ensures exists fk | fk in w.schema.keys :: fk.rule == SetNull && fk.column == c && Refers(k, left[k], fk) &&
                                                 Referred(left[k], fk) in gone
    {
      var fk :| fk in w.schema.keys && fk.rule.SetNull? && PointsInto(fk, k, left[k], gone) && fk.column == c;
      assert Refers(k, left[k], fk) && Referred(left[k], fk) in gone;
    }
    if c :| c in cleared {
      assert c in left[k].refs && c !in left[k].refs - cleared;
    }
  }

  lemma OwnerKeepsWriting(w: World, rows: Rows, s: Session, table: Table, row: Row)
    ensures var new_ := BeforeRow(w, rows, s, Owner, table, row); new_.refs == row.refs && new_.data == row.data
  {
  }

  lemma LeftLeadsElsewhere(w: World, rows: Rows, s: Session, gone: set<Key>, k: Key, fk: ForeignKey)
    requires Cascaded(w.schema, rows, gone) == {} && fk in w.schema.keys
    requires var after := Detached(w, rows - gone, s, gone);
             k in after && Refers(k, after[k], fk) && !Dangles(w.schema, after, gone)
    ensures Referred(Detached(w, rows - gone, s, gone)[k], fk) !in gone
  {
    var after := Detached(w, rows - gone, s, gone);
    DetachedReference(w, rows - gone, s, gone, k, fk);
    assert k !in Cascaded(w.schema, rows, gone);
    assert Referred(after[k], fk) in gone ==> PointsInto(fk, k, after[k], gone) && PointsInto(fk, k, rows[k], gone);
  }

  /** A changed row names a tenant and an MSP that exist, finds its references, and leaves none of its children behind. */
  lemma UpdateHoldsIff(w: World, before: Rows, after: Rows, k: Key)
    requires k in before && k in after
    ensures UpdateHolds(w, before, after, k) <==>
      && (after[k].tenant == None || after[k].tenant.value in w.tenants)
      && (after[k].msp == None || after[k].msp.value in w.msps)
      && (forall fk | fk in w.schema.keys && Refers(k, after[k], fk) ::
            && Referred(after[k], fk) in after
            && (fk in w.schema.composite && after[k].tenant != None ==>
                  after[Referred(after[k], fk)].tenant == after[k].tenant))
      && (after[k].tenant == before[k].tenant || before[k].tenant == None ||
          forall c, fk | c in after && fk in w.schema.composite && Refers(c, after[c], fk) && Referred(after[c], fk) == k ::
            after[c].tenant != before[k].tenant)
  {
  }

  // --- When a DELETE is refused -----------------------------------------------------------

  /** The foreign keys to `tenants` and `msps` hold. */
  ghost predicate ScopesExist(w: World, rows: Rows) {
    && (forall k | k in rows && rows[k].tenant.Some? :: rows[k].tenant.value in w.tenants)
    && (forall k | k in rows && rows[k].msp.Some? :: rows[k].msp.value in w.msps)
    && (forall t | t in w.tenants && w.tenants[t].Some? :: w.tenants[t].value in w.msps)
  }

  /** A row outside `gone` that refers to one inside by a RESTRICT or NO ACTION key. */
  ghost predicate IsHeld(schema: Schema, rows: Rows, gone: set<Key>) {
    exists k, fk | k in rows && k !in gone && fk in schema.keys ::
      (fk.rule == Restrict || fk.rule == NoAction) && Refers(k, rows[k], fk) && Referred(rows[k], fk) in gone
  }

  /** With confined actions nothing but such a row refuses a DELETE. */
  lemma DeleteIsRefusedIff(w: World, rows: Rows, s: Session, where_: set<Key>, m: Uuid, t: Uuid) returns (gone: set<Key>)
    requires WellFormed(w.schema) && Consistent(w.schema, rows) && ActionsConfined(w.schema) && ScopesExist(w, rows)
    requires IsScoped(s, m, t) && m in w.msps
    ensures IsLeastTaken(w.schema, rows, Named(rows, where_, m, t), gone)
    ensures Exec(w, rows, s, Delete(where_)).status ==
            if IsHeld(w.schema, rows, gone) then ForeignKeyViolation else Done(|Named(rows, where_, m, t)|)
  {
    gone := CascadeClosure(w.schema, rows, Targets(rows, s, where_));
    forall k | k in rows ensures Admits(s, rows[k]) <==> Belongs(rows[k], m, t) { AdmittedRow(s, rows[k]); }
    assert Targets(rows, s, where_) == Named(rows, where_, m, t);
    ClosureIsTaken(w.schema, rows, Named(rows, where_, m, t));
    CascadeStaysInTenant(w.schema, rows, Targets(rows, s, where_), t);
    DanglesIffHeld(w, rows, s, gone);
    if !IsHeld(w.schema, rows, gone) {
      UpdatesAreAccepted(w, rows, s, gone, m, t);
    }
  }

  lemma DanglesIffHeld(w: World, rows: Rows, s: Session, gone: set<Key>)
    requires OneKeyPerColumn(w.schema)
    ensures Dangles(w.schema, Detached(w, rows - gone, s, gone), gone) <==> IsHeld(w.schema, rows, gone)
  {
    var left := rows - gone;
    var after := Detached(w, left, s, gone);
    if Dangles(w.schema, after, gone) {
      var k, fk :| k in after && fk in w.schema.keys && (fk.rule.Restrict? || fk.rule.NoAction?) &&
                   PointsInto(fk, k, after[k], gone);
      DetachedReference(w, left, s, gone, k, fk);
      assert Refers(k, rows[k], fk) && Referred(rows[k], fk) in gone;
    }
    if k, fk :| k in rows && k !in gone && fk in w.schema.keys && (fk.rule == Restrict || fk.rule == NoAction) &&
                Refers(k, rows[k], fk) && Referred(rows[k], fk) in gone {
      ColumnIsKept(w, left, s, gone, k, fk);
      assert PointsInto(fk, k, after[k], gone);
    }
  }

  lemma ColumnIsKept(w: World, left: Rows, s: Session, gone: set<Key>, k: Key, fk: ForeignKey)
    requires OneKeyPerColumn(w.schema) && k in left && fk in w.schema.keys && fk.rule != SetNull && Refers(k, left[k], fk)
    ensures var row := DetachedRow(w, left, s, gone, k); Refers(k, row, fk) && Referred(row, fk) == Referred(left[k], fk)
  {
    var cleared := Cleared(w.schema, k, left[k], gone);
    OwnerKeepsWriting(w, left, s, k.table, left[k].(refs := left[k].refs - cleared));
    assert fk.column !in cleared;
  }

  lemma UpdatesAreAccepted(w: World, rows: Rows, s: Session, gone: set<Key>, m: Uuid, t: Uuid)
    requires WellFormed(w.schema) && Consistent(w.schema, rows) && ActionsConfined(w.schema) && ScopesExist(w, rows)
    requires IsScoped(s, m, t) && m in w.msps && gone <= View(rows, t).Keys
    requires Cascaded(w.schema, rows, gone) == {} && !Dangles(w.schema, Detached(w, rows - gone, s, gone), gone)
    ensures UpdatesHold(w, rows - gone, Detached(w, rows - gone, s, gone))
  {
    var left := rows - gone;
    var after := Detached(w, left, s, gone);
    forall k | k in left ensures after[k].tenant == rows[k].tenant {
      if Cleared(w.schema, k, rows[k], gone) != {} { ClearedStaysInTenant(w, rows, s, gone, t, k); }
    }
    forall k | k in left && after[k] != left[k] ensures UpdateHolds(w, left, after, k) {
      ClearedMspExists(w, rows, s, gone, m, k);
      forall fk | fk in w.schema.keys && fk.child == k.table && fk.column in after[k].refs
        ensures var p := Key(fk.parent, after[k].refs[fk.column]);
                p in after && (fk in w.schema.composite ==> after[p].tenant == after[k].tenant)
      {
        LeftLeadsElsewhere(w, rows, s, gone, k, fk);
        DetachedReference(w, left, s, gone, k, fk);
        assert Agrees(w.schema, rows, k, fk);
      }
    }
  }

  lemma ClearedMspExists(w: World, rows: Rows, s: Session, gone: set<Key>, m: Uuid, k: Key)
    requires ScopesExist(w, rows) && s.msp == Scope(m) && m in w.msps && k in rows - gone
    ensures var row := DetachedRow(w, rows - gone, s, gone, k); row.msp.Some? ==> row.msp.value in w.msps
  {
  }
}
