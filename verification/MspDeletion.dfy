/**
  Where tenant isolation ends: the client policy on `msps` admits the session's own MSP to every
  command, and its row takes along all tenants mapped to it.
 */
module MspDeletion {
  import opened Wrappers
  import opened RowSecurity
  import opened Isolation
  import opened Noninterference
  import opened MspTenancy
  import opened Statements

  /** The rows that the keys on `msp_id`, and those on `tenant_id` by way of `tenants`, take along. */
  function RowsOfMsp(w: World, rows: Rows, m: Uuid): set<Key> {
    set k | k in rows && (rows[k].msp == Some(m) || IsTenantOf(w.tenants, rows[k].tenant, m))
  }

  predicate IsTenantOf(tenants: map<Uuid, Option<Uuid>>, t: Option<Uuid>, m: Uuid) {
    t.Some? && t.value in tenants && tenants[t.value] == Some(m)
  }

  function WithoutMsp(w: World, m: Uuid): World {
    w.(tenants := map t | t in w.tenants && w.tenants[t] != Some(m) :: w.tenants[t], msps := w.msps - {m})
  }

  /** `DELETE FROM msps`: USING leaves the row of the session's setting, and no other. */
  function ExecDeleteMsp(w: World, rows: Rows, s: Session): Outcome {
    if s.msp.Malformed? then Outcome(rows, InvalidText)
    else if !s.msp.Scope? || s.msp.id !in w.msps then Outcome(rows, Done(0))
    else
      var rest := WithoutMsp(w, s.msp.id);
      var gone := CascadeClosure(w.schema, rows, RowsOfMsp(w, rows, s.msp.id));
      var left := rows - gone;
      var after := Detached(rest, left, s, gone);
      if Dangles(w.schema, after, gone) || !UpdatesHold(rest, left, after) then Outcome(rows, ForeignKeyViolation)
      else Outcome(after, Done(1))
  }

  lemma MspIsClosed(w: World, rows: Rows, m: Uuid)
    requires Consistent(w.schema, rows) && AllComposite(w.schema) && MspAgrees(w.tenants, rows)
    ensures forall k, fk | k in rows && fk in w.schema.keys && PointsInto(fk, k, rows[k], RowsOfMsp(w, rows, m)) ::
              k in RowsOfMsp(w, rows, m)
    ensures CascadeClosure(w.schema, rows, RowsOfMsp(w, rows, m)) == RowsOfMsp(w, rows, m)
  {
    var gone := RowsOfMsp(w, rows, m);
    forall k, fk | k in rows && fk in w.schema.keys && PointsInto(fk, k, rows[k], gone) ensures k in gone {
      assert Agrees(w.schema, rows, k, fk);
    }
    assert Cascaded(w.schema, rows, gone) == {};
  }

  /**
    With all twins in place and every row agreeing with the mapping, the delete is carried out and
    takes exactly the rows of the tenants of that MSP: those of the session's own tenant and of all
    its siblings, and none of another MSP.
   */
  lemma MspTakesItsTenants(w: World, rows: Rows, s: Session)
    requires Consistent(w.schema, rows) && AllComposite(w.schema) && MspAgrees(w.tenants, rows)
    requires s.msp.Scope? && s.msp.id in w.msps
    ensures ExecDeleteMsp(w, rows, s).status == Done(1)
    ensures forall u | u in w.tenants ::
              View(ExecDeleteMsp(w, rows, s).rows, u) == if w.tenants[u] == Some(s.msp.id) then map[] else View(rows, u)
  {
    var m := s.msp.id;
    var rest, gone := WithoutMsp(w, m), RowsOfMsp(w, rows, m);
    var left := rows - gone;
    MspIsClosed(w, rows, m);
    forall k | k in left ensures DetachedRow(rest, left, s, gone, k) == rows[k] {
      assert Cleared(w.schema, k, left[k], gone) == {};
    }
    assert Detached(rest, left, s, gone) == left;
    assert !Dangles(w.schema, left, gone);
  }

  /** The MSP it names is another one, and so is the one its tenant is mapped to. */
  ghost predicate OutlivesMsp(w: World, row: Row, m: Uuid) {
    && (row.tenant != None ==> row.tenant.value in w.tenants && w.tenants[row.tenant.value] != Some(m))
    && (row.msp != None ==> row.msp.value in w.msps && row.msp.value != m)
  }

  /**
    The row of the session's MSP and no other is deleted, with the least set that holds the rows of
    the MSP and of its tenants and what refers to them by CASCADE keys; other rows are only cleared.
    A refused delete changes nothing.
   */
  lemma MspDeleteIs(w: World, rows: Rows, s: Session) returns (gone: set<Key>)
    ensures s.msp == Malformed ==> ExecDeleteMsp(w, rows, s) == Outcome(rows, InvalidText)
    ensures s.msp == Unset || s.msp == Empty || (s.msp.Scope? && s.msp.id !in w.msps) ==> ExecDeleteMsp(w, rows, s) == Outcome(rows, Done(0))
    ensures s.msp.Scope? && s.msp.id in w.msps ==>
              ExecDeleteMsp(w, rows, s).status == Done(1) || ExecDeleteMsp(w, rows, s) == Outcome(rows, ForeignKeyViolation)
    ensures ExecDeleteMsp(w, rows, s).status == Done(1) ==>
              && s.msp.Scope? && IsLeastTaken(w.schema, rows, RowsOfMsp(w, rows, s.msp.id), gone)
              && ExecDeleteMsp(w, rows, s).rows.Keys == rows.Keys - gone
              && forall k | k in ExecDeleteMsp(w, rows, s).rows ::
                   var now := ExecDeleteMsp(w, rows, s).rows[k];
                   OnlyCleared(w.schema, k, rows[k], now, gone) && (now != rows[k] ==> OutlivesMsp(w, now, s.msp.id))
  {
    gone := {};
    if s.msp.Scope? && s.msp.id in w.msps {
      gone := CascadeClosure(w.schema, rows, RowsOfMsp(w, rows, s.msp.id));
      ClosureIsTaken(w.schema, rows, RowsOfMsp(w, rows, s.msp.id));
      forall k | k in rows - gone
        ensures OnlyCleared(w.schema, k, rows[k], DetachedRow(WithoutMsp(w, s.msp.id), rows - gone, s, gone, k), gone)
      {
        ClearedIsOnly(WithoutMsp(w, s.msp.id), rows - gone, s, gone, k);
      }
      if ExecDeleteMsp(w, rows, s).status == Done(1) {
        var rest, left, after := WithoutMsp(w, s.msp.id), rows - gone, ExecDeleteMsp(w, rows, s).rows;
        forall k | k in left && after[k] != left[k] ensures OutlivesMsp(w, after[k], s.msp.id) {
          assert UpdateHolds(rest, left, after, k);
        }
      }
    }
  }

  /**
    In any database where references are found, a delete that is carried out leaves no row of the
    MSP, none of a tenant mapped to it, and no reference to one that went.
   */
  lemma NothingOfMspIsLeft(w: World, rows: Rows, s: Session)
    requires Consistent(w.schema, rows) && ExecDeleteMsp(w, rows, s).status == Done(1)
    ensures s.msp.Scope?
    ensures var left := ExecDeleteMsp(w, rows, s).rows;
            && left.Keys <= rows.Keys
            && (forall k | k in left :: left[k].msp != Some(s.msp.id))
            && (forall k | k in left && left[k].tenant != None && left[k].tenant.value in w.tenants ::
                  w.tenants[left[k].tenant.value] != Some(s.msp.id))
            && NothingLeadsInto(w.schema, left, rows.Keys - left.Keys)
  {
    var m := s.msp.id;
    var rest, gone := WithoutMsp(w, m), CascadeClosure(w.schema, rows, RowsOfMsp(w, rows, m));
    ClosureIsClosed(w.schema, rows, RowsOfMsp(w, rows, m));
    var left := rows - gone;
    var after := Detached(rest, left, s, gone);
    forall k | k in left && after[k] != left[k] ensures UpdateHolds(rest, left, after, k) {}
    assert rows.Keys - after.Keys == gone * rows.Keys;
    forall k, fk | k in after && fk in w.schema.keys && Refers(k, after[k], fk) ensures Referred(after[k], fk) !in gone {
      LeftLeadsElsewhere(rest, rows, s, gone, k, fk);
    }
  }
}
