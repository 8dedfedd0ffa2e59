/**
  The backfill of 0078: the child tables get a `tenant_id`, filled from their parents in a fixed
  statement order, and the rows that end without one are deleted table by table, with whatever
  ON DELETE CASCADE and SET NULL do to the rows that point at them.
 */
module TenantBackfill {
  import opened Wrappers
  import opened RowSecurity
  import opened Isolation
  import Statements

  /** Statement order of the UPDATEs. */
  const FILL_ORDER: seq<Table> := [
    SourceCredentials, SyncCheckpoints, PatternEvidenceLinks, KnowledgeCaseSteps, AttachmentArtifacts,
    PlaybookVersions, PlaybookEvidenceLinks, PlaybookApprovals, EpisodeSteps, ClaimEvidence, DecisionEvidence,
    IdentityAliases]

  /** Statement order of the DELETEs. */
  const DELETE_ORDER: seq<Table> := [
    IdentityAliases,
    SourceCredentials, SyncCheckpoints, PatternEvidenceLinks, KnowledgeCaseSteps, AttachmentArtifacts,
    PlaybookVersions, PlaybookEvidenceLinks, PlaybookApprovals, EpisodeSteps, ClaimEvidence, DecisionEvidence]

  /** Each table of the plan derives from a table that no later statement fills. */
  ghost predicate Ordered(plan: seq<Table>) {
    && (forall i | 0 <= i < |plan| :: DerivingParent(plan[i]).Some?)
    && (forall i, j | 0 <= i <= j < |plan| :: DerivingParent(plan[i]).value.table != plan[j])
    && forall i, j | 0 <= i < j < |plan| :: plan[i] != plan[j]
  }

  function IndexOf(plan: seq<Table>, t: Table): (i: nat)
    requires t in plan
    ensures i < |plan| && plan[i] == t
  {
    if plan[0] == t then 0 else 1 + IndexOf(plan[1..], t)
  }

  /** The parent row of `k`, when `k` lies in a table of the plan and its column is set. */
  function ParentOf(plan: seq<Table>, rows: Rows, k: Key): Option<Key>
    requires k in rows
  {
    var d := DerivingParent(k.table);
    if k.table in plan && d.Some? && d.value.column in rows[k].refs
    then Some(Key(d.value.table, rows[k].refs[d.value.column])) else None
  }

  lemma ParentComesBefore(plan: seq<Table>, t: Table)
    requires Ordered(plan) && t in plan && DerivingParent(t).value.table in plan
    ensures IndexOf(plan, DerivingParent(t).value.table) < IndexOf(plan, t)
  {
    var i, j := IndexOf(plan, t), IndexOf(plan, DerivingParent(t).value.table);
    assert DerivingParent(plan[i]).value.table == plan[j];
  }

  /** The tenant found first on the way from `k` to its root; a broken or ownerless chain has none. */
  function TenantOf(plan: seq<Table>, rows: Rows, k: Key): Option<Uuid>
    requires Ordered(plan)
    decreases if k.table in plan then 1 + IndexOf(plan, k.table) else 0
  {
    if k !in rows then None
    else if k.table !in plan || rows[k].tenant.Some? then rows[k].tenant
    else
      var p := ParentOf(plan, rows, k);
      if p.None? then None
      else
        assert p.value.table in plan ==> IndexOf(plan, p.value.table) < IndexOf(plan, k.table) by {
          if p.value.table in plan { ParentComesBefore(plan, k.table); }
        }
        TenantOf(plan, rows, p.value)
  }

  /** One `UPDATE child SET tenant_id = parent.tenant_id FROM parent ... WHERE child.tenant_id IS NULL`. */
  function Fill(rows: Rows, t: Table): Rows {
    map k | k in rows ::
      var p := ParentOf([t], rows, k);
      if rows[k].tenant.None? && p.Some? && p.value in rows
      then rows[k].(tenant := rows[p.value].tenant) else rows[k]
  }

  /** `now` is `rows` with the tables of `done` filled along their references. */
  ghost predicate FilledUpTo(plan: seq<Table>, rows: Rows, done: seq<Table>, now: Rows)
    requires Ordered(plan)
  {
    && now.Keys == rows.Keys
    && forall k | k in rows ::
         now[k] == if k.table in done then rows[k].(tenant := TenantOf(plan, rows, k)) else rows[k]
  }

  lemma FillReachesRoots(plan: seq<Table>, rows: Rows, i: nat, now: Rows)
    requires Ordered(plan) && i < |plan|
    requires FilledUpTo(plan, rows, plan[..i], now)
    ensures FilledUpTo(plan, rows, plan[..i + 1], Fill(now, plan[i]))
  {
    var t := plan[i];
    assert plan[..i + 1] == plan[..i] + [t];
    assert t !in plan[..i];
    forall k | k in rows && k.table == t
      ensures Fill(now, t)[k] == rows[k].(tenant := TenantOf(plan, rows, k))
    {
      assert now[k] == rows[k];
      var p := ParentOf(plan, rows, k);
      assert p == ParentOf([t], now, k);
      if p.Some? && p.value in rows {
        if p.value.table in plan {
          ParentComesBefore(plan, t);
          var j := IndexOf(plan, p.value.table);
          assert IndexOf(plan, t) == i;
          assert plan[..i][j] == p.value.table;
          assert now[p.value] == rows[p.value].(tenant := TenantOf(plan, rows, p.value));
        } else {
          assert p.value.table !in plan[..i];
          assert now[p.value] == rows[p.value];
        }
      }
    }
  }

  /** Positions in the UPDATE order; a table outside it comes before all of them. */
  function Rank(t: Table): int {
    match t
    case SourceCredentials => 0
    case SyncCheckpoints => 1
    case PatternEvidenceLinks => 2
    case KnowledgeCaseSteps => 3
    case AttachmentArtifacts => 4
    case PlaybookVersions => 5
    case PlaybookEvidenceLinks => 6
    case PlaybookApprovals => 7
    case EpisodeSteps => 8
    case ClaimEvidence => 9
    case DecisionEvidence => 10
    case IdentityAliases => 11
    case _ => -1
  }

  /** The order the migration uses is a right one: versions are filled before their evidence links. */
  lemma FillOrderIsOrdered()
    ensures Ordered(FILL_ORDER)
  {
    assert forall i | 0 <= i < |FILL_ORDER| :: Rank(FILL_ORDER[i]) == i;
    forall i | 0 <= i < |FILL_ORDER|
      ensures DerivingParent(FILL_ORDER[i]).Some? && Rank(DerivingParent(FILL_ORDER[i]).value.table) < i
    {
    }
  }

  /** In the other order no evidence link without a tenant would get one from a version without one. */
  lemma LinksBeforeVersionsStayOwnerless(rows: Rows, k: Key)
    requires forall v | v in rows && v.table == PlaybookVersions :: rows[v].tenant.None?
    requires k in rows && k.table == PlaybookEvidenceLinks && rows[k].tenant.None?
    ensures Fill(Fill(rows, PlaybookEvidenceLinks), PlaybookVersions)[k].tenant.None?
  {
    var p := ParentOf([PlaybookEvidenceLinks], rows, k);
    if p.Some? && p.value in rows {
      assert p.value.table == PlaybookVersions && rows[p.value].tenant.None?;
    }
    var links := Fill(rows, PlaybookEvidenceLinks);
    assert links[k].tenant.None? && ParentOf([PlaybookVersions], links, k).None?;
  }

  // --- Deletion ---------------------------------------------------------------------------

  /** The rows of the tables that have no tenant. */
  function Ownerless(rows: Rows, tables: seq<Table>): set<Key> {
    set k | k in rows && k.table in tables && rows[k].tenant.None?
  }

  /** What ON DELETE SET NULL makes of the rows that are left: the tables have no triggers yet. */
  function WithoutRefs(schema: Schema, rows: Rows, gone: set<Key>): Rows {
    map k | k in rows :: rows[k].(refs := rows[k].refs - Cleared(schema, k, rows[k], gone))
  }

  /** The rows that the DELETEs of the first tables take, all at once. */
  ghost function Gone(schema: Schema, rows: Rows, tables: seq<Table>): set<Key> {
    CascadeClosure(schema, rows, Ownerless(rows, tables))
  }

  ghost function Left(schema: Schema, rows: Rows, tables: seq<Table>): Rows {
    var gone := Gone(schema, rows, tables);
    WithoutRefs(schema, rows - gone, gone)
  }

  /** A row that stays points, by a RESTRICT or NO ACTION key, at one the DELETEs of the first tables take. */
  ghost predicate Refused(schema: Schema, rows: Rows, tables: seq<Table>) {
    var gone := Gone(schema, rows, tables);
    Dangles(schema, Left(schema, rows, tables), gone)
  }

  lemma ColumnStays(schema: Schema, rows: Rows, gone: set<Key>, k: Key, fk: ForeignKey, more: set<Key>)
    requires OneKeyPerColumn(schema) && k in rows && fk in schema.keys && !fk.rule.SetNull?
    ensures PointsInto(fk, k, WithoutRefs(schema, rows, gone)[k], more) <==> PointsInto(fk, k, rows[k], more)
  {
  }

  /** One more table: deleting it after the others is deleting all of them at once. */
  lemma GoneGrows(schema: Schema, rows: Rows, tables: seq<Table>, t: Table)
    requires OneKeyPerColumn(schema)
    ensures var left := Left(schema, rows, tables);
            Gone(schema, rows, tables + [t]) ==
            Gone(schema, rows, tables) + CascadeClosure(schema, left, Ownerless(left, [t]))
  {
    var before, left := Gone(schema, rows, tables), Left(schema, rows, tables);
    var more, all := CascadeClosure(schema, left, Ownerless(left, [t])), Gone(schema, rows, tables + [t]);
    ClosureIsClosed(schema, rows, Ownerless(rows, tables));
    ClosureIsClosed(schema, rows, Ownerless(rows, tables + [t]));
    ClosureIsClosed(schema, left, Ownerless(left, [t]));
    assert Ownerless(rows, tables) <= Ownerless(rows, tables + [t]);
    ClosureIsLeast(schema, rows, Ownerless(rows, tables), all);
    forall k, fk | k in left && fk in schema.keys && fk.rule.Cascade?
      ensures PointsInto(fk, k, left[k], all) <==> PointsInto(fk, k, rows[k], all)
      ensures PointsInto(fk, k, left[k], more) <==> PointsInto(fk, k, rows[k], more)
    {
      ColumnStays(schema, rows - before, before, k, fk, all);
      ColumnStays(schema, rows - before, before, k, fk, more);
    }
    MoreIsInAll(schema, rows, left, before, all, Ownerless(left, [t]));
    SumIsClosed(schema, rows, left, before, more);
    assert Ownerless(rows, tables + [t]) <= before + more;
    ClosureIsLeast(schema, rows, Ownerless(rows, tables + [t]), before + more);
  }

  lemma MoreIsInAll(schema: Schema, rows: Rows, left: Rows, before: set<Key>, all: set<Key>, start: set<Key>)
    requires left.Keys == rows.Keys - before && Cascaded(schema, rows, all) == {} && start <= all
    requires forall k, fk | k in left && fk in schema.keys && fk.rule.Cascade? ::
               PointsInto(fk, k, left[k], all) <==> PointsInto(fk, k, rows[k], all)
    ensures CascadeClosure(schema, left, start) <= all
  {
    forall k | k in left && k !in all ensures k !in Cascaded(schema, left, all) {
      assert k !in Cascaded(schema, rows, all);
    }
    assert Cascaded(schema, left, all) == {};
    ClosureIsLeast(schema, left, start, all);
  }

  lemma SumIsClosed(schema: Schema, rows: Rows, left: Rows, before: set<Key>, more: set<Key>)
    requires left.Keys == rows.Keys - before
    requires Cascaded(schema, rows, before) == {} && Cascaded(schema, left, more) == {}
    requires forall k, fk | k in left && fk in schema.keys && fk.rule.Cascade? ::
               PointsInto(fk, k, left[k], more) <==> PointsInto(fk, k, rows[k], more)
    ensures Cascaded(schema, rows, before + more) == {}
  {
    forall k, fk | k in rows && k !in before + more && fk in schema.keys && fk.rule.Cascade?
      ensures !PointsInto(fk, k, rows[k], before + more)
    {
      assert k !in Cascaded(schema, rows, before) && k !in Cascaded(schema, left, more);
      assert PointsInto(fk, k, rows[k], before) || PointsInto(fk, k, left[k], more) || !PointsInto(fk, k, rows[k], before + more);
    }
  }

  /** The DELETE from one more table, after those of the others were carried out. */
  lemma SweepGrows(schema: Schema, rows: Rows, tables: seq<Table>, t: Table)
    requires OneKeyPerColumn(schema) && !Refused(schema, rows, tables)
    ensures var left := Left(schema, rows, tables);
            var more := CascadeClosure(schema, left, Ownerless(left, [t]));
            var after := WithoutRefs(schema, left - more, more);
            && Left(schema, rows, tables + [t]) == after
            && (Refused(schema, rows, tables + [t]) <==> Dangles(schema, after, more))
  {
    var before, left := Gone(schema, rows, tables), Left(schema, rows, tables);
    var more := CascadeClosure(schema, left, Ownerless(left, [t]));
    var after := WithoutRefs(schema, left - more, more);
    GoneGrows(schema, rows, tables, t);
    ClosureIsClosed(schema, left, Ownerless(left, [t]));
    forall k | k in after
      ensures k in rows - (before + more)
      ensures after[k] == WithoutRefs(schema, rows - (before + more), before + more)[k]
    {
      ClearedTwice(schema, k, rows[k], before, more);
    }
    assert after.Keys == rows.Keys - (before + more);
    forall k, fk | k in after && fk in schema.keys && (fk.rule.Restrict? || fk.rule.NoAction?)
      ensures !PointsInto(fk, k, after[k], before)
    {
      ColumnStays(schema, rows - before, before, k, fk, before);
      ColumnStays(schema, left - more, more, k, fk, before);
    }
    assert forall k, fk | k in after && fk in schema.keys && (fk.rule.Restrict? || fk.rule.NoAction?) ::
        PointsInto(fk, k, after[k], before + more) <==> PointsInto(fk, k, after[k], more);
  }

  lemma ClearedTwice(schema: Schema, k: Key, row: Row, before: set<Key>, more: set<Key>)
    ensures var once := row.(refs := row.refs - Cleared(schema, k, row, before));
            once.(refs := once.refs - Cleared(schema, k, once, more)) ==
            row.(refs := row.refs - Cleared(schema, k, row, before + more))
  {
    var once := row.(refs := row.refs - Cleared(schema, k, row, before));
    var twice := once.refs - Cleared(schema, k, once, more);
    forall c | c in row.refs ensures c in twice <==> c !in Cleared(schema, k, row, before + more) {
      assert forall fk | fk in schema.keys && fk.rule.SetNull? && fk.column == c ::
          PointsInto(fk, k, row, before + more) <==> PointsInto(fk, k, row, before) || PointsInto(fk, k, row, more);
    }
    assert twice == row.refs - Cleared(schema, k, row, before + more);
  }

  /**
    What DELETEs that are carried out leave: all but the ownerless rows and what refers to them by
    CASCADE keys, changed in nothing but references cleared by SET NULL keys, none of them dangling.
   */
  lemma LeftReads(schema: Schema, rows: Rows, tables: seq<Table>) returns (gone: set<Key>)
    ensures Statements.IsLeastTaken(schema, rows, (set k | k in rows && k.table in tables && rows[k].tenant == None), gone)
    ensures Left(schema, rows, tables).Keys == rows.Keys - gone
    ensures forall k | k in Left(schema, rows, tables) ::
              var now := Left(schema, rows, tables)[k];
              Statements.OnlyCleared(schema, k, rows[k], now, gone) && now.tenant == rows[k].tenant && now.msp == rows[k].msp
    ensures !Refused(schema, rows, tables) ==> Statements.NothingLeadsInto(schema, Left(schema, rows, tables), gone)
  {
    gone := Gone(schema, rows, tables);
    Statements.ClosureIsTaken(schema, rows, Ownerless(rows, tables));
    assert Ownerless(rows, tables) == set k | k in rows && k.table in tables && rows[k].tenant == None;
    forall k | k in rows - gone
      ensures Statements.OnlyCleared(schema, k, rows[k], WithoutRefs(schema, rows - gone, gone)[k], gone)
    {
      WithoutRefsReads(schema, rows - gone, gone, k);
    }
    if !Refused(schema, rows, tables) {
      ClosureIsClosed(schema, rows, Ownerless(rows, tables));
      forall k, fk | k in rows - gone && fk in schema.keys && Statements.Refers(k, Left(schema, rows, tables)[k], fk)
        ensures Statements.Referred(Left(schema, rows, tables)[k], fk) !in gone
      {
        LeftLeadsElsewhere(schema, rows, tables, k, fk);
      }
    }
  }

  lemma WithoutRefsReads(schema: Schema, left: Rows, gone: set<Key>, k: Key)
    requires k in left
    ensures Statements.OnlyCleared(schema, k, left[k], WithoutRefs(schema, left, gone)[k], gone)
  {
    var cleared := Cleared(schema, k, left[k], gone);
    forall c | c in cleared
      ensures exists fk | fk in schema.keys :: fk.rule == SetNull && fk.column == c && Statements.Refers(k, left[k], fk) &&
                                               Statements.Referred(left[k], fk) in gone
    {
      var fk :| fk in schema.keys && fk.rule.SetNull? && PointsInto(fk, k, left[k], gone) && fk.column == c;
      assert Statements.Refers(k, left[k], fk) && Statements.Referred(left[k], fk) in gone;
    }
    if c :| c in cleared {
      assert c in left[k].refs && c !in left[k].refs - cleared;
    }
  }

  lemma LeftLeadsElsewhere(schema: Schema, rows: Rows, tables: seq<Table>, k: Key, fk: ForeignKey)
    requires !Refused(schema, rows, tables) && Cascaded(schema, rows, Gone(schema, rows, tables)) == {}
    requires k in Left(schema, rows, tables) && fk in schema.keys
    requires Statements.Refers(k, Left(schema, rows, tables)[k], fk)
    ensures Statements.Referred(Left(schema, rows, tables)[k], fk) !in Gone(schema, rows, tables)
  {
    var gone, row := Gone(schema, rows, tables), Left(schema, rows, tables)[k];
    assert k !in Cascaded(schema, rows, gone);
    assert Statements.Referred(row, fk) in gone ==> PointsInto(fk, k, row, gone) && PointsInto(fk, k, rows[k], gone);
  }

  // --- What the constraints of the schema give --------------------------------------------

  /**
    The deriving columns are NOT NULL foreign keys, and so is `tenant_id` outside the child tables:
    each child row without a tenant has its parent, and a row of another table has its tenant.
   */
  ghost predicate ConstraintsHold(plan: seq<Table>, rows: Rows) {
    forall k | k in rows && rows[k].tenant.None? ::
      k.table in plan && ParentOf(plan, rows, k).Some? && ParentOf(plan, rows, k).value in rows
  }

  lemma {:induction false} EveryRowHasTenant(plan: seq<Table>, rows: Rows, k: Key)
    requires Ordered(plan) && ConstraintsHold(plan, rows) && k in rows
    ensures TenantOf(plan, rows, k).Some?
    decreases if k.table in plan then 1 + IndexOf(plan, k.table) else 0
  {
    if k.table in plan && rows[k].tenant.None? {
      var p := ParentOf(plan, rows, k).value;
      if p.table in plan {
        ParentComesBefore(plan, k.table);
      }
      EveryRowHasTenant(plan, rows, p);
    }
  }

  /** All rows with the tenant found on the way to their roots. */
  ghost function Filled(plan: seq<Table>, rows: Rows): Rows
    requires Ordered(plan)
  {
    map k | k in rows :: if k.table in plan then rows[k].(tenant := TenantOf(plan, rows, k)) else rows[k]
  }

  /** No DELETE of the first `n` is refused. */
  ghost predicate Accepted(schema: Schema, rows: Rows, order: seq<Table>, n: nat)
    requires n <= |order|
  {
    forall i | 0 <= i <= n :: !Refused(schema, rows, order[..i])
  }

  lemma AcceptedOneMore(schema: Schema, rows: Rows, order: seq<Table>, i: nat)
    requires i < |order| && Accepted(schema, rows, order, i)
    ensures Accepted(schema, rows, order, i + 1) <==> !Refused(schema, rows, order[..i + 1])
  {
  }

  lemma AcceptedStep(schema: Schema, rows: Rows, order: seq<Table>, i: nat, now: Rows, after: Rows, ok: bool)
    requires OneKeyPerColumn(schema) && i < |order| && Accepted(schema, rows, order, i)
    requires now == Left(schema, rows, order[..i])
    requires var gone := CascadeClosure(schema, now, Ownerless(now, [order[i]]));
             after == WithoutRefs(schema, now - gone, gone) && (ok <==> !Dangles(schema, after, gone))
    ensures ok <==> Accepted(schema, rows, order, i + 1)
    ensures after == Left(schema, rows, order[..i + 1])
  {
    assert !Refused(schema, rows, order[..i]);
    SweepGrows(schema, rows, order[..i], order[i]);
    assert order[..i + 1] == order[..i] + [order[i]];
    AcceptedOneMore(schema, rows, order, i);
  }

  lemma AcceptedPrefix(schema: Schema, rows: Rows, order: seq<Table>, n: nat)
    requires n <= |order| && !Accepted(schema, rows, order, n)
    ensures !Accepted(schema, rows, order, |order|)
  {
  }

  /** Under the constraints the DELETEs find nothing to delete, whatever foreign keys there are. */
  lemma NothingIsOwnerless(schema: Schema, plan: seq<Table>, order: seq<Table>, rows: Rows)
    requires Ordered(plan) && ConstraintsHold(plan, rows) && forall t | t in order :: t in plan
    ensures Accepted(schema, Filled(plan, rows), order, |order|)
    ensures Left(schema, Filled(plan, rows), order) == Filled(plan, rows)
    ensures forall k | k in rows :: Filled(plan, rows)[k].tenant.Some?
  {
    var filled := Filled(plan, rows);
    forall k | k in rows ensures filled[k].tenant.Some? {
      EveryRowHasTenant(plan, rows, k);
    }
    forall i | 0 <= i <= |order|
      ensures Gone(schema, filled, order[..i]) == {} && !Refused(schema, filled, order[..i])
    {
      NothingToSweep(schema, filled, order[..i]);
    }
    NothingToSweep(schema, filled, order);
  }

  lemma NothingToSweep(schema: Schema, rows: Rows, tables: seq<Table>)
    requires Ownerless(rows, tables) == {}
    ensures Gone(schema, rows, tables) == {} && !Refused(schema, rows, tables) && Left(schema, rows, tables) == rows
  {
    assert Cascaded(schema, rows, {}) == {};
    assert rows - {} == rows;
    forall k | k in rows ensures rows[k].refs - Cleared(schema, k, rows[k], {}) == rows[k].refs {
      assert Cleared(schema, k, rows[k], {}) == {};
    }
  }

  // --- The migration ----------------------------------------------------------------------

  /** The DELETEs visit tables that the UPDATEs fill. */
  lemma OrdersAgree()
    ensures forall t | t in DELETE_ORDER :: t in FILL_ORDER
  {
    assert DELETE_ORDER == [FILL_ORDER[11]] + FILL_ORDER[..11];
  }

  class Database {
    var rows: Rows

    constructor (rows: Rows)
      ensures this.rows == rows
    {
      this.rows := rows;
    }

    method Backfill(plan: seq<Table>)
      requires Ordered(plan)
      modifies this
      ensures rows == Filled(plan, old(rows))
    {
      for i := 0 to |plan|
        invariant FilledUpTo(plan, old(rows), plan[..i], rows)
      {
        FillReachesRoots(plan, old(rows), i, rows);
        rows := Fill(rows, plan[i]);
      }
      assert plan[..|plan|] == plan;
    }

    /** The DELETEs in order; a refused one fails the migration. */
    method Sweep(schema: Schema, order: seq<Table>) returns (ok: bool)
      requires OneKeyPerColumn(schema)
      modifies this
      ensures ok <==> Accepted(schema, old(rows), order, |order|)
      ensures ok ==> rows == Left(schema, old(rows), order)
    {
      ghost var was := rows;
      NothingToSweep(schema, rows, []);
      assert order[..0] == [];
      ok := true;
      for i := 0 to |order|
        invariant ok && Accepted(schema, was, order, i) && rows == Left(schema, was, order[..i])
      {
        ghost var now := rows;
        var gone := CascadeClosure(schema, rows, Ownerless(rows, [order[i]]));
        var after := WithoutRefs(schema, rows - gone, gone);
        ok := !Dangles(schema, after, gone);
        AcceptedStep(schema, was, order, i, now, after, ok);
        if !ok {
          AcceptedPrefix(schema, was, order, i + 1);
          return;
        }
        rows := after;
      }
      assert order[..|order|] == order;
    }

    /**
      Fails as a whole, and only then, when a DELETE is refused; otherwise the rows left are those
      that no chain of cascades connects with an ownerless one. Under the constraints all are left.
     */
    method Upgrade(schema: Schema) returns (ok: bool)
      requires OneKeyPerColumn(schema)
      modifies this
      ensures Ordered(FILL_ORDER)
      ensures ok <==> Accepted(schema, Filled(FILL_ORDER, old(rows)), DELETE_ORDER, |DELETE_ORDER|)
      ensures rows == if ok then Left(schema, Filled(FILL_ORDER, old(rows)), DELETE_ORDER) else old(rows)
      ensures ConstraintsHold(FILL_ORDER, old(rows)) ==>
                ok && rows == Filled(FILL_ORDER, old(rows)) && forall k | k in rows :: rows[k].tenant.Some?
    {
      FillOrderIsOrdered();
      OrdersAgree();
      var saved := rows;
      Backfill(FILL_ORDER);
      if ConstraintsHold(FILL_ORDER, saved) {
        NothingIsOwnerless(schema, FILL_ORDER, DELETE_ORDER, saved);
      }
      ok := Sweep(schema, DELETE_ORDER);
      if !ok {
        rows := saved;
      }
    }
  }
}
