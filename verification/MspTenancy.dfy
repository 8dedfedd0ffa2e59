/**
  The `msp_id` column of 0097: its backfill from `tenants.msp_id`, and the agreement between the
  two that every run of correctly scoped client sessions keeps.
 */
module MspTenancy {
  import opened Wrappers
  import opened RowSecurity
  import opened Isolation
  import opened Noninterference

  /** Each row carries the MSP its tenant maps to. */
  ghost predicate MspAgrees(tenants: map<Uuid, Option<Uuid>>, rows: Rows) {
    forall k | k in rows ::
      rows[k].tenant.Some? && rows[k].tenant.value in tenants && rows[k].msp == tenants[rows[k].tenant.value]
  }

  // --- Backfill ---------------------------------------------------------------------------

  const DEFAULT_SLUG := "default-msp"

  function FilledRow(tenants: map<Uuid, Option<Uuid>>, row: Row): Row {
    if row.msp.None? && row.tenant.Some? && row.tenant.value in tenants
    then row.(msp := tenants[row.tenant.value]) else row
  }

  class Database {
    var msps: map<Uuid, string>
    var tenants: map<Uuid, Option<Uuid>>
    var rows: Rows

    constructor (msps: map<Uuid, string>, tenants: map<Uuid, Option<Uuid>>, rows: Rows)
      ensures this.msps == msps && this.tenants == tenants && this.rows == rows
    {
      this.msps, this.tenants, this.rows := msps, tenants, rows;
    }

    /** Step 2 of the upgrade; `fresh_` is the uuid drawn for the default MSP. */
    method MapTenants(fresh_: Uuid)
      requires fresh_ !in msps
      modifies `msps, `tenants
      ensures msps == if old(tenants) != map[] && DEFAULT_SLUG !in old(msps).Values
                      then old(msps)[fresh_ := DEFAULT_SLUG] else old(msps)
      ensures tenants.Keys == old(tenants).Keys
      ensures forall t | t in tenants ::
                if old(tenants)[t].Some? then tenants[t] == old(tenants)[t]
                else tenants[t].Some? && tenants[t].value in msps && msps[tenants[t].value] == DEFAULT_SLUG
    {
      if tenants != map[] && DEFAULT_SLUG !in msps.Values {
        msps := msps[fresh_ := DEFAULT_SLUG];
        assert fresh_ in msps && msps[fresh_] == DEFAULT_SLUG;
      }
      if DEFAULT_SLUG in msps.Values {
        var d :| d in msps && msps[d] == DEFAULT_SLUG;
        tenants := map t | t in tenants :: if tenants[t].None? then Some(d) else tenants[t];
      }
    }

    /** Step 3 of the upgrade, table by table. */
    method FillRows(tables: seq<Table>)
      modifies `rows
      ensures rows.Keys == old(rows).Keys
      ensures forall k | k in rows ::
                rows[k] == if k.table in tables then FilledRow(tenants, old(rows)[k]) else old(rows)[k]
    {
      for i := 0 to |tables|
        invariant rows.Keys == old(rows).Keys
        invariant forall k | k in rows ::
          rows[k] == if k.table in tables[..i] then FilledRow(tenants, old(rows)[k]) else old(rows)[k]
      {
        rows := map k | k in rows :: if k.table == tables[i] then FilledRow(tenants, rows[k]) else rows[k];
        assert tables[..i + 1] == tables[..i] + [tables[i]];
      }
      assert tables[..|tables|] == tables;
    }

    method Upgrade(fresh_: Uuid, tables: seq<Table>)
      requires fresh_ !in msps
      requires forall k | k in rows :: k.table in tables
      modifies this
      ensures tenants.Keys == old(tenants).Keys
      ensures forall t | t in tenants ::
                if old(tenants)[t].Some? then tenants[t] == old(tenants)[t]
                else tenants[t].Some? && tenants[t].value in msps && msps[tenants[t].value] == DEFAULT_SLUG
      ensures Backfilled(tenants, old(rows), rows)
    {
      MapTenants(fresh_);
      FillRows(tables);
    }
  }

  /** NOT NULL and the foreign key on `tenant_id`. */
  ghost predicate TenantsExist(tenants: map<Uuid, Option<Uuid>>, rows: Rows) {
    forall k | k in rows :: rows[k].tenant.Some? && rows[k].tenant.value in tenants
  }

  ghost predicate Backfilled(tenants: map<Uuid, Option<Uuid>>, before: Rows, after: Rows) {
    after.Keys == before.Keys && forall k | k in before :: after[k] == FilledRow(tenants, before[k])
  }

  /** The backfill reaches agreement exactly when the `msp_id` values it found already agreed. */
  lemma BackfillAgreesIff(tenants: map<Uuid, Option<Uuid>>, before: Rows, after: Rows)
    requires TenantsExist(tenants, before) && Backfilled(tenants, before, after)
    ensures MspAgrees(tenants, after) <==>
            forall k | k in before :: before[k].msp.Some? ==> before[k].msp == tenants[before[k].tenant.value]
  {
    assert forall k | k in before :: before[k].msp.Some? ==> after[k] == before[k];
    assert forall k | k in before :: before[k].msp.None? ==> after[k].msp == tenants[before[k].tenant.value];
    if MspAgrees(tenants, after) {
      forall k | k in before && before[k].msp.Some?
        ensures before[k].msp == tenants[before[k].tenant.value]
      {
        assert k in after;
      }
    }
  }

  // --- Runs -------------------------------------------------------------------------------

  /** The tenant a session speaks for: both settings are uuids and the tenant maps to the MSP. */
  function SpeaksFor(tenants: map<Uuid, Option<Uuid>>, s: Session): Option<Uuid> {
    if s.msp.Scope? && s.tenant.Scope? && s.tenant.id in tenants && tenants[s.tenant.id] == Some(s.msp.id)
    then Some(s.tenant.id) else None
  }

  /** The scope a session binds is its tenant's MSP, whenever both ids exist. */
  ghost predicate ScopeAgrees(w: World, s: Session) {
    s.msp.Scope? && s.tenant.Scope? && s.tenant.id in w.tenants && s.msp.id in w.msps
    ==> w.tenants[s.tenant.id] == Some(s.msp.id)
  }

  /** The foreign key of `tenants.msp_id` holds. */
  ghost predicate Sane(w: World) {
    && (forall t | t in w.tenants && w.tenants[t].Some? :: w.tenants[t].value in w.msps)
    && WellFormed(w.schema)
  }

  /** CASCADE keys, each starting at the table where the one before it ends, from table `root` on. */
  ghost predicate IsChain(schema: Schema, root: Table, path: seq<ForeignKey>) {
    forall i: nat | i < |path| :: IsLink(schema, root, path, i)
  }

  ghost predicate IsLink(schema: Schema, root: Table, path: seq<ForeignKey>, i: nat)
    requires i < |path|
  {
    path[i] in schema.keys && path[i].rule.Cascade? && path[i].parent == TableAt(root, path, i)
  }

  /** The table reached by the first `i` keys. */
  function TableAt(root: Table, path: seq<ForeignKey>, i: nat): Table
    requires i <= |path|
  {
    if i == 0 then root else path[i - 1].child
  }

  /** One of the keys has no twin: a cascade along the chain may leave its tenant there. */
  ghost predicate Crosses(schema: Schema, path: seq<ForeignKey>) {
    exists i | 0 <= i < |path| :: path[i] !in schema.composite
  }

  /** Some cascade that may have left its tenant takes rows of table `t`. */
  ghost predicate IsCrossed(schema: Schema, t: Table) {
    exists root, path: seq<ForeignKey> ::
      IsChain(schema, root, path) && Crosses(schema, path) && TableAt(root, path, |path|) == t
  }

  /** The rows that a session has `fk` cleared in are of its own tenant. */
  ghost predicate Confined(schema: Schema, fk: ForeignKey) {
    fk in schema.composite && !IsCrossed(schema, fk.parent)
  }

  /** The MSP a row of tenant `u` ends with when a session of MSP `m` has one of its columns cleared. */
  function MspAfter(w: World, u: Uuid, m: Uuid): Option<Uuid>
    requires u in w.tenants
  {
    if w.tenants[u].Some? then w.tenants[u] else Some(m)
  }

  /** Clearing `fk` leaves a row to derive its tenant along `g`, which may lead into another one. */
  predicate Redirects(schema: Schema, fk: ForeignKey, g: ForeignKey) {
    && fk in schema.keys && fk.rule.SetNull? && g in schema.keys && g !in schema.composite
    && g.child == fk.child && Derives(g) && g != fk
  }

  /**
    What a session of tenant `t` and MSP `m` clears by deleting its rows keeps the agreement: no row
    of an unmapped tenant is cleared, and a row moves between tenants of one MSP only. A key that is
    not confined may clear rows of any tenant.
   */
  ghost predicate ClearingAgrees(w: World, t: Uuid, m: Uuid) {
    && (forall fk, u | fk in w.schema.keys && fk.rule.SetNull? && !Confined(w.schema, fk) && u in w.tenants ::
          w.tenants[u].Some?)
    && forall fk, g, u, v | Redirects(w.schema, fk, g) && u in w.tenants && v in w.tenants &&
                            (Confined(w.schema, fk) ==> u == t) ::
         w.tenants[v] == MspAfter(w, u, m)
  }

  /** A session whose scope is right, and whose deletes clear nothing into disagreement. */
  ghost predicate KeepsMapping(w: World, s: Session) {
    ScopeAgrees(w, s) && (SpeaksFor(w.tenants, s).Some? ==> ClearingAgrees(w, s.tenant.id, s.msp.id))
  }

  /** With all twins in place, as 0082 leaves them, the scope is all that matters. */
  lemma ScopeIsEnough(w: World, s: Session)
    requires WellFormed(w.schema) && AllComposite(w.schema)
    ensures KeepsMapping(w, s) <==> ScopeAgrees(w, s)
  {
    forall fk | fk in w.schema.keys ensures Confined(w.schema, fk) {
      forall root, path | IsChain(w.schema, root, path) ensures !Crosses(w.schema, path) {
        NothingCrosses(w.schema, root, path);
      }
    }
  }

  lemma NothingCrosses(schema: Schema, root: Table, path: seq<ForeignKey>)
    requires AllComposite(schema) && IsChain(schema, root, path)
    ensures !Crosses(schema, path)
  {
    forall i: nat | i < |path| ensures path[i] in schema.composite {
      assert IsLink(schema, root, path, i);
    }
  }

  ghost predicate KeepsAgreement(w: World, s: Session) {
    forall rows, stmt | Consistent(w.schema, rows) && MspAgrees(w.tenants, rows) ::
      MspAgrees(w.tenants, Exec(w, rows, s, stmt).rows)
  }

  ghost predicate RowAgrees(tenants: map<Uuid, Option<Uuid>>, row: Row) {
    row.tenant.Some? && row.tenant.value in tenants && row.msp == tenants[row.tenant.value]
  }

  // --- Where cascades lead ----------------------------------------------------------------

  lemma OneMoreKey(schema: Schema, root: Table, path: seq<ForeignKey>, fk: ForeignKey)
    requires IsChain(schema, root, path) && fk in schema.keys && fk.rule.Cascade? && fk.parent == TableAt(root, path, |path|)
    ensures IsChain(schema, root, path + [fk]) && TableAt(root, path + [fk], |path| + 1) == fk.child
    ensures Crosses(schema, path) || fk !in schema.composite ==> Crosses(schema, path + [fk])
  {
    var more := path + [fk];
    forall i: nat | i < |more| ensures IsLink(schema, root, more, i) {
      if i < |path| { assert IsLink(schema, root, path, i); }
    }
    if i :| 0 <= i < |path| && path[i] !in schema.composite { assert more[i] !in schema.composite; }
    assert more[|path|] == fk;
  }

  lemma CrossesOn(schema: Schema, fk: ForeignKey)
    requires fk in schema.keys && fk.rule.Cascade? && (fk !in schema.composite || IsCrossed(schema, fk.parent))
    ensures IsCrossed(schema, fk.child)
  {
    var root, path := fk.parent, [];
    if IsCrossed(schema, fk.parent) {
      root, path :| IsChain(schema, root, path) && Crosses(schema, path) && TableAt(root, path, |path|) == fk.parent;
    }
    OneMoreKey(schema, root, path, fk);
  }

  /** Each row of `gone` is of tenant `t`, or in a table that cascades reach from other tenants. */
  ghost predicate Within(schema: Schema, rows: Rows, gone: set<Key>, t: Uuid) {
    forall k | k in gone :: k in rows && (rows[k].tenant == Some(t) || IsCrossed(schema, k.table))
  }

  lemma {:induction false} CascadeStaysWithin(schema: Schema, rows: Rows, gone: set<Key>, t: Uuid)
    requires Consistent(schema, rows) && Within(schema, rows, gone, t)
    ensures Within(schema, rows, CascadeClosure(schema, rows, gone), t)
    decreases rows.Keys - gone
  {
    var next := Cascaded(schema, rows, gone);
    if next != {} {
      assert next <= rows.Keys - gone;
      forall k | k in next ensures rows[k].tenant == Some(t) || IsCrossed(schema, k.table) {
        var fk :| fk in schema.keys && fk.rule.Cascade? && PointsInto(fk, k, rows[k], gone);
        assert Agrees(schema, rows, k, fk);
        if fk !in schema.composite || IsCrossed(schema, fk.parent) { CrossesOn(schema, fk); }
      }
      CascadeStaysWithin(schema, rows, gone + next, t);
    }
  }

  // --- What a session keeps ---------------------------------------------------------------

  lemma ClearedAgrees(w: World, rows: Rows, s: Session, gone: set<Key>, k: Key)
    requires WellFormed(w.schema) && Consistent(w.schema, rows) && MspAgrees(w.tenants, rows)
    requires SpeaksFor(w.tenants, s).Some? && ClearingAgrees(w, s.tenant.id, s.msp.id)
    requires Within(w.schema, rows, gone, s.tenant.id) && k in rows - gone
    ensures RowAgrees(w.tenants, DetachedRow(w, rows - gone, s, gone, k))
  {
    var cleared := Cleared(w.schema, k, rows[k], gone);
    if cleared != {} {
      var c :| c in cleared;
      var fk :| fk in w.schema.keys && fk.rule.SetNull? && PointsInto(fk, k, rows[k], gone) && fk.column == c;
      assert Agrees(w.schema, rows, k, fk);
      var u, row := rows[k].tenant.value, rows[k].(refs := rows[k].refs - cleared);
      assert Confined(w.schema, fk) ==> u == s.tenant.id;
      assert w.tenants[u].Some?;
      var p := ParentKey(k.table, row);
      if p.Some? && p.value in rows - gone {
        assert HasDerivingKey(w.schema, fk.child);
        var g :| g in w.schema.keys && g.child == k.table && Derives(g);
        assert Agrees(w.schema, rows, k, g);
        assert g !in w.schema.composite ==> Redirects(w.schema, fk, g);
        assert w.tenants[rows[p.value].tenant.value] == MspAfter(w, u, s.msp.id);
      }
    }
  }

  lemma DeleteKeepsMspAgreement(w: World, rows: Rows, s: Session, where_: set<Key>)
    requires Sane(w) && Consistent(w.schema, rows) && MspAgrees(w.tenants, rows) && KeepsMapping(w, s)
    ensures MspAgrees(w.tenants, ExecDelete(w, rows, s, where_).rows)
  {
    var roots := Targets(rows, s, where_);
    var gone := CascadeClosure(w.schema, rows, roots);
    if r :| r in roots {
      forall k | k in roots ensures ScopeOf(s.tenant).Some? && rows[k].tenant == ScopeOf(s.tenant) {
        AdmittedRow(s, rows[k]);
      }
      AdmittedRow(s, rows[r]);
      assert SpeaksFor(w.tenants, s).Some?;
      CascadeStaysWithin(w.schema, rows, roots, s.tenant.id);
      forall k | k in rows - gone ensures RowAgrees(w.tenants, DetachedRow(w, rows - gone, s, gone, k)) {
        ClearedAgrees(w, rows, s, gone, k);
      }
    } else {
      assert gone == {} && Detached(w, rows - {}, s, {}) == rows;
    }
  }

  lemma StepKeepsMspAgreement(w: World, rows: Rows, s: Session, stmt: Statement)
    requires Sane(w) && Consistent(w.schema, rows) && MspAgrees(w.tenants, rows) && KeepsMapping(w, s)
    ensures MspAgrees(w.tenants, Exec(w, rows, s, stmt).rows)
  {
    match stmt
    case Insert(k, row) => AdmittedRow(s, BeforeRow(w, rows, s, Client, k.table, row));
    case Update(k, row) => AdmittedRow(s, BeforeRow(w, rows, s, Client, k.table, row));
    case Delete(where_) => DeleteKeepsMspAgreement(w, rows, s, where_);
  }

  // --- Inputs on which the agreement is lost ----------------------------------------------

  lemma Disagrees(w: World, s: Session, rows: Rows, stmt: Statement, k: Key)
    requires Consistent(w.schema, rows) && MspAgrees(w.tenants, rows)
    requires k in Exec(w, rows, s, stmt).rows && !RowAgrees(w.tenants, Exec(w, rows, s, stmt).rows[k])
    ensures !KeepsAgreement(w, s)
  {
  }

  /** A scope with the wrong MSP: the session stores a row of its tenant under it. */
  lemma WrongScopeDisagrees(w: World, s: Session)
    requires !ScopeAgrees(w, s)
    ensures !KeepsAgreement(w, s)
  {
    var k := Key(OtherTable("audit_logs"), 0);
    var row := Row(Some(s.tenant.id), Some(s.msp.id), map[], "");
    AdmittedRow(s, row);
    assert BeforeRow(w, map[], s, Client, k.table, row) == row;
    assert Exec(w, map[], s, Insert(k, row)) == Outcome(map[k := row], Done(1));
    Disagrees(w, s, map[], Insert(k, row), k);
  }

  /** A row of tenant `u` with the MSP it maps to. */
  ghost function RowFor(w: World, u: Uuid, refs: map<Column, Uuid>): Row
    requires u in w.tenants
  {
    Row(Some(u), w.tenants[u], refs, "")
  }

  function KeyAt(root: Table, path: seq<ForeignKey>, i: nat): Key
    requires i <= |path|
  {
    Key(TableAt(root, path, i), i)
  }

  function Links(path: seq<ForeignKey>, i: nat): map<Column, Uuid>
    requires i <= |path|
  {
    if i == 0 then map[] else map[path[i - 1].column := i - 1]
  }

  ghost function KeysOf(root: Table, path: seq<ForeignKey>): set<Key> {
    set i: nat | i <= |path| :: KeyAt(root, path, i)
  }

  /** A row for each table of the chain: the first `n` of tenant `t`, those after them of tenant `u`. */
  ghost function Chain(w: World, root: Table, path: seq<ForeignKey>, n: nat, t: Uuid, u: Uuid): Rows
    requires t in w.tenants && u in w.tenants
  {
    map k | k in KeysOf(root, path) && k.id <= |path| :: RowFor(w, if k.id < n then t else u, Links(path, k.id))
  }

  /** The way from a row of tenant `t` to one of tenant `u` under which a child of `u` hangs by `fk`. */
  ghost predicate LeadsTo(schema: Schema, fk: ForeignKey, root: Table, path: seq<ForeignKey>, n: nat, t: Uuid, u: Uuid) {
    && IsChain(schema, root, path) && TableAt(root, path, |path|) == fk.parent
    && 0 < n <= |path| + 1
    && (n <= |path| ==> path[n - 1] !in schema.composite)
    && (n == |path| + 1 && fk in schema.composite ==> u == t)
  }

  lemma LeadsToAny(schema: Schema, fk: ForeignKey, t: Uuid, u: Uuid)
    returns (root: Table, path: seq<ForeignKey>, n: nat)
    requires Confined(schema, fk) ==> u == t
    ensures LeadsTo(schema, fk, root, path, n, t, u)
  {
    root, path, n := fk.parent, [], 1;
    if IsCrossed(schema, fk.parent) {
      root, path :| IsChain(schema, root, path) && Crosses(schema, path) && TableAt(root, path, |path|) == fk.parent;
      var i :| 0 <= i < |path| && path[i] !in schema.composite;
      n := i + 1;
    }
  }

  lemma KeysOfChain(root: Table, path: seq<ForeignKey>, k: Key)
    ensures k in KeysOf(root, path) <==> k.id <= |path| && k == KeyAt(root, path, k.id)
  {
  }

  /** `left` is below the chain: later ids, and nothing of it goes along by a CASCADE. */
  ghost predicate Below(schema: Schema, left: Rows, root: Table, path: seq<ForeignKey>) {
    && (forall k | k in left :: k.id > |path|)
    && forall k, fk | k in left && fk in schema.keys && fk.rule.Cascade? ::
         !PointsInto(fk, k, left[k], KeysOf(root, path))
  }

  lemma {:induction false} ChainIsTaken(schema: Schema, rows: Rows, root: Table, path: seq<ForeignKey>, i: nat)
    requires IsChain(schema, root, path) && i <= |path|
    requires forall j: nat | j <= |path| :: KeyAt(root, path, j) in rows && rows[KeyAt(root, path, j)].refs == Links(path, j)
    ensures KeyAt(root, path, i) in CascadeClosure(schema, rows, {KeyAt(root, path, 0)})
  {
    var gone := CascadeClosure(schema, rows, {KeyAt(root, path, 0)});
    ClosureIsClosed(schema, rows, {KeyAt(root, path, 0)});
    if i > 0 {
      ChainIsTaken(schema, rows, root, path, i - 1);
      var k := KeyAt(root, path, i);
      assert IsLink(schema, root, path, i - 1);
      assert PointsInto(path[i - 1], k, rows[k], gone);
      assert k !in Cascaded(schema, rows, gone);
    }
  }

  /** Deleting the first row of the chain takes the chain and nothing below it. */
  lemma ChainIsClosure(w: World, root: Table, path: seq<ForeignKey>, n: nat, t: Uuid, u: Uuid, left: Rows)
    requires IsChain(w.schema, root, path) && t in w.tenants && u in w.tenants && Below(w.schema, left, root, path)
    ensures var rows := Chain(w, root, path, n, t, u) + left;
            && CascadeClosure(w.schema, rows, {KeyAt(root, path, 0)}) == KeysOf(root, path)
            && rows - KeysOf(root, path) == left
  {
    var chain, all := Chain(w, root, path, n, t, u), KeysOf(root, path);
    var rows := chain + left;
    forall k ensures k in all <==> k in chain { KeysOfChain(root, path, k); }
    forall k | k in chain ensures k !in left && rows[k] == chain[k] { KeysOfChain(root, path, k); }
    assert rows - all == left;
    forall j: nat | j <= |path| ensures KeyAt(root, path, j) in rows && rows[KeyAt(root, path, j)].refs == Links(path, j) {
      KeysOfChain(root, path, KeyAt(root, path, j));
    }
    forall k | k in all ensures k in CascadeClosure(w.schema, rows, {KeyAt(root, path, 0)}) {
      KeysOfChain(root, path, k);
      ChainIsTaken(w.schema, rows, root, path, k.id);
    }
    KeysOfChain(root, path, KeyAt(root, path, 0));
    forall k | k in rows && k !in all ensures k !in Cascaded(w.schema, rows, all) {
      assert k in left && rows[k] == left[k];
    }
    assert Cascaded(w.schema, rows, all) == {};
    ClosureIsLeast(w.schema, rows, {KeyAt(root, path, 0)}, all);
  }

  lemma ChainAt(w: World, root: Table, path: seq<ForeignKey>, n: nat, t: Uuid, u: Uuid, i: nat)
    requires t in w.tenants && u in w.tenants && i <= |path|
    ensures KeyAt(root, path, i) in Chain(w, root, path, n, t, u)
    ensures Chain(w, root, path, n, t, u)[KeyAt(root, path, i)] == RowFor(w, if i < n then t else u, Links(path, i))
  {
    KeysOfChain(root, path, KeyAt(root, path, i));
  }

  /** The only reference of a row of the chain is the key that leads there. */
  lemma OnlyLink(schema: Schema, root: Table, path: seq<ForeignKey>, i: nat, h: ForeignKey)
    requires OneKeyPerColumn(schema) && IsChain(schema, root, path) && i <= |path|
    requires h in schema.keys && h.child == TableAt(root, path, i) && h.column in Links(path, i)
    ensures i > 0 && h == path[i - 1] && Key(h.parent, Links(path, i)[h.column]) == KeyAt(root, path, i - 1)
  {
    assert IsLink(schema, root, path, i - 1);
  }

  /** Each reference of the chain finds its row, and across tenants only where there is no twin. */
  lemma ChainAgrees(w: World, fk: ForeignKey, root: Table, path: seq<ForeignKey>, n: nat, t: Uuid, u: Uuid, rows: Rows,
      i: nat, h: ForeignKey)
    requires Sane(w) && t in w.tenants && u in w.tenants && LeadsTo(w.schema, fk, root, path, n, t, u)
    requires Extends(Chain(w, root, path, n, t, u), rows) && i <= |path|
    requires h in w.schema.keys && h.child == TableAt(root, path, i) && h.column in Links(path, i)
    ensures KeyAt(root, path, i) in rows && h.column in rows[KeyAt(root, path, i)].refs
    ensures Agrees(w.schema, rows, KeyAt(root, path, i), h)
  {
    OnlyLink(w.schema, root, path, i, h);
    ChainAt(w, root, path, n, t, u, i);
    ChainAt(w, root, path, n, t, u, i - 1);
  }

  /** `k` hangs by `fk` under the last row of the chain, or refers without a twin to a row beside it. */
  ghost predicate HangsBy(w: World, fk: ForeignKey, last: Uuid, u: Uuid, left: Rows, k: Key, h: ForeignKey)
    requires k in left && h.column in left[k].refs
  {
    || (h == fk && left[k].refs[h.column] == last && left[k].tenant == Some(u))
    || (h !in w.schema.composite && Key(h.parent, left[k].refs[h.column]) in left)
  }

  /** The chain, a child under its last row, and perhaps a row that the child would derive its tenant from. */
  ghost predicate Hangs(w: World, fk: ForeignKey, root: Table, path: seq<ForeignKey>, n: nat, t: Uuid, u: Uuid, left: Rows) {
    && Sane(w) && t in w.tenants && u in w.tenants && LeadsTo(w.schema, fk, root, path, n, t, u)
    && Below(w.schema, left, root, path) && MspAgrees(w.tenants, left)
    && forall k, h | k in left && h in w.schema.keys && h.child == k.table && h.column in left[k].refs ::
         HangsBy(w, fk, |path|, u, left, k, h)
  }

  lemma ChildAgrees(w: World, fk: ForeignKey, root: Table, path: seq<ForeignKey>, n: nat, t: Uuid, u: Uuid, left: Rows,
      rows: Rows, k: Key, h: ForeignKey)
    requires t in w.tenants && u in w.tenants && LeadsTo(w.schema, fk, root, path, n, t, u)
    requires Extends(Chain(w, root, path, n, t, u), rows) && Extends(left, rows) && w.schema.composite <= w.schema.keys
    requires k in left && h.column in left[k].refs && HangsBy(w, fk, |path|, u, left, k, h)
    ensures k in rows && h.column in rows[k].refs && Agrees(w.schema, rows, k, h)
  {
    ChainAt(w, root, path, n, t, u, |path|);
  }

  lemma ChainBeside(w: World, root: Table, path: seq<ForeignKey>, n: nat, t: Uuid, u: Uuid, left: Rows, rows: Rows)
    requires t in w.tenants && u in w.tenants && Below(w.schema, left, root, path) && MspAgrees(w.tenants, left)
    requires rows == Chain(w, root, path, n, t, u) + left
    ensures Extends(Chain(w, root, path, n, t, u), rows) && Extends(left, rows) && MspAgrees(w.tenants, rows)
    ensures forall k | k in Chain(w, root, path, n, t, u) :: k.id <= |path| && k == KeyAt(root, path, k.id)
  {
    forall k | k in Chain(w, root, path, n, t, u) ensures k !in left && k == KeyAt(root, path, k.id) {
      KeysOfChain(root, path, k);
    }
  }

  lemma HangingIsConsistent(w: World, fk: ForeignKey, root: Table, path: seq<ForeignKey>, n: nat, t: Uuid, u: Uuid,
      left: Rows, rows: Rows)
    requires Hangs(w, fk, root, path, n, t, u, left) && rows == Chain(w, root, path, n, t, u) + left
    ensures Consistent(w.schema, rows) && MspAgrees(w.tenants, rows)
  {
    var chain := Chain(w, root, path, n, t, u);
    ChainBeside(w, root, path, n, t, u, left, rows);
    forall k, h | k in rows && h in w.schema.keys && h.child == k.table && h.column in rows[k].refs
      ensures Agrees(w.schema, rows, k, h)
    {
      if k in chain {
        ChainAt(w, root, path, n, t, u, k.id);
        ChainAgrees(w, fk, root, path, n, t, u, rows, k.id, h);
      } else {
        ChildAgrees(w, fk, root, path, n, t, u, left, rows, k, h);
      }
    }
  }

  /** When the session deletes the first row, the child is cleared, and ends in disagreement. */
  lemma HangingDisagrees(w: World, s: Session, fk: ForeignKey, root: Table, path: seq<ForeignKey>, n: nat, u: Uuid,
      left: Rows, after: Rows, child: Key)
    requires SpeaksFor(w.tenants, s).Some? && Hangs(w, fk, root, path, n, s.tenant.id, u, left)
    requires after == Detached(w, left, s, KeysOf(root, path))
    requires !Dangles(w.schema, after, KeysOf(root, path)) && UpdatesHold(w, left, after)
    requires child in after && !RowAgrees(w.tenants, after[child])
    ensures !KeepsAgreement(w, s)
  {
    var rows := Chain(w, root, path, n, s.tenant.id, u) + left;
    var first := KeyAt(root, path, 0);
    HangingIsConsistent(w, fk, root, path, n, s.tenant.id, u, left, rows);
    ChainIsClosure(w, root, path, n, s.tenant.id, u, left);
    KeysOfChain(root, path, first);
    AdmittedRow(s, rows[first]);
    DeleteOfOne(w, rows, s, first, KeysOf(root, path));
    Disagrees(w, s, rows, Delete({first}), child);
  }

  /** A key that is not confined: the row of an unmapped tenant that loses its reference gets the session's MSP. */
  lemma UnmappedRowIsFilled(w: World, s: Session, fk: ForeignKey, u: Uuid)
    requires Sane(w) && SpeaksFor(w.tenants, s).Some?
    requires fk in w.schema.keys && fk.rule.SetNull? && !Confined(w.schema, fk) && u in w.tenants && w.tenants[u].None?
    ensures !KeepsAgreement(w, s)
  {
    var root, path, n := LeadsToAny(w.schema, fk, s.tenant.id, u);
    var child := Key(fk.child, |path| + 1);
    var left := map[child := RowFor(w, u, map[fk.column := |path|])];
    var after := map[child := Row(Some(u), Some(s.msp.id), map[], "")];
    FilledChild(w, s, fk, u, root, path, left, after);
    HangingDisagrees(w, s, fk, root, path, n, u, left, after, child);
  }

  lemma FilledChild(w: World, s: Session, fk: ForeignKey, u: Uuid, root: Table, path: seq<ForeignKey>, left: Rows, after: Rows)
    requires Sane(w) && SpeaksFor(w.tenants, s).Some? && TableAt(root, path, |path|) == fk.parent
    requires fk in w.schema.keys && fk.rule.SetNull? && u in w.tenants && w.tenants[u].None?
    requires left == map[Key(fk.child, |path| + 1) := RowFor(w, u, map[fk.column := |path|])]
    requires after == map[Key(fk.child, |path| + 1) := Row(Some(u), Some(s.msp.id), map[], "")]
    ensures after == Detached(w, left, s, KeysOf(root, path))
    ensures !Dangles(w.schema, after, KeysOf(root, path)) && UpdatesHold(w, left, after)
  {
    var child, gone := Key(fk.child, |path| + 1), KeysOf(root, path);
    KeysOfChain(root, path, Key(fk.parent, |path|));
    assert PointsInto(fk, child, left[child], gone);
    assert Cleared(w.schema, child, left[child], gone) == {fk.column};
    assert left[child].refs - {fk.column} == map[];
  }

  /** A child of tenant `u` that would derive its tenant from a row of tenant `v`, and that row. */
  ghost function Moving(w: World, fk: ForeignKey, g: ForeignKey, n: nat, u: Uuid, v: Uuid): Rows
    requires u in w.tenants && v in w.tenants
  {
    map[Key(g.parent, n + 2) := RowFor(w, v, map[]),
        Key(fk.child, n + 1) := RowFor(w, u, map[fk.column := n, g.column := n + 2])]
  }

  ghost function Moved(w: World, s: Session, fk: ForeignKey, g: ForeignKey, n: nat, u: Uuid, v: Uuid): Rows
    requires u in w.tenants && v in w.tenants && s.msp.Scope?
  {
    Moving(w, fk, g, n, u, v)[Key(fk.child, n + 1) := Row(Some(v), MspAfter(w, u, s.msp.id), map[g.column := n + 2], "")]
  }

  lemma MovedChild(w: World, s: Session, fk: ForeignKey, g: ForeignKey, u: Uuid, v: Uuid, root: Table,
      path: seq<ForeignKey>, left: Rows)
    requires Sane(w) && SpeaksFor(w.tenants, s).Some? && Redirects(w.schema, fk, g)
    requires u in w.tenants && v in w.tenants && left == Moving(w, fk, g, |path|, u, v)
    requires TableAt(root, path, |path|) == fk.parent
    ensures Detached(w, left, s, KeysOf(root, path)) == Moved(w, s, fk, g, |path|, u, v)
  {
    var child, gone, q := Key(fk.child, |path| + 1), KeysOf(root, path), Key(g.parent, |path| + 2);
    KeysOfChain(root, path, Key(fk.parent, |path|));
    KeysOfChain(root, path, q);
    assert PointsInto(fk, child, left[child], gone);
    assert Cleared(w.schema, child, left[child], gone) == {fk.column};
    assert left[child].refs - {fk.column} == map[g.column := |path| + 2];
    var row := RowFor(w, u, map[g.column := |path| + 2]);
    assert ParentKey(fk.child, row) == Some(q);
    assert BeforeRow(w, left, s, Owner, fk.child, row) ==
           Row(Some(v), MspAfter(w, u, s.msp.id), map[g.column := |path| + 2], "");
  }

  lemma MovedHolds(w: World, s: Session, fk: ForeignKey, g: ForeignKey, u: Uuid, v: Uuid, root: Table,
      path: seq<ForeignKey>, left: Rows)
    requires Sane(w) && SpeaksFor(w.tenants, s).Some? && Redirects(w.schema, fk, g)
    requires u in w.tenants && v in w.tenants && left == Moving(w, fk, g, |path|, u, v)
    ensures var after := Moved(w, s, fk, g, |path|, u, v);
            !Dangles(w.schema, after, KeysOf(root, path)) && UpdatesHold(w, left, after)
  {
    var child := Key(fk.child, |path| + 1);
    KeysOfChain(root, path, Key(g.parent, |path| + 2));
    assert UpdateHolds(w, left, Moved(w, s, fk, g, |path|, u, v), child);
  }

  lemma MovingIsBelow(w: World, fk: ForeignKey, g: ForeignKey, root: Table, path: seq<ForeignKey>, u: Uuid, v: Uuid,
      left: Rows)
    requires Sane(w) && u in w.tenants && v in w.tenants && Redirects(w.schema, fk, g)
    requires left == Moving(w, fk, g, |path|, u, v)
    ensures Below(w.schema, left, root, path) && MspAgrees(w.tenants, left)
  {
    KeysOfChain(root, path, Key(g.parent, |path| + 2));
  }

  lemma MovingHangs(w: World, fk: ForeignKey, g: ForeignKey, root: Table, path: seq<ForeignKey>, n: nat, t: Uuid,
      u: Uuid, v: Uuid, left: Rows)
    requires Sane(w) && t in w.tenants && u in w.tenants && v in w.tenants && Redirects(w.schema, fk, g)
    requires LeadsTo(w.schema, fk, root, path, n, t, u) && left == Moving(w, fk, g, |path|, u, v)
    ensures Hangs(w, fk, root, path, n, t, u, left)
  {
    MovingIsBelow(w, fk, g, root, path, u, v, left);
    forall k, h | k in left && h in w.schema.keys && h.child == k.table && h.column in left[k].refs
      ensures HangsBy(w, fk, |path|, u, left, k, h)
    {
      assert k == Key(fk.child, |path| + 1) && (h == fk || h == g);
    }
  }

  /** A tenant derived along a key without a twin: the row that loses a reference changes its tenant. */
  lemma ClearedRowMoves(w: World, s: Session, fk: ForeignKey, g: ForeignKey, u: Uuid, v: Uuid)
    requires Sane(w) && SpeaksFor(w.tenants, s).Some? && Redirects(w.schema, fk, g)
    requires u in w.tenants && v in w.tenants && (Confined(w.schema, fk) ==> u == s.tenant.id)
    requires w.tenants[v] != MspAfter(w, u, s.msp.id)
    ensures !KeepsAgreement(w, s)
  {
    var root, path, n := LeadsToAny(w.schema, fk, s.tenant.id, u);
    var left := Moving(w, fk, g, |path|, u, v);
    MovingHangs(w, fk, g, root, path, n, s.tenant.id, u, v, left);
    MovedChild(w, s, fk, g, u, v, root, path, left);
    MovedHolds(w, s, fk, g, u, v, root, path, left);
    HangingDisagrees(w, s, fk, root, path, n, u, left, Moved(w, s, fk, g, |path|, u, v), Key(fk.child, |path| + 1));
  }

  /** All statements of a session keep the agreement exactly when its scope and its deletes do. */
  lemma KeepsAgreementIff(w: World, s: Session)
    requires Sane(w)
    ensures KeepsAgreement(w, s) <==> KeepsMapping(w, s)
  {
    if KeepsMapping(w, s) {
      forall rows, stmt | Consistent(w.schema, rows) && MspAgrees(w.tenants, rows)
        ensures MspAgrees(w.tenants, Exec(w, rows, s, stmt).rows)
      {
        StepKeepsMspAgreement(w, rows, s, stmt);
      }
    } else if !ScopeAgrees(w, s) {
      WrongScopeDisagrees(w, s);
    } else if fk, u :| fk in w.schema.keys && fk.rule.SetNull? && !Confined(w.schema, fk) &&
                       u in w.tenants && w.tenants[u].None? {
      UnmappedRowIsFilled(w, s, fk, u);
    } else {
      var fk, g, u, v :| Redirects(w.schema, fk, g) && u in w.tenants && v in w.tenants &&
                         (Confined(w.schema, fk) ==> u == s.tenant.id) && w.tenants[v] != MspAfter(w, u, s.msp.id);
      ClearedRowMoves(w, s, fk, g, u, v);
    }
  }

  lemma {:induction false} RunKeepsMspAgreement(w: World, rows: Rows, ops: seq<Op>)
    requires Sane(w) && Consistent(w.schema, rows) && MspAgrees(w.tenants, rows)
    requires forall i | 0 <= i < |ops| :: KeepsMapping(w, ops[i].session)
    ensures MspAgrees(w.tenants, Run(w, rows, ops))
    decreases |ops|
  {
    if ops != [] {
      StepKeepsMspAgreement(w, rows, ops[0].session, ops[0].stmt);
      StepKeepsConsistent(w, rows, ops[0].session, ops[0].stmt);
      RunKeepsMspAgreement(w, Exec(w, rows, ops[0].session, ops[0].stmt).rows, ops[1..]);
    }
  }

  // --- Reads ------------------------------------------------------------------------------

  function Visible(rows: Rows, s: Session): Rows {
    map k | k in rows && Admits(s, rows[k]) :: rows[k]
  }

  /** A session sees all rows of the tenant it speaks for, or nothing: there is no partial view. */
  lemma SeesAllOrNothing(tenants: map<Uuid, Option<Uuid>>, rows: Rows, s: Session)
    requires MspAgrees(tenants, rows)
    ensures SpeaksFor(tenants, s).Some? ==> Visible(rows, s) == View(rows, SpeaksFor(tenants, s).value)
    ensures SpeaksFor(tenants, s).None? ==> Visible(rows, s) == map[]
  {
    forall k | k in rows ensures Admits(s, rows[k]) <==> Some(rows[k].tenant.value) == SpeaksFor(tenants, s) {
      AdmittedRow(s, rows[k]);
    }
  }

  lemma BackfillKeepsConsistent(w: World, before: Rows, after: Rows)
    requires Consistent(w.schema, before) && Backfilled(w.tenants, before, after)
    ensures Consistent(w.schema, after)
  {
    forall k, fk | k in after && fk in w.schema.keys && fk.child == k.table && fk.column in after[k].refs
      ensures Agrees(w.schema, after, k, fk)
    {
      assert Agrees(w.schema, before, k, fk);
    }
  }

  /** From new `msp_id` columns, through the backfill and any run of agreeing sessions, to a reader. */
  lemma BackfillThenRunThenRead(w: World, before: Rows, after: Rows, ops: seq<Op>, s: Session)
    requires Sane(w) && Consistent(w.schema, before)
    requires TenantsExist(w.tenants, before) && forall k | k in before :: before[k].msp.None?
    requires Backfilled(w.tenants, before, after)
    requires forall i | 0 <= i < |ops| :: KeepsMapping(w, ops[i].session)
    ensures Visible(Run(w, after, ops), s) ==
            if SpeaksFor(w.tenants, s).Some? then View(Run(w, after, ops), SpeaksFor(w.tenants, s).value) else map[]
  {
    BackfillAgreesIff(w.tenants, before, after);
    BackfillKeepsConsistent(w, before, after);
    RunKeepsMspAgreement(w, after, ops);
    SeesAllOrNothing(w.tenants, Run(w, after, ops), s);
  }
}
