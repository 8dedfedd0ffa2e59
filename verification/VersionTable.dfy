/**
  The duplicate versions of a playbook (migration 0005): within each group of rows sharing a
  version one row keeps it and the others are given new ones, group by group.
 */
module VersionTable {
  import opened Wrappers
  import opened Versions

  /** A row of `playbook_versions`; identifiers and timestamps are modelled by their order. */
  datatype Row = Row(playbook: nat, version: Version, publishedAt: Option<int>, createdAt: int)

  type Rows = map<nat, Row>
  /** `playbooks.current_version_id` of every playbook. */
  type Currents = map<nat, Option<nat>>

  // --- The row that keeps its version -----------------------------------------------------

  predicate IsCurrent(rows: Rows, current: Currents, id: nat)
    requires id in rows
  {
    rows[id].playbook in current && current[rows[id].playbook] == Some(id)
  }

  function LastTouched(r: Row): int {
    if r.publishedAt.Some? then r.publishedAt.value else r.createdAt
  }

  /** The comparison made by `_canonical_duplicate_sort_key`. */
  predicate Below(rows: Rows, current: Currents, a: nat, b: nat)
    requires a in rows && b in rows
  {
    var r, s := rows[a], rows[b];
    if IsCurrent(rows, current, a) != IsCurrent(rows, current, b) then IsCurrent(rows, current, b)
    else if r.publishedAt.Some? != s.publishedAt.Some? then s.publishedAt.Some?
    else if LastTouched(r) != LastTouched(s) then LastTouched(r) < LastTouched(s)
    else if r.createdAt != s.createdAt then r.createdAt < s.createdAt
    else a < b
  }

  ghost predicate IsCanonical(rows: Rows, current: Currents, group: seq<nat>, keep: nat) {
    && keep in group
    && forall id | id in group && id != keep :: id in rows && keep in rows && Below(rows, current, id, keep)
  }

  // --- The groups -------------------------------------------------------------------------

  predicate Twins(rows: Rows, a: nat, b: nat) {
    && a in rows && b in rows && a != b
    && rows[a].playbook == rows[b].playbook && rows[a].version == rows[b].version
  }

  /** The rows of the query, grouped: duplicates of existing playbooks, each in one group with all its twins. */
  ghost predicate AreGroups(rows: Rows, current: Currents, groups: seq<seq<nat>>) {
    && (forall g | 0 <= g < |groups| :: groups[g] != [])
    && (forall g, i | 0 <= g < |groups| && 0 <= i < |groups[g]| :: groups[g][i] in rows && rows[groups[g][i]].playbook in current)
    && (forall g, i, j | 0 <= g < |groups| && 0 <= i < j < |groups[g]| :: Twins(rows, groups[g][i], groups[g][j]))
    && (forall g, h, i, j | 0 <= g < h < |groups| && 0 <= i < |groups[g]| && 0 <= j < |groups[h]| ::
          groups[g][i] != groups[h][j] && !Twins(rows, groups[g][i], groups[h][j]))
    && (forall a, b | Twins(rows, a, b) && rows[a].playbook in current :: exists g :: 0 <= g < |groups| && a in groups[g])
  }

  ghost predicate AreFilled(rows: Rows, groups: seq<seq<nat>>) {
    forall g | 0 <= g < |groups| :: groups[g] != [] && forall i | 0 <= i < |groups[g]| :: groups[g][i] in rows
  }

  /** No row is listed twice. */
  ghost predicate Apart(groups: seq<seq<nat>>) {
    forall g, i, h, j | 0 <= g <= h < |groups| && 0 <= i < |groups[g]| && 0 <= j < |groups[h]| && (g == h ==> i < j) ::
      groups[g][i] != groups[h][j]
  }

  // --- The renaming as a function ---------------------------------------------------------

  function VersionsOf(rows: Rows, playbook: nat): set<Version> {
    set id | id in rows && rows[id].playbook == playbook :: rows[id].version
  }

  /** Every version the playbook has had: at the start or by now. */
  ghost function Used(was: Rows, now: Rows, playbook: nat): set<Version> {
    VersionsOf(was, playbook) + VersionsOf(now, playbook)
  }

  ghost function Next(d: Numerals, used: set<Version>): (next: Version)
    ensures IsNext(d, used, next)
  {
    NextExists(d, used);
    var next :| IsNext(d, used, next);
    next
  }

  ghost function Renamed(d: Numerals, was: Rows, now: Rows, id: nat): Rows {
    if id in now then now[id := now[id].(version := Next(d, Used(was, now, now[id].playbook)))] else now
  }

  ghost function RenamedAll(d: Numerals, was: Rows, now: Rows, ids: seq<nat>): Rows {
    if ids == [] then now else Renamed(d, was, RenamedAll(d, was, now, ids[..|ids| - 1]), ids[|ids| - 1])
  }

  /** The column is `VARCHAR(20)`. */
  const MAX_LENGTH := 20

  /** Each row renamed in turn gets a version that fits the column. */
  ghost predicate Fits(d: Numerals, was: Rows, ids: seq<nat>) {
    ids == [] ||
    var n := |ids| - 1;
    var now := RenamedAll(d, was, was, ids[..n]);
    && Fits(d, was, ids[..n])
    && (ids[n] in now ==> |Next(d, Used(was, now, now[ids[n]].playbook)).text| <= MAX_LENGTH)
  }

  function Without(group: seq<nat>, keep: nat): seq<nat> {
    if group == [] then []
    else Without(group[..|group| - 1], keep) + (if group[|group| - 1] == keep then [] else [group[|group| - 1]])
  }

  /** The rows of the groups that do not keep their version, in the order the loops visit them. */
  function Losers(groups: seq<seq<nat>>, keeps: seq<nat>): seq<nat>
    requires |keeps| == |groups|
  {
    if groups == [] then []
    else
      var n := |groups| - 1;
      Losers(groups[..n], keeps[..n]) + Without(groups[n], keeps[n])
  }

  ghost predicate AreKeeps(rows: Rows, current: Currents, groups: seq<seq<nat>>, keeps: seq<nat>) {
    && |keeps| == |groups|
    && forall g | 0 <= g < |groups| :: IsCanonical(rows, current, groups[g], keeps[g])
  }

  // --- The loops --------------------------------------------------------------------------

  function Playbooks(rows: Rows): set<nat> {
    set id | id in rows :: rows[id].playbook
  }

  /** From row `i` of group `g` on, the rows are as the query found them. */
  ghost predicate Pending(was: Rows, now: Rows, groups: seq<seq<nat>>, g: nat, i: nat) {
    && now.Keys == was.Keys
    && forall h, j | g <= h < |groups| && 0 <= j < |groups[h]| && (h == g ==> i <= j) ::
         groups[h][j] in was && groups[h][j] in now && now[groups[h][j]] == was[groups[h][j]]
  }

  /** The sets of used versions hold what each playbook has had. */
  ghost predicate Tracks(used: map<nat, set<Version>>, was: Rows, now: Rows) {
    && (forall id | id in was :: was[id].playbook in used)
    && forall p | p in used :: used[p] == Used(was, now, p)
  }

  /** Half-way through: `done` has been renamed, and row `i` of group `g` is next. */
  ghost predicate Ready(d: Numerals, was: Rows, now: Rows, groups: seq<seq<nat>>, g: nat, i: nat,
      used: map<nat, set<Version>>, done: seq<nat>)
  {
    Pending(was, now, groups, g, i) && Tracks(used, was, now) && now == RenamedAll(d, was, was, done)
  }

  /** The first `g` groups are done, and all new versions fit. */
  ghost predicate HalfDone(d: Numerals, was: Rows, current: Currents, now: Rows, groups: seq<seq<nat>>, g: nat,
      used: map<nat, set<Version>>, keeps: seq<nat>)
    requires g <= |groups|
  {
    && AreKeeps(was, current, groups[..g], keeps) && Fits(d, was, Losers(groups[..g], keeps))
    && Ready(d, was, now, groups, g, 0, used, Losers(groups[..g], keeps))
  }

  class Database {
    var versions: Rows
    var current: Currents

    /** `max(rows, key=_canonical_duplicate_sort_key)` */
    method FindKeep(rows: Rows, group: seq<nat>) returns (keep: nat)
      requires group != [] && forall i | 0 <= i < |group| :: group[i] in rows
      ensures IsCanonical(rows, current, group, keep)
      ensures forall i | 0 <= i < |group| && Twins(rows, keep, group[i]) && rows[keep].playbook in current ::
                KeepsAhead(rows, current, keep, group[i])
    {
      keep := group[0];
      for n := 1 to |group|
        invariant keep in group[..n] && keep in rows
        invariant forall i | 0 <= i < n && group[i] != keep :: Below(rows, current, group[i], keep)
      {
        if Below(rows, current, keep, group[n]) {
          keep := group[n];
        }
      }
      forall i | 0 <= i < |group| && Twins(rows, keep, group[i]) && rows[keep].playbook in current
        ensures KeepsAhead(rows, current, keep, group[i])
      {
        NotBelowMeans(rows, current, keep, group[i]);
      }
    }

    /** One row is given the next free version of its playbook; one that does not fit the column is refused. */
    method RenameRow(d: Numerals, was: Rows, ghost groups: seq<seq<nat>>, ghost g: nat, ghost i: nat, id: nat,
        used: map<nat, set<Version>>, ghost done: seq<nat>)
      returns (ok: bool, used': map<nat, set<Version>>)
      requires ExtendAscii(d) && Apart(groups) && g < |groups| && i < |groups[g]| && id == groups[g][i]
      requires Ready(d, was, versions, groups, g, i, used, done) && Fits(d, was, done)
      modifies `versions
      ensures ok <==> Fits(d, was, done + [id])
      ensures ok ==> Ready(d, was, versions, groups, g, i + 1, used', done + [id])
    {
      var p := was[id].playbook;
      var candidate := NextFree(d, used[p]);
      RenameOne(d, was, versions, groups, g, i, used, candidate, done);
      ok, used' := |candidate.text| <= MAX_LENGTH, used;
      if ok {
        versions := versions[id := versions[id].(version := candidate)];
        used' := used[p := used[p] + {candidate}];
      }
    }

    /** The body of the inner loop: the kept row is passed over. */
    method VisitRow(d: Numerals, was: Rows, ghost groups: seq<seq<nat>>, ghost g: nat, ghost i: nat, id: nat, keep: nat,
        used: map<nat, set<Version>>, ghost done: seq<nat>)
      returns (ok: bool, used': map<nat, set<Version>>)
      requires ExtendAscii(d) && Apart(groups) && g < |groups| && i < |groups[g]| && id == groups[g][i]
      requires Ready(d, was, versions, groups, g, i, used, done) && Fits(d, was, done)
      modifies `versions
      ensures ok <==> Fits(d, was, if id == keep then done else done + [id])
      ensures ok ==> Ready(d, was, versions, groups, g, i + 1, used', if id == keep then done else done + [id])
    {
      if id != keep {
        ok, used' := RenameRow(d, was, groups, g, i, id, used, done);
      } else {
        ReadyForNext(d, was, versions, groups, g, i, used, done);
        ok, used' := true, used;
      }
    }

    method RenameGroup(d: Numerals, was: Rows, ghost groups: seq<seq<nat>>, ghost g: nat, rows: seq<nat>, keep: nat,
        used: map<nat, set<Version>>, ghost done: seq<nat>)
      returns (ok: bool, used': map<nat, set<Version>>)
      requires ExtendAscii(d) && Apart(groups) && g < |groups| && rows == groups[g]
      requires Ready(d, was, versions, groups, g, 0, used, done) && Fits(d, was, done)
      modifies `versions
      ensures ok <==> Fits(d, was, done + Without(rows, keep))
      ensures ok ==> Ready(d, was, versions, groups, g + 1, 0, used', done + Without(rows, keep))
    {
      ok, used' := true, used;
      ghost var so := done;
      for i := 0 to |rows|
        invariant ok && so == done + Without(rows[..i], keep) && Fits(d, was, so)
        invariant Ready(d, was, versions, groups, g, i, used', so)
      {
        WithoutMore(done, rows, keep, i);
        ok, used' := VisitRow(d, was, groups, g, i, rows[i], keep, used', so);
        so := if rows[i] == keep then so else so + [rows[i]];
        if !ok {
          WithoutPrefix(d, was, done, rows, keep, i + 1);
          return;
        }
      }
      assert rows[..|rows|] == rows;
      ReadyForNext(d, was, versions, groups, g, |rows|, used', so);
    }

    /** The round of the outer loop for group `g`. */
    method NextGroup(d: Numerals, was: Rows, groups: seq<seq<nat>>, g: nat, used: map<nat, set<Version>>,
        ghost keeps: seq<nat>)
      returns (ok: bool, used': map<nat, set<Version>>, ghost keeps': seq<nat>)
      requires ExtendAscii(d) && Apart(groups) && g < |groups|
      requires AreFilled(was, groups)
      requires HalfDone(d, was, current, versions, groups, g, used, keeps)
      modifies `versions
      ensures AreKeeps(was, current, groups[..g + 1], keeps')
      ensures ok <==> Fits(d, was, Losers(groups[..g + 1], keeps'))
      ensures ok ==> HalfDone(d, was, current, versions, groups, g + 1, used', keeps')
    {
      var keep := FindKeep(was, groups[g]);
      ok, used' := RenameGroup(d, was, groups, g, groups[g], keep, used, Losers(groups[..g], keeps));
      LosersMore(was, current, groups, keeps, g, keep);
      keeps' := keeps + [keep];
    }

    /** The outer loop; the rows to keep are named even for groups it did not reach. */
    method RenameLosers(d: Numerals, was: Rows, groups: seq<seq<nat>>, used: map<nat, set<Version>>)
      returns (ok: bool, ghost keeps: seq<nat>)
      requires ExtendAscii(d) && Apart(groups) && AreFilled(was, groups)
      requires Ready(d, was, versions, groups, 0, 0, used, [])
      modifies `versions
      ensures AreKeeps(was, current, groups, keeps)
      ensures ok <==> Fits(d, was, Losers(groups, keeps))
      ensures ok ==> versions == RenamedAll(d, was, was, Losers(groups, keeps))
    {
      ok, keeps := true, [];
      var used' := used;
      for g := 0 to |groups|
        invariant ok && HalfDone(d, was, current, versions, groups, g, used', keeps)
      {
        ok, used', keeps := NextGroup(d, was, groups, g, used', keeps);
        if !ok {
          keeps := RefusedAt(d, was, current, groups, g + 1, keeps);
          return;
        }
      }
      assert groups[..|groups|] == groups;
    }

    /** The migration fails as a whole when a new version does not fit. */
    method RenameDuplicates(d: Numerals, groups: seq<seq<nat>>) returns (ok: bool, ghost keeps: seq<nat>)
      requires ExtendAscii(d) && AreGroups(versions, current, groups)
      modifies `versions
      ensures AreKeeps(old(versions), current, groups, keeps)
      ensures ok <==> Fits(d, old(versions), Losers(groups, keeps))
      ensures versions == if ok then RenamedAll(d, old(versions), old(versions), Losers(groups, keeps)) else old(versions)
    {
      var was := versions;
      var used := map p | p in Playbooks(was) :: VersionsOf(was, p);
      GroupsStart(d, was, current, groups, used);
      ok, keeps := RenameLosers(d, was, groups, used);
      if !ok {
        versions := was;
      }
    }
  }

  lemma ReadyForNext(d: Numerals, was: Rows, now: Rows, groups: seq<seq<nat>>, g: nat, i: nat,
      used: map<nat, set<Version>>, done: seq<nat>)
    requires g < |groups| && i <= |groups[g]| && Ready(d, was, now, groups, g, i, used, done)
    ensures if i < |groups[g]| then Ready(d, was, now, groups, g, i + 1, used, done) else Ready(d, was, now, groups, g + 1, 0, used, done)
  {
  }

  lemma GroupsStart(d: Numerals, rows: Rows, current: Currents, groups: seq<seq<nat>>, used: map<nat, set<Version>>)
    requires AreGroups(rows, current, groups)
    requires used == map p | p in Playbooks(rows) :: VersionsOf(rows, p)
    ensures Apart(groups) && Ready(d, rows, rows, groups, 0, 0, used, [])
    ensures AreFilled(rows, groups)
  {
    forall g, i, h, j | 0 <= g <= h < |groups| && 0 <= i < |groups[g]| && 0 <= j < |groups[h]| && (g == h ==> i < j)
      ensures groups[g][i] != groups[h][j]
    {
      if g == h { assert Twins(rows, groups[g][i], groups[g][j]); }
    }
  }

  lemma WithoutMore(before: seq<nat>, rows: seq<nat>, keep: nat, i: nat)
    requires i < |rows|
    ensures rows[i] == keep ==> before + Without(rows[..i + 1], keep) == before + Without(rows[..i], keep)
    ensures rows[i] != keep ==> before + Without(rows[..i + 1], keep) == before + Without(rows[..i], keep) + [rows[i]]
  {
    assert rows[..i + 1][..i] == rows[..i];
    assert Without(rows[..i], keep) + [] == Without(rows[..i], keep);
  }

  lemma LosersMore(rows: Rows, current: Currents, groups: seq<seq<nat>>, keeps: seq<nat>, g: nat, keep: nat)
    requires g < |groups| && |keeps| == g && AreKeeps(rows, current, groups[..g], keeps)
    requires IsCanonical(rows, current, groups[g], keep)
    ensures Losers(groups[..g + 1], keeps + [keep]) == Losers(groups[..g], keeps) + Without(groups[g], keep)
    ensures AreKeeps(rows, current, groups[..g + 1], keeps + [keep])
  {
    assert groups[..g + 1][..g] == groups[..g] && (keeps + [keep])[..g] == keeps;
    forall h | 0 <= h <= g ensures IsCanonical(rows, current, groups[..g + 1][h], (keeps + [keep])[h]) {
      if h < g { assert IsCanonical(rows, current, groups[..g][h], keeps[h]); }
    }
  }

  lemma {:induction false} FitsPrefix(d: Numerals, was: Rows, some: seq<nat>, more: seq<nat>)
    requires Fits(d, was, some + more)
    ensures Fits(d, was, some)
    decreases |more|
  {
    if more == [] {
      assert some + more == some;
    } else {
      var n := |more| - 1;
      assert (some + more)[..|some| + n] == some + more[..n];
      FitsPrefix(d, was, some, more[..n]);
    }
  }

  lemma {:induction false} WithoutSplits(group: seq<nat>, keep: nat, i: nat) returns (more: seq<nat>)
    requires i <= |group|
    ensures Without(group, keep) == Without(group[..i], keep) + more
    decreases |group|
  {
    if i == |group| {
      assert group[..i] == group;
      more := [];
    } else {
      var n := |group| - 1;
      assert group[..n][..i] == group[..i];
      more := WithoutSplits(group[..n], keep, i);
      more := more + if group[n] == keep then [] else [group[n]];
    }
  }

  lemma WithoutPrefix(d: Numerals, was: Rows, done: seq<nat>, rows: seq<nat>, keep: nat, i: nat)
    requires i <= |rows| && !Fits(d, was, done + Without(rows[..i], keep))
    ensures !Fits(d, was, done + Without(rows, keep))
  {
    var more := WithoutSplits(rows, keep, i);
    assert done + Without(rows, keep) == done + Without(rows[..i], keep) + more;
    if Fits(d, was, done + Without(rows, keep)) {
      FitsPrefix(d, was, done + Without(rows[..i], keep), more);
    }
  }

  lemma {:induction false} LosersSplit(groups: seq<seq<nat>>, keeps: seq<nat>, g: nat) returns (more: seq<nat>)
    requires |keeps| == |groups| && g <= |groups|
    ensures Losers(groups, keeps) == Losers(groups[..g], keeps[..g]) + more
    decreases |groups|
  {
    if g == |groups| {
      assert groups[..g] == groups && keeps[..g] == keeps;
      more := [];
    } else {
      var n := |groups| - 1;
      assert groups[..n][..g] == groups[..g] && keeps[..n][..g] == keeps[..g];
      more := LosersSplit(groups[..n], keeps[..n], g);
      more := more + Without(groups[n], keeps[n]);
    }
  }

  lemma LosersPrefix(d: Numerals, was: Rows, groups: seq<seq<nat>>, keeps: seq<nat>, g: nat)
    requires |keeps| == |groups| && g <= |groups| && !Fits(d, was, Losers(groups[..g], keeps[..g]))
    ensures !Fits(d, was, Losers(groups, keeps))
  {
    var more := LosersSplit(groups, keeps, g);
    if Fits(d, was, Losers(groups, keeps)) {
      FitsPrefix(d, was, Losers(groups[..g], keeps[..g]), more);
    }
  }

  lemma {:induction false} CanonicalExists(rows: Rows, current: Currents, group: seq<nat>) returns (keep: nat)
    requires group != [] && forall i | 0 <= i < |group| :: group[i] in rows
    ensures IsCanonical(rows, current, group, keep)
  {
    var n := |group| - 1;
    keep := group[n];
    if n > 0 {
      var best := CanonicalExists(rows, current, group[..n]);
      assert group == group[..n] + [group[n]];
      if best != group[n] && !Below(rows, current, best, group[n]) { keep := best; }
    }
  }

  /** The rows to keep in the groups that were not reached. */
  lemma {:induction false} AllKeeps(rows: Rows, current: Currents, groups: seq<seq<nat>>, g: nat, some: seq<nat>)
    returns (keeps: seq<nat>)
    requires g <= |groups| && AreKeeps(rows, current, groups[..g], some)
    requires AreFilled(rows, groups)
    ensures AreKeeps(rows, current, groups, keeps) && keeps[..g] == some
    decreases |groups| - g
  {
    if g == |groups| {
      assert groups[..g] == groups;
      keeps := some;
    } else {
      var keep := CanonicalExists(rows, current, groups[g]);
      LosersMore(rows, current, groups, some, g, keep);
      keeps := AllKeeps(rows, current, groups, g + 1, some + [keep]);
      assert keeps[..g] == keeps[..g + 1][..g];
    }
  }

  /** A version that does not fit in one of the first groups: nothing later makes up for it. */
  lemma RefusedAt(d: Numerals, was: Rows, current: Currents, groups: seq<seq<nat>>, g: nat, some: seq<nat>)
    returns (keeps: seq<nat>)
    requires g <= |groups| && AreFilled(was, groups) && AreKeeps(was, current, groups[..g], some)
    requires !Fits(d, was, Losers(groups[..g], some))
    ensures AreKeeps(was, current, groups, keeps) && !Fits(d, was, Losers(groups, keeps))
  {
    keeps := AllKeeps(was, current, groups, g, some);
    LosersPrefix(d, was, groups, keeps, g);
  }

  lemma UsedGrows(was: Rows, now: Rows, id: nat, v: Version, p: nat)
    requires id in was && id in now && now[id] == was[id]
    ensures Used(was, now[id := now[id].(version := v)], p)
      == Used(was, now, p) + if p == now[id].playbook then {v} else {}
  {
    var next := now[id := now[id].(version := v)];
    forall x | x in VersionsOf(now, p) ensures x in Used(was, next, p) {
      var a :| a in now && now[a].playbook == p && now[a].version == x;
      if a == id {
        assert was[id].version in VersionsOf(was, p);
      } else {
        assert a in next && next[a] == now[a];
      }
    }
    forall x | x in VersionsOf(next, p) ensures x in VersionsOf(now, p) || (x == v && p == now[id].playbook) {
      var a :| a in next && next[a].playbook == p && next[a].version == x;
    }
    if p == now[id].playbook {
      assert id in next && next[id].version in VersionsOf(next, p);
    }
  }

  lemma RenameOne(d: Numerals, was: Rows, now: Rows, groups: seq<seq<nat>>, g: nat, i: nat,
      used: map<nat, set<Version>>, candidate: Version, done: seq<nat>)
    requires g < |groups| && i < |groups[g]| && Pending(was, now, groups, g, i) && Tracks(used, was, now)
    requires Apart(groups)
    requires groups[g][i] in was && IsNext(d, used[was[groups[g][i]].playbook], candidate)
    requires now == RenamedAll(d, was, was, done)
    ensures
      var id := groups[g][i];
      var p := was[id].playbook;
      var next := now[id := now[id].(version := candidate)];
      && Pending(was, next, groups, g, i + 1)
      && Tracks(used[p := used[p] + {candidate}], was, next)
      && next == RenamedAll(d, was, was, done + [id])
      && (Fits(d, was, done + [id]) <==> Fits(d, was, done) && |candidate.text| <= MAX_LENGTH)
  {
    var id := groups[g][i];
    var p := was[id].playbook;
    var next := now[id := now[id].(version := candidate)];
    assert now[id] == was[id];
    var more := used[p := used[p] + {candidate}];
    forall q | q in more ensures more[q] == Used(was, next, q) {
      UsedGrows(was, now, id, candidate, q);
    }
    NextIsUnique(d, used[p], candidate, Next(d, used[p]));
    assert (done + [id])[..|done|] == done;
  }

  lemma NextExists(d: Numerals, used: set<Version>)
    ensures exists next :: IsNext(d, used, next)
  {
    if NoneParse(d, used) {
      assert IsNext(d, used, Print(Triple(0, 1, 0)));
    } else {
      var v :| v in used && Parse(d, v).Some?;
      var t := HighestExists(d, used, v);
      assert IsNext(d, used, Print(Triple(t.major, t.minor, t.patch + 1)));
    }
  }

  lemma {:induction false} HighestExists(d: Numerals, used: set<Version>, v: Version) returns (t: Triple)
    requires v in used && Parse(d, v).Some?
    ensures IsHighest(d, used, t)
  {
    var rest := used - {v};
    assert used == rest + {v};
    t := Parse(d, v).value;
    if w :| w in rest && Parse(d, w).Some? {
      var u := HighestExists(d, rest, w);
      OneMore(d, rest, v, Some(u));
      if !Less(u, t) { t := u; }
    } else {
      OneMore(d, rest, v, None);
    }
  }

  // --- What the renaming does -------------------------------------------------------------

  /** The version of `r` exceeds every version its playbook had at the start. */
  ghost predicate Above(d: Numerals, was: Rows, r: Row) {
    forall a | a in was && was[a].playbook == r.playbook :: Exceeds(d, r.version, was[a].version)
  }

  /** Of two renamed rows of one playbook the later has the higher version. */
  ghost predicate Climbs(d: Numerals, now: Rows, done: seq<nat>) {
    forall i, j | 0 <= i < j < |done| && done[i] in now && done[j] in now && now[done[i]].playbook == now[done[j]].playbook ::
      Exceeds(d, now[done[j]].version, now[done[i]].version)
  }

  /** Only the rows `done` differ, only in their version, and those versions are new. */
  ghost predicate Progress(d: Numerals, was: Rows, now: Rows, done: seq<nat>) {
    && now.Keys == was.Keys
    && (forall id | id in was && id !in done :: now[id] == was[id])
    && (forall id | id in done :: id in was && id in now && now[id] == was[id].(version := now[id].version) && Above(d, was, now[id]))
    && Climbs(d, now, done)
  }

  predicate Distinct(ids: seq<nat>) {
    forall i, j | 0 <= i < j < |ids| :: ids[i] != ids[j]
  }

  lemma OneRename(d: Numerals, was: Rows, now: Rows, done: seq<nat>, id: nat)
    requires ExtendAscii(d) && Progress(d, was, now, done) && id in was && id !in done
    ensures Progress(d, was, Renamed(d, was, now, id), done + [id])
  {
    var p := was[id].playbook;
    var next := Renamed(d, was, now, id);
    var v := Next(d, Used(was, now, p));
    NextIsFree(d, Used(was, now, p), v);
    assert next[id] == was[id].(version := v);
    forall a | a in was && was[a].playbook == p ensures Exceeds(d, v, was[a].version) {
      assert was[a].version in VersionsOf(was, p);
    }
    forall a | a in now && now[a].playbook == p ensures Exceeds(d, v, now[a].version) {
      assert now[a].version in VersionsOf(now, p);
    }
    StillClimbs(d, now, next, done, id);
  }

  lemma StillClimbs(d: Numerals, now: Rows, next: Rows, done: seq<nat>, id: nat)
    requires Climbs(d, now, done) && id !in done && id in now && id in next && next == now[id := next[id]]
    requires next[id].playbook == now[id].playbook
    requires forall a | a in now && now[a].playbook == next[id].playbook :: Exceeds(d, next[id].version, now[a].version)
    ensures Climbs(d, next, done + [id])
  {
    var more := done + [id];
    forall i, j | 0 <= i < j < |more| && more[i] in next && more[j] in next && next[more[i]].playbook == next[more[j]].playbook
      ensures Exceeds(d, next[more[j]].version, next[more[i]].version)
    {
      assert more[i] == done[i] && next[more[i]] == now[done[i]];
      if j < |done| { assert next[more[j]] == now[done[j]]; }
    }
  }

  lemma {:induction false} AllRenamed(d: Numerals, was: Rows, ids: seq<nat>)
    requires ExtendAscii(d) && Distinct(ids) && forall i | 0 <= i < |ids| :: ids[i] in was
    ensures Progress(d, was, RenamedAll(d, was, was, ids), ids)
  {
    if ids != [] {
      var init, id := ids[..|ids| - 1], ids[|ids| - 1];
      assert ids == init + [id];
      forall i | 0 <= i < |init| ensures init[i] in was && init[i] != id {
        assert init[i] == ids[i];
      }
      AllRenamed(d, was, init);
      OneRename(d, was, RenamedAll(d, was, was, init), init, id);
    }
  }

  /** A row renamed once keeps that version, so the migration fits exactly when all its results do. */
  lemma {:induction false} FitsIff(d: Numerals, was: Rows, ids: seq<nat>)
    requires ExtendAscii(d) && Distinct(ids) && forall i | 0 <= i < |ids| :: ids[i] in was
    ensures RenamedAll(d, was, was, ids).Keys == was.Keys
    ensures Fits(d, was, ids) <==> forall id | id in ids :: |RenamedAll(d, was, was, ids)[id].version.text| <= MAX_LENGTH
  {
    if ids != [] {
      var init, id := ids[..|ids| - 1], ids[|ids| - 1];
      assert ids == init + [id];
      forall i | 0 <= i < |init| ensures init[i] in was && init[i] != id {
        assert init[i] == ids[i];
      }
      FitsIff(d, was, init);
      var before, after := RenamedAll(d, was, was, init), RenamedAll(d, was, was, ids);
      assert forall a | a in init :: after[a] == before[a];
      assert forall a :: a in ids <==> a in init || a == id;
    }
  }

  // --- Which rows those are ---------------------------------------------------------------

  lemma {:induction false} InWithout(group: seq<nat>, keep: nat, id: nat)
    ensures id in Without(group, keep) <==> id in group && id != keep
  {
    if group != [] {
      var n := |group| - 1;
      InWithout(group[..n], keep, id);
      assert group == group[..n] + [group[n]];
    }
  }

  ghost predicate LosesIn(groups: seq<seq<nat>>, keeps: seq<nat>, g: nat, id: nat) {
    g < |groups| && g < |keeps| && id in groups[g] && id != keeps[g]
  }

  lemma {:induction false} InLosers(groups: seq<seq<nat>>, keeps: seq<nat>, id: nat)
    requires |keeps| == |groups|
    ensures id in Losers(groups, keeps) <==> exists g: nat :: LosesIn(groups, keeps, g, id)
  {
    if groups != [] {
      var n := |groups| - 1;
      InLosers(groups[..n], keeps[..n], id);
      InWithout(groups[n], keeps[n], id);
      if g: nat :| LosesIn(groups[..n], keeps[..n], g, id) {
        assert LosesIn(groups, keeps, g, id);
      }
      if g: nat :| LosesIn(groups, keeps, g, id) {
        assert if g < n then LosesIn(groups[..n], keeps[..n], g, id) else id in Without(groups[n], keeps[n]);
      }
      assert id in Without(groups[n], keeps[n]) ==> LosesIn(groups, keeps, n, id);
    }
  }

  lemma {:induction false} WithoutIsDistinct(group: seq<nat>, keep: nat)
    requires Distinct(group)
    ensures Distinct(Without(group, keep))
  {
    if group != [] {
      var n := |group| - 1;
      WithoutIsDistinct(group[..n], keep);
      InWithout(group[..n], keep, group[n]);
      assert group[n] !in group[..n];
    }
  }

  lemma {:induction false} LosersAreDistinct(groups: seq<seq<nat>>, keeps: seq<nat>)
    requires |keeps| == |groups| && Apart(groups)
    ensures Distinct(Losers(groups, keeps))
  {
    if groups != [] {
      var n := |groups| - 1;
      var a, b := Losers(groups[..n], keeps[..n]), Without(groups[n], keeps[n]);
      LosersAreDistinct(groups[..n], keeps[..n]);
      assert Distinct(groups[n]);
      WithoutIsDistinct(groups[n], keeps[n]);
      forall i, j | 0 <= i < |a| && 0 <= j < |b| ensures a[i] != b[j] {
        assert a[i] in a && b[j] in b;
        InLosers(groups[..n], keeps[..n], a[i]);
        InWithout(groups[n], keeps[n], b[j]);
      }
    }
  }

  // --- The theorem ------------------------------------------------------------------------

  /** The foreign key of the versions. */
  ghost predicate PlaybooksExist(rows: Rows, current: Currents) {
    forall id | id in rows :: rows[id].playbook in current
  }

  ghost predicate IsUnique(rows: Rows) {
    forall a, b :: !Twins(rows, a, b)
  }

  /** Some row with the same playbook and version is preferred to this one. */
  ghost predicate Outranked(rows: Rows, current: Currents, id: nat) {
    exists b :: Twins(rows, id, b) && Below(rows, current, id, b)
  }

  ghost function Deduplicated(d: Numerals, rows: Rows, groups: seq<seq<nat>>, keeps: seq<nat>): Rows
    requires |keeps| == |groups|
  {
    RenamedAll(d, rows, rows, Losers(groups, keeps))
  }

  lemma LosersAreOutranked(rows: Rows, current: Currents, groups: seq<seq<nat>>, keeps: seq<nat>, id: nat)
    requires AreGroups(rows, current, groups) && AreKeeps(rows, current, groups, keeps)
    requires PlaybooksExist(rows, current) && id in rows
    ensures id in Losers(groups, keeps) <==> Outranked(rows, current, id)
  {
    InLosers(groups, keeps, id);
    if id in Losers(groups, keeps) {
      var g: nat :| LosesIn(groups, keeps, g, id);
      assert IsCanonical(rows, current, groups[g], keeps[g]);
      SameGroup(rows, current, groups, g, id, keeps[g]);
    }
    if b :| Twins(rows, id, b) && Below(rows, current, id, b) {
      var g := GroupOf(rows, current, groups, id, b);
      assert IsCanonical(rows, current, groups[g], keeps[g]);
      assert b != keeps[g] ==> Below(rows, current, b, keeps[g]);
      assert LosesIn(groups, keeps, g, id);
    }
  }

  lemma SameGroup(rows: Rows, current: Currents, groups: seq<seq<nat>>, g: nat, a: nat, b: nat)
    requires AreGroups(rows, current, groups) && g < |groups| && a in groups[g] && b in groups[g] && a != b
    ensures Twins(rows, a, b)
  {
    var i :| 0 <= i < |groups[g]| && groups[g][i] == a;
    var j :| 0 <= j < |groups[g]| && groups[g][j] == b;
    if i < j { assert Twins(rows, groups[g][i], groups[g][j]); } else { assert Twins(rows, groups[g][j], groups[g][i]); }
  }

  lemma GroupOf(rows: Rows, current: Currents, groups: seq<seq<nat>>, a: nat, b: nat) returns (g: nat)
    requires AreGroups(rows, current, groups) && Twins(rows, a, b) && rows[a].playbook in current
    ensures g < |groups| && a in groups[g] && b in groups[g]
  {
    g :| 0 <= g < |groups| && a in groups[g];
    assert Twins(rows, b, a);
    var h :| 0 <= h < |groups| && b in groups[h];
    var i :| 0 <= i < |groups[g]| && groups[g][i] == a;
    var j :| 0 <= j < |groups[h]| && groups[h][j] == b;
    assert !(g < h) && !(h < g);
  }

  /**
    A row gets a new version exactly when a twin outranks it, and then a version above every
    parseable one its playbook had; nothing else changes, and no two versions of a playbook agree.
   */
  lemma DeduplicationIsRight(d: Numerals, rows: Rows, current: Currents, groups: seq<seq<nat>>, keeps: seq<nat>)
    requires ExtendAscii(d) && PlaybooksExist(rows, current)
    requires AreGroups(rows, current, groups) && AreKeeps(rows, current, groups, keeps)
    ensures IsUnique(Deduplicated(d, rows, groups, keeps))
    ensures Deduplicated(d, rows, groups, keeps).Keys == rows.Keys
    ensures forall id | id in rows ::
      var r := Deduplicated(d, rows, groups, keeps)[id];
      if Outranked(rows, current, id) then r == rows[id].(version := r.version) && Above(d, rows, r)
      else r == rows[id]
  {
    var ids := Losers(groups, keeps);
    var now := Deduplicated(d, rows, groups, keeps);
    GroupsStart(d, rows, current, groups, map p | p in Playbooks(rows) :: VersionsOf(rows, p));
    LosersAreDistinct(groups, keeps);
    forall i | 0 <= i < |ids| ensures ids[i] in rows {
      assert ids[i] in ids;
      InLosers(groups, keeps, ids[i]);
    }
    AllRenamed(d, rows, ids);
    forall id | id in rows ensures id in ids <==> Outranked(rows, current, id) {
      LosersAreOutranked(rows, current, groups, keeps, id);
    }
    forall a, b ensures !Twins(now, a, b) {
      if Twins(now, a, b) { NoTwinsLeft(d, rows, current, now, ids, a, b); }
    }
  }

  lemma NoTwinsLeft(d: Numerals, rows: Rows, current: Currents, now: Rows, ids: seq<nat>, a: nat, b: nat)
    requires Progress(d, rows, now, ids) && Distinct(ids)
    requires forall id | id in rows :: id in ids <==> Outranked(rows, current, id)
    ensures !Twins(now, a, b)
  {
    if a in rows && b in rows && a != b && rows[a].playbook == rows[b].playbook {
      if a in ids && b in ids {
        var i :| 0 <= i < |ids| && ids[i] == a;
        var j :| 0 <= j < |ids| && ids[j] == b;
        assert i < j || j < i;
      } else if a !in ids && b !in ids {
        assert Twins(rows, a, b) <==> Twins(rows, b, a);
      }
    }
  }

  // --- Which row of a group keeps its version ---------------------------------------------

  /** `r` comes before `s`: published at all, touched later, created later, and by the id. */
  ghost predicate Precedes(rows: Rows, a: nat, b: nat)
    requires a in rows && b in rows
  {
    var r, s := rows[a], rows[b];
    && (s.publishedAt != None ==> r.publishedAt != None)
    && (r.publishedAt != None && s.publishedAt != None ==> s.publishedAt.value <= r.publishedAt.value)
    && (r.publishedAt == s.publishedAt ==> s.createdAt <= r.createdAt)
    && (r.publishedAt == s.publishedAt && r.createdAt == s.createdAt ==> b < a)
  }

  /** Of two twins `a` is the current version, or neither is and `a` comes first. */
  ghost predicate KeepsAhead(rows: Rows, current: Currents, a: nat, b: nat)
    requires Twins(rows, a, b) && rows[a].playbook in current
  {
    && current[rows[a].playbook] != Some(b)
    && (current[rows[a].playbook] == Some(a) || Precedes(rows, a, b))
  }

  lemma NotBelowMeans(rows: Rows, current: Currents, a: nat, b: nat)
    requires Twins(rows, a, b) && !Below(rows, current, a, b) && rows[a].playbook in current
    ensures KeepsAhead(rows, current, a, b)
  {
  }

  /** A row that keeps its version against a twin is the current one, or comes before it, criterion by criterion. */
  lemma KeptIsPreferred(d: Numerals, rows: Rows, current: Currents, groups: seq<seq<nat>>, keeps: seq<nat>, a: nat, b: nat)
    requires ExtendAscii(d) && PlaybooksExist(rows, current)
    requires AreGroups(rows, current, groups) && AreKeeps(rows, current, groups, keeps)
    requires Twins(rows, a, b) && a in Deduplicated(d, rows, groups, keeps)
    requires Deduplicated(d, rows, groups, keeps)[a] == rows[a]
    ensures KeepsAhead(rows, current, a, b)
  {
    DeduplicationIsRight(d, rows, current, groups, keeps);
    ExceedsItselfNever(d, rows[a].version);
    assert !Above(d, rows, rows[a]);
    assert !Outranked(rows, current, a);
    NotBelowMeans(rows, current, a, b);
  }

  /** The current version of a playbook keeps its name. */
  lemma CurrentIsKept(d: Numerals, rows: Rows, current: Currents, groups: seq<seq<nat>>, keeps: seq<nat>, id: nat)
    requires ExtendAscii(d) && PlaybooksExist(rows, current)
    requires AreGroups(rows, current, groups) && AreKeeps(rows, current, groups, keeps)
    requires id in rows && current[rows[id].playbook] == Some(id)
    ensures id in Deduplicated(d, rows, groups, keeps) && Deduplicated(d, rows, groups, keeps)[id] == rows[id]
  {
    DeduplicationIsRight(d, rows, current, groups, keeps);
  }
}
