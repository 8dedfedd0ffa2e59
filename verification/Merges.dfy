/**
  `detect_merges`: within each component, a playbook whose title and root causes overlap with
  another's is merged into the stronger of the two.
 */
module Merges {
  import opened Wrappers

  datatype Action = Keep | Improve | Rewrite | Merge | Suppress | Delete

  /** Found in the titles; a playbook that names none of the known components is `Other`. */
  datatype Component = Other | Named(name: string)

  /** Compared as the tuple (specificity, coverage, episode count, -step count). */
  datatype Score = Score(specificity: real, coverage: real, episodes: int, steps: int)

  /** `title` and `signature` are the token sets of the title and of the causes and outcomes. */
  datatype Decision = Decision(
    id: Uuid, component: Component, title: set<string>, signature: set<string>, score: Score,
    action: Action, mergeInto: Option<Uuid>)

  predicate Less(a: Score, b: Score) {
    a.specificity < b.specificity || (a.specificity == b.specificity &&
    (a.coverage < b.coverage || (a.coverage == b.coverage &&
    (a.episodes < b.episodes || (a.episodes == b.episodes && -a.steps < -b.steps)))))
  }

  /** The share of `a`'s tokens found in `b`; not symmetric. */
  function OverlapRatio(a: set<string>, b: set<string>): real {
    if a == {} then 0.0 else |a * b| as real / |a| as real
  }

  predicate Alike(a: Decision, b: Decision) {
    !(OverlapRatio(a.title, b.title) < 0.8) && !(OverlapRatio(a.signature, b.signature) < 0.85)
  }

  predicate Mergeable(d: Decision) {
    !d.action.Delete? && !d.action.Suppress?
  }

  /** Neither suppressed nor deleted by its own decision. */
  ghost predicate IsOpen(d: Decision) {
    d.action !in {Suppress, Delete}
  }

  // --- The order in which playbooks give way ----------------------------------------------

  /** Record `k` is stronger than record `i`, or as strong and listed earlier. */
  predicate Above(ds: seq<Decision>, k: nat, i: nat)
    requires k < |ds| && i < |ds|
  {
    Less(ds[i].score, ds[k].score) || (ds[i].score == ds[k].score && k < i)
  }

  ghost function RecordsAbove(ds: seq<Decision>, i: nat): set<nat>
    requires i < |ds|
  {
    set j: nat | j < |ds| && Above(ds, j, i)
  }

  /** How many records are above `i`. */
  ghost function Rank(ds: seq<Decision>, i: nat): nat
    requires i < |ds|
  {
    |RecordsAbove(ds, i)|
  }

  lemma SmallerSet(a: set<nat>, b: set<nat>, x: nat)
    requires a <= b && x in b && x !in a
    ensures |a| < |b|
  {
    SubsetSize(a, b - {x});
  }

  lemma AboveLowersRank(ds: seq<Decision>, k: nat, i: nat)
    requires k < |ds| && i < |ds| && Above(ds, k, i)
    ensures Rank(ds, k) < Rank(ds, i)
  {
    SmallerSet(RecordsAbove(ds, k), RecordsAbove(ds, i), k);
  }

  // --- What the merge pass promises -------------------------------------------------------

  ghost predicate DistinctIds(ds: seq<Decision>) {
    forall i, j | 0 <= i < j < |ds| :: ds[i].id != ds[j].id
  }

  /** What the pass starts from: one decision per playbook, none of them a merge yet. */
  ghost predicate Fresh(ds: seq<Decision>) {
    DistinctIds(ds) && forall i | 0 <= i < |ds| :: !ds[i].action.Merge?
  }

  /** `ds[i]` was merged into `ds[k]`, which is above it and in the same component. */
  ghost predicate MergedInto(was: seq<Decision>, ds: seq<Decision>, i: nat, k: nat)
    requires |was| == |ds| && i < |ds| && k < |ds|
  {
    && ds[i] == was[i].(action := Merge, mergeInto := Some(ds[k].id))
    && was[k].component == was[i].component && was[i].component != Other
    && IsOpen(was[i]) && IsOpen(was[k])
    && Above(was, k, i)
    && (if i < k then Overlap(was[i], was[k]) else Overlap(was[k], was[i]))
  }

  /** At least `part` of the tokens of `a`, which has some, are found in `b`. */
  ghost predicate Shares(a: set<string>, b: set<string>, part: real) {
    a != {} && |a * b| as real >= part * |a| as real
  }

  /** Of the earlier record's tokens at least 0.8 in the title and 0.85 in the signature are in the later one's. */
  ghost predicate Overlap(a: Decision, b: Decision) {
    Shares(a.title, b.title, 0.8) && Shares(a.signature, b.signature, 0.85)
  }

  lemma RatioIff(a: set<string>, b: set<string>, part: real)
    requires part > 0.0
    ensures !(OverlapRatio(a, b) < part) <==> Shares(a, b, part)
  {
    if a != {} {
      var x, y := |a * b| as real, |a| as real;
      assert x / y * y == x;
      if x / y >= part {
        assert x / y * y >= part * y;
      } else {
        assert x / y * y < part * y;
      }
    }
  }

  /** What the code compares is what is meant. */
  lemma AlikeIff(a: Decision, b: Decision)
    ensures Alike(a, b) <==> Overlap(a, b)
  {
    RatioIff(a.title, b.title, 0.8);
    RatioIff(a.signature, b.signature, 0.85);
  }

  ghost predicate Justified(was: seq<Decision>, ds: seq<Decision>) {
    && |was| == |ds|
    && (forall i | 0 <= i < |ds| :: ds[i].id == was[i].id)
    && (forall i | 0 <= i < |ds| && !ds[i].action.Merge? :: ds[i] == was[i])
    && (forall i | 0 <= i < |ds| && ds[i].action.Merge? :: HasKeeper(was, ds, i))
  }

  ghost predicate HasKeeper(was: seq<Decision>, ds: seq<Decision>, i: nat)
    requires |was| == |ds| && i < |ds|
  {
    exists k: nat :: k < |ds| && MergedInto(was, ds, i, k)
  }

  /** Neither was merged away although the earlier one would have been compared with the later. */
  ghost predicate Overlooked(was: seq<Decision>, ds: seq<Decision>, i: nat, j: nat)
    requires |was| == |ds| && i < |ds| && j < |ds|
  {
    !ds[i].action.Merge? && !ds[j].action.Merge? && Overlap(was[i], was[j])
  }

  // --- The pass ---------------------------------------------------------------------------

  /** The positions of a component's mergeable records, in list order. */
  function Group(ds: seq<Decision>, comp: Component, n: nat): (g: seq<nat>)
    requires n <= |ds|
    ensures forall p | 0 <= p < |g| :: g[p] < n && Mergeable(ds[g[p]]) && ds[g[p]].component == comp
    ensures forall p, q | 0 <= p < q < |g| :: g[p] < g[q]
    ensures forall i | 0 <= i < n && Mergeable(ds[i]) && ds[i].component == comp :: i in g
  {
    if n == 0 then []
    else
      var g := Group(ds, comp, n - 1);
      if Mergeable(ds[n - 1]) && ds[n - 1].component == comp then g + [n - 1] else g
  }

  class Pass {
    var decisions: seq<Decision>
    var used: set<Uuid>

    constructor (decisions: seq<Decision>)
      ensures this.decisions == decisions && used == {}
    {
      this.decisions, used := decisions, {};
    }

    /** `used` holds the ids of the records merged away so far. */
    ghost predicate Tracks(was: seq<Decision>)
      reads this
    {
      && Fresh(was) && Justified(was, decisions)
      && forall i | 0 <= i < |decisions| :: decisions[i].id in used <==> decisions[i].action.Merge?
    }

    /** The body of the two inner loops: the weaker of the pair gives way to the stronger. */
    method MergePair(ghost was: seq<Decision>, i: nat, j: nat)
      requires Tracks(was) && i < j < |decisions|
      requires was[i].component == was[j].component && was[i].component != Other
      requires Mergeable(was[i]) && Mergeable(was[j]) && Overlap(was[i], was[j])
      modifies this
      ensures Tracks(was) && Grew(was, old(decisions), decisions, was[i].component)
      ensures decisions[i].action.Merge? || decisions[j].action.Merge?
    {
      var a, b := decisions[i], decisions[j];
      var keep, drop := i, j;
      if Less(a.score, b.score) {
        keep, drop := j, i;
      }
      ghost var before := decisions;
      decisions := decisions[drop := decisions[drop].(action := Merge, mergeInto := Some(decisions[keep].id))];
      used := used + {decisions[drop].id};
      Order(a.score, b.score);
      assert MergedInto(was, decisions, drop, keep) by {
        assert before[drop].(action := Merge, mergeInto := None) == was[drop].(action := Merge, mergeInto := None) by {
          if before[drop].action.Merge? {
            assert HasKeeper(was, before, drop);
          }
        }
      }
      forall m | 0 <= m < |decisions| && decisions[m].action.Merge? ensures HasKeeper(was, decisions, m) {
        if m == drop {
          assert MergedInto(was, decisions, m, keep);
        } else {
          assert HasKeeper(was, before, m);
          var k: nat :| k < |before| && MergedInto(was, before, m, k);
          assert MergedInto(was, decisions, m, k);
        }
      }
    }

    /** The body of the innermost loop: `b` is passed over when merged already or not alike. */
    method ComparePair(ghost was: seq<Decision>, i: nat, j: nat)
      requires Tracks(was) && i < j < |decisions|
      requires was[i].component == was[j].component && was[i].component != Other
      requires Mergeable(was[i]) && Mergeable(was[j])
      modifies this
      ensures Tracks(was) && Grew(was, old(decisions), decisions, was[i].component)
      ensures !Overlooked(was, decisions, i, j)
    {
      var a, b := decisions[i], decisions[j];
      if b.id !in used {
        SameTokens(was, decisions, i, j);
        AlikeIff(was[i], was[j]);
        if Alike(a, b) {
          MergePair(was, i, j);
        }
      }
    }

    /** The loop over the later records `b` of a group, for one `a`. */
    method MergeLater(ghost was: seq<Decision>, group: seq<nat>, p: nat, ghost comp: Component)
      requires Tracks(was) && comp != Other
      requires InComponent(was, group, comp) && p < |group|
      modifies this
      ensures Tracks(was) && Grew(was, old(decisions), decisions, comp)
      ensures SettledFor(was, decisions, group, p, |group|)
    {
      for q := p + 1 to |group|
        invariant Tracks(was) && Grew(was, old(decisions), decisions, comp)
        invariant SettledFor(was, decisions, group, p, q)
      {
        ghost var before := decisions;
        ComparePair(was, group[p], group[q]);
        GrowsOn(was, old(decisions), before, decisions, comp);
        SettledGrows(was, before, decisions, group, p, q, comp);
      }
    }

    method MergeGroup(ghost was: seq<Decision>, group: seq<nat>, ghost comp: Component)
      requires Tracks(was) && comp != Other
      requires InComponent(was, group, comp)
      modifies this
      ensures Tracks(was) && Grew(was, old(decisions), decisions, comp)
      ensures Settled(was, decisions, group, |group|)
    {
      for p := 0 to |group|
        invariant Tracks(was) && Grew(was, old(decisions), decisions, comp)
        invariant Settled(was, decisions, group, p)
      {
        ghost var before := decisions;
        if decisions[group[p]].id !in used {
          MergeLater(was, group, p, comp);
        } else {
          assert decisions[group[p]].action.Merge?;
        }
        GrowsOn(was, old(decisions), before, decisions, comp);
        AllSettledGrow(was, before, decisions, group, p, comp);
      }
    }

    method DetectMerges()
      requires Fresh(decisions) && used == {}
      modifies this
      ensures Justified(old(decisions), decisions)
      ensures Complete(old(decisions), decisions)
    {
      ghost var was := decisions;
      var comps := Components(decisions);
      for c := 0 to |comps|
        invariant Tracks(was)
        invariant DoneFor(was, decisions, comps[..c])
      {
        ghost var before := decisions;
        var group := GroupNow(was, comps[c]);
        if comps[c] != Other && |group| >= 2 {
          MergeGroup(was, group, comps[c]);
        }
        assert comps[..c + 1] == comps[..c] + [comps[c]];
        ComponentDone(was, before, decisions, comps[..c], comps[c], group);
      }
      assert comps[..|comps|] == comps;
    }

    /** The group as `by_comp` holds it: built before any merge, so from the records as they were. */
    method GroupNow(ghost was: seq<Decision>, comp: Component) returns (group: seq<nat>)
      requires Tracks(was)
      ensures group == Group(was, comp, |was|)
    {
      group := [];
      for i := 0 to |decisions|
        invariant group == Group(was, comp, i)
      {
        var d := decisions[i];
        GroupedAsBefore(was, decisions, i);
        if Mergeable(d) && d.component == comp {
          group := group + [i];
        }
      }
    }
  }

  lemma GroupedAsBefore(was: seq<Decision>, ds: seq<Decision>, i: nat)
    requires Justified(was, ds) && i < |ds|
    ensures Mergeable(ds[i]) == Mergeable(was[i]) && ds[i].component == was[i].component
  {
    if ds[i].action.Merge? { assert HasKeeper(was, ds, i); }
  }

  /** The keys of `by_comp`. */
  method Components(ds: seq<Decision>) returns (comps: seq<Component>)
    ensures forall i | 0 <= i < |ds| && Mergeable(ds[i]) :: ds[i].component in comps
  {
    comps := [];
    for i := 0 to |ds|
      invariant forall j | 0 <= j < i && Mergeable(ds[j]) :: ds[j].component in comps
    {
      if Mergeable(ds[i]) && ds[i].component !in comps {
        comps := comps + [ds[i].component];
      }
    }
  }

  /** The positions of records of one component that may be merged, in list order. */
  ghost predicate InComponent(was: seq<Decision>, group: seq<nat>, comp: Component) {
    && (forall p | 0 <= p < |group| :: group[p] < |was| && Mergeable(was[group[p]]) && was[group[p]].component == comp)
    && forall p, q | 0 <= p < q < |group| :: group[p] < group[q]
  }

  /** Records merged away stay so, and the other components have not changed. */
  ghost predicate Grew(was: seq<Decision>, before: seq<Decision>, after: seq<Decision>, comp: Component) {
    && |was| == |before| == |after|
    && (forall i | 0 <= i < |after| && before[i].action.Merge? :: after[i].action.Merge?)
    && forall i | 0 <= i < |after| && was[i].component != comp :: after[i] == before[i]
  }

  lemma GrowsOn(was: seq<Decision>, first: seq<Decision>, before: seq<Decision>, after: seq<Decision>, comp: Component)
    requires Grew(was, first, before, comp) && Grew(was, before, after, comp)
    ensures Grew(was, first, after, comp)
  {
  }

  /** The record at `group[p]` has been compared with those up to `group[q]`. */
  ghost predicate SettledFor(was: seq<Decision>, ds: seq<Decision>, group: seq<nat>, p: nat, q: nat)
    requires |was| == |ds| && p < |group| && forall r | 0 <= r < |group| :: group[r] < |was|
  {
    forall r | p < r < q && r < |group| :: !Overlooked(was, ds, group[p], group[r])
  }

  ghost predicate Settled(was: seq<Decision>, ds: seq<Decision>, group: seq<nat>, n: nat)
    requires |was| == |ds| && n <= |group| && forall r | 0 <= r < |group| :: group[r] < |was|
  {
    forall p | 0 <= p < n :: SettledFor(was, ds, group, p, |group|)
  }

  lemma SettledGrows(was: seq<Decision>, before: seq<Decision>, after: seq<Decision>, group: seq<nat>, p: nat,
      q: nat, comp: Component)
    requires Grew(was, before, after, comp) && p < |group| && forall r | 0 <= r < |group| :: group[r] < |was|
    requires SettledFor(was, before, group, p, q)
    ensures SettledFor(was, after, group, p, q)
  {
  }

  lemma AllSettledGrow(was: seq<Decision>, before: seq<Decision>, after: seq<Decision>, group: seq<nat>, p: nat,
      comp: Component)
    requires Grew(was, before, after, comp) && p < |group| && forall r | 0 <= r < |group| :: group[r] < |was|
    requires Settled(was, before, group, p)
    requires after[group[p]].action.Merge? || SettledFor(was, after, group, p, |group|)
    ensures Settled(was, after, group, p + 1)
  {
    forall r | 0 <= r < p + 1 ensures SettledFor(was, after, group, r, |group|) {
      if r < p {
        SettledGrows(was, before, after, group, r, |group|, comp);
      }
    }
  }

  ghost predicate DoneFor(was: seq<Decision>, ds: seq<Decision>, comps: seq<Component>) {
    |was| == |ds| && forall i, j | 0 <= i < j < |ds| && Comparable(was, i, j) && was[i].component in comps ::
      !Overlooked(was, ds, i, j)
  }

  lemma ComponentDone(was: seq<Decision>, before: seq<Decision>, after: seq<Decision>, comps: seq<Component>,
      comp: Component, group: seq<nat>)
    requires Grew(was, before, after, comp) && DoneFor(was, before, comps)
    requires group == Group(was, comp, |was|)
    requires comp != Other ==> Settled(was, after, group, |group|)
    ensures DoneFor(was, after, comps + [comp])
  {
    forall i, j | 0 <= i < j < |after| && Comparable(was, i, j) && was[i].component in comps + [comp]
      ensures !Overlooked(was, after, i, j)
    {
      if was[i].component == comp {
        GroupIsDone(was, after, comp, group, i, j);
      } else {
        assert !Overlooked(was, before, i, j);
      }
    }
  }

  lemma GroupIsDone(was: seq<Decision>, after: seq<Decision>, comp: Component, group: seq<nat>, i: nat, j: nat)
    requires |was| == |after| && i < j < |was| && Comparable(was, i, j) && was[i].component == comp
    requires group == Group(was, comp, |was|) && Settled(was, after, group, |group|)
    ensures !Overlooked(was, after, i, j)
  {
    assert i in group && j in group;
    var p :| 0 <= p < |group| && group[p] == i;
    var q :| 0 <= q < |group| && group[q] == j;
    assert p < q;
    assert SettledFor(was, after, group, p, |group|);
  }

  lemma SameTokens(was: seq<Decision>, ds: seq<Decision>, i: nat, j: nat)
    requires Justified(was, ds) && i < |ds| && j < |ds| && !ds[j].action.Merge?
    ensures Alike(ds[i], ds[j]) <==> Alike(was[i], was[j])
  {
    if ds[i].action.Merge? { assert HasKeeper(was, ds, i); }
  }

  lemma Order(a: Score, b: Score)
    ensures Less(a, b) || a == b || Less(b, a)
  {
  }

  ghost predicate Comparable(was: seq<Decision>, i: nat, j: nat)
    requires i < |was| && j < |was|
  {
    was[i].component == was[j].component && was[i].component != Other && IsOpen(was[i]) && IsOpen(was[j])
  }

  /** No pair that both survive would still qualify for a merge. */
  ghost predicate Complete(was: seq<Decision>, ds: seq<Decision>) {
    |was| == |ds| && forall i, j | 0 <= i < j < |ds| && Comparable(was, i, j) :: !Overlooked(was, ds, i, j)
  }

  // --- Chains -----------------------------------------------------------------------------

  ghost function Keeper(was: seq<Decision>, ds: seq<Decision>, i: nat): (k: nat)
    requires Justified(was, ds) && i < |ds| && ds[i].action.Merge?
    ensures k < |ds| && MergedInto(was, ds, i, k)
  {
    assert HasKeeper(was, ds, i);
    var k: nat :| k < |ds| && MergedInto(was, ds, i, k);
    k
  }

  /** `merge_into` followed to its end; every link goes up, so the walk stops. */
  ghost function Survivor(was: seq<Decision>, ds: seq<Decision>, i: nat): nat
    requires Justified(was, ds) && i < |ds|
    decreases Rank(was, i)
  {
    if !ds[i].action.Merge? then i
    else
      AboveLowersRank(was, Keeper(was, ds, i), i);
      Survivor(was, ds, Keeper(was, ds, i))
  }

  /**
    Every merge chain ends at a playbook of the same component that is not itself merged,
    suppressed or deleted, is untouched by the pass, and is above where the chain started.
   */
  lemma {:induction false} ChainsEndAtSurvivors(was: seq<Decision>, ds: seq<Decision>, i: nat)
    requires Justified(was, ds) && i < |ds| && ds[i].action.Merge?
    ensures var r := Survivor(was, ds, i);
            && r < |ds| && ds[r].action !in {Merge, Suppress, Delete} && ds[r] == was[r]
            && ds[r].component == was[i].component && Above(was, r, i)
    decreases Rank(was, i)
  {
    var k := Keeper(was, ds, i);
    AboveLowersRank(was, k, i);
    if ds[k].action.Merge? {
      ChainsEndAtSurvivors(was, ds, k);
    }
  }

  /** The keeper of a merge has the higher specificity, coverage, episode count or lower step count, in that order. */
  lemma KeeperIsStronger(was: seq<Decision>, ds: seq<Decision>, i: nat, k: nat)
    requires |was| == |ds| && i < |ds| && k < |ds| && MergedInto(was, ds, i, k)
    ensures var drop, keep := was[i].score, was[k].score;
            && drop.specificity <= keep.specificity
            && (drop.specificity == keep.specificity ==> drop.coverage <= keep.coverage)
            && (drop.specificity == keep.specificity && drop.coverage == keep.coverage ==> drop.episodes <= keep.episodes)
            && (drop.specificity == keep.specificity && drop.coverage == keep.coverage && drop.episodes == keep.episodes ==>
                  keep.steps <= drop.steps)
            && (drop == keep ==> k < i)
  {
  }

  /** The keeper is the only record with that id, so following ids follows positions. */
  lemma KeeperIsNamed(was: seq<Decision>, ds: seq<Decision>, i: nat, k: nat)
    requires Fresh(was) && Justified(was, ds) && i < |ds| && k < |ds| && ds[i].action.Merge?
    ensures ds[i].mergeInto == Some(ds[k].id) <==> k == Keeper(was, ds, i)
  {
    var m := Keeper(was, ds, i);
    assert was[m].id == ds[m].id && was[k].id == ds[k].id;
    if m < k { assert was[m].id != was[k].id; } else if k < m { assert was[k].id != was[m].id; }
  }
}
