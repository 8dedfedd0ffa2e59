/**
  The comparison in `explain`: removed and added texts are paired greedily by similarity, and what
  finds no partner is left over on either side.
 */
module Pairing {
  import opened Wrappers

  /** The text of a step; only whether two are the same, and how similar, matters here. */
  datatype Text = Text(chars: string)

  const ALIKE: real := 0.45

  /** Partner of each removed text, by position in the added ones. */
  type Partners = seq<Option<nat>>

  type Similarity = (Text, Text) -> real

  datatype Outcome = Outcome(pairs: seq<(Text, Text)>, stillRemoved: seq<Text>, stillAdded: seq<Text>)

  /** `[t for t in xs if t not in set(ys)]` */
  function Missing(xs: seq<Text>, ys: seq<Text>): seq<Text> {
    if xs == [] then []
    else Missing(xs[..|xs| - 1], ys) + (if xs[|xs| - 1] in ys then [] else [xs[|xs| - 1]])
  }

  function Common(xs: seq<Text>, ys: seq<Text>): seq<Text> {
    if xs == [] then []
    else Common(xs[..|xs| - 1], ys) + (if xs[|xs| - 1] in ys then [xs[|xs| - 1]] else [])
  }

  // --- The greedy choice ------------------------------------------------------------------

  predicate Free(m: Partners, i: nat, j: nat)
    requires i <= |m|
  {
    forall k | 0 <= k < i :: m[k] != Some(j)
  }

  /** `j` is the best of the free positions for `o`: the most similar one, and the first of those. */
  predicate Best(sim: Similarity, o: Text, added: seq<Text>, m: Partners, i: nat, j: nat)
    requires i <= |m| && j < |added|
  {
    && Free(m, i, j)
    && forall l | 0 <= l < |added| && l != j && Free(m, i, l) ::
         sim(o, added[l]) < sim(o, added[j]) || (sim(o, added[l]) == sim(o, added[j]) && j < l)
  }

  predicate Chosen(sim: Similarity, o: Text, added: seq<Text>, m: Partners, i: nat)
    requires i < |m|
  {
    match m[i]
    case Some(j) => j < |added| && Best(sim, o, added, m, i, j) && sim(o, added[j]) >= ALIKE
    case None => forall l | 0 <= l < |added| && Free(m, i, l) :: sim(o, added[l]) < ALIKE
  }

  predicate IsGreedy(sim: Similarity, removed: seq<Text>, added: seq<Text>, m: Partners) {
    |m| <= |removed| && forall i | 0 <= i < |m| :: Chosen(sim, removed[i], added, m, i)
  }

  predicate InRange(m: Partners, n: nat) {
    forall i | 0 <= i < |m| && m[i].Some? :: m[i].value < n
  }

  // --- What the choice leaves -------------------------------------------------------------

  function Pairs(removed: seq<Text>, added: seq<Text>, m: Partners): seq<(Text, Text)>
    requires |m| <= |removed| && InRange(m, |added|)
  {
    if m == [] then []
    else
      var i := |m| - 1;
      Pairs(removed, added, m[..i]) + (if m[i].Some? then [(removed[i], added[m[i].value])] else [])
  }

  function StillRemoved(removed: seq<Text>, m: Partners): seq<Text>
    requires |m| <= |removed|
  {
    if m == [] then []
    else StillRemoved(removed, m[..|m| - 1]) + (if m[|m| - 1].Some? then [] else [removed[|m| - 1]])
  }

  /** The positions of added texts that have been given away. */
  function UsedBy(m: Partners): set<nat> {
    if m == [] then {} else UsedBy(m[..|m| - 1]) + (if m[|m| - 1].Some? then {m[|m| - 1].value} else {})
  }

  function StillAdded(added: seq<Text>, used: set<nat>, n: nat): seq<Text>
    requires n <= |added|
  {
    if n == 0 then []
    else StillAdded(added, used, n - 1) + (if n - 1 in used then [] else [added[n - 1]])
  }

  ghost predicate Results(removed: seq<Text>, added: seq<Text>, m: Partners, r: Outcome) {
    && |m| == |removed| && InRange(m, |added|)
    && r == Outcome(Pairs(removed, added, m), StillRemoved(removed, m), StillAdded(added, UsedBy(m), |added|))
  }

  // --- The loops --------------------------------------------------------------------------

  /** The search of one removed text through the added ones. */
  method FindBest(sim: Similarity, o: Text, added: seq<Text>, usedAdd: set<nat>,
      ghost m: Partners) returns (best: Option<nat>)
    requires usedAdd == UsedBy(m)
    ensures Chosen(sim, o, added, m + [best], |m|)
    ensures best.Some? ==> best.value < |added| && best.value !in usedAdd
  {
    var bestI, bestS := -1, 0.0;
    for i := 0 to |added|
      invariant -1 <= bestI < i && bestS >= 0.0
      invariant bestI == -1 ==> bestS == 0.0
      invariant bestI >= 0 ==> bestI !in usedAdd && bestS == sim(o, added[bestI])
      invariant forall l | 0 <= l < i && l !in usedAdd :: sim(o, added[l]) <= bestS
      invariant bestI >= 0 ==> forall l | 0 <= l < bestI && l !in usedAdd :: sim(o, added[l]) < bestS
    {
      if i !in usedAdd {
        var s := sim(o, added[i]);
        if s > bestS {
          bestS, bestI := s, i;
        }
      }
    }
    best := if bestI >= 0 && bestS >= ALIKE then Some(bestI) else None;
    FreeIsUnused(usedAdd, m, best);
  }

  lemma {:induction false} UsedIffSome(m: Partners, j: nat)
    ensures j in UsedBy(m) <==> Some(j) in m
  {
    if m != [] {
      UsedIffSome(m[..|m| - 1], j);
      assert m == m[..|m| - 1] + [m[|m| - 1]];
    }
  }

  lemma FreeIsUnused(usedAdd: set<nat>, m: Partners, last: Option<nat>)
    requires usedAdd == UsedBy(m)
    ensures forall j: nat :: Free(m + [last], |m|, j) <==> j !in usedAdd
  {
    forall j: nat ensures Free(m + [last], |m|, j) <==> j !in usedAdd {
      UsedIffSome(m, j);
      assert forall k | 0 <= k < |m| :: (m + [last])[k] == m[k];
      if Some(j) in m {
        var k :| 0 <= k < |m| && m[k] == Some(j);
        assert (m + [last])[k] == Some(j);
      }
    }
  }

  method PairUp(sim: Similarity, removed: seq<Text>, added: seq<Text>) returns (r: Outcome)
    ensures exists m :: IsGreedy(sim, removed, added, m) && Results(removed, added, m, r)
  {
    var usedAdd: set<nat> := {};
    var pairs: seq<(Text, Text)> := [];
    var stillRemoved: seq<Text> := [];
    ghost var m: Partners := [];
    for n := 0 to |removed|
      invariant |m| == n && IsGreedy(sim, removed, added, m) && InRange(m, |added|)
      invariant usedAdd == UsedBy(m)
      invariant pairs == Pairs(removed, added, m) && stillRemoved == StillRemoved(removed, m)
    {
      var best := FindBest(sim, removed[n], added, usedAdd, m);
      OneMore(sim, removed, added, m, best);
      if best.Some? {
        usedAdd := usedAdd + {best.value};
        pairs := pairs + [(removed[n], added[best.value])];
      } else {
        stillRemoved := stillRemoved + [removed[n]];
      }
      assert (m + [best])[..|m|] == m;
      m := m + [best];
    }
    var stillAdded: seq<Text> := [];
    for n := 0 to |added|
      invariant stillAdded == StillAdded(added, usedAdd, n)
    {
      if n !in usedAdd {
        stillAdded := stillAdded + [added[n]];
      }
    }
    r := Outcome(pairs, stillRemoved, stillAdded);
    assert Results(removed, added, m, r);
  }

  lemma OneMore(sim: Similarity, removed: seq<Text>, added: seq<Text>, m: Partners, best: Option<nat>)
    requires |m| < |removed| && IsGreedy(sim, removed, added, m)
    requires Chosen(sim, removed[|m|], added, m + [best], |m|)
    ensures IsGreedy(sim, removed, added, m + [best]) && (m + [best])[..|m|] == m
  {
    var more := m + [best];
    forall i | 0 <= i < |m| ensures Chosen(sim, removed[i], added, more, i) {
      assert Chosen(sim, removed[i], added, m, i);
      SamePast(m, more, i);
    }
  }

  lemma SamePast(m: Partners, n: Partners, i: nat)
    requires i <= |m| && i <= |n| && forall k | 0 <= k < i :: m[k] == n[k]
    ensures forall j: nat :: Free(m, i, j) <==> Free(n, i, j)
  {
  }

  /** The whole comparison of two step lists. */
  method Compare(sim: Similarity, before: seq<Text>, after: seq<Text>) returns (r: Outcome)
    ensures exists m ::
      IsGreedy(sim, Missing(before, after), Missing(after, before), m)
      && Results(Missing(before, after), Missing(after, before), m, r)
  {
    r := PairUp(sim, Missing(before, after), Missing(after, before));
  }

  // --- What that determines ---------------------------------------------------------------

  /** Greedy partners are determined by the texts and their similarities. */
  lemma {:induction false} GreedyIsUnique(sim: Similarity, removed: seq<Text>, added: seq<Text>, m: Partners, n: Partners)
    requires IsGreedy(sim, removed, added, m) && IsGreedy(sim, removed, added, n) && |m| == |n|
    ensures m == n
  {
    if m != [] {
      var last := |m| - 1;
      Shorter(sim, removed, added, m);
      Shorter(sim, removed, added, n);
      GreedyIsUnique(sim, removed, added, m[..last], n[..last]);
      assert forall k | 0 <= k < last :: m[k] == m[..last][k] == n[..last][k] == n[k];
      SamePast(m, n, last);
      assert Chosen(sim, removed[last], added, m, last) && Chosen(sim, removed[last], added, n, last);
      assert m == m[..last] + [m[last]] && n == n[..last] + [n[last]];
    }
  }

  lemma Shorter(sim: Similarity, removed: seq<Text>, added: seq<Text>, m: Partners)
    requires m != [] && IsGreedy(sim, removed, added, m)
    ensures IsGreedy(sim, removed, added, m[..|m| - 1])
  {
    var less := m[..|m| - 1];
    forall i | 0 <= i < |less| ensures Chosen(sim, removed[i], added, less, i) {
      assert Chosen(sim, removed[i], added, m, i);
      SamePast(m, less, i);
    }
  }

  /** No added text is given away twice. */
  lemma EachUsedOnce(sim: Similarity, removed: seq<Text>, added: seq<Text>, m: Partners, i: nat, k: nat)
    requires IsGreedy(sim, removed, added, m) && i < k < |m| && m[k].Some?
    ensures m[i] != m[k]
  {
    assert Chosen(sim, removed[k], added, m, k);
  }

  /** Two texts left over on the two sides are never alike enough to have been paired. */
  lemma NothingAlikeIsLeft(sim: Similarity, removed: seq<Text>, added: seq<Text>, m: Partners, r: Outcome, o: Text,
      a: Text)
    requires IsGreedy(sim, removed, added, m) && Results(removed, added, m, r)
    requires o in r.stillRemoved && a in r.stillAdded
    ensures sim(o, a) < ALIKE
  {
    var i := RemovedPosition(removed, m, o);
    var j := AddedPosition(added, UsedBy(m), |added|, a);
    UsedIffSome(m, j);
    assert Chosen(sim, removed[i], added, m, i);
    assert Free(m, i, j);
  }

  lemma {:induction false} RemovedPosition(removed: seq<Text>, m: Partners, o: Text) returns (i: nat)
    requires |m| <= |removed| && o in StillRemoved(removed, m)
    ensures i < |m| && m[i].None? && removed[i] == o
  {
    if m[|m| - 1].None? && removed[|m| - 1] == o {
      i := |m| - 1;
    } else {
      i := RemovedPosition(removed, m[..|m| - 1], o);
    }
  }

  lemma {:induction false} AddedPosition(added: seq<Text>, used: set<nat>, n: nat, a: Text) returns (j: nat)
    requires n <= |added| && a in StillAdded(added, used, n)
    ensures j < n && j !in used && added[j] == a
  {
    if n - 1 !in used && added[n - 1] == a {
      j := n - 1;
    } else {
      j := AddedPosition(added, used, n - 1, a);
    }
  }

  // --- Nothing is lost --------------------------------------------------------------------

  function Firsts(pairs: seq<(Text, Text)>): (r: seq<Text>)
    ensures |r| == |pairs|
  {
    seq(|pairs|, i requires 0 <= i < |pairs| => pairs[i].0)
  }

  function Seconds(pairs: seq<(Text, Text)>): (r: seq<Text>)
    ensures |r| == |pairs|
  {
    seq(|pairs|, i requires 0 <= i < |pairs| => pairs[i].1)
  }

  /** How often `t` occurs in `xs`. */
  function Count(xs: seq<Text>, t: Text): nat {
    if xs == [] then 0 else Count(xs[..|xs| - 1], t) + (if xs[|xs| - 1] == t then 1 else 0)
  }

  /** The two ways the lists here grow: by one element, or by none. */
  lemma CountMore(xs: seq<Text>, x: Text, t: Text)
    ensures Count(xs + [x], t) == Count(xs, t) + if x == t then 1 else 0
    ensures xs + [] == xs
  {
    assert (xs + [x])[..|xs|] == xs;
  }

  /** What the last partner adds to the two lists of removed texts. */
  lemma LastRemoved(removed: seq<Text>, added: seq<Text>, m: Partners, t: Text)
    requires m != [] && |m| <= |removed| && InRange(m, |added|)
    ensures
      var i := |m| - 1;
      var firsts, rest := Count(Firsts(Pairs(removed, added, m[..i])), t), Count(StillRemoved(removed, m[..i]), t);
      var one := if removed[i] == t then 1 else 0;
      && Count(Firsts(Pairs(removed, added, m)), t) == firsts + (if m[i].Some? then one else 0)
      && Count(StillRemoved(removed, m), t) == rest + (if m[i].Some? then 0 else one)
  {
    var i := |m| - 1;
    var pairs := Pairs(removed, added, m[..i]);
    CountMore(StillRemoved(removed, m[..i]), removed[i], t);
    CountMore(Firsts(pairs), removed[i], t);
    if m[i].Some? {
      assert Firsts(Pairs(removed, added, m)) == Firsts(pairs) + [removed[i]];
    } else {
      assert Firsts(Pairs(removed, added, m)) == Firsts(pairs);
    }
  }

  lemma {:induction false} RemovedIsPartitioned(removed: seq<Text>, added: seq<Text>, m: Partners, t: Text)
    requires |m| <= |removed| && InRange(m, |added|)
    ensures Count(removed[..|m|], t) == Count(Firsts(Pairs(removed, added, m)), t) + Count(StillRemoved(removed, m), t)
  {
    if m != [] {
      var i := |m| - 1;
      RemovedIsPartitioned(removed, added, m[..i], t);
      assert removed[..i + 1] == removed[..i] + [removed[i]];
      CountMore(removed[..i], removed[i], t);
      LastRemoved(removed, added, m, t);
    }
  }

  lemma LastSecond(removed: seq<Text>, added: seq<Text>, m: Partners, t: Text)
    requires m != [] && |m| <= |removed| && InRange(m, |added|)
    ensures
      var i := |m| - 1;
      Count(Seconds(Pairs(removed, added, m)), t)
        == Count(Seconds(Pairs(removed, added, m[..i])), t) + if m[i].Some? && added[m[i].value] == t then 1 else 0
  {
    var i := |m| - 1;
    var pairs := Pairs(removed, added, m[..i]);
    if m[i].Some? {
      assert Seconds(Pairs(removed, added, m)) == Seconds(pairs) + [added[m[i].value]];
      CountMore(Seconds(pairs), added[m[i].value], t);
    } else {
      assert Seconds(Pairs(removed, added, m)) == Seconds(pairs);
    }
  }

  lemma {:induction false} AddedIsPartitioned(sim: Similarity, removed: seq<Text>, added: seq<Text>, m: Partners, t: Text)
    requires IsGreedy(sim, removed, added, m) && InRange(m, |added|)
    ensures Count(added, t) == Count(Seconds(Pairs(removed, added, m)), t) + Count(StillAdded(added, UsedBy(m), |added|), t)
  {
    if m == [] {
      AllStillAdded(added, |added|);
      assert added[..|added|] == added;
    } else {
      var i := |m| - 1;
      Shorter(sim, removed, added, m);
      AddedIsPartitioned(sim, removed, added, m[..i], t);
      LastSecond(removed, added, m, t);
      StillCounted(added, UsedBy(m[..i]), |added|, t);
      StillCounted(added, UsedBy(m), |added|, t);
      if m[i].Some? {
        assert m[i].value !in UsedBy(m[..i]) by {
          assert Chosen(sim, removed[i], added, m, i);
          UsedIffSome(m[..i], m[i].value);
        }
        OneFewer(added, UsedBy(m[..i]), m[i].value, |added|, t);
      } else {
        assert UsedBy(m) == UsedBy(m[..i]);
      }
    }
  }

  lemma {:induction false} AllStillAdded(added: seq<Text>, n: nat)
    requires n <= |added|
    ensures StillAdded(added, {}, n) == added[..n]
  {
    if n > 0 {
      AllStillAdded(added, n - 1);
      assert added[..n] == added[..n - 1] + [added[n - 1]];
    }
  }

  /** How often `t` occurs among the first `n` added texts that are not used. */
  function StillCount(added: seq<Text>, used: set<nat>, n: nat, t: Text): nat
    requires n <= |added|
  {
    if n == 0 then 0 else StillCount(added, used, n - 1, t) + if n - 1 !in used && added[n - 1] == t then 1 else 0
  }

  lemma {:induction false} StillCounted(added: seq<Text>, used: set<nat>, n: nat, t: Text)
    requires n <= |added|
    ensures Count(StillAdded(added, used, n), t) == StillCount(added, used, n, t)
  {
    if n > 0 {
      StillCounted(added, used, n - 1, t);
      CountMore(StillAdded(added, used, n - 1), added[n - 1], t);
    }
  }

  lemma {:induction false} OneFewer(added: seq<Text>, used: set<nat>, j: nat, n: nat, t: Text)
    requires n <= |added| && j !in used
    ensures StillCount(added, used, n, t)
      == StillCount(added, used + {j}, n, t) + if j < n && added[j] == t then 1 else 0
  {
    if n > 0 {
      OneFewer(added, used, j, n - 1, t);
    }
  }

  lemma {:induction false} MissingAndCommon(xs: seq<Text>, ys: seq<Text>, t: Text)
    ensures Count(xs, t) == Count(Common(xs, ys), t) + Count(Missing(xs, ys), t)
  {
    if xs != [] {
      var n := |xs| - 1;
      MissingAndCommon(xs[..n], ys, t);
      CountMore(Common(xs[..n], ys), xs[n], t);
      CountMore(Missing(xs[..n], ys), xs[n], t);
    }
  }

  lemma {:induction false} MissingIsMissing(xs: seq<Text>, ys: seq<Text>, x: Text)
    requires x in Missing(xs, ys)
    ensures x in xs && x !in ys
  {
    if x in Missing(xs[..|xs| - 1], ys) {
      MissingIsMissing(xs[..|xs| - 1], ys, x);
    }
  }

  /** Every old text is unchanged, paired or left over, and so is every new one, counted with repeats. */
  lemma NothingIsLost(sim: Similarity, before: seq<Text>, after: seq<Text>, m: Partners, r: Outcome, t: Text)
    requires IsGreedy(sim, Missing(before, after), Missing(after, before), m)
    requires Results(Missing(before, after), Missing(after, before), m, r)
    ensures Count(before, t) == Count(Common(before, after), t) + Count(Firsts(r.pairs), t) + Count(r.stillRemoved, t)
    ensures Count(after, t) == Count(Common(after, before), t) + Count(Seconds(r.pairs), t) + Count(r.stillAdded, t)
  {
    var removed, added := Missing(before, after), Missing(after, before);
    MissingAndCommon(before, after, t);
    MissingAndCommon(after, before, t);
    RemovedIsPartitioned(removed, added, m, t);
    AddedIsPartitioned(sim, removed, added, m, t);
    assert removed[..|m|] == removed;
  }

  /** A pair is always a real change: its two texts differ and are at least 0.45 alike. */
  lemma PairsAreChanges(sim: Similarity, before: seq<Text>, after: seq<Text>, m: Partners, r: Outcome, k: nat)
    requires IsGreedy(sim, Missing(before, after), Missing(after, before), m)
    requires Results(Missing(before, after), Missing(after, before), m, r) && k < |r.pairs|
    ensures r.pairs[k].0 in before && r.pairs[k].0 !in after
    ensures r.pairs[k].1 in after && r.pairs[k].1 !in before
    ensures sim(r.pairs[k].0, r.pairs[k].1) >= ALIKE
  {
    var removed, added := Missing(before, after), Missing(after, before);
    var i := PairPosition(removed, added, m, k);
    MissingIsMissing(before, after, removed[i]);
    MissingIsMissing(after, before, added[m[i].value]);
    assert Chosen(sim, removed[i], added, m, i);
  }

  lemma {:induction false} PairPosition(removed: seq<Text>, added: seq<Text>, m: Partners, k: nat) returns (i: nat)
    requires |m| <= |removed| && InRange(m, |added|) && k < |Pairs(removed, added, m)|
    ensures i < |m| && m[i].Some? && Pairs(removed, added, m)[k] == (removed[i], added[m[i].value])
  {
    var last := |m| - 1;
    if k < |Pairs(removed, added, m[..last])| {
      i := PairPosition(removed, added, m[..last], k);
    } else {
      i := last;
    }
  }
}
