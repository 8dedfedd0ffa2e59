/**
  The last pass of `rebuild_steps`: junk and near-duplicates are dropped in one left-to-right
  sweep, the survivors are numbered, and eight at most are returned.
 */
module RebuildSteps {
  import Merges

  const MOST_STEPS: nat := 8

  /** A step as this pass reads it: the text found by `step_text`, its number, everything else. */
  datatype Step = Step(text: string, order: nat, rest: string)

  /** What the pass asks of texts: does one match the junk pattern, is one a near-duplicate of another. */
  datatype Judge = Judge(junk: string -> bool, near: (string, string) -> bool)

  type Tokens = string -> set<string>

  /** The two overlap tests of the pass. */
  predicate Overlap(tokens: Tokens, a: string, b: string) {
    && Merges.OverlapRatio(tokens(a), tokens(b)) > 0.88
    && Merges.OverlapRatio(tokens(b), tokens(a)) > 0.88
  }

  function ByTokens(junk: string -> bool, tokens: Tokens): Judge {
    Judge(junk, (a, b) => Overlap(tokens, a, b))
  }

  // --- The sweep as a function ------------------------------------------------------------

  predicate Increasing(at: seq<nat>, n: nat) {
    && (forall k | 0 <= k < |at| :: at[k] < n)
    && (forall k, l | 0 <= k < l < |at| :: at[k] < at[l])
  }

  predicate Keeps(j: Judge, steps: seq<Step>, at: seq<nat>, i: nat)
    requires i < |steps| && Increasing(at, |steps|)
  {
    !j.junk(steps[i].text) && forall k | 0 <= k < |at| :: !j.near(steps[i].text, steps[at[k]].text)
  }

  /** The positions kept among the first `n`. */
  function Kept(j: Judge, steps: seq<Step>, n: nat): (at: seq<nat>)
    requires n <= |steps|
    ensures Increasing(at, n)
  {
    if n == 0 then []
    else
      var at := Kept(j, steps, n - 1);
      if Keeps(j, steps, at, n - 1) then at + [n - 1] else at
  }

  /** The steps at the given positions, numbered from one. */
  function Numbered(steps: seq<Step>, at: seq<nat>): (r: seq<Step>)
    requires Increasing(at, |steps|)
    ensures |r| == |at| && forall k | 0 <= k < |r| :: r[k] == steps[at[k]].(order := k + 1)
  {
    seq(|at|, k requires 0 <= k < |at| => steps[at[k]].(order := k + 1))
  }

  function Final(j: Judge, steps: seq<Step>): (final: seq<Step>)
    ensures |final| <= 8
  {
    var all := Numbered(steps, Kept(j, steps, |steps|));
    if |all| < MOST_STEPS then all else all[..MOST_STEPS]
  }

  /** The two tests of the loop, on the list built so far. */
  predicate Drops(j: Judge, final: seq<Step>, s: Step) {
    j.junk(s.text) || exists k | 0 <= k < |final| :: j.near(s.text, final[k].text)
  }

  lemma OneMoreStep(j: Judge, steps: seq<Step>, n: nat, final: seq<Step>)
    requires n < |steps| && final == Numbered(steps, Kept(j, steps, n))
    ensures Numbered(steps, Kept(j, steps, n + 1))
      == if Drops(j, final, steps[n]) then final else final + [steps[n].(order := |final| + 1)]
  {
    var at := Kept(j, steps, n);
    assert Keeps(j, steps, at, n) <==> !Drops(j, final, steps[n]) by {
      assert forall k | 0 <= k < |final| :: final[k].text == steps[at[k]].text;
    }
  }

  method Finish(junk: string -> bool, tokens: Tokens, rebuilt: seq<Step>) returns (steps: seq<Step>)
    ensures steps == Final(ByTokens(junk, tokens), rebuilt)
  {
    steps := Sweep(ByTokens(junk, tokens), rebuilt);
  }

  method Sweep(j: Judge, rebuilt: seq<Step>) returns (steps: seq<Step>)
    ensures steps == Final(j, rebuilt)
  {
    var final: seq<Step> := [];
    for n := 0 to |rebuilt|
      invariant final == Numbered(rebuilt, Kept(j, rebuilt, n))
    {
      var s := rebuilt[n];
      OneMoreStep(j, rebuilt, n, final);
      if !Drops(j, final, s) {
        final := final + [s.(order := |final| + 1)];
      }
    }
    steps := if |final| < MOST_STEPS then final else final[..MOST_STEPS];
  }

  // --- What is kept -----------------------------------------------------------------------

  /** No step kept before position `i` is a near-duplicate of the step there. */
  predicate IsNew(j: Judge, steps: seq<Step>, at: seq<nat>, i: nat)
    requires Increasing(at, |steps|) && i < |steps|
  {
    forall k | 0 <= k < |at| && at[k] < i :: !j.near(steps[i].text, steps[at[k]].text)
  }

  lemma IsNewBefore(j: Judge, steps: seq<Step>, at: seq<nat>, n: nat, i: nat)
    requires i <= n < |steps| && Increasing(at, n)
    ensures Increasing(at, |steps|) && Increasing(at + [n], |steps|)
    ensures IsNew(j, steps, at + [n], i) <==> IsNew(j, steps, at, i)
    ensures i < n ==> (i in at + [n] <==> i in at)
  {
    var more := at + [n];
    assert more[|at|] == n && forall k | 0 <= k < |at| :: more[k] == at[k];
  }

  /** A step is kept exactly when it is neither junk nor near one kept before it. */
  lemma {:induction false} KeptIff(j: Judge, steps: seq<Step>, n: nat, i: nat)
    requires i < n <= |steps|
    ensures i in Kept(j, steps, n) <==> !j.junk(steps[i].text) && IsNew(j, steps, Kept(j, steps, n), i)
  {
    var before := Kept(j, steps, n - 1);
    IsNewBefore(j, steps, before, n - 1, i);
    if i < n - 1 {
      KeptIff(j, steps, n - 1, i);
    } else {
      assert Keeps(j, steps, before, i) <==> !j.junk(steps[i].text) && IsNew(j, steps, before, i);
    }
  }

  /** Numbered from one, no junk, and no two of them near-duplicates. */
  lemma FinalIsDistinct(j: Judge, steps: seq<Step>)
    ensures forall k | 0 <= k < |Final(j, steps)| :: Final(j, steps)[k].order == k + 1 && !j.junk(Final(j, steps)[k].text)
    ensures forall k, l | 0 <= k < l < |Final(j, steps)| :: !j.near(Final(j, steps)[l].text, Final(j, steps)[k].text)
  {
    var at, final := Kept(j, steps, |steps|), Final(j, steps);
    forall k | 0 <= k < |final| ensures !j.junk(final[k].text) && IsNew(j, steps, at, at[k]) {
      assert at[k] in at;
      KeptIff(j, steps, |steps|, at[k]);
    }
    forall k, l | 0 <= k < l < |final| ensures !j.near(final[l].text, final[k].text) {
      assert at[k] < at[l] && IsNew(j, steps, at, at[l]);
    }
  }

  /** No two steps returned by the script overlap above 0.88 both ways. */
  lemma NoTwoOverlap(junk: string -> bool, tokens: Tokens, steps: seq<Step>, k: nat, l: nat)
    requires k < |Final(ByTokens(junk, tokens), steps)| && l < |Final(ByTokens(junk, tokens), steps)| && k != l
    ensures
      var final := Final(ByTokens(junk, tokens), steps);
      !Overlap(tokens, final[k].text, final[l].text)
  {
    var j := ByTokens(junk, tokens);
    FinalIsDistinct(j, steps);
    var low, high := if k < l then k else l, if k < l then l else k;
    assert !j.near(Final(j, steps)[high].text, Final(j, steps)[low].text);
  }

  /** The steps returned come in the order they had. */
  lemma FinalKeepsOrder(j: Judge, steps: seq<Step>) returns (at: seq<nat>)
    ensures |at| == |Final(j, steps)| && Increasing(at, |steps|)
    ensures forall k | 0 <= k < |at| :: Final(j, steps)[k] == steps[at[k]].(order := k + 1)
  {
    at := Kept(j, steps, |steps|)[..|Final(j, steps)|];
  }

  /** With fewer than eight kept, every step missing is junk or repeats one that was kept before it. */
  lemma DroppedForAReason(j: Judge, steps: seq<Step>, i: nat)
    requires |Final(j, steps)| < 8 && i < |steps|
    ensures
      || j.junk(steps[i].text)
      || exists k | 0 <= k < |Final(j, steps)| ::
           Final(j, steps)[k].text == steps[i].text || j.near(steps[i].text, Final(j, steps)[k].text)
  {
    var at, final := Kept(j, steps, |steps|), Final(j, steps);
    KeptIff(j, steps, |steps|, i);
    if !j.junk(steps[i].text) {
      var k :| 0 <= k < |at| && (at[k] == i || j.near(steps[i].text, steps[at[k]].text));
      assert final[k].text == steps[at[k]].text;
    }
  }

  lemma {:induction false} AllKept(j: Judge, steps: seq<Step>, n: nat)
    requires n <= |steps| && forall k | 0 <= k < |steps| :: !j.junk(steps[k].text)
    requires forall k, l | 0 <= k < l < |steps| :: !j.near(steps[l].text, steps[k].text)
    ensures |Kept(j, steps, n)| == n && forall k | 0 <= k < n :: Kept(j, steps, n)[k] == k
  {
    if n > 0 {
      AllKept(j, steps, n - 1);
      assert Keeps(j, steps, Kept(j, steps, n - 1), n - 1);
    }
  }

  /** Passing a final list through again changes nothing. */
  lemma FinalIsStable(j: Judge, steps: seq<Step>)
    ensures Final(j, Final(j, steps)) == Final(j, steps)
  {
    FinalIsDistinct(j, steps);
    var final := Final(j, steps);
    AllKept(j, final, |final|);
    assert Numbered(final, Kept(j, final, |final|)) == final;
  }

  /** A step is a near-duplicate of its own text exactly when that text has a token. */
  lemma TwinsOverlapIff(tokens: Tokens, t: string)
    ensures Overlap(tokens, t, t) <==> tokens(t) != {}
  {
    assert tokens(t) * tokens(t) == tokens(t);
  }
}
