/**
  When the repair loop of `fix_remediation_defects` is idempotent on every step list for a patch of
  two edits, even where one looks for what the other leaves behind.
 */
module EditPairs {
  import opened Wrappers
  import opened Text
  import opened PatchLoop
  import opened PatchExactness

  /** An edit that changes no step list: it has its text already, or looks for one no step reads as. */
  predicate Idle(e: Edit) {
    e.currentText == e.newText || !Stripped(e.currentText)
  }

  lemma PairOfEdits(steps: seq<Step>, e: Edit, f: Edit)
    ensures EditAll(steps, [e, f]) == ApplyEdit(ApplyEdit(steps, e), f)
    ensures AnyHits(steps, [e, f]) <==> EditHits(steps, e) || EditHits(ApplyEdit(steps, e), f)
  {
    var once := ApplyEdit(steps, e);
    assert [e, f][1..] == [f] && [f][1..] == [];
    assert EditAll(once, [f]) == EditAll(ApplyEdit(once, f), []);
    assert AnyHits(once, [f]) <==> EditHits(once, f);
  }

  lemma PairRepair(steps: seq<Step>, e: Edit, f: Edit)
    ensures var edited := ApplyEdit(ApplyEdit(steps, e), f);
            Repair(steps, [e, f], []) ==
            if EditHits(steps, e) || EditHits(ApplyEdit(steps, e), f) then Renumber(edited) else steps
  {
    PairOfEdits(steps, e, f);
    RepairEdits(steps, [e, f]);
  }

  // --- An idle edit beside another --------------------------------------------------------

  lemma IdleNeverHits(steps: seq<Step>, e: Edit)
    requires Idle(e)
    ensures !EditHits(steps, e)
  {
    if !Stripped(e.currentText) { UnstrippedIsUnread(steps, e.currentText); }
  }

  /** The other one alone, with a findable text, has nothing to do a second time. */
  lemma OneActsTwice(steps: seq<Step>, e: Edit)
    requires Findable(e.newText) && e.newText != e.currentText
    ensures !EditHits(Renumber(ApplyEdit(steps, e)), e)
  {
    EditSettles(steps, e, e);
    RenumberKeepsTexts(ApplyEdit(steps, e), e.newText);
    RenumberKeepsTexts(ApplyEdit(steps, e), e.currentText);
  }

  lemma WithIdleTwice(steps: seq<Step>, e: Edit, f: Edit)
    requires Findable(e.newText) && Findable(f.newText) && (Idle(e) || Idle(f))
    ensures Repair(Repair(steps, [e, f], []), [e, f], []) == Repair(steps, [e, f], [])
  {
    var other := if Idle(e) then f else e;
    var once := Repair(steps, [e, f], []);
    PairRepair(steps, e, f);
    PairRepair(once, e, f);
    forall now ensures (Idle(e) ==> !EditHits(now, e)) && (Idle(f) ==> !EditHits(now, f)) {
      if Idle(e) { IdleNeverHits(now, e); }
      if Idle(f) { IdleNeverHits(now, f); }
    }
    if !Idle(other) { OneActsTwice(steps, other); }
  }

  // --- Edits that undo each other ---------------------------------------------------------

  /** The only step that reads as `a` has that very text. */
  ghost predicate OnlyAt(steps: seq<Step>, a: string, h: nat) {
    && IsFirst(steps, a, h) && steps[h].text == Some(a)
    && forall i | 0 <= i < |steps| && i != h :: !Reads(steps[i], a)
  }

  /** Both texts are there, or the first one only, in one step. */
  ghost predicate Balanced(steps: seq<Step>, a: string, b: string) {
    HasText(steps, a) && (HasText(steps, b) || exists h: nat :: OnlyAt(steps, a, h))
  }

  /** The step at `h` reads as `t` now, and the others are as before. */
  lemma HitReads(steps: seq<Step>, h: nat, t: string)
    requires Findable(t) && h < |steps| && steps[h].Step?
    ensures var after := steps[h := steps[h].(text := Some(t))];
            && Reads(after[h], t) && (forall u | u != t :: !Reads(after[h], u))
            && forall i | 0 <= i < |steps| && i != h :: after[i] == steps[i]
  {
    StripIsIdentityIff(t);
  }

  /** The second edit gives the step that the first one changed its text back, where no other reads so. */
  lemma ThereAndBack(steps: seq<Step>, e: Edit, f: Edit)
    requires Findable(e.newText) && Findable(f.newText) && e.newText == f.currentText && f.newText == e.currentText
    requires e.newText != e.currentText && EditHits(steps, e)
    ensures var h := First(steps, e.currentText);
            var back := steps[h := steps[h].(text := Some(e.currentText))];
            var edited := ApplyEdit(ApplyEdit(steps, e), f);
            if exists i | 0 <= i < |steps| && i != h :: Reads(steps[i], e.currentText)
            then HasText(edited, e.currentText) && HasText(edited, e.newText)
            else edited == back && OnlyAt(back, e.currentText, h)
  {
    var a, b := e.currentText, e.newText;
    var h := First(steps, a);
    var once := ApplyEdit(steps, e);
    HitReads(steps, h, b);
    HitReads(steps, h, a);
    assert Reads(once[h], b) && HasText(once, b);
    if i :| 0 <= i < |steps| && i != h && Reads(steps[i], a) {
      assert Reads(once[i], a);
    } else {
      forall i | 0 <= i < |steps| && i != h ensures !Reads(once[i], b) && !Reads(once[i], a) {
        assert once[i] == steps[i];
      }
      assert !HasText(once, a);
      FirstIsUnique(once, b, h);
      assert ApplyEdit(once, f) == once[h := once[h].(text := Some(a))];
    }
  }

  lemma BalancedAfterwards(steps: seq<Step>, e: Edit, f: Edit)
    requires Findable(e.newText) && Findable(f.newText) && e.newText == f.currentText && f.newText == e.currentText
    requires e.newText != e.currentText
    requires EditHits(steps, e) || EditHits(ApplyEdit(steps, e), f)
    ensures Balanced(ApplyEdit(ApplyEdit(steps, e), f), e.currentText, e.newText)
  {
    var a, b := e.currentText, e.newText;
    if EditHits(steps, e) {
      ThereAndBack(steps, e, f);
      var h := First(steps, a);
      var back := steps[h := steps[h].(text := Some(a))];
      if OnlyAt(back, a, h) { assert Reads(back[h], a); }
    } else {
      var h, after := First(steps, b), ApplyEdit(steps, f);
      HitReads(steps, h, a);
      assert Reads(after[h], a);
      if i :| 0 <= i < |steps| && i != h && Reads(steps[i], b) {
        assert Reads(after[i], b);
      } else {
        assert OnlyAt(after, a, h);
      }
    }
  }

  lemma BalancedStays(steps: seq<Step>, e: Edit, f: Edit)
    requires Findable(e.newText) && Findable(f.newText) && e.newText == f.currentText && f.newText == e.currentText
    requires e.newText != e.currentText && Balanced(steps, e.currentText, e.newText)
    ensures ApplyEdit(ApplyEdit(steps, e), f) == steps
  {
    if EditHits(steps, e) {
      var h: nat :| OnlyAt(steps, e.currentText, h);
      FirstIsUnique(steps, e.currentText, h);
      ThereAndBack(steps, e, f);
      assert steps[h].(text := Some(e.currentText)) == steps[h];
    }
  }

  lemma BalancedRenumbered(steps: seq<Step>, a: string, b: string)
    requires Balanced(steps, a, b)
    ensures Balanced(Renumber(steps), a, b)
  {
    var after := Renumber(steps);
    RenumberKeepsTexts(steps, a);
    RenumberKeepsTexts(steps, b);
    if !HasText(steps, b) {
      var h: nat :| OnlyAt(steps, a, h);
      forall i | 0 <= i < |steps| ensures Reads(after[i], a) <==> Reads(steps[i], a) {
        NumberingKeepsText(steps[i], i + 1, a);
      }
      assert OnlyAt(after, a, h);
    }
  }

  lemma SwapTwice(steps: seq<Step>, e: Edit, f: Edit)
    requires Findable(e.newText) && Findable(f.newText) && e.newText == f.currentText && f.newText == e.currentText
    requires e.newText != e.currentText
    ensures Repair(Repair(steps, [e, f], []), [e, f], []) == Repair(steps, [e, f], [])
  {
    var once := Repair(steps, [e, f], []);
    PairRepair(steps, e, f);
    PairRepair(once, e, f);
    if EditHits(steps, e) || EditHits(ApplyEdit(steps, e), f) {
      var edited := ApplyEdit(ApplyEdit(steps, e), f);
      BalancedAfterwards(steps, e, f);
      BalancedRenumbered(edited, e.currentText, e.newText);
      BalancedStays(once, e, f);
      RenumberTwice(edited);
    }
  }

  // --- Edits of which one looks for what the other leaves ---------------------------------

  lemma CarrierStep(t: string, u: string)
    requires Stripped(t)
    ensures Carrier(t).Step? && Carrier(t).(text := Some(u)) == Carrier(u)
    ensures forall v :: Reads(Carrier(t), v) <==> v == t
  {
    forall v ensures Reads(Carrier(t), v) <==> v == t { CarrierReads(t, v); }
  }

  lemma OneEdited(s: Step, e: Edit)
    requires Stripped(e.currentText) && Stripped(e.newText) && s == Carrier(e.currentText)
    requires e.currentText != e.newText
    ensures EditHits([s], e) && ApplyEdit([s], e) == [Carrier(e.newText)]
  {
    CarrierStep(e.currentText, e.newText);
    FirstIsUnique([s], e.currentText, 0);
    assert !HasText([s], e.newText);
  }

  lemma Unread(t: string, e: Edit)
    requires Stripped(t) && t != e.currentText
    ensures !EditHits([Carrier(t)], e)
  {
    CarrierStep(t, t);
  }

  /** The second edit leaves what the first one looks for: the next run carries it on. */
  lemma LaterLeaves(e: Edit, f: Edit) returns (steps: seq<Step>)
    requires Findable(e.newText) && Findable(f.newText) && !Idle(e) && !Idle(f)
    requires f.newText == e.currentText && e.newText != f.currentText
    ensures Repair(Repair(steps, [e, f], []), [e, f], []) != Repair(steps, [e, f], [])
  {
    var a, b, c := e.currentText, e.newText, f.currentText;
    steps := [Carrier(c)];
    Unread(c, e);
    OneEdited(Carrier(c), f);
    PairRepair(steps, e, f);
    OneEdited(Carrier(a), e);
    Unread(b, f);
    PairRepair([Carrier(a)], e, f);
    CarrierStep(a, b);
    CarrierStep(b, a);
    assert Renumber([Carrier(a)]) == [Carrier(a)] && Renumber([Carrier(b)]) == [Carrier(b)];
  }

  /** Two steps with carried texts; an edit changes the first that it finds. */
  lemma PairEdited(t: string, u: string, e: Edit)
    requires Stripped(t) && Stripped(u) && Stripped(e.newText) && e.newText != t && e.newText != u
    requires u == e.currentText || t == e.currentText
    ensures EditHits([Carrier(t), Carrier(u)], e)
    ensures ApplyEdit([Carrier(t), Carrier(u)], e) ==
            if t == e.currentText then [Carrier(e.newText), Carrier(u)] else [Carrier(t), Carrier(e.newText)]
  {
    var steps := [Carrier(t), Carrier(u)];
    CarrierStep(t, e.newText);
    CarrierStep(u, e.newText);
    assert !HasText(steps, e.newText);
    FirstIsUnique(steps, e.currentText, if t == e.currentText then 0 else 1);
  }

  /** The first edit leaves what the second one looks for: each run carries one step all the way. */
  lemma EarlierLeaves(e: Edit, f: Edit) returns (steps: seq<Step>)
    requires Findable(e.newText) && Findable(f.newText) && !Idle(e) && !Idle(f)
    requires e.newText == f.currentText && f.newText != e.currentText
    ensures Repair(Repair(steps, [e, f], []), [e, f], []) != Repair(steps, [e, f], [])
  {
    var a, b, d := e.currentText, e.newText, f.newText;
    steps := [Carrier(a), Carrier(a)];
    PairEdited(a, a, e);
    PairEdited(b, a, f);
    PairRepair(steps, e, f);
    var once := [Carrier(d), Carrier(a)];
    assert Renumber(once) == once;
    PairEdited(d, a, e);
    var twice := [Carrier(d), Carrier(b)];
    CarrierStep(d, b);
    CarrierStep(a, b);
    assert Reads(twice[0], d) && !EditHits(twice, f);
    PairRepair(once, e, f);
    assert Renumber(twice) == twice && once[1] == Carrier(a) && twice[1] == Carrier(b);
    CarrierStep(b, a);
    assert Reads(Carrier(b), b) && !Reads(Carrier(a), b);
  }

  // --- The exact condition ----------------------------------------------------------------

  /**
    Two edits with findable new texts are idempotent on every step list exactly when one is idle,
    neither looks for what the other leaves, or they undo each other.
   */
  lemma PairsAreIdempotentIff(e: Edit, f: Edit)
    requires Findable(e.newText) && Findable(f.newText)
    ensures IdempotentFor([e, f], []) <==>
      Idle(e) || Idle(f) || (e.newText == f.currentText <==> f.newText == e.currentText)
  {
    if Idle(e) || Idle(f) {
      forall steps ensures Repair(Repair(steps, [e, f], []), [e, f], []) == Repair(steps, [e, f], []) {
        WithIdleTwice(steps, e, f);
      }
    } else if e.newText == f.currentText && f.newText == e.currentText {
      forall steps ensures Repair(Repair(steps, [e, f], []), [e, f], []) == Repair(steps, [e, f], []) {
        SwapTwice(steps, e, f);
      }
    } else if e.newText == f.currentText {
      var steps := EarlierLeaves(e, f);
    } else if f.newText == e.currentText {
      var steps := LaterLeaves(e, f);
    } else {
      forall steps ensures Repair(Repair(steps, [e, f], []), [e, f], []) == Repair(steps, [e, f], []) {
        RepairIsIdempotent(steps, [e, f], []);
      }
    }
  }
}
