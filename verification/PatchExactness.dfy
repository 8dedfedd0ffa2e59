/**
  When the repair loop of `fix_remediation_defects` is idempotent on every step list: exactly, for
  patches of insertions, and for patches of edits whose texts do not meet.
 */
module PatchExactness {
  import opened Wrappers
  import opened Text
  import opened PatchLoop

  ghost predicate IdempotentFor(es: seq<Edit>, ins: seq<Insertion>) {
    forall steps :: Repair(Repair(steps, es, ins), es, ins) == Repair(steps, es, ins)
  }

  // --- Patches of insertions --------------------------------------------------------------

  /** Each declared text is carried by the step of some insertion that declares it. */
  predicate Supplied(ins: seq<Insertion>) {
    forall i | i in ins :: IsSupplied(ins, i.text)
  }

  predicate IsSupplied(ins: seq<Insertion>, t: string) {
    exists j | j in ins :: Supplies(j, t)
  }

  predicate Supplies(j: Insertion, t: string) {
    j.text == t && Reads(j.step, t)
  }

  lemma RepairInserts(steps: seq<Step>, ins: seq<Insertion>)
    ensures Repair(steps, [], ins) == if Inserted(steps, ins) > 0 then Renumber(InsertAll(steps, ins)) else steps
    ensures |Repair(steps, [], ins)| == |steps| + Inserted(steps, ins)
  {
    assert EditAll(steps, []) == steps && !AnyHits(steps, []);
    InsertAllGrows(steps, ins);
  }

  lemma InsertionAddsTexts(steps: seq<Step>, e: Insertion, t: string)
    ensures HasText(steps, t) ==> HasText(ApplyInsertion(steps, e), t)
    ensures Reads(e.step, e.text) ==> HasText(ApplyInsertion(steps, e), e.text)
    ensures !Reads(e.step, t) && HasText(ApplyInsertion(steps, e), t) ==> HasText(steps, t)
  {
    if !HasText(steps, e.text) {
      var p := Position(e.afterOrder, |steps|);
      var after := Insert(steps, p, e.step);
      assert after[p] == e.step;
      if i :| 0 <= i < |steps| && Reads(steps[i], t) {
        assert Reads(after[if i < p then i else i + 1], t);
      }
      if !Reads(e.step, t) {
        forall i | 0 <= i < |after| && Reads(after[i], t) ensures HasText(steps, t) {
          assert Reads(steps[if i < p then i else i - 1], t);
        }
      }
    }
  }

  lemma {:induction false} InsertAllAddsTexts(steps: seq<Step>, ins: seq<Insertion>, t: string)
    ensures HasText(steps, t) ==> HasText(InsertAll(steps, ins), t)
    decreases |ins|
  {
    if ins != [] {
      InsertionAddsTexts(steps, ins[0], t);
      InsertAllAddsTexts(ApplyInsertion(steps, ins[0]), ins[1..], t);
    }
  }

  lemma {:induction false} SuppliedTextIsThere(steps: seq<Step>, ins: seq<Insertion>, j: Insertion)
    requires j in ins && Reads(j.step, j.text)
    ensures HasText(InsertAll(steps, ins), j.text)
    decreases |ins|
  {
    var next := ApplyInsertion(steps, ins[0]);
    if ins[0] == j {
      InsertionAddsTexts(steps, j, j.text);
      InsertAllAddsTexts(next, ins[1..], j.text);
    } else {
      SuppliedTextIsThere(next, ins[1..], j);
    }
  }

  lemma SuppliedTextStays(steps: seq<Step>, ins: seq<Insertion>, t: string)
    requires IsSupplied(ins, t)
    ensures HasText(InsertAll(steps, ins), t) && HasText(Renumber(InsertAll(steps, ins)), t)
  {
    var j :| j in ins && Supplies(j, t);
    SuppliedTextIsThere(steps, ins, j);
    RenumberKeepsTexts(InsertAll(steps, ins), t);
  }

  lemma SuppliedInsertsOnce(steps: seq<Step>, ins: seq<Insertion>)
    requires Supplied(ins)
    ensures Inserted(Repair(steps, [], ins), ins) == 0
  {
    var full := InsertAll(steps, ins);
    RepairInserts(steps, ins);
    NothingInsertedNothingChanges(steps, ins);
    var once := Repair(steps, [], ins);
    assert once == full || once == Renumber(full);
    forall i | i in ins ensures HasText(once, i.text) {
      SuppliedTextStays(steps, ins, i.text);
    }
    PresentNeverInserted(once, ins);
  }

  /** Every declared text but `t` is there, and no insertion that declares `t` brings it. */
  ghost predicate Lacks(steps: seq<Step>, ins: seq<Insertion>, t: string) {
    && !HasText(steps, t)
    && forall j | j in ins :: if j.text == t then !Reads(j.step, t) else HasText(steps, j.text)
  }

  lemma {:induction false} LacksAfter(steps: seq<Step>, ins: seq<Insertion>, all: seq<Insertion>, t: string)
    requires Lacks(steps, all, t) && forall j | j in ins :: j in all
    ensures Lacks(InsertAll(steps, ins), all, t)
    ensures (exists i | i in ins :: i.text == t) ==> Inserted(steps, ins) > 0
    decreases |ins|
  {
    if ins != [] {
      var next := ApplyInsertion(steps, ins[0]);
      assert ins[0] in ins && forall j | j in ins[1..] :: j in ins;
      InsertionAddsTexts(steps, ins[0], t);
      forall j | j in all && j.text != t ensures HasText(next, j.text) {
        InsertionAddsTexts(steps, ins[0], j.text);
      }
      LacksAfter(next, ins[1..], all, t);
      if i :| i in ins && i.text == t {
        assert i == ins[0] || i in ins[1..];
      }
    }
  }

  lemma LackingGrowsTwice(steps: seq<Step>, ins: seq<Insertion>, i: Insertion)
    requires i in ins && Lacks(steps, ins, i.text)
    ensures Repair(Repair(steps, [], ins), [], ins) != Repair(steps, [], ins)
  {
    var full := InsertAll(steps, ins);
    LacksAfter(steps, ins, ins, i.text);
    RepairInserts(steps, ins);
    RenumberKeepsTexts(full, i.text);
    forall j | j in ins && j.text != i.text ensures HasText(Renumber(full), j.text) {
      RenumberKeepsTexts(full, j.text);
    }
    LacksAfter(Renumber(full), ins, ins, i.text);
    RepairInserts(Renumber(full), ins);
  }

  /** A text with white space around it can be read from no step, so it is inserted every time. */
  lemma {:induction false} UnreadableIsInserted(steps: seq<Step>, ins: seq<Insertion>, i: Insertion)
    requires i in ins && !Stripped(i.text)
    ensures Inserted(steps, ins) > 0
    decreases |ins|
  {
    if ins[0] == i {
      forall k | 0 <= k < |steps| ensures !Reads(steps[k], i.text) {
        if steps[k].Step? { StripIsIdentityIff(Either(steps[k].text, steps[k].instruction)); }
      }
    } else {
      UnreadableIsInserted(ApplyInsertion(steps, ins[0]), ins[1..], i);
    }
  }

  function Carrier(t: string): Step {
    Step(Some(t), None, None, "")
  }

  /** A step for every declared text but `t`. */
  function Carriers(ins: seq<Insertion>, t: string): seq<Step> {
    if ins == [] then []
    else (if ins[0].text == t then [] else [Carrier(ins[0].text)]) + Carriers(ins[1..], t)
  }

  lemma CarrierReads(t: string, u: string)
    requires Stripped(t)
    ensures Reads(Carrier(t), u) <==> t == u
  {
    StripIsIdentityIff(t);
  }

  lemma {:induction false} CarriersRead(ins: seq<Insertion>, t: string, u: string)
    requires forall j | j in ins :: Stripped(j.text)
    ensures HasText(Carriers(ins, t), u) <==> u != t && exists j | j in ins :: j.text == u
  {
    if ins != [] {
      var rest := Carriers(ins[1..], t);
      CarriersRead(ins[1..], t, u);
      assert ins[0] in ins && forall j | j in ins :: j == ins[0] || j in ins[1..];
      CarrierReads(ins[0].text, u);
      if ins[0].text == t {
        assert Carriers(ins, t) == rest;
      } else {
        FirstOrRest(Carrier(ins[0].text), rest, u);
      }
    }
  }

  lemma FirstOrRest(s: Step, rest: seq<Step>, u: string)
    ensures HasText([s] + rest, u) <==> Reads(s, u) || HasText(rest, u)
  {
    var all := [s] + rest;
    assert all[0] == s && forall i | 0 <= i < |rest| :: all[i + 1] == rest[i];
  }

  /** A patch of insertions is idempotent exactly when every declared text is supplied. */
  lemma InsertionsAreIdempotentIff(ins: seq<Insertion>)
    ensures IdempotentFor([], ins) <==> Supplied(ins)
  {
    if Supplied(ins) {
      forall steps ensures Repair(Repair(steps, [], ins), [], ins) == Repair(steps, [], ins) {
        SuppliedInsertsOnce(steps, ins);
        RepairInserts(Repair(steps, [], ins), ins);
      }
    } else if i :| i in ins && !Stripped(i.text) {
      var once := Repair([], [], ins);
      UnreadableIsInserted(once, ins, i);
      RepairInserts(once, ins);
      assert Repair(once, [], ins) != once;
    } else {
      var i :| i in ins && !IsSupplied(ins, i.text);
      assert forall j | j in ins && j.text == i.text :: !Supplies(j, i.text);
      var steps := Carriers(ins, i.text);
      forall j | j in ins ensures HasText(steps, j.text) <==> j.text != i.text {
        CarriersRead(ins, i.text, j.text);
      }
      LackingGrowsTwice(steps, ins, i);
    }
  }

  // --- Patches of edits -------------------------------------------------------------------

  /** An edit that no step list makes edit a second step on a second run. */
  predicate HarmlessEdit(e: Edit) {
    || e.currentText == e.newText
    || !Stripped(e.currentText)
    || (e.newText != "" && (Stripped(e.newText) || Strip(e.newText) == e.currentText))
  }

  /** No edit looks for a text that another one looks for or leaves behind. */
  ghost predicate Independent(es: seq<Edit>) {
    forall i, j | 0 <= i < |es| && 0 <= j < |es| && i != j :: Apart(es[i], es[j])
  }

  predicate Apart(e: Edit, f: Edit) {
    && e.currentText != f.currentText && e.currentText != f.newText
    && Strip(e.newText) != f.currentText && Strip(e.newText) != f.newText
  }

  /** Running the edit changes no step. */
  ghost predicate Quiet(steps: seq<Step>, e: Edit) {
    ApplyEdit(steps, e) == steps
  }

  lemma UnstrippedIsUnread(steps: seq<Step>, t: string)
    requires !Stripped(t)
    ensures !HasText(steps, t)
  {
    forall k | 0 <= k < |steps| ensures !Reads(steps[k], t) {
      if steps[k].Step? { StripIsIdentityIff(Either(steps[k].text, steps[k].instruction)); }
    }
  }

  /** A harmless edit that hits gives its step a text that reads as the stripped new text. */
  lemma HarmlessHit(steps: seq<Step>, e: Edit)
    requires HarmlessEdit(e) && EditHits(steps, e)
    ensures e.newText != "" && (Stripped(e.newText) || Strip(e.newText) == e.currentText)
    ensures Reads(ApplyEdit(steps, e)[First(steps, e.currentText)], Strip(e.newText))
  {
    if !Stripped(e.currentText) { UnstrippedIsUnread(steps, e.currentText); }
  }

  /** After a hit, a first step that reads the old text already has the new one. */
  lemma QuietAfterOwn(steps: seq<Step>, e: Edit)
    requires HarmlessEdit(e)
    ensures Quiet(ApplyEdit(steps, e), e)
  {
    if EditHits(steps, e) {
      HarmlessHit(steps, e);
      StripIsIdentityIff(e.newText);
      var hit := First(steps, e.currentText);
      var after := ApplyEdit(steps, e);
      assert after[hit].text == Some(e.newText);
      if !Stripped(e.newText) {
        assert forall i | 0 <= i < hit :: after[i] == steps[i];
        FirstIsUnique(after, e.currentText, hit);
        assert after[hit].(text := Some(e.newText)) == after[hit];
      }
    }
  }

  /** Another edit takes away a text and brings one, neither of which this one looks for. */
  lemma OtherEditKeepsTexts(steps: seq<Step>, f: Edit, t: string)
    requires HarmlessEdit(f) && f.currentText != t && Strip(f.newText) != t
    ensures HasText(ApplyEdit(steps, f), t) <==> HasText(steps, t)
    ensures forall i | 0 <= i < |steps| :: Reads(ApplyEdit(steps, f)[i], t) <==> Reads(steps[i], t)
    ensures forall i | 0 <= i < |steps| && Reads(steps[i], t) :: ApplyEdit(steps, f)[i] == steps[i]
  {
    if EditHits(steps, f) {
      HarmlessHit(steps, f);
      var after, hit := ApplyEdit(steps, f), First(steps, f.currentText);
      assert !Reads(after[hit], t) && !Reads(steps[hit], t);
      assert forall i | 0 <= i < |steps| && i != hit :: after[i] == steps[i];
      if i :| 0 <= i < |steps| && Reads(steps[i], t) { assert Reads(after[i], t); }
      if i :| 0 <= i < |after| && Reads(after[i], t) { assert Reads(steps[i], t); }
    }
  }

  lemma QuietAfterOther(steps: seq<Step>, e: Edit, f: Edit)
    requires Quiet(steps, e) && HarmlessEdit(f) && Apart(f, e)
    ensures Quiet(ApplyEdit(steps, f), e)
  {
    OtherEditKeepsTexts(steps, f, e.currentText);
    OtherEditKeepsTexts(steps, f, e.newText);
    var after := ApplyEdit(steps, f);
    if EditHits(after, e) {
      var hit := First(steps, e.currentText);
      FirstIsUnique(after, e.currentText, hit);
      assert after[hit] == steps[hit];
      assert steps[hit].(text := Some(e.newText)) == steps[hit];
    }
  }

  lemma QuietAfterRenumber(steps: seq<Step>, e: Edit)
    requires Quiet(steps, e)
    ensures Quiet(Renumber(steps), e)
  {
    var after := Renumber(steps);
    RenumberKeepsTexts(steps, e.currentText);
    RenumberKeepsTexts(steps, e.newText);
    if EditHits(after, e) {
      var hit := First(steps, e.currentText);
      forall i | 0 <= i < |steps| ensures Reads(after[i], e.currentText) <==> Reads(steps[i], e.currentText) {
        NumberingKeepsText(steps[i], i + 1, e.currentText);
      }
      FirstIsUnique(after, e.currentText, hit);
      assert steps[hit].text == Some(e.newText);
      assert after[hit].(text := Some(e.newText)) == after[hit];
    }
  }

  /** From the `k`-th edit on, with those before it quiet. */
  lemma {:induction false} AllQuiet(steps: seq<Step>, es: seq<Edit>, k: nat)
    requires Independent(es) && (forall e | e in es :: HarmlessEdit(e)) && k <= |es|
    requires forall i | 0 <= i < k :: Quiet(steps, es[i])
    ensures forall i | 0 <= i < |es| :: Quiet(EditAll(steps, es[k..]), es[i])
    decreases |es| - k
  {
    if k < |es| {
      var f := es[k];
      var next := ApplyEdit(steps, f);
      assert f in es;
      forall i | 0 <= i <= k ensures Quiet(next, es[i]) {
        if i == k { QuietAfterOwn(steps, f); } else { QuietAfterOther(steps, es[i], f); }
      }
      assert es[k..][0] == f && es[k..][1..] == es[k + 1..];
      AllQuiet(next, es, k + 1);
    }
  }

  lemma {:induction false} QuietEdits(steps: seq<Step>, es: seq<Edit>)
    requires forall e | e in es :: Quiet(steps, e)
    ensures EditAll(steps, es) == steps
  {
    if es != [] {
      assert es[0] in es;
      QuietEdits(steps, es[1..]);
    }
  }

  lemma RepairEdits(steps: seq<Step>, es: seq<Edit>)
    ensures Repair(steps, es, []) == if AnyHits(steps, es) then Renumber(EditAll(steps, es)) else steps
  {
    assert Inserted(EditAll(steps, es), []) == 0 && InsertAll(EditAll(steps, es), []) == EditAll(steps, es);
  }

  lemma HarmlessEditsTwice(steps: seq<Step>, es: seq<Edit>)
    requires Independent(es) && forall e | e in es :: HarmlessEdit(e)
    ensures Repair(Repair(steps, es, []), es, []) == Repair(steps, es, [])
  {
    RepairEdits(steps, es);
    var edited := EditAll(steps, es);
    if AnyHits(steps, es) {
      assert es[0..] == es;
      AllQuiet(steps, es, 0);
      forall e | e in es ensures Quiet(Renumber(edited), e) {
        var i :| 0 <= i < |es| && es[i] == e;
        QuietAfterRenumber(edited, e);
      }
      QuietEdits(Renumber(edited), es);
      RepairEdits(Renumber(edited), es);
      RenumberTwice(edited);
    }
  }

  // --- Two steps that a harmful edit changes one at a time --------------------------------

  function Ys(n: nat): (t: string)
    ensures |t| == n && forall i | 0 <= i < n :: t[i] == 'y'
  {
    seq(n, _ => 'y')
  }

  /** A readable text that no edit looks for. */
  lemma {:induction false} FreshText(es: seq<Edit>) returns (n: nat)
    ensures n > 0 && forall e | e in es :: |e.currentText| < n && |e.newText| < n
  {
    n := 1;
    if es != [] {
      var m := FreshText(es[1..]);
      n := m + |es[0].currentText| + |es[0].newText| + 1;
      assert forall e | e in es :: e == es[0] || e in es[1..];
    }
  }

  /** The step before and after the edit: it reads its old text, then neither text. */
  ghost predicate Twice(s: Step, s': Step, e: Edit) {
    && s.Step? && s.order.None? && s' == s.(text := Some(e.newText)) && s != s'
    && Reads(s, e.currentText) && !Reads(s, e.newText)
    && !Reads(s', e.currentText) && !Reads(s', e.newText)
  }

  lemma HarmfulSteps(es: seq<Edit>, p: nat) returns (s: Step, s': Step)
    requires p < |es| && !HarmlessEdit(es[p]) && Independent(es)
    ensures Twice(s, s', es[p])
    ensures forall i | 0 <= i < |es| && i != p :: !Reads(s, es[i].currentText) && !Reads(s', es[i].currentText)
  {
    var e := es[p];
    var n := FreshText(es);
    var other := if e.newText == "" then Ys(n) else "";
    s := Step(Some(e.currentText), Some(other), None, "");
    s' := s.(text := Some(e.newText));
    StripIsIdentityIff(e.currentText);
    StripIsIdentityIff(e.newText);
    StripIsIdentityIff(other);
    assert StepText(s) == if e.currentText != "" then e.currentText else other;
    assert StepText(s') == if e.newText != "" then Strip(e.newText) else other;
    forall i | 0 <= i < |es| && i != p ensures !Reads(s, es[i].currentText) && !Reads(s', es[i].currentText) {
      assert Apart(e, es[i]) && es[i] in es;
    }
  }

  lemma OneOfTwo(s: Step, s': Step, e: Edit)
    requires Twice(s, s', e)
    ensures EditHits([s, s], e) && ApplyEdit([s, s], e) == [s', s]
    ensures EditHits([s', s], e) && ApplyEdit([s', s], e) == [s', s']
  {
    FirstIsUnique([s, s], e.currentText, 0);
    FirstIsUnique([s', s], e.currentText, 1);
  }

  lemma {:induction false} NothingHits(y: seq<Step>, es: seq<Edit>, k: nat)
    requires k <= |es| && forall i | k <= i < |es| :: !EditHits(y, es[i])
    ensures EditAll(y, es[k..]) == y && !AnyHits(y, es[k..])
    decreases |es| - k
  {
    if k < |es| {
      assert es[k..][0] == es[k] && es[k..][1..] == es[k + 1..];
      NothingHits(y, es, k + 1);
    }
  }

  /** Only the `p`-th edit hits, and it takes `x` to `y`. */
  lemma {:induction false} OnlyOneHits(x: seq<Step>, y: seq<Step>, es: seq<Edit>, k: nat, p: nat)
    requires k <= p < |es| && EditHits(x, es[p]) && ApplyEdit(x, es[p]) == y
    requires forall i | 0 <= i < |es| && i != p :: !EditHits(x, es[i]) && !EditHits(y, es[i])
    ensures EditAll(x, es[k..]) == y && AnyHits(x, es[k..])
    decreases p - k
  {
    assert es[k..][0] == es[k] && es[k..][1..] == es[k + 1..];
    if k == p {
      NothingHits(y, es, k + 1);
    } else {
      OnlyOneHits(x, y, es, k + 1, p);
    }
  }

  lemma HarmfulEditTwice(es: seq<Edit>, p: nat) returns (steps: seq<Step>)
    requires p < |es| && !HarmlessEdit(es[p]) && Independent(es)
    ensures Repair(Repair(steps, es, []), es, []) != Repair(steps, es, [])
  {
    var s, s' := HarmfulSteps(es, p);
    OneOfTwo(s, s', es[p]);
    assert es[0..] == es;
    OnlyOneHits([s, s], [s', s], es, 0, p);
    OnlyOneHits([s', s], [s', s'], es, 0, p);
    RepairEdits([s, s], es);
    RepairEdits([s', s], es);
    assert Renumber([s', s]) == [s', s] && Renumber([s', s']) == [s', s'];
    assert [s', s][1] != [s', s'][1];
    steps := [s, s];
  }

  /** A patch of independent edits is idempotent on every step list exactly when each edit is harmless. */
  lemma EditsAreIdempotentIff(es: seq<Edit>)
    requires Independent(es)
    ensures IdempotentFor(es, []) <==> forall e | e in es :: HarmlessEdit(e)
  {
    if forall e | e in es :: HarmlessEdit(e) {
      forall steps ensures Repair(Repair(steps, es, []), es, []) == Repair(steps, es, []) {
        HarmlessEditsTwice(steps, es);
      }
    } else {
      var p :| 0 <= p < |es| && !HarmlessEdit(es[p]);
      var steps := HarmfulEditTwice(es, p);
    }
  }
}
