/**
  When the repair loop of `fix_remediation_defects` is idempotent on every step list: exactly, for
  patches that mix edits and insertions whose texts do not meet.
 */
module MixedPatches {
  import opened Wrappers
  import opened Text
  import opened PatchLoop
  import opened PatchExactness

  /** No edit looks for a text, or leaves one behind, that an insertion declares or brings. */
  ghost predicate Separate(es: seq<Edit>, ins: seq<Insertion>) {
    forall e, i | e in es && i in ins :: DoNotMeet(e, i)
  }

  predicate DoNotMeet(e: Edit, i: Insertion) {
    && i.text != e.currentText && i.text != e.newText
    && !Reads(i.step, e.currentText)
  }

  // --- Harmless edits and supplied insertions ---------------------------------------------

  /** The first step with a text that the inserted one does not carry moves by at most one. */
  lemma FirstAfterInsertion(steps: seq<Step>, p: nat, s: Step, t: string) returns (moved: nat)
    requires p <= |steps| && HasText(steps, t) && !Reads(s, t)
    ensures IsFirst(Insert(steps, p, s), t, moved) && Insert(steps, p, s)[moved] == steps[First(steps, t)]
  {
    var after, hit := Insert(steps, p, s), First(steps, t);
    moved := if hit < p then hit else hit + 1;
    forall j | 0 <= j < moved ensures !Reads(after[j], t) {
      if j != p {
        var i := if j < p then j else j - 1;
        assert i < hit && after[j] == steps[i];
      }
    }
  }

  lemma QuietAfterInsertion(steps: seq<Step>, e: Edit, i: Insertion)
    requires Quiet(steps, e) && DoNotMeet(e, i)
    ensures Quiet(ApplyInsertion(steps, i), e)
  {
    InsertionAddsTexts(steps, i, e.currentText);
    InsertionAddsTexts(steps, i, e.newText);
    var after := ApplyInsertion(steps, i);
    if EditHits(after, e) && !HasText(steps, i.text) {
      var moved := FirstAfterInsertion(steps, Position(i.afterOrder, |steps|), i.step, e.currentText);
      FirstIsUnique(after, e.currentText, moved);
      assert steps[First(steps, e.currentText)].text == Some(e.newText);
      assert after[moved].(text := Some(e.newText)) == after[moved];
    }
  }

  lemma {:induction false} QuietAfterInsertions(steps: seq<Step>, e: Edit, ins: seq<Insertion>)
    requires Quiet(steps, e) && forall i | i in ins :: DoNotMeet(e, i)
    ensures Quiet(InsertAll(steps, ins), e)
    decreases |ins|
  {
    if ins != [] {
      QuietAfterInsertion(steps, e, ins[0]);
      QuietAfterInsertions(ApplyInsertion(steps, ins[0]), e, ins[1..]);
    }
  }

  lemma EditsAreQuietAfterwards(steps: seq<Step>, es: seq<Edit>, ins: seq<Insertion>)
    requires Independent(es) && Separate(es, ins) && forall e | e in es :: HarmlessEdit(e)
    ensures EditAll(Renumber(InsertAll(EditAll(steps, es), ins)), es) == Renumber(InsertAll(EditAll(steps, es), ins))
  {
    var edited := EditAll(steps, es);
    var full := InsertAll(edited, ins);
    assert es[0..] == es;
    AllQuiet(steps, es, 0);
    forall e | e in es ensures Quiet(Renumber(full), e) {
      var i :| 0 <= i < |es| && es[i] == e;
      QuietAfterInsertions(edited, e, ins);
      QuietAfterRenumber(full, e);
    }
    QuietEdits(Renumber(full), es);
  }

  lemma HarmlessAndSuppliedTwice(steps: seq<Step>, es: seq<Edit>, ins: seq<Insertion>)
    requires Independent(es) && Separate(es, ins) && (forall e | e in es :: HarmlessEdit(e)) && Supplied(ins)
    ensures Repair(Repair(steps, es, ins), es, ins) == Repair(steps, es, ins)
  {
    var edited := EditAll(steps, es);
    if AnyHits(steps, es) || Inserted(edited, ins) > 0 {
      var once := Renumber(InsertAll(edited, ins));
      EditsAreQuietAfterwards(steps, es, ins);
      forall i | i in ins ensures HasText(once, i.text) {
        SuppliedTextStays(edited, ins, i.text);
      }
      PresentNeverInserted(once, ins);
      NothingInsertedNothingChanges(once, ins);
      RenumberTwice(InsertAll(edited, ins));
    }
  }

  // --- What else would show on a second run -----------------------------------------------

  lemma {:induction false} EditAllKeepsLength(steps: seq<Step>, es: seq<Edit>)
    ensures |EditAll(steps, es)| == |steps|
    decreases |es|
  {
    if es != [] {
      EditAllKeepsLength(ApplyEdit(steps, es[0]), es[1..]);
    }
  }

  /** A declared text with white space around it makes every list grow. */
  lemma UnreadableGrows(steps: seq<Step>, es: seq<Edit>, ins: seq<Insertion>, i: Insertion)
    requires i in ins && !Stripped(i.text)
    ensures |Repair(steps, es, ins)| > |steps|
  {
    EditAllKeepsLength(steps, es);
    UnreadableIsInserted(EditAll(steps, es), ins, i);
    InsertAllGrows(EditAll(steps, es), ins);
  }

  lemma NoEditHits(steps: seq<Step>, es: seq<Edit>, ins: seq<Insertion>)
    requires forall e | e in es :: !HasText(steps, e.currentText)
    ensures Repair(steps, es, ins) == Repair(steps, [], ins)
  {
    assert es[0..] == es && forall i | 0 <= i < |es| :: es[i] in es;
    NothingHits(steps, es, 0);
  }

  lemma {:induction false} InsertionsBringNothingElse(steps: seq<Step>, ins: seq<Insertion>, t: string)
    requires !HasText(steps, t) && forall i | i in ins :: !Reads(i.step, t)
    ensures !HasText(InsertAll(steps, ins), t)
    decreases |ins|
  {
    if ins != [] {
      InsertionAddsTexts(steps, ins[0], t);
      InsertionsBringNothingElse(ApplyInsertion(steps, ins[0]), ins[1..], t);
    }
  }

  /** A declared text that no insertion supplies is inserted again, where no edit has anything to do. */
  lemma UnsuppliedTwice(es: seq<Edit>, ins: seq<Insertion>, i: Insertion) returns (steps: seq<Step>)
    requires Separate(es, ins) && (forall j | j in ins :: Stripped(j.text))
    requires i in ins && !IsSupplied(ins, i.text)
    ensures Repair(Repair(steps, es, ins), es, ins) != Repair(steps, es, ins)
  {
    steps := Carriers(ins, i.text);
    assert forall j | j in ins && j.text == i.text :: !Supplies(j, i.text);
    forall j | j in ins ensures HasText(steps, j.text) <==> j.text != i.text {
      CarriersRead(ins, i.text, j.text);
    }
    var once := Repair(steps, [], ins);
    RepairInserts(steps, ins);
    forall e | e in es ensures !HasText(steps, e.currentText) && !HasText(once, e.currentText) {
      assert forall j | j in ins :: DoNotMeet(e, j);
      CarriersRead(ins, i.text, e.currentText);
      InsertionsBringNothingElse(steps, ins, e.currentText);
      RenumberKeepsTexts(InsertAll(steps, ins), e.currentText);
    }
    NoEditHits(steps, es, ins);
    NoEditHits(once, es, ins);
    LackingGrowsTwice(steps, ins, i);
  }

  // --- A harmful edit beside carriers of all declared texts -------------------------------

  lemma {:induction false} UndeclaredText(ins: seq<Insertion>) returns (n: nat)
    ensures forall i | i in ins :: |i.text| < n
  {
    n := 0;
    if ins != [] {
      var m := UndeclaredText(ins[1..]);
      n := m + |ins[0].text| + 1;
      assert forall i | i in ins :: i == ins[0] || i in ins[1..];
    }
  }

  /** Steps without a number that carry exactly the declared texts. */
  ghost predicate CarryAll(c: seq<Step>, ins: seq<Insertion>) {
    && (forall u :: HasText(c, u) <==> exists j | j in ins :: j.text == u)
    && forall s | s in c :: s.Step? && s.order.None?
  }

  lemma {:induction false} CarriersHaveNoNumber(ins: seq<Insertion>, t: string)
    ensures forall s | s in Carriers(ins, t) :: s.Step? && s.order.None?
  {
    if ins != [] {
      CarriersHaveNoNumber(ins[1..], t);
    }
  }

  lemma AllCarriers(ins: seq<Insertion>) returns (c: seq<Step>)
    requires forall j | j in ins :: Stripped(j.text)
    ensures CarryAll(c, ins)
  {
    var n := UndeclaredText(ins);
    var t := Ys(n);
    c := Carriers(ins, t);
    forall u ensures HasText(c, u) <==> exists j | j in ins :: j.text == u {
      CarriersRead(ins, t, u);
    }
    CarriersHaveNoNumber(ins, t);
  }

  lemma HasTextOf(a: seq<Step>, c: seq<Step>, u: string)
    ensures HasText(a + c, u) <==> HasText(a, u) || HasText(c, u)
  {
    if i :| 0 <= i < |a| && Reads(a[i], u) { assert Reads((a + c)[i], u); }
    if i :| 0 <= i < |c| && Reads(c[i], u) { assert Reads((a + c)[|a| + i], u); }
    if i :| 0 <= i < |a + c| && Reads((a + c)[i], u) {
      assert if i < |a| then Reads(a[i], u) else Reads(c[i - |a|], u);
    }
  }

  lemma PairReads(a: Step, b: Step, u: string)
    ensures HasText([a, b], u) <==> Reads(a, u) || Reads(b, u)
  {
    assert [a, b][0] == a && [a, b][1] == b;
  }

  /** As with the pair alone: the first step that still reads the old text gets the new one. */
  lemma OneOfTwoBefore(s: Step, s': Step, e: Edit, c: seq<Step>)
    requires Twice(s, s', e) && !HasText(c, e.currentText) && !HasText(c, e.newText)
    ensures EditHits([s, s] + c, e) && ApplyEdit([s, s] + c, e) == [s', s] + c
    ensures EditHits([s', s] + c, e) && ApplyEdit([s', s] + c, e) == [s', s'] + c
  {
    HasTextOf([s, s], c, e.newText);
    HasTextOf([s', s], c, e.newText);
    PairReads(s, s, e.newText);
    PairReads(s', s, e.newText);
    FirstIsUnique([s, s] + c, e.currentText, 0);
    FirstIsUnique([s', s] + c, e.currentText, 1);
    assert ([s, s] + c)[0 := s'] == [s', s] + c;
    assert ([s', s] + c)[1 := s'] == [s', s'] + c;
  }

  lemma NoOtherHits(a: Step, b: Step, e: Edit, c: seq<Step>)
    requires !Reads(a, e.currentText) && !Reads(b, e.currentText) && !HasText(c, e.currentText)
    ensures !EditHits([a, b] + c, e)
  {
    HasTextOf([a, b], c, e.currentText);
    PairReads(a, b, e.currentText);
  }

  lemma NoNumbers(a: Step, b: Step, c: seq<Step>)
    requires (forall s | s in c :: s.Step? && s.order.None?)
    requires a.Step? && a.order.None? && b.Step? && b.order.None?
    ensures Renumber([a, b] + c) == [a, b] + c
  {
    var y := [a, b] + c;
    forall i | 0 <= i < |y| ensures Numbered(y[i], i + 1) == y[i] {
      assert i >= 2 ==> y[i] == c[i - 2] && c[i - 2] in c;
    }
  }

  /** Where all declared texts are there and numbers are not, only the edits show. */
  lemma RepairIsEditing(x: seq<Step>, y: seq<Step>, es: seq<Edit>, ins: seq<Insertion>)
    requires (forall i | i in ins :: HasText(y, i.text)) && Renumber(y) == y
    requires EditAll(x, es) == y && AnyHits(x, es)
    ensures Repair(x, es, ins) == y
  {
    PresentNeverInserted(y, ins);
    NothingInsertedNothingChanges(y, ins);
  }

  lemma HarmfulTwice(es: seq<Edit>, ins: seq<Insertion>, p: nat) returns (steps: seq<Step>)
    requires Independent(es) && Separate(es, ins) && (forall j | j in ins :: Stripped(j.text))
    requires p < |es| && !HarmlessEdit(es[p])
    ensures Repair(Repair(steps, es, ins), es, ins) != Repair(steps, es, ins)
  {
    var s, s' := HarmfulSteps(es, p);
    var c := AllCarriers(ins);
    forall e | e in es ensures !HasText(c, e.currentText) && !HasText(c, e.newText) {
      assert forall j | j in ins :: DoNotMeet(e, j);
    }
    var x, y, z := [s, s] + c, [s', s] + c, [s', s'] + c;
    OneOfTwoBefore(s, s', es[p], c);
    forall i | 0 <= i < |es| && i != p ensures !EditHits(x, es[i]) && !EditHits(y, es[i]) && !EditHits(z, es[i]) {
      assert es[i] in es;
      NoOtherHits(s, s, es[i], c);
      NoOtherHits(s', s, es[i], c);
      NoOtherHits(s', s', es[i], c);
    }
    assert es[0..] == es;
    OnlyOneHits(x, y, es, 0, p);
    OnlyOneHits(y, z, es, 0, p);
    forall i | i in ins ensures HasText(y, i.text) && HasText(z, i.text) {
      HasTextOf([s', s], c, i.text);
      HasTextOf([s', s'], c, i.text);
    }
    NoNumbers(s', s, c);
    NoNumbers(s', s', c);
    RepairIsEditing(x, y, es, ins);
    RepairIsEditing(y, z, es, ins);
    assert y[1] == s && z[1] == s';
    steps := x;
  }

  // --- The exact condition ----------------------------------------------------------------

  /**
    A patch whose texts do not meet is idempotent on every step list exactly when each edit is
    harmless and every declared text is supplied.
   */
  lemma PatchesAreIdempotentIff(es: seq<Edit>, ins: seq<Insertion>)
    requires Independent(es) && Separate(es, ins)
    ensures IdempotentFor(es, ins) <==> (forall e | e in es :: HarmlessEdit(e)) && Supplied(ins)
  {
    if (forall e | e in es :: HarmlessEdit(e)) && Supplied(ins) {
      forall steps ensures Repair(Repair(steps, es, ins), es, ins) == Repair(steps, es, ins) {
        HarmlessAndSuppliedTwice(steps, es, ins);
      }
    } else if i :| i in ins && !Stripped(i.text) {
      UnreadableGrows(Repair([], es, ins), es, ins, i);
    } else if p :| 0 <= p < |es| && !HarmlessEdit(es[p]) {
      var steps := HarmfulTwice(es, ins, p);
    } else {
      var i :| i in ins && !IsSupplied(ins, i.text);
      var steps := UnsuppliedTwice(es, ins, i);
    }
  }
}
