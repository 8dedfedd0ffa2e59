/**
  The repair loop of `fix_remediation_defects`: guarded text edits, guarded insertions and a
  renumbering over one step list, and when running it again changes nothing.
 */
module PatchLoop {
  import opened Wrappers
  import opened Text

  /** An element of the JSON step list: an object with the fields the loop reads, or anything else. */
  datatype Step =
    | Step(text: Option<string>, instruction: Option<string>, order: Option<int>, rest: string)
    | NotAnObject(json: string)

  datatype Edit = Edit(currentText: string, newText: string)
  datatype Insertion = Insertion(afterOrder: int, text: string, step: Step)

  function Either(a: Option<string>, b: Option<string>): string {
    if a.Some? && a.value != "" then a.value else if b.Some? then b.value else ""
  }

  function StepText(s: Step): string
    requires s.Step?
  {
    Strip(Either(s.text, s.instruction))
  }

  predicate Reads(s: Step, t: string) {
    s.Step? && StepText(s) == t
  }

  /** `any(isinstance(s, dict) and step_text(s) == t for s in steps)` */
  predicate HasText(steps: seq<Step>, t: string) {
    exists i | 0 <= i < |steps| :: Reads(steps[i], t)
  }

  predicate IsFirst(steps: seq<Step>, t: string, i: nat) {
    i < |steps| && Reads(steps[i], t) && forall j | 0 <= j < i :: !Reads(steps[j], t)
  }

  lemma {:induction false} FirstExists(steps: seq<Step>, t: string, i: nat)
    requires i < |steps| && Reads(steps[i], t)
    ensures exists first: nat :: IsFirst(steps, t, first)
  {
    if !IsFirst(steps, t, i) {
      var j :| 0 <= j < i && Reads(steps[j], t);
      FirstExists(steps, t, j);
    }
  }

  /** The first step with the text. */
  ghost function First(steps: seq<Step>, t: string): (i: nat)
    requires HasText(steps, t)
    ensures IsFirst(steps, t, i)
  {
    var k :| 0 <= k < |steps| && Reads(steps[k], t);
    FirstExists(steps, t, k);
    var i: nat :| IsFirst(steps, t, i);
    i
  }

  lemma FirstIsUnique(steps: seq<Step>, t: string, i: nat)
    requires IsFirst(steps, t, i)
    ensures HasText(steps, t) && First(steps, t) == i
  {
    var first := First(steps, t);
    assert !(first < i) && !(i < first);
  }

  // --- The loop as a function -------------------------------------------------------------

  predicate EditHits(steps: seq<Step>, e: Edit) {
    !HasText(steps, e.newText) && HasText(steps, e.currentText)
  }

  ghost function ApplyEdit(steps: seq<Step>, e: Edit): seq<Step> {
    if EditHits(steps, e) then
      var hit := First(steps, e.currentText);
      steps[hit := steps[hit].(text := Some(e.newText))]
    else steps
  }

  ghost function EditAll(steps: seq<Step>, es: seq<Edit>): seq<Step>
    decreases |es|
  {
    if es == [] then steps else EditAll(ApplyEdit(steps, es[0]), es[1..])
  }

  ghost predicate AnyHits(steps: seq<Step>, es: seq<Edit>)
    decreases |es|
  {
    es != [] && (EditHits(steps, es[0]) || AnyHits(ApplyEdit(steps, es[0]), es[1..]))
  }

  /** `min(max(after_order + 1, 0), len(steps))` */
  function Position(afterOrder: int, n: nat): (p: nat)
    ensures p <= n
  {
    var p := if afterOrder + 1 < 0 then 0 else afterOrder + 1;
    if p > n then n else p
  }

  function Insert(steps: seq<Step>, p: nat, s: Step): (r: seq<Step>)
    requires p <= |steps|
    ensures |r| == |steps| + 1 && r[p] == s
    ensures forall i | 0 <= i < p :: r[i] == steps[i]
    ensures forall i | p < i < |r| :: r[i] == steps[i - 1]
  {
    steps[..p] + [s] + steps[p..]
  }

  /** A step goes in right after the position declared, at the front before it, and at the end beyond it. */
  lemma InsertionLands(steps: seq<Step>, afterOrder: int, s: Step)
    ensures var after := Insert(steps, Position(afterOrder, |steps|), s);
            && (0 <= afterOrder < |steps| ==>
                  (after == steps[..afterOrder + 1] + [s] + steps[afterOrder + 1..]))
            && (afterOrder < 0 ==> after == [s] + steps)
            && (afterOrder >= |steps| ==> after == steps + [s])
  {
  }

  ghost function ApplyInsertion(steps: seq<Step>, e: Insertion): seq<Step> {
    if HasText(steps, e.text) then steps else Insert(steps, Position(e.afterOrder, |steps|), e.step)
  }

  ghost function InsertAll(steps: seq<Step>, es: seq<Insertion>): seq<Step>
    decreases |es|
  {
    if es == [] then steps else InsertAll(ApplyInsertion(steps, es[0]), es[1..])
  }

  /** How many of the insertions are carried out. */
  ghost function Inserted(steps: seq<Step>, es: seq<Insertion>): nat
    decreases |es|
  {
    if es == [] then 0
    else (if HasText(steps, es[0].text) then 0 else 1) + Inserted(ApplyInsertion(steps, es[0]), es[1..])
  }

  function Numbered(s: Step, n: int): Step {
    if s.Step? && s.order.Some? then s.(order := Some(n)) else s
  }

  function Renumber(steps: seq<Step>): (r: seq<Step>)
    ensures |r| == |steps| && forall i | 0 <= i < |steps| :: r[i] == Numbered(steps[i], i + 1)
  {
    seq(|steps|, i requires 0 <= i < |steps| => Numbered(steps[i], i + 1))
  }

  /** Renumbering happens only when something was edited or inserted. */
  ghost function Repair(steps: seq<Step>, es: seq<Edit>, ins: seq<Insertion>): seq<Step> {
    var edited := EditAll(steps, es);
    if AnyHits(steps, es) || Inserted(edited, ins) > 0 then Renumber(InsertAll(edited, ins)) else steps
  }

  // --- The loop as it runs ----------------------------------------------------------------

  class Playbook {
    var steps: seq<Step>
    var mutated: bool

    constructor (steps: seq<Step>)
      ensures this.steps == steps && !mutated
    {
      this.steps, mutated := steps, false;
    }

    method EditOne(e: Edit)
      modifies this
      ensures steps == ApplyEdit(old(steps), e)
      ensures mutated == (old(mutated) || EditHits(old(steps), e))
    {
      if !HasText(steps, e.newText) {
        var hit := 0;
        while hit < |steps| && !Reads(steps[hit], e.currentText)
          invariant hit <= |steps| && forall j | 0 <= j < hit :: !Reads(steps[j], e.currentText)
        {
          hit := hit + 1;
        }
        if hit < |steps| {
          FirstIsUnique(steps, e.currentText, hit);
          steps := steps[hit := steps[hit].(text := Some(e.newText))];
          mutated := true;
        }
      }
    }

    method EditSteps(es: seq<Edit>)
      modifies this
      ensures steps == EditAll(old(steps), es)
      ensures mutated == (old(mutated) || AnyHits(old(steps), es))
    {
      for k := 0 to |es|
        invariant EditAll(old(steps), es) == EditAll(steps, es[k..])
        invariant mutated || AnyHits(steps, es[k..]) <==> old(mutated) || AnyHits(old(steps), es)
      {
        assert es[k..][0] == es[k] && es[k..][1..] == es[k + 1..];
        EditOne(es[k]);
      }
    }

    method InsertSteps(es: seq<Insertion>)
      modifies this
      ensures steps == InsertAll(old(steps), es)
      ensures mutated == (old(mutated) || Inserted(old(steps), es) > 0)
      ensures |steps| == |old(steps)| + Inserted(old(steps), es)
    {
      for k := 0 to |es|
        invariant InsertAll(old(steps), es) == InsertAll(steps, es[k..])
        invariant mutated || Inserted(steps, es[k..]) > 0 <==> old(mutated) || Inserted(old(steps), es) > 0
        invariant |steps| + Inserted(steps, es[k..]) == |old(steps)| + Inserted(old(steps), es)
      {
        var e := es[k];
        assert es[k..][0] == e && es[k..][1..] == es[k + 1..];
        if !HasText(steps, e.text) {
          steps := Insert(steps, Position(e.afterOrder, |steps|), e.step);
          mutated := true;
        }
      }
    }

    method RenumberSteps()
      modifies `steps
      ensures steps == Renumber(old(steps))
    {
      for n := 0 to |steps|
        invariant |steps| == |old(steps)|
        invariant forall i | 0 <= i < n :: steps[i] == Numbered(old(steps)[i], i + 1)
        invariant forall i | n <= i < |steps| :: steps[i] == old(steps)[i]
      {
        var s := steps[n];
        if s.Step? && s.order.Some? {
          steps := steps[n := s.(order := Some(n + 1))];
        }
      }
    }

    method Run(es: seq<Edit>, ins: seq<Insertion>)
      requires !mutated
      modifies this
      ensures steps == Repair(old(steps), es, ins)
      ensures mutated <==> AnyHits(old(steps), es) || Inserted(EditAll(old(steps), es), ins) > 0
    {
      ghost var was := steps;
      EditSteps(es);
      InsertSteps(ins);
      if mutated {
        RenumberSteps();
      } else {
        NothingHitsNothingChanges(was, es);
        NothingInsertedNothingChanges(steps, ins);
        NothingInsertedNothingChanges(EditAll(was, es), ins);
      }
    }
  }

  lemma {:induction false} NothingHitsNothingChanges(steps: seq<Step>, es: seq<Edit>)
    ensures !AnyHits(steps, es) ==> EditAll(steps, es) == steps
  {
    if es != [] && !AnyHits(steps, es) {
      NothingHitsNothingChanges(steps, es[1..]);
    }
  }

  lemma {:induction false} NothingInsertedNothingChanges(steps: seq<Step>, es: seq<Insertion>)
    ensures Inserted(steps, es) == 0 ==> InsertAll(steps, es) == steps
  {
    if es != [] && Inserted(steps, es) == 0 {
      NothingInsertedNothingChanges(steps, es[1..]);
    }
  }

  // --- When a second run changes nothing --------------------------------------------------

  /** Texts a step can be found by after it has been given them. */
  predicate Findable(t: string) {
    t != "" && Stripped(t)
  }

  ghost predicate WellFormedPatch(es: seq<Edit>, ins: seq<Insertion>) {
    && (forall e | e in es :: Findable(e.newText))
    && (forall e, f | e in es && f in es :: e.newText != f.currentText)
    && (forall i, e | i in ins && e in es :: i.text != e.currentText)
    && (forall i | i in ins :: Reads(i.step, i.text))
  }

  /** The edit has nothing left to do. */
  ghost predicate Settled(steps: seq<Step>, e: Edit) {
    !EditHits(steps, e)
  }

  lemma EditedText(s: Step, t: string)
    requires s.Step? && Findable(t)
    ensures Reads(s.(text := Some(t)), t)
  {
    StripIsIdentityIff(t);
  }

  /** Carrying out one edit settles it, and unsettles none of the others. */
  lemma EditSettles(steps: seq<Step>, e: Edit, f: Edit)
    requires Findable(e.newText) && e.newText != f.currentText && f.newText != e.currentText
    requires e == f || Settled(steps, f)
    ensures Settled(ApplyEdit(steps, e), f)
    ensures HasText(steps, f.newText) ==> HasText(ApplyEdit(steps, e), f.newText)
  {
    if EditHits(steps, e) {
      var after := ApplyEdit(steps, e);
      var hit := First(steps, e.currentText);
      EditedText(steps[hit], e.newText);
      assert Reads(after[hit], e.newText);
      if HasText(steps, f.newText) {
        var i :| 0 <= i < |steps| && Reads(steps[i], f.newText);
        assert i != hit && after[i] == steps[i];
      } else if e != f {
        forall i | 0 <= i < |after| ensures !Reads(after[i], f.currentText) {
          assert i != hit ==> after[i] == steps[i];
        }
      }
    }
  }

  /** From the `k`-th edit on, with those before it settled. */
  lemma {:induction false} EditAllSettles(steps: seq<Step>, es: seq<Edit>, k: nat)
    requires WellFormedPatch(es, []) && k <= |es|
    requires forall i | 0 <= i < k :: Settled(steps, es[i])
    ensures forall i | 0 <= i < |es| :: Settled(EditAll(steps, es[k..]), es[i])
    decreases |es| - k
  {
    if k < |es| {
      var next := ApplyEdit(steps, es[k]);
      forall i | 0 <= i <= k ensures Settled(next, es[i]) {
        assert es[i] in es && es[k] in es;
        EditSettles(steps, es[k], es[i]);
      }
      assert es[k..][0] == es[k] && es[k..][1..] == es[k + 1..];
      EditAllSettles(next, es, k + 1);
    }
  }

  lemma InsertionKeeps(steps: seq<Step>, e: Insertion, t: string)
    requires Reads(e.step, e.text)
    ensures HasText(steps, t) ==> HasText(ApplyInsertion(steps, e), t)
    ensures HasText(ApplyInsertion(steps, e), e.text)
    ensures t != e.text && HasText(ApplyInsertion(steps, e), t) ==> HasText(steps, t)
  {
    if !HasText(steps, e.text) {
      var p := Position(e.afterOrder, |steps|);
      var after := Insert(steps, p, e.step);
      assert Reads(after[p], e.text);
      if i :| 0 <= i < |steps| && Reads(steps[i], t) {
        assert Reads(after[if i < p then i else i + 1], t);
      }
      if t != e.text {
        forall i | 0 <= i < |after| && Reads(after[i], t) ensures HasText(steps, t) {
          assert Reads(steps[if i < p then i else i - 1], t);
        }
      }
    }
  }

  lemma {:induction false} InsertAllKeeps(steps: seq<Step>, ins: seq<Insertion>, t: string)
    requires forall i | i in ins :: Reads(i.step, i.text)
    ensures HasText(steps, t) ==> HasText(InsertAll(steps, ins), t)
    ensures (forall i | i in ins :: i.text != t) && HasText(InsertAll(steps, ins), t) ==> HasText(steps, t)
    ensures (exists i | i in ins :: i.text == t) ==> HasText(InsertAll(steps, ins), t)
    decreases |ins|
  {
    if ins != [] {
      assert ins[0] in ins;
      InsertionKeeps(steps, ins[0], t);
      InsertAllKeeps(ApplyInsertion(steps, ins[0]), ins[1..], t);
      if i :| i in ins && i.text == t {
        assert i == ins[0] || i in ins[1..];
      }
    }
  }

  lemma RenumberKeepsTexts(steps: seq<Step>, t: string)
    ensures HasText(Renumber(steps), t) <==> HasText(steps, t)
  {
    assert forall i | 0 <= i < |steps| :: Reads(Renumber(steps)[i], t) <==> Reads(steps[i], t);
  }

  lemma {:induction false} SettledNeverHits(steps: seq<Step>, es: seq<Edit>)
    requires forall e | e in es :: Settled(steps, e)
    ensures !AnyHits(steps, es)
  {
    if es != [] {
      assert es[0] in es;
      SettledNeverHits(steps, es[1..]);
    }
  }

  lemma {:induction false} PresentNeverInserted(steps: seq<Step>, ins: seq<Insertion>)
    requires forall i | i in ins :: HasText(steps, i.text)
    ensures Inserted(steps, ins) == 0
  {
    if ins != [] {
      assert ins[0] in ins;
      PresentNeverInserted(steps, ins[1..]);
    }
  }

  /** After one run every edit is settled and every inserted text is there. */
  lemma RepairSettles(steps: seq<Step>, es: seq<Edit>, ins: seq<Insertion>)
    requires WellFormedPatch(es, ins)
    ensures forall e | e in es :: Settled(Repair(steps, es, ins), e)
    ensures forall i | i in ins :: HasText(Repair(steps, es, ins), i.text)
  {
    var edited := EditAll(steps, es);
    var full := InsertAll(edited, ins);
    NothingHitsNothingChanges(steps, es);
    NothingInsertedNothingChanges(edited, ins);
    assert es[0..] == es;
    EditAllSettles(steps, es, 0);
    forall e | e in es ensures Settled(full, e) && Settled(Renumber(full), e) {
      InsertAllKeeps(edited, ins, e.newText);
      InsertAllKeeps(edited, ins, e.currentText);
      RenumberKeepsTexts(full, e.newText);
      RenumberKeepsTexts(full, e.currentText);
    }
    forall i | i in ins ensures HasText(full, i.text) && HasText(Renumber(full), i.text) {
      InsertAllKeeps(edited, ins, i.text);
      RenumberKeepsTexts(full, i.text);
    }
  }

  /** With a well-formed patch a second run touches nothing, the numbering included. */
  lemma RepairIsIdempotent(steps: seq<Step>, es: seq<Edit>, ins: seq<Insertion>)
    requires WellFormedPatch(es, ins)
    ensures Repair(Repair(steps, es, ins), es, ins) == Repair(steps, es, ins)
  {
    var once := Repair(steps, es, ins);
    RepairSettles(steps, es, ins);
    SettledNeverHits(once, es);
    NothingHitsNothingChanges(once, es);
    PresentNeverInserted(once, ins);
  }

  lemma RenumberTwice(steps: seq<Step>)
    ensures Renumber(Renumber(steps)) == Renumber(steps)
  {
  }

  lemma NumberingKeepsText(s: Step, n: int, t: string)
    ensures Reads(Numbered(s, n), t) <==> Reads(s, t)
  {
  }

  // --- What the first run keeps -----------------------------------------------------------

  predicate SameButOrder(r: Step, s: Step) {
    if r.Step? then s.Step? && s.(order := r.order) == r else s == r
  }

  /**
    The step `s` is `r`, or `r` with the text of one of the edits; if `exact`, that edit was waiting
    for the text of `r`, and `s` can be found by its new one.
   */
  ghost predicate Edited(r: Step, s: Step, es: seq<Edit>, exact: bool) {
    || s == r
    || exists e | e in es ::
         r.Step? && s == r.(text := Some(e.newText)) && (exact ==> Reads(r, e.currentText) && Reads(s, e.newText))
  }

  /** Where each old step ends up: `at` is increasing, and every other position holds an inserted step. */
  ghost predicate Traces(steps: seq<Step>, after: seq<Step>, ins: seq<Insertion>, at: seq<nat>) {
    && |at| == |steps|
    && (forall i | 0 <= i < |at| :: at[i] < |after| && SameButOrder(steps[i], after[at[i]]))
    && (forall i, j | 0 <= i < j < |at| :: at[i] < at[j])
    && (forall p | 0 <= p < |after| && p !in at :: exists i | i in ins :: SameButOrder(i.step, after[p]))
  }

  /** The edits leave every position in place. */
  lemma {:induction false} EditAllEdits(steps: seq<Step>, now: seq<Step>, es: seq<Edit>, done: seq<Edit>, exact: bool)
    requires (exact ==> WellFormedPatch(done + es, [])) && |now| == |steps|
    requires forall i | 0 <= i < |steps| :: Edited(steps[i], now[i], done, exact)
    ensures |EditAll(now, es)| == |steps|
    ensures forall i | 0 <= i < |steps| :: Edited(steps[i], EditAll(now, es)[i], done + es, exact)
    decreases |es|
  {
    if es == [] {
      assert done + es == done;
    } else {
      var e := es[0];
      assert e in done + es && forall f | f in done :: f in done + es;
      assert done + [e] + es[1..] == done + es;
      forall i | 0 <= i < |steps| ensures Edited(steps[i], ApplyEdit(now, e)[i], done + [e], exact) {
        OneMoreEdit(steps[i], now, i, e, done, exact);
      }
      EditAllEdits(steps, ApplyEdit(now, e), es[1..], done + [e], exact);
    }
  }

  lemma OneMoreEdit(r: Step, now: seq<Step>, i: nat, e: Edit, done: seq<Edit>, exact: bool)
    requires exact ==> Findable(e.newText) && forall f | f in done :: f.newText != e.currentText
    requires i < |now| && Edited(r, now[i], done, exact)
    ensures Edited(r, ApplyEdit(now, e)[i], done + [e], exact)
  {
    var next := ApplyEdit(now, e)[i];
    assert e in done + [e];
    if next == now[i] {
      if now[i] != r {
        var f :| f in done && r.Step? && now[i] == r.(text := Some(f.newText)) &&
                 (exact ==> Reads(r, f.currentText) && Reads(now[i], f.newText));
        assert f in done + [e];
      }
    } else {
      assert now[i].Step? && Reads(now[i], e.currentText);
      assert next == r.(text := Some(e.newText));
      if exact { EditedText(now[i], e.newText); }
    }
  }

  lemma {:induction false} InsertAllTraces(steps: seq<Step>, now: seq<Step>, ins: seq<Insertion>, done: seq<Insertion>,
      at: seq<nat>)
    returns (at': seq<nat>)
    requires Traces(steps, now, done, at)
    ensures Traces(steps, InsertAll(now, ins), done + ins, at')
    decreases |ins|
  {
    if ins == [] {
      assert done + ins == done;
      at' := at;
    } else {
      var shifted := at;
      if HasText(now, ins[0].text) {
        WeakenTraces(steps, now, done, ins[0], at);
      } else {
        shifted := OneInsertionTraces(steps, now, done, ins[0], at);
      }
      assert done + [ins[0]] + ins[1..] == done + ins;
      at' := InsertAllTraces(steps, ApplyInsertion(now, ins[0]), ins[1..], done + [ins[0]], shifted);
    }
  }

  lemma WeakenTraces(steps: seq<Step>, now: seq<Step>, done: seq<Insertion>, i: Insertion, at: seq<nat>)
    requires Traces(steps, now, done, at)
    ensures Traces(steps, now, done + [i], at)
  {
    forall p | 0 <= p < |now| && p !in at ensures exists j | j in done + [i] :: SameButOrder(j.step, now[p]) {
      var j :| j in done && SameButOrder(j.step, now[p]);
      assert j in done + [i];
    }
  }

  function Shift(at: seq<nat>, p: nat): (r: seq<nat>)
    ensures |r| == |at| && forall i | 0 <= i < |at| :: r[i] == if at[i] < p then at[i] else at[i] + 1
  {
    seq(|at|, i requires 0 <= i < |at| => if at[i] < p then at[i] else at[i] + 1)
  }

  lemma OneInsertionTraces(steps: seq<Step>, now: seq<Step>, done: seq<Insertion>, i: Insertion, at: seq<nat>)
    returns (shifted: seq<nat>)
    requires Traces(steps, now, done, at) && !HasText(now, i.text)
    ensures Traces(steps, ApplyInsertion(now, i), done + [i], shifted)
  {
    var p := Position(i.afterOrder, |now|);
    var next := ApplyInsertion(now, i);
    shifted := Shift(at, p);
    forall k | 0 <= k < |at| ensures next[shifted[k]] == now[at[k]] {
    }
    forall q | 0 <= q < |next| && q !in shifted ensures exists j | j in done + [i] :: SameButOrder(j.step, next[q]) {
      if q == p {
        assert i in done + [i] && SameButOrder(i.step, next[q]);
      } else {
        var q0 := if q < p then q else q - 1;
        assert next[q] == now[q0];
        assert forall k | 0 <= k < |at| :: shifted[k] != q;
        assert forall k | 0 <= k < |at| :: at[k] != q0;
        var j :| j in done && SameButOrder(j.step, now[q0]);
        assert j in done + [i];
      }
    }
  }

  lemma RenumberTraces(steps: seq<Step>, now: seq<Step>, ins: seq<Insertion>, at: seq<nat>)
    requires Traces(steps, now, ins, at)
    ensures Traces(steps, Renumber(now), ins, at)
  {
    forall p | 0 <= p < |now| && p !in at ensures exists i | i in ins :: SameButOrder(i.step, Renumber(now)[p]) {
      var i :| i in ins && SameButOrder(i.step, now[p]);
      assert SameButOrder(i.step, Renumber(now)[p]);
    }
  }

  lemma SameTrace(steps: seq<Step>) returns (at: seq<nat>)
    ensures Traces(steps, steps, [], at)
  {
    at := seq(|steps|, i requires 0 <= i < |steps| => i);
    forall p | 0 <= p < |steps| ensures p in at { assert at[p] == p; }
  }

  /**
    Whatever the patch, old steps keep their relative order and change in nothing but their number
    and, by an edit, their text; what is new is an inserted step, and the list grows by those alone.
    With a well-formed patch only steps an edit was waiting for get a new text.
   */
  lemma RepairTraces(steps: seq<Step>, es: seq<Edit>, ins: seq<Insertion>, exact: bool)
    returns (edited: seq<Step>, at: seq<nat>)
    requires exact ==> WellFormedPatch(es, ins)
    ensures |edited| == |steps| && forall i | 0 <= i < |steps| :: Edited(steps[i], edited[i], es, exact)
    ensures Traces(edited, Repair(steps, es, ins), ins, at)
    ensures |Repair(steps, es, ins)| == |steps| + Inserted(edited, ins)
  {
    edited := EditAll(steps, es);
    assert [] + es == es && [] + ins == ins;
    EditAllEdits(steps, steps, es, [], exact);
    at := SameTrace(edited);
    at := InsertAllTraces(edited, edited, ins, [], at);
    RenumberTraces(edited, InsertAll(edited, ins), ins, at);
    InsertAllGrows(edited, ins);
    NothingHitsNothingChanges(steps, es);
    NothingInsertedNothingChanges(edited, ins);
  }

  lemma {:induction false} InsertAllGrows(steps: seq<Step>, ins: seq<Insertion>)
    ensures |InsertAll(steps, ins)| == |steps| + Inserted(steps, ins)
    decreases |ins|
  {
    if ins != [] { InsertAllGrows(ApplyInsertion(steps, ins[0]), ins[1..]); }
  }
}
