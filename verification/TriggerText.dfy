/**
  `flatten_triggers`: a depth-first walk over a JSON value that stops collecting once its budget
  is spent, and the plain text it must agree with.
 */
module TriggerText {
  import opened Text

  const TRIGGER_BUDGET: nat := 1200

  datatype Json =
    | Str(value: string)
    | Dict(values: seq<Json>)
    | List(items: seq<Json>)
    | Scalar

  // --- The plain form ---------------------------------------------------------------------

  /** Every string of the value in traversal order, stripped, the blank ones dropped. */
  function Strings(node: Json): seq<string>
    decreases node
  {
    match node
    case Str(value) => if Strip(value) == "" then [] else [Strip(value)]
    case Dict(values) => StringsOfAll(values)
    case List(items) => StringsOfAll(items)
    case Scalar => []
  }

  function StringsOfAll(nodes: seq<Json>): seq<string>
    decreases nodes
  {
    if nodes == [] then [] else Strings(nodes[0]) + StringsOfAll(nodes[1..])
  }

  /** The value itself, or the one reached through its children, those of objects and of arrays alike. */
  ghost predicate Holds(node: Json, value: string)
    decreases node
  {
    match node
    case Str(v) => v == value
    case Dict(values) => exists i | 0 <= i < |values| :: Holds(values[i], value)
    case List(items) => exists i | 0 <= i < |items| :: Holds(items[i], value)
    case Scalar => false
  }

  lemma {:induction false} InStringsOfAllIff(nodes: seq<Json>, text: string)
    ensures text in StringsOfAll(nodes) <==> exists i | 0 <= i < |nodes| :: text in Strings(nodes[i])
  {
    if nodes != [] {
      InStringsOfAllIff(nodes[1..], text);
      if i :| 0 <= i < |nodes| && text in Strings(nodes[i]) {
        assert i > 0 ==> text in Strings(nodes[1..][i - 1]);
      }
      if i :| 0 <= i < |nodes| - 1 && text in Strings(nodes[1..][i]) {
        assert text in Strings(nodes[i + 1]);
      }
    }
  }

  /** Some string held by the value reads `text` once stripped. */
  ghost predicate HoldsText(node: Json, text: string) {
    exists value :: Holds(node, value) && text == Strip(value)
  }

  lemma HoldsTextIff(node: Json, children: seq<Json>, text: string)
    requires node == Dict(children) || node == List(children)
    ensures HoldsText(node, text) <==> exists i | 0 <= i < |children| :: HoldsText(children[i], text)
  {
    if value :| Holds(node, value) && text == Strip(value) {
      var i :| 0 <= i < |children| && Holds(children[i], value);
      assert HoldsText(children[i], text);
    }
    if i :| 0 <= i < |children| && HoldsText(children[i], text) {
      var value :| Holds(children[i], value) && text == Strip(value);
      assert Holds(node, value);
    }
  }

  /** The collected texts are exactly the strings anywhere in the value, stripped and not blank. */
  lemma {:induction false} StringsAreThoseHeld(node: Json, text: string)
    ensures text in Strings(node) <==> text != "" && HoldsText(node, text)
    decreases node
  {
    match node
    case Str(v) =>
      assert Holds(node, v);
    case Dict(values) =>
      InStringsOfAllIff(values, text);
      HoldsTextIff(node, values, text);
      forall i | 0 <= i < |values| ensures text in Strings(values[i]) <==> text != "" && HoldsText(values[i], text) {
        StringsAreThoseHeld(values[i], text);
      }
    case List(items) =>
      InStringsOfAllIff(items, text);
      HoldsTextIff(node, items, text);
      forall i | 0 <= i < |items| ensures text in Strings(items[i]) <==> text != "" && HoldsText(items[i], text) {
        StringsAreThoseHeld(items[i], text);
      }
    case Scalar =>
  }

  function FirstChars(s: string, n: nat): string {
    if |s| <= n then s else s[..n]
  }

  function Total(parts: seq<string>): nat {
    if parts == [] then 0 else |parts[0]| + Total(parts[1..])
  }

  // --- The walk ---------------------------------------------------------------------------

  /**
    Offered `parts` with `budget` in hand, the walk has appended the first `k` of them: each one
    while some budget was left, and all of them unless none is left now.
   */
  ghost predicate Appended(before: seq<string>, after: seq<string>, parts: seq<string>, budget: int, left: int, k: nat) {
    && k <= |parts| && after == before + parts[..k]
    && left == budget - Total(parts[..k])
    && (forall i | 0 <= i < k :: budget - Total(parts[..i]) > 0)
    && (k < |parts| ==> left <= 0)
  }

  ghost predicate Collected(before: seq<string>, after: seq<string>, parts: seq<string>, budget: int, left: int) {
    exists k: nat :: Appended(before, after, parts, budget, left, k)
  }

  lemma AppendedOne(before: seq<string>, s: string, budget: int)
    requires budget > 0
    ensures Appended(before, before + [s], [s], budget, budget - |s|, 1)
  {
    assert [s][..1] == [s] && [s][..0] == [];
    assert Total([s]) == |s| by { assert [s][1..] == []; }
    forall i | 0 <= i < 1 ensures budget - Total([s][..i]) > 0 {
      assert i == 0;
    }
  }

  class Walk {
    var out: seq<string>
    var budget: int

    constructor ()
      ensures out == [] && budget == TRIGGER_BUDGET
    {
      out, budget := [], TRIGGER_BUDGET;
    }

    method Visit(node: Json)
      modifies this
      ensures Collected(old(out), out, Strings(node), old(budget), budget)
      decreases node, 1
    {
      if budget <= 0 {
        assert Appended(out, out, Strings(node), budget, budget, 0);
        return;
      }
      match node {
        case Str(value) =>
          var s := Strip(value);
          if s != "" {
            out := out + [s];
            budget := budget - |s|;
            AppendedOne(old(out), s, old(budget));
          } else {
            assert Appended(out, out, Strings(node), budget, budget, 0);
          }
        case Dict(values) => VisitAll(values);
        case List(items) => VisitAll(items);
        case Scalar =>
          assert Appended(out, out, Strings(node), budget, budget, 0);
      }
    }

    method VisitAll(nodes: seq<Json>)
      modifies this
      ensures Collected(old(out), out, StringsOfAll(nodes), old(budget), budget)
      decreases nodes, 0
    {
      assert nodes[..0] == [];
      assert Appended(out, out, StringsOfAll(nodes[..0]), budget, budget, 0);
      for n := 0 to |nodes|
        invariant Collected(old(out), out, StringsOfAll(nodes[..n]), old(budget), budget)
      {
        ghost var now, left := out, budget;
        Visit(nodes[n]);
        CollectedTogether(old(out), now, out, StringsOfAll(nodes[..n]), Strings(nodes[n]), old(budget), left, budget);
        OneMore(nodes, n);
      }
      assert nodes[..|nodes|] == nodes;
    }
  }

  /** The budgeted walk returns the first 1200 characters of all the strings joined by blanks. */
  method FlattenTriggers(conditions: Json) returns (text: string)
    ensures text == FirstChars(Joined(Strings(conditions)), TRIGGER_BUDGET)
  {
    var walk := new Walk();
    walk.Visit(conditions);
    text := FirstChars(Joined(walk.out), TRIGGER_BUDGET);
    CollectedIsEnough(walk.out, Strings(conditions), TRIGGER_BUDGET, walk.budget);
  }

  // --- Why stopping early does not show ---------------------------------------------------

  lemma {:induction false} TotalOfConcat(a: seq<string>, b: seq<string>)
    ensures Total(a + b) == Total(a) + Total(b)
  {
    if a == [] {
      assert a + b == b;
    } else {
      assert (a + b)[1..] == a[1..] + b;
      TotalOfConcat(a[1..], b);
    }
  }

  lemma {:induction false} StringsOfConcat(a: seq<Json>, b: seq<Json>)
    ensures StringsOfAll(a + b) == StringsOfAll(a) + StringsOfAll(b)
  {
    if a == [] {
      assert a + b == b;
    } else {
      assert (a + b)[1..] == a[1..] + b;
      StringsOfConcat(a[1..], b);
    }
  }

  lemma OneMore(nodes: seq<Json>, n: nat)
    requires n < |nodes|
    ensures StringsOfAll(nodes[..n + 1]) == StringsOfAll(nodes[..n]) + Strings(nodes[n])
  {
    assert nodes[..n + 1] == nodes[..n] + [nodes[n]];
    StringsOfConcat(nodes[..n], [nodes[n]]);
    assert [nodes[n]][1..] == [];
  }

  lemma CollectedTogether(a: seq<string>, b: seq<string>, c: seq<string>, p: seq<string>, q: seq<string>, x: int,
      y: int, z: int)
    requires Collected(a, b, p, x, y) && Collected(b, c, q, y, z)
    ensures Collected(a, c, p + q, x, z)
  {
    var k: nat :| Appended(a, b, p, x, y, k);
    var l: nat :| Appended(b, c, q, y, z, l);
    if l == 0 {
      assert (p + q)[..k] == p[..k] && q[..0] == [];
      forall i | 0 <= i < k ensures x - Total((p + q)[..i]) > 0 {
        assert (p + q)[..i] == p[..i];
      }
      assert c == b + [];
      assert Appended(a, c, p + q, x, z, k);
    } else {
      assert Total(q[..0]) == 0;
      assert y > 0 && k == |p|;
      assert p[..k] == p && (p + q)[..k + l] == p + q[..l];
      TotalOfConcat(p, q[..l]);
      forall i | 0 <= i < k + l ensures x - Total((p + q)[..i]) > 0 {
        if i < k {
          assert (p + q)[..i] == p[..i];
        } else {
          assert (p + q)[..i] == p + q[..i - k];
          TotalOfConcat(p, q[..i - k]);
        }
      }
      assert (a + p) + q[..l] == a + (p + q[..l]);
      assert Appended(a, c, p + q, x, z, k + l);
    }
  }

  lemma {:induction false} JoinedIsLong(parts: seq<string>)
    ensures |Joined(parts)| >= Total(parts)
  {
    if parts != [] {
      JoinedIsLong(parts[1..]);
      if |parts| == 1 { assert parts[1..] == []; }
    }
  }

  lemma {:induction false} JoinedOfPrefix(parts: seq<string>, k: nat)
    requires k <= |parts|
    ensures Joined(parts[..k]) <= Joined(parts)
  {
    if 1 < k {
      JoinedOfPrefix(parts[1..], k - 1);
      assert parts[..k][1..] == parts[1..][..k - 1];
    } else if k == 1 && |parts| > 1 {
      assert Joined(parts) == parts[0] + (" " + Joined(parts[1..]));
    }
  }

  /** Parts beyond the first `n` characters of text cannot be seen in those characters. */
  lemma EarlyStopIsInvisible(parts: seq<string>, k: nat, n: nat)
    requires k <= |parts| && (k < |parts| ==> n <= Total(parts[..k]))
    ensures FirstChars(Joined(parts[..k]), n) == FirstChars(Joined(parts), n)
  {
    if k == |parts| {
      assert parts[..k] == parts;
    } else {
      JoinedIsLong(parts[..k]);
      JoinedOfPrefix(parts, k);
      assert Joined(parts[..k])[..n] == Joined(parts)[..n];
    }
  }

  lemma CollectedIsEnough(out: seq<string>, parts: seq<string>, n: nat, left: int)
    requires Collected([], out, parts, n, left)
    ensures FirstChars(Joined(out), n) == FirstChars(Joined(parts), n)
  {
    var k: nat :| Appended([], out, parts, n, left, k);
    assert [] + parts[..k] == parts[..k];
    EarlyStopIsInvisible(parts, k, n);
  }
}
