/**
  Three-part version numbers (migration 0005): parsing, printing, and the next number that no
  version of a playbook uses.
 */
module Versions {
  import opened Wrappers
  import opened Text

  datatype Version = Version(text: string)

  datatype Triple = Triple(major: nat, minor: nat, patch: nat)

  /** The decimal digits of the regular-expression class \d and their values, ASCII and other. */
  type Numerals = char -> Option<nat>

  ghost predicate ExtendAscii(d: Numerals) {
    && (forall c | IsDigit(c) :: d(c) == Some(c as int - '0' as int))
    && d('.') == None
  }

  // --- Parsing and printing ---------------------------------------------------------------

  predicate Numeric(d: Numerals, s: string) {
    s != "" && forall i | 0 <= i < |s| :: d(s[i]).Some?
  }

  function Number(d: Numerals, s: string): nat
    requires forall i | 0 <= i < |s| :: d(s[i]).Some?
  {
    if s == "" then 0 else 10 * Number(d, s[..|s| - 1]) + d(s[|s| - 1]).value
  }

  /** Position of the first dot, or the length. */
  function FirstDot(s: string): (i: nat)
    ensures i <= |s| && (i < |s| ==> s[i] == '.') && forall j | 0 <= j < i :: s[j] != '.'
  {
    if s == "" || s[0] == '.' then 0 else 1 + FirstDot(s[1..])
  }

  /** What stands before and after the first dot, if there is one. */
  function Cut(s: string): Option<(string, string)> {
    var i := FirstDot(s);
    if i == |s| then None else Some((s[..i], s[i + 1..]))
  }

  /** A full match of `\d+\.\d+\.\d+`. */
  function Parse(d: Numerals, v: Version): Option<Triple> {
    match Cut(v.text)
    case None => None
    case Some((a, rest)) =>
      match Cut(rest)
      case None => None
      case Some((b, c)) =>
        if Numeric(d, a) && Numeric(d, b) && Numeric(d, c) then Some(Triple(Number(d, a), Number(d, b), Number(d, c)))
        else None
  }

  function Print(t: Triple): Version {
    Version(Digits(t.major) + ("." + (Digits(t.minor) + ("." + Digits(t.patch)))))
  }

  lemma {:induction false} NumberOfDigits(d: Numerals, n: nat)
    requires ExtendAscii(d)
    ensures Numeric(d, Digits(n)) && Number(d, Digits(n)) == n
  {
    var s := Digits(n);
    if n < 10 {
      assert s[..0] == "";
    } else {
      NumberOfDigits(d, n / 10);
      assert s[..|s| - 1] == Digits(n / 10);
    }
  }

  lemma CutAt(a: string, rest: string)
    requires forall i | 0 <= i < |a| :: a[i] != '.'
    ensures Cut(a + ("." + rest)) == Some((a, rest))
  {
    var s := a + ("." + rest);
    assert s[|a|] == '.' && forall i | 0 <= i < |a| :: s[i] == a[i];
    assert FirstDot(s) == |a|;
    assert s[..|a|] == a && s[|a| + 1..] == rest;
  }

  lemma CutSplits(s: string)
    requires Cut(s).Some?
    ensures s == Cut(s).value.0 + ("." + Cut(s).value.1)
    ensures forall i | 0 <= i < |Cut(s).value.0| :: Cut(s).value.0[i] != '.'
  {
  }

  /** What parses is three numerals between two dots, none of them empty. */
  lemma ParsedIsDotted(d: Numerals, v: Version) returns (a: string, b: string, c: string)
    requires Parse(d, v).Some?
    ensures v.text == a + ("." + (b + ("." + c)))
    ensures |a| > 0 && |b| > 0 && |c| > 0
    ensures (forall i | 0 <= i < |a| :: d(a[i]).Some?) && (forall i | 0 <= i < |b| :: d(b[i]).Some?) &&
            (forall i | 0 <= i < |c| :: d(c[i]).Some?)
    ensures Parse(d, v).value == Triple(Number(d, a), Number(d, b), Number(d, c))
  {
    var rest := Cut(v.text).value.1;
    a, b, c := Cut(v.text).value.0, Cut(rest).value.0, Cut(rest).value.1;
    CutSplits(v.text);
    CutSplits(rest);
  }

  /** Three numerals between two dots parse to their numbers. */
  lemma ParseDotted(d: Numerals, a: string, b: string, c: string)
    requires d('.') == None && |a| > 0 && |b| > 0 && |c| > 0
    requires (forall i | 0 <= i < |a| :: d(a[i]).Some?) && (forall i | 0 <= i < |b| :: d(b[i]).Some?) &&
             (forall i | 0 <= i < |c| :: d(c[i]).Some?)
    ensures Parse(d, Version(a + ("." + (b + ("." + c))))) == Some(Triple(Number(d, a), Number(d, b), Number(d, c)))
  {
    CutAt(a, b + ("." + c));
    CutAt(b, c);
  }

  /** Printing then parsing is the identity. */
  lemma ParsePrint(d: Numerals, t: Triple)
    requires ExtendAscii(d)
    ensures Parse(d, Print(t)) == Some(t)
  {
    NumberOfDigits(d, t.major);
    NumberOfDigits(d, t.minor);
    NumberOfDigits(d, t.patch);
    ParseDotted(d, Digits(t.major), Digits(t.minor), Digits(t.patch));
  }

  lemma PrintIsInjective(d: Numerals, t: Triple, u: Triple)
    requires ExtendAscii(d) && Print(t) == Print(u)
    ensures t == u
  {
    ParsePrint(d, t);
    ParsePrint(d, u);
  }

  // --- Precedence -------------------------------------------------------------------------

  /** Numeric precedence, as in item 11 of Semantic Versioning 2.0.0. */
  predicate Less(a: Triple, b: Triple) {
    || a.major < b.major
    || (a.major == b.major && a.minor < b.minor)
    || (a.major == b.major && a.minor == b.minor && a.patch < b.patch)
  }

  /** `v` is parseable and of higher precedence than `w`, if `w` is parseable at all. */
  ghost predicate Exceeds(d: Numerals, v: Version, w: Version) {
    Parse(d, v).Some? && (Parse(d, w).Some? ==> Lower(Parse(d, w).value, Parse(d, v).value))
  }

  /** Number by number from the left: no higher, and lower in the last where the others agree. */
  ghost predicate Lower(a: Triple, b: Triple) {
    && a.major <= b.major
    && (a.major == b.major ==> a.minor <= b.minor)
    && (a.major == b.major && a.minor == b.minor ==> a.patch < b.patch)
  }

  ghost predicate IsHighest(d: Numerals, used: set<Version>, t: Triple) {
    && (exists v :: v in used && Parse(d, v) == Some(t))
    && forall v | v in used && Parse(d, v).Some? :: Parse(d, v).value == t || Lower(Parse(d, v).value, t)
  }

  ghost predicate NoneParse(d: Numerals, used: set<Version>) {
    forall v | v in used :: Parse(d, v).None?
  }

  /** The answer of `_next_free_semantic_version`: one patch above the highest, or 0.1.0. */
  ghost predicate IsNext(d: Numerals, used: set<Version>, next: Version) {
    || (NoneParse(d, used) && next == Print(Triple(0, 1, 0)))
    || (exists t :: IsHighest(d, used, t) && next == Print(Triple(t.major, t.minor, t.patch + 1)))
  }

  // --- The search -------------------------------------------------------------------------

  /** `max(parsed)` over the parseable versions. */
  method Highest(d: Numerals, used: set<Version>) returns (best: Option<Triple>)
    ensures best.None? ==> NoneParse(d, used)
    ensures best.Some? ==> IsHighest(d, used, best.value)
  {
    best := None;
    var left := used;
    while left != {}
      invariant left <= used
      invariant best.None? ==> NoneParse(d, used - left)
      invariant best.Some? ==> IsHighest(d, used - left, best.value)
      decreases |left|
    {
      var v :| v in left;
      var t := Parse(d, v);
      OneMore(d, used - left, v, best);
      assert used - (left - {v}) == used - left + {v};
      if t.Some? && (best.None? || Less(best.value, t.value)) {
        best := t;
      }
      left := left - {v};
    }
    assert used - left == used;
  }

  lemma OneMore(d: Numerals, seen: set<Version>, v: Version, best: Option<Triple>)
    requires best.None? ==> NoneParse(d, seen)
    requires best.Some? ==> IsHighest(d, seen, best.value)
    ensures
      var t := Parse(d, v);
      var next := if t.Some? && (best.None? || Less(best.value, t.value)) then t else best;
      (next.None? ==> NoneParse(d, seen + {v})) && (next.Some? ==> IsHighest(d, seen + {v}, next.value))
  {
    var t := Parse(d, v);
    var next := if t.Some? && (best.None? || Less(best.value, t.value)) then t else best;
    if next.Some? {
      if next == t {
        assert v in seen + {v} && Parse(d, v) == Some(next.value);
      } else {
        var w :| w in seen && Parse(d, w) == best;
        assert w in seen + {v};
      }
    }
  }

  predicate PrintedBelow(v: Version, t: Triple) {
    exists p: nat :: p < t.patch && v == Print(t.(patch := p))
  }

  lemma NotPrintedBelow(d: Numerals, t: Triple)
    requires ExtendAscii(d)
    ensures !PrintedBelow(Print(t), t)
  {
    forall p: nat | p < t.patch ensures Print(t) != Print(t.(patch := p)) {
      if Print(t) == Print(t.(patch := p)) { PrintIsInjective(d, t, t.(patch := p)); }
    }
  }

  /** The search loop is left at its first test: the answer is always the first candidate. */
  method NextFree(d: Numerals, used: set<Version>) returns (candidate: Version)
    requires ExtendAscii(d)
    ensures IsNext(d, used, candidate)
  {
    var best := Highest(d, used);
    var t := if best.Some? then best.value.(patch := best.value.patch + 1) else Triple(0, 1, 0);
    candidate := Print(t);
    ghost var first := candidate;
    ghost var left := used;
    while candidate in used
      invariant candidate == Print(t) && (candidate == first || first in used)
      invariant left <= used && forall v | v in used && v !in left :: PrintedBelow(v, t)
      decreases |left|
    {
      NotPrintedBelow(d, t);
      left := left - {candidate};
      t := t.(patch := t.patch + 1);
      assert PrintedBelow(candidate, t);
      candidate := Print(t);
    }
    NextIsFree(d, used, first);
  }

  lemma AboveHighest(d: Numerals, used: set<Version>, t: Triple, v: Version)
    requires ExtendAscii(d) && IsHighest(d, used, t) && v in used
    ensures Exceeds(d, Print(Triple(t.major, t.minor, t.patch + 1)), v)
  {
    ParsePrint(d, Triple(t.major, t.minor, t.patch + 1));
  }

  lemma ExceedsItselfNever(d: Numerals, v: Version)
    ensures !Exceeds(d, v, v)
  {
  }

  /** No version of the set is the next one, and the next one exceeds them all. */
  lemma NextIsFree(d: Numerals, used: set<Version>, next: Version)
    requires ExtendAscii(d) && IsNext(d, used, next)
    ensures next !in used && forall v | v in used :: Exceeds(d, next, v)
  {
    ExceedsItselfNever(d, next);
    if NoneParse(d, used) && next == Print(Triple(0, 1, 0)) {
      ParsePrint(d, Triple(0, 1, 0));
    } else {
      var t :| IsHighest(d, used, t) && next == Print(Triple(t.major, t.minor, t.patch + 1));
      forall v | v in used ensures Exceeds(d, next, v) {
        AboveHighest(d, used, t, v);
      }
    }
  }

  lemma NextIsUnique(d: Numerals, used: set<Version>, a: Version, b: Version)
    requires IsNext(d, used, a) && IsNext(d, used, b)
    ensures a == b
  {
    if t, u :|
      && IsHighest(d, used, t) && a == Print(Triple(t.major, t.minor, t.patch + 1))
      && IsHighest(d, used, u) && b == Print(Triple(u.major, u.minor, u.patch + 1))
    {
      HighestIsUnique(d, used, t, u);
    }
  }

  lemma HighestIsUnique(d: Numerals, used: set<Version>, t: Triple, u: Triple)
    requires IsHighest(d, used, t) && IsHighest(d, used, u)
    ensures t == u && !NoneParse(d, used)
  {
    var v :| v in used && Parse(d, v) == Some(t);
    var w :| w in used && Parse(d, w) == Some(u);
    assert !Less(t, u) && !Less(u, t);
  }
}
