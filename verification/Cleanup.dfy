/**
  The white-space tail of `unhedge`: three regular-expression substitutions and a strip. Runs of
  blanks shrink to one, and blanks go before commas, semicolons and sentence-ending dots, but not
  before a dot that starts a file name.
 */
module Cleanup {
  import opened Text

  predicate Blank(c: char) {
    c == ' ' || c == '\t'
  }

  /** Commas and semicolons. */
  predicate TakesNoBlank(c: char) {
    c == ',' || c == ';'
  }

  /** How many blanks the string starts with. */
  function BlankRun(s: string): (n: nat)
    ensures n <= |s| && (forall i | 0 <= i < n :: Blank(s[i])) && (n < |s| ==> !Blank(s[n]))
  {
    if s != "" && Blank(s[0]) then 1 + BlankRun(s[1..]) else 0
  }

  /** `re.sub(r"[ \t]{2,}", " ", s)` */
  function CollapseRuns(s: string): string
    decreases |s|
  {
    if s == "" then ""
    else if BlankRun(s) >= 2 then " " + CollapseRuns(s[BlankRun(s)..])
    else [s[0]] + CollapseRuns(s[1..])
  }

  /** `re.sub(r"[ \t]+([,;])", r"\1", s)` */
  function TightenCommas(s: string): string
    decreases |s|
  {
    if s == "" then ""
    else
      var n := BlankRun(s);
      if 0 < n < |s| && TakesNoBlank(s[n]) then [s[n]] + TightenCommas(s[n + 1..])
      else [s[0]] + TightenCommas(s[1..])
  }

  /** The dot at position `n` is followed by white space or by the end. */
  predicate EndsSentence(s: string, n: nat) {
    n < |s| && s[n] == '.' && (n + 1 == |s| || IsSpace(s[n + 1]))
  }

  /** `re.sub(r"[ \t]+\.(?=\s|$)", ".", s)` */
  function TightenDots(s: string): string
    decreases |s|
  {
    if s == "" then ""
    else
      var n := BlankRun(s);
      if n > 0 && EndsSentence(s, n) then "." + TightenDots(s[n + 1..])
      else [s[0]] + TightenDots(s[1..])
  }

  function Tightened(s: string): string {
    TightenDots(TightenCommas(CollapseRuns(s)))
  }

  function Clean(s: string): string {
    Strip(Tightened(s))
  }

  // --- The clean form ---------------------------------------------------------------------

  predicate NoRuns(s: string) {
    forall i | 0 <= i < |s| - 1 :: !(s[i] in {' ', '\t'} && s[i + 1] in {' ', '\t'})
  }

  predicate NoBlankComma(s: string) {
    forall i | 0 <= i < |s| - 1 :: !(Blank(s[i]) && s[i + 1] in {',', ';'})
  }

  predicate NoBlankDot(s: string) {
    forall i | 0 <= i < |s| - 1 :: !(Blank(s[i]) && EndsSentence(s, i + 1))
  }

  predicate IsClean(s: string) {
    NoRuns(s) && NoBlankComma(s) && NoBlankDot(s) && Stripped(s)
  }

  // --- Each pass on an already tight string -----------------------------------------------

  lemma SingleBlank(s: string)
    requires NoRuns(s)
    ensures BlankRun(s) <= 1
  {
  }

  lemma {:induction false} CollapseRunsFixes(s: string)
    requires NoRuns(s)
    ensures CollapseRuns(s) == s
    decreases |s|
  {
    if s != "" {
      SingleBlank(s);
      SuffixNoRuns(s, 1);
      CollapseRunsFixes(s[1..]);
    }
  }

  lemma {:induction false} TightenCommasFixes(s: string)
    requires NoRuns(s) && NoBlankComma(s)
    ensures TightenCommas(s) == s
    decreases |s|
  {
    if s != "" {
      SingleBlank(s);
      SuffixNoRuns(s, 1);
      SuffixNoBlankComma(s, 1);
      TightenCommasFixes(s[1..]);
    }
  }

  lemma {:induction false} TightenDotsFixes(s: string)
    requires NoRuns(s) && NoBlankDot(s)
    ensures TightenDots(s) == s
    decreases |s|
  {
    if s != "" {
      SingleBlank(s);
      SuffixNoRuns(s, 1);
      forall i | 0 <= i < |s[1..]| - 1 ensures !(Blank(s[1..][i]) && EndsSentence(s[1..], i + 1)) {
        assert s[1..][i] == s[i + 1] && (EndsSentence(s[1..], i + 1) ==> EndsSentence(s, i + 2));
      }
      TightenDotsFixes(s[1..]);
    }
  }

  // --- What each pass establishes ---------------------------------------------------------

  /** The first character survives, except that a run becomes one space. */
  lemma HeadOfCollapse(s: string)
    requires s != ""
    ensures CollapseRuns(s) != ""
    ensures CollapseRuns(s)[0] == if BlankRun(s) >= 2 then ' ' else s[0]
  {
  }

  lemma ConsNoRuns(c: char, s: string)
    requires NoRuns(s) && (Blank(c) && s != "" ==> !Blank(s[0]))
    ensures NoRuns([c] + s)
  {
    var t := [c] + s;
    forall i | 0 <= i < |t| - 1 ensures !(Blank(t[i]) && Blank(t[i + 1])) {
      if i > 0 { assert t[i] == s[i - 1] && t[i + 1] == s[i]; }
    }
  }

  lemma {:induction false} CollapseRunsTightens(s: string)
    ensures NoRuns(CollapseRuns(s))
    decreases |s|
  {
    if s != "" {
      var n := BlankRun(s);
      var rest := if n >= 2 then s[n..] else s[1..];
      CollapseRunsTightens(rest);
      if rest != "" { HeadOfCollapse(rest); }
      ConsNoRuns(if n >= 2 then ' ' else s[0], CollapseRuns(rest));
    }
  }

  /** On a string without runs, a pass that drops blanks drops single ones. */
  lemma HeadOfCommas(s: string)
    requires s != "" && NoRuns(s)
    ensures TightenCommas(s) != ""
    ensures TightenCommas(s)[0] == if Blank(s[0]) && |s| > 1 && TakesNoBlank(s[1]) then s[1] else s[0]
  {
    SingleBlank(s);
  }

  lemma ConsNoBlankComma(c: char, s: string)
    requires NoBlankComma(s) && (Blank(c) && s != "" ==> !TakesNoBlank(s[0]))
    ensures NoBlankComma([c] + s)
  {
    var t := [c] + s;
    forall i | 0 <= i < |t| - 1 ensures !(Blank(t[i]) && TakesNoBlank(t[i + 1])) {
      if i > 0 { assert t[i] == s[i - 1] && t[i + 1] == s[i]; }
    }
  }

  lemma SuffixNoRuns(s: string, n: nat)
    requires NoRuns(s) && n <= |s|
    ensures NoRuns(s[n..])
  {
    forall i | 0 <= i < |s[n..]| - 1 ensures !(Blank(s[n..][i]) && Blank(s[n..][i + 1])) {
      assert s[n..][i] == s[n + i] && s[n..][i + 1] == s[n + i + 1];
    }
  }

  lemma {:induction false} TightenCommasTightens(s: string)
    requires NoRuns(s)
    ensures NoRuns(TightenCommas(s)) && NoBlankComma(TightenCommas(s))
    decreases |s|
  {
    if s != "" {
      SingleBlank(s);
      var n := BlankRun(s);
      var drops := 0 < n < |s| && TakesNoBlank(s[n]);
      var rest := if drops then s[n + 1..] else s[1..];
      SuffixNoRuns(s, if drops then n + 1 else 1);
      TightenCommasTightens(rest);
      if rest != "" { HeadOfCommas(rest); }
      var c := if drops then s[n] else s[0];
      ConsNoRuns(c, TightenCommas(rest));
      ConsNoBlankComma(c, TightenCommas(rest));
    }
  }

  lemma HeadOfDots(s: string)
    requires s != "" && NoRuns(s)
    ensures TightenDots(s) != ""
    ensures TightenDots(s)[0] == if Blank(s[0]) && EndsSentence(s, 1) then '.' else s[0]
  {
    SingleBlank(s);
  }

  /** A dot ends a sentence after the pass exactly when it did before. */
  lemma SentenceEndsSurvive(s: string)
    requires s != "" && s[0] == '.' && NoRuns(s)
    ensures EndsSentence(TightenDots(s), 0) ==> EndsSentence(s, 0)
  {
    if |s| > 1 {
      SuffixNoRuns(s, 1);
      HeadOfDots(s[1..]);
      assert TightenDots(s) == ['.'] + TightenDots(s[1..]);
    }
  }

  lemma ConsNoBlankDot(c: char, s: string)
    requires NoBlankDot(s) && (Blank(c) ==> !EndsSentence(s, 0))
    ensures NoBlankDot([c] + s)
  {
    var t := [c] + s;
    forall i | 0 <= i < |t| - 1 ensures !(Blank(t[i]) && EndsSentence(t, i + 1)) {
      assert EndsSentence(t, i + 1) <==> EndsSentence(s, i);
      if i > 0 { assert t[i] == s[i - 1]; }
    }
  }

  lemma SuffixNoBlankComma(s: string, n: nat)
    requires NoBlankComma(s) && n <= |s|
    ensures NoBlankComma(s[n..])
  {
    forall i | 0 <= i < |s[n..]| - 1 ensures !(Blank(s[n..][i]) && TakesNoBlank(s[n..][i + 1])) {
      assert s[n..][i] == s[n + i] && s[n..][i + 1] == s[n + i + 1];
    }
  }

  lemma {:induction false} TightenDotsTightens(s: string)
    requires NoRuns(s) && NoBlankComma(s)
    ensures NoRuns(TightenDots(s)) && NoBlankComma(TightenDots(s)) && NoBlankDot(TightenDots(s))
    decreases |s|
  {
    if s != "" {
      SingleBlank(s);
      var n := BlankRun(s);
      var drops := n > 0 && EndsSentence(s, n);
      var k := if drops then n + 1 else 1;
      var rest := s[k..];
      SuffixNoRuns(s, k);
      SuffixNoBlankComma(s, k);
      TightenDotsTightens(rest);
      var c := if drops then '.' else s[0];
      if rest != "" {
        HeadOfDots(rest);
        if rest[0] == '.' {
          SentenceEndsSurvive(rest);
          assert EndsSentence(rest, 0) ==> EndsSentence(s, k);
        }
      }
      ConsNoRuns(c, TightenDots(rest));
      ConsNoBlankComma(c, TightenDots(rest));
      ConsNoBlankDot(c, TightenDots(rest));
    }
  }

  lemma {:induction false} StripKeepsTight(s: string)
    requires NoRuns(s) && NoBlankComma(s) && NoBlankDot(s)
    ensures NoRuns(Strip(s)) && NoBlankComma(Strip(s)) && NoBlankDot(Strip(s))
    decreases |s|
  {
    if s != "" && IsSpace(s[0]) {
      var t := s[1..];
      forall i | 0 <= i < |t| - 1 ensures !(Blank(t[i]) && EndsSentence(t, i + 1)) {
        assert t[i] == s[i + 1] && (EndsSentence(t, i + 1) ==> EndsSentence(s, i + 2));
      }
      StripKeepsTight(t);
    } else if s != "" && IsSpace(s[|s| - 1]) {
      var t := s[..|s| - 1];
      forall i | 0 <= i < |t| - 1 ensures !(Blank(t[i]) && EndsSentence(t, i + 1)) {
        assert t[i] == s[i] && (EndsSentence(t, i + 1) ==> EndsSentence(s, i + 1));
      }
      StripKeepsTight(t);
    }
  }

  // --- The clean-up is a normal form ------------------------------------------------------

  /** The clean-up ends in clean text, and clean text is exactly what it leaves alone. */
  lemma CleanIsNormalForm(s: string)
    ensures IsClean(Clean(s))
    ensures Clean(s) == s <==> IsClean(s)
  {
    CollapseRunsTightens(s);
    TightenCommasTightens(CollapseRuns(s));
    TightenDotsTightens(TightenCommas(CollapseRuns(s)));
    StripKeepsTight(Tightened(s));
    StripIsIdentityIff(Tightened(s));
    if IsClean(s) {
      CollapseRunsFixes(s);
      TightenCommasFixes(s);
      TightenDotsFixes(s);
      StripIsIdentityIff(s);
    }
  }

  lemma CleanIsIdempotent(s: string)
    ensures Clean(Clean(s)) == Clean(s)
  {
    CleanIsNormalForm(s);
    CleanIsNormalForm(Clean(s));
  }

  // --- Nothing but white space is lost ----------------------------------------------------

  /** The characters that are not white space, in order. */
  function Ink(s: string): string {
    if s == "" then "" else (if IsSpace(s[0]) then "" else [s[0]]) + Ink(s[1..])
  }

  lemma {:induction false} InkHolds(s: string, c: char)
    ensures c in Ink(s) <==> c in s && !IsSpace(c)
  {
    if s != "" { InkHolds(s[1..], c); }
  }

  lemma {:induction false} InkOfConcat(a: string, b: string)
    ensures Ink(a + b) == Ink(a) + Ink(b)
  {
    if a == "" {
      assert a + b == b;
    } else {
      DropInside(a, b, 1);
      InkOfConcat(a[1..], b);
      Prepend(a[0], Ink(a[1..]), Ink(b));
    }
  }

  lemma {:induction false} InkOfSpace(s: string)
    requires forall i | 0 <= i < |s| :: IsSpace(s[i])
    ensures Ink(s) == ""
  {
    if s != "" { InkOfSpace(s[1..]); }
  }

  lemma InkAfterRun(s: string, n: nat)
    requires n <= |s| && forall i | 0 <= i < n :: Blank(s[i])
    ensures Ink(s) == Ink(s[n..])
  {
    assert s == s[..n] + s[n..];
    InkOfConcat(s[..n], s[n..]);
    InkOfSpace(s[..n]);
  }

  lemma {:induction false} CollapseRunsKeepsInk(s: string)
    ensures Ink(CollapseRuns(s)) == Ink(s)
    decreases |s|
  {
    if s != "" {
      var n := BlankRun(s);
      if n >= 2 {
        InkAfterRun(s, n);
        CollapseRunsKeepsInk(s[n..]);
        assert (" " + CollapseRuns(s[n..]))[1..] == CollapseRuns(s[n..]);
      } else {
        CollapseRunsKeepsInk(s[1..]);
        assert ([s[0]] + CollapseRuns(s[1..]))[1..] == CollapseRuns(s[1..]);
      }
    }
  }

  lemma {:induction false} TightenCommasKeepsInk(s: string)
    ensures Ink(TightenCommas(s)) == Ink(s)
    decreases |s|
  {
    if s != "" {
      var n := BlankRun(s);
      if 0 < n < |s| && TakesNoBlank(s[n]) {
        InkAfterRun(s, n);
        assert s[n..][1..] == s[n + 1..];
        TightenCommasKeepsInk(s[n + 1..]);
        assert ([s[n]] + TightenCommas(s[n + 1..]))[1..] == TightenCommas(s[n + 1..]);
      } else {
        TightenCommasKeepsInk(s[1..]);
        assert ([s[0]] + TightenCommas(s[1..]))[1..] == TightenCommas(s[1..]);
      }
    }
  }

  lemma {:induction false} TightenDotsKeepsInk(s: string)
    ensures Ink(TightenDots(s)) == Ink(s)
    decreases |s|
  {
    if s != "" {
      var n := BlankRun(s);
      if n > 0 && EndsSentence(s, n) {
        InkAfterRun(s, n);
        assert s[n..][1..] == s[n + 1..];
        TightenDotsKeepsInk(s[n + 1..]);
        assert ("." + TightenDots(s[n + 1..]))[1..] == TightenDots(s[n + 1..]);
      } else {
        TightenDotsKeepsInk(s[1..]);
        assert ([s[0]] + TightenDots(s[1..]))[1..] == TightenDots(s[1..]);
      }
    }
  }

  lemma {:induction false} StripKeepsInk(s: string)
    ensures Ink(Strip(s)) == Ink(s)
    decreases |s|
  {
    if s != "" && IsSpace(s[0]) {
      StripKeepsInk(s[1..]);
    } else if s != "" && IsSpace(s[|s| - 1]) {
      var n := |s| - 1;
      StripKeepsInk(s[..n]);
      assert s == s[..n] + [s[n]];
      InkOfConcat(s[..n], [s[n]]);
    }
  }

  /** Exactly the characters that are not white space come through, in their order. */
  lemma CleanKeepsInk(s: string)
    ensures Ink(Clean(s)) == Ink(s)
  {
    CollapseRunsKeepsInk(s);
    TightenCommasKeepsInk(CollapseRuns(s));
    TightenDotsKeepsInk(TightenCommas(CollapseRuns(s)));
    StripKeepsInk(Tightened(s));
  }

  // --- Words stay apart -------------------------------------------------------------------

  /** Text that starts with a visible character and is not tightened onto what precedes it. */
  predicate StandsApart(q: string) {
    q != "" && !IsSpace(q[0]) && !TakesNoBlank(q[0]) && (q[0] == '.' ==> |q| > 1 && !IsSpace(q[1]))
  }

  predicate EndsVisibly(p: string) {
    p != "" && !IsSpace(p[|p| - 1])
  }

  predicate AllBlank(b: string) {
    forall i | 0 <= i < |b| :: Blank(b[i])
  }

  lemma {:induction false} RunThenInk(b: string, q: string)
    requires AllBlank(b) && q != "" && !Blank(q[0])
    ensures BlankRun(b + q) == |b|
  {
    if b == "" {
      assert b + q == q;
    } else {
      assert (b + q)[1..] == b[1..] + q;
      RunThenInk(b[1..], q);
    }
  }

  lemma {:induction false} RunInside(p: string, t: string)
    requires EndsVisibly(p)
    ensures BlankRun(p + t) == BlankRun(p) < |p|
    decreases |p|
  {
    if Blank(p[0]) {
      assert (p + t)[1..] == p[1..] + t;
      RunInside(p[1..], t);
    }
  }

  lemma TailEndsVisibly(p: string, k: nat)
    requires EndsVisibly(p) && k <= |p|
    ensures p[k..] == "" || (EndsVisibly(p[k..]) && p[k..][|p| - k - 1] == p[|p| - 1])
  {
  }

  lemma DropInside(p: string, t: string, k: nat)
    requires k <= |p|
    ensures (p + t)[k..] == p[k..] + t
  {
  }

  /** One step of the pass inside visible text does not depend on what follows it. */
  lemma CollapseRunsStep(p: string, t: string) returns (k: nat, c: char)
    requires EndsVisibly(p)
    ensures 0 < k <= |p| && (p + t)[k..] == p[k..] + t
    ensures CollapseRuns(p + t) == [c] + CollapseRuns(p[k..] + t) && CollapseRuns(p) == [c] + CollapseRuns(p[k..])
    ensures k == |p| ==> c == p[|p| - 1]
  {
    RunInside(p, t);
    var n := BlankRun(p);
    k := if n >= 2 then n else 1;
    c := if n >= 2 then ' ' else p[0];
    DropInside(p, t, k);
  }

  /** One step of the pass inside visible text does not depend on what follows it. */
  lemma TightenCommasStep(p: string, t: string) returns (k: nat, c: char)
    requires EndsVisibly(p)
    ensures 0 < k <= |p| && (p + t)[k..] == p[k..] + t
    ensures TightenCommas(p + t) == [c] + TightenCommas(p[k..] + t) && TightenCommas(p) == [c] + TightenCommas(p[k..])
    ensures k == |p| ==> c == p[|p| - 1]
  {
    RunInside(p, t);
    var n := BlankRun(p);
    assert (p + t)[n] == p[n];
    if 0 < n && TakesNoBlank(p[n]) {
      k, c := n + 1, p[n];
    } else {
      k, c := 1, p[0];
    }
    DropInside(p, t, k);
  }

  lemma SentenceEndsInside(p: string, t: string, n: nat)
    requires n < |p| && t != "" && Blank(t[0])
    ensures EndsSentence(p + t, n) <==> EndsSentence(p, n)
  {
    assert (p + t)[n] == p[n];
    if n + 1 < |p| { assert (p + t)[n + 1] == p[n + 1]; } else { assert (p + t)[n + 1] == t[0]; }
  }

  /** One step of the pass inside visible text does not depend on what follows it. */
  lemma TightenDotsStep(p: string, t: string) returns (k: nat, c: char)
    requires EndsVisibly(p) && t != "" && Blank(t[0])
    ensures 0 < k <= |p| && (p + t)[k..] == p[k..] + t
    ensures TightenDots(p + t) == [c] + TightenDots(p[k..] + t) && TightenDots(p) == [c] + TightenDots(p[k..])
    ensures k == |p| ==> c == p[|p| - 1]
  {
    RunInside(p, t);
    var n := BlankRun(p);
    SentenceEndsInside(p, t, n);
    k := if n > 0 && EndsSentence(p, n) then n + 1 else 1;
    c := if n > 0 && EndsSentence(p, n) then '.' else p[0];
    DropInside(p, t, k);
  }

  lemma CollapseRunsAfterRun(b: string, q: string)
    requires b != "" && AllBlank(b) && q != "" && !Blank(q[0])
    ensures CollapseRuns(b + q) == (if |b| == 1 then b else " ") + CollapseRuns(q)
  {
    RunThenInk(b, q);
    assert (b + q)[|b|..] == q;
    if |b| == 1 { assert b == [b[0]]; }
  }

  lemma TightensNothingAfterBlank(b: char, q: string)
    requires Blank(b) && StandsApart(q)
    ensures TightenCommas([b] + q) == [b] + TightenCommas(q)
    ensures TightenDots([b] + q) == [b] + TightenDots(q)
  {
    RunThenInk([b], q);
    assert ([b] + q)[1..] == q && ([b] + q)[1] == q[0];
    if |q| > 1 { assert ([b] + q)[2] == q[1]; }
  }

  lemma Prepend(c: char, a: string, x: string)
    ensures [c] + (a + x) == ([c] + a) + x
  {
  }

  lemma {:induction false} CollapseRunsSplits(p: string, b: string, q: string)
    requires p == "" || EndsVisibly(p)
    requires b != "" && AllBlank(b) && StandsApart(q)
    ensures CollapseRuns(p + (b + q)) == CollapseRuns(p) + ((if |b| == 1 then b else " ") + CollapseRuns(q))
    decreases |p|
  {
    var t := b + q;
    if p == "" {
      assert p + t == t;
      CollapseRunsAfterRun(b, q);
    } else {
      var k, c := CollapseRunsStep(p, t);
      TailEndsVisibly(p, k);
      CollapseRunsSplits(p[k..], b, q);
      Prepend(c, CollapseRuns(p[k..]), (if |b| == 1 then b else " ") + CollapseRuns(q));
    }
  }

  lemma {:induction false} TightenCommasSplits(p: string, b: char, q: string)
    requires p == "" || EndsVisibly(p)
    requires Blank(b) && StandsApart(q)
    ensures TightenCommas(p + ([b] + q)) == TightenCommas(p) + ([b] + TightenCommas(q))
    decreases |p|
  {
    var t := [b] + q;
    if p == "" {
      assert p + t == t;
      TightensNothingAfterBlank(b, q);
    } else {
      var k, c := TightenCommasStep(p, t);
      TailEndsVisibly(p, k);
      TightenCommasSplits(p[k..], b, q);
      Prepend(c, TightenCommas(p[k..]), [b] + TightenCommas(q));
    }
  }

  lemma {:induction false} TightenDotsSplits(p: string, b: char, q: string)
    requires p == "" || EndsVisibly(p)
    requires Blank(b) && StandsApart(q)
    ensures TightenDots(p + ([b] + q)) == TightenDots(p) + ([b] + TightenDots(q))
    decreases |p|
  {
    var t := [b] + q;
    if p == "" {
      assert p + t == t;
      TightensNothingAfterBlank(b, q);
    } else {
      var k, c := TightenDotsStep(p, t);
      TailEndsVisibly(p, k);
      TightenDotsSplits(p[k..], b, q);
      Prepend(c, TightenDots(p[k..]), [b] + TightenDots(q));
    }
  }

  /** Text that ends in the same visible character. */
  predicate EndsLike(r: string, p: string) {
    r != "" && p != "" && r[|r| - 1] == p[|p| - 1]
  }

  lemma EndsCons(c: char, x: string, p: string, k: nat)
    requires 0 < k <= |p| && if k == |p| then x == "" && c == p[|p| - 1] else EndsLike(x, p[k..])
    ensures EndsLike([c] + x, p)
  {
    if k < |p| { assert ([c] + x)[|x|] == x[|x| - 1] && p[k..][|p| - k - 1] == p[|p| - 1]; }
  }

  /** The passes keep the visible ends of a text, and a text that stands apart still does. */
  lemma {:induction false} CollapseRunsKeepsEnds(p: string)
    requires EndsVisibly(p)
    ensures EndsLike(CollapseRuns(p), p)
    decreases |p|
  {
    var k, c := CollapseRunsStep(p, "");
    TailEndsVisibly(p, k);
    if |p| > k { CollapseRunsKeepsEnds(p[k..]); }
    EndsCons(c, CollapseRuns(p[k..]), p, k);
  }

  lemma {:induction false} TightenCommasKeepsEnds(p: string)
    requires EndsVisibly(p)
    ensures EndsLike(TightenCommas(p), p)
    decreases |p|
  {
    var k, c := TightenCommasStep(p, "");
    TailEndsVisibly(p, k);
    if |p| > k { TightenCommasKeepsEnds(p[k..]); }
    EndsCons(c, TightenCommas(p[k..]), p, k);
  }

  lemma {:induction false} TightenDotsKeepsEnds(p: string)
    requires EndsVisibly(p)
    ensures EndsLike(TightenDots(p), p)
    decreases |p|
  {
    var k, c := TightenDotsStep(p, " ");
    TailEndsVisibly(p, k);
    if |p| > k { TightenDotsKeepsEnds(p[k..]); }
    EndsCons(c, TightenDots(p[k..]), p, k);
  }

  lemma PassesKeepApart(q: string)
    requires StandsApart(q)
    ensures StandsApart(CollapseRuns(q)) && StandsApart(TightenCommas(q))
    ensures TightenDots(q) != "" && TightenDots(q)[0] == q[0]
  {
    assert BlankRun(q) == 0;
    if |q| > 1 && q[0] == '.' {
      assert BlankRun(q[1..]) == 0;
      assert CollapseRuns(q) == [q[0]] + CollapseRuns(q[1..]) == [q[0]] + ([q[1..][0]] + CollapseRuns(q[1..][1..]));
      assert TightenCommas(q) == [q[0]] + TightenCommas(q[1..]) == [q[0]] + ([q[1..][0]] + TightenCommas(q[1..][1..]));
    }
  }

  /** Stripping stops at visible text, so the two sides are stripped on their own. */
  lemma {:induction false} StripAround(a: string, m: string, c: string)
    requires EndsVisibly(a) && c != "" && !IsSpace(c[0])
    ensures Strip(a + m + c) == Strip(a) + m + Strip(c)
    decreases |a| + |c|
  {
    var s := a + m + c;
    assert s[0] == a[0] && s[|s| - 1] == c[|c| - 1];
    if IsSpace(a[0]) {
      assert s[1..] == a[1..] + m + c;
      TailEndsVisibly(a, 1);
      StripAround(a[1..], m, c);
    } else {
      StripIsIdentityIff(a);
      if IsSpace(c[|c| - 1]) {
        assert s[..|s| - 1] == a + m + c[..|c| - 1];
        StripAround(a, m, c[..|c| - 1]);
      }
    }
  }

  lemma CollapsePart(p: string, b: string, q: string, one: char)
    requires EndsVisibly(p) && b != "" && AllBlank(b) && StandsApart(q) && [one] == if |b| == 1 then b else " "
    ensures CollapseRuns(p + b + q) == CollapseRuns(p) + ([one] + CollapseRuns(q))
    ensures EndsVisibly(CollapseRuns(p)) && StandsApart(CollapseRuns(q))
  {
    Regroup(p, b, q);
    CollapseRunsSplits(p, b, q);
    CollapseRunsKeepsEnds(p);
    PassesKeepApart(q);
  }

  lemma CommasPart(p: string, one: char, q: string)
    requires EndsVisibly(p) && Blank(one) && StandsApart(q)
    ensures TightenCommas(p + ([one] + q)) == TightenCommas(p) + ([one] + TightenCommas(q))
    ensures EndsVisibly(TightenCommas(p)) && StandsApart(TightenCommas(q))
  {
    TightenCommasSplits(p, one, q);
    TightenCommasKeepsEnds(p);
    PassesKeepApart(q);
  }

  lemma DotsPart(p: string, one: char, q: string)
    requires EndsVisibly(p) && Blank(one) && StandsApart(q)
    ensures TightenDots(p + ([one] + q)) == TightenDots(p) + [one] + TightenDots(q)
    ensures EndsVisibly(TightenDots(p)) && TightenDots(q) != "" && !IsSpace(TightenDots(q)[0])
  {
    TightenDotsSplits(p, one, q);
    TightenDotsKeepsEnds(p);
    PassesKeepApart(q);
    Regroup(TightenDots(p), [one], TightenDots(q));
  }

  lemma Regroup(a: string, m: string, c: string)
    ensures a + m + c == a + (m + c)
  {
  }

  lemma PassesSplit(p: string, b: string, q: string, one: char)
    requires EndsVisibly(p) && b != "" && AllBlank(b) && StandsApart(q)
    requires Blank(one) && [one] == if |b| == 1 then b else " "
    ensures Tightened(p + b + q) == Tightened(p) + [one] + Tightened(q)
    ensures EndsVisibly(Tightened(p)) && Tightened(q) != "" && !IsSpace(Tightened(q)[0])
  {
    CollapsePart(p, b, q, one);
    CommasPart(CollapseRuns(p), one, CollapseRuns(q));
    DotsPart(TightenCommas(CollapseRuns(p)), one, TightenCommas(CollapseRuns(q)));
  }

  /**
    Blanks between visible text and text that stands apart, such as a file name with a leading
    dot, are kept as one; the two sides are cleaned as if they stood alone.
   */
  lemma CleanKeepsWordsApart(p: string, b: string, q: string)
    requires EndsVisibly(p) && b != "" && AllBlank(b) && StandsApart(q)
    ensures Clean(p + b + q) == Clean(p) + (if |b| == 1 then b else " ") + Clean(q)
  {
    var one := if |b| == 1 then b[0] else ' ';
    assert [one] == if |b| == 1 then b else " ";
    PassesSplit(p, b, q, one);
    StripAround(Tightened(p), [one], Tightened(q));
  }
}
