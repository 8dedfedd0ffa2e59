/**
  The normal form of an alias (migration 0033): white space collapsed, blanks trimmed, lower case;
  and the split-and-join form it has to agree with.
 */
module AliasText {
  import opened Text

  // --- As the UPDATE writes it ------------------------------------------------------------

  /** Length of the white space at the front. */
  function SpaceRun(s: string): (n: nat)
    ensures n <= |s| && (n < |s| ==> !IsSpace(s[n])) && forall i | 0 <= i < n :: IsSpace(s[i])
  {
    if s != "" && IsSpace(s[0]) then 1 + SpaceRun(s[1..]) else 0
  }

  /** `regexp_replace(s, '\s+', ' ', 'g')` */
  function Collapsed(s: string): string
    decreases |s|
  {
    if s == "" then ""
    else if IsSpace(s[0]) then " " + Collapsed(s[SpaceRun(s)..])
    else [s[0]] + Collapsed(s[1..])
  }

  /** `btrim(s)`: blanks only. */
  function BTrimmed(s: string): string {
    if s != "" && s[0] == ' ' then BTrimmed(s[1..])
    else if s != "" && s[|s| - 1] == ' ' then BTrimmed(s[..|s| - 1])
    else s
  }

  function Lowered(lower: char -> char, s: string): (r: string)
    ensures |r| == |s| && forall i | 0 <= i < |s| :: r[i] == lower(s[i])
  {
    seq(|s|, i requires 0 <= i < |s| => lower(s[i]))
  }

  function Normalized(lower: char -> char, s: string): string {
    Lowered(lower, BTrimmed(Collapsed(s)))
  }

  // --- As the services write it -----------------------------------------------------------

  /** Length of the word at the front. */
  function WordRun(s: string): (n: nat)
    ensures n <= |s| && (n < |s| ==> IsSpace(s[n])) && forall i | 0 <= i < n :: !IsSpace(s[i])
  {
    if s != "" && !IsSpace(s[0]) then 1 + WordRun(s[1..]) else 0
  }

  /** `s.split()` */
  function Words(s: string): (ws: seq<string>)
    ensures AreWords(ws)
    decreases |s|
  {
    if s == "" then []
    else if IsSpace(s[0]) then Words(s[1..])
    else [s[..WordRun(s)]] + Words(s[WordRun(s)..])
  }

  predicate IsWord(w: string) {
    w != "" && forall i | 0 <= i < |w| :: !IsSpace(w[i])
  }

  predicate AreWords(ws: seq<string>) {
    forall i | 0 <= i < |ws| :: IsWord(ws[i])
  }

  // --- The two agree ----------------------------------------------------------------------

  lemma {:induction false} WordsAfterSpace(s: string, n: nat)
    requires n <= |s| && forall i | 0 <= i < n :: IsSpace(s[i])
    ensures Words(s) == Words(s[n..])
  {
    if n > 0 {
      WordsAfterSpace(s[1..], n - 1);
      assert s[1..][n - 1..] == s[n..];
    }
  }

  lemma {:induction false} CollapsedWord(s: string, n: nat)
    requires n <= |s| && forall i | 0 <= i < n :: !IsSpace(s[i])
    ensures Collapsed(s) == s[..n] + Collapsed(s[n..])
  {
    if n > 0 {
      CollapsedWord(s[1..], n - 1);
      assert s[1..][n - 1..] == s[n..] && s[..n] == [s[0]] + s[1..][..n - 1];
    } else {
      assert s[0..] == s;
    }
  }

  predicate StartsInSpace(s: string) {
    s != "" && IsSpace(s[0])
  }

  predicate EndsInSpace(s: string) {
    s != "" && IsSpace(s[|s| - 1])
  }

  function BlankIf(b: bool): string {
    if b then " " else ""
  }

  ghost predicate CollapsesToWords(s: string) {
    Collapsed(s) == BlankIf(StartsInSpace(s)) + (Joined(Words(s)) + BlankIf(Words(s) != [] && EndsInSpace(s)))
  }

  /** Collapsing leaves the words joined by blanks, with a blank for white space at either end. */
  lemma {:induction false} CollapsedIsWords(s: string)
    ensures CollapsesToWords(s)
    decreases |s|
  {
    if s == "" {
    } else if IsSpace(s[0]) {
      CollapsedIsWords(s[SpaceRun(s)..]);
      SpaceFirst(s, s[SpaceRun(s)..]);
    } else {
      CollapsedIsWords(s[WordRun(s)..]);
      WordFirst(s, s[..WordRun(s)], s[WordRun(s)..]);
    }
  }

  lemma SameEnd(s: string, n: nat)
    requires n < |s|
    ensures EndsInSpace(s) <==> EndsInSpace(s[n..])
  {
    assert s[n..][|s| - n - 1] == s[|s| - 1];
  }

  lemma SpaceFirst(s: string, t: string)
    requires s != "" && IsSpace(s[0]) && t == s[SpaceRun(s)..] && CollapsesToWords(t)
    ensures CollapsesToWords(s)
  {
    WordsAfterSpace(s, SpaceRun(s));
    if t != "" { SameEnd(s, SpaceRun(s)); }
    var c, j := Collapsed(t), Joined(Words(t)) + BlankIf(Words(t) != [] && EndsInSpace(t));
    assert c == "" + j == j;
  }

  lemma WordFirst(s: string, w: string, t: string)
    requires s != "" && !IsSpace(s[0]) && w == s[..WordRun(s)] && t == s[WordRun(s)..] && CollapsesToWords(t)
    ensures CollapsesToWords(s)
  {
    CollapsedWord(s, WordRun(s));
    JoinedCons(w, Words(t));
    assert Words(s) == [w] + Words(t);
    if t != "" { SameEnd(s, WordRun(s)); }
    if Words(t) == [] && t != "" { AllSpace(t); }
    WordBefore(w, Joined(Words(t)), t != "", Words(t) == [], EndsInSpace(t));
  }

  /** A word in front of collapsed text: the blank between them, or after the word, is already there. */
  lemma WordBefore(w: string, j: string, more: bool, last: bool, ends: bool)
    requires last ==> j == "" && ends == more
    requires !last ==> more
    ensures w + (BlankIf(more) + (j + BlankIf(!last && ends)))
      == "" + ((if last then w else w + (" " + j)) + BlankIf(ends))
  {
    if last {
      assert j + BlankIf(false) == "";
    } else {
      Regroup(w, " ", j, BlankIf(ends));
    }
  }

  lemma Regroup(w: string, b: string, j: string, e: string)
    ensures w + (b + (j + e)) == "" + ((w + (b + j)) + e)
  {
  }

  lemma JoinedCons(w: string, ws: seq<string>)
    ensures Joined([w] + ws) == if ws == [] then w else w + (" " + Joined(ws))
  {
    assert ([w] + ws)[1..] == ws;
    assert w + " " + Joined(ws) == w + (" " + Joined(ws));
  }

  lemma {:induction false} AllSpace(s: string)
    requires Words(s) == [] && s != ""
    ensures IsSpace(s[|s| - 1])
  {
    if |s| > 1 { AllSpace(s[1..]); }
  }

  lemma {:induction false} JoinedIsStripped(ws: seq<string>)
    requires AreWords(ws)
    ensures Stripped(Joined(ws)) && (Joined(ws) == "" ==> ws == [])
  {
    if |ws| > 1 {
      assert IsWord(ws[0]);
      JoinedIsStripped(ws[1..]);
      assert Joined(ws)[0] == ws[0][0];
    } else if |ws| == 1 {
      assert IsWord(ws[0]);
    }
  }

  lemma BTrimAround(lead: string, s: string, trail: string)
    requires Stripped(s) && (lead == "" || lead == " ") && (trail == "" || (trail == " " && s != ""))
    ensures BTrimmed(lead + (s + trail)) == s
  {
    assert BTrimmed(s) == s;
    if trail == " " {
      assert (s + trail)[..|s|] == s;
      assert BTrimmed(s + trail) == s;
    } else {
      assert s + trail == s;
    }
    if lead == " " {
      assert (lead + (s + trail))[1..] == s + trail;
    } else {
      assert lead + (s + trail) == s + trail;
    }
  }

  /** Collapse-then-trim is split-and-join, on every string. */
  lemma TrimmedIsJoined(s: string)
    ensures BTrimmed(Collapsed(s)) == Joined(Words(s))
  {
    CollapsedIsWords(s);
    JoinedIsStripped(Words(s));
    BTrimAround(BlankIf(StartsInSpace(s)), Joined(Words(s)), BlankIf(Words(s) != [] && EndsInSpace(s)));
  }

  // --- The normal form is normal ----------------------------------------------------------

  /** What is needed of case folding: it is settled after one step and leaves white space as it is. */
  ghost predicate Folds(lower: char -> char) {
    && (forall c :: lower(lower(c)) == lower(c))
    && (forall c :: IsSpace(c) ==> lower(c) == c)
    && (forall c :: IsSpace(lower(c)) ==> IsSpace(c))
  }

  lemma {:induction false} WordsOfJoined(ws: seq<string>)
    requires AreWords(ws)
    ensures Words(Joined(ws)) == ws
  {
    if |ws| == 1 {
      assert IsWord(ws[0]);
      var w := Joined(ws);
      assert WordRun(w) == |w| && w[..|w|] == w;
    } else if |ws| > 1 {
      assert IsWord(ws[0]);
      var s := Joined(ws);
      var rest := Joined(ws[1..]);
      assert s == ws[0] + (" " + rest);
      var n := |ws[0]|;
      assert s[n] == ' ' && forall i | 0 <= i < n :: s[i] == ws[0][i];
      assert WordRun(s) == n && s[..n] == ws[0] && s[n..] == " " + rest;
      assert (" " + rest)[1..] == rest;
      WordsOfJoined(ws[1..]);
    }
  }

  function LoweredAll(lower: char -> char, ws: seq<string>): (r: seq<string>)
    ensures |r| == |ws| && forall i | 0 <= i < |ws| :: r[i] == Lowered(lower, ws[i])
  {
    seq(|ws|, i requires 0 <= i < |ws| => Lowered(lower, ws[i]))
  }

  lemma LoweredWord(lower: char -> char, w: string)
    requires Folds(lower) && IsWord(w)
    ensures IsWord(Lowered(lower, w)) && Lowered(lower, Lowered(lower, w)) == Lowered(lower, w)
  {
    var l := Lowered(lower, w);
    forall i | 0 <= i < |l| ensures !IsSpace(l[i]) && lower(l[i]) == l[i] {
      assert l[i] == lower(w[i]) && !IsSpace(w[i]);
    }
  }

  lemma {:induction false} LoweredJoined(lower: char -> char, ws: seq<string>)
    requires lower(' ') == ' '
    ensures Lowered(lower, Joined(ws)) == Joined(LoweredAll(lower, ws))
  {
    if |ws| > 1 {
      LoweredJoined(lower, ws[1..]);
      assert LoweredAll(lower, ws)[1..] == LoweredAll(lower, ws[1..]);
      assert Lowered(lower, ws[0] + " " + Joined(ws[1..])) == Lowered(lower, ws[0]) + " " + Lowered(lower, Joined(ws[1..]));
    }
  }

  /** The normal form holds the lower-case words and nothing else. */
  lemma WordsOfNormalized(lower: char -> char, s: string)
    requires Folds(lower)
    ensures Words(Normalized(lower, s)) == LoweredAll(lower, Words(s))
    ensures Normalized(lower, s) == Joined(LoweredAll(lower, Words(s)))
  {
    var ws := Words(s);
    TrimmedIsJoined(s);
    assert IsSpace(' ');
    LoweredJoined(lower, ws);
    forall i | 0 <= i < |ws| ensures IsWord(LoweredAll(lower, ws)[i]) {
      LoweredWord(lower, ws[i]);
    }
    WordsOfJoined(LoweredAll(lower, ws));
  }

  lemma NormalizedIsIdempotent(lower: char -> char, s: string)
    requires Folds(lower)
    ensures Normalized(lower, Normalized(lower, s)) == Normalized(lower, s)
  {
    var ws := Words(s);
    WordsOfNormalized(lower, s);
    WordsOfNormalized(lower, Normalized(lower, s));
    forall i | 0 <= i < |ws| ensures Lowered(lower, LoweredAll(lower, ws)[i]) == LoweredAll(lower, ws)[i] {
      LoweredWord(lower, ws[i]);
    }
    assert LoweredAll(lower, LoweredAll(lower, ws)) == LoweredAll(lower, ws);
  }

  /** Two aliases have the same normal form exactly when they have the same words up to case. */
  lemma SameNormalFormIff(lower: char -> char, a: string, b: string)
    requires Folds(lower)
    ensures Normalized(lower, a) == Normalized(lower, b) <==> LoweredAll(lower, Words(a)) == LoweredAll(lower, Words(b))
  {
    WordsOfNormalized(lower, a);
    WordsOfNormalized(lower, b);
  }
}
