/** The add form's URL check `isValidUrl`: the regular expression
    `^(https?:\/\/)([\w-]+\.)+[\w-]{2,}(\/.*)?$`, as a declarative
    description of the strings it matches and as a hand-rolled recogniser
    (a scheme test followed by a small automaton), proved to agree. */
module UrlValidation {
  import opened Text
  import opened Sequences

  /** `\w` without the `u` or `i` flag: `[A-Za-z0-9_]`. */
  predicate IsWordChar(c: char)
  {
    ('A' <= c <= 'Z') || ('a' <= c <= 'z') || ('0' <= c <= '9') || c == '_'
  }

  /** `[\w-]`: a character of a domain label. */
  predicate IsLabelChar(c: char)
  {
    IsWordChar(c) || c == '-'
  }

  predicate HasPrefix(s: string, p: string)
  {
    |p| <= |s| && s[..|p|] == p
  }

  // ---------------------------------------------------------------------
  // The strings the regular expression matches
  // ---------------------------------------------------------------------

  ghost predicate AllLabelChars(s: string)
  {
    forall i :: 0 <= i < |s| ==> IsLabelChar(s[i])
  }

  /** `([\w-]+\.)+`: one or more labels, each followed by a dot; read as
      "the same, once fewer" followed by one more label and its dot. */
  ghost predicate DottedLabels(p: string)
    decreases |p|
  {
    && |p| >= 2
    && p[|p| - 1] == '.'
    && exists k :: 0 <= k < |p| - 1 && AllLabelChars(p[k..|p| - 1])
                   && (k == 0 || DottedLabels(p[..k]))
  }

  /** `[\w-]{2,}`: the final label, at least two characters. */
  ghost predicate FinalLabel(l: string)
  {
    |l| >= 2 && AllLabelChars(l)
  }

  /** `([\w-]+\.)+[\w-]{2,}`. */
  ghost predicate Host(h: string)
  {
    exists k :: 0 < k < |h| && DottedLabels(h[..k]) && FinalLabel(h[k..])
  }

  /** `(\/.*)?`: nothing, or a slash followed by characters other than line
      terminators (`.` does not match them without the `s` flag). */
  ghost predicate OptionalPath(p: string)
  {
    |p| == 0 || (p[0] == '/' && forall i :: 1 <= i < |p| ==> !IsLineTerminator(p[i]))
  }

  /** Everything after the scheme, up to the end of the input (`$`). */
  ghost predicate HostAndPath(t: string)
  {
    exists k :: 0 <= k <= |t| && Host(t[..k]) && OptionalPath(t[k..])
  }

  /** The strings `^(https?:\/\/)([\w-]+\.)+[\w-]{2,}(\/.*)?$` matches. */
  ghost predicate MatchesUrlPattern(u: string)
  {
    || (HasPrefix(u, "http://") && HostAndPath(u[7..]))
    || (HasPrefix(u, "https://") && HostAndPath(u[8..]))
  }

  // ---------------------------------------------------------------------
  // The recogniser
  // ---------------------------------------------------------------------

  /** States of the automaton that reads what follows the scheme:
      at the start of a label (`dotted` once a dot has been read), inside a
      label of `len` characters, inside the path, or rejected. */
  datatype ScanState =
    | LabelStart(dotted: bool)
    | InLabel(len: nat, dotted: bool)
    | InPath
    | Rejected

  function Step(st: ScanState, c: char): ScanState
  {
    match st
    case LabelStart(d) => if IsLabelChar(c) then InLabel(1, d) else Rejected
    case InLabel(n, d) =>
      if IsLabelChar(c) then InLabel(n + 1, d)
      else if c == '.' then LabelStart(true)
      else if c == '/' && d && n >= 2 then InPath
      else Rejected
    case InPath => if IsLineTerminator(c) then Rejected else InPath
    case Rejected => Rejected
  }

  /** The state after reading all of `t`. */
  function Run(st: ScanState, t: string): ScanState
    decreases |t|
  {
    if |t| == 0 then st else Step(Run(st, t[..|t| - 1]), t[|t| - 1])
  }

  /** Accepting states: a final label of two or more characters after at
      least one dot, or a path. */
  predicate Accepting(st: ScanState)
  {
    (st.InLabel? && st.dotted && st.len >= 2) || st.InPath?
  }

  /** `isValidUrl(url)`. */
  function IsValidUrl(u: string): bool
  {
    if HasPrefix(u, "https://") then Accepting(Run(LabelStart(false), u[8..]))
    else if HasPrefix(u, "http://") then Accepting(Run(LabelStart(false), u[7..]))
    else false
  }

  // ---------------------------------------------------------------------
  // Agreement
  // ---------------------------------------------------------------------

  /** What having reached a state says about the text read from the start. */
  ghost predicate Reached(st: ScanState, w: string)
  {
    match st
    case LabelStart(false) => |w| == 0
    case LabelStart(true) => DottedLabels(w)
    case InLabel(n, false) => n >= 1 && |w| == n && AllLabelChars(w)
    case InLabel(n, true) => 1 <= n < |w| && DottedLabels(w[..|w| - n]) && AllLabelChars(w[|w| - n..])
    case InPath => exists k :: 0 < k < |w| && Host(w[..k]) && w[k] == '/'
                               && forall i :: k < i < |w| ==> !IsLineTerminator(w[i])
    case Rejected => true
  }

  /** Each step of the automaton keeps `Reached` true. */
  lemma StepReached(st: ScanState, w: string, c: char)
    requires Reached(st, w)
    ensures Reached(Step(st, c), w + [c])
  {
    match st
    case LabelStart(d) =>
      if IsLabelChar(c) && d {
        LabelAfterDot(w, c);
      }
    case InLabel(n, d) =>
      if IsLabelChar(c) {
        LabelGrows(w, n, d, c);
      } else if c == '.' {
        DotEndsLabel(w, n, d);
      } else if c == '/' && d && n >= 2 {
        SlashStartsPath(w, n);
      }
    case InPath =>
      if !IsLineTerminator(c) {
        PathGrows(w, c);
      }
    case Rejected =>
  }

  lemma LabelAfterDot(w: string, c: char)
    requires DottedLabels(w) && IsLabelChar(c)
    ensures Reached(InLabel(1, true), w + [c])
  {
    var w' := w + [c];
    assert w'[..|w'| - 1] == w;
  }

  lemma LabelGrows(w: string, n: nat, d: bool, c: char)
    requires Reached(InLabel(n, d), w) && IsLabelChar(c)
    ensures Reached(InLabel(n + 1, d), w + [c])
  {
    var w' := w + [c];
    if d {
      assert w'[..|w'| - (n + 1)] == w[..|w| - n];
      assert w'[|w'| - (n + 1)..] == w[|w| - n..] + [c];
    }
  }

  lemma DotEndsLabel(w: string, n: nat, d: bool)
    requires Reached(InLabel(n, d), w)
    ensures DottedLabels(w + ['.'])
  {
    var w' := w + ['.'];
    assert |w'| >= 2 && w'[|w'| - 1] == '.';
    var k := if d then |w| - n else 0;
    assert w'[k..|w'| - 1] == w[k..];
    assert AllLabelChars(w[k..]);
    if d {
      assert w'[..k] == w[..k];
      assert DottedLabels(w'[..k]);
    }
    DottedLabelsIntro(w', k);
  }

  /** One more label and its dot after `p[..k]`, which is empty or itself
      dotted labels, gives dotted labels. */
  lemma DottedLabelsIntro(p: string, k: nat)
    requires |p| >= 2 && p[|p| - 1] == '.'
    requires k < |p| - 1 && AllLabelChars(p[k..|p| - 1])
    requires k == 0 || DottedLabels(p[..k])
    ensures DottedLabels(p)
  {
    var front := p[..k];
    var last := p[k..|p| - 1];
    assert AllLabelChars(last) && (k == 0 || DottedLabels(front));
  }

  lemma SlashStartsPath(w: string, n: nat)
    requires Reached(InLabel(n, true), w) && n >= 2
    ensures Reached(InPath, w + ['/'])
  {
    var w' := w + ['/'];
    var j := |w| - n;
    assert 0 < j < |w| && DottedLabels(w[..j]) && FinalLabel(w[j..]);
    assert Host(w);
    assert w'[..|w|] == w;
    assert w'[|w|] == '/';
  }

  lemma PathGrows(w: string, c: char)
    requires Reached(InPath, w) && !IsLineTerminator(c)
    ensures Reached(InPath, w + [c])
  {
    var w' := w + [c];
    var k :| 0 < k < |w| && Host(w[..k]) && w[k] == '/'
             && forall i :: k < i < |w| ==> !IsLineTerminator(w[i]);
    assert w'[..k] == w[..k];
  }

  /** Whatever state the automaton reaches, `Reached` describes the text. */
  lemma {:induction false} RunReached(t: string)
    ensures Reached(Run(LabelStart(false), t), t)
    decreases |t|
  {
    if |t| > 0 {
      RunReached(t[..|t| - 1]);
      StepReached(Run(LabelStart(false), t[..|t| - 1]), t[..|t| - 1], t[|t| - 1]);
      assert t[..|t| - 1] + [t[|t| - 1]] == t;
    }
  }

  /** An accepting run has read a host with an optional path. */
  lemma AcceptedMatches(t: string)
    requires Accepting(Run(LabelStart(false), t))
    ensures HostAndPath(t)
  {
    RunReached(t);
    var st := Run(LabelStart(false), t);
    if st.InPath? {
      var k :| 0 < k < |t| && Host(t[..k]) && t[k] == '/'
               && forall i :: k < i < |t| ==> !IsLineTerminator(t[i]);
      assert OptionalPath(t[k..]);
    } else {
      var n := st.len;
      assert Host(t) by {
        assert t[..|t| - n] == t[..|t|][..|t| - n];
      }
      assert t[..|t|] == t;
      assert OptionalPath(t[|t|..]);
    }
  }

  /** Running over a concatenation runs over its parts in turn. */
  lemma {:induction false} RunAppend(st: ScanState, a: string, b: string)
    ensures Run(st, a + b) == Run(Run(st, a), b)
    decreases |b|
  {
    if |b| == 0 {
      assert a + b == a;
    } else {
      DropLastConcat(a, b);
      RunAppend(st, a, b[..|b| - 1]);
    }
  }

  /** Reading a label from the start of a label lands inside it. */
  lemma {:induction false} RunLabel(d: bool, l: string)
    requires |l| > 0 && AllLabelChars(l)
    ensures Run(LabelStart(d), l) == InLabel(|l|, d)
    decreases |l|
  {
    if |l| > 1 {
      RunLabel(d, l[..|l| - 1]);
    }
  }

  /** Reading labels each followed by a dot ends at the start of a label,
      with a dot read. */
  lemma {:induction false} RunDottedLabels(p: string)
    requires DottedLabels(p)
    ensures Run(LabelStart(false), p) == LabelStart(true)
    decreases |p|
  {
    var k :| 0 <= k < |p| - 1 && AllLabelChars(p[k..|p| - 1]) && (k == 0 || DottedLabels(p[..k]));
    var d := k > 0;
    var front := p[..|p| - 1];
    var l := p[k..|p| - 1];
    if k > 0 {
      RunDottedLabels(p[..k]);
    } else {
      assert p[..k] == [];
    }
    RunLabel(d, l);
    TakeSlice(p, k, |p| - 1);
    RunAppend(LabelStart(false), p[..k], l);
    assert Run(LabelStart(false), front) == InLabel(|l|, d);
    assert Run(LabelStart(false), p) == Step(InLabel(|l|, d), '.');
  }

  /** Reading path characters inside the path stays there. */
  lemma {:induction false} RunPath(q: string)
    requires forall i :: 0 <= i < |q| ==> !IsLineTerminator(q[i])
    ensures Run(InPath, q) == InPath
    decreases |q|
  {
    if |q| > 0 {
      RunPath(q[..|q| - 1]);
    }
  }

  /** Reading a host ends inside its final label, after a dot. */
  lemma RunHost(h: string) returns (n: nat)
    requires Host(h)
    ensures n >= 2 && Run(LabelStart(false), h) == InLabel(n, true)
  {
    var j :| 0 < j < |h| && DottedLabels(h[..j]) && FinalLabel(h[j..]);
    RunDottedLabels(h[..j]);
    RunLabel(true, h[j..]);
    RunAppend(LabelStart(false), h[..j], h[j..]);
    TakeDrop(h, j);
    n := |h| - j;
  }

  /** A host with an optional path is accepted. */
  lemma MatchesAccepted(t: string)
    requires HostAndPath(t)
    ensures Accepting(Run(LabelStart(false), t))
  {
    var k :| 0 <= k <= |t| && Host(t[..k]) && OptionalPath(t[k..]);
    var h := t[..k];
    var p := t[k..];
    var n := RunHost(h);
    TakeDrop(t, k);
    RunAppend(LabelStart(false), h, p);
    if |p| > 0 {
      var st := InLabel(n, true);
      assert Run(st, [p[0]]) == InPath;
      RunPath(p[1..]);
      RunAppend(st, [p[0]], p[1..]);
      SplitFirst(p);
    }
  }

  /** The recogniser accepts exactly the strings the regular expression
      matches. */
  lemma IsValidUrlMatchesPattern(u: string)
    ensures IsValidUrl(u) <==> MatchesUrlPattern(u)
  {
    if HasPrefix(u, "https://") {
      assert !HasPrefix(u, "http://") by {
        assert u[4] == "https://"[4];
      }
      if IsValidUrl(u) {
        AcceptedMatches(u[8..]);
      }
      if HostAndPath(u[8..]) {
        MatchesAccepted(u[8..]);
      }
    } else if HasPrefix(u, "http://") {
      if IsValidUrl(u) {
        AcceptedMatches(u[7..]);
      }
      if HostAndPath(u[7..]) {
        MatchesAccepted(u[7..]);
      }
    }
  }
}
