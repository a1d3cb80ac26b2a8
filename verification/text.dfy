/** Option, used wherever the table's code may come back empty-handed (a
    failed request, a malformed CSV text). */
module Wrappers {

  datatype Option<+T> = None | Some(value: T)
}

/** Equalities between sequences, proved once here so that larger proofs
    need not prove them among their own facts. */
module Sequences {

  lemma ConcatAssoc<T>(a: seq<T>, b: seq<T>, c: seq<T>)
    ensures (a + b) + c == a + (b + c)
  {
  }

  lemma TakeDrop<T>(s: seq<T>, k: nat)
    requires k <= |s|
    ensures s[..k] + s[k..] == s
  {
  }

  lemma DropDrop<T>(s: seq<T>, a: nat, j: nat)
    requires a + j <= |s|
    ensures s[a..][j..] == s[a + j..]
  {
  }

  lemma DropFirstConcat<T>(a: seq<T>, b: seq<T>)
    requires |a| > 0
    ensures (a + b)[0] == a[0] && (a + b)[1..] == a[1..] + b
  {
  }

  lemma TakeSlice<T>(s: seq<T>, k: nat, e: nat)
    requires k <= e <= |s|
    ensures s[..k] + s[k..e] == s[..e]
  {
  }

  lemma DropLastConcat<T>(a: seq<T>, b: seq<T>)
    requires |b| > 0
    ensures (a + b)[..|a + b| - 1] == a + b[..|b| - 1]
    ensures (a + b)[|a + b| - 1] == b[|b| - 1]
  {
  }

  lemma SplitFirst<T>(s: seq<T>)
    requires |s| > 0
    ensures [s[0]] + s[1..] == s
  {
  }

  lemma SplitLast<T>(s: seq<T>)
    requires |s| > 0
    ensures s[..|s| - 1] + [s[|s| - 1]] == s
  {
  }

  lemma SnocParts<T>(s: seq<T>, y: T)
    ensures (s + [y])[..|s|] == s && (s + [y])[|s|] == y
  {
  }
}

/** String helpers the table relies on: JavaScript's `Array.prototype.join`
    and `String.prototype.trim`. */
module Text {
  import opened Sequences

  /** `parts.join(sep)`: the parts with one `sep` between consecutive ones. */
  function Join(parts: seq<string>, sep: char): string
  {
    if |parts| == 0 then ""
    else if |parts| == 1 then parts[0]
    else parts[0] + [sep] + Join(parts[1..], sep)
  }

  /** A join of two or more parts, followed by `rest`, is its first part, a
      separator, and the join of the other parts followed by `rest`. */
  lemma JoinFirst(parts: seq<string>, sep: char, rest: string)
    requires |parts| >= 2
    ensures Join(parts, sep) + rest == parts[0] + ([sep] + (Join(parts[1..], sep) + rest))
  {
  }

  /** `s.split(sep)`: the pieces of `s` between its separators. */
  function Split(s: string, sep: char): (parts: seq<string>)
    ensures |parts| > 0
    decreases |s|
  {
    if |s| == 0 then [""]
    else
      var rest := Split(s[1..], sep);
      if s[0] == sep then [""] + rest
      else [[s[0]] + rest[0]] + rest[1..]
  }

  /** Splitting a separator-free piece, then a separator and more text,
      gives the piece followed by the pieces of the rest. */
  lemma {:induction false} SplitAfterPiece(p: string, sep: char, rest: string)
    requires sep !in p
    ensures Split(p + ([sep] + rest), sep) == [p] + Split(rest, sep)
    decreases |p|
  {
    var t := p + ([sep] + rest);
    if |p| == 0 {
      assert t == [sep] + rest;
      assert t[1..] == rest;
    } else {
      DropFirstConcat(p, [sep] + rest);
      SplitAfterPiece(p[1..], sep, rest);
      SplitFirst(p);
    }
  }

  /** A separator-free text splits into itself alone. */
  lemma {:induction false} SplitPiece(p: string, sep: char)
    requires sep !in p
    ensures Split(p, sep) == [p]
    decreases |p|
  {
    if |p| > 0 {
      SplitPiece(p[1..], sep);
      SplitFirst(p);
    }
  }

  /** `join` and `split` are inverse: joining separator-free parts and
      splitting the result at the separator gives the parts back, so the
      separators are exactly the ones `join` inserted, one between each
      two consecutive parts. */
  lemma {:induction false} JoinSplit(parts: seq<string>, sep: char)
    requires |parts| > 0
    requires forall i :: 0 <= i < |parts| ==> sep !in parts[i]
    ensures Split(Join(parts, sep), sep) == parts
    decreases |parts|
  {
    if |parts| == 1 {
      SplitPiece(parts[0], sep);
    } else {
      JoinSplit(parts[1..], sep);
      JoinFirst(parts, sep, []);
      assert Join(parts, sep) + [] == Join(parts, sep);
      assert Join(parts[1..], sep) + [] == Join(parts[1..], sep);
      SplitAfterPiece(parts[0], sep, Join(parts[1..], sep));
      SplitFirst(parts);
    }
  }

  /** Line terminators of ECMAScript (section 12.3 of ECMA-262): LF, CR, LS, PS. */
  predicate IsLineTerminator(c: char)
  {
    c == '\n' || c == '\r' || c == '\U{2028}' || c == '\U{2029}'
  }

  /** White space of ECMAScript (section 12.2 of ECMA-262): TAB, VT, FF,
      ZWNBSP and every code point of the Unicode category Zs. */
  predicate IsWhiteSpace(c: char)
  {
    || c == '\t' || c == '\U{000B}' || c == '\U{000C}' || c == '\U{FEFF}'
    || c == ' ' || c == '\U{00A0}' || c == '\U{1680}'
    || ('\U{2000}' <= c <= '\U{200A}')
    || c == '\U{202F}' || c == '\U{205F}' || c == '\U{3000}'
  }

  /** The characters `String.prototype.trim` strips from either end. */
  predicate IsTrimmable(c: char)
  {
    IsWhiteSpace(c) || IsLineTerminator(c)
  }

  /** Every character of `s` would be stripped by `trim`. */
  predicate IsBlank(s: string)
  {
    forall i :: 0 <= i < |s| ==> IsTrimmable(s[i])
  }

  lemma BlankAppend(a: string, b: string)
    requires IsBlank(a) && IsBlank(b)
    ensures IsBlank(a + b)
  {
    forall i | 0 <= i < |a + b| ensures IsTrimmable((a + b)[i]) {
      if i < |a| {
        assert (a + b)[i] == a[i];
      } else {
        assert (a + b)[i] == b[i - |a|];
      }
    }
  }

  /** Number of trimmable characters at the start of `s`. */
  function LeadingBlank(s: string): (n: nat)
    ensures n <= |s|
    ensures IsBlank(s[..n])
    ensures n < |s| ==> !IsTrimmable(s[n])
    decreases |s|
  {
    if |s| > 0 && IsTrimmable(s[0]) then
      var m := LeadingBlank(s[1..]);
      assert s[..1 + m] == [s[0]] + s[1..][..m];
      1 + m
    else 0
  }

  /** Number of trimmable characters at the end of `s`. */
  function TrailingBlank(s: string): (n: nat)
    ensures n <= |s|
    ensures IsBlank(s[|s| - n..])
    ensures n < |s| ==> !IsTrimmable(s[|s| - n - 1])
    decreases |s|
  {
    if |s| > 0 && IsTrimmable(s[|s| - 1]) then
      var init := s[..|s| - 1];
      var m := TrailingBlank(init);
      assert s[|s| - (1 + m)..] == init[|init| - m..] + [s[|s| - 1]];
      BlankAppend(init[|init| - m..], [s[|s| - 1]]);
      assert m < |init| ==> s[|s| - (1 + m) - 1] == init[|init| - m - 1];
      1 + m
    else 0
  }

  /** `s.trim()`: `s` without its leading and trailing white space and line
      terminators. The result is the middle of `s`, all that was cut off is
      blank, and it neither starts nor ends with a trimmable character; it is
      empty exactly when `s` is blank. */
  function Trim(s: string): (r: string)
    ensures exists a :: 0 <= a <= |s| - |r| && r == s[a..a + |r|]
                        && IsBlank(s[..a]) && IsBlank(s[a + |r|..])
    ensures |r| > 0 ==> !IsTrimmable(r[0]) && !IsTrimmable(r[|r| - 1])
    ensures r == [] <==> IsBlank(s)
  {
    var a := LeadingBlank(s);
    var b := TrailingBlank(s[a..]);
    TrimBounds(s, a, b);
    var r := s[a..|s| - b];
    assert a + |r| == |s| - b;
    r
  }

  /** Where trimming cuts `s`: after `a` leading and before `b` trailing
      trimmable characters. */
  lemma TrimBounds(s: string, a: nat, b: nat)
    requires a <= |s| && IsBlank(s[..a]) && (a < |s| ==> !IsTrimmable(s[a]))
    requires b <= |s[a..]| && IsBlank(s[a..][|s[a..]| - b..])
    requires b < |s[a..]| ==> !IsTrimmable(s[a..][|s[a..]| - b - 1])
    ensures a <= |s| - b
    ensures IsBlank(s[..a]) && IsBlank(s[|s| - b..])
    ensures a < |s| - b ==> !IsTrimmable(s[a]) && !IsTrimmable(s[|s| - b - 1])
    ensures a == |s| - b <==> IsBlank(s)
  {
    var t := s[a..];
    DropDrop(s, a, |t| - b);
    if a < |s| - b {
      assert t[|t| - b - 1] == s[|s| - b - 1];
      assert !IsTrimmable(s[a]);
    } else {
      TakeDrop(s, a);
      BlankAppend(s[..a], s[|s| - b..]);
    }
  }

  /** Trimming twice is trimming once. */
  lemma TrimIdempotent(s: string)
    ensures Trim(Trim(s)) == Trim(s)
  {
    var r := Trim(s);
    var a := LeadingBlank(r);
    assert a == 0;
    var t := r[a..];
    assert t == r;
    var b := TrailingBlank(t);
    assert b == 0;
  }
}
