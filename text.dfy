/**
 * Character and string helpers shared by the browser scripts and the
 * build scripts: JavaScript white space, ASCII case mapping, `trim`,
 * and prefix/suffix tests with an optional case-insensitive mode (the
 * regular-expression `i` flag).
 */
module Text {

  /** The characters matched by the regular-expression class `\s` and removed
      by `String.prototype.trim`: ECMAScript WhiteSpace and LineTerminator. */
  predicate IsSpace(c: char) {
    c == '\t' || c == '\n' || c == '\U{000B}' || c == '\U{000C}' || c == '\r' || c == ' ' ||
    c == '\U{00A0}' || c == '\U{1680}' || ('\U{2000}' <= c <= '\U{200A}') ||
    c == '\U{2028}' || c == '\U{2029}' || c == '\U{202F}' || c == '\U{205F}' ||
    c == '\U{3000}' || c == '\U{FEFF}'
  }

  predicate IsUpperAscii(c: char) { 'A' <= c <= 'Z' }
  predicate IsLowerAscii(c: char) { 'a' <= c <= 'z' }

  /** `toLowerCase` on one character, for the ASCII letters. */
  function LowerChar(c: char): (d: char)
    ensures IsUpperAscii(c) ==> IsLowerAscii(d) && d as int == c as int + 32
    ensures !IsUpperAscii(c) ==> d == c
  {
    if IsUpperAscii(c) then (c as int + 32) as char else c
  }

  /** `toUpperCase` on one character, for the ASCII letters. */
  function UpperChar(c: char): (d: char)
    ensures IsLowerAscii(c) ==> IsUpperAscii(d) && d as int == c as int - 32
    ensures !IsLowerAscii(c) ==> d == c
  {
    if IsLowerAscii(c) then (c as int - 32) as char else c
  }

  /** `s.toLowerCase()`: every character mapped, length kept. */
  function Lower(s: string): (r: string)
    ensures |r| == |s|
    ensures forall i :: 0 <= i < |s| ==> r[i] == LowerChar(s[i])
  {
    seq(|s|, i requires 0 <= i < |s| => LowerChar(s[i]))
  }

  /** Lower-casing is idempotent, so a lower-cased category compares equal to itself. */
  lemma LowerIdempotent(s: string)
    ensures Lower(Lower(s)) == Lower(s)
  {
  }

  /** Character comparison, exact or under ASCII case folding. */
  predicate SameChar(a: char, b: char, ci: bool) {
    if ci then LowerChar(a) == LowerChar(b) else a == b
  }

  /** `s` begins with `p` (under case folding when `ci`). */
  predicate StartsWith(s: string, p: string, ci: bool) {
    |p| <= |s| && forall i :: 0 <= i < |p| ==> SameChar(s[i], p[i], ci)
  }

  /** `s.endsWith(p)`, or a `p$` test with the `i` flag when `ci`. */
  predicate EndsWith(s: string, p: string, ci: bool) {
    |p| <= |s| && forall i :: 0 <= i < |p| ==> SameChar(s[|s| - |p| + i], p[i], ci)
  }

  /** `s` ends with one of `ps`: the alternation `\.(a|b|...)$`. */
  predicate EndsWithAny(s: string, ps: seq<string>, ci: bool) {
    exists k :: 0 <= k < |ps| && EndsWith(s, ps[k], ci)
  }

  /** Exact prefix testing is Dafny's sequence prefix. */
  lemma StartsWithExact(s: string, p: string)
    ensures StartsWith(s, p, false) <==> p <= s
  {
  }

  /** Two suffixes of one string agree on their common last characters, so
      endings that differ in their last or next-to-last character exclude each other. */
  lemma EndsWithBoth(s: string, a: string, ci1: bool, b: string, ci2: bool)
    requires EndsWith(s, a, ci1) && EndsWith(s, b, ci2)
    ensures |a| >= 1 && |b| >= 1 ==> LowerChar(a[|a| - 1]) == LowerChar(b[|b| - 1])
    ensures |a| >= 2 && |b| >= 2 ==> LowerChar(a[|a| - 2]) == LowerChar(b[|b| - 2])
  {
    if |a| >= 1 && |b| >= 1 {
      assert SameChar(s[|s| - 1], a[|a| - 1], ci1);
      assert SameChar(s[|s| - 1], b[|b| - 1], ci2);
    }
    if |a| >= 2 && |b| >= 2 {
      assert SameChar(s[|s| - 2], a[|a| - 2], ci1);
      assert SameChar(s[|s| - 2], b[|b| - 2], ci2);
    }
  }

  /** Leading white space removed. */
  function TrimStart(s: string): (r: string)
    ensures |r| <= |s| && r == s[|s| - |r|..]
    ensures forall i :: 0 <= i < |s| - |r| ==> IsSpace(s[i])
    ensures r == [] || !IsSpace(r[0])
  {
    if |s| > 0 && IsSpace(s[0]) then TrimStart(s[1..]) else s
  }

  /** Trailing white space removed. */
  function TrimEnd(s: string): (r: string)
    ensures |r| <= |s| && r == s[..|r|]
    ensures forall i :: |r| <= i < |s| ==> IsSpace(s[i])
    ensures r == [] || !IsSpace(r[|r| - 1])
  {
    if |s| > 0 && IsSpace(s[|s| - 1]) then TrimEnd(s[..|s| - 1]) else s
  }

  /** `r` is the run of `s` from `a` on, with only white space around it. */
  predicate SpaceCut(s: string, r: string, a: nat) {
    a + |r| <= |s| && r == s[a..a + |r|] &&
    (forall k :: 0 <= k < a ==> IsSpace(s[k])) && (forall k :: a + |r| <= k < |s| ==> IsSpace(s[k]))
  }

  /** `s.trim()`: leading and trailing white space cut; text already free of
      white space at both ends is returned as it is. */
  function Trim(s: string): (r: string)
    ensures |r| <= |s|
    ensures exists a: nat :: SpaceCut(s, r, a)
    ensures r == [] || (!IsSpace(r[0]) && !IsSpace(r[|r| - 1]))
    ensures (s == [] || (!IsSpace(s[0]) && !IsSpace(s[|s| - 1]))) ==> r == s
  {
    var t := TrimStart(s);
    var r := TrimEnd(t);
    assert r != [] ==> r[0] == t[0];
    TrimCut(s, t, r);
    assert SpaceCut(s, r, |s| - |t|);
    r
  }

  lemma PrefixOfSuffix(s: string, a: nat, n: nat)
    requires a + n <= |s|
    ensures s[a..][..n] == s[a..a + n]
  {
  }

  /** Trim's contract determines it: any run of `s` with only white space
      around it and none at its own ends is `Trim(s)`. */
  lemma TrimUnique(s: string, u: string, a: nat)
    requires SpaceCut(s, u, a) && (u == [] || (!IsSpace(u[0]) && !IsSpace(u[|u| - 1])))
    ensures u == Trim(s)
  {
    var r := Trim(s);
    var b: nat :| SpaceCut(s, r, b);
    if u != [] && r != [] {
      assert u[0] == s[a] && r[0] == s[b];
      assert a == b;
      var e, f := a + |u| - 1, b + |r| - 1;
      assert u[|u| - 1] == s[e] && r[|r| - 1] == s[f];
      assert e == f;
    }
  }

  /** A prefix `r` of the suffix `t` of `s`, followed in `t` by white space
      only, is the run of `s` from where `t` starts, with white space after it. */
  lemma TrimCut(s: string, t: string, r: string)
    requires |t| <= |s| && t == s[|s| - |t|..]
    requires |r| <= |t| && r == t[..|r|] && forall i :: |r| <= i < |t| ==> IsSpace(t[i])
    ensures var a := |s| - |t|; r == s[a..a + |r|] && forall k :: a + |r| <= k < |s| ==> IsSpace(s[k])
  {
    var a := |s| - |t|;
    PrefixOfSuffix(s, a, |r|);
    forall k | a + |r| <= k < |s| ensures IsSpace(s[k]) {
      assert s[k] == t[k - a];
    }
  }

  /** `s.split(c)`: the pieces between the separators, at least one (the
      pieces of the usual front-to-back scan, built here from the back). */
  function Split(s: string, c: char): (r: seq<string>)
    ensures |r| >= 1
    ensures forall i :: 0 <= i < |r| ==> c !in r[i]
    decreases |s|
  {
    if s == [] then [""]
    else
      var t := Split(s[..|s| - 1], c);
      if s[|s| - 1] == c then t + [""]
      else t[..|t| - 1] + [t[|t| - 1] + [s[|s| - 1]]]
  }

  /** `parts.join(c)`. */
  function Join(parts: seq<string>, c: char): string
    requires |parts| >= 1
    decreases |parts|
  {
    if |parts| == 1 then parts[0] else Join(parts[..|parts| - 1], c) + [c] + parts[|parts| - 1]
  }

  /** Growing the last piece grows the joined text at its end. */
  lemma JoinGrowLast(parts: seq<string>, x: char, c: char)
    requires |parts| >= 1
    ensures Join(parts[..|parts| - 1] + [parts[|parts| - 1] + [x]], c) == Join(parts, c) + [x]
  {
    var q := parts[..|parts| - 1] + [parts[|parts| - 1] + [x]];
    assert q[..|q| - 1] == parts[..|parts| - 1];
  }

  /** Joining the pieces gives back the text. */
  lemma {:induction false} JoinSplit(s: string, c: char)
    ensures Join(Split(s, c), c) == s
    decreases |s|
  {
    if s != [] {
      var init := s[..|s| - 1];
      JoinSplit(init, c);
      JoinSplitStep(init, s[|s| - 1], c);
      SnocCut(s);
    }
  }

  lemma JoinSplitStep(init: string, x: char, c: char)
    requires Join(Split(init, c), c) == init
    ensures Join(Split(init + [x], c), c) == init + [x]
  {
    var s := init + [x];
    assert s[..|s| - 1] == init;
    var t := Split(init, c);
    if x == c {
      assert (t + [""])[..|t|] == t;
    } else {
      JoinGrowLast(t, x, c);
    }
  }

  /** Text without the separator is one piece. */
  lemma {:induction false} SplitPiece(w: string, c: char)
    requires c !in w
    ensures Split(w, c) == [w]
    decreases |w|
  {
    if w != [] {
      var init := w[..|w| - 1];
      SplitPiece(init, c);
      assert init + [w[|w| - 1]] == w;
    }
  }

  /** A separator followed by separator-free text adds that text as the last piece. */
  lemma {:induction false} SplitAfter(s: string, w: string, c: char)
    requires c !in w
    ensures Split(s + [c] + w, c) == Split(s, c) + [w]
    decreases |w|
  {
    if w == [] {
      assert (s + [c] + w)[..|s|] == s;
      assert s + [c] + w == s + [c];
    } else {
      var init := w[..|w| - 1];
      SplitAfter(s, init, c);
      var t := s + [c] + w;
      assert t[..|t| - 1] == s + [c] + init;
      assert init + [w[|w| - 1]] == w;
      var u := Split(s, c) + [init];
      assert u[..|u| - 1] == Split(s, c);
    }
  }

  /** Splitting a join gives back the pieces, when no piece holds the separator. */
  lemma {:induction false} SplitJoin(parts: seq<string>, c: char)
    requires |parts| >= 1 && forall i :: 0 <= i < |parts| ==> c !in parts[i]
    ensures Split(Join(parts, c), c) == parts
    decreases |parts|
  {
    if |parts| == 1 {
      SplitPiece(parts[0], c);
    } else {
      var init := parts[..|parts| - 1];
      InitFree(parts, init, c);
      SplitJoin(init, c);
      SplitAfter(Join(init, c), parts[|parts| - 1], c);
      SnocCut(parts);
    }
  }

  /** Dropping the last piece keeps the pieces separator-free. */
  lemma InitFree(parts: seq<string>, init: seq<string>, c: char)
    requires |parts| >= 1 && init == parts[..|parts| - 1]
    requires forall i :: 0 <= i < |parts| ==> c !in parts[i]
    ensures forall i :: 0 <= i < |init| ==> c !in init[i]
  {
    forall i | 0 <= i < |init| ensures c !in init[i] {
      assert init[i] == parts[i];
    }
  }

  /** `s.split(c)[last]`: the text after the last separator. */
  function LastSegment(s: string, c: char): (r: string)
    ensures c !in r
  {
    var parts := Split(s, c);
    parts[|parts| - 1]
  }

  /** The last segment is a suffix of the text, and it is all of the text
      or follows a separator. */
  lemma LastSegmentSuffix(s: string, c: char)
    ensures var r := LastSegment(s, c);
      |r| <= |s| && s[|s| - |r|..] == r && (|r| == |s| || s[|s| - |r| - 1] == c)
  {
    var parts := Split(s, c);
    JoinSplit(s, c);
    var r := parts[|parts| - 1];
    if |parts| > 1 {
      var j := Join(parts[..|parts| - 1], c);
      assert s == j + [c] + r;
      assert s[|s| - |r|..] == r;
    }
  }

  /** The text after a separator and separator-free text is that text. */
  lemma LastSegmentAfter(d: string, f: string, c: char)
    requires c !in f
    ensures LastSegment(d + [c] + f, c) == f
  {
    SplitAfter(d, f, c);
  }

  /** A text ending in the separator has an empty last segment. */
  lemma LastSegmentOfTrailing(s: string, c: char)
    requires |s| >= 1 && s[|s| - 1] == c
    ensures LastSegment(s, c) == ""
  {
    LastSegmentAfter(s[..|s| - 1], "", c);
    assert s[..|s| - 1] + [c] + "" == s;
  }

  /** `p` occurs in `s` at position `i`. */
  predicate OccursAt(s: string, p: string, i: int) {
    0 <= i && i + |p| <= |s| && s[i..i + |p|] == p
  }

  /** The first position at or after `k` where `p` occurs, or -1. */
  function IndexFrom(s: string, p: string, k: nat): (i: int)
    ensures i == -1 || (k <= i && OccursAt(s, p, i))
    ensures forall j :: k <= j && (i == -1 || j < i) ==> !OccursAt(s, p, j)
    decreases |s| - k
  {
    if k + |p| > |s| then -1
    else if OccursAt(s, p, k) then k
    else IndexFrom(s, p, k + 1)
  }

  /** `s.indexOf(p)`. */
  function IndexOf(s: string, p: string): (i: int)
    ensures i == -1 || OccursAt(s, p, i)
    ensures forall j :: 0 <= j && (i == -1 || j < i) ==> !OccursAt(s, p, j)
  {
    IndexFrom(s, p, 0)
  }

  /** `s.replace(p, rep)` with a string pattern: the first occurrence only.
      Putting `p` back in place of `rep` restores the text. */
  function ReplaceFirst(s: string, p: string, rep: string): (r: string)
    ensures IndexOf(s, p) == -1 ==> r == s
    ensures IndexOf(s, p) >= 0 ==> var i := IndexOf(s, p);
      |r| == |s| - |p| + |rep| && r[..i] + p + r[i + |rep|..] == s && r[i..i + |rep|] == rep
  {
    var i := IndexOf(s, p);
    if i < 0 then s
    else
      var r := s[..i] + rep + s[i + |p|..];
      assert r[..i] == s[..i] && r[i + |rep|..] == s[i + |p|..];
      assert s[..i] + p + s[i + |p|..] == s;
      r
  }

  /** A text split after its first character, with more text behind it. */
  lemma FirstSplit(x: string, u: string, c: string)
    requires |x| >= 1
    ensures (x + u)[0] == x[0] && (x + u)[1..] == x[1..] + u
    ensures [x[0]] + (x[1..] + c) == x + c
  {
    assert [x[0]] + x[1..] == x;
  }

  /** The first `m` characters as the first `m - 1` and one more. */
  lemma LastSplit(s: string, m: nat, c: string)
    requires 1 <= m <= |s|
    ensures s[m - 1..][0] == s[m - 1] && s[m - 1..][1..] == s[m..]
    ensures s[..m - 1] + ([s[m - 1]] + c) == s[..m] + c
  {
    assert s[..m - 1] + [s[m - 1]] == s[..m];
  }

  /** Concatenation regrouped. */
  lemma Associate(a: string, b: string, c: string)
    ensures a + (b + c) == (a + b) + c
  {
  }

  /** Nothing appended. */
  lemma NoRest(s: string)
    ensures s + [] == s
  {
  }

  /** A position inside the left part of `x + r + y`. */
  lemma LeftSlice(x: string, r: string, y: string, i: nat, n: nat)
    requires i + n <= |x|
    ensures x[i..][..n] == (x + r + y)[i..i + n]
  {
  }

  /** A position inside the right part of `x + r + y`. */
  lemma RightSlice(x: string, r: string, y: string, i: nat)
    requires |x| + |r| <= i <= |x| + |r| + |y|
    ensures y[i - |x| - |r|..] == (x + r + y)[i..]
  {
  }

  /** A text cut at `n` and put back together behind `x`. */
  lemma CutAt(x: string, s: string, n: nat)
    requires n <= |s|
    ensures x + s[..n] + s[n..] == x + s
  {
    assert s[..n] + s[n..] == s;
  }

  /** A non-empty sequence is its front and its last element. */
  lemma SnocCut<T>(s: seq<T>)
    requires s != []
    ensures s[..|s| - 1] + [s[|s| - 1]] == s
  {
  }
}
