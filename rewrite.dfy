/**
 * The global `String.prototype.replace(/pattern/g, replacement)` used by the
 * two path-fixing scripts, for the two pattern shapes they use: a literal
 * text, and `head\s*tail` (the background-image rules).  The scan goes left
 * to right; at each position the pattern is tried, a match is replaced and
 * the scan resumes after it, otherwise one character is copied.  Replacement
 * text is never scanned again, and matches never overlap.
 */
module Rewrite {
  import opened Text

  datatype Pattern = Literal(text: string) | SpaceGap(head: string, tail: string)

  /** Patterns the scripts can write: non-empty, and a gap followed by a
      non-space character (so `\s*` can only take the whole run of spaces). */
  predicate WellFormed(p: Pattern) {
    match p
    case Literal(t) => |t| >= 2
    case SpaceGap(h, t) => |h| >= 2 && |t| >= 1 && !IsSpace(t[0])
  }

  /** The first character of any match of `p`. */
  function First(p: Pattern): char
    requires WellFormed(p)
  {
    match p
    case Literal(t) => t[0]
    case SpaceGap(h, _) => h[0]
  }

  /** The second character of any match of `p`. */
  function Second(p: Pattern): char
    requires WellFormed(p)
  {
    match p
    case Literal(t) => t[1]
    case SpaceGap(h, _) => h[1]
  }

  /** Characters every match of `p` contains. */
  function Required(p: Pattern): string
  {
    match p
    case Literal(t) => t
    case SpaceGap(h, t) => h + t
  }

  /** Length of the run of white space at the start of `s`. */
  function SpaceRun(s: string): (n: nat)
    ensures n <= |s|
    ensures forall i :: 0 <= i < n ==> IsSpace(s[i])
    ensures n == |s| || !IsSpace(s[n])
  {
    if |s| > 0 && IsSpace(s[0]) then 1 + SpaceRun(s[1..]) else 0
  }

  /** A run of white space that stops before a non-space character is the run. */
  lemma {:induction false} SpaceRunExact(s: string, k: nat)
    requires k <= |s|
    requires forall i :: 0 <= i < k ==> IsSpace(s[i])
    requires k == |s| || !IsSpace(s[k])
    ensures SpaceRun(s) == k
    decreases k
  {
    if k > 0 {
      SpaceRunExact(s[1..], k - 1);
    }
  }

  /** Length of the match of `p` at the start of `s`, or 0 when there is none. */
  function MatchLen(p: Pattern, s: string): (n: nat)
    ensures n <= |s|
  {
    match p
    case Literal(t) => if t <= s then |t| else 0
    case SpaceGap(h, t) =>
      if h <= s then
        var w := SpaceRun(s[|h|..]);
        if t <= s[|h| + w..] then |h| + w + |t| else 0
      else 0
  }

  /** The regular expression's own reading of `head\s*tail`: for ANY number of
      spaces after the head, if the tail follows, that is the match found. */
  lemma GapMatch(h: string, t: string, s: string, k: nat)
    requires WellFormed(SpaceGap(h, t))
    requires h <= s && |h| + k <= |s|
    requires forall i :: |h| <= i < |h| + k ==> IsSpace(s[i])
    requires t <= s[|h| + k..]
    ensures MatchLen(SpaceGap(h, t), s) == |h| + k + |t|
  {
    var rest := s[|h|..];
    assert t[0] == s[|h| + k];
    SpaceRunExact(rest, k);
  }

  /** What a match reads: it is the same in any text that agrees on the
      matched characters. */
  lemma MatchLocal(p: Pattern, s: string, s': string)
    requires WellFormed(p)
    requires MatchLen(p, s) > 0
    requires MatchLen(p, s) <= |s'| && s[..MatchLen(p, s)] == s'[..MatchLen(p, s)]
    ensures MatchLen(p, s') == MatchLen(p, s)
  {
    var n := MatchLen(p, s);
    match p
    case Literal(t) =>
      assert t == s[..n];
    case SpaceGap(h, t) =>
      var w := SpaceRun(s[|h|..]);
      assert h == s[..|h|] && h == s'[..|h|];
      assert t == s[|h| + w..n] && t == s'[|h| + w..n];
      forall i | |h| <= i < |h| + w ensures IsSpace(s'[i]) {
        assert s'[i] == s[..n][i];
        assert IsSpace(s[|h|..][i - |h|]);
      }
      GapMatch(h, t, s', w);
  }

  /** A match of `p` in `s` at some position. */
  predicate Occurs(p: Pattern, s: string) {
    exists i :: 0 <= i < |s| && MatchLen(p, s[i..]) > 0
  }

  /** A match of `p` in `s` starting before position `k`. */
  predicate StartsBefore(p: Pattern, s: string, k: nat) {
    exists i :: 0 <= i < k && i < |s| && MatchLen(p, s[i..]) > 0
  }

  /** `s.replace(p, rep)` with the `g` flag. */
  function ReplaceAll(s: string, p: Pattern, rep: string): string
    requires WellFormed(p)
    decreases |s|
  {
    if s == [] then []
    else
      var n := MatchLen(p, s);
      if n > 0 then rep + ReplaceAll(s[n..], p, rep)
      else [s[0]] + ReplaceAll(s[1..], p, rep)
  }

  /** A match in a text stays a match when more text follows. */
  lemma MatchExtends(q: Pattern, x: string, s: string, i: nat)
    requires WellFormed(q) && i < |x| && MatchLen(q, x[i..]) > 0
    ensures MatchLen(q, (x + s)[i..]) == MatchLen(q, x[i..])
  {
    var m := MatchLen(q, x[i..]);
    assert (x + s)[i..] == x[i..] + s;
    assert (x[i..] + s)[..m] == x[i..][..m];
    MatchLocal(q, x[i..], (x + s)[i..]);
  }

  lemma OccursInPrefix(q: Pattern, x: string, s: string)
    requires WellFormed(q) && Occurs(q, x)
    ensures Occurs(q, x + s)
  {
    var i :| 0 <= i < |x| && MatchLen(q, x[i..]) > 0;
    MatchExtends(q, x, s, i);
  }

  lemma OccursInSuffix(q: Pattern, x: string, s: string)
    requires Occurs(q, s)
    ensures Occurs(q, x + s)
  {
    var i :| 0 <= i < |s| && MatchLen(q, s[i..]) > 0;
    assert (x + s)[|x| + i..] == s[i..];
  }

  /** Text with no match comes back unchanged. */
  lemma {:induction false} ReplaceAllIdentity(s: string, p: Pattern, rep: string)
    requires WellFormed(p)
    requires !Occurs(p, s)
    ensures ReplaceAll(s, p, rep) == s
    decreases |s|
  {
    if s != [] {
      assert s[0..] == s;
      if Occurs(p, s[1..]) {
        OccursInSuffix(p, [s[0]], s[1..]);
        assert false;
      }
      ReplaceAllIdentity(s[1..], p, rep);
      assert [s[0]] + s[1..] == s;
    }
  }

  /** One step of the scan where no match starts: the character is copied. */
  lemma CopyStep(s: string, p: Pattern, rep: string)
    requires WellFormed(p) && s != [] && MatchLen(p, s) == 0
    ensures ReplaceAll(s, p, rep) == [s[0]] + ReplaceAll(s[1..], p, rep)
  {
  }

  /** Text in which no match starts is copied, and the scan goes on after it. */
  lemma {:induction false} ReplaceAllCopies(s: string, m: nat, p: Pattern, rep: string)
    requires WellFormed(p) && m <= |s|
    requires forall k :: 0 <= k < m ==> MatchLen(p, s[k..]) == 0
    ensures ReplaceAll(s, p, rep) == s[..m] + ReplaceAll(s[m..], p, rep)
    decreases m
  {
    if m > 0 {
      ReplaceAllCopies(s, m - 1, p, rep);
      CopyStep(s[m - 1..], p, rep);
      LastSplit(s, m, ReplaceAll(s[m..], p, rep));
    } else {
      assert s[..0] + s[0..] == s;
    }
  }

  /** The same, for text `w` in front of the rest `z`. */
  lemma ReplaceAllSkip(w: string, z: string, p: Pattern, rep: string)
    requires WellFormed(p)
    requires forall k :: 0 <= k < |w| ==> MatchLen(p, (w + z)[k..]) == 0
    ensures ReplaceAll(w + z, p, rep) == w + ReplaceAll(z, p, rep)
  {
    ReplaceAllCopies(w + z, |w|, p, rep);
    assert (w + z)[..|w|] == w && (w + z)[|w|..] == z;
  }

  /** No match can start at a character other than the pattern's first, nor at
      one followed by a character other than the pattern's second. */
  lemma NoMatchAt(p: Pattern, s: string)
    requires WellFormed(p)
    requires |s| >= 1 ==> s[0] != First(p) || (|s| >= 2 && s[1] != Second(p))
    ensures MatchLen(p, s) == 0
  {
    match p
    case Literal(t) =>
    case SpaceGap(h, t) =>
  }

  /** Copying through text with no position that could begin a match. */
  lemma ReplaceAllSkipText(w: string, z: string, p: Pattern, rep: string)
    requires WellFormed(p)
    requires forall k :: 0 <= k < |w| && w[k] == First(p) ==> k + 1 < |w| && w[k + 1] != Second(p)
    ensures ReplaceAll(w + z, p, rep) == w + ReplaceAll(z, p, rep)
  {
    forall k | 0 <= k < |w| ensures MatchLen(p, (w + z)[k..]) == 0 {
      var u := (w + z)[k..];
      assert u[0] == w[k];
      if w[k] == First(p) { assert u[1] == w[k + 1]; }
      NoMatchAt(p, u);
    }
    ReplaceAllSkip(w, z, p, rep);
  }

  /** Every match contains the pattern's required characters. */
  lemma MatchContains(p: Pattern, u: string, c: char)
    requires WellFormed(p) && MatchLen(p, u) > 0 && c in Required(p)
    ensures c in u
  {
    match p
    case Literal(t) =>
      PrefixContains(t, u, c);
    case SpaceGap(h, t) =>
      var w := SpaceRun(u[|h|..]);
      if c in h {
        PrefixContains(h, u, c);
      } else {
        var z := u[|h| + w..];
        PrefixContains(t, z, c);
        var j :| 0 <= j < |z| && z[j] == c;
        assert u[|h| + w + j] == c;
      }
  }

  lemma PrefixContains(t: string, u: string, c: char)
    requires t <= u && c in t
    ensures c in u
  {
    var j :| 0 <= j < |t| && t[j] == c;
    assert u[j] == c;
  }

  /** A text missing a character every match needs has no match. */
  lemma NoOccurrenceWithout(p: Pattern, s: string, c: char)
    requires WellFormed(p)
    requires c in Required(p) && c !in s
    ensures !Occurs(p, s)
  {
    forall i | 0 <= i < |s| ensures MatchLen(p, s[i..]) == 0 {
      if MatchLen(p, s[i..]) > 0 {
        MatchContains(p, s[i..], c);
        assert false;
      }
    }
  }

  /** A match at the very start that fails, and a required character missing
      from the rest, leave no match at all. */
  lemma NoOccurrenceAfterFirst(p: Pattern, s: string, c: char)
    requires WellFormed(p) && s != [] && MatchLen(p, s) == 0
    requires c in Required(p) && c !in s[1..]
    ensures !Occurs(p, s)
  {
    NoOccurrenceWithout(p, s[1..], c);
    forall i | 1 <= i < |s| ensures MatchLen(p, s[i..]) == 0 {
      assert s[i..] == s[1..][i - 1..];
    }
    assert s[0..] == s;
  }

  /** A literal at the start is replaced, and the scan resumes right after it. */
  lemma LiteralHead(q: string, rep: string, v: string)
    requires WellFormed(Literal(q))
    ensures ReplaceAll(q + v, Literal(q), rep) == rep + ReplaceAll(v, Literal(q), rep)
  {
    assert MatchLen(Literal(q), q + v) == |q|;
    MatchStep(q + v, Literal(q), rep);
    assert (q + v)[|q|..] == v;
  }

  /** `head`, any run of white space (possibly none), then `tail`, at the start:
      the whole of it is replaced. */
  lemma GapHead(h: string, t: string, rep: string, w: string, v: string)
    requires WellFormed(SpaceGap(h, t))
    requires forall i :: 0 <= i < |w| ==> IsSpace(w[i])
    ensures ReplaceAll(h + w + t + v, SpaceGap(h, t), rep) == rep + ReplaceAll(v, SpaceGap(h, t), rep)
  {
    var s := h + w + t + v;
    assert h <= s;
    forall i | |h| <= i < |h| + |w| ensures IsSpace(s[i]) {
      assert s[i] == w[i - |h|];
    }
    assert s[|h| + |w|..] == t + v;
    GapMatch(h, t, s, |w|);
    MatchStep(s, SpaceGap(h, t), rep);
    assert s[|h| + |w| + |t|..] == v;
  }

  // ---------------------------------------------------------------------
  // When a replacement cannot create a match

  /** `rep` never contributes to a match of `q`: every match in `x + rep + y`
      lies wholly in `x` or wholly in `y`. */
  ghost predicate Safe(q: Pattern, rep: string) {
    forall x: string, y: string :: Occurs(q, x + rep + y) ==> Occurs(q, x) || Occurs(q, y)
  }

  lemma UseSafe(q: Pattern, rep: string, x: string, y: string)
    requires Safe(q, rep)
    ensures Occurs(q, x + rep + y) ==> Occurs(q, x) || Occurs(q, y)
  {
  }

  /** One step of the scan where a match starts: the replacement is emitted
      and the scan resumes after the match. */
  lemma MatchStep(s: string, p: Pattern, rep: string)
    requires WellFormed(p) && s != [] && MatchLen(p, s) > 0
    ensures ReplaceAll(s, p, rep) == rep + ReplaceAll(s[MatchLen(p, s)..], p, rep)
  {
  }

  lemma PreserveMatchCase(q: Pattern, rep: string, x: string, s: string, n: nat, t: string)
    requires WellFormed(q) && 0 < n <= |s|
    requires Occurs(q, x + rep + t) ==> Occurs(q, x) || Occurs(q, t)
    requires Occurs(q, t) ==> Occurs(q, s[n..])
    ensures Occurs(q, x + rep + t) ==> Occurs(q, x + s)
  {
    if Occurs(q, x + rep + t) {
      if Occurs(q, x) {
        OccursInPrefix(q, x, s);
      } else {
        OccursInSuffix(q, x + s[..n], s[n..]);
        CutAt(x, s, n);
      }
    }
  }

  lemma PreserveMatchStep(q: Pattern, p: Pattern, rep: string, x: string, s: string)
    requires WellFormed(q) && WellFormed(p) && Safe(q, rep) && s != [] && MatchLen(p, s) > 0
    requires var u := s[MatchLen(p, s)..];
      Occurs(q, [] + ReplaceAll(u, p, rep)) ==> Occurs(q, [] + u)
    ensures Occurs(q, x + ReplaceAll(s, p, rep)) ==> Occurs(q, x + s)
  {
    var n := MatchLen(p, s);
    var t := ReplaceAll(s[n..], p, rep);
    MatchStep(s, p, rep);
    assert [] + t == t && [] + s[n..] == s[n..];
    UseSafe(q, rep, x, t);
    PreserveMatchCase(q, rep, x, s, n, t);
    assert x + (rep + t) == x + rep + t;
  }

  lemma PreserveCopyStep(q: Pattern, p: Pattern, rep: string, x: string, s: string)
    requires WellFormed(q) && WellFormed(p) && s != [] && MatchLen(p, s) == 0
    requires Occurs(q, x + [s[0]] + ReplaceAll(s[1..], p, rep)) ==> Occurs(q, x + [s[0]] + s[1..])
    ensures Occurs(q, x + ReplaceAll(s, p, rep)) ==> Occurs(q, x + s)
  {
    CopyStep(s, p, rep);
    assert x + [s[0]] + ReplaceAll(s[1..], p, rep) == x + ([s[0]] + ReplaceAll(s[1..], p, rep));
    assert x + [s[0]] + s[1..] == x + s;
  }

  /** Every match found after replacing came from text already in the input. */
  lemma {:induction false} PreserveFrom(q: Pattern, p: Pattern, rep: string, x: string, s: string)
    requires WellFormed(q) && WellFormed(p) && Safe(q, rep)
    ensures Occurs(q, x + ReplaceAll(s, p, rep)) ==> Occurs(q, x + s)
    decreases |s|
  {
    if s != [] {
      if MatchLen(p, s) > 0 {
        PreserveFrom(q, p, rep, [], s[MatchLen(p, s)..]);
        PreserveMatchStep(q, p, rep, x, s);
      } else {
        PreserveFrom(q, p, rep, x + [s[0]], s[1..]);
        PreserveCopyStep(q, p, rep, x, s);
      }
    }
  }

  /** A pattern absent from the input stays absent if the replacement is safe for it. */
  lemma Preserve(q: Pattern, p: Pattern, rep: string, s: string)
    requires WellFormed(q) && WellFormed(p) && Safe(q, rep)
    requires !Occurs(q, s)
    ensures !Occurs(q, ReplaceAll(s, p, rep))
  {
    PreserveFrom(q, p, rep, [], s);
    assert [] + s == s;
    assert [] + ReplaceAll(s, p, rep) == ReplaceAll(s, p, rep);
  }

  lemma RemoveMatchCase(p: Pattern, rep: string, x: string, s: string, n: nat, t: string)
    requires WellFormed(p) && 0 < n <= |s| && MatchLen(p, s) == n
    requires Occurs(p, x + rep + t) ==> Occurs(p, x) || Occurs(p, t)
    requires !Occurs(p, t)
    ensures Occurs(p, x + rep + t) ==> StartsBefore(p, x + s, |x|)
  {
    if Occurs(p, x + rep + t) {
      assert Occurs(p, x);
      var i :| 0 <= i < |x| && MatchLen(p, x[i..]) > 0;
      MatchExtends(p, x, s, i);
    }
  }

  lemma RemoveCopyCase(p: Pattern, x: string, s: string)
    requires WellFormed(p) && s != [] && MatchLen(p, s) == 0
    ensures StartsBefore(p, x + [s[0]] + s[1..], |x| + 1) ==> StartsBefore(p, x + s, |x|)
  {
    assert x + [s[0]] + s[1..] == x + s;
    assert (x + s)[|x|..] == s;
  }

  lemma RemoveMatchStep(p: Pattern, rep: string, x: string, s: string)
    requires WellFormed(p) && Safe(p, rep) && s != [] && MatchLen(p, s) > 0
    requires var u := s[MatchLen(p, s)..];
      Occurs(p, [] + ReplaceAll(u, p, rep)) ==> StartsBefore(p, [] + u, 0)
    ensures Occurs(p, x + ReplaceAll(s, p, rep)) ==> StartsBefore(p, x + s, |x|)
  {
    var n := MatchLen(p, s);
    var t := ReplaceAll(s[n..], p, rep);
    MatchStep(s, p, rep);
    assert [] + t == t;
    UseSafe(p, rep, x, t);
    RemoveMatchCase(p, rep, x, s, n, t);
    assert x + (rep + t) == x + rep + t;
  }

  lemma RemoveCopyStep(p: Pattern, rep: string, x: string, s: string)
    requires WellFormed(p) && s != [] && MatchLen(p, s) == 0
    requires Occurs(p, x + [s[0]] + ReplaceAll(s[1..], p, rep)) ==>
      StartsBefore(p, x + [s[0]] + s[1..], |x + [s[0]]|)
    ensures Occurs(p, x + ReplaceAll(s, p, rep)) ==> StartsBefore(p, x + s, |x|)
  {
    CopyStep(s, p, rep);
    Associate(x, [s[0]], ReplaceAll(s[1..], p, rep));
    RemoveCopyCase(p, x, s);
  }

  /** Every match found after replacing starts in the text already emitted. */
  lemma {:induction false} RemoveFrom(p: Pattern, rep: string, x: string, s: string)
    requires WellFormed(p) && Safe(p, rep)
    ensures Occurs(p, x + ReplaceAll(s, p, rep)) ==> StartsBefore(p, x + s, |x|)
    decreases |s|
  {
    if s == [] {
      assert x + [] == x;
    } else if MatchLen(p, s) > 0 {
      RemoveFrom(p, rep, [], s[MatchLen(p, s)..]);
      RemoveMatchStep(p, rep, x, s);
    } else {
      RemoveFrom(p, rep, x + [s[0]], s[1..]);
      RemoveCopyStep(p, rep, x, s);
    }
  }

  /** After replacing, no match of the pattern is left, if its replacement is safe for it. */
  lemma Remove(p: Pattern, rep: string, s: string)
    requires WellFormed(p) && Safe(p, rep)
    ensures !Occurs(p, ReplaceAll(s, p, rep))
  {
    RemoveFrom(p, rep, [], s);
    assert [] + ReplaceAll(s, p, rep) == ReplaceAll(s, p, rep);
  }

  // ---------------------------------------------------------------------
  // A sufficient condition for Safe, in terms of '/' and '.'

  /** A path-prefix pattern text: its only '/' is its last character, it has
      no '.', and it is at least 8 characters long. */
  predicate PathShape(q: string) {
    |q| >= 8 && q[|q| - 1] == '/' && '.' !in q &&
    forall i :: 0 <= i < |q| - 1 ==> q[i] != '/'
  }

  /** The character at `i`, or NUL outside the text. */
  function At(s: string, i: int): char {
    if 0 <= i < |s| then s[i] else '\0'
  }

  predicate IsStop(r: string, i: int) {
    0 <= i < |r| && (r[i] == '.' || r[i] == '/')
  }

  /** A '.' or another '/' lies within the 7 characters before position `e`. */
  predicate Guarded(r: string, e: int) {
    IsStop(r, e - 1) || IsStop(r, e - 2) || IsStop(r, e - 3) || IsStop(r, e - 4) ||
    IsStop(r, e - 5) || IsStop(r, e - 6) || IsStop(r, e - 7)
  }

  lemma GuardedStop(r: string, e: int) returns (k: int)
    ensures 1 <= k <= 7
    ensures Guarded(r, e) ==> IsStop(r, e - k)
  {
    k := if IsStop(r, e - 1) then 1 else if IsStop(r, e - 2) then 2 else if IsStop(r, e - 3) then 3
      else if IsStop(r, e - 4) then 4 else if IsStop(r, e - 5) then 5 else if IsStop(r, e - 6) then 6
      else 7;
  }

  predicate SlashesGuarded(r: string) {
    forall e :: 0 <= e < |r| && r[e] == '/' ==> Guarded(r, e)
  }

  /** The pattern shapes the path scripts use. */
  predicate PatShape(p: Pattern) {
    WellFormed(p) &&
    match p
    case Literal(q) => PathShape(q)
    case SpaceGap(h, t) => PathShape(t)
  }

  /** A replacement that cannot create a match of `p`. */
  predicate RepFits(p: Pattern, r: string) {
    |r| > 0 && SlashesGuarded(r) &&
    match p
    case Literal(q) => r[|r| - 1] == '/' || r[|r| - 1] !in q
    case SpaceGap(h, t) =>
      (r[|r| - 1] == '/' || r[|r| - 1] !in t) && r[|r| - 1] !in h && !IsSpace(r[|r| - 1])
  }

  /** A replacement ending in '/' whose every '/' is guarded fits any path
      pattern whose head has no '/'. */
  lemma SlashEndFits(p: Pattern, r: string)
    requires |r| > 0 && SlashesGuarded(r) && r[|r| - 1] == '/'
    requires p.SpaceGap? ==> '/' !in p.head
    ensures RepFits(p, r)
  {
  }

  /** How the scripts' path patterns are built: a stem free of '/' and '.', then '/'. */
  lemma PathShapeOf(stem: string)
    requires |stem| >= 7 && '/' !in stem && '.' !in stem
    ensures PathShape(stem + "/")
  {
    var q := stem + "/";
    forall i | 0 <= i < |q| - 1 ensures q[i] != '/' {
      assert q[i] == stem[i];
    }
  }

  /** How the scripts' replacements are built: `pre`, then `../assets/`, then
      the folder `dir` and '/' unless `dir` is empty, then `post`. */
  function UnderAssets(pre: string, dir: string, post: string): string
  {
    if dir == [] then pre + "../assets/" + post else pre + "../assets/" + dir + "/" + post
  }

  /** Such a replacement is `pre`, then `../assets/`, then the folder and a
      '/' (nothing for no folder), then `post`; it ends with '/' when `post`
      is empty. */
  lemma UnderAssetsShape(pre: string, dir: string, post: string)
    ensures var r := UnderAssets(pre, dir, post);
      |r| >= |pre| + 10 + |post| &&
      r[..|pre|] == pre && r[|pre|..|pre| + 10] == "../assets/" && r[|r| - |post|..] == post &&
      r[|pre| + 10..|r| - |post|] == (if dir == [] then [] else dir + "/") &&
      (post == [] ==> r[|r| - 1] == '/')
  {
  }

  /** With no '/' in `pre`, `dir` or `post`, and a folder name of at most six
      characters, every '/' of the replacement has a '.' or '/' within 7
      characters before it. */
  lemma AssetsGuarded(pre: string, dir: string, post: string)
    requires '/' !in pre && '/' !in dir && '/' !in post && |dir| <= 6
    ensures SlashesGuarded(UnderAssets(pre, dir, post))
  {
    var m := "../assets/";
    var a := |pre|;
    var r := UnderAssets(pre, dir, post);
    forall e | 0 <= e < a ensures r[e] == pre[e] { }
    forall e | a <= e < a + |m| ensures r[e] == m[e - a] { }
    if dir == [] {
      forall e | a + |m| <= e < |r| ensures r[e] == post[e - a - |m|] { }
      forall e | 0 <= e < |r| && r[e] == '/' ensures Guarded(r, e) { }
    } else {
      var d := a + |m| + |dir|;
      forall e | a + |m| <= e < d ensures r[e] == dir[e - a - |m|] { }
      forall e | d < e < |r| ensures r[e] == post[e - d - 1] { }
      assert r[a + 9] == '/' && r[d] == '/';
      forall e | 0 <= e < |r| && r[e] == '/' ensures Guarded(r, e) { }
    }
  }

  /** A text with no '/' contains no match of a path pattern. */
  lemma NoSlashNoOccurrence(p: Pattern, v: string)
    requires PatShape(p) && '/' !in v
    ensures !Occurs(p, v)
  {
    match p
    case Literal(q) =>
      assert '/' in Required(p) by { assert q[|q| - 1] == '/'; }
    case SpaceGap(h, t) =>
      assert '/' in Required(p) by { assert (h + t)[|h| + |t| - 1] == '/'; }
    NoOccurrenceWithout(p, v, '/');
  }

  /** A literal path pattern occurs in `x + r + y` only wholly before or wholly after `r`. */
  lemma LiteralApart(q: string, r: string, x: string, y: string, i: nat)
    requires PathShape(q) && |r| > 0 && SlashesGuarded(r)
    requires r[|r| - 1] == '/' || r[|r| - 1] !in q
    requires i + |q| <= |x + r + y| && q == (x + r + y)[i..i + |q|]
    ensures i + |q| <= |x| || i >= |x| + |r|
  {
    var t := x + r + y;
    var a, b, e := |x|, |x| + |r|, i + |q| - 1;
    // the last character of r cannot lie inside the match ...
    assert t[b - 1] == r[|r| - 1];
    assert i <= b - 1 < e ==> At(q, b - 1 - i) == At(r, |r| - 1);
    // ... nor can the match end inside r, on a '/' with a '.' or '/' close before it
    assert a <= e < b ==> r[e - a] == '/' && Guarded(r, e - a);
    var k := GuardedStop(r, e - a);
    assert a <= e < b ==> At(q, |q| - 1 - k) == At(r, e - a - k);
  }

  lemma LiteralSafe(q: string, r: string)
    requires PatShape(Literal(q)) && RepFits(Literal(q), r)
    ensures Safe(Literal(q), r)
  {
    forall x: string, y: string | Occurs(Literal(q), x + r + y)
      ensures Occurs(Literal(q), x) || Occurs(Literal(q), y)
    {
      var t := x + r + y;
      var i :| 0 <= i < |t| && MatchLen(Literal(q), t[i..]) > 0;
      assert q == t[i..i + |q|];
      LiteralApart(q, r, x, y, i);
      if i + |q| <= |x| {
        LeftSlice(x, r, y, i, |q|);
      } else {
        RightSlice(x, r, y, i);
      }
    }
  }

  /** A `head\s*tail` match in `x + r + y` lies wholly before or wholly after `r`. */
  lemma GapApart(h: string, tl: string, r: string, x: string, y: string, i: nat)
    requires PatShape(SpaceGap(h, tl)) && RepFits(SpaceGap(h, tl), r)
    requires i < |x + r + y| && MatchLen(SpaceGap(h, tl), (x + r + y)[i..]) > 0
    ensures var n := MatchLen(SpaceGap(h, tl), (x + r + y)[i..]);
      i + n <= |x| || i >= |x| + |r|
  {
    var t := x + r + y;
    var u := t[i..];
    var w := SpaceRun(u[|h|..]);
    var j := i + |h| + w;
    assert tl == t[j..j + |tl|] by { assert tl <= u[|h| + w..]; }
    LiteralApart(tl, r, x, y, j);
    // the last character of r is neither in the head nor white space
    var b := |x| + |r|;
    assert t[b - 1] == r[|r| - 1];
    assert i <= b - 1 < i + |h| ==> At(h, b - 1 - i) == At(r, |r| - 1);
    assert i + |h| <= b - 1 < j ==> IsSpace(At(t, b - 1)) by {
      forall m | i + |h| <= m < j ensures IsSpace(t[m]) {
        assert u[|h|..][m - i - |h|] == t[m];
      }
    }
  }

  /** A match lying wholly in the front part of a text is a match in that part. */
  lemma OccursLeft(p: Pattern, x: string, r: string, y: string, i: nat)
    requires WellFormed(p) && i < |x + r + y| && MatchLen(p, (x + r + y)[i..]) > 0
    requires i + MatchLen(p, (x + r + y)[i..]) <= |x|
    ensures Occurs(p, x)
  {
    var n := MatchLen(p, (x + r + y)[i..]);
    assert (x + r + y)[i..][..n] == x[i..][..n];
    MatchLocal(p, (x + r + y)[i..], x[i..]);
  }

  /** A match starting in the back part of a text is a match in that part. */
  lemma OccursRight(p: Pattern, w: string, y: string, i: nat)
    requires |w| <= i < |w + y| && MatchLen(p, (w + y)[i..]) > 0
    ensures Occurs(p, y)
  {
    assert y[i - |w|..] == (w + y)[i..];
  }

  lemma GapSafeAt(h: string, tl: string, r: string, x: string, y: string)
    requires PatShape(SpaceGap(h, tl)) && RepFits(SpaceGap(h, tl), r)
    requires Occurs(SpaceGap(h, tl), x + r + y)
    ensures Occurs(SpaceGap(h, tl), x) || Occurs(SpaceGap(h, tl), y)
  {
    var p := SpaceGap(h, tl);
    var t := x + r + y;
    var i :| 0 <= i < |t| && MatchLen(p, t[i..]) > 0;
    GapApart(h, tl, r, x, y, i);
    if i + MatchLen(p, t[i..]) <= |x| {
      OccursLeft(p, x, r, y, i);
    } else {
      OccursRight(p, x + r, y, i);
    }
  }

  lemma GapSafe(h: string, tl: string, r: string)
    requires PatShape(SpaceGap(h, tl)) && RepFits(SpaceGap(h, tl), r)
    ensures Safe(SpaceGap(h, tl), r)
  {
    forall x: string, y: string | Occurs(SpaceGap(h, tl), x + r + y)
      ensures Occurs(SpaceGap(h, tl), x) || Occurs(SpaceGap(h, tl), y)
    {
      GapSafeAt(h, tl, r, x, y);
    }
  }

  /** The shape conditions are enough for a replacement to be safe. */
  lemma FitSafe(p: Pattern, r: string)
    requires PatShape(p) && RepFits(p, r)
    ensures Safe(p, r)
  {
    match p
    case Literal(q) => LiteralSafe(q, r);
    case SpaceGap(h, t) => GapSafe(h, t, r);
  }

  // ---------------------------------------------------------------------
  // A fixed sequence of rules, applied in order

  datatype Rule = Rule(pat: Pattern, rep: string)

  predicate AllWellFormed(rules: seq<Rule>) {
    forall i :: 0 <= i < |rules| ==> WellFormed(rules[i].pat)
  }

  /** `content = content.replace(...)` once per rule, in order. */
  function ApplyRules(rules: seq<Rule>, s: string): string
    requires AllWellFormed(rules)
  {
    if rules == [] then s
    else
      var last := rules[|rules| - 1];
      ReplaceAll(ApplyRules(rules[..|rules| - 1], s), last.pat, last.rep)
  }

  /** Applying one more rule of a list. */
  lemma ApplyRulesSnoc(rules: seq<Rule>, k: nat, s: string)
    requires AllWellFormed(rules) && k < |rules|
    ensures AllWellFormed(rules[..k]) && AllWellFormed(rules[..k + 1])
    ensures ApplyRules(rules[..k + 1], s) == ReplaceAll(ApplyRules(rules[..k], s), rules[k].pat, rules[k].rep)
  {
    assert rules[..k + 1][..k] == rules[..k];
  }

  /** One `content = content.replace(...)` of a chain: rule `k` applied to
      the text the first `k` rules made. */
  method ApplyNext(rules: seq<Rule>, k: nat, s: string, before: string) returns (after: string)
    requires AllWellFormed(rules) && k < |rules|
    requires before == ApplyRules(rules[..k], s)
    ensures after == ApplyRules(rules[..k + 1], s)
  {
    ApplyRulesSnoc(rules, k, s);
    after := ReplaceAll(before, rules[k].pat, rules[k].rep);
  }

  /** Rule `j`'s pattern survives none of the rules from `j` on. */
  ghost predicate SafeFrom(rules: seq<Rule>, j: nat) {
    forall i :: j <= i < |rules| ==> Safe(rules[j].pat, rules[i].rep)
  }

  /** Once rule `j` has run, its pattern is gone for good, when no later
      replacement can bring it back. */
  lemma {:induction false} GoneAfter(rules: seq<Rule>, j: nat, s: string)
    requires AllWellFormed(rules) && j < |rules| && SafeFrom(rules, j)
    ensures !Occurs(rules[j].pat, ApplyRules(rules, s))
    decreases |rules|
  {
    var n := |rules|;
    var front := rules[..n - 1];
    var last := rules[n - 1];
    ApplyRulesLast(rules, s);
    var t := ApplyRules(front, s);
    if j == n - 1 {
      Remove(last.pat, last.rep, t);
    } else {
      SafeFromFront(rules, j);
      GoneAfter(front, j, s);
      Preserve(front[j].pat, last.pat, last.rep, t);
    }
  }

  /** The chain as its front and its last rule. */
  lemma ApplyRulesLast(rules: seq<Rule>, s: string)
    requires AllWellFormed(rules) && rules != []
    ensures AllWellFormed(rules[..|rules| - 1])
    ensures ApplyRules(rules, s) ==
      ReplaceAll(ApplyRules(rules[..|rules| - 1], s), rules[|rules| - 1].pat, rules[|rules| - 1].rep)
  {
  }

  /** Dropping the last rule keeps a pattern safe from the rest. */
  lemma SafeFromFront(rules: seq<Rule>, j: nat)
    requires j < |rules| - 1 && SafeFrom(rules, j)
    ensures var front := rules[..|rules| - 1];
      front[j] == rules[j] && Safe(front[j].pat, rules[|rules| - 1].rep) && SafeFrom(front, j)
  {
    var front := rules[..|rules| - 1];
    forall i | j <= i < |front| ensures Safe(front[j].pat, front[i].rep) {
      assert front[i] == rules[i];
    }
  }

  /** Text with no match of any rule passes through the whole sequence unchanged. */
  lemma {:induction false} ApplyRulesIdentity(rules: seq<Rule>, s: string)
    requires AllWellFormed(rules)
    requires forall j :: 0 <= j < |rules| ==> !Occurs(rules[j].pat, s)
    ensures ApplyRules(rules, s) == s
    decreases |rules|
  {
    if rules != [] {
      var front := rules[..|rules| - 1];
      assert forall j :: 0 <= j < |front| ==> front[j] == rules[j];
      ApplyRulesIdentity(front, s);
      ReplaceAllIdentity(s, rules[|rules| - 1].pat, rules[|rules| - 1].rep);
    }
  }

  /** When every pattern is safe against its own and every later replacement,
      the sequence leaves no match of any pattern, so running it again changes nothing. */
  lemma ApplyRulesIdempotent(rules: seq<Rule>, s: string)
    requires AllWellFormed(rules)
    requires forall j :: 0 <= j < |rules| ==> SafeFrom(rules, j)
    ensures forall j :: 0 <= j < |rules| ==> !Occurs(rules[j].pat, ApplyRules(rules, s))
    ensures ApplyRules(rules, ApplyRules(rules, s)) == ApplyRules(rules, s)
  {
    forall j | 0 <= j < |rules| ensures !Occurs(rules[j].pat, ApplyRules(rules, s)) {
      GoneAfter(rules, j, s);
    }
    ApplyRulesIdentity(rules, ApplyRules(rules, s));
  }

  /** Splitting off the first rule. */
  lemma {:induction false} ApplyRulesFirst(rules: seq<Rule>, s: string)
    requires AllWellFormed(rules) && |rules| > 0
    ensures AllWellFormed(rules[1..])
    ensures ApplyRules(rules, s) == ApplyRules(rules[1..], ReplaceAll(s, rules[0].pat, rules[0].rep))
    decreases |rules|
  {
    if |rules| > 1 {
      var front := rules[..|rules| - 1];
      ApplyRulesFirst(front, s);
      assert front[1..] == rules[1..][..|rules[1..]| - 1];
      assert front[0] == rules[0];
    } else {
      assert rules[..0] == [];
      assert rules[1..] == [];
    }
  }
}
