/**
 * The global replacements of the import script, which capture a value:
 * `open([^c]*\.(e1|e2|...))c` replaced by `lead + dir + $1 + c`, where `c` is
 * `"` or `)`.  The character class cannot cross `c`, so a match is decided by
 * the opener and by the value up to the next `c`: it matches exactly when
 * that value ends with one of the extensions.  The `i` flag folds the case of
 * the opener and of the extensions (ASCII letters only, which is what a
 * regular expression without the `u` flag does for these patterns).
 */
module Capture {
  import opened Text
  import Rewrite

  /** The opening text: `head`, or `head\s*tail` when `gap`. */
  datatype Opener = Opener(head: string, gap: bool, tail: string)

  datatype CaptureRule = CaptureRule(open: Opener, fold: bool, close: char, exts: seq<string>, lead: string, dir: string)

  /** Length of the opener at the start of `s`, or 0 when it is not there. */
  function OpenLen(o: Opener, fold: bool, s: string): (n: nat)
    ensures n <= |s|
    ensures n > 0 ==> StartsWith(s, o.head, fold) && n >= |o.head|
  {
    if !StartsWith(s, o.head, fold) then 0
    else if !o.gap then |o.head|
    else
      var w := Rewrite.SpaceRun(s[|o.head|..]);
      if StartsWith(s[|o.head| + w..], o.tail, fold) then |o.head| + w + |o.tail| else 0
  }

  /** Position of the first `c` in `s`, or `|s|` when there is none. */
  function CloseAt(s: string, c: char): (k: nat)
    ensures k <= |s|
    ensures forall i :: 0 <= i < k ==> s[i] != c
    ensures k < |s| ==> s[k] == c
  {
    if s == [] then 0 else if s[0] == c then 0 else 1 + CloseAt(s[1..], c)
  }

  /** The text after the opener, up to the next closing character. */
  function Captured(r: CaptureRule, s: string): string
  {
    var n := OpenLen(r.open, r.fold, s);
    s[n..n + CloseAt(s[n..], r.close)]
  }

  /** Length of the match at the start of `s`, or 0 when there is none. */
  function MatchAt(r: CaptureRule, s: string): (m: nat)
    ensures m <= |s|
    ensures m > 0 ==> OpenLen(r.open, r.fold, s) > 0 && EndsWithAny(Captured(r, s), r.exts, r.fold)
    ensures m > 0 ==> m == OpenLen(r.open, r.fold, s) + |Captured(r, s)| + 1 && s[m - 1] == r.close
  {
    var n := OpenLen(r.open, r.fold, s);
    if n == 0 then 0
    else
      var k := CloseAt(s[n..], r.close);
      if n + k < |s| && EndsWithAny(s[n..n + k], r.exts, r.fold) then n + k + 1 else 0
  }

  /** `s.replace(rule, lead + dir + '$1' + close)` with the `g` flag. */
  function CaptureAll(s: string, r: CaptureRule): string
    decreases |s|
  {
    if s == [] then []
    else
      var m := MatchAt(r, s);
      if m > 0 then r.lead + r.dir + Captured(r, s) + [r.close] + CaptureAll(s[m..], r)
      else [s[0]] + CaptureAll(s[1..], r)
  }

  // ---------------------------------------------------------------------

  /** A literal opener matched by `x` takes exactly `x`, whatever follows. */
  lemma OpenExact(o: Opener, fold: bool, x: string, y: string)
    requires !o.gap && |x| == |o.head| && StartsWith(x, o.head, fold)
    ensures OpenLen(o, fold, x + y) == |x|
  {
    assert forall i :: 0 <= i < |x| ==> (x + y)[i] == x[i];
  }

  /** After the opener, the value runs up to the first closing character. */
  lemma CapturedValue(r: CaptureRule, n: nat, s: string, v: string, rest: string)
    requires OpenLen(r.open, r.fold, s) == n && n <= |s|
    requires s[n..] == v + [r.close] + rest && r.close !in v
    ensures Captured(r, s) == v
    ensures n + |v| < |s|
  {
    var t := s[n..];
    assert t[|v|] == r.close;
    assert forall i :: 0 <= i < |v| ==> t[i] == v[i];
    assert forall i :: 0 <= i < |v| ==> t[i] != r.close;
    assert CloseAt(t, r.close) == |v|;
    assert t[..|v|] == v;
  }

  /** A matching value behind a literal opener: the replacement is emitted,
      with the value kept, and the scan resumes after the closing character. */
  lemma CaptureHead(r: CaptureRule, x: string, v: string, rest: string)
    requires !r.open.gap && |x| == |r.open.head| >= 1 && StartsWith(x, r.open.head, r.fold)
    requires r.close !in v && EndsWithAny(v, r.exts, r.fold)
    ensures CaptureAll(x + v + [r.close] + rest, r) == r.lead + r.dir + v + [r.close] + CaptureAll(rest, r)
  {
    var s := x + v + [r.close] + rest;
    assert s == x + (v + [r.close] + rest);
    OpenExact(r.open, r.fold, x, v + [r.close] + rest);
    assert s[|x|..] == v + [r.close] + rest;
    CapturedValue(r, |x|, s, v, rest);
    var m := MatchAt(r, s);
    assert m == |x| + |v| + 1;
    assert s[m..] == rest;
  }

  /** A value that does not match behind a literal opener: nothing is
      replaced there, and the opener is copied, when its first character
      does not recur in it. */
  lemma CaptureRejected(r: CaptureRule, x: string, v: string, rest: string)
    requires !r.open.gap && |x| == |r.open.head| >= 1 && StartsWith(x, r.open.head, r.fold)
    requires forall i :: 1 <= i < |x| ==> !SameChar(x[i], r.open.head[0], r.fold)
    requires r.close !in v && !EndsWithAny(v, r.exts, r.fold)
    ensures CaptureAll(x + v + [r.close] + rest, r) == x + CaptureAll(v + [r.close] + rest, r)
  {
    var u := v + [r.close] + rest;
    assert x + v + [r.close] + rest == x + u;
    RejectAt(r, x, v, rest);
    CopyOpener(r, x, u);
  }

  lemma RejectAt(r: CaptureRule, x: string, v: string, rest: string)
    requires !r.open.gap && |x| == |r.open.head| >= 1 && StartsWith(x, r.open.head, r.fold)
    requires r.close !in v && !EndsWithAny(v, r.exts, r.fold)
    ensures MatchAt(r, x + (v + [r.close] + rest)) == 0
  {
    var u := v + [r.close] + rest;
    var s := x + u;
    OpenExact(r.open, r.fold, x, u);
    assert s[|x|..] == u;
    CapturedValue(r, |x|, s, v, rest);
  }

  /** An opener at which no match starts, and whose first character does not
      recur in it, is copied. */
  lemma CopyOpener(r: CaptureRule, x: string, u: string)
    requires |x| >= 1 && |r.open.head| >= 1 && MatchAt(r, x + u) == 0
    requires forall i :: 1 <= i < |x| ==> !SameChar(x[i], r.open.head[0], r.fold)
    ensures CaptureAll(x + u, r) == x + CaptureAll(u, r)
  {
    TailFree(r, x);
    SkipFree(r, x[1..], u);
    CopyOne(r, x + u);
    FirstSplit(x, u, CaptureAll(u, r));
  }

  /** The opener's condition on `x` after its first character, restated on `x[1..]`. */
  lemma TailFree(r: CaptureRule, x: string)
    requires |x| >= 1 && |r.open.head| >= 1
    requires forall i :: 1 <= i < |x| ==> !SameChar(x[i], r.open.head[0], r.fold)
    ensures forall i :: 0 <= i < |x[1..]| ==> !SameChar(x[1..][i], r.open.head[0], r.fold)
  {
    forall i | 0 <= i < |x[1..]| ensures !SameChar(x[1..][i], r.open.head[0], r.fold) {
      assert x[1..][i] == x[i + 1];
    }
  }

  /** No match starts at a character that cannot begin the opener. */
  lemma NoStartAt(r: CaptureRule, s: string)
    requires |r.open.head| >= 1 && s != [] && !SameChar(s[0], r.open.head[0], r.fold)
    ensures MatchAt(r, s) == 0
  {
    assert !StartsWith(s, r.open.head, r.fold);
  }

  /** One step of the scan where no match starts: the character is copied. */
  lemma CopyOne(r: CaptureRule, s: string)
    requires s != [] && MatchAt(r, s) == 0
    ensures CaptureAll(s, r) == [s[0]] + CaptureAll(s[1..], r)
  {
  }

  /** Text none of whose characters can begin the opener is copied. */
  lemma {:induction false} SkipFree(r: CaptureRule, w: string, z: string)
    requires |r.open.head| >= 1
    requires forall i :: 0 <= i < |w| ==> !SameChar(w[i], r.open.head[0], r.fold)
    ensures CaptureAll(w + z, r) == w + CaptureAll(z, r)
    decreases |w|
  {
    if w != [] {
      FirstSplit(w, z, CaptureAll(z, r));
      NoStartAt(r, w + z);
      CopyOne(r, w + z);
      TailFree(r, w);
      SkipFree(r, w[1..], z);
    } else {
      assert w + z == z;
    }
  }

  /** Text in which no character can begin the opener comes back unchanged. */
  lemma NoStart(r: CaptureRule, s: string)
    requires |r.open.head| >= 1
    requires forall i :: 0 <= i < |s| ==> !SameChar(s[i], r.open.head[0], r.fold)
    ensures CaptureAll(s, r) == s
  {
    SkipFree(r, s, []);
    assert s + [] == s;
  }

  /** The same when no two neighbouring characters can begin the opener. */
  lemma {:induction false} NoStartPair(r: CaptureRule, s: string)
    requires |r.open.head| >= 2
    requires forall i :: 0 <= i < |s| - 1 ==>
      !(SameChar(s[i], r.open.head[0], r.fold) && SameChar(s[i + 1], r.open.head[1], r.fold))
    ensures CaptureAll(s, r) == s
    decreases |s|
  {
    if s != [] {
      assert !StartsWith(s, r.open.head, r.fold) by {
        if |s| >= 2 {
          assert !(SameChar(s[0], r.open.head[0], r.fold) && SameChar(s[1], r.open.head[1], r.fold));
        }
      }
      CopyOne(r, s);
      forall i | 0 <= i < |s[1..]| - 1
        ensures !(SameChar(s[1..][i], r.open.head[0], r.fold) && SameChar(s[1..][i + 1], r.open.head[1], r.fold))
      {
        assert s[1..][i] == s[i + 1] && s[1..][i + 1] == s[i + 2];
      }
      NoStartPair(r, s[1..]);
    }
  }

  /** A quoted value alone: when the opener ends with the closing quote and
      the value has no quote, the attribute is rewritten exactly when the
      value matches, and is otherwise left as it is. */
  lemma QuotedAlone(r: CaptureRule, x: string, v: string)
    requires !r.open.gap && |x| == |r.open.head| >= 2 && StartsWith(x, r.open.head, r.fold)
    requires r.close == '"' && r.open.head[|r.open.head| - 1] == '"'
    requires forall i :: 1 <= i < |x| ==> !SameChar(x[i], r.open.head[0], r.fold)
    requires '"' !in v
    ensures CaptureAll(x + v + ['"'], r) ==
      if EndsWithAny(v, r.exts, r.fold) then r.lead + r.dir + v + ['"'] else x + v + ['"']
  {
    NoRest(x + v + ['"']);
    if EndsWithAny(v, r.exts, r.fold) {
      CaptureHead(r, x, v, []);
      NoRest(r.lead + r.dir + v + ['"']);
    } else {
      CaptureRejected(r, x, v, []);
      NoRest(v + ['"']);
      QuoteTail(r, v);
    }
  }

  /** After a quote-free value, the closing quote cannot start a match: an
      opener ending with a quote would end on it, with nothing left to close. */
  lemma QuoteTail(r: CaptureRule, v: string)
    requires !r.open.gap && |r.open.head| >= 2 && r.open.head[|r.open.head| - 1] == '"'
    requires '"' !in v
    ensures CaptureAll(v + ['"'], r) == v + ['"']
  {
    var s := v + ['"'];
    forall i | 0 <= i < |s| ensures MatchAt(r, s[i..]) == 0 {
      var h := r.open.head;
      var t := s[i..];
      if StartsWith(t, h, r.fold) {
        var j := |h| - 1;
        assert SameChar(t[j], '"', r.fold);
        assert t[j] == s[i + j];
        assert t[j] == '"';
        assert i + j == |v|;
        assert OpenLen(r.open, r.fold, t) == |t|;
      }
    }
    NoMatchCopies(r, s);
  }

  /** Text with no match anywhere comes back unchanged. */
  lemma {:induction false} NoMatchCopies(r: CaptureRule, s: string)
    requires forall i :: 0 <= i < |s| ==> MatchAt(r, s[i..]) == 0
    ensures CaptureAll(s, r) == s
    decreases |s|
  {
    if s != [] {
      assert s[0..] == s;
      CopyOne(r, s);
      TailNoMatch(r, s);
      NoMatchCopies(r, s[1..]);
      assert [s[0]] + s[1..] == s;
    }
  }

  /** No match anywhere in `s` means none anywhere in its tail. */
  lemma TailNoMatch(r: CaptureRule, s: string)
    requires s != [] && forall i :: 0 <= i < |s| ==> MatchAt(r, s[i..]) == 0
    ensures forall i :: 0 <= i < |s[1..]| ==> MatchAt(r, s[1..][i..]) == 0
  {
    forall i | 0 <= i < |s[1..]| ensures MatchAt(r, s[1..][i..]) == 0 {
      assert s[1..][i..] == s[i + 1..];
    }
  }

  /** A suffix of the value is a suffix of anything the value ends. */
  lemma EndsWithPrefixed(p: string, v: string, e: string, fold: bool)
    requires EndsWith(v, e, fold)
    ensures EndsWith(p + v, e, fold)
  {
    forall i | 0 <= i < |e| ensures SameChar((p + v)[|p + v| - |e| + i], e[i], fold) {
      assert (p + v)[|p + v| - |e| + i] == v[|v| - |e| + i];
    }
  }

  lemma EndsWithAnyPrefixed(p: string, v: string, es: seq<string>, fold: bool)
    requires EndsWithAny(v, es, fold)
    ensures EndsWithAny(p + v, es, fold)
  {
    var k :| 0 <= k < |es| && EndsWith(v, es[k], fold);
    EndsWithPrefixed(p, v, es[k], fold);
  }
}
