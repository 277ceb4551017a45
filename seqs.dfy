/**
 * The two array operations the scripts use for every selection:
 * `Array.prototype.filter` and `slice(0, n)`.
 */
module Seqs {

  function Min(a: int, b: int): int { if a <= b then a else b }

  /** `s.filter(f)`: the elements that satisfy `f`, in their original order. */
  function Filter<T>(s: seq<T>, f: T -> bool): (r: seq<T>)
    ensures |r| <= |s|
    ensures forall x :: x in r ==> x in s && f(x)
    ensures forall x :: x in s && f(x) ==> x in r
  {
    if s == [] then [] else (if f(s[0]) then [s[0]] else []) + Filter(s[1..], f)
  }

  /** Filtering commutes with concatenation; together with the one-element
      case this pins `Filter` down as the order-keeping selection. */
  lemma {:induction false} FilterConcat<T>(a: seq<T>, b: seq<T>, f: T -> bool)
    ensures Filter(a + b, f) == Filter(a, f) + Filter(b, f)
    decreases |a|
  {
    if a == [] {
      assert a + b == b;
    } else {
      assert (a + b)[1..] == a[1..] + b;
      FilterConcat(a[1..], b, f);
    }
  }

  /** A one-element list is kept exactly when its element passes. */
  lemma FilterSingle<T>(x: T, f: T -> bool)
    ensures Filter([x], f) == if f(x) then [x] else []
  {
    assert [x][1..] == [];
  }

  /** A list with no passing element filters to nothing; one whose every
      element passes filters to itself. */
  lemma {:induction false} FilterExtremes<T>(s: seq<T>, f: T -> bool)
    ensures (forall i :: 0 <= i < |s| ==> !f(s[i])) ==> Filter(s, f) == []
    ensures (forall i :: 0 <= i < |s| ==> f(s[i])) ==> Filter(s, f) == s
    decreases |s|
  {
    if s != [] {
      FilterExtremes(s[1..], f);
      if forall i :: 0 <= i < |s| ==> f(s[i]) {
        assert forall i :: 0 <= i < |s[1..]| ==> f(s[1..][i]) by {
          forall i | 0 <= i < |s[1..]| ensures f(s[1..][i]) { assert s[1..][i] == s[i + 1]; }
        }
        assert [s[0]] + s[1..] == s;
      }
      if forall i :: 0 <= i < |s| ==> !f(s[i]) {
        assert forall i :: 0 <= i < |s[1..]| ==> !f(s[1..][i]) by {
          forall i | 0 <= i < |s[1..]| ensures !f(s[1..][i]) { assert s[1..][i] == s[i + 1]; }
        }
      }
    }
  }

  /** `s.slice(0, n)`: the first `n` elements, or all of them when fewer. */
  function Take<T>(s: seq<T>, n: nat): (r: seq<T>)
    ensures |r| == Min(n, |s|)
    ensures r <= s
  {
    s[..Min(n, |s|)]
  }

  /** Taking from a list with a known first element. */
  lemma TakeCons<T>(x: T, s: seq<T>, n: nat)
    requires n > 0
    ensures Take([x] + s, n) == [x] + Take(s, n - 1)
  {
    assert ([x] + s)[..Min(n, |s| + 1)] == [x] + s[..Min(n - 1, |s|)];
  }

  /** A `slice` position: negative ones count from the end, and all are
      clamped to the list. */
  function Clamp(i: int, n: nat): (r: nat)
    ensures r <= n
    ensures 0 <= i <= n ==> r == i
    ensures i < 0 ==> r == if n + i < 0 then 0 else n + i
    ensures i > n ==> r == n
  {
    if i < 0 then (if n + i < 0 then 0 else n + i) else if i > n then n else i
  }

  /** `s.slice(start, end)`: the elements between the two clamped positions. */
  function Slice<T>(s: seq<T>, start: int, end: int): seq<T> {
    var a := Clamp(start, |s|);
    var b := Clamp(end, |s|);
    if a < b then s[a..b] else []
  }

  /** A slice never holds more elements than its two positions are apart. */
  lemma SliceBounded<T>(s: seq<T>, start: int, k: nat)
    ensures |Slice(s, start, start + k)| <= k
  {
  }

  /** For positions inside the list, a slice is the subsequence between them. */
  lemma SliceInside<T>(s: seq<T>, start: nat, end: nat)
    requires start <= |s|
    ensures start <= end ==> Slice(s, start, end) == s[start..Min(end, |s|)]
    ensures end < start ==> Slice(s, start, end) == []
  {
  }
}
