/** Sequence operations of JavaScript arrays used throughout the core:
    `filter`, `slice` (with its clamping of out-of-range and negative
    bounds) and reversal. */
module Seqs {
  import opened Common

  /** A non-empty sequence is its head followed by its tail. */
  lemma HeadTail<T>(s: seq<T>)
    requires |s| > 0
    ensures s == [s[0]] + s[1..]
    ensures multiset(s) == multiset{s[0]} + multiset(s[1..])
  {
  }

  /** A non-empty sequence is its front followed by its last element. */
  lemma FrontLast<T>(s: seq<T>)
    requires |s| > 0
    ensures s == s[..|s| - 1] + [s[|s| - 1]]
  {
  }

  /** Concatenation regroups freely. */
  lemma Regroup<T>(a: seq<T>, b: seq<T>, c: seq<T>)
    ensures a + (b + c) == (a + b) + c
  {
  }

  /** `s.filter(keep)`: the elements that satisfy `keep`, in their original order. */
  function Filter<T>(s: seq<T>, keep: T -> bool): (r: seq<T>)
    ensures |r| <= |s|
    ensures forall x :: x in r ==> x in s && keep(x)
    ensures forall i :: 0 <= i < |s| && keep(s[i]) ==> s[i] in r
    ensures multiset(r) <= multiset(s)
  {
    if |s| == 0 then []
    else
      var rest := Filter(s[1..], keep);
      assert s == [s[0]] + s[1..];
      if keep(s[0]) then [s[0]] + rest else rest
  }

  /** Filtering drops everything when no element passes. */
  lemma {:induction false} FilterNone<T>(s: seq<T>, keep: T -> bool)
    requires forall i :: 0 <= i < |s| ==> !keep(s[i])
    ensures Filter(s, keep) == []
  {
    if |s| > 0 {
      FilterNone(s[1..], keep);
    }
  }

  /** Filtering keeps everything exactly when every element passes. */
  lemma {:induction false} FilterKeepsAll<T>(s: seq<T>, keep: T -> bool)
    requires forall i :: 0 <= i < |s| ==> keep(s[i])
    ensures Filter(s, keep) == s
  {
    if |s| > 0 {
      FilterKeepsAll(s[1..], keep);
    }
  }

  /** Filtering drops something exactly when some element fails. */
  lemma {:induction false} FilterShrinks<T>(s: seq<T>, keep: T -> bool, i: int)
    requires 0 <= i < |s| && !keep(s[i])
    ensures |Filter(s, keep)| < |s|
  {
    if i > 0 {
      FilterShrinks(s[1..], keep, i - 1);
    }
  }

  lemma {:induction false} FilterAppend<T>(a: seq<T>, b: seq<T>, keep: T -> bool)
    ensures Filter(a + b, keep) == Filter(a, keep) + Filter(b, keep)
  {
    if |a| == 0 {
      assert a + b == b;
    } else {
      assert (a + b)[1..] == a[1..] + b;
      FilterAppend(a[1..], b, keep);
    }
  }

  /** Filtering twice with the same test is filtering once. */
  lemma {:induction false} FilterIdempotent<T>(s: seq<T>, keep: T -> bool)
    ensures Filter(Filter(s, keep), keep) == Filter(s, keep)
  {
    var r := Filter(s, keep);
    forall i | 0 <= i < |r|
      ensures keep(r[i])
    {
      assert r[i] in r;
    }
    FilterKeepsAll(r, keep);
  }

  function Reverse<T>(s: seq<T>): (r: seq<T>)
    ensures |r| == |s|
    ensures forall i :: 0 <= i < |s| ==> r[i] == s[|s| - 1 - i]
  {
    if |s| == 0 then [] else Reverse(s[1..]) + [s[0]]
  }

  lemma {:induction false} ReversePermutes<T>(s: seq<T>)
    ensures multiset(Reverse(s)) == multiset(s)
  {
    if |s| > 0 {
      ReversePermutes(s[1..]);
      assert s == [s[0]] + s[1..];
    }
  }

  /** How `slice` reads one bound: negative counts from the end, and the
      result is clamped to `0..len`. */
  function SliceIndex(i: int, len: nat): (k: nat)
    ensures k <= len
    ensures 0 <= i <= len ==> k == i
    ensures i > len ==> k == len
    ensures i < 0 ==> k == (if len + i < 0 then 0 else len + i)
  {
    if i < 0 then (if len + i < 0 then 0 else len + i)
    else if i > len then len
    else i
  }

  /** `s.slice(start, end)`. */
  function Slice<T>(s: seq<T>, start: int, end: int): (r: seq<T>)
    ensures 0 <= start <= end ==> r == s[Min(start, |s|)..Min(end, |s|)]
    ensures 0 <= end <= start ==> r == []
  {
    var a := SliceIndex(start, |s|);
    var b := SliceIndex(end, |s|);
    if a < b then s[a..b] else []
  }
}
