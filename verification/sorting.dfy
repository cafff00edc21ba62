/** A stable sort driven by a JavaScript-style comparator (negative: the
    first argument goes first; zero: a tie; positive: the second goes
    first). Every stable sort produces the same order for a consistent
    comparator, so insertion sort stands in for the engine's `Array.sort`. */
module Sorting {
  import Seqs

  /** `a` may be placed before `b`. */
  predicate Precedes<T>(cmp: (T, T) -> int, a: T, b: T) {
    cmp(a, b) <= 0
  }

  /** A consistent comparator: `Precedes` is a total preorder and the sign
      of `cmp` flips when the arguments are swapped. The facts are keyed to
      `Precedes`, so proofs below instantiate them only where they ask to. */
  ghost predicate IsComparator<T(!new)>(cmp: (T, T) -> int) {
    && (forall a, b {:trigger Precedes(cmp, a, b)} :: Precedes(cmp, a, b) <==> cmp(b, a) >= 0)
    && (forall a, b, c {:trigger Precedes(cmp, a, b), Precedes(cmp, b, c)}
          :: Precedes(cmp, a, b) && Precedes(cmp, b, c) ==> Precedes(cmp, a, c))
  }

  /** No element is placed after one it should precede. */
  ghost predicate Sorted<T>(s: seq<T>, cmp: (T, T) -> int) {
    forall i, j :: 0 <= i < j < |s| ==> cmp(s[i], s[j]) <= 0
  }

  /** Sorted with no ties at all. */
  ghost predicate StrictlySorted<T>(s: seq<T>, cmp: (T, T) -> int) {
    forall i, j :: 0 <= i < j < |s| ==> cmp(s[i], s[j]) < 0
  }

  /** The comparator reports no tie between two different positions. */
  ghost predicate NoTies<T>(s: seq<T>, cmp: (T, T) -> int) {
    forall i, j :: 0 <= i < j < |s| ==> cmp(s[i], s[j]) != 0
  }

  /** The elements of `s` that tie with `k`, in their order in `s`. */
  function Ties<T>(s: seq<T>, cmp: (T, T) -> int, k: T): seq<T> {
    if |s| == 0 then []
    else (if cmp(s[0], k) == 0 then [s[0]] else []) + Ties(s[1..], cmp, k)
  }

  /** Puts `x` after every element of `s` it does not strictly precede. */
  function Insert<T>(x: T, s: seq<T>, cmp: (T, T) -> int): (r: seq<T>)
    ensures multiset(r) == multiset(s) + multiset{x}
    ensures |r| == |s| + 1
  {
    if |s| == 0 then [x]
    else if cmp(x, s[0]) < 0 then [x] + s
    else
      assert s == [s[0]] + s[1..];
      [s[0]] + Insert(x, s[1..], cmp)
  }

  /** `[...s].sort(cmp)`. */
  function StableSort<T>(s: seq<T>, cmp: (T, T) -> int): (r: seq<T>)
    ensures multiset(r) == multiset(s)
    ensures |r| == |s|
  {
    if |s| == 0 then []
    else
      assert s == s[..|s| - 1] + [s[|s| - 1]];
      Insert(s[|s| - 1], StableSort(s[..|s| - 1], cmp), cmp)
  }

  /** Ties are reflexive: an element always ties with itself. */
  lemma SelfTie<T(!new)>(cmp: (T, T) -> int, a: T)
    requires IsComparator(cmp)
    ensures cmp(a, a) == 0
  {
    assert Precedes(cmp, a, a) <==> cmp(a, a) >= 0;
  }

  /** Swapping the arguments flips the sign. */
  lemma Flip<T(!new)>(cmp: (T, T) -> int, a: T, b: T)
    requires IsComparator(cmp)
    ensures cmp(a, b) <= 0 <==> cmp(b, a) >= 0
    ensures cmp(a, b) < 0 <==> cmp(b, a) > 0
  {
    assert Precedes(cmp, a, b) <==> cmp(b, a) >= 0;
    assert Precedes(cmp, b, a) <==> cmp(a, b) >= 0;
  }

  /** Comparing past an element that may come first keeps the order. */
  lemma Chain<T(!new)>(cmp: (T, T) -> int, a: T, b: T, c: T)
    requires IsComparator(cmp)
    requires cmp(a, b) <= 0 && cmp(b, c) <= 0
    ensures cmp(a, c) <= 0
  {
    assert Precedes(cmp, a, b) && Precedes(cmp, b, c);
  }

  /** An element strictly before `b` is strictly before everything `b` may precede. */
  lemma StrictChain<T(!new)>(cmp: (T, T) -> int, a: T, b: T, c: T)
    requires IsComparator(cmp)
    requires cmp(a, b) < 0 && cmp(b, c) <= 0
    ensures cmp(a, c) < 0
  {
    if cmp(a, c) >= 0 {
      Flip(cmp, c, a);
      Chain(cmp, b, c, a);
      Flip(cmp, b, a);
    }
  }

  /** Two elements that both tie with `k` tie with each other. */
  lemma TieTie<T(!new)>(cmp: (T, T) -> int, a: T, b: T, k: T)
    requires IsComparator(cmp)
    requires cmp(a, k) == 0 && cmp(b, k) == 0
    ensures cmp(a, b) == 0
  {
    Flip(cmp, k, b);
    Flip(cmp, k, a);
    Chain(cmp, a, k, b);
    Chain(cmp, b, k, a);
    Flip(cmp, a, b);
  }

  /** Every element of the result of `Insert` is `x` or an element of `s`. */
  lemma InsertElement<T>(x: T, s: seq<T>, cmp: (T, T) -> int, j: int)
    requires 0 <= j < |Insert(x, s, cmp)|
    ensures Insert(x, s, cmp)[j] == x || exists m :: 0 <= m < |s| && s[m] == Insert(x, s, cmp)[j]
  {
    var t := Insert(x, s, cmp);
    assert t[j] in multiset(t);
    if t[j] != x {
      assert t[j] in multiset(s);
    }
  }

  lemma {:induction false} InsertSorted<T(!new)>(x: T, s: seq<T>, cmp: (T, T) -> int)
    requires IsComparator(cmp)
    requires Sorted(s, cmp)
    ensures Sorted(Insert(x, s, cmp), cmp)
  {
    if |s| == 0 {
    } else if cmp(x, s[0]) < 0 {
      forall j | 0 <= j < |s|
        ensures cmp(x, s[j]) <= 0
      {
        if j > 0 {
          Chain(cmp, x, s[0], s[j]);
        }
      }
      assert Insert(x, s, cmp) == [x] + s;
    } else {
      var t := Insert(x, s[1..], cmp);
      InsertSorted(x, s[1..], cmp);
      forall j | 0 <= j < |t|
        ensures cmp(s[0], t[j]) <= 0
      {
        InsertElement(x, s[1..], cmp, j);
        if t[j] != x {
          var m :| 0 <= m < |s[1..]| && s[1..][m] == t[j];
          assert s[1 + m] == t[j];
        } else {
          Flip(cmp, s[0], x);
        }
      }
      assert Insert(x, s, cmp) == [s[0]] + t;
    }
  }

  /** The sort orders its result by the comparator. */
  lemma {:induction false} SortSorted<T(!new)>(s: seq<T>, cmp: (T, T) -> int)
    requires IsComparator(cmp)
    ensures Sorted(StableSort(s, cmp), cmp)
  {
    if |s| > 0 {
      SortSorted(s[..|s| - 1], cmp);
      InsertSorted(s[|s| - 1], StableSort(s[..|s| - 1], cmp), cmp);
    }
  }

  lemma {:induction false} InsertStrict<T(!new)>(x: T, s: seq<T>, cmp: (T, T) -> int)
    requires IsComparator(cmp)
    requires StrictlySorted(s, cmp)
    requires forall m :: 0 <= m < |s| ==> cmp(x, s[m]) != 0
    ensures StrictlySorted(Insert(x, s, cmp), cmp)
  {
    if |s| == 0 {
    } else if cmp(x, s[0]) < 0 {
      forall j | 0 <= j < |s|
        ensures cmp(x, s[j]) < 0
      {
        if j > 0 {
          StrictChain(cmp, x, s[0], s[j]);
        }
      }
      assert Insert(x, s, cmp) == [x] + s;
    } else {
      var t := Insert(x, s[1..], cmp);
      InsertStrict(x, s[1..], cmp);
      forall j | 0 <= j < |t|
        ensures cmp(s[0], t[j]) < 0
      {
        InsertElement(x, s[1..], cmp, j);
        if t[j] != x {
          var m :| 0 <= m < |s[1..]| && s[1..][m] == t[j];
          assert s[1 + m] == t[j];
        } else {
          Flip(cmp, s[0], x);
        }
      }
      assert Insert(x, s, cmp) == [s[0]] + t;
    }
  }

  /** Without ties in the input, the sorted result has none either. */
  lemma {:induction false} SortStrict<T(!new)>(s: seq<T>, cmp: (T, T) -> int)
    requires IsComparator(cmp)
    requires NoTies(s, cmp)
    ensures StrictlySorted(StableSort(s, cmp), cmp)
  {
    if |s| > 0 {
      var init := s[..|s| - 1];
      var x := s[|s| - 1];
      SortStrict(init, cmp);
      var r := StableSort(init, cmp);
      forall n | 0 <= n < |r|
        ensures cmp(x, r[n]) != 0
      {
        assert r[n] in multiset(r);
        assert r[n] in multiset(init);
        var m :| 0 <= m < |init| && init[m] == r[n];
        assert cmp(s[m], s[|s| - 1]) != 0;
        Flip(cmp, r[n], x);
      }
      InsertStrict(x, r, cmp);
    }
  }

  lemma {:induction false} TiesAppend<T>(a: seq<T>, b: seq<T>, cmp: (T, T) -> int, k: T)
    ensures Ties(a + b, cmp, k) == Ties(a, cmp, k) + Ties(b, cmp, k)
  {
    if |a| == 0 {
      assert a + b == b;
    } else {
      var h := if cmp(a[0], k) == 0 then [a[0]] else [];
      assert (a + b)[0] == a[0];
      assert (a + b)[1..] == a[1..] + b;
      assert Ties(a + b, cmp, k) == h + Ties(a[1..] + b, cmp, k);
      TiesAppend(a[1..], b, cmp, k);
      assert h + (Ties(a[1..], cmp, k) + Ties(b, cmp, k)) == (h + Ties(a[1..], cmp, k)) + Ties(b, cmp, k);
    }
  }

  /** Nothing in `s` ties with `k`. */
  lemma {:induction false} TiesNone<T>(s: seq<T>, cmp: (T, T) -> int, k: T)
    requires forall i :: 0 <= i < |s| ==> cmp(s[i], k) != 0
    ensures Ties(s, cmp, k) == []
  {
    if |s| > 0 {
      TiesNone(s[1..], cmp, k);
    }
  }

  lemma TiesSingle<T>(x: T, cmp: (T, T) -> int, k: T)
    ensures Ties([x], cmp, k) == if cmp(x, k) == 0 then [x] else []
  {
    assert Ties([x], cmp, k) == (if cmp(x, k) == 0 then [x] else []) + Ties([x][1..], cmp, k);
  }

  /** Inserting `x` adds it at the end of its tie group. */
  lemma {:induction false} InsertTies<T(!new)>(x: T, s: seq<T>, cmp: (T, T) -> int, k: T)
    requires IsComparator(cmp)
    requires Sorted(s, cmp)
    ensures Ties(Insert(x, s, cmp), cmp, k)
         == Ties(s, cmp, k) + (if cmp(x, k) == 0 then [x] else [])
  {
    if |s| == 0 {
      assert Insert(x, s, cmp) == [x];
      TiesSingle(x, cmp, k);
    } else if cmp(x, s[0]) < 0 {
      InsertFrontTies(x, s, cmp, k);
    } else {
      assert Sorted(s[1..], cmp) by {
        forall i, j | 0 <= i < j < |s[1..]| ensures cmp(s[1..][i], s[1..][j]) <= 0 {
          assert s[1..][i] == s[i + 1] && s[1..][j] == s[j + 1];
        }
      }
      InsertTies(x, s[1..], cmp, k);
      InsertBehindTies(x, s, cmp, k);
    }
  }

  /** `Insert` past a head that `x` does not strictly precede keeps that head. */
  lemma InsertCons<T>(x: T, s: seq<T>, cmp: (T, T) -> int)
    requires |s| > 0 && cmp(x, s[0]) >= 0
    ensures Insert(x, s, cmp) == [s[0]] + Insert(x, s[1..], cmp)
  {
  }

  /** `Ties` of a sequence built from a head and a tail. */
  lemma TiesCons<T>(a: T, t: seq<T>, cmp: (T, T) -> int, k: T)
    ensures Ties([a] + t, cmp, k) == (if cmp(a, k) == 0 then [a] else []) + Ties(t, cmp, k)
  {
    assert ([a] + t)[0] == a;
    assert ([a] + t)[1..] == t;
  }

  /** When `x` goes behind the head, the head's tie status is unaffected. */
  lemma InsertBehindTies<T>(x: T, s: seq<T>, cmp: (T, T) -> int, k: T)
    requires |s| > 0 && cmp(x, s[0]) >= 0
    requires Ties(Insert(x, s[1..], cmp), cmp, k) == Ties(s[1..], cmp, k) + (if cmp(x, k) == 0 then [x] else [])
    ensures Ties(Insert(x, s, cmp), cmp, k)
         == Ties(s, cmp, k) + (if cmp(x, k) == 0 then [x] else [])
  {
    InsertCons(x, s, cmp);
    TiesCons(s[0], Insert(x, s[1..], cmp), cmp, k);
    Seqs.Regroup(if cmp(s[0], k) == 0 then [s[0]] else [], Ties(s[1..], cmp, k), if cmp(x, k) == 0 then [x] else []);
  }

  /** When `x` goes in front, nothing after it ties with what `x` ties with. */
  lemma InsertFrontTies<T(!new)>(x: T, s: seq<T>, cmp: (T, T) -> int, k: T)
    requires IsComparator(cmp)
    requires Sorted(s, cmp)
    requires |s| > 0 && cmp(x, s[0]) < 0
    ensures Ties(Insert(x, s, cmp), cmp, k)
         == Ties(s, cmp, k) + (if cmp(x, k) == 0 then [x] else [])
  {
    assert Insert(x, s, cmp) == [x] + s;
    TiesAppend([x], s, cmp, k);
    TiesSingle(x, cmp, k);
    if cmp(x, k) == 0 {
      forall i | 0 <= i < |s|
        ensures cmp(s[i], k) != 0
      {
        if i == 0 {
          SelfTie(cmp, s[0]);
        }
        StrictChain(cmp, x, s[0], s[i]);
        if cmp(s[i], k) == 0 {
          TieTie(cmp, x, s[i], k);
        }
      }
      TiesNone(s, cmp, k);
    }
  }

  /** Stability: every group of mutually tied elements keeps its input order. */
  lemma {:induction false} SortStable<T(!new)>(s: seq<T>, cmp: (T, T) -> int, k: T)
    requires IsComparator(cmp)
    ensures Ties(StableSort(s, cmp), cmp, k) == Ties(s, cmp, k)
  {
    if |s| > 0 {
      var init, x := s[..|s| - 1], s[|s| - 1];
      var r := StableSort(init, cmp);
      var tx := if cmp(x, k) == 0 then [x] else [];
      assert StableSort(s, cmp) == Insert(x, r, cmp);
      SortSorted(init, cmp);
      InsertTies(x, r, cmp, k);
      SortStable(init, cmp, k);
      assert Ties(StableSort(s, cmp), cmp, k) == Ties(init, cmp, k) + tx;
      Seqs.FrontLast(s);
      TiesAppend(init, [x], cmp, k);
      TiesSingle(x, cmp, k);
    }
  }

  /** Two strictly sorted sequences with the same elements are equal: a
      strict order leaves no freedom in placing them. */
  lemma {:induction false} StrictlySortedUnique<T(!new)>(a: seq<T>, b: seq<T>, cmp: (T, T) -> int)
    requires IsComparator(cmp)
    requires StrictlySorted(a, cmp) && StrictlySorted(b, cmp)
    requires multiset(a) == multiset(b)
    ensures a == b
  {
    if |a| == 0 {
      assert |multiset(b)| == 0;
    } else {
      assert |b| > 0 by {
        assert |multiset(b)| == |multiset(a)| == |a|;
      }
      SameHead(a, b, cmp);
      Seqs.HeadTail(a);
      Seqs.HeadTail(b);
      assert multiset(a[1..]) == multiset(a) - multiset{a[0]};
      assert multiset(b[1..]) == multiset(b) - multiset{b[0]};
      StrictlySortedUnique(a[1..], b[1..], cmp);
    }
  }

  /** Two strictly sorted non-empty sequences with the same elements start alike. */
  lemma SameHead<T(!new)>(a: seq<T>, b: seq<T>, cmp: (T, T) -> int)
    requires IsComparator(cmp)
    requires StrictlySorted(a, cmp) && StrictlySorted(b, cmp)
    requires multiset(a) == multiset(b)
    requires |a| > 0 && |b| > 0
    ensures a[0] == b[0]
  {
    assert a[0] in multiset(b);
    var j :| 0 <= j < |b| && b[j] == a[0];
    assert b[0] in multiset(a);
    var i :| 0 <= i < |a| && a[i] == b[0];
    if j != 0 && i != 0 {
      assert cmp(a[0], a[i]) < 0;
      assert cmp(b[0], b[j]) < 0;
      Flip(cmp, a[0], a[i]);
    }
  }
}
