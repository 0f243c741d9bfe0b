/**
 * What sorting a hash means, on sequences: bottom-up merging of runs of 1, 2, 4, ... elements, and the proof
 * that the result is a sorted permutation that keeps equal elements in their order.
 */
module UthashOrder {
  /** The stable merge of two runs: the first run wins ties. */
  function Merge<T>(cmp: (T, T) -> int, p: seq<T>, q: seq<T>): (r: seq<T>)
    ensures |r| == |p| + |q|
    decreases |p| + |q|
  {
    if p == [] then q
    else if q == [] then p
    else if cmp(p[0], q[0]) <= 0 then [p[0]] + Merge(cmp, p[1..], q)
    else [q[0]] + Merge(cmp, p, q[1..])
  }

  function Min(a: nat, b: nat): nat {
    if a < b then a else b
  }

  /** The first run of `n` elements, or of all there are. */
  function Front<T>(s: seq<T>, n: nat): (r: seq<T>)
    ensures |r| == Min(n, |s|)
  {
    s[..Min(n, |s|)]
  }

  function Behind<T>(s: seq<T>, n: nat): (r: seq<T>)
    ensures |r| == |s| - Min(n, |s|) && Front(s, n) + r == s
  {
    s[Min(n, |s|)..]
  }

  /** One pass: each pair of neighbouring runs of `n` elements, the last of which may be short, is merged. */
  function Pass<T>(cmp: (T, T) -> int, s: seq<T>, n: nat): (r: seq<T>)
    requires 0 < n
    ensures |r| == |s|
    decreases |s|
  {
    if s == [] then []
    else
      var more := Behind(s, n);
      Merge(cmp, Front(s, n), Front(more, n)) + Pass(cmp, Behind(more, n), n)
  }

  /** How many merges a pass does. */
  function Merges(length: nat, n: nat): nat
    requires 0 < n
  {
    if length == 0 then 0 else 1 + Merges(length - Min(2 * n, length), n)
  }

  /** Passes with doubling run size until one merge does it all. */
  function Sort<T>(cmp: (T, T) -> int, s: seq<T>, n: nat): (r: seq<T>)
    requires 0 < n
    ensures |r| == |s|
    decreases if n < |s| then |s| - n else 0
  {
    if |s| <= 2 * n then Pass(cmp, s, n) else Sort(cmp, Pass(cmp, s, n), 2 * n)
  }

  lemma {:induction false} MergesIsOneIff(length: nat, n: nat)
    requires 0 < n
    ensures Merges(length, n) <= 1 <==> length <= 2 * n
  {
    if length > 2 * n {
      assert Merges(length - 2 * n, n) >= 1;
    }
  }

  // ---------------------------------------------------------------- order

  ghost predicate Preorder<T>(cmp: (T, T) -> int, s: seq<T>) {
    && (forall a, b | a in s && b in s :: cmp(a, b) <= 0 || cmp(b, a) <= 0)
    && (forall a, b, c | a in s && b in s && c in s :: cmp(a, b) <= 0 && cmp(b, c) <= 0 ==> cmp(a, c) <= 0)
  }

  ghost predicate Sorted<T>(cmp: (T, T) -> int, s: seq<T>) {
    forall i, j | 0 <= i < j < |s| :: cmp(s[i], s[j]) <= 0
  }

  /** The elements that compare equal to `x`, in their order. */
  function Equals<T>(cmp: (T, T) -> int, s: seq<T>, x: T): seq<T> {
    if s == [] then []
    else (if cmp(s[0], x) <= 0 && cmp(x, s[0]) <= 0 then [s[0]] else []) + Equals(cmp, s[1..], x)
  }

  /** Every run of `n` elements is sorted. */
  ghost predicate SortedRuns<T>(cmp: (T, T) -> int, s: seq<T>, n: nat)
    requires 0 < n
    decreases |s|
  {
    s == [] || (Sorted(cmp, Front(s, n)) && SortedRuns(cmp, Behind(s, n), n))
  }

  // ---------------------------------------------------------------- one merge

  /** What the merge starts with, and what is left to merge then. */
  lemma MergeHead<T>(cmp: (T, T) -> int, p: seq<T>, q: seq<T>)
    ensures p == [] ==> Merge(cmp, p, q) == q
    ensures q == [] ==> Merge(cmp, p, q) == p
    ensures p != [] && (q == [] || cmp(p[0], q[0]) <= 0) ==> Merge(cmp, p, q) == [p[0]] + Merge(cmp, p[1..], q)
    ensures q != [] && (p == [] || cmp(p[0], q[0]) > 0) ==> Merge(cmp, p, q) == [q[0]] + Merge(cmp, p, q[1..])
  {
    if p != [] && q == [] {
      assert p == [p[0]] + p[1..];
    }
    if p == [] && q != [] {
      assert q == [q[0]] + q[1..];
    }
  }

  lemma {:induction false} MergeKeepsElements<T>(cmp: (T, T) -> int, p: seq<T>, q: seq<T>)
    ensures multiset(Merge(cmp, p, q)) == multiset(p) + multiset(q)
    decreases |p| + |q|
  {
    if p == [] {
      assert Merge(cmp, p, q) == q;
    } else if q == [] {
      assert Merge(cmp, p, q) == p;
    } else if cmp(p[0], q[0]) <= 0 {
      MergeKeepsElements(cmp, p[1..], q);
      HeadAndTail(p);
    } else {
      MergeKeepsElements(cmp, p, q[1..]);
      HeadAndTail(q);
    }
  }

  lemma HeadAndTail<T>(s: seq<T>)
    requires s != []
    ensures multiset(s) == multiset([s[0]]) + multiset(s[1..])
  {
    assert s == [s[0]] + s[1..];
  }

  lemma SortedFront<T>(cmp: (T, T) -> int, x: T, s: seq<T>)
    requires Sorted(cmp, s) && forall y | y in s :: cmp(x, y) <= 0
    ensures Sorted(cmp, [x] + s)
  {
  }

  lemma SortedTail<T>(cmp: (T, T) -> int, s: seq<T>)
    requires Sorted(cmp, s) && s != []
    ensures Sorted(cmp, s[1..]) && forall y | y in s[1..] :: cmp(s[0], y) <= 0
  {
  }

  /** The elements of `s` are among those of `u`. */
  predicate Within<T(==)>(s: seq<T>, u: seq<T>) {
    forall x | x in s :: x in u
  }

  lemma {:induction false} MergeSorts<T>(cmp: (T, T) -> int, p: seq<T>, q: seq<T>, u: seq<T>)
    requires Sorted(cmp, p) && Sorted(cmp, q) && Preorder(cmp, u) && Within(p, u) && Within(q, u)
    ensures Sorted(cmp, Merge(cmp, p, q))
    decreases |p| + |q|
  {
    hide Sorted, Preorder;
    if p != [] && q != [] {
      SortedTail(cmp, p);
      SortedTail(cmp, q);
      PreorderAt(cmp, u, p[0], q[0]);
      if cmp(p[0], q[0]) <= 0 {
        MergeSorts(cmp, p[1..], q, u);
        HeadOfMerge(cmp, p[0], p[1..], q, u);
      } else {
        MergeSorts(cmp, p, q[1..], u);
        HeadOfMerge(cmp, q[0], p, q[1..], u);
      }
    }
  }

  lemma PreorderAt<T>(cmp: (T, T) -> int, u: seq<T>, a: T, b: T)
    requires Preorder(cmp, u) && a in u && b in u
    ensures cmp(a, b) <= 0 || cmp(b, a) <= 0
    ensures forall c | c in u :: cmp(a, b) <= 0 && cmp(b, c) <= 0 ==> cmp(a, c) <= 0
  {
  }

  /** An element that is at most the elements of one run and the first of the other may head their merge. */
  lemma HeadOfMerge<T>(cmp: (T, T) -> int, x: T, p: seq<T>, q: seq<T>, u: seq<T>)
    requires Sorted(cmp, p) && Sorted(cmp, q) && Sorted(cmp, Merge(cmp, p, q))
    requires Preorder(cmp, u) && Within(p, u) && Within(q, u) && x in u
    requires p != [] ==> cmp(x, p[0]) <= 0
    requires q != [] ==> cmp(x, q[0]) <= 0
    ensures Sorted(cmp, [x] + Merge(cmp, p, q))
  {
    hide Merge;
    var m := Merge(cmp, p, q);
    MergeKeepsElements(cmp, p, q);
    AtMost(cmp, x, p, u);
    AtMost(cmp, x, q, u);
    forall y | y in m
      ensures cmp(x, y) <= 0
    {
      assert y in multiset(p) + multiset(q);
    }
    SortedFront(cmp, x, m);
  }

  lemma AtMost<T>(cmp: (T, T) -> int, x: T, s: seq<T>, u: seq<T>)
    requires Sorted(cmp, s) && Preorder(cmp, u) && Within(s, u) && x in u
    requires s != [] ==> cmp(x, s[0]) <= 0
    ensures forall y | y in s :: cmp(x, y) <= 0
  {
    if s != [] {
      SortedTail(cmp, s);
      PreorderAt(cmp, u, x, s[0]);
    }
  }

  lemma {:induction false} EqualsOfNone<T>(cmp: (T, T) -> int, s: seq<T>, x: T)
    requires forall y | y in s :: !(cmp(y, x) <= 0 && cmp(x, y) <= 0)
    ensures Equals(cmp, s, x) == []
  {
    if s != [] {
      EqualsOfNone(cmp, s[1..], x);
    }
  }

  lemma {:induction false} EqualsAppend<T>(cmp: (T, T) -> int, s: seq<T>, t: seq<T>, x: T)
    ensures Equals(cmp, s + t, x) == Equals(cmp, s, x) + Equals(cmp, t, x)
  {
    if s == [] {
      assert s + t == t;
    } else {
      assert (s + t)[1..] == s[1..] + t;
      EqualsAppend(cmp, s[1..], t, x);
    }
  }

  lemma EqualsFront<T>(cmp: (T, T) -> int, y: T, s: seq<T>, x: T)
    ensures Equals(cmp, [y] + s, x) == (if cmp(y, x) <= 0 && cmp(x, y) <= 0 then [y] else []) + Equals(cmp, s, x)
  {
    assert ([y] + s)[1..] == s;
  }

  /** Merging keeps equal elements in order, those of the first run before those of the second. */
  lemma {:induction false} MergeIsStable<T>(cmp: (T, T) -> int, p: seq<T>, q: seq<T>, u: seq<T>, x: T)
    requires Sorted(cmp, p) && Sorted(cmp, q) && Preorder(cmp, u) && Within(p, u) && Within(q, u) && x in u
    ensures Equals(cmp, Merge(cmp, p, q), x) == Equals(cmp, p, x) + Equals(cmp, q, x)
    decreases |p| + |q|
  {
    hide Sorted, Preorder, Merge, Equals;
    MergeHead(cmp, p, q);
    EqualsOfNone(cmp, [], x);
    if p != [] && q != [] {
      SortedTail(cmp, p);
      SortedTail(cmp, q);
      if cmp(p[0], q[0]) <= 0 {
        MergeIsStable(cmp, p[1..], q, u, x);
        EqualsFront(cmp, p[0], Merge(cmp, p[1..], q), x);
        EqualsFront(cmp, p[0], p[1..], x);
        assert [p[0]] + p[1..] == p;
      } else {
        MergeIsStable(cmp, p, q[1..], u, x);
        EqualsFront(cmp, q[0], Merge(cmp, p, q[1..]), x);
        EqualsFront(cmp, q[0], q[1..], x);
        assert [q[0]] + q[1..] == q;
        if cmp(q[0], x) <= 0 && cmp(x, q[0]) <= 0 {
          SecondRunFirst(cmp, p, q[0], u, x);
        }
      }
    }
  }

  /** An element of the second run goes first only if nothing in the first run equals it. */
  lemma SecondRunFirst<T>(cmp: (T, T) -> int, p: seq<T>, b: T, u: seq<T>, x: T)
    requires Sorted(cmp, p) && p != [] && Preorder(cmp, u) && Within(p, u) && b in u && x in u
    requires cmp(p[0], b) > 0 && cmp(b, x) <= 0 && cmp(x, b) <= 0
    ensures Equals(cmp, p, x) == []
  {
    hide Sorted, Preorder;
    SortedTail(cmp, p);
    forall y | y in p
      ensures !(cmp(y, x) <= 0 && cmp(x, y) <= 0)
    {
      if cmp(y, x) <= 0 {
        PreorderAt(cmp, u, y, x);
        PreorderAt(cmp, u, p[0], y);
        PreorderAt(cmp, u, y, y);
      }
    }
    EqualsOfNone(cmp, p, x);
  }

  // ---------------------------------------------------------------- one pass

  lemma {:induction false} PassKeepsElements<T>(cmp: (T, T) -> int, s: seq<T>, n: nat)
    requires 0 < n
    ensures multiset(Pass(cmp, s, n)) == multiset(s)
    decreases |s|
  {
    hide Merge, Front, Behind;
    if s != [] {
      var more := Behind(s, n);
      MergeKeepsElements(cmp, Front(s, n), Front(more, n));
      PassKeepsElements(cmp, Behind(more, n), n);
      assert multiset(s) == multiset(Front(s, n)) + multiset(more);
      assert multiset(more) == multiset(Front(more, n)) + multiset(Behind(more, n));
    }
  }

  lemma ThreeParts<T>(s: seq<T>, n: nat)
    requires 0 < n
    ensures var p, more := Front(s, n), Behind(s, n);
            var q, rest := Front(more, n), Behind(more, n);
            && p + q + rest == s && Within(p, s) && Within(q, s) && Within(rest, s)
            && |p + q| == Min(2 * n, |s|)
  {
    var p, more := Front(s, n), Behind(s, n);
    var q, rest := Front(more, n), Behind(more, n);
    assert p + (q + rest) == p + q + rest;
  }

  /** A pass turns sorted runs of `n` elements into sorted runs of twice as many, and is stable. */
  lemma {:induction false} PassSorts<T>(cmp: (T, T) -> int, s: seq<T>, n: nat, u: seq<T>)
    requires 0 < n && Preorder(cmp, u) && Within(s, u) && SortedRuns(cmp, s, n)
    ensures SortedRuns(cmp, Pass(cmp, s, n), 2 * n)
    ensures forall x | x in u :: Equals(cmp, Pass(cmp, s, n), x) == Equals(cmp, s, x)
    decreases |s|
  {
    hide Merge, Sorted, Preorder, Equals, Front, Behind;
    if s != [] {
      var p, more := Front(s, n), Behind(s, n);
      var q, rest := Front(more, n), Behind(more, n);
      ThreeParts(s, n);
      if q == [] {
        NoRuns(cmp, q, n);
      }
      MergeSorts(cmp, p, q, u);
      PassSorts(cmp, rest, n, u);
      FirstRun(cmp, Merge(cmp, p, q), Pass(cmp, rest, n), 2 * n);
      forall x | x in u
        ensures Equals(cmp, Pass(cmp, s, n), x) == Equals(cmp, s, x)
      {
        MergeIsStable(cmp, p, q, u, x);
        EqualsAppend(cmp, p, q, x);
        EqualsAppend(cmp, p + q, rest, x);
        EqualsAppend(cmp, Merge(cmp, p, q), Pass(cmp, rest, n), x);
      }
    }
  }

  lemma NoRuns<T>(cmp: (T, T) -> int, s: seq<T>, n: nat)
    requires 0 < n && s == []
    ensures SortedRuns(cmp, s, n) && Sorted(cmp, s)
  {
  }

  lemma FirstRun<T>(cmp: (T, T) -> int, run: seq<T>, rest: seq<T>, n: nat)
    requires 0 < n && Sorted(cmp, run) && SortedRuns(cmp, rest, n) && run != []
    requires |run| == n || (|run| < n && rest == [])
    ensures SortedRuns(cmp, run + rest, n)
  {
    var s := run + rest;
    assert Front(s, n) == run && Behind(s, n) == rest;
  }

  // ---------------------------------------------------------------- the whole sort

  lemma {:induction false} SingleRuns<T>(cmp: (T, T) -> int, s: seq<T>)
    ensures SortedRuns(cmp, s, 1)
    decreases |s|
  {
    if s != [] {
      SingleRuns(cmp, Behind(s, 1));
    }
  }

  lemma OneRun<T>(cmp: (T, T) -> int, s: seq<T>, n: nat)
    requires 0 < n && |s| <= n && SortedRuns(cmp, s, n)
    ensures Sorted(cmp, s)
  {
    assert Front(s, n) == s;
  }

  lemma {:induction false} SortKeepsElements<T>(cmp: (T, T) -> int, s: seq<T>, n: nat)
    requires 0 < n
    ensures multiset(Sort(cmp, s, n)) == multiset(s)
    decreases if n < |s| then |s| - n else 0
  {
    PassKeepsElements(cmp, s, n);
    if |s| > 2 * n {
      SortKeepsElements(cmp, Pass(cmp, s, n), 2 * n);
    }
  }

  lemma {:induction false} SortFromRuns<T>(cmp: (T, T) -> int, s: seq<T>, n: nat, u: seq<T>)
    requires 0 < n && Preorder(cmp, u) && Within(s, u) && SortedRuns(cmp, s, n)
    ensures Sorted(cmp, Sort(cmp, s, n))
    ensures forall x | x in u :: Equals(cmp, Sort(cmp, s, n), x) == Equals(cmp, s, x)
    decreases if n < |s| then |s| - n else 0
  {
    hide Pass, Sorted, Preorder, Equals, SortedRuns;
    var t := Pass(cmp, s, n);
    PassSorts(cmp, s, n, u);
    if |s| <= 2 * n {
      OneRun(cmp, t, 2 * n);
    } else {
      PassKeepsElements(cmp, s, n);
      SameElements(t, s);
      SortFromRuns(cmp, t, 2 * n, u);
    }
  }

  lemma SameElements<T>(s: seq<T>, t: seq<T>)
    requires multiset(s) == multiset(t)
    ensures Within(s, t) && Within(t, s) && |s| == |t|
  {
    forall x | x in s
      ensures x in t
    {
      assert x in multiset(s);
    }
    forall x | x in t
      ensures x in s
    {
      assert x in multiset(t);
    }
    assert |multiset(s)| == |multiset(t)|;
  }

  /**
   * For every total preorder the sort gives a sorted permutation in which the elements that compare equal
   * to any one of them are exactly the same, in the same order, as before.
   */
  lemma SortIsStable<T>(cmp: (T, T) -> int, s: seq<T>)
    requires Preorder(cmp, s)
    ensures var r := Sort(cmp, s, 1);
            && Sorted(cmp, r) && multiset(r) == multiset(s)
            && (forall x | x in s :: Equals(cmp, r, x) == Equals(cmp, s, x))
  {
    SingleRuns(cmp, s);
    SortFromRuns(cmp, s, 1, s);
    SortKeepsElements(cmp, s, 1);
  }
}
