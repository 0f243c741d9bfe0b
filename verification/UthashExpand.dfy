/** HASH_EXPAND_BUCKETS: every element moves to one of twice as many buckets. */
module UthashExpand {
  import opened UthashOrder
  import opened UthashList
  import opened UthashBuckets

  // ---------------------------------------------------------------- all chains together

  function Flat(chains: seq<seq<Handle>>): seq<Handle> {
    if chains == [] then [] else Flat(chains[..|chains| - 1]) + chains[|chains| - 1]
  }

  lemma FlatLast(chains: seq<seq<Handle>>)
    requires chains != []
    ensures multiset(Flat(chains)) == multiset(Flat(chains[..|chains| - 1])) + multiset(chains[|chains| - 1])
  {
  }

  lemma {:induction false} FlatUpdate(chains: seq<seq<Handle>>, b: nat, t: seq<Handle>)
    requires b < |chains|
    ensures multiset(Flat(chains[b := t])) + multiset(chains[b]) == multiset(Flat(chains)) + multiset(t)
  {
    hide Flat;
    var n := |chains| - 1;
    var all := chains[b := t];
    FlatLast(chains);
    FlatLast(all);
    if b == n {
      assert all[..n] == chains[..n];
    } else {
      assert all[..n] == chains[..n][b := t];
      FlatUpdate(chains[..n], b, t);
      AddBoth(multiset(Flat(all[..n])), multiset(chains[b]), multiset(Flat(chains[..n])), multiset(t),
              multiset(chains[n]));
    }
  }

  lemma AddBoth(a: multiset<Handle>, b: multiset<Handle>, c: multiset<Handle>, d: multiset<Handle>, e: multiset<Handle>)
    requires a + b == c + d
    ensures (a + e) + b == (c + e) + d
  {
    assert (a + e) + b == (a + b) + e;
    assert (c + e) + d == (c + d) + e;
  }

  lemma {:induction false} FlatHolds(chains: seq<seq<Handle>>, x: Handle)
    ensures x in Flat(chains) <==> exists b | 0 <= b < |chains| :: x in chains[b]
  {
    if chains != [] {
      var n := |chains| - 1;
      FlatHolds(chains[..n], x);
      if x in Flat(chains[..n]) {
        var b :| 0 <= b < n && x in chains[..n][b];
        assert x in chains[b];
      }
      if b :| 0 <= b < |chains| && x in chains[b] {
        if b < n {
          assert x in chains[..n][b];
        }
      }
    }
  }

  /** The items whose place in their chain is beyond the ideal length. */
  function Excess(length: nat, ideal: nat): nat {
    if length > ideal then length - ideal else 0
  }

  function SumExcess(chains: seq<seq<Handle>>, ideal: nat): nat {
    if chains == [] then 0
    else SumExcess(chains[..|chains| - 1], ideal) + Excess(|chains[|chains| - 1]|, ideal)
  }

  lemma {:induction false} SumUpdate(chains: seq<seq<Handle>>, b: nat, t: seq<Handle>, ideal: nat)
    requires b < |chains|
    ensures SumExcess(chains[b := t], ideal) + Excess(|chains[b]|, ideal)
         == SumExcess(chains, ideal) + Excess(|t|, ideal)
  {
    var n := |chains| - 1;
    var all := chains[b := t];
    if b == n {
      assert all[..n] == chains[..n];
    } else {
      assert all[..n] == chains[..n][b := t];
      SumUpdate(chains[..n], b, t, ideal);
    }
  }

  /** How much later than usual a bucket asks for the next expansion. */
  function ExpandMult(length: nat, ideal: nat): nat
    requires 0 < ideal
  {
    if length > ideal then length / ideal else 0
  }

  /** The elements of `s` that belong in bucket `b` of `n`, the last one first. */
  ghost function Rehashed(s: seq<Handle>, b: nat, n: nat): seq<Handle>
    requires 0 < n
    reads (set x | x in s)`hashv
  {
    if s == [] then []
    else
      var front, x := s[..|s| - 1], s[|s| - 1];
      (if BucketOf(x.hashv, n) == b then [x] else []) + Rehashed(front, b, n)
  }

  lemma RehashedStep(s: seq<Handle>, h: Handle, b: nat, n: nat)
    requires 0 < n
    ensures Rehashed(s + [h], b, n) == (if BucketOf(h.hashv, n) == b then [h] else []) + Rehashed(s, b, n)
  {
    assert (s + [h])[..|s|] == s;
  }

  /** A rehashed chain holds the elements of its bucket and no others, each as often as before. */
  lemma {:induction false} RehashedHolds(s: seq<Handle>, b: nat, n: nat, x: Handle)
    requires 0 < n
    ensures multiset(Rehashed(s, b, n))[x] == if BucketOf(x.hashv, n) == b then multiset(s)[x] else 0
  {
    hide BucketOf;
    if s != [] {
      var front, y := s[..|s| - 1], s[|s| - 1];
      RehashedHolds(front, b, n, x);
      assert s == front + [y];
      var head := if BucketOf(y.hashv, n) == b then [y] else [];
      assert multiset(Rehashed(s, b, n)) == multiset(head) + multiset(Rehashed(front, b, n));
    }
  }

  // ---------------------------------------------------------------- moving elements

  /** The new table after the elements of `moved` have gone over. */
  ghost predicate Moved(buckets: array<Bucket>, chains: seq<seq<Handle>>, all: set<Handle>, moved: seq<Handle>,
                        ideal: nat, nonideal: nat)
    requires 0 < ideal
    reads buckets, all`hhPrev, all`hhNext, all`hashv
  {
    && BucketsOk(buckets, chains, all) && buckets.Length == |chains|
    && multiset(Flat(chains)) == multiset(moved) && InSet(moved, all)
    && nonideal == SumExcess(chains, ideal)
    && forall b | 0 <= b < |chains| ::
         && buckets[b].expandMult == ExpandMult(|chains[b]|, ideal)
         && chains[b] == Rehashed(moved, b, |chains|)
  }

  /** The body of the inner loop. */
  method MoveOne(buckets: array<Bucket>, h: Handle, ideal: nat, nonideal0: nat,
                 ghost chains: seq<seq<Handle>>, ghost all: set<Handle>, ghost moved: seq<Handle>)
    returns (nonideal: nat, ghost chains': seq<seq<Handle>>)
    requires 0 < ideal && Moved(buckets, chains, all, moved, ideal, nonideal0)
    requires BucketOf(h.hashv, |chains|) < |chains| && h in all && h !in moved
    modifies buckets, h`hhNext, all`hhPrev
    ensures |chains'| == |chains| && Moved(buckets, chains', all, moved + [h], ideal, nonideal)
  {
    hide BucketsOk, BucketOf, Flat, SumExcess, Rehashed, ExpandMult, Excess, InSet;
    var b := BucketOf(h.hashv, buckets.Length);
    OneChain(buckets, chains, all, b);
    NotYet(chains, moved, h, b);
    MultOfOneMore(|chains[b]|, ideal);
    nonideal := nonideal0;
    var bkt := buckets[b].(count := buckets[b].count + 1);
    if bkt.count > ideal {
      nonideal := nonideal + 1;
      bkt := bkt.(expandMult := bkt.count / ideal);
    }
    OneMore(chains, moved, h, b, ideal);
    Install(buckets, b, bkt, h, chains, all);
    chains' := chains[b := [h] + chains[b]];
    OneMoreIn(moved, h, all);
    forall c | 0 <= c < |chains|
      ensures buckets[c].expandMult == ExpandMult(|chains'[c]|, ideal)
    {
      assert buckets[..][c] == buckets[c] && old(buckets[..])[c] == old(buckets[c]);
    }
  }

  lemma MultOfOneMore(length: nat, ideal: nat)
    requires 0 < ideal
    ensures ExpandMult(length + 1, ideal)
         == if length + 1 > ideal then (length + 1) / ideal else ExpandMult(length, ideal)
  {
  }

  lemma OneMoreIn(moved: seq<Handle>, h: Handle, all: set<Handle>)
    requires InSet(moved, all) && h in all
    ensures InSet(moved + [h], all)
  {
  }

  /** One more element at the front of its chain: the elements, the sum of nonideal items, and each chain. */
  lemma OneMore(chains: seq<seq<Handle>>, moved: seq<Handle>, h: Handle, b: nat, ideal: nat)
    requires b < |chains| && b == BucketOf(h.hashv, |chains|)
    requires multiset(Flat(chains)) == multiset(moved)
    requires forall c | 0 <= c < |chains| :: chains[c] == Rehashed(moved, c, |chains|)
    ensures var more := chains[b := [h] + chains[b]];
            && multiset(Flat(more)) == multiset(moved + [h])
            && SumExcess(more, ideal) == SumExcess(chains, ideal) + (if |chains[b]| + 1 > ideal then 1 else 0)
            && forall c | 0 <= c < |chains| :: more[c] == Rehashed(moved + [h], c, |chains|)
  {
    hide BucketOf, Flat, SumExcess, Rehashed;
    var more := chains[b := [h] + chains[b]];
    FlatUpdate(chains, b, [h] + chains[b]);
    SumUpdate(chains, b, [h] + chains[b], ideal);
    AddOne(Flat(chains), Flat(more), chains[b], moved, h);
    forall c | 0 <= c < |chains|
      ensures more[c] == Rehashed(moved + [h], c, |chains|)
    {
      RehashedStep(moved, h, c, |chains|);
    }
  }

  lemma NotYet(chains: seq<seq<Handle>>, moved: seq<Handle>, h: Handle, b: nat)
    requires multiset(Flat(chains)) == multiset(moved) && h !in moved && b < |chains|
    ensures h !in chains[b]
  {
    FlatHolds(chains, h);
    assert h in Flat(chains) <==> h in multiset(moved);
  }

  lemma AddOne(flat: seq<Handle>, flat': seq<Handle>, chain: seq<Handle>, moved: seq<Handle>, h: Handle)
    requires multiset(flat) == multiset(moved)
    requires multiset(flat') + multiset(chain) == multiset(flat) + multiset([h] + chain)
    ensures multiset(flat') == multiset(moved + [h])
  {
    assert multiset([h] + chain) == multiset{h} + multiset(chain);
    assert multiset(flat') == multiset(flat') + multiset(chain) - multiset(chain);
  }

  /** The inner loop: one old chain. */
  method MoveChain(buckets: array<Bucket>, from: Handle?, ideal: nat, nonideal0: nat, ghost chain: seq<Handle>,
                   ghost chains0: seq<seq<Handle>>, ghost all: set<Handle>, ghost moved: seq<Handle>)
    returns (nonideal: nat, ghost chains: seq<seq<Handle>>)
    requires 0 < ideal && Moved(buckets, chains0, all, moved, ideal, nonideal0)
    requires HhChain(from, chain) && NoDup(moved + chain) && InSet(chain, all)
    requires forall x | x in chain :: BucketOf(x.hashv, |chains0|) < |chains0|
    modifies buckets, (set x | x in chain)`hhNext, all`hhPrev
    ensures |chains| == |chains0| && Moved(buckets, chains, all, moved + chain, ideal, nonideal)
  {
    hide Moved, HhChain, NoDup, BucketOf;
    chains := chains0;
    nonideal := nonideal0;
    var thh := from;
    ghost var done: seq<Handle>, left: seq<Handle> := [], chain;
    assert moved + done == moved;
    while thh != null
      invariant |chains| == |chains0| && Moved(buckets, chains, all, moved + done, ideal, nonideal)
      invariant HhChain(thh, left) && done + left == chain
      decreases |left|
    {
      HhChainStep(thh, left);
      NextMoved(moved, done, left, chain);
      var next := thh.hhNext;
      nonideal, chains := MoveOne(buckets, thh, ideal, nonideal, chains, all, moved + done);
      assert moved + done + [thh] == moved + (done + [thh]);
      done, left, thh := done + [thh], left[1..], next;
    }
    HhChainStep(thh, left);
    assert done == chain;
  }

  lemma NextMoved(moved: seq<Handle>, done: seq<Handle>, left: seq<Handle>, chain: seq<Handle>)
    requires done + left == chain && left != [] && NoDup(moved + chain)
    ensures left[0] in chain && left[0] !in moved + done && left[0] !in left[1..]
    ensures done + [left[0]] + left[1..] == chain
  {
    assert left == [left[0]] + left[1..];
    assert moved + chain == (moved + done) + left == (moved + done + [left[0]]) + left[1..];
    NoDupParts(moved + done, left);
    NoDupParts(moved + done + [left[0]], left[1..]);
    assert left[0] in left;
  }

  // ---------------------------------------------------------------- the whole table

  /** The new buckets before anything was moved. */
  lemma {:induction false} NothingMoved(n: nat, ideal: nat)
    ensures Flat(seq(n, _ => [])) == [] && SumExcess(seq(n, _ => []), ideal) == 0
  {
    if n != 0 {
      var chains: seq<seq<Handle>> := seq(n, _ => []);
      var front: seq<seq<Handle>> := seq(n - 1, _ => []);
      assert chains[..n - 1] == front;
      NothingMoved(n - 1, ideal);
    }
  }

  lemma EmptyTable(buckets: array<Bucket>, chains: seq<seq<Handle>>, all: set<Handle>, ideal: nat)
    requires 0 < ideal && 0 < buckets.Length == |chains| && chains == seq(buckets.Length, _ => [])
    requires forall b | 0 <= b < buckets.Length :: buckets[b] == EmptyBucket
    ensures Moved(buckets, chains, all, [], ideal, 0)
  {
    NothingMoved(buckets.Length, ideal);
  }

  lemma {:induction false} FlatPrefix(chains: seq<seq<Handle>>, k: nat)
    requires k < |chains| && NoDup(Flat(chains))
    ensures NoDup(Flat(chains[..k + 1])) && Flat(chains[..k + 1]) == Flat(chains[..k]) + chains[k]
    decreases |chains|
  {
    hide NoDup;
    var n := |chains| - 1;
    if k < n {
      assert chains[..n][..k + 1] == chains[..k + 1] && chains[..n][..k] == chains[..k];
      NoDupParts(Flat(chains[..n]), chains[n]);
      FlatPrefix(chains[..n], k);
    } else {
      assert chains[..k + 1] == chains;
    }
  }

  /** No two chains share an element, and each can be walked from its bucket. */
  ghost predicate Walkable(buckets: array<Bucket>, chains: seq<seq<Handle>>, all: set<Handle>, k: nat)
    reads buckets, all`hhNext
  {
    && buckets.Length == |chains|
    && (forall b | 0 <= b < |chains| :: InSet(chains[b], all))
    && (forall b, c, x | 0 <= b < |chains| && 0 <= c < |chains| && b != c && x in chains[b] :: x !in chains[c])
    && (forall b | k <= b < |chains| :: HhChain(buckets[b].head, chains[b]))
  }

  lemma StartWalk(buckets: array<Bucket>, chains: seq<seq<Handle>>, all: set<Handle>)
    requires BucketsOk(buckets, chains, all)
    ensures Walkable(buckets, chains, all, 0)
  {
    hide BucketsOk;
    assert buckets.Length == |chains| by {
      SameLength(buckets, chains, all);
    }
    forall b | 0 <= b < |chains|
      ensures InSet(chains[b], all) && HhChain(buckets[b].head, chains[b])
    {
      OneChain(buckets, chains, all, b);
    }
    forall b, c | 0 <= b < |chains| && 0 <= c < |chains| && b != c
      ensures forall x | x in chains[b] :: x !in chains[c]
    {
      Apart(buckets, chains, all, b, c);
    }
  }

  lemma SameLength(buckets: array<Bucket>, chains: seq<seq<Handle>>, all: set<Handle>)
    requires BucketsOk(buckets, chains, all)
    ensures 0 < buckets.Length == |chains|
  {
  }

  /** The outer loop's body: walk one old chain and move its elements. */
  method MoveNext(buckets0: array<Bucket>, buckets: array<Bucket>, i: nat, ideal: nat, nonideal0: nat,
                  ghost from: seq<seq<Handle>>, ghost chains0: seq<seq<Handle>>, ghost all: set<Handle>, ghost k: nat)
    returns (nonideal: nat, ghost chains: seq<seq<Handle>>)
    requires 0 < ideal && i < |from| && |chains0| == Pow2(k) && buckets0 != buckets
    requires Walkable(buckets0, from, all, i) && NoDup(Flat(from))
    requires Moved(buckets, chains0, all, Flat(from[..i]), ideal, nonideal0)
    modifies buckets, all`hhNext, all`hhPrev
    ensures |chains| == |chains0| && Walkable(buckets0, from, all, i + 1)
    ensures Moved(buckets, chains, all, Flat(from[..i + 1]), ideal, nonideal)
  {
    hide Moved, NoDup, HhChain, BucketOf, Flat, Pow2;
    FlatPrefix(from, i);
    forall x | x in from[i]
      ensures BucketOf(x.hashv, |chains0|) < |chains0|
    {
      MaskIsRemainder(x.hashv, k);
    }
    nonideal, chains := MoveChain(buckets, buckets0[i].head, ideal, nonideal0, from[i], chains0, all, Flat(from[..i]));
  }

  /** Make the new table; the counters and the old buckets stay with the caller. */
  method Expand(buckets0: array<Bucket>, numItems: nat, log2: nat, ghost from: seq<seq<Handle>>, ghost all: set<Handle>)
    returns (buckets: array<Bucket>, ideal: nat, nonideal: nat, ghost chains: seq<seq<Handle>>)
    requires BucketsOk(buckets0, from, all) && NoDup(Flat(from)) && buckets0.Length == |from| == Pow2(log2)
    requires 0 < numItems == |Flat(from)|
    modifies all`hhNext, all`hhPrev
    ensures fresh(buckets) && |chains| == Pow2(log2 + 1)
    ensures ideal == IdealChain(numItems, Pow2(log2), log2) && 0 < ideal
    ensures Moved(buckets, chains, all, Flat(from), ideal, nonideal)
  {
    hide Moved, NoDup, Walkable, BucketOf, Flat, BucketsOk, IdealChain;
    var numBuckets := buckets0.Length;
    IdealIsCeiling(numItems, log2, 0);
    StartWalk(buckets0, from, all);
    buckets := new Bucket[2 * numBuckets](_ => EmptyBucket);
    ideal := IdealChain(numItems, numBuckets, log2);
    nonideal := 0;
    chains := seq(2 * numBuckets, _ => []);
    EmptyTable(buckets, chains, all, ideal);
    FlatOfNone();
    assert from[..0] == [] && from[..numBuckets] == from;
    for i := 0 to numBuckets
      invariant |chains| == Pow2(log2 + 1) && Walkable(buckets0, from, all, i)
      invariant Moved(buckets, chains, all, Flat(from[..i]), ideal, nonideal)
    {
      nonideal, chains := MoveNext(buckets0, buckets, i, ideal, nonideal, from, chains, all, log2 + 1);
    }
  }

  lemma FlatOfNone()
    ensures Flat([]) == []
  {
  }
}
