/** The buckets of a hash: chains of elements, insertion and removal, and expansion to twice as many. */
module UthashBuckets {
  import opened UthashOrder
  import opened UthashList

  // ---------------------------------------------------------------- choosing a bucket

  function Pow2(k: nat): (n: nat)
    ensures 0 < n
  {
    if k == 0 then 1 else 2 * Pow2(k - 1)
  }

  /** Bitwise AND of two unsigned integers. */
  function BitAnd(a: nat, b: nat): nat {
    if a == 0 || b == 0 then 0 else (if a % 2 == 1 && b % 2 == 1 then 1 else 0) + 2 * BitAnd(a / 2, b / 2)
  }

  /** HASH_TO_BKT. */
  function BucketOf(hashv: nat, numBuckets: nat): nat
    requires 0 < numBuckets
  {
    BitAnd(hashv, numBuckets - 1)
  }

  function ShiftRight(a: nat, k: nat): nat {
    if k == 0 then a else ShiftRight(a / 2, k - 1)
  }

  /** Masking with 2^k - 1 and shifting by k take a number apart. */
  lemma {:induction false} MaskAndShift(a: nat, k: nat)
    ensures var n := Pow2(k);
            a == ShiftRight(a, k) * n + BitAnd(a, n - 1) && BitAnd(a, n - 1) < n
  {
    hide BitAnd;
    if k == 0 {
      MaskZero(a);
    } else {
      var half := Pow2(k - 1);
      MaskAndShift(a / 2, k - 1);
      MaskStep(a, half);
      Doubled(a, ShiftRight(a / 2, k - 1), half, BitAnd(a / 2, half - 1));
    }
  }

  lemma MaskZero(a: nat)
    ensures BitAnd(a, 0) == 0
  {
  }

  lemma Doubled(a: nat, s: nat, half: nat, m: nat)
    requires a / 2 == s * half + m
    ensures a == s * (2 * half) + (a % 2 + 2 * m)
  {
    assert s * (2 * half) == 2 * (s * half);
  }

  lemma MaskStep(a: nat, half: nat)
    requires 0 < half
    ensures BitAnd(a, 2 * half - 1) == a % 2 + 2 * BitAnd(a / 2, half - 1)
  {
    assert (2 * half - 1) / 2 == half - 1 && (2 * half - 1) % 2 == 1;
    if a == 0 {
      assert BitAnd(0, half - 1) == 0;
    }
  }

  lemma Remainder(h: nat, n: nat, q: nat, r: nat)
    requires 0 < n && r < n && h == q * n + r
    ensures h % n == r && h / n == q
  {
    var d := q - h / n;
    assert h == h / n * n + h % n;
    assert d * n == h % n - r;
    assert d < 1 by {
      if d >= 1 {
        Monotone(1, d, n);
      }
    }
    assert d > -1 by {
      if d <= -1 {
        Monotone(d, -1, n);
      }
    }
  }

  lemma Monotone(a: int, b: int, n: nat)
    requires a <= b
    ensures a * n <= b * n
  {
  }

  /** For a power of two, masking is the remainder, so it always names a bucket. */
  lemma MaskIsRemainder(hashv: nat, k: nat)
    ensures BucketOf(hashv, Pow2(k)) == hashv % Pow2(k) < Pow2(k)
  {
    MaskAndShift(hashv, k);
    Remainder(hashv, Pow2(k), ShiftRight(hashv, k), BitAnd(hashv, Pow2(k) - 1));
  }

  /** Doubling the buckets splits each one in two: an element stays, or moves up by the old count. */
  lemma DoublingSplits(hashv: nat, k: nat)
    ensures var n, b := Pow2(k), BucketOf(hashv, Pow2(k));
            BucketOf(hashv, Pow2(k + 1)) in {b, b + n}
  {
    hide BucketOf, Pow2;
    var n := Pow2(k);
    assert Pow2(k + 1) == 2 * n by {
      DoublePow2(k);
    }
    MaskIsRemainder(hashv, k);
    MaskIsRemainder(hashv, k + 1);
    HalvesOf(hashv, n);
  }

  lemma HalvesOf(h: nat, n: nat)
    requires 0 < n
    ensures h % (2 * n) in {h % n, h % n + n}
  {
    var p, e, r := h / n / 2, h / n % 2, h % n;
    Unfold(h, n, p, e, r);
    Remainder(h, 2 * n, p, e * n + r);
  }

  lemma Unfold(h: nat, n: nat, p: nat, e: nat, r: nat)
    requires 0 < n && p == h / n / 2 && e == h / n % 2 && r == h % n
    ensures h == p * (2 * n) + (e * n + r) && e * n + r < 2 * n && e * n in {0, n}
  {
    var q := h / n;
    assert h == q * n + r;
    assert q == 2 * p + e;
    assert (2 * p + e) * n == p * (2 * n) + e * n;
  }

  lemma DoublePow2(k: nat)
    ensures Pow2(k + 1) == 2 * Pow2(k)
  {
  }

  /** ideal_chain_maxlen, computed with a shift and a mask. */
  function IdealChain(numItems: nat, numBuckets: nat, log2: nat): nat
    requires 0 < numBuckets
  {
    ShiftRight(numItems, log2 + 1) + if BitAnd(numItems, numBuckets * 2 - 1) != 0 then 1 else 0
  }

  /** It is the quotient rounded up: the smallest chain length with which all items fit. */
  lemma IdealIsCeiling(numItems: nat, log2: nat, m: nat)
    ensures var n, ideal := Pow2(log2), IdealChain(numItems, Pow2(log2), log2);
            && numItems <= ideal * (2 * n)
            && (numItems <= m * (2 * n) ==> ideal <= m)
            && (0 < numItems ==> 0 < ideal)
  {
    hide BitAnd, ShiftRight;
    var n := Pow2(log2 + 1);
    MaskAndShift(numItems, log2 + 1);
    Ceiling(numItems, n, ShiftRight(numItems, log2 + 1), BitAnd(numItems, n - 1), m);
  }

  lemma Ceiling(x: nat, n: nat, s: nat, r: nat, m: nat)
    requires r < n && x == s * n + r
    ensures var c := s + if r != 0 then 1 else 0;
            x <= c * n && (x <= m * n ==> c <= m) && (0 < x ==> 0 < c)
  {
    var c := s + if r != 0 then 1 else 0;
    assert (s + 1) * n == s * n + n;
    if m < c && x <= m * n {
      Monotone(m, c - 1, n);
      assert false;
    }
  }

  // ---------------------------------------------------------------- chains

  const HASH_BKT_CAPACITY_THRESH := 10

  datatype Bucket = Bucket(head: Handle?, count: nat, expandMult: nat)

  const EmptyBucket := Bucket(null, 0, 0)

  /** A chain, linked both ways. */
  ghost predicate HhLinked(head: Handle?, s: seq<Handle>)
    reads s`hhPrev, s`hhNext
  {
    && head == At(s, 0)
    && forall i | 0 <= i < |s| :: s[i].hhPrev == At(s, i - 1) && s[i].hhNext == At(s, i + 1)
  }

  /** `hhNext` leads from `from` through exactly the elements of `s`. */
  ghost predicate HhChain(from: Handle?, s: seq<Handle>)
    reads s`hhNext
  {
    from == At(s, 0) && forall i | 0 <= i < |s| :: s[i].hhNext == At(s, i + 1)
  }

  lemma HhChainStep(from: Handle?, s: seq<Handle>)
    requires HhChain(from, s)
    ensures from == null <==> s == []
    ensures s != [] ==> from == s[0] && HhChain(s[0].hhNext, s[1..])
  {
  }

  /** Every element of `s` belongs in bucket `b` of `n`. */
  ghost predicate BelongTo(s: seq<Handle>, b: nat, n: nat)
    requires 0 < n
    reads s`hashv
  {
    forall x | x in s :: BucketOf(x.hashv, n) == b
  }

  /** A bucket and the chain it heads. */
  ghost predicate ChainOk(bucket: Bucket, s: seq<Handle>, b: nat, n: nat)
    requires 0 < n
    reads s`hhPrev, s`hhNext, s`hashv
  {
    HhLinked(bucket.head, s) && bucket.count == |s| && NoDup(s) && BelongTo(s, b, n)
  }

  ghost predicate BucketsOk(buckets: array<Bucket>, chains: seq<seq<Handle>>, all: set<Handle>)
    reads buckets, all`hhPrev, all`hhNext, all`hashv
  {
    && 0 < |chains| == buckets.Length
    && forall b | 0 <= b < |chains| :: InSet(chains[b], all) && ChainOk(buckets[b], chains[b], b, |chains|)
  }

  // ---------------------------------------------------------------- insertion

  lemma LinkedFront(head: Handle?, h: Handle, s: seq<Handle>)
    requires forall i | 0 <= i < |s| :: s[i].hhNext == At(s, i + 1)
    requires forall i | 1 <= i < |s| :: s[i].hhPrev == At(s, i - 1)
    requires s != [] ==> s[0].hhPrev == h
    requires h.hhPrev == null && h.hhNext == At(s, 0)
    ensures HhLinked(h, [h] + s)
  {
    var t := [h] + s;
    forall i | 0 <= i < |t|
      ensures t[i].hhPrev == At(t, i - 1) && t[i].hhNext == At(t, i + 1)
    {
      if i > 0 {
        assert t[i] == s[i - 1];
      }
    }
  }

  /** Link `h` in at the front of a chain. */
  method LinkFront(bucket: Bucket, h: Handle, ghost s: seq<Handle>) returns (r: Bucket)
    requires HhLinked(bucket.head, s) && h !in s && NoDup(s)
    modifies h`hhNext, h`hhPrev
    modifies (if bucket.head == null then {} else {bucket.head})`hhPrev
    ensures r == bucket.(head := h) && HhLinked(h, [h] + s)
  {
    h.hhNext := bucket.head;
    h.hhPrev := null;
    if s != [] {
      OthersDiffer(s, 0);
    }
    if bucket.head != null {
      bucket.head.hhPrev := h;
    }
    r := bucket.(head := h);
    LinkedFront(bucket.head, h, s);
  }

  // ---------------------------------------------------------------- removal

  lemma LinkedWithout(head: Handle?, s: seq<Handle>, k: nat)
    requires k < |s|
    requires forall i | 0 <= i < |s| && i != k - 1 :: s[i].hhNext == At(s, i + 1)
    requires forall i | 0 <= i < |s| && i != k + 1 :: s[i].hhPrev == At(s, i - 1)
    requires k > 0 ==> s[k - 1].hhNext == At(s, k + 1)
    requires k + 1 < |s| ==> s[k + 1].hhPrev == At(s, k - 1)
    requires head == if k == 0 then At(s, 1) else s[0]
    ensures HhLinked(head, Without(s, k))
  {
    var t := Without(s, k);
    forall i | 0 <= i < |t|
      ensures t[i].hhPrev == At(t, i - 1) && t[i].hhNext == At(t, i + 1)
    {
      if i < k {
        assert t[i] == s[i];
      } else {
        assert t[i] == s[i + 1];
      }
    }
  }

  /** Let two neighbours skip what is between them. */
  method HhBridge(before: Handle?, after: Handle?)
    modifies (if before == null then {} else {before})`hhNext, (if after == null then {} else {after})`hhPrev
    ensures before != null ==> before.hhNext == after
    ensures after != null ==> after.hhPrev == before
  {
    if before != null {
      before.hhNext := after;
    }
    if after != null {
      after.hhPrev := before;
    }
  }

  /** Take `del` out of its chain. */
  method Unlink(bucket: Bucket, del: Handle, ghost s: seq<Handle>, ghost k: nat) returns (r: Bucket)
    requires HhLinked(bucket.head, s) && NoDup(s) && k < |s| && s[k] == del
    modifies (set x | x in s)`hhNext, (set x | x in s)`hhPrev
    ensures r.count == bucket.count && r.expandMult == bucket.expandMult && HhLinked(r.head, Without(s, k))
  {
    hide NoDup, Without;
    ghost var before, after := At(s, k - 1), At(s, k + 1);
    Neighbours(s, k);
    r := bucket;
    if r.head == del {
      r := r.(head := del.hhNext);
    }
    assert del.hhPrev == before && del.hhNext == after;
    HhBridge(del.hhPrev, del.hhNext);
    LinkedWithout(r.head, s, k);
  }

  // ---------------------------------------------------------------- one bucket of many

  lemma OneChain(buckets: array<Bucket>, chains: seq<seq<Handle>>, all: set<Handle>, b: nat)
    requires BucketsOk(buckets, chains, all) && b < |chains|
    ensures InSet(chains[b], all) && ChainOk(buckets[b], chains[b], b, |chains|)
    ensures HhLinked(buckets[b].head, chains[b]) && buckets[b].count == |chains[b]| && NoDup(chains[b])
    ensures buckets[b].head != null ==> buckets[b].head in chains[b]
  {
  }

  /** An element is in no bucket but its own. */
  lemma Apart(buckets: array<Bucket>, chains: seq<seq<Handle>>, all: set<Handle>, b: nat, c: nat)
    requires BucketsOk(buckets, chains, all) && b < |chains| && c < |chains| && b != c
    ensures forall x | x in chains[b] :: x !in chains[c]
  {
    OneChain(buckets, chains, all, b);
    OneChain(buckets, chains, all, c);
    forall x | x in chains[b]
      ensures x !in chains[c]
    {
      assert BucketOf(x.hashv, |chains|) == b;
    }
  }

  lemma Replaced(buckets: array<Bucket>, chains: seq<seq<Handle>>, all: set<Handle>, b: nat, s: seq<Handle>)
    requires 0 < |chains| == buckets.Length && b < |chains|
    requires InSet(s, all) && ChainOk(buckets[b], s, b, |chains|)
    requires forall c | 0 <= c < |chains| && c != b ::
               InSet(chains[c], all) && ChainOk(buckets[c], chains[c], c, |chains|)
    ensures BucketsOk(buckets, chains[b := s], all)
  {
    hide ChainOk, InSet;
  }

  /** Put `h` at the front of chain `b`, whose bucket becomes `bkt`. */
  method Install(buckets: array<Bucket>, b: nat, bkt: Bucket, h: Handle,
                 ghost chains: seq<seq<Handle>>, ghost all: set<Handle>)
    requires BucketsOk(buckets, chains, all) && b < |chains| && h in all && BucketOf(h.hashv, |chains|) == b
    requires buckets.Length == |chains| && h !in chains[b]
    requires bkt.head == buckets[b].head && bkt.count == |chains[b]| + 1
    modifies buckets, h`hhNext, all`hhPrev
    ensures BucketsOk(buckets, chains[b := [h] + chains[b]], all)
    ensures buckets[..] == old(buckets[..])[b := bkt.(head := h)]
  {
    hide BucketsOk, HhLinked, NoDup;
    OneChain(buckets, chains, all, b);
    forall c | 0 <= c < |chains| && c != b
      ensures InSet(chains[c], all) && ChainOk(buckets[c], chains[c], c, |chains|)
      ensures h !in chains[c] && (bkt.head != null ==> bkt.head !in chains[c])
    {
      OneChain(buckets, chains, all, c);
      Apart(buckets, chains, all, b, c);
    }
    NoDupFront(h, chains[b]);
    var bucket := LinkFront(bkt, h, chains[b]);
    buckets[b] := bucket;
    Replaced(buckets, chains, all, b, [h] + chains[b]);
  }

  lemma NoDupFront(h: Handle, s: seq<Handle>)
    requires NoDup(s) && h !in s
    ensures NoDup([h] + s)
  {
    assert multiset([h] + s) == multiset{h} + multiset(s);
  }

  /** HASH_DEL_IN_BKT. */
  method DelInBkt(buckets: array<Bucket>, b: nat, del: Handle, ghost k: nat,
                  ghost chains: seq<seq<Handle>>, ghost all: set<Handle>)
    requires BucketsOk(buckets, chains, all) && buckets.Length == |chains|
    requires b < |chains| && k < |chains[b]| && chains[b][k] == del
    modifies buckets, all`hhNext, all`hhPrev
    ensures BucketsOk(buckets, chains[b := Without(chains[b], k)], all)
  {
    hide BucketsOk, HhLinked, NoDup, Without, BucketOf;
    OneChain(buckets, chains, all, b);
    forall c | 0 <= c < |chains| && c != b
      ensures InSet(chains[c], all) && ChainOk(buckets[c], chains[c], c, |chains|)
      ensures forall x | x in chains[b] :: x !in chains[c]
    {
      OneChain(buckets, chains, all, c);
      Apart(buckets, chains, all, b, c);
    }
    WithoutKeepsOthers(chains[b], k);
    WithoutIsPart(chains[b], k);
    var bucket := buckets[b].(count := buckets[b].count - 1);
    bucket := Unlink(bucket, del, chains[b], k);
    buckets[b] := bucket;
    Replaced(buckets, chains, all, b, Without(chains[b], k));
  }
}
