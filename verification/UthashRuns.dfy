/** HASH_FSCK, and runs of additions, deletions, sorts and lookups on one hash. */
module UthashRuns {
  import opened Bytes
  import opened UthashOrder
  import opened UthashList
  import opened UthashBuckets
  import opened UthashExpand
  import opened Uthash

  // ---------------------------------------------------------------- the integrity check

  lemma {:induction false} FlatLength(chains: seq<seq<Handle>>, k: nat)
    requires k < |chains|
    ensures |Flat(chains[..k + 1])| == |Flat(chains[..k])| + |chains[k]|
  {
    assert chains[..k + 1][..k] == chains[..k];
  }

  /** The count of a bucket is that of its chain, whose links lead back as well. */
  ghost predicate BucketSound(bucket: Bucket, s: seq<Handle>)
    reads s`hhPrev
  {
    bucket.count == |s| && forall i | 0 <= i < |s| :: s[i].hhPrev == At(s, i - 1)
  }

  /** So do those of the application order, which has as many elements as it should. */
  ghost predicate OrderSound(numItems: nat, s: seq<Handle>)
    reads s`prev
  {
    numItems == |s| && forall i | 0 <= i < |s| :: s[i].prev == At(s, i - 1)
  }

  /** The part of HASH_FSCK that walks one bucket. */
  method CheckBucket(bucket: Bucket, ghost s: seq<Handle>) returns (ok: bool, count: nat)
    requires HhChain(bucket.head, s)
    ensures ok <==> BucketSound(bucket, s)
    ensures ok ==> count == |s|
  {
    count := 0;
    var thh, prev := bucket.head, null;
    while thh != null
      invariant count <= |s| && thh == At(s, count) && prev == At(s, count - 1)
      invariant forall i | 0 <= i < count :: s[i].hhPrev == At(s, i - 1)
      decreases |s| - count
    {
      if prev != thh.hhPrev {
        return false, count;
      }
      count := count + 1;
      prev := thh;
      thh := thh.hhNext;
    }
    ok := bucket.count == count;
  }

  /** The part that walks the application order. */
  method CheckOrder(head: Handle?, numItems: nat, ghost s: seq<Handle>) returns (ok: bool)
    requires Chain(head, s)
    ensures ok <==> OrderSound(numItems, s)
  {
    var count: nat, thh: Handle?, prev: Handle? := 0, head, null;
    while thh != null
      invariant count <= |s| && thh == At(s, count) && prev == At(s, count - 1)
      invariant forall i | 0 <= i < count :: s[i].prev == At(s, i - 1)
      decreases |s| - count
    {
      if prev != thh.prev {
        return false;
      }
      count := count + 1;
      prev := thh;
      thh := thh.next;
    }
    ok := count == numItems;
  }

  /** The links forward lead through these chains and this order, and come to an end. */
  ghost predicate Walks(t: Table, chains: seq<seq<Handle>>, order: seq<Handle>)
    reads *
  {
    && |chains| == t.numBuckets == t.buckets.Length && Chain(t.head, order)
    && forall b | 0 <= b < |chains| :: HhChain(t.buckets[b].head, chains[b])
  }

  /** Nothing that HASH_FSCK looks at is wrong. */
  ghost predicate Sound(t: Table, chains: seq<seq<Handle>>, order: seq<Handle>)
    requires |chains| <= t.buckets.Length
    reads *
  {
    && (forall b | 0 <= b < |chains| :: BucketSound(t.buckets[b], chains[b]))
    && |Flat(chains)| == t.numItems && OrderSound(t.numItems, order)
  }

  /** HASH_FSCK on any table whose links forward end: it passes exactly the sound ones. */
  method Fsck(t: Table, ghost chains: seq<seq<Handle>>, ghost order: seq<Handle>) returns (ok: bool)
    requires t.head != null ==> Walks(t, chains, order)
    ensures ok <==> t.head == null || Sound(t, chains, order)
  {
    hide HhChain, BucketSound, OrderSound, Flat;
    ok := true;
    if t.head != null {
      var count := 0;
      FlatOfNone();
      assert chains[..0] == [] && chains[..|chains|] == chains;
      for i := 0 to t.numBuckets
        invariant ok && count == |Flat(chains[..i])|
        invariant forall b | 0 <= b < i :: BucketSound(t.buckets[b], chains[b])
      {
        var bucketCount;
        ok, bucketCount := CheckBucket(t.buckets[i], chains[i]);
        if !ok {
          return;
        }
        FlatLength(chains, i);
        count := count + bucketCount;
      }
      if count != t.numItems {
        return false;
      }
      ok := CheckOrder(t.head, t.numItems, order);
    }
  }

  /** A valid table is sound. */
  lemma ValidIsSound(t: Table)
    requires t.Valid() && t.head != null
    ensures Walks(t, t.chains, t.app) && Sound(t, t.chains, t.app)
  {
    hide HhLinked, Linked, NoDup, Flat, BucketsOk, HhChain, BucketSound, OrderSound;
    t.Sizes();
    SameElements(Flat(t.chains), t.app);
    forall b | 0 <= b < |t.chains|
      ensures HhChain(t.buckets[b].head, t.chains[b]) && BucketSound(t.buckets[b], t.chains[b])
    {
      OneChain(t.buckets, t.chains, t.All(), b);
      LinkedIsSound(t.buckets[b], t.chains[b]);
    }
    LinkedOrder(t.head, t.tail, t.app);
  }

  lemma LinkedIsSound(bucket: Bucket, s: seq<Handle>)
    requires HhLinked(bucket.head, s) && bucket.count == |s|
    ensures HhChain(bucket.head, s) && BucketSound(bucket, s)
  {
  }

  lemma LinkedOrder(head: Handle?, tail: Handle?, s: seq<Handle>)
    requires Linked(head, tail, s)
    ensures Chain(head, s) && OrderSound(|s|, s)
  {
    LinkedIsChain(head, tail, s);
  }

  // ---------------------------------------------------------------- runs

  /** The operations of a user; an element comes with what the user has put into it. */
  datatype Op =
    | Add(elt: Handle, key: bytes, data: bytes)
    | Delete(elt: Handle)
    | Sort(cmp: (Fields, Fields) -> int)

  /** What a hash stands for: its elements in application order, and what is in each. */
  datatype Model = Model(order: seq<Handle>, fields: map<Handle, Fields>)

  predicate Keyed(m: Model) {
    forall x | x in m.order :: x in m.fields
  }

  /** Added elements and keys must be new, deleted elements must be there. */
  ghost predicate Legal(m: Model, op: Op)
    requires Keyed(m)
  {
    match op
    case Add(elt, key, _) => elt !in m.order && forall x | x in m.order :: m.fields[x].key != key
    case Delete(elt) => elt in m.order
    case Sort(_) => true
  }

  function Step(m: Model, op: Op): (r: Model)
    requires Keyed(m) && (op.Delete? ==> op.elt in m.order)
    ensures Keyed(r) && forall x | x in r.order :: x in m.order || (op.Add? && x == op.elt)
  {
    match op
    case Add(elt, key, data) => Model(m.order + [elt], m.fields[elt := Fields(key, data)])
    case Delete(elt) =>
      WithoutIsPart(m.order, IndexOf(m.order, elt));
      Model(Without(m.order, IndexOf(m.order, elt)), m.fields)
    case Sort(cmp) =>
      var order := ByFields(cmp, m.fields);
      SortKeepsElements(order, m.order, 1);
      SameElements(m.order, UthashOrder.Sort(order, m.order, 1));
      Model(UthashOrder.Sort(order, m.order, 1), m.fields)
  }

  ghost predicate LegalRun(m: Model, ops: seq<Op>)
    requires Keyed(m)
    decreases |ops|
  {
    ops == [] || (Legal(m, ops[0]) && LegalRun(Step(m, ops[0]), ops[1..]))
  }

  ghost function Run(m: Model, ops: seq<Op>): (r: Model)
    requires Keyed(m) && LegalRun(m, ops)
    ensures Keyed(r)
    decreases |ops|
  {
    if ops == [] then m else Run(Step(m, ops[0]), ops[1..])
  }

  function Elements(ops: seq<Op>): set<Handle> {
    if ops == [] then {} else (if ops[0].Add? then {ops[0].elt} else {}) + Elements(ops[1..])
  }

  /** The hash holds the elements of the model, in its order and with their fields. */
  ghost predicate Represents(t: Table, m: Model)
    reads t, t.buckets, t.All()
  {
    t.Valid() && Keyed(m) && t.app == m.order && forall x | x in m.order :: x.Contents() == m.fields[x]
  }

  method Perform(t: Table, op: Op, ghost m: Model)
    requires Represents(t, m) && Legal(m, op) && (op.Add? ==> op.elt.data == op.data)
    modifies t, t.buckets, t.All()`next, t.All()`prev, t.All()`hhNext, t.All()`hhPrev
    modifies (if op.Add? then {op.elt} else {})`next, (if op.Add? then {op.elt} else {})`prev,
             (if op.Add? then {op.elt} else {})`hhNext, (if op.Add? then {op.elt} else {})`hhPrev,
             (if op.Add? then {op.elt} else {})`key, (if op.Add? then {op.elt} else {})`hashv
    ensures Represents(t, Step(m, op)) && (t.buckets == old(t.buckets) || fresh(t.buckets))
  {
    hide Table.Valid, Table.Expanded, Table.Overfull, BucketOf, UthashOrder.Sort, Without, IndexOf, ByFields;
    match op {
      case Add(elt, key, _) => t.Add(elt, key);
      case Delete(elt) =>
        WithoutIsPart(m.order, IndexOf(m.order, elt));
        t.Delete(elt);
      case Sort(cmp) =>
        ghost var order := ByFields(cmp, m.fields);
        ByFieldsReflects(cmp, m.fields, t.All());
        SortKeepsElements(order, m.order, 1);
        SameElements(m.order, UthashOrder.Sort(order, m.order, 1));
        t.Sort(cmp, order);
    }
  }

  const Empty := Model([], map[])

  /** The elements hold what the run says they do when they are added. */
  ghost predicate Filled(ops: seq<Op>)
    reads set op | op in ops && op.Add? :: op.elt
  {
    forall op | op in ops && op.Add? :: op.elt.data == op.data
  }

  /** After any legal run from an empty hash, a lookup finds the element that has the key in the model. */
  method RunThenFind(hash: bytes -> nat, ops: seq<Op>, key: bytes) returns (t: Table, out: Handle?)
    requires LegalRun(Empty, ops) && Filled(ops)
    modifies Elements(ops)
    ensures Represents(t, Run(Empty, ops))
    ensures var m := Run(Empty, ops);
            if out == null then forall x | x in m.order :: m.fields[x].key != key
            else out in m.order && m.fields[out].key == key
  {
    hide Table.Valid, Step;
    t := new Table(hash);
    ghost var m := Empty;
    ghost var left := ops;
    for i := 0 to |ops|
      invariant fresh(t) && fresh(t.buckets) && left == ops[i..]
      invariant Represents(t, m) && LegalRun(m, left) && Run(m, left) == Run(Empty, ops)
      invariant t.All() <= Elements(ops) && Elements(left) <= Elements(ops) && Filled(left)
    {
      Perform(t, ops[i], m);
      m := Step(m, ops[i]);
      left := left[1..];
    }
    out := t.Find(key);
  }
}
