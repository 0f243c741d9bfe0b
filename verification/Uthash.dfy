/**
 * The hash itself: HASH_ADD_KEYPTR, HASH_DELETE, HASH_FIND and HASH_SRT on elements that stand in two
 * linked structures at once, the application-order list and the chain of their bucket.
 */
module Uthash {
  import opened Bytes
  import opened UthashOrder
  import opened UthashList
  import opened UthashBuckets
  import opened UthashExpand

  const HASH_INITIAL_NUM_BUCKETS := 32
  const HASH_INITIAL_NUM_BUCKETS_LOG2 := 5

  lemma InitialBuckets()
    ensures Pow2(HASH_INITIAL_NUM_BUCKETS_LOG2) == HASH_INITIAL_NUM_BUCKETS
  {
    assert Pow2(2) == 4;
  }

  /**
   * The variable a user keeps for the first element, and the table behind it, which exists while that
   * variable is not null.
   */
  class Table {
    const hash: bytes -> nat
    var head: Handle?
    var tail: Handle?
    var numItems: nat
    var buckets: array<Bucket>
    var numBuckets: nat
    var log2NumBuckets: nat
    var idealChainMaxlen: nat
    var nonidealItems: nat
    var ineffExpands: nat
    var noexpand: nat
    ghost var app: seq<Handle>
    ghost var chains: seq<seq<Handle>>

    ghost function All(): set<Handle>
      reads this`app
    {
      set x | x in app
    }

    ghost predicate ListOk()
      reads this`head, this`tail, this`app, this`numItems, All()`next, All()`prev
    {
      Linked(head, tail, app) && NoDup(app) && numItems == |app|
    }

    ghost predicate KeysOk(all: set<Handle>)
      reads all`key, all`hashv
    {
      && (forall x | x in all :: x.hashv == hash(x.key))
      && (forall x, y | x in all && y in all :: x.key == y.key ==> x == y)
    }

    lemma KeysOfPart(all: set<Handle>, part: set<Handle>)
      requires KeysOk(all) && part <= all
      ensures KeysOk(part)
    {
    }

    /** The buckets hold the elements of `s`, which are some of `all`. */
    ghost predicate Holds(s: multiset<Handle>, all: set<Handle>)
      reads this`buckets, this`chains, this`numBuckets, this`log2NumBuckets, this`ineffExpands, this`noexpand
      reads buckets, all`hhPrev, all`hhNext, all`hashv
    {
      && buckets.Length == numBuckets == |chains| == Pow2(log2NumBuckets)
      && BucketsOk(buckets, chains, all) && multiset(Flat(chains)) == s
      && noexpand == (if ineffExpands > 1 then 1 else 0)
    }

    ghost predicate Valid()
      reads this, buckets, All()
    {
      && (head == null <==> app == [])
      && (app != [] ==> ListOk() && KeysOk(All()) && Holds(multiset(app), All()))
    }

    constructor (hash: bytes -> nat)
      ensures Valid() && app == [] && this.hash == hash && fresh(buckets)
    {
      this.hash := hash;
      head, tail, app, chains := null, null, [], [];
      buckets := new Bucket[0];
      numItems, numBuckets, log2NumBuckets := 0, 0, 0;
      idealChainMaxlen, nonidealItems, ineffExpands, noexpand := 0, 0, 0, 0;
    }

    // -------------------------------------------------------------- finding

    /** An element is in the chain that its key leads to. */
    lemma InItsChain(x: Handle)
      requires Valid() && x in app
      ensures BucketOf(hash(x.key), numBuckets) < |chains|
      ensures x in chains[BucketOf(hash(x.key), numBuckets)] && x.hashv == hash(x.key)
    {
      hide BucketOf, Flat;
      assert x in multiset(Flat(chains));
      FlatHolds(chains, x);
      var b :| 0 <= b < |chains| && x in chains[b];
      OneChain(buckets, chains, All(), b);
    }

    lemma ChainInApp(b: nat)
      requires Valid() && app != [] && b < |chains|
      ensures forall x | x in chains[b] :: x in app
      ensures HhChain(buckets[b].head, chains[b])
    {
      OneChain(buckets, chains, All(), b);
    }

    /** HASH_FIND: the element with this key, if and only if there is one. */
    method Find(key: bytes) returns (out: Handle?)
      requires Valid()
      ensures out == null <==> forall x | x in app :: x.key != key
      ensures out != null ==> out in app && out.key == key
    {
      hide BucketOf, Holds, ListOk;
      out := null;
      if head != null {
        assert buckets.Length == numBuckets == |chains| == Pow2(log2NumBuckets) by {
          Sizes();
        }
        MaskIsRemainder(hash(key), log2NumBuckets);
        var bkt := BucketOf(hash(key), numBuckets);
        ChainInApp(bkt);
        out := buckets[bkt].head;
        ghost var left := chains[bkt];
        while out != null
          invariant HhChain(out, left) && forall x | x in left :: x in chains[bkt]
          invariant forall x | x in chains[bkt] && x !in left :: x.key != key
          decreases |left|
        {
          HhChainStep(out, left);
          if out.key == key {
            break;
          }
          assert left == [out] + left[1..];
          out := out.hhNext;
          left := left[1..];
        }
        HhChainStep(out, left);
        if out == null {
          forall x | x in app
            ensures x.key != key
          {
            InItsChain(x);
          }
        }
      }
    }

    lemma Sizes()
      requires Valid() && app != []
      ensures buckets.Length == numBuckets == |chains| == Pow2(log2NumBuckets)
    {
    }

    // -------------------------------------------------------------- adding

    /** What HASH_EXPAND_BUCKETS leaves: the chains are those of `from`, rehashed, and the figures fit them. */
    ghost predicate Expanded(from: seq<seq<Handle>>, log2: nat, ineff: nat)
      reads this`buckets, this`chains, this`numBuckets, this`log2NumBuckets, this`numItems, this`idealChainMaxlen,
            this`nonidealItems, this`ineffExpands, this`app, buckets, All()`hhPrev, All()`hhNext, All()`hashv
    {
      && log2NumBuckets == log2 + 1
      && idealChainMaxlen == IdealChain(numItems, Pow2(log2), log2) && 0 < idealChainMaxlen
      && Moved(buckets, chains, All(), Flat(from), idealChainMaxlen, nonidealItems)
      && ineffExpands == (if nonidealItems > numItems / 2 then ineff + 1 else 0)
    }

    method ExpandBuckets()
      requires Holds(multiset(app), All()) && NoDup(app) && numItems == |app| > 0 && noexpand != 1
      modifies this`buckets, this`chains, this`numBuckets, this`log2NumBuckets, this`idealChainMaxlen,
               this`nonidealItems, this`ineffExpands, this`noexpand, All()`hhNext, All()`hhPrev
      ensures fresh(buckets) && Holds(multiset(app), All())
      ensures Expanded(old(chains), old(log2NumBuckets), old(ineffExpands))
    {
      hide Moved, NoDup, Flat, BucketsOk, IdealChain, Within, Pow2;
      ghost var all, from := All(), chains;
      AllInFlat(from);
      var newBuckets, ideal, nonideal;
      ghost var newChains;
      newBuckets, ideal, nonideal, newChains := Expand(buckets, numItems, log2NumBuckets, from, all);
      MovedHolds(newBuckets, newChains, all, Flat(from), ideal, nonideal);
      DoublePow2(log2NumBuckets);
      Adopt(newBuckets, ideal, nonideal, newChains);
    }

    /** The second half of the expansion: the new buckets take the place of the old ones. */
    method Adopt(newBuckets: array<Bucket>, ideal: nat, nonideal: nat, ghost newChains: seq<seq<Handle>>)
      modifies this`buckets, this`chains, this`numBuckets, this`log2NumBuckets, this`idealChainMaxlen,
               this`nonidealItems, this`ineffExpands, this`noexpand
      ensures buckets == newBuckets && chains == newChains && idealChainMaxlen == ideal && nonidealItems == nonideal
      ensures numBuckets == 2 * old(numBuckets) && log2NumBuckets == old(log2NumBuckets) + 1
      ensures ineffExpands == (if nonideal > numItems / 2 then old(ineffExpands) + 1 else 0)
      ensures noexpand == if ineffExpands > 1 then 1 else old(noexpand)
    {
      numBuckets := numBuckets * 2;
      log2NumBuckets := log2NumBuckets + 1;
      buckets, chains, idealChainMaxlen, nonidealItems := newBuckets, newChains, ideal, nonideal;
      ineffExpands := if nonidealItems > numItems / 2 then ineffExpands + 1 else 0;
      if ineffExpands > 1 {
        noexpand := 1;
      }
    }

    lemma AllInFlat(from: seq<seq<Handle>>)
      requires NoDup(app) && multiset(Flat(from)) == multiset(app)
      ensures NoDup(Flat(from)) && |Flat(from)| == |app|
    {
      NoDupSame(app, Flat(from));
      SameElements(app, Flat(from));
    }

    /** HASH_ADD_TO_BKT. */
    method AddToBkt(b: nat, addhh: Handle)
      requires buckets.Length == numBuckets == |chains| == Pow2(log2NumBuckets) && b < numBuckets
      requires addhh in app && addhh !in Flat(chains) && BucketOf(addhh.hashv, numBuckets) == b
      requires Holds(multiset(app) - multiset{addhh}, All()) && NoDup(app) && numItems == |app|
      modifies this`buckets, this`chains, this`numBuckets, this`log2NumBuckets, this`idealChainMaxlen,
               this`nonidealItems, this`ineffExpands, this`noexpand, buckets, All()`hhNext, All()`hhPrev
      ensures Holds(multiset(app), All()) && (buckets == old(buckets) || fresh(buckets))
      ensures var full := |old(chains)[b]| + 1 >= (old(buckets[b].expandMult) + 1) * 10;
              var added := old(chains)[b := [addhh] + old(chains)[b]];
              if full && old(noexpand) != 1 then Expanded(added, old(log2NumBuckets), old(ineffExpands))
              else buckets == old(buckets) && chains == added && SameFigures()
    {
      hide NoDup, Flat, BucketsOk, Expanded, BucketOf, Pow2;
      OneChain(buckets, chains, All(), b);
      FlatHolds(chains, addhh);
      var bkt := buckets[b].(count := buckets[b].count + 1);
      ghost var added := chains[b := [addhh] + chains[b]];
      FlatUpdate(chains, b, [addhh] + chains[b]);
      PutBack(Flat(chains), Flat(added), chains[b], app, addhh);
      Install(buckets, b, bkt, addhh, chains, All());
      chains := added;
      assert buckets[..][b] == buckets[b];
      if buckets[b].count >= (buckets[b].expandMult + 1) * HASH_BKT_CAPACITY_THRESH && noexpand != 1 {
        ExpandBuckets();
      }
    }

    /** The bucket count and the expansion figures are as before. */
    twostate predicate SameFigures()
      reads this
    {
      && numBuckets == old(numBuckets) && log2NumBuckets == old(log2NumBuckets)
      && idealChainMaxlen == old(idealChainMaxlen) && nonidealItems == old(nonidealItems)
      && ineffExpands == old(ineffExpands) && noexpand == old(noexpand)
    }

    /** HASH_MAKE_TABLE for the first element. */
    method MakeTable(add: Handle)
      requires app == [add]
      modifies this`tail, this`numItems, this`buckets, this`numBuckets, this`log2NumBuckets, this`idealChainMaxlen,
               this`nonidealItems, this`ineffExpands, this`noexpand, this`chains
      ensures fresh(buckets) && tail == add && numItems == 0 && Holds(multiset{}, {})
      ensures numBuckets == 32 && log2NumBuckets == 5 && ineffExpands == 0 && noexpand == 0
      ensures idealChainMaxlen == 0 && nonidealItems == 0
      ensures forall b | 0 <= b < numBuckets :: buckets[b] == EmptyBucket
      ensures chains == seq(numBuckets, _ => [])
    {
      hide BucketsOk, Moved, Flat;
      tail := add;
      numBuckets, log2NumBuckets := HASH_INITIAL_NUM_BUCKETS, HASH_INITIAL_NUM_BUCKETS_LOG2;
      numItems, idealChainMaxlen, nonidealItems, ineffExpands, noexpand := 0, 0, 0, 0, 0;
      buckets := new Bucket[HASH_INITIAL_NUM_BUCKETS](_ => EmptyBucket);
      chains := seq(HASH_INITIAL_NUM_BUCKETS, _ => []);
      InitialBuckets();
      EmptyTable(buckets, chains, {}, 1);
      MovedHolds(buckets, chains, {}, [], 1, 0);
    }

    /** The first half of HASH_ADD_KEYPTR: the element joins the application order. */
    method JoinList(add: Handle, key: bytes)
      requires Valid() && add !in app
      modifies this, add`next, add`prev, add`key, All()`next
      ensures app == old(app) + [add] && add.key == key && head != null
      ensures ListOk() && Holds(multiset(old(app)), old(All()))
      ensures if old(app) == [] then
                && fresh(buckets) && numBuckets == 32 && ineffExpands == 0 && noexpand == 0
                && idealChainMaxlen == 0 && nonidealItems == 0
                && (forall b | 0 <= b < numBuckets :: buckets[b] == EmptyBucket)
                && chains == seq(numBuckets, _ => [])
              else buckets == old(buckets) && chains == old(chains) && SameFigures()
    {
      hide NoDup, Holds, BucketsOk, Linked;
      add.next := null;
      add.key := key;
      if head == null {
        head := add;
        add.prev := null;
        app := [add];
        MakeTable(add);
        assert old(All()) == {};
        SingleLinked(add);
      } else {
        AppendLast(add);
      }
      numItems := numItems + 1;
    }

    /** Adding to bucket `b` makes it so long that the table expands, unless that was given up. */
    ghost predicate Overfull(b: nat)
      requires b < |chains| && b < buckets.Length
      reads this`chains, this`buckets, this`noexpand, buckets
    {
      |chains[b]| + 1 >= (buckets[b].expandMult + 1) * 10 && noexpand != 1
    }

    /** HASH_ADD_KEYPTR, for a key that is not in the hash. */
    method Add(add: Handle, key: bytes)
      requires Valid() && add !in app && forall x | x in app :: x.key != key
      modifies this, buckets, All()`next, All()`hhNext, All()`hhPrev
      modifies add`next, add`prev, add`key, add`hashv, add`hhNext, add`hhPrev
      ensures Valid() && app == old(app) + [add] && add.key == key
      ensures buckets == old(buckets) || fresh(buckets)
      ensures old(app) == [] ==>
                numBuckets == 32 && idealChainMaxlen == nonidealItems == ineffExpands == noexpand == 0
      ensures old(app) != [] ==>
                && old(buckets).Length == old(numBuckets) == |old(chains)| > 0
                && var b := BucketOf(hash(key), old(numBuckets));
                   && b < old(numBuckets)
                   && var added := old(chains)[b := [add] + old(chains)[b]];
                      if old(Overfull(b)) then Expanded(added, old(log2NumBuckets), old(ineffExpands))
                      else chains == added && SameFigures()
    {
      hide NoDup, Holds, BucketsOk, ListOk, KeysOk, Expanded, BucketOf, Pow2;
      JoinKeyed(add, key);
      ReadyToAdd(old(app), add);
      MaskIsRemainder(add.hashv, log2NumBuckets);
      AddToBkt(BucketOf(add.hashv, numBuckets), add);
    }

    /** The first half, and the hash value. */
    method JoinKeyed(add: Handle, key: bytes)
      requires Valid() && add !in app && forall x | x in app :: x.key != key
      modifies this, add`next, add`prev, add`key, add`hashv, All()`next
      ensures app == old(app) + [add] && add.key == key && add.hashv == hash(key) && head != null
      ensures ListOk() && KeysOk(All()) && Holds(multiset(old(app)), All())
      ensures if old(app) == [] then
                && fresh(buckets) && numBuckets == 32 && ineffExpands == 0 && noexpand == 0
                && idealChainMaxlen == 0 && nonidealItems == 0
                && (forall b | 0 <= b < numBuckets :: buckets[b] == EmptyBucket)
                && chains == seq(numBuckets, _ => [])
              else buckets == old(buckets) && chains == old(chains) && SameFigures()
    {
      hide NoDup, Holds, Linked;
      JoinList(add, key);
      add.hashv := hash(key);
      HoldsMore(multiset(old(app)), old(All()), All());
    }

    lemma ReadyToAdd(before: seq<Handle>, add: Handle)
      requires app == before + [add] && add !in before && Holds(multiset(before), All()) && ListOk()
      ensures NoDup(app) && numItems == |app|
      ensures buckets.Length == numBuckets == |chains| == Pow2(log2NumBuckets)
      ensures Holds(multiset(app) - multiset{add}, All()) && add !in Flat(chains)
    {
      hide BucketsOk, Flat;
      assert multiset(app) - multiset{add} == multiset(before);
      assert add in Flat(chains) <==> add in multiset(before);
    }

    /** Append to a list that is not empty. */
    method AppendLast(add: Handle)
      requires head != null && Linked(head, tail, app) && NoDup(app) && add !in app && add.next == null && app != []
      modifies this`tail, this`app, add`prev, All()`next
      ensures app == old(app) + [add] && Linked(head, tail, app) && NoDup(app) && tail == add
    {
      hide NoDup;
      NoDupLast(app, add);
      tail.next := add;
      add.prev := tail;
      BuiltAppend(head, tail, add, app);
      tail := add;
      app := app + [add];
    }

    lemma HoldsMore(s: multiset<Handle>, all: set<Handle>, more: set<Handle>)
      requires Holds(s, all) && all <= more
      ensures Holds(s, more)
    {
    }

    // -------------------------------------------------------------- deleting

    /** HASH_DELETE; deleting the last element frees the table. */
    method Delete(del: Handle)
      requires Valid() && del in app
      modifies this, buckets, All()`next, All()`prev, All()`hhNext, All()`hhPrev
      ensures Valid() && app == Without(old(app), IndexOf(old(app), del)) && buckets == old(buckets)
      ensures app != [] ==>
                && SameFigures() && old(numBuckets == |chains| > 0)
                && var b := BucketOf(hash(del.key), numBuckets);
                   && b < |old(chains)| && del in old(chains)[b]
                   && chains == old(chains)[b := Without(old(chains)[b], IndexOf(old(chains)[b], del))]
    {
      hide NoDup, BucketOf, Without, IndexOf, ListOk, KeysOk, Holds;
      ghost var k, all := IndexOf(app, del), All();
      OnlyElement(k);
      WithoutKeepsOthers(app, k);
      InItsChain(del);
      Sizes();
      if del.prev == null && del.next == null {
        head := null;
        app := [];
      } else {
        LeaveList(del, k);
        var bkt := BucketOf(del.hashv, numBuckets);
        Depart(del, bkt, all);
      }
    }

    /** The first half: the element leaves the application order. */
    method LeaveList(del: Handle, ghost k: nat)
      requires ListOk() && KeysOk(All()) && k < |app| && app[k] == del && |app| > 1 && head != null
      modifies this`head, this`tail, this`app, this`numItems, All()`next, All()`prev
      ensures ListOk() && KeysOk(All()) && app == Without(old(app), k) && head != null && app != []
    {
      hide NoDup, Without, Linked, KeysOk;
      WithoutKeepsOthers(app, k);
      WithoutIsPart(app, k);
      ghost var left := Without(app, k);
      ghost var others := set x | x in left;
      KeysOfPart(All(), others);
      LinkedIsChain(head, tail, app);
      var first, last := RemoveFromList(head, tail, del, app, k);
      LinkedIsChain(first, last, left);
      head, tail, app, numItems := first, last, left, numItems - 1;
      assert All() == others;
    }

    lemma OnlyElement(k: nat)
      requires Valid() && k < |app|
      ensures app[k].prev == null && app[k].next == null <==> |app| == 1
      ensures |app| == 1 ==> Without(app, k) == []
    {
      OthersDiffer(app, k);
    }

    /** The second half: the element leaves its chain. */
    method Depart(del: Handle, b: nat, ghost all: set<Handle>)
      requires b < |chains| && del in chains[b] && Holds(multiset(app) + multiset{del}, all)
      modifies this`chains, buckets, all`hhNext, all`hhPrev
      ensures chains == old(chains)[b := Without(old(chains)[b], IndexOf(old(chains)[b], del))]
      ensures Holds(multiset(app), All())
    {
      hide NoDup, BucketsOk, BucketOf, Without, Flat;
      ghost var k := IndexOf(chains[b], del);
      ghost var left := Without(chains[b], k);
      FlatUpdate(chains, b, left);
      WithoutKeepsOthers(chains[b], k);
      DelInBkt(buckets, b, del, k, chains, all);
      TakeAway(Flat(chains), Flat(chains[b := left]), chains[b], left, app, del);
      chains := chains[b := left];
      HoldsJust(all);
    }

    lemma HoldsJust(all: set<Handle>)
      requires Holds(multiset(app), all)
      ensures Holds(multiset(app), All())
    {
      SameElements(Flat(chains), app);
      forall b, x | 0 <= b < |chains| && x in chains[b]
        ensures x in app
      {
        FlatHolds(chains, x);
      }
    }

    // -------------------------------------------------------------- sorting

    /**
     * HASH_SRT: the application order is sorted by the user's comparison of what is in the elements, for
     * which `order` stands; the buckets are as they were.
     */
    method Sort(cmp: (Fields, Fields) -> int, ghost order: (Handle, Handle) -> int)
      requires Valid() && Reflects(cmp, order, All())
      modifies this`head, this`tail, this`app, All()`next, All()`prev
      ensures Valid() && app == UthashOrder.Sort(order, old(app), 1)
    {
      hide KeysOk, Holds, ListOk, UthashOrder.Sort, Reflects;
      if head != null {
        SortList(cmp, order);
      }
    }

    method SortList(cmp: (Fields, Fields) -> int, ghost order: (Handle, Handle) -> int)
      requires Reflects(cmp, order, All()) && ListOk() && KeysOk(All()) && head != null && app != []
      modifies this`head, this`tail, this`app, All()`next, All()`prev
      ensures ListOk() && KeysOk(All()) && head != null
      ensures app == UthashOrder.Sort(order, old(app), 1) && multiset(app) == multiset(old(app)) && All() == old(All())
    {
      hide NoDup, Linked, KeysOk, UthashOrder.Sort, Within, Reflects;
      ghost var sorted := UthashOrder.Sort(order, app, 1);
      SortFacts(order, app);
      ghost var all := All();
      var first, last := HashSort(cmp, order, head, tail, app);
      LinkedIsChain(first, last, sorted);
      head, tail, app := first, last, sorted;
      assert All() == all;
    }
  }

  lemma SortFacts(cmp: (Handle, Handle) -> int, s: seq<Handle>)
    requires NoDup(s)
    ensures var t := UthashOrder.Sort(cmp, s, 1);
            NoDup(t) && Within(t, s) && multiset(t) == multiset(s) && (set x | x in t) == (set x | x in s)
  {
    hide NoDup, UthashOrder.Sort;
    var t := UthashOrder.Sort(cmp, s, 1);
    SortKeepsElements(cmp, s, 1);
    SameElements(s, t);
    NoDupSame(s, t);
    SameSet(s, t);
  }

  lemma SameSet(s: seq<Handle>, t: seq<Handle>)
    requires Within(s, t) && Within(t, s)
    ensures (set x | x in s) == (set x | x in t)
  {
  }

  lemma TakeAway(flat: seq<Handle>, flat': seq<Handle>, chain: seq<Handle>, left: seq<Handle>, app: seq<Handle>,
                 h: Handle)
    requires multiset(flat) == multiset(app) + multiset{h}
    requires multiset(chain) == multiset(left) + multiset{h}
    requires multiset(flat') + multiset(chain) == multiset(flat) + multiset(left)
    ensures multiset(flat') == multiset(app)
  {
    assert multiset(flat') == multiset(flat') + multiset(chain) - multiset(chain);
  }

  lemma SingleLinked(h: Handle)
    requires h.next == null && h.prev == null
    ensures Linked(h, h, [h]) && NoDup([h]) && [] + [h] == [h]
  {
  }

  lemma NoDupLast(s: seq<Handle>, h: Handle)
    requires (NoDup(s) || s == []) && h !in s
    ensures NoDup(s + [h])
    ensures s != [] && NoDup(s) ==> forall i | 0 <= i < |s| - 1 :: s[i] != s[|s| - 1]
  {
    assert multiset(s + [h]) == multiset(s) + multiset{h};
    if s != [] {
      OthersDiffer(s, |s| - 1);
    }
  }

  lemma PutBack(flat: seq<Handle>, flat': seq<Handle>, chain: seq<Handle>, app: seq<Handle>, h: Handle)
    requires multiset(flat) == multiset(app) - multiset{h} && h in app
    requires multiset(flat') + multiset(chain) == multiset(flat) + multiset([h] + chain)
    ensures multiset(flat') == multiset(app)
  {
    assert multiset([h] + chain) == multiset{h} + multiset(chain);
    assert multiset(flat') == multiset(flat') + multiset(chain) - multiset(chain);
    assert h in multiset(app);
  }

  lemma MovedHolds(buckets: array<Bucket>, chains: seq<seq<Handle>>, all: set<Handle>, moved: seq<Handle>,
                   ideal: nat, nonideal: nat)
    requires 0 < ideal && Moved(buckets, chains, all, moved, ideal, nonideal)
    ensures BucketsOk(buckets, chains, all) && buckets.Length == |chains|
    ensures multiset(Flat(chains)) == multiset(moved)
  {
  }
}
