/**
 * The application-order list that runs through the elements of a hash, and HASH_SRT, which sorts it in
 * place by relinking.  An element and its hash handle are one object here.
 */
module UthashList {
  import opened Bytes
  import opened UthashOrder

  /** The part of an element that a comparison may look at: its key and whatever else the user keeps in it. */
  datatype Fields = Fields(key: bytes, data: bytes)

  class Handle {
    var prev: Handle?
    var next: Handle?
    var hhPrev: Handle?
    var hhNext: Handle?
    var key: bytes
    var hashv: nat
    var data: bytes

    constructor (data: bytes)
      ensures this.data == data
    {
      prev, next, hhPrev, hhNext := null, null, null, null;
      key, hashv, this.data := [], 0, data;
    }

    function Contents(): Fields
      reads this`key, this`data
    {
      Fields(key, data)
    }
  }

  /** The element at a place, or null beside the sequence. */
  function At(s: seq<Handle>, i: int): Handle? {
    if 0 <= i < |s| then s[i] else null
  }

  /** No element occurs twice. */
  ghost predicate NoDup(s: seq<Handle>) {
    forall x | x in s :: multiset(s)[x] == 1
  }

  lemma NoDupParts(a: seq<Handle>, b: seq<Handle>)
    requires NoDup(a + b)
    ensures NoDup(a) && NoDup(b)
    ensures forall x | x in a :: x !in b
    ensures forall x | x in b :: x !in a
  {
    forall x | x in a || x in b
      ensures multiset(a)[x] + multiset(b)[x] == 1
    {
      assert x in a + b && multiset(a + b) == multiset(a) + multiset(b);
    }
  }

  lemma NoDupSame(a: seq<Handle>, b: seq<Handle>)
    requires NoDup(a) && multiset(a) == multiset(b)
    ensures NoDup(b)
  {
    SameElements(a, b);
  }

  lemma NoDupIndices(s: seq<Handle>, i: nat, j: nat)
    requires NoDup(s) && i < j < |s|
    ensures s[i] != s[j]
  {
    var a, b := s[..j], s[j..];
    assert s == a + b && a[i] in a && b[0] in b;
    NoDupParts(a, b);
  }

  lemma OthersDiffer(s: seq<Handle>, k: nat)
    requires NoDup(s) && k < |s|
    ensures forall i | 0 <= i < |s| && i != k :: s[i] != s[k]
  {
    forall i | 0 <= i < |s| && i != k
      ensures s[i] != s[k]
    {
      if i < k {
        NoDupIndices(s, i, k);
      } else {
        NoDupIndices(s, k, i);
      }
    }
  }

  /** The places beside place `k` are each held by one element only, and so is the first. */
  lemma Neighbours(s: seq<Handle>, k: nat)
    requires NoDup(s) && k < |s|
    ensures forall i | 0 <= i < |s| && i != k - 1 :: s[i] != At(s, k - 1)
    ensures forall i | 0 <= i < |s| && i != k + 1 :: s[i] != At(s, k + 1)
    ensures s[0] == s[k] <==> k == 0
    ensures s[|s| - 1] == s[k] <==> k == |s| - 1
    ensures At(s, k - 1) != null ==> At(s, k - 1) in s
    ensures At(s, k + 1) != null ==> At(s, k + 1) in s
  {
    if k > 0 {
      OthersDiffer(s, k - 1);
    }
    if k + 1 < |s| {
      OthersDiffer(s, k + 1);
    }
    OthersDiffer(s, k);
  }

  function Without(s: seq<Handle>, i: nat): (r: seq<Handle>)
    requires i < |s|
  {
    s[..i] + s[i + 1..]
  }

  function IndexOf(s: seq<Handle>, x: Handle): (i: nat)
    requires x in s
    ensures i < |s| && s[i] == x
  {
    if s[0] == x then 0 else 1 + IndexOf(s[1..], x)
  }

  lemma WithoutIsPart(s: seq<Handle>, i: nat)
    requires i < |s|
    ensures |Without(s, i)| == |s| - 1 && forall x | x in Without(s, i) :: x in s
  {
  }

  lemma WithoutKeepsOthers(s: seq<Handle>, i: nat)
    requires i < |s|
    ensures multiset(s) == multiset(Without(s, i)) + multiset{s[i]}
    ensures NoDup(s) ==> NoDup(Without(s, i)) && s[i] !in Without(s, i)
  {
    var r := Without(s, i);
    assert s == s[..i] + [s[i]] + s[i + 1..];
    assert multiset(s) == multiset(r) + multiset{s[i]};
    if NoDup(s) {
      NoDupSame(s, r + [s[i]]);
      NoDupParts(r, [s[i]]);
      assert s[i] in [s[i]];
    }
  }

  // ---------------------------------------------------------------- links

  /** `next` leads from `from` through exactly the elements of `s`. */
  ghost predicate Chain(from: Handle?, s: seq<Handle>)
    reads s`next
  {
    from == At(s, 0) && forall i | 0 <= i < |s| :: s[i].next == At(s, i + 1)
  }

  /** The same for a run that something else follows. */
  ghost predicate Run(from: Handle?, s: seq<Handle>)
    reads s`next
  {
    (s != [] ==> from == s[0]) && forall i | 0 <= i < |s| - 1 :: s[i].next == At(s, i + 1)
  }

  /** A list under construction: the last `next` is not set yet. */
  ghost predicate Built(list: Handle?, tail: Handle?, s: seq<Handle>)
    reads s`next, s`prev
  {
    && list == At(s, 0) && tail == At(s, |s| - 1)
    && (forall i | 0 <= i < |s| - 1 :: s[i].next == At(s, i + 1))
    && forall i | 0 <= i < |s| :: s[i].prev == At(s, i - 1)
  }

  /** A whole list, linked both ways. */
  ghost predicate Linked(head: Handle?, tail: Handle?, s: seq<Handle>)
    reads s`next, s`prev
  {
    Built(head, tail, s) && (s != [] ==> s[|s| - 1].next == null)
  }

  lemma ChainStep(from: Handle?, s: seq<Handle>)
    requires Chain(from, s)
    ensures from == null <==> s == []
    ensures s != [] ==> from == s[0] && Chain(s[0].next, s[1..])
  {
  }

  lemma RunStep(from: Handle?, s: seq<Handle>)
    requires Run(from, s) && s != []
    ensures from == s[0] && Run(s[0].next, s[1..])
  {
  }

  lemma ChainSplit(from: Handle?, s: seq<Handle>, n: nat)
    requires Chain(from, s) && n <= |s|
    ensures Run(from, s[..n]) && Chain(At(s, n), s[n..])
  {
  }

  // ---------------------------------------------------------------- removal

  /** The links of a list whose element `k` was patched out. */
  lemma ListWithout(head: Handle?, tail: Handle?, s: seq<Handle>, k: nat)
    requires k < |s|
    requires forall i | 0 <= i < |s| && i != k - 1 :: s[i].next == At(s, i + 1)
    requires forall i | 0 <= i < |s| && i != k + 1 :: s[i].prev == At(s, i - 1)
    requires k > 0 ==> s[k - 1].next == At(s, k + 1)
    requires k + 1 < |s| ==> s[k + 1].prev == At(s, k - 1)
    requires head == if k == 0 then At(s, 1) else s[0]
    requires tail == if k == |s| - 1 then At(s, k - 1) else s[|s| - 1]
    ensures Linked(head, tail, Without(s, k))
  {
    var t := Without(s, k);
    forall i | 0 <= i < |t|
      ensures t[i].prev == At(t, i - 1) && t[i].next == At(t, i + 1)
    {
      if i < k {
        assert t[i] == s[i];
      } else {
        assert t[i] == s[i + 1];
      }
    }
  }

  /** Let two neighbours skip what is between them. */
  method Bridge(before: Handle?, after: Handle?)
    modifies (if before == null then {} else {before})`next, (if after == null then {} else {after})`prev
    ensures before != null ==> before.next == after
    ensures after != null ==> after.prev == before
  {
    if before != null {
      before.next := after;
    }
    if after != null {
      after.prev := before;
    }
  }

  /** The patch-up of HASH_DELETE, for a list of at least two elements. */
  method RemoveFromList(head: Handle, tail: Handle, del: Handle, ghost s: seq<Handle>, ghost k: nat)
    returns (first: Handle?, last: Handle?)
    requires Linked(head, tail, s) && NoDup(s) && k < |s| && s[k] == del && |s| > 1
    modifies (set x | x in s)`next, (set x | x in s)`prev
    ensures Linked(first, last, Without(s, k))
  {
    hide NoDup, Without;
    ghost var before, after := At(s, k - 1), At(s, k + 1);
    Neighbours(s, k);
    LinkedIsChain(head, tail, s);
    first, last := head, tail;
    if del == tail {
      last := del.prev;
    }
    if del.prev == null {
      first := del.next;
    }
    assert del.prev == before && del.next == after;
    Bridge(del.prev, del.next);
    ListWithout(first, last, s, k);
  }

  // ---------------------------------------------------------------- sorting

  /** `order` compares elements as the user's `cmp` compares what is in them. */
  ghost predicate Reflects(cmp: (Fields, Fields) -> int, order: (Handle, Handle) -> int, all: set<Handle>)
    reads all`key, all`data
  {
    forall a, b | a in all && b in all :: order(a, b) == cmp(a.Contents(), b.Contents())
  }

  lemma Reflected(cmp: (Fields, Fields) -> int, order: (Handle, Handle) -> int, all: set<Handle>, a: Handle, b: Handle)
    requires Reflects(cmp, order, all) && a in all && b in all
    ensures order(a, b) == cmp(a.Contents(), b.Contents())
  {
  }

  /** Such an order, given what is in the elements. */
  function ByFields(cmp: (Fields, Fields) -> int, fields: map<Handle, Fields>): (Handle, Handle) -> int {
    (a, b) => if a in fields && b in fields then cmp(fields[a], fields[b]) else 0
  }

  lemma ByFieldsReflects(cmp: (Fields, Fields) -> int, fields: map<Handle, Fields>, all: set<Handle>)
    requires forall x | x in all :: x in fields && fields[x] == x.Contents()
    ensures Reflects(cmp, ByFields(cmp, fields), all)
  {
  }

  lemma BuiltEnds(list: Handle?, tail: Handle?, s: seq<Handle>)
    requires Built(list, tail, s)
    ensures list == At(s, 0) && tail == At(s, |s| - 1)
    ensures tail != null ==> tail in s
  {
  }

  lemma BuiltAppend(list: Handle?, tail: Handle?, e: Handle, out: seq<Handle>)
    requires Built(list, tail, out) && e.prev == tail && (tail != null ==> tail.next == e)
    ensures Built(if tail == null then e else list, e, out + [e])
  {
    var s := out + [e];
    forall i | 0 <= i < |s|
      ensures s[i].prev == At(s, i - 1)
    {
      if i < |out| {
        assert out[i].prev == At(out, i - 1);
      }
    }
    forall i | 0 <= i < |s| - 1
      ensures s[i].next == At(s, i + 1)
    {
      if i < |out| - 1 {
        assert out[i].next == At(out, i + 1);
      }
    }
  }

  /** Append `e` to the list under construction. */
  method Emit(list: Handle?, tail: Handle?, e: Handle, ghost out: seq<Handle>) returns (first: Handle?, last: Handle?)
    requires Built(list, tail, out) && NoDup(out + [e])
    modifies if tail == null then {} else {tail}`next
    modifies e`prev
    ensures Built(first, last, out + [e])
  {
    hide NoDup;
    NoDupParts(out, [e]);
    if out != [] {
      OthersDiffer(out, |out| - 1);
    }
    assert e in [e];
    Bridge(tail, e);
    first, last := if tail == null then e else list, e;
    BuiltAppend(list, tail, e, out);
  }

  ghost predicate InSet(s: seq<Handle>, all: set<Handle>) {
    forall x | x in s :: x in all
  }

  /** Two runs being merged: what is built so far, what is left of each run, and what lies behind them. */
  ghost predicate Merging(list: Handle?, tail: Handle?, p: Handle?, q: Handle?,
                          out: seq<Handle>, ps: seq<Handle>, qs: seq<Handle>, rest: seq<Handle>)
    reads out`next, out`prev, ps`next, qs`next, rest`next
  {
    NoDup(out + (ps + (qs + rest))) && Built(list, tail, out) && Run(p, ps) && Chain(q, qs + rest)
  }

  /** The first element of the first run moves to the list. */
  lemma MoveP(out: seq<Handle>, ps: seq<Handle>, qs: seq<Handle>, rest: seq<Handle>)
    requires ps != [] && NoDup(out + (ps + (qs + rest)))
    ensures NoDup((out + [ps[0]]) + (ps[1..] + (qs + rest)))
    ensures NoDup(out + [ps[0]])
    ensures (forall x | x in out + [ps[0]] :: x !in ps[1..] && x !in qs + rest)
  {
    var a, b := out + [ps[0]], ps[1..] + (qs + rest);
    assert a + b == out + (ps + (qs + rest));
    NoDupParts(a, b);
  }

  lemma MoveQ(out: seq<Handle>, ps: seq<Handle>, qs: seq<Handle>, rest: seq<Handle>)
    requires qs != [] && NoDup(out + (ps + (qs + rest)))
    ensures NoDup((out + [qs[0]]) + (ps + (qs[1..] + rest)))
    ensures NoDup(out + [qs[0]])
    ensures (forall x | x in out + [qs[0]] :: x !in ps && x !in qs[1..] + rest)
  {
    var a, b := out + [qs[0]], ps + (qs[1..] + rest);
    assert qs == [qs[0]] + qs[1..];
    assert multiset(a + b) == multiset(out + (ps + (qs + rest)));
    NoDupSame(out + (ps + (qs + rest)), a + b);
    NoDupParts(a, b);
  }

  method TakeP(list: Handle?, tail: Handle?, p: Handle, q: Handle?,
               ghost out: seq<Handle>, ghost ps: seq<Handle>, ghost qs: seq<Handle>, ghost rest: seq<Handle>,
               ghost all: set<Handle>)
    returns (p': Handle?, first: Handle?, last: Handle?)
    requires Merging(list, tail, p, q, out, ps, qs, rest) && ps != []
    requires InSet(out, all) && InSet(ps, all)
    modifies all`next, all`prev
    ensures Merging(first, last, p', q, out + [p], ps[1..], qs, rest)
  {
    hide NoDup, Built, Run, Chain;
    RunStep(p, ps);
    BuiltEnds(list, tail, out);
    MoveP(out, ps, qs, rest);
    assert tail != null ==> tail in out + [p];
    p' := p.next;
    first, last := Emit(list, tail, p, out);
  }

  method TakeQ(list: Handle?, tail: Handle?, p: Handle?, q: Handle,
               ghost out: seq<Handle>, ghost ps: seq<Handle>, ghost qs: seq<Handle>, ghost rest: seq<Handle>,
               ghost all: set<Handle>)
    returns (q': Handle?, first: Handle?, last: Handle?)
    requires Merging(list, tail, p, q, out, ps, qs, rest) && qs != []
    requires InSet(out, all) && InSet(qs, all)
    modifies all`next, all`prev
    ensures Merging(first, last, p, q', out + [q], ps, qs[1..], rest)
  {
    hide NoDup, Built, Run, Chain;
    ChainStep(q, qs + rest);
    BuiltEnds(list, tail, out);
    assert (qs + rest)[1..] == qs[1..] + rest;
    MoveQ(out, ps, qs, rest);
    assert tail != null ==> tail in out + [q];
    q' := q.next;
    first, last := Emit(list, tail, q, out);
  }

  /** Walk over a run to where the next one starts. */
  method CountRun(p: Handle, insize: nat, ghost s: seq<Handle>) returns (q: Handle?, psize: nat)
    requires 0 < insize && Chain(p, s)
    ensures psize == Min(insize, |s|) && q == At(s, psize)
  {
    q, psize := p, 0;
    for i := 0 to insize
      invariant psize == i < |s| && q == s[i]
    {
      psize := psize + 1;
      q := q.next;
      if q == null {
        return;
      }
    }
  }

  /** What the counters of the merge loop know of the runs. */
  ghost predicate Counted(psize: nat, qsize: nat, ps: seq<Handle>, qs: seq<Handle>, rest: seq<Handle>) {
    psize == |ps| && |qs| <= qsize && (rest == [] || |qs| == qsize)
  }

  lemma MergeStep(cmp: (Handle, Handle) -> int, out: seq<Handle>, ps: seq<Handle>, qs: seq<Handle>)
    ensures ps != [] && (qs == [] || cmp(ps[0], qs[0]) <= 0) ==>
              out + Merge(cmp, ps, qs) == (out + [ps[0]]) + Merge(cmp, ps[1..], qs)
    ensures qs != [] && (ps == [] || cmp(ps[0], qs[0]) > 0) ==>
              out + Merge(cmp, ps, qs) == (out + [qs[0]]) + Merge(cmp, ps, qs[1..])
    ensures ps == [] && qs == [] ==> out + Merge(cmp, ps, qs) == out
  {
    hide Merge;
    MergeHead(cmp, ps, qs);
    if ps != [] && (qs == [] || cmp(ps[0], qs[0]) <= 0) {
      assert out + ([ps[0]] + Merge(cmp, ps[1..], qs)) == (out + [ps[0]]) + Merge(cmp, ps[1..], qs);
    }
    if qs != [] && (ps == [] || cmp(ps[0], qs[0]) > 0) {
      assert out + ([qs[0]] + Merge(cmp, ps, qs[1..])) == (out + [qs[0]]) + Merge(cmp, ps, qs[1..]);
    }
  }

  /** Where the second run starts, and whether it is used up. */
  lemma SecondRun(list: Handle?, tail: Handle?, p: Handle?, q: Handle?, out: seq<Handle>, ps: seq<Handle>,
                  qs: seq<Handle>, rest: seq<Handle>, psize: nat, qsize: nat)
    requires Merging(list, tail, p, q, out, ps, qs, rest) && Counted(psize, qsize, ps, qs, rest)
    ensures qsize > 0 && q != null <==> qs != []
    ensures qs != [] ==> q == qs[0]
    ensures ps != [] ==> p == ps[0]
    ensures ps == [] && qs == [] ==> Built(list, tail, out) && Chain(q, rest) && NoDup(out + rest)
  {
    assert ps == [] && qs == [] ==> ps + (qs + rest) == qs + rest == rest;
  }

  /** The inner loop of HASH_SRT. */
  method MergeRuns(cmp: (Fields, Fields) -> int, ghost order: (Handle, Handle) -> int,
                   p0: Handle?, psize0: nat, q0: Handle?, insize: nat,
                   list0: Handle?, tail0: Handle?,
                   ghost out0: seq<Handle>, ghost ps0: seq<Handle>, ghost qs0: seq<Handle>, ghost rest: seq<Handle>,
                   ghost all: set<Handle>)
    returns (q: Handle?, list: Handle?, tail: Handle?)
    requires Merging(list0, tail0, p0, q0, out0, ps0, qs0, rest) && Counted(psize0, insize, ps0, qs0, rest)
    requires InSet(out0, all) && InSet(ps0, all) && InSet(qs0, all) && Reflects(cmp, order, all)
    modifies all`next, all`prev
    ensures var out := out0 + Merge(order, ps0, qs0);
            Built(list, tail, out) && Chain(q, rest) && NoDup(out + rest)
  {
    hide NoDup, Built, Run, Chain, Merging, Merge, Reflects;
    ghost var out: seq<Handle>, ps: seq<Handle>, qs: seq<Handle> := out0, ps0, qs0;
    var p: Handle?, psize: nat, qsize: nat := p0, psize0, insize;
    q, list, tail := q0, list0, tail0;
    while psize > 0 || (qsize > 0 && q != null)
      invariant Merging(list, tail, p, q, out, ps, qs, rest) && Counted(psize, qsize, ps, qs, rest)
      invariant out + Merge(order, ps, qs) == out0 + Merge(order, ps0, qs0)
      invariant InSet(out, all) && InSet(ps, all) && InSet(qs, all)
      decreases psize + |qs|
    {
      SecondRun(list, tail, p, q, out, ps, qs, rest, psize, qsize);
      MergeStep(order, out, ps, qs);
      if ps != [] && qs != [] {
        FirstIn(ps, all);
        FirstIn(qs, all);
        Reflected(cmp, order, all, ps[0], qs[0]);
      }
      if psize == 0 {
        ghost var e := q;
        q, list, tail := TakeQ(list, tail, p, q, out, ps, qs, rest, all);
        out, qs, qsize := out + [e], qs[1..], qsize - 1;
      } else if qsize == 0 || q == null {
        ghost var e := p;
        p, list, tail := TakeP(list, tail, p, q, out, ps, qs, rest, all);
        out, ps, psize := out + [e], ps[1..], psize - 1;
      } else if cmp(p.Contents(), q.Contents()) <= 0 {
        ghost var e := p;
        p, list, tail := TakeP(list, tail, p, q, out, ps, qs, rest, all);
        out, ps, psize := out + [e], ps[1..], psize - 1;
      } else {
        ghost var e := q;
        q, list, tail := TakeQ(list, tail, p, q, out, ps, qs, rest, all);
        out, qs, qsize := out + [e], qs[1..], qsize - 1;
      }
    }
    SecondRun(list, tail, p, q, out, ps, qs, rest, psize, qsize);
    MergeStep(order, out, ps, qs);
  }

  /** The runs that a merge starts from. */
  lemma BeginMerge(list: Handle?, tail: Handle?, p: Handle?, q: Handle?, out: seq<Handle>, s: seq<Handle>, n: nat,
                   all: set<Handle>)
    requires Built(list, tail, out) && Chain(p, s) && NoDup(out + s) && InSet(s, all) && 0 < n
    requires q == At(s, Min(n, |s|))
    ensures var ps, more := Front(s, n), Behind(s, n);
            var qs, rest := Front(more, n), Behind(more, n);
            && Merging(list, tail, p, q, out, ps, qs, rest) && Counted(Min(n, |s|), n, ps, qs, rest)
            && InSet(ps, all) && InSet(qs, all) && InSet(rest, all)
  {
    var m := Min(n, |s|);
    ChainSplit(p, s, m);
    var ps, more := Front(s, n), Behind(s, n);
    var qs, rest := Front(more, n), Behind(more, n);
    ThreeParts(s, n);
    assert ps + (qs + rest) == s && qs + rest == more;
  }

  /** One iteration of the pass. */
  method MergeNext(cmp: (Fields, Fields) -> int, ghost order: (Handle, Handle) -> int, p: Handle, insize: nat,
                   list0: Handle?, tail0: Handle?,
                   ghost out: seq<Handle>, ghost s: seq<Handle>, ghost all: set<Handle>)
    returns (q: Handle?, list: Handle?, tail: Handle?)
    requires Built(list0, tail0, out) && Chain(p, s) && NoDup(out + s) && InSet(out, all) && InSet(s, all) && 0 < insize
    requires Reflects(cmp, order, all)
    modifies all`next, all`prev
    ensures var more := Behind(s, insize);
            var merged, rest := Merge(order, Front(s, insize), Front(more, insize)), Behind(more, insize);
            && Built(list, tail, out + merged) && Chain(q, rest) && NoDup(out + merged + rest)
            && InSet(out + merged, all) && InSet(rest, all)
  {
    hide NoDup, Built, Chain, Merging, Merge, Front, Behind, Counted, InSet, Reflects;
    var psize;
    q, psize := CountRun(p, insize, s);
    BeginMerge(list0, tail0, p, q, out, s, insize, all);
    ghost var ps, more := Front(s, insize), Behind(s, insize);
    ghost var qs, rest := Front(more, insize), Behind(more, insize);
    q, list, tail := MergeRuns(cmp, order, p, psize, q, insize, list0, tail0, out, ps, qs, rest, all);
    MergedInSet(order, out, ps, qs, all);
  }

  lemma MergedInSet(cmp: (Handle, Handle) -> int, out: seq<Handle>, ps: seq<Handle>, qs: seq<Handle>, all: set<Handle>)
    requires InSet(out, all) && InSet(ps, all) && InSet(qs, all)
    ensures InSet(out + Merge(cmp, ps, qs), all)
  {
    MergeKeepsElements(cmp, ps, qs);
    forall x | x in Merge(cmp, ps, qs)
      ensures x in all
    {
      assert x in multiset(ps) + multiset(qs);
    }
  }

  /** One pass over the whole list: neighbouring runs of `insize` elements are merged. */
  method MergePass(cmp: (Fields, Fields) -> int, ghost order: (Handle, Handle) -> int, from: Handle, insize: nat,
                   ghost s: seq<Handle>, ghost all: set<Handle>)
    returns (list: Handle?, tail: Handle?, nmerges: nat)
    requires Chain(from, s) && NoDup(s) && InSet(s, all) && 0 < insize && Reflects(cmp, order, all)
    modifies all`next, all`prev
    ensures Linked(list, tail, Pass(order, s, insize))
    ensures nmerges == Merges(|s|, insize)
  {
    hide NoDup, Built, Chain, Merge, Front, Behind, InSet, Pass, Linked, Reflects;
    ChainStep(from, s);
    var p: Handle? := from;
    list, tail, nmerges := null, null, 0;
    ghost var out: seq<Handle>, rest: seq<Handle> := [], s;
    NothingBuilt(s, all);
    while p != null
      invariant Built(list, tail, out) && Chain(p, rest) && NoDup(out + rest) && InSet(out, all) && InSet(rest, all)
      invariant out + Pass(order, rest, insize) == Pass(order, s, insize)
      invariant nmerges + Merges(|rest|, insize) == Merges(|s|, insize)
      decreases |rest|
    {
      ChainStep(p, rest);
      PassStep(order, out, rest, insize);
      nmerges := nmerges + 1;
      ghost var more := Behind(rest, insize);
      ghost var merged := Merge(order, Front(rest, insize), Front(more, insize));
      p, list, tail := MergeNext(cmp, order, p, insize, list, tail, out, rest, all);
      out, rest := out + merged, Behind(more, insize);
    }
    ChainStep(p, rest);
    assert out + Pass(order, rest, insize) == out && out + rest == out;
    BuiltEnds(list, tail, out);
    assert tail in all by {
      LastInSet(out, all);
    }
    EndList(list, tail, out);
  }

  method EndList(list: Handle?, tail: Handle, ghost out: seq<Handle>)
    requires Built(list, tail, out) && NoDup(out)
    modifies tail`next
    ensures Linked(list, tail, out)
  {
    OthersDiffer(out, |out| - 1);
    tail.next := null;
  }

  lemma PassStep(cmp: (Handle, Handle) -> int, out: seq<Handle>, s: seq<Handle>, n: nat)
    requires 0 < n && s != []
    ensures var more := Behind(s, n);
            var merged, rest := Merge(cmp, Front(s, n), Front(more, n)), Behind(more, n);
            && out + Pass(cmp, s, n) == out + merged + Pass(cmp, rest, n)
            && Merges(|s|, n) == 1 + Merges(|rest|, n) && |rest| < |s|
  {
    hide Merge, Front, Behind;
    var more := Behind(s, n);
    var merged, rest := Merge(cmp, Front(s, n), Front(more, n)), Behind(more, n);
    Joined(out, merged, Pass(cmp, rest, n));
  }

  lemma Joined(a: seq<Handle>, b: seq<Handle>, c: seq<Handle>)
    ensures a + (b + c) == a + b + c
  {
  }

  lemma FirstIn(s: seq<Handle>, all: set<Handle>)
    requires InSet(s, all) && s != []
    ensures s[0] in all
  {
  }

  lemma LastInSet(s: seq<Handle>, all: set<Handle>)
    requires InSet(s, all) && s != []
    ensures s[|s| - 1] in all
  {
  }

  lemma NothingBuilt(s: seq<Handle>, all: set<Handle>)
    ensures Built(null, null, []) && InSet([], all) && [] + s == s
  {
  }

  lemma LinkedIsChain(head: Handle?, tail: Handle?, s: seq<Handle>)
    requires Linked(head, tail, s)
    ensures Chain(head, s)
    ensures head == At(s, 0) && tail == At(s, |s| - 1)
  {
    forall i | 0 <= i < |s|
      ensures s[i].next == At(s, i + 1)
    {
    }
  }

  /** HASH_SRT: sorts the list in place, touching only its `next` and `prev` links. */
  method HashSort(cmp: (Fields, Fields) -> int, ghost order: (Handle, Handle) -> int, head: Handle?, tail: Handle?,
                  ghost s: seq<Handle>)
    returns (first: Handle?, last: Handle?)
    requires Linked(head, tail, s) && NoDup(s) && Reflects(cmp, order, set x | x in s)
    modifies (set x | x in s)`next, (set x | x in s)`prev
    ensures Linked(first, last, Sort(order, s, 1))
  {
    hide NoDup, Linked, Chain, Pass, InSet, Reflects;
    first, last := head, tail;
    LinkedIsChain(head, tail, s);
    if head == null {
      assert Sort(order, s, 1) == s;
      return;
    }
    ghost var all := set x | x in s;
    ghost var t := s;
    AllOf(s);
    var list: Handle, insize, looping := head, 1, true;
    while looping
      invariant 0 < insize && Linked(first, last, t) && NoDup(t) && InSet(t, all) && |t| == |s| > 0
      invariant if looping then list == At(t, 0) && Sort(order, t, insize) == Sort(order, s, 1)
                else t == Sort(order, s, 1)
      decreases looping, if insize < |s| then |s| - insize else 0
    {
      LinkedIsChain(first, last, t);
      var nmerges;
      first, last, nmerges := MergePass(cmp, order, list, insize, t, all);
      PassInSet(order, t, insize, all);
      MergesIsOneIff(|t|, insize);
      t := Pass(order, t, insize);
      LinkedIsChain(first, last, t);
      list := first;
      if nmerges <= 1 {
        looping := false;
      }
      insize := insize * 2;
    }
  }

  lemma AllOf(s: seq<Handle>)
    ensures InSet(s, set x | x in s)
  {
  }

  lemma PassInSet(cmp: (Handle, Handle) -> int, s: seq<Handle>, n: nat, all: set<Handle>)
    requires 0 < n && InSet(s, all) && NoDup(s)
    ensures InSet(Pass(cmp, s, n), all) && NoDup(Pass(cmp, s, n))
  {
    PassKeepsElements(cmp, s, n);
    SameElements(Pass(cmp, s, n), s);
    NoDupSame(s, Pass(cmp, s, n));
  }
}
