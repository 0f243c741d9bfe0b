/**
 * The revision generator: hash_value feeds a document to the digest piece by piece, and la_revgen frames it
 * with what the new revision depends on.  The digest is a sequence of bytes that grows.
 */
module CouchRevgen {
  import opened Bytes
  import opened CouchTerms
  import opened CouchUnique

  class Md5 {
    var data: bytes

    constructor ()
      ensures data == []
    {
      data := [];
    }

    method Update(s: bytes)
      modifies this
      ensures data == old(data) + s
    {
      data := data + s;
    }
  }

  // ---------------------------------------------------------------- numbers

  /** The low 64 bits, most significant byte first. */
  function Be64(n: int): (r: bytes)
    ensures |r| == 8
  {
    Be32(n / 0x1_0000_0000) + Be32(n)
  }

  /** A number in `k` bytes, most significant first. */
  function Fixed(n: nat, k: nat): (r: bytes)
    ensures |r| == k
  {
    if k == 0 then [] else Fixed(n / 0x100, k - 1) + [Byte(n)]
  }

  lemma Be64IsFixed(n: nat)
    ensures Be64(n) == Fixed(n, 8)
  {
    hide Fixed, Be32;
    LowBytes(n, 4);
    LowBytes(n / 0x1_0000_0000, 0);
    assert Fixed(n / 0x1_0000_0000 / 0x1_0000_0000, 0) == [];
  }

  lemma LowBytes(n: nat, k: nat)
    ensures Fixed(n, k + 4) == Fixed(n / 0x1_0000_0000, k) + Be32(n)
  {
    var n1 := n / 0x100;
    var n2 := n1 / 0x100;
    var n3 := n2 / 0x100;
    assert n2 == n / 0x10000 && n3 == n / 0x1000000 && n3 / 0x100 == n / 0x1_0000_0000;
    FixedStep(n, k + 4);
    FixedStep(n1, k + 3);
    FixedStep(n2, k + 2);
    FixedStep(n3, k + 1);
  }

  lemma FixedStep(n: nat, k: nat)
    requires 0 < k
    ensures Fixed(n, k) == Fixed(n / 0x100, k - 1) + [Byte(n)]
  {
  }

  /** Eight bytes are the shortest form behind leading zeros. */
  lemma {:induction false} FixedIsPadded(n: nat, k: nat)
    requires n < Pow256(k)
    ensures |Magnitude(n)| <= k && Fixed(n, k) == Zeros(k - |Magnitude(n)|) + Magnitude(n)
  {
    if k != 0 {
      FixedIsPadded(n / 0x100, k - 1);
      if n == 0 {
        assert Zeros(k) == Zeros(k - 1) + [0];
      }
    }
  }

  // ---------------------------------------------------------------- hash_value

  /** The bytes of a magnitude from `offset` on, last one first. */
  method UpdateReversed(md5: Md5, c: bytes, offset: nat)
    requires offset <= |c|
    modifies md5
    ensures md5.data == old(md5.data) + Reverse(c[offset..])
  {
    assert c[|c|..] == [] && Reverse([]) == [];
    for x := |c| downto offset
      invariant md5.data == old(md5.data) + Reverse(c[x..])
    {
      assert c[x..] == [c[x]] + c[x + 1..];
      ReverseFront(c[x], c[x + 1..]);
      md5.Update([c[x]]);
    }
  }

  /** Where the leading zeros end. */
  method SkipZeros(c: bytes, ghost m: bytes) returns (offset: nat)
    requires |c| == 8 && m != [] && m[0] != 0 && |m| <= 8 && c == Zeros(8 - |m|) + m
    ensures offset == 8 - |m| && c[offset..] == m
  {
    assert c[8 - |m|] == m[0];
    offset := 0;
    while c[offset] == 0 && offset < 8
      invariant offset <= 8 - |m|
    {
      offset := offset + 1;
    }
  }

  /** An integer beyond 32 bits, without its leading zero bytes. */
  method UpdateBigInteger(md5: Md5, i: Int64)
    requires i > INT32_MAX
    modifies md5
    ensures md5.data == old(md5.data) + IntegerTerm(i)
  {
    hide Magnitude, Reverse, Fixed, Be64;
    var c := Be64(i);
    ghost var m := Magnitude(i);
    Be64IsFixed(i);
    assert Pow256(4) == 0x1_0000_0000;
    assert Pow256(8) == 0x1_0000_0000_0000_0000;
    FixedIsPadded(i, 8);
    var offset := SkipZeros(c, m);
    var len: byte := 8 - offset;
    var sign := SignByte(i < 0);
    ghost var before := md5.data;
    md5.Update([SMALL_BIG]);
    md5.Update([len]);
    md5.Update([sign]);
    UpdateReversed(md5, c, offset);
    assert before + [SMALL_BIG] + [len] + [sign] + Reverse(m) == before + ([SMALL_BIG, len] + [sign] + Reverse(m));
  }

  method UpdateInteger(md5: Md5, i: Int64)
    modifies md5
    ensures md5.data == old(md5.data) + IntegerTerm(i)
  {
    if i < 256 {
      md5.Update([SMALL_INT]);
      md5.Update([Byte(i)]);
    } else if i <= INT32_MAX && i >= -INT32_MAX - 1 {
      md5.Update([INT]);
      md5.Update(Be32(i));
    } else {
      UpdateBigInteger(md5, i);
    }
  }

  method UpdateBignum(md5: Md5, negative: bool, bin: bytes)
    modifies md5
    ensures md5.data == old(md5.data) + Big(negative, bin)
  {
    var s := SignByte(negative);
    if |bin| < 256 {
      md5.Update([SMALL_BIG]);
      md5.Update([|bin|]);
      md5.Update([s]);
    } else {
      md5.Update([LARGE_BIG]);
      md5.Update(Be32(|bin|));
      md5.Update([s]);
    }
    assert bin[0..] == bin;
    UpdateReversed(md5, bin, 0);
  }

  method UpdateBinary(md5: Md5, s: bytes)
    modifies md5
    ensures md5.data == old(md5.data) + Binary(s)
  {
    md5.Update([BINARY]);
    md5.Update(Be32(|s|));
    md5.Update(s);
  }

  /** hash_value: the digest receives exactly the bytes of the value. */
  method HashValue(value: Value, md5: Md5)
    modifies md5
    ensures md5.data == old(md5.data) + Serialize(value)
    decreases value, 0
  {
    hide SerializeItems, SerializeMembers, Be32, Big, Binary, IntegerTerm;
    match value {
      case True => md5.Update(TRUE);
      case False => md5.Update(FALSE);
      case Null => md5.Update(NULL);
      case Integer(i) => UpdateInteger(md5, i);
      case Bignum(negative, magnitude) => UpdateBignum(md5, negative, magnitude);
      case Real(text) =>
        md5.Update([FLOAT]);
        md5.Update(text);
      case String(s) => UpdateBinary(md5, s);
      case Array(items) => HashArray(items, md5);
      case Object(members) => HashObject(members, md5);
    }
  }

  method HashArray(items: seq<Value>, md5: Md5)
    modifies md5
    ensures md5.data == old(md5.data) + Serialize(Array(items))
    decreases items, 1
  {
    hide SerializeItems, Be32;
    ghost var before := md5.data;
    if |items| > 0 {
      md5.Update([LIST]);
      md5.Update(Be32(|items|));
      HashItems(items, md5);
      assert md5.data == before + ([LIST] + Be32(|items|) + SerializeItems(items));
    }
    md5.Update([NIL]);
  }

  method HashObject(members: seq<Member>, md5: Md5)
    modifies md5
    ensures md5.data == old(md5.data) + Serialize(Object(members))
    decreases members, 1
  {
    hide SerializeMembers, Be32;
    ghost var before := md5.data;
    md5.Update([SMALL_TUPLE, 1]);
    if |members| > 0 {
      md5.Update([LIST]);
      md5.Update(Be32(|members|));
      HashMembers(members, md5);
      assert md5.data == before + ([SMALL_TUPLE, 1] + ([LIST] + Be32(|members|) + SerializeMembers(members)));
    }
    md5.Update([NIL]);
  }

  method HashItems(items: seq<Value>, md5: Md5)
    modifies md5
    ensures md5.data == old(md5.data) + SerializeItems(items)
    decreases items, 0
  {
    hide SerializeItems, Serialize;
    ghost var all := md5.data + SerializeItems(items);
    assert items[0..] == items;
    for i := 0 to |items|
      invariant md5.data + SerializeItems(items[i..]) == all
    {
      ItemsStep(items, i);
      Associative(md5.data, Serialize(items[i]), SerializeItems(items[i + 1..]));
      HashValue(items[i], md5);
    }
    NoItemsLeft(items);
  }

  lemma ItemsStep(items: seq<Value>, i: nat)
    requires i < |items|
    ensures SerializeItems(items[i..]) == Serialize(items[i]) + SerializeItems(items[i + 1..])
  {
    hide Serialize;
    assert items[i..][0] == items[i] && items[i..][1..] == items[i + 1..];
  }

  lemma NoItemsLeft(items: seq<Value>)
    ensures SerializeItems(items[|items|..]) == []
  {
  }

  method HashMembers(members: seq<Member>, md5: Md5)
    modifies md5
    ensures md5.data == old(md5.data) + SerializeMembers(members)
    decreases members, 0
  {
    hide SerializeMembers, MemberTerm;
    ghost var all := md5.data + SerializeMembers(members);
    assert members[0..] == members;
    for i := 0 to |members|
      invariant md5.data + SerializeMembers(members[i..]) == all
    {
      MembersStep(members, i);
      assert md5.data + (MemberTerm(members[i]) + SerializeMembers(members[i + 1..]))
          == md5.data + MemberTerm(members[i]) + SerializeMembers(members[i + 1..]);
      HashMember(members[i], md5);
    }
    NoMembersLeft(members);
  }

  function MemberTerm(m: Member): bytes {
    [SMALL_TUPLE, 2] + Binary(m.key) + Serialize(m.value)
  }

  lemma MembersStep(members: seq<Member>, i: nat)
    requires i < |members|
    ensures SerializeMembers(members[i..]) == MemberTerm(members[i]) + SerializeMembers(members[i + 1..])
  {
    hide Binary, Serialize;
    assert members[i..][0] == members[i] && members[i..][1..] == members[i + 1..];
  }

  lemma NoMembersLeft(members: seq<Member>)
    ensures SerializeMembers(members[|members|..]) == []
  {
  }

  method HashMember(m: Member, md5: Md5)
    modifies md5
    ensures md5.data == old(md5.data) + MemberTerm(m)
    decreases m, 0
  {
    hide Binary, Serialize;
    md5.Update([SMALL_TUPLE, 2]);
    UpdateBinary(md5, m.key);
    HashValue(m.value, md5);
  }

  // ---------------------------------------------------------------- la_revgen

  const LA_OBJECT_REVISION_LEN := 16
  const MD5_DIGEST_LENGTH := 16

  type Uint64 = n: int | 0 <= n <= 0xffff_ffff_ffff_ffff

  /** An unsigned number passed where a signed one is expected. */
  function AsInt64(n: Uint64): Int64 {
    if n <= INT64_MAX then n else n - 0x1_0000_0000_0000_0000
  }

  /** What a new revision depends on. */
  datatype Revision = Revision(isDelete: bool, oldStart: Uint64, oldRev: Option<bytes>, doc: Value) {
    predicate Encodable() {
      CouchTerms.Encodable(doc) && (oldRev.Some? ==> |oldRev.value| == LA_OBJECT_REVISION_LEN)
    }

    /** The delete flag, the start and the old revision as values; without an old revision, 0. */
    function Flag(): Value {
      if isDelete then True else False
    }

    function Start(): Value {
      Integer(AsInt64(oldStart))
    }

    function Old(): Value {
      if oldRev.Some? then String(oldRev.value) else Integer(0)
    }

    /** The list of five that CouchDB takes the digest of; the last one is for attachments. */
    function Term(): Value {
      Array([Flag(), Start(), Old(), doc, Array([])])
    }
  }

  const HEAD: byte := 131

  lemma FrontItem(x: Value, rest: seq<Value>)
    ensures SerializeItems([x] + rest) == Serialize(x) + SerializeItems(rest)
    ensures SerializeItems([]) == []
  {
    assert ([x] + rest)[1..] == rest;
  }

  lemma FiveItems(a: Value, b: Value, c: Value, d: Value, e: Value)
    ensures SerializeItems([a, b, c, d, e])
         == Serialize(a) + (Serialize(b) + (Serialize(c) + (Serialize(d) + Serialize(e))))
  {
    hide Serialize, SerializeItems;
    FrontItem(a, [b, c, d, e]);
    FrontItem(b, [c, d, e]);
    FrontItem(c, [d, e]);
    FrontItem(d, [e]);
    FrontItem(e, []);
    assert [a] + [b, c, d, e] == [a, b, c, d, e] && [b] + [c, d, e] == [b, c, d, e] && [c] + [d, e] == [c, d, e];
    assert [d] + [e] == [d, e] && [e] + [] == [e];
  }

  /** The pieces that la_revgen sends are the term of the list behind the version byte. */
  lemma RevisionBytes(r: Revision)
    ensures [HEAD] + Serialize(r.Term())
         == [HEAD, LIST, 0, 0, 0, 5] + Serialize(r.Flag()) + Serialize(r.Start()) + Serialize(r.Old())
            + Serialize(r.doc) + [NIL] + [NIL]
  {
    hide Serialize, SerializeItems;
    FiveItems(r.Flag(), r.Start(), r.Old(), r.doc, Array([]));
    ListBytes([r.Flag(), r.Start(), r.Old(), r.doc, Array([])]);
    Assemble(Serialize(r.Flag()), Serialize(r.Start()), Serialize(r.Old()), Serialize(r.doc));
  }

  /**
   * The same byte by byte: version and list header, the delete flag as an atom, the start, the old revision as a
   * binary or a zero in its place, the document, and two ends of lists.
   */
  lemma RevisionText(r: Revision)
    requires r.Encodable()
    ensures [HEAD] + Serialize(r.Term())
         == [131, 108, 0, 0, 0, 5]
            + (if r.isDelete then [100, 0, 4] + Ascii("true") else [100, 0, 5] + Ascii("false"))
            + Serialize(Integer(if r.oldStart < 0x8000_0000_0000_0000 then r.oldStart
                                else r.oldStart - 0x1_0000_0000_0000_0000))
            + (match r.oldRev case None => [97, 0] case Some(rev) => [109, 0, 0, 0, 16] + rev)
            + Serialize(r.doc) + [106, 106]
  {
    hide Serialize;
    RevisionBytes(r);
    FlagBytes(r);
    OldBytes(r);
    var front := [131, 108, 0, 0, 0, 5] + Serialize(r.Flag()) + Serialize(r.Start()) + Serialize(r.Old())
                 + Serialize(r.doc);
    assert front + [NIL] + [NIL] == front + [106, 106];
  }

  lemma AtomLetters()
    ensures Ascii("true") == [116, 114, 117, 101] && Ascii("false") == [102, 97, 108, 115, 101]
    ensures Ascii("null") == [110, 117, 108, 108]
  {
  }

  lemma FlagBytes(r: Revision)
    ensures Serialize(r.Flag()) == if r.isDelete then [100, 0, 4] + Ascii("true") else [100, 0, 5] + Ascii("false")
  {
    hide Ascii;
    AtomLetters();
  }

  lemma OldBytes(r: Revision)
    requires r.Encodable()
    ensures Serialize(r.Old()) == match r.oldRev case None => [97, 0] case Some(rev) => [109, 0, 0, 0, 16] + rev
  {
  }

  lemma Assemble(a: bytes, b: bytes, c: bytes, d: bytes)
    ensures [HEAD] + ([LIST, 0, 0, 0, 5] + (a + (b + (c + (d + [NIL])))) + [NIL])
         == [HEAD, LIST, 0, 0, 0, 5] + a + b + c + d + [NIL] + [NIL]
  {
    var h: bytes, l: bytes, n: bytes := [HEAD], [LIST, 0, 0, 0, 5], [NIL];
    assert h + l == [HEAD, LIST, 0, 0, 0, 5];
    var items := a + (b + (c + (d + n)));
    Associative(h, l + items, n);
    Associative(h, l, items);
    Associative(h + l, a, b + (c + (d + n)));
    Associative(h + l + a, b, c + (d + n));
    Associative(h + l + a + b, c, d + n);
    Associative(h + l + a + b + c, d, n);
  }

  lemma ListBytes(five: seq<Value>)
    requires |five| == 5
    ensures Serialize(Array(five)) == [LIST, 0, 0, 0, 5] + SerializeItems(five) + [NIL]
    ensures Serialize(Array([])) == [NIL]
  {
    hide Serialize, SerializeItems;
    ArrayBytes(five);
    ArrayBytes([]);
    Be32OfFive();
    assert [LIST] + [0, 0, 0, 5] == [LIST, 0, 0, 0, 5];
  }

  lemma ArrayBytes(items: seq<Value>)
    ensures Serialize(Array(items))
         == (if items == [] then [] else [LIST] + Be32(|items|) + SerializeItems(items)) + [NIL]
  {
    hide Be32, SerializeItems;
  }

  lemma Be32OfFive()
    ensures Be32(5) == [0, 0, 0, 5]
  {
  }

  /** The version byte, the list header and the delete flag. */
  method UpdateHead(ctx: Md5, ghost r: Revision, isDelete: bool)
    requires isDelete == r.isDelete && ctx.data == []
    modifies ctx
    ensures ctx.data == [HEAD, LIST, 0, 0, 0, 5] + Serialize(r.Flag())
  {
    ctx.Update([HEAD]);
    ctx.Update([LIST]);
    ctx.Update([0, 0, 0, 5]);
    assert ctx.data == [HEAD, LIST, 0, 0, 0, 5];
    if isDelete {
      ctx.Update(TRUE);
    } else {
      ctx.Update(FALSE);
    }
  }

  method UpdateOld(ctx: Md5, ghost r: Revision, oldRev: Option<bytes>)
    requires oldRev == r.oldRev
    modifies ctx
    ensures ctx.data == old(ctx.data) + Serialize(r.Old())
  {
    match oldRev {
      case None =>
        ctx.Update([SMALL_INT]);
        ctx.Update([0]);
      case Some(rev) => UpdateBinary(ctx, rev);
    }
  }

  /** la_revgen: the new revision is the digest of the term of all it depends on. */
  method Revgen(md5: bytes -> bytes, revision: Revision) returns (length: nat, rev: bytes)
    requires forall s :: |md5(s)| == MD5_DIGEST_LENGTH
    ensures length == MD5_DIGEST_LENGTH && rev == md5([HEAD] + Serialize(revision.Term()))
  {
    hide Serialize;
    var ctx := new Md5();
    UpdateHead(ctx, revision, revision.isDelete);
    HashValue(Integer(AsInt64(revision.oldStart)), ctx);
    UpdateOld(ctx, revision, revision.oldRev);
    HashValue(revision.doc, ctx);
    ctx.Update([NIL]);
    ctx.Update([NIL]);
    RevisionBytes(revision);
    var digest := md5(ctx.data);
    assert digest[..LA_OBJECT_REVISION_LEN] == digest;
    length, rev := MD5_DIGEST_LENGTH, digest[..LA_OBJECT_REVISION_LEN];
  }

  // ---------------------------------------------------------------- what a revision tells

  /** The start that the bytes tell: beyond 63 bits only its low byte is left. */
  function StartSeen(n: Uint64): int {
    if n <= INT64_MAX then n else n % 0x100
  }

  /**
   * Two revisions are made from the same bytes exactly when they agree on the delete flag, on the start as
   * far as it is seen, on the old revision, and on the document up to the numbers that share their bytes.
   */
  lemma SameRevisionIff(a: Revision, b: Revision)
    requires a.Encodable() && b.Encodable()
    ensures [HEAD] + Serialize(a.Term()) == [HEAD] + Serialize(b.Term())
       <==> a.isDelete == b.isDelete && StartSeen(a.oldStart) == StartSeen(b.oldStart)
            && a.oldRev == b.oldRev && Canon(a.doc) == Canon(b.doc)
  {
    hide Serialize, Canon, Encodable;
    TermEncodable(a);
    TermEncodable(b);
    SameBytesIff(a.Term(), b.Term());
    CanonOfTerm(a);
    CanonOfTerm(b);
    PartsSeen(a);
    PartsSeen(b);
    SameRest(HEAD, Serialize(a.Term()), Serialize(b.Term()));
  }

  lemma SameRest(h: byte, s: bytes, t: bytes)
    ensures [h] + s == [h] + t <==> s == t
  {
    if [h] + s == [h] + t {
      assert s == ([h] + s)[1..] && t == ([h] + t)[1..];
    }
  }

  lemma TermEncodable(r: Revision)
    requires r.Encodable()
    ensures CouchTerms.Encodable(r.Term())
  {
  }

  lemma CanonFront(x: Value, rest: seq<Value>)
    ensures CanonItems([x] + rest) == [Canon(x)] + CanonItems(rest)
    ensures CanonItems([]) == []
  {
    hide Canon;
    assert ([x] + rest)[1..] == rest;
  }

  lemma CanonOfFive(a: Value, b: Value, c: Value, d: Value, e: Value)
    ensures CanonItems([a, b, c, d, e]) == [Canon(a), Canon(b), Canon(c), Canon(d), Canon(e)]
  {
    hide Canon, CanonItems;
    CanonFront(a, [b, c, d, e]);
    CanonFront(b, [c, d, e]);
    CanonFront(c, [d, e]);
    CanonFront(d, [e]);
    CanonFront(e, []);
    assert [a] + [b, c, d, e] == [a, b, c, d, e] && [b] + [c, d, e] == [b, c, d, e] && [c] + [d, e] == [c, d, e];
    assert [d] + [e] == [d, e] && [e] + [] == [e];
  }

  lemma CanonOfTerm(r: Revision)
    ensures Canon(r.Term()) == Array([r.Flag(), Canon(r.Start()), Canon(r.Old()), Canon(r.doc), Array([])])
  {
    hide Canon;
    CanonOfAtoms();
    CanonOfFive(r.Flag(), r.Start(), r.Old(), r.doc, Array([]));
    CanonOfArray([r.Flag(), r.Start(), r.Old(), r.doc, Array([])]);
  }

  lemma CanonOfArray(items: seq<Value>)
    ensures Canon(Array(items)) == Array(CanonItems(items))
  {
  }

  lemma CanonOfAtoms()
    ensures Canon(True) == True && Canon(False) == False && Canon(Array([])) == Array([])
  {
  }

  lemma PartsSeen(r: Revision)
    ensures Canon(r.Start()) == Integer(StartSeen(r.oldStart)) && Canon(r.Old()) == r.Old()
  {
    hide FromBig, CanonItems, CanonMembers;
    assert Canon(r.Old()) == r.Old();
    if INT64_MAX < r.oldStart {
      LowByte(r.oldStart);
    }
  }

  lemma LowByte(n: int)
    ensures (n - 0x1_0000_0000_0000_0000) % 0x100 == n % 0x100
  {
  }

  /** The bytes behind the head decode, with nothing left over, to a list of what the revision depends on. */
  lemma RevisionDecodes(r: Revision)
    requires r.Encodable()
    ensures var five := [if r.isDelete then True else False, Integer(StartSeen(r.oldStart)),
                         if r.oldRev.Some? then String(r.oldRev.value) else Integer(0), Canon(r.doc), Array([])];
            Decode(Serialize(r.Term())) == Some(Read(Array(five), |Serialize(r.Term())|))
  {
    CanonOfTerm(r);
    PartsSeen(r);
    hide Serialize, Canon, Decode;
    TermEncodable(r);
    DecodeOfSerialize(r.Term(), []);
    assert Serialize(r.Term()) + [] == Serialize(r.Term());
  }
}
