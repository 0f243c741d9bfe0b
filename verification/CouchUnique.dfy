/** What the serialised bytes tell: decoding them gives the value back, up to the known collisions. */
module CouchUnique {
  import opened Bytes
  import opened CouchTerms

  // ---------------------------------------------------------------- numbers

  lemma Be32RoundTrip(n: nat, rest: bytes)
    requires n <= INT32_MAX
    ensures ReadBe32(Be32(n) + rest) == n
  {
    assert n / 0x10000 == n / 0x100 / 0x100;
    assert n / 0x1000000 == n / 0x10000 / 0x100;
  }

  lemma {:induction false} ReverseFront(x: byte, s: bytes)
    ensures Reverse([x] + s) == Reverse(s) + [x]
  {
    if s == [] {
      assert [x] + s == [x] && [x][..0] == [];
    } else {
      var front := s[..|s| - 1];
      assert ([x] + s)[..|s|] == [x] + front;
      ReverseFront(x, front);
    }
  }

  lemma {:induction false} ReverseTwice(s: bytes)
    ensures Reverse(Reverse(s)) == s
  {
    if s != [] {
      ReverseTwice(s[..|s| - 1]);
      ReverseFront(s[|s| - 1], Reverse(s[..|s| - 1]));
    }
  }

  lemma {:induction false} ValueOfMagnitude(n: nat)
    ensures ValueOf(Magnitude(n)) == n
  {
    if n != 0 {
      var front := Magnitude(n / 0x100);
      ValueOfMagnitude(n / 0x100);
      assert (front + [Byte(n)])[..|front|] == front;
    }
  }

  /** A magnitude without leading zeros is the shortest one for its value. */
  lemma {:induction false} MagnitudeOfValue(m: bytes)
    requires m != [] ==> m[0] != 0
    ensures Magnitude(ValueOf(m)) == m
    ensures m != [] ==> ValueOf(m) > 0
  {
    if m != [] {
      var front := m[..|m| - 1];
      MagnitudeOfValue(front);
      var n := ValueOf(m);
      assert n / 0x100 == ValueOf(front) && Byte(n) == m[|m| - 1];
      assert m == front + [m[|m| - 1]];
    }
  }

  function Pow256(k: nat): nat {
    if k == 0 then 1 else 0x100 * Pow256(k - 1)
  }

  lemma {:induction false} MagnitudeLength(n: nat, k: nat)
    requires n < Pow256(k)
    ensures |Magnitude(n)| <= k
  {
    if n != 0 {
      MagnitudeLength(n / 0x100, k - 1);
    }
  }

  /** 64 bits fit eight bytes. */
  lemma MagnitudeIsShort(n: nat)
    requires n <= INT64_MAX
    ensures |Magnitude(n)| <= 8
  {
    assert Pow256(4) == 0x1_0000_0000;
    assert Pow256(8) == 0x1_0000_0000_0000_0000;
    MagnitudeLength(n, 8);
  }

  // ---------------------------------------------------------------- one term

  lemma BigLayout(negative: bool, m: bytes, rest: bytes)
    ensures var s, start := Big(negative, m) + rest, if |m| < 256 then 2 else 5;
            && |s| >= start + 1 + |m| && |Big(negative, m)| == start + 1 + |m|
            && s[start] == (if negative then 1 else 0)
            && s[start + 1..start + 1 + |m|] == Reverse(m)
            && (if |m| < 256 then s[0] == SMALL_BIG && s[1] == |m|
                else s[0] == LARGE_BIG && s[1..] == Be32(|m|) + (s[5..]))
  {
  }

  lemma DecodeOfBig(negative: bool, m: bytes, rest: bytes)
    requires |m| <= INT32_MAX
    ensures Decode(Big(negative, m) + rest) == Some(Read(FromBig(negative, m), |Big(negative, m)|))
  {
    hide Big, Be32, ReadBe32, Reverse, DecodeItems, DecodeMembers;
    var s := Big(negative, m) + rest;
    BigLayout(negative, m, rest);
    ReverseTwice(m);
    if |m| >= 256 {
      Be32RoundTrip(|m|, s[5..]);
    }
  }

  /** An integer keeps its value, except that below 256 only its low byte is left. */
  lemma DecodeOfInteger(i: Int64, rest: bytes)
    ensures Decode(IntegerTerm(i) + rest) == Some(Read(Canon(Integer(i)), |IntegerTerm(i)|))
  {
    hide Be32, ReadBe32, Big, DecodeItems, DecodeMembers, DecodeBig, DecodeBinary;
    var s := IntegerTerm(i) + rest;
    if i < 256 {
      assert s[0] == SMALL_INT && s[1] == Byte(i);
    } else if i <= INT32_MAX {
      assert s[0] == INT && s[1..] == Be32(i) + rest;
      Be32RoundTrip(i, rest);
    } else {
      MagnitudeIsShort(i);
      ValueOfMagnitude(i);
      DecodeOfBig(false, Magnitude(i), rest);
    }
  }

  lemma BinaryIsRead(text: bytes, rest: bytes)
    requires |text| <= INT32_MAX
    ensures DecodeBinary(Binary(text) + rest) == Some(Read(text, |Binary(text)|))
  {
    hide Be32, ReadBe32;
    var s := Binary(text) + rest;
    assert s[1..] == Be32(|text|) + (text + rest);
    Be32RoundTrip(|text|, text + rest);
    assert s[5..5 + |text|] == text;
  }

  lemma DecodeOfAtom(v: Value, rest: bytes)
    requires v.True? || v.False? || v.Null?
    ensures Decode(Serialize(v) + rest) == Some(Read(v, |Serialize(v)|))
  {
    hide DecodeItems, DecodeMembers, DecodeBig, DecodeBinary;
    var s := Serialize(v) + rest;
    assert s[0] == ATOM && s[2] == Serialize(v)[2] && s[3] == Serialize(v)[3];
  }

  lemma DecodeOfReal(text: bytes, rest: bytes)
    requires |text| == FLOAT_LEN
    ensures Decode(Serialize(Real(text)) + rest) == Some(Read(Real(text), 1 + FLOAT_LEN))
  {
    hide DecodeItems, DecodeMembers, DecodeBig, DecodeBinary;
    var s := Serialize(Real(text)) + rest;
    assert s[0] == FLOAT && s[1..1 + FLOAT_LEN] == text;
  }

  lemma DecodeOfString(text: bytes, rest: bytes)
    requires |text| <= INT32_MAX
    ensures Decode(Binary(text) + rest) == Some(Read(String(text), |Binary(text)|))
  {
    hide DecodeItems, DecodeMembers, DecodeBig, DecodeBinary;
    assert (Binary(text) + rest)[0] == BINARY;
    BinaryIsRead(text, rest);
  }

  // ---------------------------------------------------------------- whole values

  /** Decoding the bytes of a value gives the value that stands for it, whatever follows. */
  lemma {:induction false} DecodeOfSerialize(v: Value, rest: bytes)
    requires Encodable(v)
    ensures Decode(Serialize(v) + rest) == Some(Read(Canon(v), |Serialize(v)|))
    decreases v, 0
  {
    match v
    case Integer(i) => DecodeOfInteger(i, rest);
    case Bignum(negative, magnitude) => DecodeOfBig(negative, magnitude, rest);
    case Real(text) => DecodeOfReal(text, rest);
    case String(s) => DecodeOfString(s, rest);
    case Array(items) =>
      DecodeOfItems(items, [NIL] + rest);
      ArrayIsRead(items, CanonItems(items), rest);
    case Object(members) =>
      DecodeOfMembers(members, [NIL] + rest);
      ObjectIsRead(members, CanonMembers(members), rest);
    case True => DecodeOfAtom(v, rest);
    case False => DecodeOfAtom(v, rest);
    case Null => DecodeOfAtom(v, rest);
  }

  lemma ArrayIsRead(items: seq<Value>, read: seq<Value>, rest: bytes)
    requires |items| <= INT32_MAX && |read| == |items|
    requires DecodeItems(SerializeItems(items) + ([NIL] + rest), |items|) == Some(Read(read, |SerializeItems(items)|))
    ensures Decode(Serialize(Array(items)) + rest) == Some(Read(Array(read), |Serialize(Array(items))|))
  {
    hide Be32, ReadBe32, SerializeItems, DecodeItems, DecodeMembers, DecodeBig, DecodeBinary;
    var s := Serialize(Array(items)) + rest;
    if items == [] {
      assert s[0] == NIL;
    } else {
      var body := SerializeItems(items);
      assert s[0] == LIST && s[1..] == Be32(|items|) + (body + ([NIL] + rest));
      Be32RoundTrip(|items|, body + ([NIL] + rest));
      assert s[5..] == body + ([NIL] + rest);
      assert s[5 + |body|] == NIL;
    }
  }

  lemma ObjectIsRead(members: seq<Member>, read: seq<Member>, rest: bytes)
    requires |members| <= INT32_MAX && |read| == |members|
    requires DecodeMembers(SerializeMembers(members) + ([NIL] + rest), |members|)
          == Some(Read(read, |SerializeMembers(members)|))
    ensures Decode(Serialize(Object(members)) + rest) == Some(Read(Object(read), |Serialize(Object(members))|))
  {
    hide Be32, ReadBe32, SerializeMembers, DecodeItems, DecodeMembers, DecodeBig, DecodeBinary;
    var s := Serialize(Object(members)) + rest;
    assert s[0] == SMALL_TUPLE && s[1] == 1;
    if members == [] {
      assert s[2] == NIL;
    } else {
      var body := SerializeMembers(members);
      assert s[2] == LIST && s[3..] == Be32(|members|) + (body + ([NIL] + rest));
      Be32RoundTrip(|members|, body + ([NIL] + rest));
      assert s[7..] == body + ([NIL] + rest);
      assert s[7 + |body|] == NIL;
    }
  }

  lemma {:induction false} DecodeOfItems(items: seq<Value>, rest: bytes)
    requires forall x | x in items :: Encodable(x)
    ensures DecodeItems(SerializeItems(items) + rest, |items|)
         == Some(Read(CanonItems(items), |SerializeItems(items)|))
    decreases items, 0
  {
    hide Decode, Serialize, Canon, Encodable;
    if items != [] {
      var first, more := Serialize(items[0]), SerializeItems(items[1..]);
      assert first + more + rest == first + (more + rest);
      assert (first + (more + rest))[|first|..] == more + rest;
      DecodeOfSerialize(items[0], more + rest);
      DecodeOfItems(items[1..], rest);
    }
  }

  lemma {:induction false} DecodeOfMembers(members: seq<Member>, rest: bytes)
    requires forall m | m in members :: |m.key| <= INT32_MAX && Encodable(m.value)
    ensures DecodeMembers(SerializeMembers(members) + rest, |members|)
         == Some(Read(CanonMembers(members), |SerializeMembers(members)|))
    decreases members, 0
  {
    hide Decode, DecodeBinary, DecodeMembers, Binary, Serialize, Canon, Encodable;
    if members == [] {
      NoMembers(rest);
    } else {
      var m := members[0];
      var key, first, more := Binary(m.key), Serialize(m.value), SerializeMembers(members[1..]);
      Regroup([SMALL_TUPLE, 2], key, first, more, rest);
      BinaryIsRead(m.key, first + (more + rest));
      DecodeOfSerialize(m.value, more + rest);
      DecodeOfMembers(members[1..], rest);
      MemberIsRead(key, first, more + rest, |members|);
    }
  }

  lemma Regroup(a: bytes, b: bytes, c: bytes, d: bytes, e: bytes)
    ensures a + b + c + d + e == a + (b + (c + (d + e)))
  {
    Associative(a + b + c, d, e);
    Associative(a + b, c, d + e);
    Associative(a, b, c + (d + e));
  }

  lemma NoMembers(rest: bytes)
    ensures DecodeMembers([] + rest, 0) == Some(Read([], 0))
  {
  }

  lemma MemberIsRead(key: bytes, first: bytes, after: bytes, n: nat)
    requires 0 < n
    ensures var k, v, r := DecodeBinary(key + (first + after)), Decode(first + after), DecodeMembers(after, n - 1);
            k.Some? && v.Some? && r.Some? && k.value.used == |key| && v.value.used == |first| ==>
              DecodeMembers([SMALL_TUPLE, 2] + (key + (first + after)), n)
              == Some(Read([Member(k.value.value, v.value.value)] + r.value.value, 2 + |key| + |first| + r.value.used))
  {
    hide Decode, DecodeBinary;
    var s := [SMALL_TUPLE, 2] + (key + (first + after));
    assert s[..2] == [SMALL_TUPLE, 2] && s[2..] == key + (first + after);
    assert s[2 + |key|..] == first + after;
    assert s[2 + |key| + |first|..] == after;
  }

  // ---------------------------------------------------------------- main results

  /** The value that stands for others has their bytes. */
  lemma {:induction false} CanonKeepsBytes(v: Value)
    requires Encodable(v)
    ensures Serialize(Canon(v)) == Serialize(v)
    decreases v, 0
  {
    match v
    case Integer(i) =>
    case Bignum(negative, magnitude) =>
      MagnitudeOfValue(magnitude);
    case Array(items) => CanonKeepsItems(items);
    case Object(members) => CanonKeepsMembers(members);
    case True =>
    case False =>
    case Null =>
    case Real(text) =>
    case String(s) =>
  }

  lemma {:induction false} CanonKeepsItems(items: seq<Value>)
    requires forall x | x in items :: Encodable(x)
    ensures SerializeItems(CanonItems(items)) == SerializeItems(items)
    decreases items, 0
  {
    if items != [] {
      CanonKeepsBytes(items[0]);
      CanonKeepsItems(items[1..]);
    }
  }

  lemma {:induction false} CanonKeepsMembers(members: seq<Member>)
    requires forall m | m in members :: Encodable(m.value)
    ensures SerializeMembers(CanonMembers(members)) == SerializeMembers(members)
    decreases members, 0
  {
    if members != [] {
      CanonKeepsBytes(members[0].value);
      CanonKeepsMembers(members[1..]);
    }
  }

  /** Two values have the same bytes exactly when the same value stands for both. */
  lemma SameBytesIff(v: Value, w: Value)
    requires Encodable(v) && Encodable(w)
    ensures Serialize(v) == Serialize(w) <==> Canon(v) == Canon(w)
  {
    hide Serialize, Canon, Encodable, Decode;
    DecodeOfSerialize(v, []);
    DecodeOfSerialize(w, []);
    CanonKeepsBytes(v);
    CanonKeepsBytes(w);
    assert Serialize(v) + [] == Serialize(v) && Serialize(w) + [] == Serialize(w);
  }

  /** No value's bytes are a proper beginning of another's. */
  lemma PrefixFree(v: Value, w: Value)
    requires Encodable(v) && Encodable(w) && Serialize(v) <= Serialize(w)
    ensures Serialize(v) == Serialize(w)
  {
    hide Serialize, Canon, Encodable, Decode;
    var rest := Serialize(w)[|Serialize(v)|..];
    assert Serialize(v) + rest == Serialize(w) == Serialize(w) + [];
    DecodeOfSerialize(v, rest);
    DecodeOfSerialize(w, []);
  }

  /** No negative integers, and no bignums that the 64-bit integers could hold. */
  predicate Plain(v: Value)
    decreases v, 0
  {
    match v
    case Integer(i) => i >= 0
    case Bignum(negative, magnitude) => negative || ValueOf(magnitude) <= INT32_MAX || ValueOf(magnitude) > INT64_MAX
    case Array(items) => forall x | x in items :: Plain(x)
    case Object(members) => forall m | m in members :: Plain(m.value)
    case True => true
    case False => true
    case Null => true
    case Real(text) => true
    case String(s) => true
  }

  /** These are exactly the values that stand for themselves. */
  lemma {:induction false} PlainIff(v: Value)
    ensures Canon(v) == v <==> Plain(v)
    decreases v, 0
  {
    match v
    case Array(items) => PlainItemsIff(items);
    case Object(members) => PlainMembersIff(members);
    case Integer(i) =>
    case Bignum(negative, magnitude) =>
    case True =>
    case False =>
    case Null =>
    case Real(text) =>
    case String(s) =>
  }

  lemma {:induction false} PlainItemsIff(items: seq<Value>)
    ensures CanonItems(items) == items <==> forall x | x in items :: Plain(x)
    decreases items, 0
  {
    if items != [] {
      assert items == [items[0]] + items[1..];
      PlainIff(items[0]);
      PlainItemsIff(items[1..]);
    }
  }

  lemma {:induction false} PlainMembersIff(members: seq<Member>)
    ensures CanonMembers(members) == members <==> forall m | m in members :: Plain(m.value)
    decreases members, 0
  {
    if members != [] {
      assert members == [members[0]] + members[1..];
      PlainIff(members[0].value);
      PlainMembersIff(members[1..]);
    }
  }

  /** Values without such numbers can be told apart by their bytes. */
  lemma PlainValuesDiffer(v: Value, w: Value)
    requires Encodable(v) && Encodable(w) && Plain(v) && Plain(w)
    ensures Serialize(v) == Serialize(w) <==> v == w
  {
    SameBytesIff(v, w);
    PlainIff(v);
    PlainIff(w);
  }

  /** The collision at its smallest: -1 and 255 cannot be told apart. */
  lemma MinusOneIs255()
    ensures Serialize(Integer(-1)) == Serialize(Integer(255)) == [97, 255]
  {
  }

  // ---------------------------------------------------------------- terms byte by byte

  lemma SmallAtoms()
    ensures Serialize(True) == [100, 0, 4] + Ascii("true")
    ensures Serialize(False) == [100, 0, 5] + Ascii("false")
    ensures Serialize(Null) == [100, 0, 4] + Ascii("null")
  {
  }

  lemma SmallNumbers()
    ensures Serialize(Integer(7)) == [97, 7]
    ensures Serialize(Integer(255)) == [97, 255]
    ensures Serialize(Integer(256)) == [98, 0, 0, 1, 0]
    ensures Serialize(Integer(0x7fff_ffff)) == [98, 127, 255, 255, 255]
    ensures Serialize(Integer(0x8000_0000)) == [110, 4, 0, 0, 0, 0, 128]
    ensures Serialize(Bignum(true, [1, 2])) == [110, 2, 1, 2, 1]
  {
    hide Magnitude, Reverse;
    MagnitudeBytes();
    ReverseBytes(128, 0, 0, 0);
    ReverseBytes(1, 2, 0, 0);
  }

  lemma RealBytes(text: bytes)
    requires |text| == 31
    ensures Serialize(Real(text)) == [99] + text && Decode([99] + text) == Some(Read(Real(text), 32))
  {
    hide Decode;
    DecodeOfSerialize(Real(text), []);
    assert Serialize(Real(text)) + [] == [99] + text;
  }

  lemma MagnitudeBytes()
    ensures Magnitude(0x8000_0000) == [128, 0, 0, 0]
  {
    hide Magnitude;
    MagnitudeStep(0x80);
    MagnitudeStep(0x8000);
    MagnitudeStep(0x80_0000);
    MagnitudeStep(0x8000_0000);
    assert [] + [128] == [128] && [128] + [0] == [128, 0] && [128, 0] + [0] == [128, 0, 0];
    assert [128, 0, 0] + [0] == [128, 0, 0, 0];
  }

  lemma ReverseBytes(a: byte, b: byte, c: byte, d: byte)
    ensures Reverse([a, b]) == [b, a] && Reverse([a, b, c, d]) == [d, c, b, a]
  {
    hide Reverse;
    ReverseStep(d, []);
    ReverseStep(c, [d]);
    ReverseStep(b, [c, d]);
    ReverseStep(a, [b, c, d]);
    assert [a] + [b, c, d] == [a, b, c, d] && [b] + [c, d] == [b, c, d] && [c] + [d] == [c, d] && [d] + [] == [d];
    assert [] + [d] == [d] && [d] + [c] == [d, c] && [d, c] + [b] == [d, c, b];
    ReverseStep(b, []);
    ReverseStep(a, [b]);
    assert [a] + [b] == [a, b] && [b] + [] == [b] && [] + [b] == [b];
  }

  lemma MagnitudeStep(n: nat)
    requires 0 < n
    ensures Magnitude(n) == Magnitude(n / 0x100) + [n % 0x100]
    ensures Magnitude(0) == []
  {
  }

  lemma ReverseStep(x: byte, s: bytes)
    ensures Reverse([x] + s) == Reverse(s) + [x]
    ensures Reverse([]) == []
  {
    ReverseFront(x, s);
  }

  lemma LargeBignum(negative: bool, magnitude: bytes)
    requires |magnitude| == 0x10203
    ensures Serialize(Bignum(negative, magnitude))
         == [111, 0, 1, 2, 3, if negative then 1 else 0] + Reverse(magnitude)
  {
  }

  lemma SmallContainers()
    ensures Serialize(String([65])) == [109, 0, 0, 0, 1, 65]
    ensures Serialize(Array([])) == [106]
    ensures Serialize(Array([Null])) == [108, 0, 0, 0, 1, 100, 0, 4, 110, 117, 108, 108, 106]
  {
    hide SerializeItems;
    SmallItems();
    assert Be32(1) == [0, 0, 0, 1];
  }

  lemma SmallItems()
    ensures SerializeItems([Null]) == [100, 0, 4, 110, 117, 108, 108]
    ensures SerializeMembers([Member([65], Null)]) == [104, 2, 109, 0, 0, 0, 1, 65, 100, 0, 4, 110, 117, 108, 108]
  {
    hide Serialize;
    assert Serialize(Null) == [100, 0, 4, 110, 117, 108, 108] by {
      SmallAtoms();
      assert Ascii("null") == [110, 117, 108, 108];
    }
    assert [Null][1..] == [] && [Member([65], Null)][1..] == [];
    assert Be32(1) == [0, 0, 0, 1];
  }

  lemma SmallObjects()
    ensures Serialize(Object([])) == [104, 1, 106]
    ensures Serialize(Object([Member([65], Null)]))
         == [104, 1, 108, 0, 0, 0, 1, 104, 2, 109, 0, 0, 0, 1, 65, 100, 0, 4, 110, 117, 108, 108, 106]
  {
    hide SerializeMembers;
    SmallItems();
    assert [LIST] + Be32(1) == [108, 0, 0, 0, 1];
  }
}
