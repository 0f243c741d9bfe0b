/**
 * Comparing eight bytes at a time: the XOR of two little-endian words, and the count of trailing zero
 * bytes by the De Bruijn multiplication of LZ4_NbCommonBytes.
 */
module Lz4Word {
  import opened Bytes

  const DE_BRUIJN: bv64 := 0x0218A392CDABBD3F

  const DE_BRUIJN_BYTE_POS: seq<nat> :=
    (([0, 0, 0, 0, 0, 1, 1, 2] + [0, 3, 1, 3, 1, 4, 2, 7]) + ([0, 2, 3, 6, 1, 5, 3, 5] + [1, 3, 4, 4, 2, 5, 6, 7]))
    + (([7, 0, 1, 2, 3, 3, 4, 6] + [2, 6, 5, 5, 3, 4, 5, 6]) + ([7, 1, 2, 4, 6, 4, 4, 5] + [7, 2, 6, 5, 7, 6, 7, 7]))

  function Slot(lowestBit: bv64): bv64 {
    (lowestBit * DE_BRUIJN) >> 58
  }

  function NbCommonBytes(val: bv64): nat {
    DE_BRUIJN_BYTE_POS[Slot(val & (0 - val)) as int]
  }

  /** Byte `i` of a word, the least significant first. */
  function ByteOf(w: bv64, i: nat): bv64
    requires i < 8
  {
    match i
    case 0 => w & 0xff
    case 1 => (w >> 8) & 0xff
    case 2 => (w >> 16) & 0xff
    case 3 => (w >> 24) & 0xff
    case 4 => (w >> 32) & 0xff
    case 5 => (w >> 40) & 0xff
    case 6 => (w >> 48) & 0xff
    case _ => (w >> 56) & 0xff
  }

  /** The bits of a byte, one hexadecimal digit at a time. */
  function Bits(b: byte): bv8 {
    (DigitBits(b / 16) << 4) | DigitBits(b % 16)
  }

  function DigitBits(n: nat): bv8
    requires n < 16
  {
    match n
    case 0 => 0 case 1 => 1 case 2 => 2 case 3 => 3 case 4 => 4 case 5 => 5 case 6 => 6 case 7 => 7
    case 8 => 8 case 9 => 9 case 10 => 10 case 11 => 11 case 12 => 12 case 13 => 13 case 14 => 14 case _ => 15
  }

  /** They are the bits of this number. */
  lemma BitsAreOfByte(b: byte)
    ensures Bits(b) as int == b
  {
    hide DigitBits;
    DigitBitsValue(b / 16);
    DigitBitsValue(b % 16);
    ShiftedDigit(DigitBits(b / 16), DigitBits(b % 16));
  }

  lemma DigitBitsValue(n: nat)
    requires n < 16
    ensures DigitBits(n) as int == n && DigitBits(n) < 16
  {
  }

  lemma ShiftedDigit(hi: bv8, lo: bv8)
    requires hi < 16 && lo < 16
    ensures ((hi << 4) | lo) as int == 16 * (hi as int) + lo as int
  {
  }

  function BitsOf(s: bytes): (r: seq<bv8>)
    ensures |r| == |s|
    ensures forall i | 0 <= i < |s| :: r[i] == Bits(s[i])
  {
    seq(|s|, i requires 0 <= i < |s| => Bits(s[i]))
  }

  /** The little-endian word stored in eight bytes. */
  function Word(s: seq<bv8>): bv64
    requires |s| == 8
  {
    Pack(s[0], s[1], s[2], s[3], s[4], s[5], s[6], s[7])
  }

  function Pack(b0: bv8, b1: bv8, b2: bv8, b3: bv8, b4: bv8, b5: bv8, b6: bv8, b7: bv8): bv64 {
    (b0 as bv64) | (b1 as bv64 << 8) | (b2 as bv64 << 16) | (b3 as bv64 << 24)
    | (b4 as bv64 << 32) | (b5 as bv64 << 40) | (b6 as bv64 << 48) | (b7 as bv64 << 56)
  }

  // One lemma for each position of the lowest non-zero byte: its eight possible lowest bits select
  // eight slots of the table, all holding that position.

  lemma Trailing0(val: bv64)
    requires val & 0xff != 0
    ensures NbCommonBytes(val) == 0
  {
    var k := Slot(val & (0 - val));
    assert k == 0 || k == 1 || k == 2 || k == 4 || k == 8 || k == 16 || k == 33 || k == 3;
    var i := k as int;
    assert i == 0 || i == 1 || i == 2 || i == 4 || i == 8 || i == 16 || i == 33 || i == 3;
  }

  lemma Trailing1(val: bv64)
    requires val & 0xff == 0 && val & 0xff00 != 0
    ensures NbCommonBytes(val) == 1
  {
    var k := Slot(val & (0 - val));
    assert k == 6 || k == 12 || k == 24 || k == 49 || k == 34 || k == 5 || k == 10 || k == 20;
    var i := k as int;
    assert i == 6 || i == 12 || i == 24 || i == 49 || i == 34 || i == 5 || i == 10 || i == 20;
  }

  lemma Trailing2(val: bv64)
    requires val & 0xffff == 0 && val & 0xff0000 != 0
    ensures NbCommonBytes(val) == 2
  {
    var k := Slot(val & (0 - val));
    assert k == 40 || k == 17 || k == 35 || k == 7 || k == 14 || k == 28 || k == 57 || k == 50;
    var i := k as int;
    assert i == 40 || i == 17 || i == 35 || i == 7 || i == 14 || i == 28 || i == 57 || i == 50;
  }

  lemma Trailing3(val: bv64)
    requires val & 0xffffff == 0 && val & 0xff000000 != 0
    ensures NbCommonBytes(val) == 3
  {
    var k := Slot(val & (0 - val));
    assert k == 36 || k == 9 || k == 18 || k == 37 || k == 11 || k == 22 || k == 44 || k == 25;
    var i := k as int;
    assert i == 36 || i == 9 || i == 18 || i == 37 || i == 11 || i == 22 || i == 44 || i == 25;
  }

  lemma Trailing4(val: bv64)
    requires val & 0xffffffff == 0 && val & 0xff00000000 != 0
    ensures NbCommonBytes(val) == 4
  {
    var k := Slot(val & (0 - val));
    assert k == 51 || k == 38 || k == 13 || k == 27 || k == 54 || k == 45 || k == 26 || k == 53;
    var i := k as int;
    assert i == 51 || i == 38 || i == 13 || i == 27 || i == 54 || i == 45 || i == 26 || i == 53;
  }

  lemma Trailing5(val: bv64)
    requires val & 0xffffffffff == 0 && val & 0xff0000000000 != 0
    ensures NbCommonBytes(val) == 5
  {
    var k := Slot(val & (0 - val));
    assert k == 42 || k == 21 || k == 43 || k == 23 || k == 46 || k == 29 || k == 59 || k == 55;
    var i := k as int;
    assert i == 42 || i == 21 || i == 43 || i == 23 || i == 46 || i == 29 || i == 59 || i == 55;
  }

  lemma Trailing6(val: bv64)
    requires val & 0xffffffffffff == 0 && val & 0xff000000000000 != 0
    ensures NbCommonBytes(val) == 6
  {
    var k := Slot(val & (0 - val));
    assert k == 47 || k == 30 || k == 61 || k == 58 || k == 52 || k == 41 || k == 19 || k == 39;
    var i := k as int;
    assert i == 47 || i == 30 || i == 61 || i == 58 || i == 52 || i == 41 || i == 19 || i == 39;
  }

  lemma Trailing7(val: bv64)
    requires val & 0xffffffffffffff == 0 && val & 0xff00000000000000 != 0
    ensures NbCommonBytes(val) == 7
  {
    var k := Slot(val & (0 - val));
    assert k == 15 || k == 31 || k == 63 || k == 62 || k == 60 || k == 56 || k == 48 || k == 32;
    var i := k as int;
    assert i == 15 || i == 31 || i == 63 || i == 62 || i == 60 || i == 56 || i == 48 || i == 32;
  }

  /** Number of trailing zero bytes, counted one byte at a time. */
  function TrailingZeroBytes(w: bv64, from: nat): (n: nat)
    requires from <= 8
    ensures from <= n <= 8
    ensures forall i | from <= i < n :: ByteOf(w, i) == 0
    ensures n < 8 ==> ByteOf(w, n) != 0
    decreases 8 - from
  {
    if from == 8 || ByteOf(w, from) != 0 then from else TrailingZeroBytes(w, from + 1)
  }

  lemma LowBytesMask(val: bv64, n: nat)
    requires n < 8
    requires forall i | 0 <= i < n :: ByteOf(val, i) == 0
    ensures n >= 1 ==> val & 0xff == 0
    ensures n >= 2 ==> val & 0xffff == 0
    ensures n >= 3 ==> val & 0xffffff == 0
    ensures n >= 4 ==> val & 0xffffffff == 0
    ensures n >= 5 ==> val & 0xffffffffff == 0
    ensures n >= 6 ==> val & 0xffffffffffff == 0
    ensures n >= 7 ==> val & 0xffffffffffffff == 0
  {
    assert n >= 1 ==> ByteOf(val, 0) == 0;
    assert n >= 2 ==> ByteOf(val, 1) == 0;
    assert n >= 3 ==> ByteOf(val, 2) == 0;
    assert n >= 4 ==> ByteOf(val, 3) == 0;
    assert n >= 5 ==> ByteOf(val, 4) == 0;
    assert n >= 6 ==> ByteOf(val, 5) == 0;
    assert n >= 7 ==> ByteOf(val, 6) == 0;
  }

  /** For every non-zero word the multiply-and-look-up form is the number of trailing zero bytes. */
  lemma NbCommonBytesIsTrailingZeroBytes(val: bv64)
    requires val != 0
    ensures NbCommonBytes(val) == TrailingZeroBytes(val, 0) < 8
  {
    var n := TrailingZeroBytes(val, 0);
    NonZeroByte(val, n);
    LowBytesMask(val, n);
    match n
    case 0 => Trailing0(val);
    case 1 => Trailing1(val);
    case 2 => Trailing2(val);
    case 3 => Trailing3(val);
    case 4 => Trailing4(val);
    case 5 => Trailing5(val);
    case 6 => Trailing6(val);
    case _ => Trailing7(val);
  }

  lemma NonZeroByte(val: bv64, n: nat)
    requires val != 0 && n <= 8
    requires forall i | 0 <= i < n :: ByteOf(val, i) == 0
    ensures n < 8
  {
    assert ByteOf(val, 0) != 0 || ByteOf(val, 1) != 0 || ByteOf(val, 2) != 0 || ByteOf(val, 3) != 0
           || ByteOf(val, 4) != 0 || ByteOf(val, 5) != 0 || ByteOf(val, 6) != 0 || ByteOf(val, 7) != 0;
  }

  lemma PackBytes(b0: bv8, b1: bv8, b2: bv8, b3: bv8, b4: bv8, b5: bv8, b6: bv8, b7: bv8)
    ensures var w := Pack(b0, b1, b2, b3, b4, b5, b6, b7);
            && ByteOf(w, 0) == b0 as bv64 && ByteOf(w, 1) == b1 as bv64 && ByteOf(w, 2) == b2 as bv64
            && ByteOf(w, 3) == b3 as bv64 && ByteOf(w, 4) == b4 as bv64 && ByteOf(w, 5) == b5 as bv64
            && ByteOf(w, 6) == b6 as bv64 && ByteOf(w, 7) == b7 as bv64
  {
  }

  /** `w` is the little-endian word stored in the eight bytes `s`. */
  ghost predicate Holds(w: bv64, s: seq<bv8>) {
    && |s| == 8
    && ByteOf(w, 0) == s[0] as bv64 && ByteOf(w, 1) == s[1] as bv64
    && ByteOf(w, 2) == s[2] as bv64 && ByteOf(w, 3) == s[3] as bv64
    && ByteOf(w, 4) == s[4] as bv64 && ByteOf(w, 5) == s[5] as bv64
    && ByteOf(w, 6) == s[6] as bv64 && ByteOf(w, 7) == s[7] as bv64
  }

  lemma WordHolds(s: seq<bv8>)
    requires |s| == 8
    ensures Holds(Word(s), s)
  {
    PackBytes(s[0], s[1], s[2], s[3], s[4], s[5], s[6], s[7]);
  }

  lemma XorBytes(v: bv64, w: bv64)
    ensures ByteOf(v ^ w, 0) == ByteOf(v, 0) ^ ByteOf(w, 0) && ByteOf(v ^ w, 1) == ByteOf(v, 1) ^ ByteOf(w, 1)
    ensures ByteOf(v ^ w, 2) == ByteOf(v, 2) ^ ByteOf(w, 2) && ByteOf(v ^ w, 3) == ByteOf(v, 3) ^ ByteOf(w, 3)
    ensures ByteOf(v ^ w, 4) == ByteOf(v, 4) ^ ByteOf(w, 4) && ByteOf(v ^ w, 5) == ByteOf(v, 5) ^ ByteOf(w, 5)
    ensures ByteOf(v ^ w, 6) == ByteOf(v, 6) ^ ByteOf(w, 6) && ByteOf(v ^ w, 7) == ByteOf(v, 7) ^ ByteOf(w, 7)
  {
  }

  lemma XorIsZero(a: bv8, b: bv8)
    ensures (a as bv64) ^ (b as bv64) == 0 <==> a == b
  {
  }

  /** A byte of the XOR of two words is zero exactly when the words agree there. */
  lemma WordDifference(v: bv64, w: bv64, a: seq<bv8>, b: seq<bv8>)
    requires Holds(v, a) && Holds(w, b)
    ensures MarksDifferences(v ^ w, a, b)
  {
    XorBytes(v, w);
    XorIsZero(a[0], b[0]);
    XorIsZero(a[1], b[1]);
    XorIsZero(a[2], b[2]);
    XorIsZero(a[3], b[3]);
    XorIsZero(a[4], b[4]);
    XorIsZero(a[5], b[5]);
    XorIsZero(a[6], b[6]);
    XorIsZero(a[7], b[7]);
  }

  ghost predicate MarksDifferences(diff: bv64, a: seq<bv8>, b: seq<bv8>)
    requires |a| == |b| == 8
  {
    && (ByteOf(diff, 0) == 0 <==> a[0] == b[0]) && (ByteOf(diff, 1) == 0 <==> a[1] == b[1])
    && (ByteOf(diff, 2) == 0 <==> a[2] == b[2]) && (ByteOf(diff, 3) == 0 <==> a[3] == b[3])
    && (ByteOf(diff, 4) == 0 <==> a[4] == b[4]) && (ByteOf(diff, 5) == 0 <==> a[5] == b[5])
    && (ByteOf(diff, 6) == 0 <==> a[6] == b[6]) && (ByteOf(diff, 7) == 0 <==> a[7] == b[7])
  }

  lemma FirstDifference(diff: bv64, a: seq<bv8>, b: seq<bv8>)
    requires |a| == |b| == 8 && MarksDifferences(diff, a, b)
    ensures diff == 0 <==> a == b
    ensures var n := TrailingZeroBytes(diff, 0);
            diff != 0 ==> n < 8 && a[n] != b[n] && forall i | 0 <= i < n :: a[i] == b[i]
  {
    if diff != 0 {
      var n := TrailingZeroBytes(diff, 0);
      NonZeroByte(diff, n);
      forall i | 0 <= i <= n
        ensures a[i] == b[i] <==> ByteOf(diff, i) == 0
      {
        assert i == 0 || i == 1 || i == 2 || i == 3 || i == 4 || i == 5 || i == 6 || i == 7;
      }
    }
  }

  lemma DigitBitsInjective(m: nat, n: nat)
    requires m < 16 && n < 16
    ensures DigitBits(m) < 16
    ensures DigitBits(m) == DigitBits(n) <==> m == n
  {
  }

  lemma DigitsOfBits(x: bv8, y: bv8, z: bv8, w: bv8)
    requires x < 16 && y < 16 && z < 16 && w < 16
    ensures (x << 4) | y == (z << 4) | w <==> x == z && y == w
  {
  }

  lemma BitsInjective(a: byte, b: byte)
    ensures Bits(a) == Bits(b) <==> a == b
  {
    hide DigitBits;
    DigitBitsInjective(a / 16, b / 16);
    DigitBitsInjective(a % 16, b % 16);
    DigitBitsInjective(b / 16, a / 16);
    DigitBitsInjective(b % 16, a % 16);
    DigitsOfBits(DigitBits(a / 16), DigitBits(a % 16), DigitBits(b / 16), DigitBits(b % 16));
  }

  lemma BitsOfInjective(a: bytes, b: bytes)
    requires |a| == |b|
    ensures BitsOf(a) == BitsOf(b) <==> a == b
    ensures forall i | 0 <= i < |a| :: BitsOf(a)[i] == BitsOf(b)[i] <==> a[i] == b[i]
  {
    forall i | 0 <= i < |a|
      ensures BitsOf(a)[i] == BitsOf(b)[i] <==> a[i] == b[i]
    {
      BitsInjective(a[i], b[i]);
    }
  }

  /** Two 8-byte windows agree on as many leading bytes as their difference has trailing zero bytes. */
  lemma CommonBytes(v: bv64, w: bv64, a: bytes, b: bytes)
    requires Holds(v, BitsOf(a)) && Holds(w, BitsOf(b))
    ensures v ^ w == 0 <==> a == b
    ensures var n := TrailingZeroBytes(v ^ w, 0);
            v ^ w != 0 ==> n < 8 && a[..n] == b[..n] && a[n] != b[n]
  {
    hide Holds, MarksDifferences, TrailingZeroBytes, BitsOf, Bits;
    EightBytes(v, a);
    EightBytes(w, b);
    WordDifference(v, w, BitsOf(a), BitsOf(b));
    FirstDifference(v ^ w, BitsOf(a), BitsOf(b));
    BitsOfInjective(a, b);
    var n := TrailingZeroBytes(v ^ w, 0);
    if v ^ w != 0 {
      assert forall i | 0 <= i < n :: BitsOf(a)[i] == BitsOf(b)[i] && a[i] == b[i];
      assert BitsOf(a)[n] != BitsOf(b)[n];
    }
  }

  lemma EightBytes(w: bv64, a: bytes)
    requires Holds(w, BitsOf(a))
    ensures |a| == 8
  {
  }

  /** A[64] of the C code: the little-endian word at `p`. */
  method LoadWord(a: array<byte>, p: nat) returns (w: bv64)
    requires p + 8 <= a.Length
    ensures Holds(w, BitsOf(a[p..p + 8]))
  {
    var s := a[p..p + 8];
    w := Word(BitsOf(s));
    WordHolds(BitsOf(s));
  }

  method CountCommonBytes(diff: bv64) returns (n: nat)
    requires diff != 0
    ensures n == TrailingZeroBytes(diff, 0)
  {
    NbCommonBytesIsTrailingZeroBytes(diff);
    n := NbCommonBytes(diff);
  }

  /** How many of the eight bytes at `p` and at `q` agree, by one XOR and one bit count. */
  method EqualLeadingBytes(a: array<byte>, p: nat, q: nat) returns (n: nat)
    requires p + 8 <= a.Length && q + 8 <= a.Length
    ensures n <= 8 && a[..][p..p + n] == a[..][q..q + n]
    ensures n < 8 ==> a[p + n] != a[q + n]
  {
    hide Holds, ByteOf, BitsOf, TrailingZeroBytes;
    var v := LoadWord(a, p);
    var w := LoadWord(a, q);
    var diff := v ^ w;
    CommonBytes(v, w, a[p..p + 8], a[q..q + 8]);
    if diff == 0 {
      n := 8;
    } else {
      n := CountCommonBytes(diff);
    }
    assert a[p..p + 8] == a[..][p..p + 8] && a[q..q + 8] == a[..][q..q + 8];
    PrefixOfWindow(a[..], p, n);
    PrefixOfWindow(a[..], q, n);
  }

  lemma PrefixOfWindow(s: bytes, p: nat, n: nat)
    requires p + 8 <= |s| && n <= 8
    ensures s[p..p + n] == s[p..p + 8][..n]
    ensures n < 8 ==> s[p + n] == s[p..p + 8][n]
  {
  }
}
