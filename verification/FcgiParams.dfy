/** Name-value pairs (section 3.4 of the FastCGI Specification 1.0) and the vector that collects them. */
module FcgiParams {
  import opened Bytes

  /** The sign between name and value. */
  const EQUALS: byte := 61

  // ---------------------------------------------------------------- decoding

  /** A one- or four-byte length at the front of `d`, and how many bytes it takes. */
  function ReadLength(d: bytes): (r: Option<(nat, nat)>)
    ensures r.Some? ==> 1 <= r.value.1 <= |d|
  {
    if d == [] then None
    else if d[0] < 0x80 then Some((d[0], 1))
    else if |d| < 4 then None
    else Some((((d[0] as int) - 0x80) * 0x1000000 + (d[1] as int) * 0x10000 + (d[2] as int) * 0x100 + d[3] as int, 4))
  }

  /** Both lengths of a pair, and how many bytes they take together. */
  function ReadLengths(d: bytes): (r: Option<(nat, nat, nat)>)
    ensures r.Some? ==> 2 <= r.value.2 <= |d|
  {
    match ReadLength(d)
    case None => None
    case Some((nameLen, used)) =>
      match ReadLength(d[used..])
      case None => None
      case Some((valueLen, more)) => Some((nameLen, valueLen, used + more))
  }

  /** The name=value entries of a parameter stream, up to the first incomplete pair if there is one. */
  datatype Parsed = Parsed(entries: seq<bytes>, complete: bool)

  function ParseParams(d: bytes): Parsed {
    if d == [] then Parsed([], true)
    else
      match ReadLengths(d)
      case None => Parsed([], false)
      case Some((nameLen, valueLen, used)) =>
        var value, end := used + nameLen, used + nameLen + valueLen;
        if |d| < end then Parsed([], false)
        else
          var rest := ParseParams(d[end..]);
          Parsed([d[used..value] + [EQUALS] + d[value..end]] + rest.entries, rest.complete)
  }

  /** One step of the decoding. */
  lemma ParseStep(d: bytes)
    ensures d == [] ==> ParseParams(d) == Parsed([], true)
    ensures d != [] ==>
              match ReadLengths(d)
              case None => ParseParams(d) == Parsed([], false)
              case Some((nameLen, valueLen, used)) =>
                var value, end := used + nameLen, used + nameLen + valueLen;
                if |d| < end then ParseParams(d) == Parsed([], false)
                else
                  var rest := ParseParams(d[end..]);
                  ParseParams(d) == Parsed([d[used..value] + [EQUALS] + d[value..end]] + rest.entries, rest.complete)
  {
  }

  // ---------------------------------------------------------------- the room for an entry

  /** The argument of the allocation for an entry: a sum of ints, kept to 32 bits. */
  function EntrySize(nameLen: Int32, valueLen: Int32): (size: Int32)
  {
    (nameLen + valueLen + 2 + INT_MAX + 1) % 0x1_0000_0000 - INT_MAX - 1
  }

  /** It is the size of name, value, the sign between them and the end of the string, exactly when that fits an int. */
  lemma EntrySizeIff(nameLen: Int32, valueLen: Int32)
    requires 0 <= nameLen && 0 <= valueLen
    ensures EntrySize(nameLen, valueLen) == nameLen + valueLen + 2 <==> nameLen + valueLen + 2 <= INT_MAX
    ensures nameLen == valueLen == INT_MAX ==> EntrySize(nameLen, valueLen) == 0
  {
  }

  // ---------------------------------------------------------------- encoding

  /** A pair together with the choice of length forms the specification leaves to the sender. */
  datatype Pair = Pair(name: bytes, value: bytes, longName: bool, longValue: bool) {
    predicate Encodable() {
      && |name| < 0x8000_0000 && |value| < 0x8000_0000
      && (!longName ==> |name| < 0x80) && (!longValue ==> |value| < 0x80)
    }

    /** The entry of the environment: name=value. */
    function Entry(): bytes {
      name + Ascii("=") + value
    }
  }

  function EncodeLength(n: nat, long: bool): bytes
    requires n < 0x8000_0000 && (!long ==> n < 0x80)
  {
    if long then [0x80 + n / 0x1000000, n / 0x10000 % 0x100, n / 0x100 % 0x100, n % 0x100] else [n]
  }

  function EncodePair(p: Pair): bytes
    requires p.Encodable()
  {
    EncodeLength(|p.name|, p.longName) + EncodeLength(|p.value|, p.longValue) + p.name + p.value
  }

  function EncodePairs(pairs: seq<Pair>): bytes
    requires forall p | p in pairs :: p.Encodable()
  {
    if pairs == [] then [] else EncodePair(pairs[0]) + EncodePairs(pairs[1..])
  }

  function EntriesOf(pairs: seq<Pair>): (r: seq<bytes>)
    ensures |r| == |pairs| && forall i | 0 <= i < |pairs| :: r[i] == pairs[i].name + Ascii("=") + pairs[i].value
  {
    if pairs == [] then [] else [pairs[0].Entry()] + EntriesOf(pairs[1..])
  }

  lemma LengthRoundTrip(n: nat, long: bool, rest: bytes)
    requires n < 0x8000_0000 && (!long ==> n < 0x80)
    ensures ReadLength(EncodeLength(n, long) + rest) == Some((n, |EncodeLength(n, long)|))
  {
    if long {
      var d := EncodeLength(n, true) + rest;
      assert d[0] == 0x80 + n / 0x1000000 && d[1] == n / 0x10000 % 0x100;
      assert d[2] == n / 0x100 % 0x100 && d[3] == n % 0x100;
      Digits(n);
    }
  }

  /** Both forms byte by byte: the high bit marks the long one, whose most significant byte comes first. */
  lemma LengthBytes(rest: bytes)
    ensures ReadLength([5] + rest) == Some((5, 1)) && EncodeLength(5, false) == [5]
    ensures ReadLength([0x81, 2, 3, 4] + rest) == Some((0x01020304, 4))
    ensures EncodeLength(0x01020304, true) == [0x81, 2, 3, 4]
  {
  }

  lemma LengthsRoundTrip(p: Pair, rest: bytes)
    requires p.Encodable()
    ensures var a, b := EncodeLength(|p.name|, p.longName), EncodeLength(|p.value|, p.longValue);
            ReadLengths(a + b + rest) == Some((|p.name|, |p.value|, |a + b|))
  {
    hide EncodeLength, ReadLength;
    var a, b := EncodeLength(|p.name|, p.longName), EncodeLength(|p.value|, p.longValue);
    assert a + b + rest == a + (b + rest);
    LengthRoundTrip(|p.name|, p.longName, b + rest);
    LengthRoundTrip(|p.value|, p.longValue, rest);
    assert (a + b + rest)[|a|..] == b + rest;
  }

  /** Decoding inverts encoding, whatever length forms the sender chose. */
  lemma {:induction false} ParamsRoundTrip(pairs: seq<Pair>)
    requires forall p | p in pairs :: p.Encodable()
    ensures ParseParams(EncodePairs(pairs)) == Parsed(EntriesOf(pairs), true)
  {
    hide Ascii;
    if pairs != [] {
      var p, rest := pairs[0], EncodePairs(pairs[1..]);
      ParamsRoundTrip(pairs[1..]);
      PairRoundTrip(p, rest);
    }
  }

  lemma PairRoundTrip(p: Pair, rest: bytes)
    requires p.Encodable()
    ensures var more := ParseParams(rest);
            ParseParams(EncodePair(p) + rest) == Parsed([p.Entry()] + more.entries, more.complete)
  {
    hide EncodeLength, ReadLengths;
    EqualsSign();
    PairLayout(p, rest);
    var lengths := EncodeLength(|p.name|, p.longName) + EncodeLength(|p.value|, p.longValue);
    LengthsRoundTrip(p, p.name + p.value + rest);
  }

  lemma EqualsSign()
    ensures Ascii("=") == [EQUALS]
  {
  }

  lemma PairLayout(p: Pair, rest: bytes)
    requires p.Encodable()
    ensures var lengths := EncodeLength(|p.name|, p.longName) + EncodeLength(|p.value|, p.longValue);
            var d, used := EncodePair(p) + rest, |lengths|;
            && d == lengths + (p.name + p.value + rest) && |d| >= used + |p.name| + |p.value|
            && d[used..used + |p.name|] == p.name
            && d[used + |p.name|..used + |p.name| + |p.value|] == p.value
            && d[used + |p.name| + |p.value|..] == rest
  {
    hide EncodeLength;
  }

  // ---------------------------------------------------------------- the vector

  function Values(s: seq<Option<bytes>>): (r: seq<bytes>)
    requires forall i | 0 <= i < |s| :: s[i].Some?
    ensures |r| == |s| && forall i | 0 <= i < |s| :: r[i] == s[i].value
  {
    if s == [] then [] else Values(s[..|s| - 1]) + [s[|s| - 1].value]
  }

  lemma OneMoreValue(s: seq<Option<bytes>>, v: bytes)
    requires forall i | 0 <= i < |s| :: s[i].Some?
    ensures Values(s + [Some(v)]) == Values(s) + [v]
  {
    assert (s + [Some(v)])[..|s|] == s;
  }

  /** A NULL-terminated vector of strings that doubles when it is full. */
  class Params {
    var vec: array<Option<bytes>>
    var cur: nat

    ghost predicate Valid()
      reads this, vec
    {
      && cur < vec.Length && vec[cur] == None
      && forall i | 0 <= i < cur :: vec[i].Some?
    }

    ghost function Contents(): seq<bytes>
      requires Valid()
      reads this, vec
    {
      Values(vec[..cur])
    }

    constructor (length: nat)
      requires 0 < length
      ensures Valid() && Contents() == [] && vec.Length == length && fresh(vec)
    {
      vec := new Option<bytes>[length](_ => None);
      cur := 0;
    }

    method PutParam(nameValue: bytes)
      requires Valid()
      modifies this, vec
      ensures Valid() && Contents() == old(Contents()) + [nameValue]
      ensures vec == old(vec) || (fresh(vec) && vec.Length == 2 * old(vec.Length))
    {
      hide Values;
      ghost var before := vec[..cur];
      OneMoreValue(before, nameValue);
      vec[cur] := Some(nameValue);
      cur := cur + 1;
      assert vec[..cur] == before + [Some(nameValue)];
      var size := cur;
      if size >= vec.Length {
        var bigger := Doubled(vec);
        assert bigger[..size] == vec[..size];
        vec := bigger;
        cur := size;
      }
      vec[cur] := None;
      assert vec[..cur] == before + [Some(nameValue)];
    }
  }

  /** realloc to twice the length. */
  method Doubled(vec: array<Option<bytes>>) returns (bigger: array<Option<bytes>>)
    ensures fresh(bigger) && bigger.Length == 2 * vec.Length && bigger[..vec.Length] == vec[..]
  {
    bigger := new Option<bytes>[vec.Length * 2](_ => None);
    forall i | 0 <= i < vec.Length {
      bigger[i] := vec[i];
    }
  }
}
