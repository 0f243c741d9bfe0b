/**
 * JSON values as CouchDB feeds them to its digest: the Erlang External Term Format, as a function from
 * values to bytes, and the decoder that shows what of a value the bytes still tell.
 */
module CouchTerms {
  import opened Bytes

  const INT32_MAX := 0x7fff_ffff
  const INT64_MAX := 0x7fff_ffff_ffff_ffff

  type Int64 = i: int | -0x8000_0000_0000_0000 <= i <= INT64_MAX

  /** A real number stands for the 31 bytes it is printed as; `magnitude` is big-endian. */
  datatype Value =
    | True | False | Null
    | Integer(i: Int64)
    | Bignum(negative: bool, magnitude: bytes)
    | Real(text: bytes)
    | String(s: bytes)
    | Array(items: seq<Value>)
    | Object(members: seq<Member>)

  datatype Member = Member(key: bytes, value: Value)

  // ---------------------------------------------------------------- terms

  const TRUE: bytes := [100, 0, 4, 116, 114, 117, 101]
  const FALSE: bytes := [100, 0, 5, 102, 97, 108, 115, 101]
  const NULL: bytes := [100, 0, 4, 110, 117, 108, 108]
  const SMALL_INT: byte := 97
  const INT: byte := 98
  const FLOAT: byte := 99
  const ATOM: byte := 100
  const SMALL_TUPLE: byte := 104
  const NIL: byte := 106
  const LIST: byte := 108
  const BINARY: byte := 109
  const SMALL_BIG: byte := 110
  const LARGE_BIG: byte := 111

  const FLOAT_LEN := 31

  function Byte(n: int): byte {
    n % 0x100
  }

  /** The low 32 bits, most significant byte first. */
  function Be32(n: int): (r: bytes)
    ensures |r| == 4
  {
    [Byte(n / 0x1000000), Byte(n / 0x10000), Byte(n / 0x100), Byte(n)]
  }

  function Reverse(s: bytes): (r: bytes)
    ensures |r| == |s|
  {
    if s == [] then [] else [s[|s| - 1]] + Reverse(s[..|s| - 1])
  }

  /** A natural number in as few bytes as possible, most significant first. */
  function Magnitude(n: nat): (r: bytes)
    ensures r != [] ==> r[0] != 0
    ensures r == [] <==> n == 0
  {
    if n == 0 then [] else Magnitude(n / 0x100) + [Byte(n)]
  }

  function ValueOf(m: bytes): nat {
    if m == [] then 0 else 0x100 * ValueOf(m[..|m| - 1]) + m[|m| - 1] as nat
  }

  /** Sign and magnitude, least significant byte first. */
  function Big(negative: bool, magnitude: bytes): bytes {
    (if |magnitude| < 256 then [SMALL_BIG, |magnitude|] else [LARGE_BIG] + Be32(|magnitude|))
    + [SignByte(negative)] + Reverse(magnitude)
  }

  function SignByte(negative: bool): byte {
    if negative then 1 else 0
  }

  function Binary(s: bytes): bytes {
    [BINARY] + Be32(|s|) + s
  }

  function IntegerTerm(i: Int64): bytes {
    if i < 256 then [SMALL_INT, Byte(i)]
    else if i <= INT32_MAX then [INT] + Be32(i)
    else Big(false, Magnitude(i))
  }

  function Serialize(v: Value): (r: bytes)
    ensures r != []
    decreases v, 0
  {
    match v
    case True => TRUE
    case False => FALSE
    case Null => NULL
    case Integer(i) => IntegerTerm(i)
    case Bignum(negative, magnitude) => Big(negative, magnitude)
    case Real(text) => [FLOAT] + text
    case String(s) => Binary(s)
    case Array(items) => (if items == [] then [] else [LIST] + Be32(|items|) + SerializeItems(items)) + [NIL]
    case Object(members) =>
      [SMALL_TUPLE, 1]
      + (if members == [] then [] else [LIST] + Be32(|members|) + SerializeMembers(members)) + [NIL]
  }

  function SerializeItems(items: seq<Value>): bytes
    decreases items, 0
  {
    if items == [] then [] else Serialize(items[0]) + SerializeItems(items[1..])
  }

  function SerializeMembers(members: seq<Member>): bytes
    decreases members, 0
  {
    if members == [] then []
    else
      [SMALL_TUPLE, 2] + Binary(members[0].key) + Serialize(members[0].value) + SerializeMembers(members[1..])
  }

  // ---------------------------------------------------------------- reading terms back

  /** What was read and how many bytes it took. */
  datatype Read<T> = Read(value: T, used: nat)

  function ReadBe32(s: bytes): (n: nat)
    requires 4 <= |s|
  {
    s[0] as nat * 0x1000000 + s[1] as nat * 0x10000 + s[2] as nat * 0x100 + s[3] as nat
  }

  /** The value of a big integer's bytes: an integer when the serialiser would have written it so. */
  function FromBig(negative: bool, magnitude: bytes): Value {
    var n := ValueOf(magnitude);
    if !negative && INT32_MAX < n <= INT64_MAX then Integer(n) else Bignum(negative, magnitude)
  }

  function DecodeBig(s: bytes, start: nat, length: nat): (r: Option<Read<Value>>)
    requires start <= |s|
    ensures r.Some? ==> start < r.value.used <= |s|
  {
    if |s| < start + 1 + length then None
    else Some(Read(FromBig(s[start] != 0, Reverse(s[start + 1..start + 1 + length])), start + 1 + length))
  }

  function DecodeBinary(s: bytes): (r: Option<Read<bytes>>)
    ensures r.Some? ==> 5 <= r.value.used <= |s|
  {
    if |s| < 5 || s[0] != BINARY then None
    else
      var n := ReadBe32(s[1..]);
      if |s| < 5 + n then None else Some(Read(s[5..5 + n], 5 + n))
  }

  function Decode(s: bytes): (r: Option<Read<Value>>)
    ensures r.Some? ==> 1 <= r.value.used <= |s|
    decreases |s|, 0
  {
    if s == [] then None
    else if s[0] == ATOM then
      if TRUE <= s then Some(Read(True, |TRUE|))
      else if FALSE <= s then Some(Read(False, |FALSE|))
      else if NULL <= s then Some(Read(Null, |NULL|))
      else None
    else if s[0] == SMALL_INT then if |s| < 2 then None else Some(Read(Integer(s[1]), 2))
    else if s[0] == INT then
      if |s| < 5 then None else Some(Read(Integer(ReadBe32(s[1..])), 5))
    else if s[0] == FLOAT then
      if |s| < 1 + FLOAT_LEN then None else Some(Read(Real(s[1..1 + FLOAT_LEN]), 1 + FLOAT_LEN))
    else if s[0] == SMALL_BIG then if |s| < 2 then None else DecodeBig(s, 2, s[1])
    else if s[0] == LARGE_BIG then if |s| < 5 then None else DecodeBig(s, 5, ReadBe32(s[1..]))
    else if s[0] == BINARY then
      match DecodeBinary(s)
      case None => None
      case Some(Read(text, used)) => Some(Read(String(text), used))
    else if s[0] == NIL then Some(Read(Array([]), 1))
    else if s[0] == LIST then
      if |s| < 5 then None
      else
        match DecodeItems(s[5..], ReadBe32(s[1..]))
        case None => None
        case Some(Read(items, used)) =>
          if |s| <= 5 + used || s[5 + used] != NIL then None else Some(Read(Array(items), 6 + used))
    else if s[0] == SMALL_TUPLE then
      if |s| < 3 || s[1] != 1 then None
      else if s[2] == NIL then Some(Read(Object([]), 3))
      else if |s| < 7 || s[2] != LIST then None
      else
        match DecodeMembers(s[7..], ReadBe32(s[3..]))
        case None => None
        case Some(Read(members, used)) =>
          if |s| <= 7 + used || s[7 + used] != NIL then None else Some(Read(Object(members), 8 + used))
    else None
  }

  function DecodeItems(s: bytes, n: nat): (r: Option<Read<seq<Value>>>)
    ensures r.Some? ==> r.value.used <= |s|
    decreases |s|, 1
  {
    if n == 0 then Some(Read([], 0))
    else
      match Decode(s)
      case None => None
      case Some(Read(v, used)) =>
        match DecodeItems(s[used..], n - 1)
        case None => None
        case Some(Read(rest, more)) => Some(Read([v] + rest, used + more))
  }

  function DecodeMembers(s: bytes, n: nat): (r: Option<Read<seq<Member>>>)
    ensures r.Some? ==> r.value.used <= |s|
    decreases |s|, 1
  {
    if n == 0 then Some(Read([], 0))
    else if |s| < 2 || s[..2] != [SMALL_TUPLE, 2] then None
    else
      match DecodeBinary(s[2..])
      case None => None
      case Some(Read(key, used)) =>
        match Decode(s[2 + used..])
        case None => None
        case Some(Read(v, more)) =>
          match DecodeMembers(s[2 + used + more..], n - 1)
          case None => None
          case Some(Read(rest, last)) => Some(Read([Member(key, v)] + rest, 2 + used + more + last))
  }

  // ---------------------------------------------------------------- what can be told apart

  /** Sizes fit the format's fields, and a bignum has no leading zeros and is not zero. */
  predicate Encodable(v: Value)
    decreases v, 0
  {
    match v
    case Bignum(negative, magnitude) => magnitude != [] && magnitude[0] != 0 && |magnitude| <= INT32_MAX
    case Real(text) => |text| == FLOAT_LEN
    case String(s) => |s| <= INT32_MAX
    case Array(items) => |items| <= INT32_MAX && forall x | x in items :: Encodable(x)
    case Object(members) =>
      |members| <= INT32_MAX && forall m | m in members :: |m.key| <= INT32_MAX && Encodable(m.value)
    case True => true
    case False => true
    case Null => true
    case Integer(i) => true
  }

  /**
   * The value that stands for all those with the same bytes.  Every integer below 256 is cast to one byte,
   * so the negative ones share the bytes of a number from 0 to 255; and a bignum that would fit the 64-bit
   * branch of the integers has the bytes of that integer.
   */
  function Canon(v: Value): Value
    decreases v, 0
  {
    match v
    case Integer(i) => if i < 256 then Integer(Byte(i)) else v
    case Bignum(negative, magnitude) => FromBig(negative, magnitude)
    case Array(items) => Array(CanonItems(items))
    case Object(members) => Object(CanonMembers(members))
    case True => v
    case False => v
    case Null => v
    case Real(text) => v
    case String(s) => v
  }

  function CanonItems(items: seq<Value>): (r: seq<Value>)
    ensures |r| == |items|
    decreases items, 0
  {
    if items == [] then [] else [Canon(items[0])] + CanonItems(items[1..])
  }

  function CanonMembers(members: seq<Member>): (r: seq<Member>)
    ensures |r| == |members|
    decreases members, 0
  {
    if members == [] then []
    else [Member(members[0].key, Canon(members[0].value))] + CanonMembers(members[1..])
  }
}
