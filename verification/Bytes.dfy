/** Bytes as bounded integers and an optional value, shared by every component of the model. */
module Bytes {
  type byte = x: int | 0 <= x < 0x100

  type bytes = seq<byte>

  const INT_MAX := 0x7fff_ffff

  /** A signed integer of 32 bits, which must not overflow. */
  type Int32 = n: int | -INT_MAX - 1 <= n <= INT_MAX

  datatype Option<T> = None | Some(value: T)

  function Zeros(n: nat): (z: bytes)
    ensures |z| == n && forall i | 0 <= i < n :: z[i] == 0
  {
    seq(n, _ => 0)
  }

  /** The characters of a string of the C code as bytes. */
  function Ascii(t: string): (b: bytes)
    ensures |b| == |t|
  {
    seq(|t|, i requires 0 <= i < |t| => t[i] as int % 0x100)
  }

  /** A number below 2^32 and its four bytes. */
  lemma Digits(n: nat)
    ensures n == n / 0x1000000 * 0x1000000 + n / 0x10000 % 0x100 * 0x10000 + n / 0x100 % 0x100 * 0x100 + n % 0x100
  {
    assert n / 0x10000 == n / 0x100 / 0x100;
    assert n / 0x1000000 == n / 0x10000 / 0x100;
  }

  lemma Associative(a: bytes, b: bytes, c: bytes)
    ensures a + b + c == a + (b + c)
  {
  }

  lemma SplitAt(a: bytes, b: bytes)
    ensures (a + b)[..|a|] == a && (a + b)[|a|..] == b
  {
  }
}
