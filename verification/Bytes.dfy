/** Bytes, results and big-endian numbers shared by every component. */
module Bytes {

  type byte = x: int | 0 <= x < 256

  type bytes = seq<byte>

  datatype Option<+T> = None | Some(value: T)

  /** The outcome of an operation that the source reports by an exception or an error value. */
  datatype Result<+T> = Ok(value: T) | Err(message: string)

  /** The least significant byte of `n`: what storing a number in a byte array keeps. */
  function LowByte(n: nat): byte {
    n % 256
  }

  function U16BE(n: nat): bytes {
    [LowByte(n / 256), LowByte(n)]
  }

  function ReadU16BE(b: bytes, offset: nat): nat
    requires offset + 2 <= |b|
  {
    b[offset] as nat * 256 + b[offset + 1] as nat
  }

  lemma Associates(a: bytes, b: bytes, c: bytes)
    ensures a + (b + c) == (a + b) + c
  {
  }

  lemma SplitsBack(a: bytes, b: bytes)
    ensures (a + b)[..|a|] == a && (a + b)[|a|..] == b
  {
  }

  lemma U16RoundTrip(n: nat, rest: bytes)
    ensures ReadU16BE(U16BE(n) + rest, 0) == n % 0x1_0000
  {
  }
}
