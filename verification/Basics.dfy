/** Bytes, fixed-width integers and the result types shared by every module. */
module Basics {

  const TWO32 := 0x1_0000_0000
  const TWO63 := 0x8000_0000_0000_0000
  const TWO64 := 0x1_0000_0000_0000_0000
  const U64_MAX := TWO64 - 1
  const U32_MAX := TWO32 - 1

  type byte = x: int | 0 <= x < 256
  type u32 = x: int | 0 <= x < 0x1_0000_0000
  type u64 = x: int | 0 <= x < 0x1_0000_0000_0000_0000

  /** Text is modelled by its UTF-8 bytes, which is what the program hashes, signs and compares. */
  type Bytes = seq<byte>

  const HASH_SIZE := 32

  type Bytes32 = b: Bytes | |b| == HASH_SIZE witness seq(HASH_SIZE, _ => 0)

  /** A 32-byte hash, MAC or key. */
  datatype Digest = Digest(bytes: Bytes32)

  /** What the first entry names as its predecessor. */
  const ZERO_DIGEST := Digest(Zeros(HASH_SIZE))

  function Zeros(n: nat): (z: Bytes)
    ensures |z| == n
  {
    if n == 0 then [] else [0] + Zeros(n - 1)
  }

  datatype Option<+T> = None | Some(value: T)

  datatype Result<+T, +E> = Ok(value: T) | Err(error: E)

  /** The bytes of an ASCII literal. */
  function Ascii(s: string): (r: Bytes)
    ensures |r| == |s|
  {
    seq(|s|, i requires 0 <= i < |s| => s[i] as int % 256)
  }

  /** A hash function is a parameter of the model: nothing is assumed about it. */
  type Sha = Bytes -> Digest

  /** Appending two sequences is injective when the cut is known. */
  lemma ConcatCut<T>(a: seq<T>, b: seq<T>, c: seq<T>, d: seq<T>)
    requires a + b == c + d && |a| == |c|
    ensures a == c && b == d
  {
    assert (a + b)[..|a|] == a && (c + d)[..|c|] == c;
    assert (a + b)[|a|..] == b && (c + d)[|c|..] == d;
  }
}
