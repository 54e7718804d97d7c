/** Bytes, and the widths the storage formats fix. */
module Bytes {
  newtype byte = b: int | 0 <= b < 256

  type Data = seq<byte>

  /** The hash of a body; different bodies have different ones. */
  datatype Hash = Hash(body: Data)

  /** One more than the largest value of a 32-bit and of a 64-bit unsigned field. */
  const U32: nat := 0x1_0000_0000
  const U64: nat := 0x1_0000_0000_0000_0000

  function Zeros(n: nat): (z: seq<byte>)
    ensures |z| == n
    ensures forall i | 0 <= i < n :: z[i] == 0
  {
    if n == 0 then [] else [0] + Zeros(n - 1)
  }

  lemma ZerosAppend(a: nat, b: nat)
    ensures Zeros(a) + Zeros(b) == Zeros(a + b)
  {
  }

  /** A sum that sticks at the largest 64-bit value. */
  function SatAdd(a: nat, b: nat): nat {
    if a + b < U64 then a + b else U64 - 1
  }
}
