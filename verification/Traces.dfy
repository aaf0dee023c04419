/** A record of every call of the two keyed primitives, HMAC and the block cipher. The primitives
    append to it themselves, so what a method says about its trace it says about the calls made. */
module Traces {
  import opened Bytes
  import opened Aes

  datatype Op =
    | Mac(key: seq<Byte>, data: seq<Byte>)
    | Cipher(bytes: seq<Byte>, size: KeySize, input: Block)

  class Trace {
    ghost var ops: seq<Op>
  }

  /** Calls of the block cipher on the first `n` inputs of a sequence. */
  ghost function CipherOps(bytes: seq<Byte>, size: KeySize, inputs: nat -> Block, n: nat): (ops: seq<Op>)
    ensures |ops| == n && forall k: nat :: k < n ==> ops[k] == Cipher(bytes, size, inputs(k))
  {
    seq(n, k requires 0 <= k => Cipher(bytes, size, inputs(k)))
  }
}
