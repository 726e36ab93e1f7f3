/** Bytes, fixed-size blocks and the cryptographic primitives the device computes with. */
module Bytes {

  type byte = bv8

  datatype Option<+T> = None | Some(value: T)

  const BLOCK_SIZE: nat := 16

  /** One AES block; also the shape of an IV and of the chaining register `aes->reg`. */
  type Block = b: seq<byte> | |b| == 16 witness seq(16, _ => 0)

  /** A SHA-256 digest. */
  type Digest = d: seq<byte> | |d| == 32 witness seq(32, _ => 0)

  /** The primitives are parameters: block cipher, its inverse, hash, raw RSA public operation. */
  datatype Suite = Suite(
    E: (seq<byte>, Block) -> Block,
    D: (seq<byte>, Block) -> Block,
    H: seq<byte> -> Digest,
    Rsa: (seq<byte>, seq<byte>, seq<byte>) -> seq<byte>)

  /** The one law asked of the cipher, and only where a round trip is claimed. */
  ghost predicate Invertible(suite: Suite) {
    forall key: seq<byte>, b: Block {:trigger suite.E(key, b)} :: suite.D(key, suite.E(key, b)) == b
  }

  function Xor(a: Block, b: Block): Block {
    seq(16, i requires 0 <= i < 16 => a[i] ^ b[i])
  }

  lemma XorBitsCancel(a: byte, b: byte)
    ensures (a ^ b) ^ b == a
  {}

  lemma XorCancel(a: Block, b: Block)
    ensures Xor(Xor(a, b), b) == a
  {
    forall i | 0 <= i < 16 ensures Xor(Xor(a, b), b)[i] == a[i] {
      XorBitsCancel(a[i], b[i]);
    }
  }

  /** `mem` with `data` written at `off`. */
  function Splice(mem: seq<byte>, off: nat, data: seq<byte>): (r: seq<byte>)
    requires off + |data| <= |mem|
    ensures |r| == |mem|
    ensures r[off..off + |data|] == data
    ensures forall i :: 0 <= i < |mem| && !(off <= i < off + |data|) ==> r[i] == mem[i]
  {
    mem[..off] + data + mem[off + |data|..]
  }

  /** Exactly `n` bytes taken from `s`, zero-filled. */
  function Fit(s: seq<byte>, n: nat): (r: seq<byte>)
    ensures |r| == n
  {
    seq(n, i requires 0 <= i < n => if i < |s| then s[i] else 0)
  }
}
