/** Byte strings: XOR, and the block cipher every construction of the vault is built on. */
module Bytes {
  import opened Wrappers

  type byte = bv8
  type bytes = seq<byte>

  const BLOCK_SIZE := 16

  type Block = b: bytes | |b| == 16 witness seq(16, _ => 0)
  type Word = b: bytes | |b| == 8 witness seq(8, _ => 0)

  function Zeros(n: nat): (z: bytes)
    ensures |z| == n
    ensures forall i :: 0 <= i < n ==> z[i] == 0
  {
    seq(n, _ => 0)
  }

  /** Whether a byte has the bit worth 2^j. */
  predicate Bit(x: byte, j: nat)
    requires j < 8
  {
    match j
    case 0 => x & 1 != 0
    case 1 => x & 2 != 0
    case 2 => x & 4 != 0
    case 3 => x & 8 != 0
    case 4 => x & 16 != 0
    case 5 => x & 32 != 0
    case 6 => x & 64 != 0
    case _ => x & 128 != 0
  }

  lemma ByteOfBits(x: byte, y: byte)
    requires forall j :: 0 <= j < 8 ==> Bit(x, j) == Bit(y, j)
    ensures x == y
  {
    assert Bit(x, 0) == Bit(y, 0) && Bit(x, 1) == Bit(y, 1) && Bit(x, 2) == Bit(y, 2) && Bit(x, 3) == Bit(y, 3);
    assert Bit(x, 4) == Bit(y, 4) && Bit(x, 5) == Bit(y, 5) && Bit(x, 6) == Bit(y, 6) && Bit(x, 7) == Bit(y, 7);
  }

  /** subtle.XORBytes of two strings of one length. */
  function Xor(a: bytes, b: bytes): (r: bytes)
    requires |a| == |b|
    ensures |r| == |a|
    ensures forall i :: 0 <= i < |a| ==> r[i] == a[i] ^ b[i]
  {
    seq(|a|, i requires 0 <= i < |a| => a[i] ^ b[i])
  }

  lemma XorCancels(a: bytes, b: bytes)
    requires |a| == |b|
    ensures Xor(Xor(a, b), b) == a
    ensures Xor(Xor(b, a), b) == a
  {
  }

  /**
   A block cipher family: what aes.NewCipher makes of a key, and its inverse.
   The constructions are proved for every family that is a permutation under
   every key; nothing else of AES is used.
   */
  datatype CipherFamily = CipherFamily(encrypt: (bytes, Block) -> Block, decrypt: (bytes, Block) -> Block) {
    /** Encrypting and decrypting under one key undo each other. */
    ghost predicate Permutes() {
      && (forall k: bytes, b: Block :: decrypt(k, encrypt(k, b)) == b)
      && (forall k: bytes, b: Block :: encrypt(k, decrypt(k, b)) == b)
    }
  }

  type Aes = f: CipherFamily | f.Permutes() ghost witness XorFamily()

  /** A toy family that shows the law of Aes can be met: XOR with the start of the key. */
  ghost function XorFamily(): (f: CipherFamily)
    ensures f.Permutes()
  {
    var mask := (k: bytes) => if |k| >= BLOCK_SIZE then k[..BLOCK_SIZE] else Zeros(BLOCK_SIZE);
    var mix: (bytes, Block) -> Block := (k: bytes, b: Block) => Xor(b, mask(k));
    assert forall k: bytes, b: Block :: mix(k, mix(k, b)) == b by {
      forall k: bytes, b: Block
        ensures mix(k, mix(k, b)) == b
      {
        XorCancels(b, mask(k));
      }
    }
    CipherFamily(mix, mix)
  }

  /** aes.NewCipher takes keys of 16, 24 and 32 bytes. */
  predicate IsAesKey(key: bytes) {
    |key| == 16 || |key| == 24 || |key| == 32
  }
}
