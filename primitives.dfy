/** The cryptographic primitives the container format is built from, left
    uninterpreted: MD5 (RFC 1321) and the AES-128 block cipher (FIPS 197).
    They are passed around as a record of functions, so every definition and
    lemma below holds for ANY hash and ANY block cipher; the one property the
    round trip needs of the cipher, that deciphering undoes enciphering, is a
    hypothesis (`Inverts`) of the lemmas that use it. */
module Primitives {

  type byte = bv8

  /** A 16-byte value: an AES block, an AES-128 key, an MD5 digest or an IV. */
  type Block = s: seq<byte> | |s| == 16 witness seq(16, _ => 0)

  /** The all-zero block, `bytearray(16)`. */
  function Zero(): Block {
    seq(16, _ => 0)
  }

  /** Byte-wise exclusive or of two blocks, the CBC chaining step. */
  function Xor(a: Block, b: Block): (r: Block)
  {
    seq(16, i requires 0 <= i < 16 => a[i] ^ b[i])
  }

  /** Chaining is undone by chaining again with the same block. */
  lemma XorTwice(a: Block, b: Block)
    ensures Xor(Xor(a, b), b) == a
  {
    var x := Xor(a, b);
    forall i | 0 <= i < 16
      ensures Xor(x, b)[i] == a[i]
    {
      assert x[i] == a[i] ^ b[i];
    }
  }

  /** A fresh 16-byte buffer holding `block`: `bytearray(block)`. */
  method NewBuffer(block: Block) returns (buffer: array<byte>)
    ensures fresh(buffer) && buffer[..] == block
  {
    buffer := new byte[16](i requires 0 <= i < 16 => block[i]);
  }

  /** `md5(data)`: the digest of a byte string; `encipher(key, block)` and
      `decipher(key, block)`: one AES block operation under a 16-byte key. */
  datatype Primitives = Primitives(
    md5: seq<byte> -> Block,
    encipher: (Block, Block) -> Block,
    decipher: (Block, Block) -> Block)

  /** The block cipher's decryption inverts its encryption under every key. */
  ghost predicate Inverts(p: Primitives) {
    forall key: Block, x: Block :: p.decipher(key, p.encipher(key, x)) == x
  }

  /** A `hashlib.md5()` object. Its state is everything fed to it so far,
      and `digest()` hashes all of it without changing the state. */
  class Md5 {
    const hash: seq<byte> -> Block
    var fed: seq<byte>

    constructor (hash: seq<byte> -> Block)
      ensures this.hash == hash && fed == []
    {
      this.hash := hash;
      fed := [];
    }

    /** `update(data)` */
    method Update(data: seq<byte>)
      modifies this
      ensures fed == old(fed) + data
    {
      fed := fed + data;
    }

    /** `digest()` */
    function Digest(): (d: Block)
      reads this
    {
      hash(fed)
    }
  }
}
