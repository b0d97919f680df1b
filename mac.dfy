/** The authentication tag: HMAC over MD5, written out by hand with 64-byte
    padded key blocks. */
module Mac {
  import opened Primitives

  /** The HMAC block size B of MD5, in bytes. */
  const BlockSize: nat := 64
  const InnerPad: byte := 0x36
  const OuterPad: byte := 0x5C

  /** A 64-byte padded key block: the 16 key bytes XOR `pad`, followed by
      48 copies of `pad`. */
  function KeyPad(key: Block, pad: byte): (r: seq<byte>)
    ensures |r| == BlockSize
  {
    seq(BlockSize, i requires 0 <= i < BlockSize => if i < 16 then key[i] ^ pad else pad)
  }

  /** The tag over a ciphertext region: MD5(opad || MD5(ipad || ciphertext)). */
  function Tag(p: Primitives, key: Block, ciphertext: seq<byte>): Block {
    p.md5(KeyPad(key, OuterPad) + p.md5(KeyPad(key, InnerPad) + ciphertext))
  }

  /** Build ipad and opad as the source does: append 64 constant bytes to
      each, then overwrite the first 16 positions by index. */
  method PrepareKeyPads(key: Block) returns (ipad: seq<byte>, opad: seq<byte>)
    ensures |ipad| == BlockSize && |opad| == BlockSize
    ensures forall i :: 0 <= i < 16 ==> ipad[i] == key[i] ^ InnerPad && opad[i] == key[i] ^ OuterPad
    ensures forall i :: 16 <= i < BlockSize ==> ipad[i] == InnerPad && opad[i] == OuterPad
    ensures ipad == KeyPad(key, InnerPad) && opad == KeyPad(key, OuterPad)
  {
    opad, ipad := [], [];
    for i := 0 to BlockSize
      invariant |ipad| == |opad| == i
      invariant forall j :: 0 <= j < i ==> ipad[j] == InnerPad && opad[j] == OuterPad
    {
      ipad := ipad + [InnerPad];
      opad := opad + [OuterPad];
    }
    for i := 0 to 16
      invariant |ipad| == |opad| == BlockSize
      invariant forall j :: 0 <= j < i ==> ipad[j] == InnerPad ^ key[j] && opad[j] == OuterPad ^ key[j]
      invariant forall j :: i <= j < BlockSize ==> ipad[j] == InnerPad && opad[j] == OuterPad
    {
      ipad := ipad[i := InnerPad ^ key[i]];
      opad := opad[i := OuterPad ^ key[i]];
    }
  }

  /** HMAC as section 2 of RFC 2104 defines it, for a key no longer than
      the block size B = 64: the key is extended with zeros to B bytes, and
      the tag is H(K XOR opad, H(K XOR ipad, text)). */
  function Hmac(hash: seq<byte> -> Block, key: seq<byte>, text: seq<byte>): Block
    requires |key| <= BlockSize
  {
    var k := key + seq(BlockSize - |key|, _ => 0 as byte);
    var inner := seq(BlockSize, i requires 0 <= i < BlockSize => k[i] ^ InnerPad);
    var outer := seq(BlockSize, i requires 0 <= i < BlockSize => k[i] ^ OuterPad);
    hash(outer + hash(inner + text))
  }

  /** The padded key blocks are the RFC 2104 blocks of the zero-extended
      16-byte key. */
  lemma KeyPadIsZeroExtended(key: Block, pad: byte)
    ensures KeyPad(key, pad) == seq(BlockSize, i requires 0 <= i < BlockSize =>
      (key + seq(BlockSize - 16, _ => 0 as byte))[i] ^ pad)
  {
    var k := key + seq(BlockSize - 16, _ => 0 as byte);
    forall i | 16 <= i < BlockSize
      ensures k[i] ^ pad == pad
    {
      assert k[i] == 0;
    }
  }

  /** The hand-built tag is HMAC-MD5 keyed with the AES key. */
  lemma TagIsHmac(p: Primitives, key: Block, ciphertext: seq<byte>)
    ensures Tag(p, key, ciphertext) == Hmac(p.md5, key, ciphertext)
  {
    KeyPadIsZeroExtended(key, InnerPad);
    KeyPadIsZeroExtended(key, OuterPad);
  }
}
