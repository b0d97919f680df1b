/** Derivation of the IV from the plaintext length, and of the AES key from
    the IV and the passphrase. */
module Derivation {
  import opened Primitives

  /** `2^k` */
  function Pow2(k: nat): (r: nat)
    ensures r >= 1
  {
    if k == 0 then 1 else 2 * Pow2(k - 1)
  }

  /** Python's `x << k` on a non-negative integer: integers never overflow,
      so the shift only multiplies. */
  function ShiftLeft(x: nat, k: nat): nat {
    x * Pow2(k)
  }

  /** Python's `x & 0xff` on a non-negative integer. */
  function MaskFF(x: nat): byte {
    (x % 256) as byte
  }

  /** Python's `x & 0x0f` on a non-negative integer, as a byte. */
  function MaskLowNibble(x: nat): (r: byte)
    ensures r as int == x % 16
  {
    (x % 16) as byte
  }

  /** The four bytes hashed to obtain the IV, built exactly as the source
      builds them: each byte is the length shifted LEFT, then masked. */
  function LengthBuffer(size: nat): seq<byte> {
    [MaskFF(size), MaskFF(ShiftLeft(size, 8)), MaskFF(ShiftLeft(size, 16)), MaskFF(ShiftLeft(size, 24))]
  }

  lemma {:induction false} Pow2Split(k: nat)
    requires k >= 8
    ensures Pow2(k) == 256 * Pow2(k - 8)
  {
    if k == 8 {
      assert Pow2(8) == 256 by {
        assert Pow2(4) == 16 by { assert Pow2(2) == 4; }
      }
    } else {
      Pow2Split(k - 1);
    }
  }

  /** Shifting left by eight bits or more clears the low byte. */
  lemma LowByteOfShiftIsZero(x: nat, k: nat)
    requires k >= 8
    ensures MaskFF(ShiftLeft(x, k)) == 0
  {
    Pow2Split(k);
    var m := x * Pow2(k - 8);
    assert ShiftLeft(x, k) == m * 256 by {
      assert x * (256 * Pow2(k - 8)) == (x * Pow2(k - 8)) * 256;
    }
  }

  /** The length buffer carries only the low byte of the length: bytes 1 to
      3 are always zero, so lengths that agree modulo 256 hash alike. */
  lemma LengthBufferIsLowByte(size: nat)
    ensures LengthBuffer(size) == [(size % 256) as byte, 0, 0, 0]
  {
    LowByteOfShiftIsZero(size, 8);
    LowByteOfShiftIsZero(size, 16);
    LowByteOfShiftIsZero(size, 24);
  }

  /** The IV of a plaintext of `size` bytes: the MD5 of the length buffer
      with the low nibble of its last byte replaced by `size mod 16`. */
  function IvFor(p: Primitives, size: nat): (iv: Block)
    ensures iv[..15] == p.md5(LengthBuffer(size))[..15]
    ensures iv[15] & 0xF0 == p.md5(LengthBuffer(size))[15] & 0xF0
    ensures (iv[15] & 0x0F) as int == size % 16
  {
    var h := p.md5(LengthBuffer(size));
    h[..15] + [(h[15] & 0xF0) | MaskLowNibble(size)]
  }

  /** The AES key: MD5 of the IV followed by the passphrase. */
  function KeyFor(p: Primitives, iv: Block, passphrase: seq<byte>): Block {
    p.md5(iv + passphrase)
  }

  /** Build the length buffer byte by byte. */
  method BuildLengthBuffer(size: nat) returns (lengthBuffer: seq<byte>)
    ensures lengthBuffer == LengthBuffer(size)
  {
    lengthBuffer := [];
    lengthBuffer := lengthBuffer + [MaskFF(size)];
    lengthBuffer := lengthBuffer + [MaskFF(ShiftLeft(size, 8))];
    lengthBuffer := lengthBuffer + [MaskFF(ShiftLeft(size, 16))];
    lengthBuffer := lengthBuffer + [MaskFF(ShiftLeft(size, 24))];
  }

  /** Replacing the last byte of a block keeps its first 15 bytes. */
  lemma ReplaceLast(h: Block, b: byte)
    ensures h[15 := b] == h[..15] + [b]
  {
  }

  /** Hash the length buffer into a mutable IV and patch its last byte in
      place. */
  method DeriveIv(p: Primitives, size: nat) returns (iv: Block)
    ensures iv == IvFor(p, size)
  {
    var lengthBuffer := BuildLengthBuffer(size);
    var digest := new Md5(p.md5);
    digest.Update(lengthBuffer);
    assert digest.fed == LengthBuffer(size);
    ghost var h := digest.Digest();
    var buffer := NewBuffer(digest.Digest());
    buffer[15] := (buffer[15] & 0xF0) | MaskLowNibble(size);
    iv := buffer[..];
    ReplaceLast(h, (h[15] & 0xF0) | MaskLowNibble(size));
    assert iv == h[15 := (h[15] & 0xF0) | MaskLowNibble(size)];
  }

  /** Feed the IV, then the passphrase, to one digest. */
  method DeriveKey(p: Primitives, iv: Block, passphrase: seq<byte>) returns (key: Block)
    ensures key == KeyFor(p, iv, passphrase)
  {
    var digest := new Md5(p.md5);
    digest.Update(iv);
    digest.Update(passphrase);
    assert digest.fed == iv + passphrase;
    key := digest.Digest();
  }
}
