/** CBC chaining (section 6.2 of NIST SP 800-38A) over an abstract block
    cipher, as the container applies it: the plaintext is cut into 16-byte
    blocks and a final short block is completed with whatever the block
    buffer still holds. */
module Cbc {
  import opened Primitives

  /** The number of 16-byte blocks needed for `n` bytes, `ceil(n / 16)`. */
  function NumBlocks(n: nat): (k: nat)
    ensures 16 * k >= n && 16 * k < n + 16
  {
    (n + 15) / 16
  }

  /** The bytes taken from the plaintext for the next block. */
  function Chunk(n: nat): nat {
    if n < 16 then n else 16
  }

  /** The ciphertext block for the first chunk of `data`. */
  function FirstBlock(p: Primitives, key: Block, chain: Block, fill: Block, data: seq<byte>): Block
    requires |data| > 0
  {
    p.encipher(key, Xor(data[..Chunk(|data|)] + fill[Chunk(|data|)..], chain))
  }

  /** Encrypt `data` block by block. `chain` is the block the next input is
      XORed with (the IV, then the previous ciphertext block); `fill` is what
      the 16-byte buffer holds before the next chunk is copied over its
      start (zeros, then the previous ciphertext block), and so supplies the
      bytes past the end of a final short chunk. */
  function EncryptBlocks(p: Primitives, key: Block, chain: Block, fill: Block, data: seq<byte>): (c: seq<byte>)
    ensures |c| == 16 * NumBlocks(|data|) && |c| % 16 == 0
    decreases |data|
  {
    if |data| == 0 then []
    else
      var out := FirstBlock(p, key, chain, fill, data);
      out + EncryptBlocks(p, key, out, out, data[Chunk(|data|)..])
  }

  /** One round of encryption: the first chunk is completed with `fill`,
      chained and enciphered into `out`, and the rest of the data chains
      from `out`. So a loop that has written `written` and still owes the
      encryption of `data` keeps owing the same ciphertext after one round. */
  lemma EncryptBlocksStep(p: Primitives, key: Block, chain: Block, fill: Block, data: seq<byte>, out: Block, written: seq<byte>)
    requires |data| > 0
    requires out == FirstBlock(p, key, chain, fill, data)
    ensures written + EncryptBlocks(p, key, chain, fill, data)
         == (written + out) + EncryptBlocks(p, key, out, out, data[Chunk(|data|)..])
  {
  }

  /** CBC decryption: each block is deciphered and XORed with the block
      before it (`chain` for the first). */
  function DecryptBlocks(p: Primitives, key: Block, chain: Block, data: seq<byte>): (m: seq<byte>)
    requires |data| % 16 == 0
    ensures |m| == |data|
    decreases |data|
  {
    if |data| == 0 then []
    else
      var block: Block := data[..16];
      Xor(p.decipher(key, block), chain) + DecryptBlocks(p, key, block, data[16..])
  }

  /** The block that chains into the block after `data`. */
  function LastBlock(chain: Block, data: seq<byte>): Block
    requires |data| % 16 == 0
  {
    if |data| == 0 then chain else data[|data| - 16..]
  }

  /** Block `i` of the ciphertext is the first block of encrypting what is
      left of the plaintext from chunk `i` on, chained with and completed by
      the previous ciphertext block (by `chain` and `fill` for block 0). */
  lemma {:induction false} EncryptBlockAt(p: Primitives, key: Block, chain: Block, fill: Block, data: seq<byte>, i: nat)
    requires i < NumBlocks(|data|)
    ensures 16 * i < |data| && 16 * i + 16 <= |EncryptBlocks(p, key, chain, fill, data)|
    ensures var c := EncryptBlocks(p, key, chain, fill, data);
            var prev: Block := if i == 0 then chain else c[16 * (i - 1)..16 * i];
            var pad: Block := if i == 0 then fill else c[16 * (i - 1)..16 * i];
            c[16 * i..16 * i + 16] == FirstBlock(p, key, prev, pad, data[16 * i..])
    decreases i
  {
    var c := EncryptBlocks(p, key, chain, fill, data);
    if i > 0 {
      var out := FirstBlock(p, key, chain, fill, data);
      var rest := data[16..];
      var r := EncryptBlocks(p, key, out, out, rest);
      assert c == out + r;
      EncryptBlockAt(p, key, out, out, rest, i - 1);
      assert c[16 * i..16 * i + 16] == r[16 * (i - 1)..16 * (i - 1) + 16];
      assert rest[16 * (i - 1)..] == data[16 * i..];
      if i > 1 {
        assert c[16 * (i - 1)..16 * i] == r[16 * (i - 2)..16 * (i - 1)];
      } else {
        assert c[..16] == out;
      }
    }
  }

  /** Deciphering one more block extends the plaintext by that block XORed
      with the block before it. */
  lemma {:induction false} DecryptBlocksAppend(p: Primitives, key: Block, chain: Block, data: seq<byte>, block: Block)
    requires |data| % 16 == 0
    ensures DecryptBlocks(p, key, chain, data + block)
         == DecryptBlocks(p, key, chain, data) + Xor(p.decipher(key, block), LastBlock(chain, data))
    decreases |data|
  {
    if |data| > 0 {
      var first: Block := data[..16];
      assert (data + block)[..16] == first;
      assert (data + block)[16..] == data[16..] + block;
      DecryptBlocksAppend(p, key, first, data[16..], block);
      assert LastBlock(first, data[16..]) == LastBlock(chain, data);
    } else {
      assert data + block == block;
      assert block[..16] == block && block[16..] == [];
    }
  }

  /** CBC decryption undoes CBC encryption: it gives back the plaintext,
      followed by the bytes that completed a final short chunk. */
  lemma {:induction false} DecryptEncryptBlocks(p: Primitives, key: Block, chain: Block, fill: Block, data: seq<byte>)
    requires Inverts(p)
    ensures var m := DecryptBlocks(p, key, chain, EncryptBlocks(p, key, chain, fill, data));
            |m| == 16 * NumBlocks(|data|) && m[..|data|] == data
    decreases |data|
  {
    if |data| > 0 {
      var size := Chunk(|data|);
      var input: Block := data[..size] + fill[size..];
      var out := p.encipher(key, Xor(input, chain));
      var c := EncryptBlocks(p, key, chain, fill, data);
      var rest := EncryptBlocks(p, key, out, out, data[size..]);
      assert c == out + rest;
      assert c[..16] == out && c[16..] == rest;
      XorTwice(input, chain);
      DecryptEncryptBlocks(p, key, out, out, data[size..]);
      var m := DecryptBlocks(p, key, chain, c);
      assert m == input + DecryptBlocks(p, key, out, rest);
      if size == 16 {
        assert m[..|data|] == input + DecryptBlocks(p, key, out, rest)[..|data| - 16];
        assert data == data[..16] + data[16..];
      } else {
        assert rest == [];
      }
    }
  }
}
