/** The container format of the file crypter:
      IV (16 bytes) || ciphertext (16 * n bytes) || tag (16 bytes)
    and the two pipelines that write and read it. Files are byte sequences:
    the plaintext and the container are read whole from `seq<byte>` values,
    and the output is returned. */
module Crypter {
  import opened Primitives
  import opened Derivation
  import opened Mac
  import opened Cbc

  datatype Result<T, E> = Success(value: T) | Failure(error: E)

  datatype DecryptError =
    | TooShort      // fewer than 32 bytes
    | BadAlignment  // not a multiple of 16 bytes
    | TagMismatch   // the recomputed tag differs from the stored one

  /** The observable work decryption does, in order: computing a digest,
      opening the output file, deciphering one block. */
  datatype Step = Hashed | OutputOpened | Deciphered

  /** The container for `plaintext` under `passphrase`. */
  function Encrypted(p: Primitives, plaintext: seq<byte>, passphrase: seq<byte>): seq<byte> {
    var iv := IvFor(p, |plaintext|);
    var key := KeyFor(p, iv, passphrase);
    var ciphertext := EncryptBlocks(p, key, iv, Zero(), plaintext);
    iv + ciphertext + Tag(p, key, ciphertext)
  }

  /** Cut the final block of deciphered data down to `lastn` bytes, unless
      `lastn` is zero or there is no block at all. */
  function KeepLast(plain: seq<byte>, lastn: nat): seq<byte>
    requires |plain| % 16 == 0 && lastn < 16
  {
    if lastn > 0 && |plain| > 0 then plain[..|plain| - 16 + lastn] else plain
  }

  /** The outcome of decrypting `container` with `passphrase`. */
  function Decrypted(p: Primitives, container: seq<byte>, passphrase: seq<byte>): Result<seq<byte>, DecryptError> {
    if |container| < 32 then Failure(TooShort)
    else if |container| % 16 != 0 then Failure(BadAlignment)
    else
      var iv: Block := container[..16];
      var key := KeyFor(p, iv, passphrase);
      var ciphertext := container[16..|container| - 16];
      if Tag(p, key, ciphertext) != container[|container| - 16..] then Failure(TagMismatch)
      else Success(KeepLast(DecryptBlocks(p, key, iv, ciphertext), (iv[15] & 0x0F) as nat))
  }

  /** `read(n)` on a file holding `data`, positioned at `pos`: at most `n`
      bytes, fewer at the end of the file. */
  function Read(data: seq<byte>, pos: nat, n: nat): seq<byte> {
    if pos >= |data| then []
    else if pos + n <= |data| then data[pos..pos + n]
    else data[pos..]
  }

  /** Copy `size` bytes of `data`, starting at `from`, over the start of
      the block buffer; the rest of the buffer keeps what it held. */
  method CopyChunk(buffer: array<byte>, data: seq<byte>, from: nat, size: nat)
    requires buffer.Length == 16 && size <= 16 && from + size <= |data|
    modifies buffer
    ensures buffer[..] == data[from..from + size] + old(buffer[..])[size..]
  {
    for i := 0 to size
      invariant forall j :: 0 <= j < i ==> buffer[j] == data[from + j]
      invariant forall j :: i <= j < 16 ==> buffer[j] == old(buffer[j])
    {
      buffer[i] := data[from + i];
    }
    ghost var chunk := data[from..from + size] + old(buffer[..])[size..];
    assert forall j :: 0 <= j < 16 ==> buffer[j] == chunk[j];
  }

  /** The second stage of the tag: a fresh digest fed `opad`, then the inner
      digest. */
  method OuterDigest(p: Primitives, opad: seq<byte>, innerTag: Block) returns (tag: Block)
    ensures tag == p.md5(opad + innerTag)
  {
    var outer := new Md5(p.md5);
    outer.Update(opad);
    outer.Update(innerTag);
    assert outer.fed == opad + innerTag;
    tag := outer.Digest();
  }

  /** One round of the block loop: take up to 16 bytes of plaintext from
      `index`, copy them over the start of the buffer and encipher the whole
      buffer, chained with `chain`. */
  method EncryptChunk(p: Primitives, key: Block, chain: Block, buffer: array<byte>, plaintext: seq<byte>, index: nat)
      returns (out: Block, size: nat)
    requires buffer.Length == 16 && index < |plaintext|
    modifies buffer
    ensures size == Chunk(|plaintext| - index) && 0 < size && index + size <= |plaintext|
    ensures plaintext[index..][size..] == plaintext[index + size..]
    ensures out == FirstBlock(p, key, chain, old(buffer[..]), plaintext[index..])
  {
    size := 16;
    if |plaintext| - index < 16 {
      size := |plaintext| - index;
    }
    CopyChunk(buffer, plaintext, index, size);
    var input: Block := buffer[..];
    out := p.encipher(key, Xor(input, chain));
    assert plaintext[index..][..size] == plaintext[index..index + size];
    assert plaintext[index..][size..] == plaintext[index + size..];
  }

  lemma AppendAssoc(a: seq<byte>, b: seq<byte>, c: seq<byte>)
    ensures (a + b) + c == a + (b + c)
  {
  }

  /** The block loop of `encrypt_file`: read up to 16 bytes over the start
      of the block buffer, encipher the buffer chained with the previous
      ciphertext block (the IV at first), make the ciphertext block the new
      buffer, write it out and feed it to the digest. */
  method EncryptStream(p: Primitives, key: Block, iv: Block, plaintext: seq<byte>, digest: Md5)
      returns (written: seq<byte>)
    modifies digest
    ensures written == EncryptBlocks(p, key, iv, Zero(), plaintext)
    ensures digest.fed == old(digest.fed) + written
  {
    ghost var ciphertext := EncryptBlocks(p, key, iv, Zero(), plaintext);
    ghost var start := digest.fed;
    written := [];
    var filesize := |plaintext|;
    var index := 0;
    var inputBlock := NewBuffer(Zero());
    ghost var fill: Block := Zero();
    var chain: Block := iv;
    while index < filesize
      invariant 0 <= index <= filesize
      invariant fresh(inputBlock) && inputBlock.Length == 16 && inputBlock[..] == fill
      invariant digest.fed == start + written
      invariant written + EncryptBlocks(p, key, chain, fill, plaintext[index..]) == ciphertext
    {
      var out, size := EncryptChunk(p, key, chain, inputBlock, plaintext, index);
      EncryptBlocksStep(p, key, chain, fill, plaintext[index..], out, written);
      AppendAssoc(start, written, out);
      inputBlock := NewBuffer(out);
      fill := out;
      digest.Update(out);
      written := written + out;
      chain := out;
      index := index + size;
    }
    assert plaintext[index..] == [];
  }

  /** `encrypt_file`: derive the IV and the key, write the IV, encrypt and
      write the blocks while digesting them, then write the tag. */
  method EncryptFile(p: Primitives, plaintext: seq<byte>, passphrase: seq<byte>) returns (container: seq<byte>)
    ensures container == Encrypted(p, plaintext, passphrase)
  {
    var iv := DeriveIv(p, |plaintext|);
    var key := DeriveKey(p, iv, passphrase);
    var ipad, opad := PrepareKeyPads(key);
    var digest := new Md5(p.md5);
    digest.Update(ipad);
    container := iv;
    var ciphertext := EncryptStream(p, key, iv, plaintext, digest);
    container := container + ciphertext;
    assert digest.fed == KeyPad(key, InnerPad) + ciphertext;
    var innerTag := digest.Digest();
    var tag := OuterDigest(p, opad, innerTag);
    assert tag == Tag(p, key, ciphertext);
    container := container + tag;
  }

  /** The tag check of `decrypt_file`: digest ipad, then read and digest 16
      bytes at a time from offset 16 while the file position is at most the
      ciphertext length, then digest opad and the inner digest. `rounds`
      counts the 16-byte reads. */
  method ComputeTag(p: Primitives, ipad: seq<byte>, opad: seq<byte>, container: seq<byte>)
      returns (tag: Block, ghost rounds: nat)
    requires |container| >= 32 && |container| % 16 == 0
    ensures tag == p.md5(opad + p.md5(ipad + container[16..|container| - 16]))
    ensures rounds == (|container| - 32) / 16
  {
    var datasize := |container| - 32;
    var digest := new Md5(p.md5);
    digest.Update(ipad);
    var position := 16;
    rounds := 0;
    while position <= datasize
      invariant 16 <= position <= datasize + 16 && position % 16 == 0
      invariant rounds == position / 16 - 1
      invariant digest.hash == p.md5 && digest.fed == ipad + container[16..position]
    {
      digest.Update(Read(container, position, 16));
      position := position + 16;
      rounds := rounds + 1;
    }
    assert position == datasize + 16;
    var innerTag := digest.Digest();
    tag := OuterDigest(p, opad, innerTag);
  }

  /** The output loop of `decrypt_file`: from offset 16, read and decipher
      16 bytes at a time, chained with the previous ciphertext block (the
      IV at first); write whole blocks, except that the final block is cut
      to `lastn` bytes when `lastn` is not zero. `rounds` counts the blocks
      deciphered. */
  method DecryptStream(p: Primitives, key: Block, iv: Block, container: seq<byte>, lastn: nat)
      returns (plaintext: seq<byte>, ghost rounds: nat)
    requires |container| >= 32 && |container| % 16 == 0 && lastn < 16
    ensures plaintext == KeepLast(DecryptBlocks(p, key, iv, container[16..|container| - 16]), lastn)
    ensures rounds == (|container| - 32) / 16
  {
    var datasize := |container| - 32;
    ghost var ciphertext := container[16..|container| - 16];
    plaintext := [];
    rounds := 0;
    var chain: Block := iv;
    var offset := 0;
    while offset < datasize
      invariant 0 <= offset <= datasize && offset % 16 == 0 && rounds == offset / 16
      invariant chain == LastBlock(iv, ciphertext[..offset])
      invariant offset < datasize ==> plaintext == DecryptBlocks(p, key, iv, ciphertext[..offset])
      invariant offset == datasize ==> plaintext == KeepLast(DecryptBlocks(p, key, iv, ciphertext), lastn)
    {
      var inputBlock: seq<byte> := [];
      inputBlock := inputBlock + Read(container, 16 + offset, 16);
      assert inputBlock == ciphertext[offset..offset + 16];
      var block: Block := inputBlock;
      assert ciphertext[..offset + 16] == ciphertext[..offset] + block;
      DecryptBlocksAppend(p, key, iv, ciphertext[..offset], block);
      var decrypted := Xor(p.decipher(key, block), chain);
      chain := block;
      offset := offset + 16;
      rounds := rounds + 1;
      if lastn > 0 && offset == datasize {
        plaintext := plaintext + decrypted[0..lastn];
      } else {
        plaintext := plaintext + decrypted;
      }
      assert offset == datasize ==> ciphertext[..offset] == ciphertext;
    }
  }

  /** `decrypt_file`: check the length, verify the tag, and only then open
      the output and decipher block by block, cutting the last block down to
      the length kept in the IV's low nibble. `trace` records the work done. */
  method DecryptFile(p: Primitives, container: seq<byte>, passphrase: seq<byte>)
      returns (result: Result<seq<byte>, DecryptError>, ghost trace: seq<Step>)
    ensures result == Decrypted(p, container, passphrase)
    ensures |container| < 32 || |container| % 16 != 0 ==> trace == []
    ensures result == Failure(TagMismatch) ==> trace == [Hashed, Hashed, Hashed]
    ensures result.Success? ==>
      trace == [Hashed, Hashed, Hashed, OutputOpened] + seq((|container| - 32) / 16, _ => Deciphered)
  {
    trace := [];
    var filesize := |container|;
    if filesize < 32 {
      return Failure(TooShort), trace;
    }
    if filesize % 16 != 0 {
      return Failure(BadAlignment), trace;
    }
    var iv: Block := Read(container, 0, 16);
    var lastn := (iv[15] & 0x0F) as nat;
    var key := DeriveKey(p, iv, passphrase);
    trace := trace + [Hashed];
    var ipad, opad := PrepareKeyPads(key);
    var storedTag := Read(container, filesize - 16, 16);
    var tag, macRounds := ComputeTag(p, ipad, opad, container);
    trace := trace + [Hashed, Hashed];
    if tag != storedTag {
      return Failure(TagMismatch), trace;
    }
    trace := trace + [OutputOpened];
    var plaintext, rounds := DecryptStream(p, key, iv, container, lastn);
    trace := trace + seq(rounds, _ => Deciphered);
    result := Success(plaintext);
  }
}
