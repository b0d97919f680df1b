/** What the container format guarantees, stated over the specification
    functions of `Crypter`. */
module Properties {
  import opened Primitives
  import opened Derivation
  import opened Mac
  import opened Cbc
  import opened Crypter

  /** Block `j` of a container: bytes 16j to 16j + 16. Block 0 is the IV,
      the last block is the tag. */
  function BlockAt(c: seq<byte>, j: nat): Block
    requires 16 * j + 16 <= |c|
  {
    c[16 * j..16 * j + 16]
  }

  /** A chunk of at most 16 bytes copied over the start of a 16-byte
      buffer holding `fill`: the chunk's bytes first, then what `fill`
      holds past them. */
  function Completed(chunk: seq<byte>, fill: Block): (b: Block)
    requires |chunk| <= 16
    ensures forall j :: 0 <= j < |chunk| ==> b[j] == chunk[j]
    ensures forall j :: |chunk| <= j < 16 ==> b[j] == fill[j]
  {
    chunk + fill[|chunk|..]
  }

  /** A container is the IV, then 16 bytes of ciphertext per started block
      of plaintext, then the tag over exactly that ciphertext. */
  lemma EncryptedLayout(p: Primitives, plaintext: seq<byte>, passphrase: seq<byte>)
    ensures var c := Encrypted(p, plaintext, passphrase);
            var iv := IvFor(p, |plaintext|);
            var key := KeyFor(p, iv, passphrase);
            && |c| == 32 + 16 * NumBlocks(|plaintext|)
            && c[..16] == iv
            && c[16..|c| - 16] == EncryptBlocks(p, key, iv, Zero(), plaintext)
            && c[|c| - 16..] == Tag(p, key, c[16..|c| - 16])
  {
    var c := Encrypted(p, plaintext, passphrase);
    var iv := IvFor(p, |plaintext|);
    var key := KeyFor(p, iv, passphrase);
    var body := EncryptBlocks(p, key, iv, Zero(), plaintext);
    assert c == iv + body + Tag(p, key, body);
    assert c[16..|c| - 16] == body;
  }

  /** The empty plaintext gives a 32-byte container: its IV and the tag of
      the empty ciphertext. */
  lemma EncryptedEmpty(p: Primitives, passphrase: seq<byte>)
    ensures var iv := IvFor(p, 0);
            Encrypted(p, [], passphrase) == iv + Tag(p, KeyFor(p, iv, passphrase), [])
  {
    assert IvFor(p, 0) + [] == IvFor(p, 0);
  }

  /** The byte of the IV that decryption reads `lastn` from holds the
      plaintext length modulo 16. */
  lemma EncryptedKeepsLengthNibble(p: Primitives, plaintext: seq<byte>, passphrase: seq<byte>)
    ensures |Encrypted(p, plaintext, passphrase)| >= 32
    ensures (Encrypted(p, plaintext, passphrase)[15] & 0x0F) as int == |plaintext| % 16
  {
    EncryptedLayout(p, plaintext, passphrase);
  }

  /** Block `i + 1` of the container (ciphertext block `i`) is the
      encipherment of plaintext chunk `i`, completed by container block `i`
      (by zeros when `i` is 0), XORed with container block `i` (the IV when
      `i` is 0). */
  lemma CiphertextBlock(p: Primitives, plaintext: seq<byte>, passphrase: seq<byte>, i: nat)
    requires i < NumBlocks(|plaintext|)
    ensures 16 * i < |plaintext| && 16 * i + 32 <= |Encrypted(p, plaintext, passphrase)|
    ensures var c := Encrypted(p, plaintext, passphrase);
            var key := KeyFor(p, IvFor(p, |plaintext|), passphrase);
            var chunk := plaintext[16 * i..16 * i + Chunk(|plaintext| - 16 * i)];
            var pad := if i == 0 then Zero() else BlockAt(c, i);
            BlockAt(c, i + 1) == p.encipher(key, Xor(Completed(chunk, pad), BlockAt(c, i)))
  {
    var iv := IvFor(p, |plaintext|);
    var key := KeyFor(p, iv, passphrase);
    var body := EncryptBlocks(p, key, iv, Zero(), plaintext);
    var tag := Tag(p, key, body);
    assert Encrypted(p, plaintext, passphrase) == iv + body + tag;
    EncryptBlockAt(p, key, iv, Zero(), plaintext, i);
    BodyBlock(iv, body, tag, i);
    if i > 0 {
      BodyBlock(iv, body, tag, i - 1);
    }
    var rest := plaintext[16 * i..];
    assert rest[..Chunk(|rest|)] == plaintext[16 * i..16 * i + Chunk(|rest|)];
  }

  /** Container block `j + 1` is block `j` of the ciphertext, and block 0
      the IV. */
  lemma BodyBlock(iv: Block, body: seq<byte>, tag: seq<byte>, j: nat)
    requires 16 * j + 16 <= |body|
    ensures BlockAt(iv + body + tag, 0) == iv
    ensures BlockAt(iv + body + tag, j + 1) == body[16 * j..16 * j + 16]
  {
    var c := iv + body + tag;
    assert c[..16] == iv;
    assert c[16 * j + 16..16 * j + 32] == body[16 * j..16 * j + 16];
  }

  /** Decryption succeeds exactly when the length is a multiple of 16, at
      least 32, and the tag over bytes 16 to |c| - 16 matches the last 16
      bytes; the plaintext is then the CBC decryption with only the final
      block cut, to `lastn` bytes, and only when `lastn` is not zero. */
  lemma DecryptedOutcome(p: Primitives, container: seq<byte>, passphrase: seq<byte>)
    ensures Decrypted(p, container, passphrase).Success? <==>
      && |container| >= 32 && |container| % 16 == 0
      && Tag(p, KeyFor(p, container[..16], passphrase), container[16..|container| - 16]) == container[|container| - 16..]
    ensures Decrypted(p, container, passphrase).Success? ==>
      var plain := Decrypted(p, container, passphrase).value;
      var datasize := |container| - 32;
      var lastn := (container[15] & 0x0F) as int;
      && |plain| == (if lastn == 0 || datasize == 0 then datasize else datasize - 16 + lastn)
      && plain == DecryptBlocks(p, KeyFor(p, container[..16], passphrase), container[..16], container[16..|container| - 16])[..|plain|]
  {
  }

  /** Replacing the tag of a container that decrypts with any other 16
      bytes makes decryption fail with a tag mismatch. */
  lemma ForgedTagRejected(p: Primitives, container: seq<byte>, passphrase: seq<byte>, forged: Block)
    requires Decrypted(p, container, passphrase).Success?
    requires forged != container[|container| - 16..]
    ensures Decrypted(p, container[..|container| - 16] + forged, passphrase) == Failure(TagMismatch)
  {
    var c' := container[..|container| - 16] + forged;
    assert c'[..16] == container[..16];
    assert c'[16..|c'| - 16] == container[16..|container| - 16];
    assert c'[|c'| - 16..] == forged;
  }

  lemma AlignedPlus32(n: nat)
    requires n % 16 == 0
    ensures (n + 32) % 16 == 0
  {
  }

  /** A well-formed container with a matching tag decrypts to its CBC
      decryption, cut by the IV's length nibble. */
  lemma DecryptedValid(p: Primitives, container: seq<byte>, passphrase: seq<byte>, iv: Block, body: seq<byte>)
    requires |body| % 16 == 0
    requires container == iv + body + Tag(p, KeyFor(p, iv, passphrase), body)
    ensures Decrypted(p, container, passphrase)
         == Success(KeepLast(DecryptBlocks(p, KeyFor(p, iv, passphrase), iv, body), (iv[15] & 0x0F) as nat))
  {
    var key := KeyFor(p, iv, passphrase);
    AlignedPlus32(|body|);
    assert |container| == |body| + 32;
    assert container[..16] == iv;
    assert container[16..|container| - 16] == body;
    assert container[|container| - 16..] == Tag(p, key, body);
    assert container[15] == iv[15];
    var plain := DecryptBlocks(p, key, iv, body);
    assert DecryptBlocks(p, KeyFor(p, container[..16], passphrase), container[..16], container[16..|container| - 16]) == plain;
  }

  /** Cutting the decryption of the blocks of `data` by `|data| mod 16`
      gives back `data`. */
  lemma KeepLastRecovers(full: seq<byte>, data: seq<byte>)
    requires |full| == 16 * NumBlocks(|data|) && full[..|data|] == data
    ensures KeepLast(full, |data| % 16) == data
  {
    if |data| % 16 == 0 {
      assert |full| == |data|;
    }
  }

  /** The container for `plaintext` passes the tag check and decrypts to
      the CBC decryption of its ciphertext, cut by the plaintext length
      modulo 16. */
  lemma DecryptedEncrypted(p: Primitives, plaintext: seq<byte>, passphrase: seq<byte>)
    ensures var iv := IvFor(p, |plaintext|);
            var key := KeyFor(p, iv, passphrase);
            var body := EncryptBlocks(p, key, iv, Zero(), plaintext);
            Decrypted(p, Encrypted(p, plaintext, passphrase), passphrase)
              == Success(KeepLast(DecryptBlocks(p, key, iv, body), |plaintext| % 16))
  {
    var iv := IvFor(p, |plaintext|);
    var key := KeyFor(p, iv, passphrase);
    var body := EncryptBlocks(p, key, iv, Zero(), plaintext);
    DecryptedValid(p, Encrypted(p, plaintext, passphrase), passphrase, iv, body);
  }

  /** Decrypting a container with the passphrase it was made with gives back
      exactly the plaintext, whenever the block cipher's decryption inverts
      its encryption. */
  lemma RoundTrip(p: Primitives, plaintext: seq<byte>, passphrase: seq<byte>)
    requires Inverts(p)
    ensures Decrypted(p, Encrypted(p, plaintext, passphrase), passphrase) == Success(plaintext)
  {
    var iv := IvFor(p, |plaintext|);
    var key := KeyFor(p, iv, passphrase);
    DecryptedEncrypted(p, plaintext, passphrase);
    DecryptEncryptBlocks(p, key, iv, Zero(), plaintext);
    KeepLastRecovers(DecryptBlocks(p, key, iv, EncryptBlocks(p, key, iv, Zero(), plaintext)), plaintext);
  }
}
