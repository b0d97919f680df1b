# File crypter container format, in Dafny

`python/crypter/crypter.py` encrypts a file under a passphrase into a
container, and decrypts such a container back:

    IV (16 bytes) || ciphertext (16 * n bytes) || tag (16 bytes)

- The IV is the MD5 digest of a 4-byte buffer built from the file length,
  with the low nibble of its last byte replaced by `length mod 16`.
- The AES-128 key is `MD5(IV || passphrase)`.
- The ciphertext is AES in CBC mode over the plaintext, cut into 16-byte
  blocks; `n = ceil(length / 16)`.
- The tag is HMAC-MD5 keyed with the AES key, over the ciphertext,
  written out by hand as `MD5(opad || MD5(ipad || ciphertext))` with
  64-byte padded key blocks.
- Decryption checks the length, recomputes the tag and compares it with
  the stored one before it opens the output; it then deciphers block by
  block and cuts the final block down to the length nibble.

The model works on byte sequences: the input file is a `seq<byte>` and
the output file is the returned `seq<byte>`. MD5 and the AES block
operations are uninterpreted functions, carried in a `Primitives` record,
so every result holds for any hash and any block cipher. The round trip
assumes only that deciphering undoes enciphering under every key; that is
the `Inverts` hypothesis, not an axiom.

Files:

- `primitives.dfy`: bytes, 16-byte blocks, XOR, the abstract primitives,
  and a streaming MD5 object `Md5` whose state is everything fed to it.
- `derivation.dfy`: the length buffer, the IV and the key. These are
  specification functions plus the methods that build them as the source
  does.
- `mac.dfy`: the padded key blocks, the tag, and its equality with RFC 2104
  HMAC.
- `cbc.dfy`: CBC encryption with the source's handling of a short final
  block, CBC decryption, and their inverse relation.
- `crypter.dfy`:
  - `Encrypted` and `Decrypted`, which specify the two directions;
  - `EncryptFile` and `DecryptFile` with their loops, each proved equal to
    its specification;
  - a ghost trace of the work decryption does.
- `properties.dfy`: the layout of a container, the value of every
  ciphertext block, the outcome of decryption, rejection of a forged tag,
  and the round trip.

Two details of the format follow the code, because a plain reading of the
format gets them wrong:

- **Length buffer.** It is `[length & 0xFF, 0, 0, 0]`. The source computes
  `(filesize << k) & 0xff`, and Python integers do not wrap, so the three
  shifted bytes are always zero. They are not copies of the low byte.
- **Final short block.** It is not padded with zeros. The 16-byte buffer is
  reassigned to each ciphertext block, so the bytes after the last chunk
  come from the previous ciphertext block. They are zeros only when the
  whole plaintext fits in one block.

## Model

| member | source | states |
|---|---|---|
| Derivation.LengthBufferIsLowByte | python/crypter/crypter.py:93-97 | the hashed length buffer is always `[length mod 256, 0, 0, 0]` |
| Derivation.LowByteOfShiftIsZero | python/crypter/crypter.py:95-97 | `(x << k) & 0xff` is 0 for every shift of 8 bits or more |
| Derivation.IvFor | python/crypter/crypter.py:98-102 | IV bytes 0-14 equal the MD5 output; byte 15 keeps that output's high nibble; its low nibble is the length modulo 16 |
| Derivation.BuildLengthBuffer | python/crypter/crypter.py:93-97 | the four appends build exactly the length buffer |
| Derivation.DeriveIv | python/crypter/crypter.py:93-102 | hashing the buffer and patching `iv[15]` in place yields `IvFor` |
| Derivation.DeriveKey | python/crypter/crypter.py:106-109 | feeding the IV and then the passphrase to one digest yields `MD5(IV || passphrase)`; decryption reuses it for lines 196-199 |
| Mac.PrepareKeyPads | python/crypter/crypter.py:114-121 | ipad and opad are 64 bytes; entry i < 16 is `key[i] ^ 0x36` or `key[i] ^ 0x5C`; every later entry is `0x36` or `0x5C`; decryption reuses it for lines 204-211 |
| Mac.KeyPadIsZeroExtended | python/crypter/crypter.py:114-121 | each padded block is the 16-byte key zero-extended to 64 bytes and XORed with the pad byte |
| Mac.TagIsHmac | python/crypter/crypter.py:123-150 | the hand-built tag equals RFC 2104 HMAC with the MD5 block size of 64 |
| Cbc.NumBlocks | python/crypter/crypter.py:133-136 | the block loop runs `ceil(length / 16)` times: the fewest 16-byte blocks that cover the length |
| Cbc.EncryptBlocks | python/crypter/crypter.py:131-144 | the ciphertext has 16 bytes per started plaintext block |
| Cbc.EncryptBlocksStep | python/crypter/crypter.py:133-144 | one loop round emits the first ciphertext block and leaves the rest of the plaintext, chained from and filled by that block, still owed |
| Cbc.EncryptBlockAt | python/crypter/crypter.py:131-144 | ciphertext block i enciphers plaintext chunk i, filled and chained by block i-1 (by the initial fill and chain for block 0) |
| Cbc.DecryptBlocks | python/crypter/crypter.py:243-247 | CBC decryption keeps the length |
| Cbc.DecryptBlocksAppend | python/crypter/crypter.py:243-247 | deciphering one more block appends `D(block) XOR` the previous ciphertext block |
| Cbc.DecryptEncryptBlocks | python/crypter/crypter.py:243-253 | when `D` inverts `E`, CBC decryption of the ciphertext starts with the whole plaintext and has `16 * ceil(length / 16)` bytes |
| Crypter.CopyChunk | python/crypter/crypter.py:137-138 | reading `size` bytes over the block buffer replaces its first `size` bytes and keeps the rest |
| Crypter.EncryptChunk | python/crypter/crypter.py:134-139 | one round reads `min(16, remaining)` bytes and returns the encipherment of the filled buffer XOR the chain |
| Crypter.EncryptStream | python/crypter/crypter.py:131-144 | the loop writes exactly `EncryptBlocks` of the plaintext (IV chain, zero first fill) and feeds exactly that to the running digest |
| Crypter.OuterDigest | python/crypter/crypter.py:147-150 | the second digest is `MD5(opad || inner digest)` |
| Crypter.EncryptFile | python/crypter/crypter.py:73-164 | the bytes written equal the container specification `Encrypted` |
| Crypter.ComputeTag | python/crypter/crypter.py:217-229 | the `tell() <= datasize` loop digests exactly bytes 16 to `filesize - 16`, in `datasize / 16` reads |
| Crypter.DecryptStream | python/crypter/crypter.py:242-253 | the output is the CBC decryption of the ciphertext, with only the final block cut to `lastn` bytes, and only when `lastn > 0`; it deciphers `datasize / 16` blocks |
| Crypter.DecryptFile | python/crypter/crypter.py:166-265 | the result equals `Decrypted`; a bad length fails before anything is hashed; a tag mismatch fails after the three digests and before the output is opened; success opens the output, then deciphers `datasize / 16` blocks |
| Properties.Completed | python/crypter/crypter.py:137-139 | the enciphered buffer holds the chunk in its first positions and the previous buffer contents after them |
| Properties.EncryptedLayout | python/crypter/crypter.py:128-153 | a container has `32 + 16 * ceil(length / 16)` bytes: the IV, then the CBC ciphertext, then the tag over exactly that ciphertext |
| Properties.EncryptedEmpty | python/crypter/crypter.py:129-153 | an empty plaintext gives a 32-byte container: the IV followed by the tag of the empty ciphertext |
| Properties.EncryptedKeepsLengthNibble | python/crypter/crypter.py:102 | the nibble decryption reads as `lastn` (line 193) is the plaintext length modulo 16 |
| Properties.BodyBlock | python/crypter/crypter.py:129-141 | container block 0 is the IV; container block j + 1 is ciphertext block j |
| Properties.CiphertextBlock | python/crypter/crypter.py:133-141 | `C_i = E(key, (chunk_i` filled by `C_{i-1}) XOR C_{i-1})`, with `C_0 = IV` and a zero fill for the first block; a short final chunk is filled from the previous ciphertext block |
| Properties.DecryptedOutcome | python/crypter/crypter.py:184-253 | decryption succeeds if and only if the length is aligned, at least 32, and the tag matches; the output length is `datasize`, or `datasize - 16 + lastn` when `lastn > 0` and `datasize > 0`; the output is a prefix of the CBC decryption |
| Properties.ForgedTagRejected | python/crypter/crypter.py:233-235 | replacing the tag of a container that decrypts with any other 16 bytes fails with a tag mismatch |
| Properties.DecryptedValid | python/crypter/crypter.py:184-253 | a well-formed container with a matching tag decrypts to its CBC decryption, cut by its IV's nibble |
| Properties.KeepLastRecovers | python/crypter/crypter.py:249-253 | cutting a decryption that starts with the plaintext by `length mod 16` gives back exactly the plaintext |
| Properties.DecryptedEncrypted | python/crypter/crypter.py:184-253 | a container made by encryption passes every check |
| Properties.RoundTrip | python/crypter/crypter.py:242-253 | when `D` inverts `E`, decrypting the container with the same passphrase yields exactly the plaintext |

## Left out

- Command-line handling: `main`, option parsing, reading the key file, `usage` and exit codes.
- Diagnostics: `print_err`, `print_info`, colours, the `verbose` flag and hexlified logging. This includes the "Wrote %d bytes" message.
- File handles: `open`, `seek` and `tell` are modelled as positions in a byte sequence. `IOError` branches are left out because the model has no I/O that can fail. Handles left open on early returns are left out as well.
- `str.encode()` of the passphrase. The passphrase is taken as bytes.
- The internals of MD5 (RFC 1321) and AES-128 (FIPS 197). They are uninterpreted functions. The stateful `AES.new` CBC object is modelled by explicit chaining.
- Whether the tag comparison at line 233 runs in constant time. That is a timing property.
- Statements of the form "a wrong passphrase or a tampered ciphertext is rejected". They hold only with high probability over MD5. With an uninterpreted hash, only the deterministic case is stated (`ForgedTagRejected`).
- Reads from the input file are not steps of the decryption trace. The trace records only the digests computed, the output being opened, and the blocks deciphered. The reads of the IV and of the stored tag happen before the tag check, as in the source.
