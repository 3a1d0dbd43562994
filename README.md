# GCDLL packet cipher: a Dafny model

GCDLL is a Windows DLL used by a game client. It obfuscates network packets with a
small XOR scheme. This project models the byte-transforming core of
`GCDLL/GCDLL/GCDLL.cpp` and proves properties of it.

The core has five parts:

- **Key derivation.** A 16-byte key is built from the fixed table `DEFAULT_KEY`
  (`Bytes.DefaultKey`), an IV and a seed byte. Byte `i` of the key is
  `DEFAULT_KEY[i] ^ iv[i mod |iv|] ^ (seed + i)`, where the addition wraps at 256.
- **The XOR transform.** `EncryptData` XORs the data with that key, repeated
  cyclically. `DecryptData` does the same, but takes its seed from the first data
  byte.
- **The exported `_Encrypt` / `_Decrypt`, at the level of byte sequences.**
  `_Encrypt` prepends the seed byte and then encrypts the whole buffer with that
  seed. `_Decrypt` decrypts and then drops the first byte.
- **`GenerateIVVector`.** It builds a 16-byte IV from a hash by one of four
  strategies:
  - 0: hash XOR `DEFAULT_KEY`;
  - 1: wall clock XOR hash;
  - 2: random bytes XOR hash;
  - any other value: (hash + index) XOR `DEFAULT_KEY`.

  An empty hash gives sixteen zero bytes.
- **`PreparePacketForSending`.** It appends one checksum byte: the XOR of all
  payload bytes and of all bytes of an optional second IV.

Bytes are `bv8`, so `+` on a byte wraps around exactly as `unsigned char`
arithmetic does. `std::vector` values become `seq<byte>`. Each C++ loop that fills
a fresh vector by index becomes a method that fills a fresh `array` in a `for`
loop. That method's postcondition ties the result to a specification function
(`DerivedKey`, `XorWithKey`, `Transform`, `StaticByte`, `TimeByte`, `RandomByte`,
`FallbackByte`, `XorFold`, `Framed`). The properties are proved as lemmas about
those functions.

Modules:

- `Bytes`: the byte type, `DefaultKey`, `KeySize`, and wrapping addition.
- `Cipher`: key derivation, `EncryptData`/`DecryptData`, the exported
  `Encrypt`/`Decrypt`, and the round-trip analysis.
- `IvGenerator`: `GenerateIVVector`.
- `Packet`: `PreparePacketForSending`.

The source writes the key loop and the XOR loop twice, once in `EncryptData`
and once in `DecryptData`. Here each loop is written once: `Cipher.DeriveKey`
and `Cipher.ApplyKey`, called by both methods. So encryption and decryption
derive the same key for the same (iv, seed).

### The round trip holds only for one seed

`_Decrypt(_Encrypt(p, iv, rnd), iv)` does not give back `p` in general. Here is
why:

1. `_Encrypt` prepends `rnd` and encrypts with key byte 0 equal to
   `DEFAULT_KEY[0] ^ iv[0] ^ rnd`.
2. So ciphertext byte 0 is `DEFAULT_KEY[0] ^ iv[0]`, and the seed cancels out.
3. `DecryptData` reads that byte as the seed (`GCDLL/GCDLL/GCDLL.cpp:134`).

The model follows the code. `Cipher.RoundTripIff` proves that, for a non-empty
payload and IV, the round trip holds exactly when `rnd == DEFAULT_KEY[0] ^ iv[0]`.
An encryptor that sends the seed in the clear recovers every payload; see
"Findings".

## Model

| member | source | states |
|---|---|---|
| Cipher.DerivedKey | GCDLL/GCDLL/GCDLL.cpp:110-115 | the derived key has exactly 16 bytes, whatever the length of the non-empty IV |
| Cipher.DeriveKey | GCDLL/GCDLL/GCDLL.cpp:110-115 | the key loop fills a 16-byte buffer that equals the derived key of (iv, seed) |
| Cipher.DerivedKeyAt | GCDLL/GCDLL/GCDLL.cpp:137-142 | key byte j is DEFAULT_KEY[j] ^ iv[j mod iv.size()] ^ (seed + j wrapped to a byte), for every IV length |
| Cipher.XorWithKey | GCDLL/GCDLL/GCDLL.cpp:118-121 | XOR with a cyclically repeated key keeps the length of the data |
| Cipher.ApplyKey | GCDLL/GCDLL/GCDLL.cpp:145-148 | the XOR loop's output is data[i] ^ key[i mod key.size()] at every index, same length as data |
| Cipher.EncryptData | GCDLL/GCDLL/GCDLL.cpp:102-124 | empty when data or iv is empty; otherwise data XORed with the key of (iv, randomSeed) |
| Cipher.DecryptData | GCDLL/GCDLL/GCDLL.cpp:127-151 | empty when data or iv is empty; otherwise the same transform as EncryptData with seed data[0] |
| Cipher.TransformAt | GCDLL/GCDLL/GCDLL.cpp:118-121 | the encrypted output has the input's length and byte i is data[i] ^ key[i mod 16] |
| Cipher.TransformInvolutive | GCDLL/GCDLL/GCDLL.cpp:119-121 | encrypting twice with the same iv and seed gives the data back |
| Cipher.DecryptUndoesEncrypt | GCDLL/GCDLL/GCDLL.cpp:134-148 | DecryptData undoes EncryptData whenever the first ciphertext byte is the seed that was used |
| Cipher.Encrypt | GCDLL/GCDLL/GCDLL.cpp:252-264 | empty for an empty payload or iv; otherwise EncryptData of rnd prepended to the payload, with seed rnd |
| Cipher.Decrypt | GCDLL/GCDLL/GCDLL.cpp:280-294 | empty for an empty ciphertext or iv; otherwise DecryptData of the ciphertext with its first byte removed |
| Cipher.SealedShape | GCDLL/GCDLL/GCDLL.cpp:261-264 | Encrypt yields p.size()+1 bytes and its first byte is DEFAULT_KEY[0] ^ iv[0], independent of rnd |
| Cipher.SealedAt | GCDLL/GCDLL/GCDLL.cpp:261-264 | byte i+1 of Encrypt's output is p[i] ^ key(iv, rnd)[(i+1) mod 16] |
| Cipher.OpenedLength | GCDLL/GCDLL/GCDLL.cpp:289-294 | Decrypt of a non-empty ciphertext has exactly one byte fewer |
| Cipher.OpenedAt | GCDLL/GCDLL/GCDLL.cpp:289-294 | byte i of Decrypt's output is c[i+1] ^ key(iv, c[0])[(i+1) mod 16] |
| Cipher.KeyDelta | GCDLL/GCDLL/GCDLL.cpp:137-142 | two keys from the same iv differ at byte j only by (s1 + j) ^ (s2 + j) |
| Cipher.RoundTripAt | GCDLL/GCDLL/GCDLL.cpp:261-294 | byte i of Decrypt(Encrypt(p)) is p[i] disturbed by the difference of the seed streams of rnd and of DEFAULT_KEY[0] ^ iv[0] |
| Cipher.RoundTripMatchingSeed | GCDLL/GCDLL/GCDLL.cpp:261-294 | with rnd = DEFAULT_KEY[0] ^ iv[0], Decrypt(Encrypt(p, iv, rnd), iv) == p for every payload |
| Cipher.RoundTripIff | GCDLL/GCDLL/GCDLL.cpp:261-294 | for non-empty p and iv, Decrypt(Encrypt(p, iv, rnd), iv) == p if and only if rnd == DEFAULT_KEY[0] ^ iv[0] |
| Cipher.SeedLostExample | GCDLL/GCDLL/GCDLL.cpp:261-264 | payload [0x41] with iv [0x00] and seed 0x00 does not survive the round trip |
| Cipher.SealedSeedInClear | GCDLL/GCDLL/GCDLL.cpp:261-264 | corrected Encrypt: p.size()+1 bytes whose first byte is the seed itself |
| Cipher.SeedInClearAt | GCDLL/GCDLL/GCDLL.cpp:261-264 | byte i+1 of the corrected Encrypt's output is p[i] under key byte (i+1) mod 16 of the seed |
| Cipher.SeedInClearRoundTrip | GCDLL/GCDLL/GCDLL.cpp:289-294 | the unchanged Decrypt recovers every payload from the corrected Encrypt |
| IvGenerator.GenerateIvVector | GCDLL/GCDLL/GCDLL.cpp:154-209 | always 16 bytes; all zero for an empty hash whatever ivType; otherwise byte i follows the strategy ivType selects (0, 1, 2, anything else) |
| IvGenerator.StaticMix | GCDLL/GCDLL/GCDLL.cpp:163-167 | strategy 0: byte i is h[i mod h.size()] ^ DEFAULT_KEY[i] |
| IvGenerator.TimeMix | GCDLL/GCDLL/GCDLL.cpp:169-188 | strategy 1: byte i is clock byte i ^ h[i mod h.size()] for i < 8 and h[i mod h.size()] for i >= 8 |
| IvGenerator.LayClock | GCDLL/GCDLL/GCDLL.cpp:175-182 | bytes 0..7 take the low and high year byte, month, day, hour, minute, second and low millisecond byte; bytes 8..15 are untouched |
| IvGenerator.XorHashInPlace | GCDLL/GCDLL/GCDLL.cpp:185-187 | every byte is XORed in place with h[i mod h.size()] |
| IvGenerator.RandomMix | GCDLL/GCDLL/GCDLL.cpp:191-199 | strategy 2: byte i is the i-th random draw ^ h[i mod h.size()] |
| IvGenerator.FallbackMix | GCDLL/GCDLL/GCDLL.cpp:202-205 | every other ivType: byte i is (h[i mod h.size()] + i, wrapped to a byte) ^ DEFAULT_KEY[i] |
| Packet.PreparePacketForSending | GCDLL/GCDLL/GCDLL.cpp:212-238 | empty for empty data; otherwise data followed by the XOR-fold of data XOR the XOR-fold of iv2 |
| Packet.XorFoldConcat | GCDLL/GCDLL/GCDLL.cpp:222-232 | folding data and then iv2 in one accumulator is the fold of their concatenation |
| Packet.FramedShape | GCDLL/GCDLL/GCDLL.cpp:219-235 | the packet has data.size()+1 bytes, its prefix is the unchanged payload, and its last byte is the fold of data ++ iv2 |
| Packet.FramedFoldsToIv2 | GCDLL/GCDLL/GCDLL.cpp:222-235 | folding the whole packet leaves the fold of iv2, so 0 when iv2 is empty |
| Packet.FramedExamples | GCDLL/GCDLL/GCDLL.cpp:214-237 | [1,2,3] with empty iv2 gives [1,2,3,0]; [0xFF] with [0x0F] gives [0xFF,0xF0] |

## Left out

- `DllMain` and the module lifecycle (`GCDLL/GCDLL/GCDLL.cpp:58-70`) are loader plumbing with no effect on the bytes.
- `MemoryManager` and its keep-the-last-ten buffer recycling (`GCDLL/GCDLL/GCDLL.cpp:27-55`) concern memory lifetime across the DLL boundary, not the transformation.
- `AnsiStringToVector`/`VectorToAnsiString` and the `strlen`/null-pointer handling of the exported functions are C-string conversion. The model works on byte sequences. In the DLL, a zero byte inside a payload, IV or hash (also one produced by encryption) truncates it at the boundary; the model does not capture that.
- `_GenerateIV` and `_ClearPacket` only convert strings around `GenerateIVVector` and `PreparePacketForSending`, so only the inner functions are modelled.
- `GetSystemTime` becomes the `clock` parameter of `GenerateIvVector`. The global `std::mt19937` generator and `uniform_int_distribution(0, 255)` become its `draws` parameter: the sixteen values strategy 2 consumes. Seeding the generator and sharing it between threads are not modelled.
- IvGenerator.GenerateIvVector: requires sixteen `draws` on every call, although only strategy 2 reads them; the other strategies leave the generator untouched in the source.
- IvGenerator.LayClock: writes the eight clock bytes in a loop over `ClockBytes`; the source writes eight separate assignments with the same values.
- `Packet.PreparePacketForSending` works on immutable sequences, so the "input is not modified" promise holds by construction; the copy-then-`push_back` is modelled as sequence concatenation.
- `GCDLL/GCDLL/GCDLL.h` only declares the exports and is not part of this model.

## Findings

| source | as written | input that shows it | evidently intended | confidence | as-written member | corrected member |
|---|---|---|---|---|---|---|
| GCDLL/GCDLL/GCDLL.cpp:261-264 | `_Encrypt` prepends the seed and then encrypts it together with the payload, so ciphertext byte 0 is `DEFAULT_KEY[0] ^ iv[0]` and the seed cannot be recovered by `_Decrypt` (which reads byte 0 as the seed) | payload `[0x41]`, iv `[0x00]`, rnd `0x00`: the round trip does not return `[0x41]` | the seed travels in the clear as byte 0, followed by the encrypted payload, so `_Decrypt(_Encrypt(p, iv, rnd), iv) == p` for every rnd | not executed | Cipher.SeedLostExample | Cipher.SeedInClearRoundTrip |
