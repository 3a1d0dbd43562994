/**
  * The XOR packet cipher. A 16-byte key is derived from DefaultKey, an IV and a
  * seed byte, and XORed cyclically over the data. The exported Encrypt prepends the
  * seed to the payload before encrypting; the exported Decrypt reads the seed back
  * from the first ciphertext byte and strips the first byte of its result.
  */
module Cipher {
  import opened Bytes

  // ---------------------------------------------------------------------------
  // Specification

  /** Byte j of the key derived from iv and seed: DefaultKey[j] ^ iv[j mod |iv|] ^ (seed + j, wrapped). */
  function KeyByte(iv: seq<byte>, seed: byte, j: nat): byte
    requires |iv| > 0 && j < KeySize
  {
    DefaultKey[j] ^ iv[j % |iv|] ^ AddWrap(seed, j)
  }

  /** The 16-byte key derived from iv and seed. */
  function DerivedKey(iv: seq<byte>, seed: byte): (key: seq<byte>)
    requires |iv| > 0
    ensures |key| == KeySize
  {
    seq(KeySize, j requires 0 <= j < KeySize => KeyByte(iv, seed, j))
  }

  /** data XORed with key, the key repeated cyclically. */
  function XorWithKey(data: seq<byte>, key: seq<byte>): (r: seq<byte>)
    requires |key| > 0
    ensures |r| == |data|
  {
    seq(|data|, i requires 0 <= i < |data| => data[i] ^ key[i % |key|])
  }

  /** The value of EncryptData: empty when data or iv is empty, otherwise data XORed with the key of (iv, seed). */
  function Transform(data: seq<byte>, iv: seq<byte>, seed: byte): seq<byte>
  {
    if |data| == 0 || |iv| == 0 then [] else XorWithKey(data, DerivedKey(iv, seed))
  }

  /** The value of the exported Encrypt: the seed is prepended, then the whole buffer is encrypted with that seed. */
  function Sealed(p: seq<byte>, iv: seq<byte>, rnd: byte): seq<byte>
  {
    if |p| == 0 || |iv| == 0 then [] else Transform([rnd] + p, iv, rnd)
  }

  /** The value of the exported Decrypt: the whole buffer decrypted with seed c[0], then its first byte dropped. */
  function Opened(c: seq<byte>, iv: seq<byte>): seq<byte>
  {
    if |c| == 0 || |iv| == 0 then [] else Transform(c, iv, c[0])[1..]
  }

  // ---------------------------------------------------------------------------
  // Implementation

  /**
    * The key-derivation loop. The source writes it out twice, once in EncryptData
    * and once in DecryptData; both copies run only after iv was found non-empty.
    */
  method DeriveKey(iv: seq<byte>, randomSeed: byte) returns (key: seq<byte>)
    requires |iv| > 0
    ensures key == DerivedKey(iv, randomSeed)
  {
    var k := new byte[KeySize];
    for i := 0 to k.Length
      invariant forall j :: 0 <= j < i ==> k[j] == KeyByte(iv, randomSeed, j)
    {
      // i % sizeof(DEFAULT_KEY) is i itself, as i < 16
      var b := DefaultKey[i] ^ iv[i % |iv|] ^ (randomSeed + i as byte);
      assert b == KeyByte(iv, randomSeed, i);
      k[i] := b;
    }
    key := k[..];
  }

  /** The XOR loop, likewise written out in both EncryptData and DecryptData. */
  method ApplyKey(data: seq<byte>, key: seq<byte>) returns (r: seq<byte>)
    requires |key| > 0
    ensures r == XorWithKey(data, key)
  {
    var out := new byte[|data|];
    for i := 0 to |data|
      invariant forall k :: 0 <= k < i ==> out[k] == data[k] ^ key[k % |key|]
    {
      out[i] := data[i] ^ key[i % |key|];
    }
    r := out[..];
  }

  /** EncryptData: XOR data with the key of (iv, randomSeed); empty when data or iv is empty. */
  method EncryptData(data: seq<byte>, iv: seq<byte>, randomSeed: byte) returns (r: seq<byte>)
    ensures |data| == 0 || |iv| == 0 ==> r == []
    ensures r == Transform(data, iv, randomSeed)
  {
    if |data| == 0 || |iv| == 0 {
      return [];
    }
    var key := DeriveKey(iv, randomSeed);
    r := ApplyKey(data, key);
  }

  /** DecryptData: the same transformation, with the seed taken from data[0]. */
  method DecryptData(data: seq<byte>, iv: seq<byte>) returns (r: seq<byte>)
    ensures |data| == 0 || |iv| == 0 ==> r == []
    ensures |data| > 0 ==> r == Transform(data, iv, data[0])
  {
    if |data| == 0 || |iv| == 0 {
      return [];
    }
    var randomSeed := data[0];
    var key := DeriveKey(iv, randomSeed);
    r := ApplyKey(data, key);
  }

  /** The exported Encrypt over byte sequences: prepend rnd to the payload, then EncryptData with seed rnd. */
  method Encrypt(p: seq<byte>, iv: seq<byte>, rnd: byte) returns (c: seq<byte>)
    ensures c == Sealed(p, iv, rnd)
  {
    if |p| == 0 || |iv| == 0 {
      return [];
    }
    var dataVec := [rnd] + p;
    c := EncryptData(dataVec, iv, rnd);
  }

  /** The exported Decrypt over byte sequences: DecryptData, then drop the first (seed) byte if there is one. */
  method Decrypt(c: seq<byte>, iv: seq<byte>) returns (p: seq<byte>)
    ensures p == Opened(c, iv)
  {
    if |c| == 0 || |iv| == 0 {
      return [];
    }
    p := DecryptData(c, iv);
    if |p| > 0 {
      p := p[1..];
    }
  }

  // ---------------------------------------------------------------------------
  // Properties

  /** The derived key has 16 bytes for any non-empty iv, each given by the closed formula. */
  lemma DerivedKeyAt(iv: seq<byte>, seed: byte, j: nat)
    requires |iv| > 0 && j < KeySize
    ensures |DerivedKey(iv, seed)| == 16
    ensures DerivedKey(iv, seed)[j] == DefaultKey[j] ^ iv[j % |iv|] ^ AddWrap(seed, j)
  {
  }

  /** Closed form of EncryptData: same length as data, byte i XORed with key byte i mod 16. */
  lemma TransformAt(data: seq<byte>, iv: seq<byte>, seed: byte, i: nat)
    requires |iv| > 0 && i < |data|
    ensures |Transform(data, iv, seed)| == |data|
    ensures Transform(data, iv, seed)[i] == data[i] ^ DerivedKey(iv, seed)[i % KeySize]
  {
  }

  /** EncryptData is its own inverse for a fixed iv and seed. */
  lemma TransformInvolutive(data: seq<byte>, iv: seq<byte>, seed: byte)
    requires |iv| > 0
    ensures Transform(Transform(data, iv, seed), iv, seed) == data
  {
    var once := Transform(data, iv, seed);
    if |data| > 0 {
      var key := DerivedKey(iv, seed);
      forall i | 0 <= i < |data|
        ensures Transform(once, iv, seed)[i] == data[i]
      {
        assert once[i] == data[i] ^ key[i % KeySize];
      }
    }
  }

  /** Decrypting with an explicit seed gives back what the same seed encrypted, in particular when it is the first ciphertext byte. */
  lemma DecryptUndoesEncrypt(data: seq<byte>, iv: seq<byte>, seed: byte)
    requires |data| > 0 && |iv| > 0
    requires Transform(data, iv, seed)[0] == seed
    ensures Transform(Transform(data, iv, seed), iv, Transform(data, iv, seed)[0]) == data
  {
    TransformInvolutive(data, iv, seed);
  }

  /**
    * The exported Encrypt grows the payload by one byte, and its first byte is
    * DefaultKey[0] ^ iv[0] whatever rnd is: the prepended seed cancels against the
    * seed mixed into key byte 0.
    */
  lemma SealedShape(p: seq<byte>, iv: seq<byte>, rnd: byte)
    requires |p| > 0 && |iv| > 0
    ensures |Sealed(p, iv, rnd)| == |p| + 1
    ensures Sealed(p, iv, rnd)[0] == DefaultKey[0] ^ iv[0]
  {
    TransformAt([rnd] + p, iv, rnd, 0);
    DerivedKeyAt(iv, rnd, 0);
  }

  /** The exported Decrypt shortens a non-empty ciphertext by exactly one byte. */
  lemma OpenedLength(c: seq<byte>, iv: seq<byte>)
    requires |c| > 0 && |iv| > 0
    ensures |Opened(c, iv)| == |c| - 1
  {
  }

  /** Byte i + 1 of the exported Encrypt's output is payload byte i under key byte (i + 1) mod 16. */
  lemma SealedAt(p: seq<byte>, iv: seq<byte>, rnd: byte, i: nat)
    requires |iv| > 0 && i < |p|
    ensures |Sealed(p, iv, rnd)| == |p| + 1
    ensures Sealed(p, iv, rnd)[i + 1] == p[i] ^ DerivedKey(iv, rnd)[(i + 1) % KeySize]
  {
    TransformAt([rnd] + p, iv, rnd, i + 1);
    assert ([rnd] + p)[i + 1] == p[i];
  }

  /** Byte i of the exported Decrypt's output is ciphertext byte i + 1 under the key of seed c[0]. */
  lemma OpenedAt(c: seq<byte>, iv: seq<byte>, i: nat)
    requires |iv| > 0 && i + 1 < |c|
    ensures |Opened(c, iv)| == |c| - 1
    ensures Opened(c, iv)[i] == c[i + 1] ^ DerivedKey(iv, c[0])[(i + 1) % KeySize]
  {
    TransformAt(c, iv, c[0], i + 1);
  }

  /**
    * Byte i of Decrypt(Encrypt(p, iv, rnd), iv): p[i] disturbed by the difference
    * between the key stream of rnd and that of the seed Decrypt recovers.
    */
  lemma RoundTripAt(p: seq<byte>, iv: seq<byte>, rnd: byte, i: nat)
    requires |iv| > 0 && i < |p|
    ensures |Opened(Sealed(p, iv, rnd), iv)| == |p|
    ensures Opened(Sealed(p, iv, rnd), iv)[i]
         == p[i] ^ AddWrap(rnd, (i + 1) % KeySize) ^ AddWrap(DefaultKey[0] ^ iv[0], (i + 1) % KeySize)
  {
    var c := Sealed(p, iv, rnd);
    var j := (i + 1) % KeySize;
    SealedShape(p, iv, rnd);
    SealedAt(p, iv, rnd, i);
    OpenedAt(c, iv, i);
    KeyDelta(iv, rnd, c[0], j);
  }

  /** Two keys from the same iv differ, byte for byte, only by their seed contributions. */
  lemma KeyDelta(iv: seq<byte>, s1: byte, s2: byte, j: nat)
    requires |iv| > 0 && j < KeySize
    ensures DerivedKey(iv, s1)[j] ^ DerivedKey(iv, s2)[j] == AddWrap(s1, j) ^ AddWrap(s2, j)
  {
    DerivedKeyAt(iv, s1, j);
    DerivedKeyAt(iv, s2, j);
  }

  /** With rnd = DefaultKey[0] ^ iv[0], Decrypt gives back exactly what Encrypt was given. */
  lemma RoundTripMatchingSeed(p: seq<byte>, iv: seq<byte>)
    requires |iv| > 0
    ensures Opened(Sealed(p, iv, DefaultKey[0] ^ iv[0]), iv) == p
  {
    var s := DefaultKey[0] ^ iv[0];
    var back := Opened(Sealed(p, iv, s), iv);
    if |p| > 0 {
      RoundTripAt(p, iv, s, 0);
      forall i | 0 <= i < |p|
        ensures back[i] == p[i]
      {
        RoundTripAt(p, iv, s, i);
      }
    }
  }

  /**
    * The round trip of the exported pair holds for a non-empty payload exactly
    * when rnd happens to equal DefaultKey[0] ^ iv[0], the seed Decrypt recovers.
    */
  lemma RoundTripIff(p: seq<byte>, iv: seq<byte>, rnd: byte)
    requires |p| > 0 && |iv| > 0
    ensures Opened(Sealed(p, iv, rnd), iv) == p <==> rnd == DefaultKey[0] ^ iv[0]
  {
    var s := DefaultKey[0] ^ iv[0];
    if rnd == s {
      RoundTripMatchingSeed(p, iv);
    } else {
      var back := Opened(Sealed(p, iv, rnd), iv);
      RoundTripAt(p, iv, rnd, 0);
      XorDistinct(p[0], AddWrap(rnd, 1), AddWrap(s, 1));
      assert back[0] != p[0];
    }
  }

  /** XORing two different bytes into x cannot leave x unchanged. */
  lemma XorDistinct(x: byte, a: byte, b: byte)
    requires a != b
    ensures x ^ a ^ b != x
  {
  }

  /** A concrete payload that the exported pair does not give back: seed 0 with iv [0]. */
  lemma SeedLostExample()
    ensures Opened(Sealed([0x41], [0x00], 0x00), [0x00]) != [0x41]
  {
    RoundTripIff([0x41], [0x00], 0x00);
  }

  /**
    * The evidently intended Encrypt: the seed byte travels in the clear at
    * position 0, followed by the payload encrypted at offsets 1.. of the seeded buffer.
    */
  function SealedSeedInClear(p: seq<byte>, iv: seq<byte>, rnd: byte): (c: seq<byte>)
    ensures |p| > 0 && |iv| > 0 ==> |c| == |p| + 1 && c[0] == rnd
  {
    if |p| == 0 || |iv| == 0 then [] else [rnd] + Transform([rnd] + p, iv, rnd)[1..]
  }

  /** Byte i + 1 of the corrected Encrypt's output is payload byte i under key byte (i + 1) mod 16 of rnd. */
  lemma SeedInClearAt(p: seq<byte>, iv: seq<byte>, rnd: byte, i: nat)
    requires |iv| > 0 && i < |p|
    ensures |SealedSeedInClear(p, iv, rnd)| == |p| + 1
    ensures SealedSeedInClear(p, iv, rnd)[i + 1] == p[i] ^ DerivedKey(iv, rnd)[(i + 1) % KeySize]
  {
    TransformAt([rnd] + p, iv, rnd, i + 1);
    assert ([rnd] + p)[i + 1] == p[i];
  }

  /** With the seed sent in the clear, the unchanged Decrypt recovers every payload. */
  lemma SeedInClearRoundTrip(p: seq<byte>, iv: seq<byte>, rnd: byte)
    requires |iv| > 0
    ensures Opened(SealedSeedInClear(p, iv, rnd), iv) == p
  {
    if |p| > 0 {
      var c := SealedSeedInClear(p, iv, rnd);
      OpenedLength(c, iv);
      forall i | 0 <= i < |p|
        ensures Opened(c, iv)[i] == p[i]
      {
        SeedInClearAt(p, iv, rnd, i);
        OpenedAt(c, iv, i);
      }
    }
  }
}
