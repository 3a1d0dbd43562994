/**
  * Generation of a 16-byte IV from a hash buffer by one of four strategies,
  * chosen by ivType: 0 mixes the hash with DefaultKey, 1 mixes it with the wall
  * clock, 2 mixes it with random bytes, and every other value mixes the hash
  * plus the byte index with DefaultKey. The clock reading and the random bytes
  * are passed in as parameters.
  */
module IvGenerator {
  import opened Bytes

  /** A Windows WORD: 16 bits, unsigned. */
  type word = bv16

  /** A Windows DWORD: 32 bits, unsigned. */
  type dword = bv32

  /** The fields of a SYSTEMTIME that the time-based strategy reads. */
  datatype SystemTime = SystemTime(
    year: word, month: word, day: word,
    hour: word, minute: word, second: word, milliseconds: word)

  // ---------------------------------------------------------------------------
  // Specification: byte i of the IV under each strategy (hash repeated cyclically)

  /** `static_cast<unsigned char>` of a WORD: its low eight bits. */
  function LowByte(w: word): byte
  {
    (w & 0xFF) as byte
  }

  /**
    * The eight clock bytes the time-based strategy lays down before mixing in the
    * hash: low and high byte of the year, month, day, hour, minute, second and
    * the low byte of the milliseconds.
    */
  function ClockBytes(st: SystemTime): seq<byte>
  {
    [LowByte(st.year & 0xFF), LowByte((st.year >> 8) & 0xFF), LowByte(st.month), LowByte(st.day),
     LowByte(st.hour), LowByte(st.minute), LowByte(st.second), LowByte(st.milliseconds & 0xFF)]
  }

  /** Strategy 0: hash byte XOR DefaultKey byte. */
  function StaticByte(h: seq<byte>, i: nat): byte
    requires |h| > 0 && i < KeySize
  {
    h[i % |h|] ^ DefaultKey[i]
  }

  /** Strategy 1: clock byte (zero past byte 7) XOR hash byte. */
  function TimeByte(h: seq<byte>, st: SystemTime, i: nat): byte
    requires |h| > 0 && i < KeySize
  {
    (if i < 8 then ClockBytes(st)[i] else 0) ^ h[i % |h|]
  }

  /** Strategy 2: random draw XOR hash byte. */
  function RandomByte(h: seq<byte>, draws: seq<byte>, i: nat): byte
    requires |h| > 0 && i < KeySize && i < |draws|
  {
    draws[i] ^ h[i % |h|]
  }

  /** Every other strategy: (hash byte + i) truncated to a byte, XOR DefaultKey byte. */
  function FallbackByte(h: seq<byte>, i: nat): byte
    requires |h| > 0 && i < KeySize
  {
    AddWrap(h[i % |h|], i) ^ DefaultKey[i]
  }

  // ---------------------------------------------------------------------------
  // Implementation

  /**
    * GenerateIVVector. `draws` are the sixteen values the shared random generator
    * delivers when strategy 2 runs; `clock` is what GetSystemTime reports when
    * strategy 1 runs. Neither is read by the other strategies.
    */
  method GenerateIvVector(ivHash: seq<byte>, ivType: dword, clock: SystemTime, draws: seq<byte>)
    returns (iv: seq<byte>)
    requires |draws| == KeySize
    ensures |iv| == KeySize
    ensures |ivHash| == 0 ==>
      forall i :: 0 <= i < KeySize ==> iv[i] == 0
    ensures |ivHash| > 0 && ivType == 0 ==>
      forall i :: 0 <= i < KeySize ==> iv[i] == StaticByte(ivHash, i)
    ensures |ivHash| > 0 && ivType == 1 ==>
      forall i :: 0 <= i < KeySize ==> iv[i] == TimeByte(ivHash, clock, i)
    ensures |ivHash| > 0 && ivType == 2 ==>
      forall i :: 0 <= i < KeySize ==> iv[i] == RandomByte(ivHash, draws, i)
    ensures |ivHash| > 0 && ivType > 2 ==>
      forall i :: 0 <= i < KeySize ==> iv[i] == FallbackByte(ivHash, i)
  {
    if |ivHash| == 0 {
      var zeroed := new byte[KeySize](_ => 0);
      return zeroed[..];
    }

    var result := new byte[KeySize](_ => 0);
    if ivType == 0 {
      StaticMix(result, ivHash);
    } else if ivType == 1 {
      TimeMix(result, ivHash, clock);
    } else if ivType == 2 {
      RandomMix(result, ivHash, draws);
    } else {
      FallbackMix(result, ivHash);
    }
    iv := result[..];
  }

  /** The loop of strategy 0. */
  method StaticMix(result: array<byte>, ivHash: seq<byte>)
    requires result.Length == KeySize && |ivHash| > 0
    modifies result
    ensures forall i :: 0 <= i < KeySize ==> result[i] == StaticByte(ivHash, i)
  {
    var n := |ivHash|;
    for i := 0 to result.Length
      invariant forall k :: 0 <= k < i ==> result[k] == StaticByte(ivHash, k)
    {
      // i % sizeof(DEFAULT_KEY) is i itself, as i < 16
      var b := ivHash[i % n] ^ DefaultKey[i];
      assert b == StaticByte(ivHash, i);
      result[i] := b;
    }
  }

  /**
    * Strategy 1, on a freshly zeroed buffer: the clock bytes are laid down in
    * bytes 0 to 7, then every byte is XORed in place with the hash byte.
    */
  method TimeMix(result: array<byte>, ivHash: seq<byte>, clock: SystemTime)
    requires result.Length == KeySize && |ivHash| > 0
    requires forall i :: 0 <= i < KeySize ==> result[i] == 0
    modifies result
    ensures forall i :: 0 <= i < KeySize ==> result[i] == TimeByte(ivHash, clock, i)
  {
    LayClock(result, clock);
    ghost var laid := result[..];
    XorHashInPlace(result, ivHash);
    forall i | 0 <= i < KeySize
      ensures result[i] == TimeByte(ivHash, clock, i)
    {
      assert result[i] == laid[i] ^ ivHash[i % |ivHash|];
    }
  }

  /** The first half of strategy 1: the clock bytes written into bytes 0 to 7. */
  method LayClock(result: array<byte>, clock: SystemTime)
    requires result.Length == KeySize
    modifies result
    ensures forall i :: 0 <= i < 8 ==> result[i] == ClockBytes(clock)[i]
    ensures forall i :: 8 <= i < KeySize ==> result[i] == old(result[i])
  {
    var t := ClockBytes(clock);
    for i := 0 to 8
      invariant forall k :: 0 <= k < i ==> result[k] == t[k]
      invariant forall k :: 8 <= k < KeySize ==> result[k] == old(result[k])
    {
      result[i] := t[i];
    }
  }

  /** The in-place loop of strategy 1: `result[i] ^= hash[i mod |hash|]` for every byte. */
  method XorHashInPlace(result: array<byte>, ivHash: seq<byte>)
    requires |ivHash| > 0
    modifies result
    ensures forall i :: 0 <= i < result.Length ==> result[i] == old(result[i]) ^ ivHash[i % |ivHash|]
  {
    var n := |ivHash|;
    for i := 0 to result.Length
      invariant forall k :: 0 <= k < i ==> result[k] == old(result[k]) ^ ivHash[k % n]
      invariant forall k :: i <= k < result.Length ==> result[k] == old(result[k])
    {
      result[i] := result[i] ^ ivHash[i % n];
    }
  }

  /** The loop of strategy 2: each byte is the next draw, then XORed in place with the hash byte. */
  method RandomMix(result: array<byte>, ivHash: seq<byte>, draws: seq<byte>)
    requires result.Length == KeySize && |ivHash| > 0 && |draws| == KeySize
    modifies result
    ensures forall i :: 0 <= i < KeySize ==> result[i] == RandomByte(ivHash, draws, i)
  {
    var n := |ivHash|;
    for i := 0 to result.Length
      invariant forall k :: 0 <= k < i ==> result[k] == RandomByte(ivHash, draws, k)
    {
      result[i] := draws[i];
      result[i] := result[i] ^ ivHash[i % n];
      assert result[i] == RandomByte(ivHash, draws, i);
    }
  }

  /** The loop of the fallback strategy. */
  method FallbackMix(result: array<byte>, ivHash: seq<byte>)
    requires result.Length == KeySize && |ivHash| > 0
    modifies result
    ensures forall i :: 0 <= i < KeySize ==> result[i] == FallbackByte(ivHash, i)
  {
    var n := |ivHash|;
    for i := 0 to result.Length
      invariant forall k :: 0 <= k < i ==> result[k] == FallbackByte(ivHash, k)
    {
      var b := (ivHash[i % n] + i as byte) ^ DefaultKey[i];
      assert b == FallbackByte(ivHash, i);
      result[i] := b;
    }
  }
}
