/** Byte vocabulary shared by the cipher, the IV generator and the packet framer. */
module Bytes {

  /** An `unsigned char`: eight bits; `+` on it wraps around at 256. */
  type byte = bv8

  /** The fixed 16-byte table that every derived key and the static IVs are mixed with. */
  const DefaultKey: seq<byte> :=
    [0x8A, 0x45, 0xC3, 0xF7, 0x21, 0x9D, 0x63, 0xA8,
     0x5E, 0xB2, 0x7F, 0x1C, 0xD9, 0x36, 0x84, 0x0F]

  /** `sizeof(DEFAULT_KEY)`, which is also the length of every derived key and IV. */
  const KeySize: nat := 16

  /**
    * `b + n` for a loop index n, truncated back to a byte: the sum is taken
    * modulo 256 (bit-vector addition on `bv8`).
    */
  function AddWrap(b: byte, n: nat): byte
    requires n < 256
  {
    b + n as byte
  }
}
