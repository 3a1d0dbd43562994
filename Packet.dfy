/**
  * Packet preparation: a copy of the payload with one checksum byte appended,
  * the XOR of every payload byte and of every byte of an optional second IV.
  */
module Packet {
  import opened Bytes

  // ---------------------------------------------------------------------------
  // Specification

  /** The XOR of all bytes of s, folded from the left starting at 0. */
  function XorFold(s: seq<byte>): byte
  {
    if |s| == 0 then 0 else XorFold(s[..|s| - 1]) ^ s[|s| - 1]
  }

  /** The packet PreparePacketForSending builds: empty for an empty payload. */
  function Framed(data: seq<byte>, iv2: seq<byte>): seq<byte>
  {
    if |data| == 0 then [] else data + [XorFold(data) ^ XorFold(iv2)]
  }

  // ---------------------------------------------------------------------------
  // Implementation

  /**
    * PreparePacketForSending: copy the payload, fold the checksum over the payload
    * and then over iv2 when it is not empty, and push the checksum onto the copy.
    */
  method PreparePacketForSending(data: seq<byte>, iv2: seq<byte>) returns (r: seq<byte>)
    ensures |data| == 0 ==> r == []
    ensures |data| > 0 ==> r == data + [XorFold(data) ^ XorFold(iv2)]
  {
    if |data| == 0 {
      return [];
    }
    var result := data;

    var checksum: byte := 0;
    for i := 0 to |data|
      invariant checksum == XorFold(data[..i])
    {
      assert data[..i + 1][..i] == data[..i];
      checksum := checksum ^ data[i];
    }
    assert data[..|data|] == data;

    if |iv2| != 0 {
      for i := 0 to |iv2|
        invariant checksum == XorFold(data) ^ XorFold(iv2[..i])
      {
        assert iv2[..i + 1][..i] == iv2[..i];
        checksum := checksum ^ iv2[i];
      }
      assert iv2[..|iv2|] == iv2;
    }

    result := result + [checksum];
    r := result;
  }

  // ---------------------------------------------------------------------------
  // Properties

  /** Folding a concatenation is XORing the folds of its parts. */
  lemma {:induction false} XorFoldConcat(a: seq<byte>, b: seq<byte>)
    ensures XorFold(a + b) == XorFold(a) ^ XorFold(b)
  {
    if |b| == 0 {
      assert a + b == a;
    } else {
      var front := b[..|b| - 1];
      assert (a + b)[..|a + b| - 1] == a + front;
      XorFoldConcat(a, front);
    }
  }

  /**
    * A prepared packet is the payload followed by one byte, the fold of the
    * payload and iv2 together.
    */
  lemma FramedShape(data: seq<byte>, iv2: seq<byte>)
    requires |data| > 0
    ensures |Framed(data, iv2)| == |data| + 1
    ensures Framed(data, iv2)[..|data|] == data
    ensures Framed(data, iv2)[|data|] == XorFold(data + iv2)
  {
    XorFoldConcat(data, iv2);
    assert Framed(data, iv2)[..|data|] == data;
  }

  /**
    * The receiver's check: folding a whole prepared packet leaves the fold of
    * iv2, which is 0 when no second IV was mixed in.
    */
  lemma FramedFoldsToIv2(data: seq<byte>, iv2: seq<byte>)
    requires |data| > 0
    ensures XorFold(Framed(data, iv2)) == XorFold(iv2)
  {
    var c := XorFold(data) ^ XorFold(iv2);
    XorFoldConcat(data, [c]);
    assert XorFold([c]) == c by {
      assert [c][..0] == [];
    }
  }

  /** Two fixed examples: [1, 2, 3] with no second IV, and [0xFF] with [0x0F]. */
  lemma FramedExamples()
    ensures Framed([0x01, 0x02, 0x03], []) == [0x01, 0x02, 0x03, 0x00]
    ensures Framed([0xFF], [0x0F]) == [0xFF, 0xF0]
  {
    var a: seq<byte> := [0x01, 0x02, 0x03];
    assert a[..2] == [0x01, 0x02] && a[..2][..1] == [0x01] && a[..1][..0] == [];
    assert XorFold(a[..1]) == 0x01;
    assert XorFold(a[..2]) == 0x03;
    assert XorFold(a) == 0x00;
    var b: seq<byte> := [0xFF];
    assert b[..0] == [];
    var v: seq<byte> := [0x0F];
    assert v[..0] == [];
  }
}
