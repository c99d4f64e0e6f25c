/**
 * Big-endian integer decoding as the GF reader's byte helpers do it: the bytes
 * read fill the tail of a zeroed 4-byte buffer, which is then interpreted by
 * `i32::from_be_bytes` (two's complement). Reading 1, 2 or 3 bytes therefore
 * zero-extends; only a full 4-byte read can give a negative value.
 */
module BigEndian {

  /** One input byte (Rust's u8). */
  type byte = x: int | 0 <= x < 256

  const TWO_31: int := 0x8000_0000
  const TWO_32: int := 0x1_0000_0000

  /** The range of Rust's i32. */
  predicate IsI32(v: int) {
    -TWO_31 <= v < TWO_31
  }

  function Pow256(k: nat): (r: nat)
    ensures r >= 1
  {
    if k == 0 then 1 else 256 * Pow256(k - 1)
  }

  /** Reference definition: the unsigned value of `s` read most significant byte first. */
  function Unsigned(s: seq<byte>): nat
  {
    if s == [] then 0 else Unsigned(s[..|s| - 1]) * 256 + s[|s| - 1]
  }

  /** The `k` low-order bytes of `v`, most significant first (unsigned big-endian encoding). */
  function UnsignedBytes(v: nat, k: nat): (r: seq<byte>)
    ensures |r| == k
  {
    if k == 0 then [] else UnsignedBytes(v / 256, k - 1) + [v % 256]
  }

  /** `i32::from_be_bytes`: the four bytes as a u32, reinterpreted as an i32. */
  function FromBeBytes(buf: seq<byte>): (r: int)
    requires |buf| == 4
    ensures IsI32(r)
    ensures r < 0 <==> buf[0] >= 0x80
  {
    var u := (buf[0] as int) * 0x100_0000 + (buf[1] as int) * 0x1_0000 + (buf[2] as int) * 0x100 + buf[3];
    if u >= TWO_31 then u - TWO_32 else u
  }

  /** `i32::to_be_bytes`: the two's complement encoding of an i32. */
  function ToBeBytes(v: int): (r: seq<byte>)
    requires IsI32(v)
    ensures |r| == 4
  {
    UnsignedBytes(if v < 0 then v + TWO_32 else v, 4)
  }

  /** The 4-byte buffer `readN` builds: `4 - |bytes|` zeros, then the bytes read. */
  function ZeroExtended(bytes: seq<byte>): (buf: seq<byte>)
    requires |bytes| <= 4
    ensures |buf| == 4 && buf[4 - |bytes|..] == bytes
    ensures forall i :: 0 <= i < 4 - |bytes| ==> buf[i] == 0
  {
    seq(4 - |bytes|, _ => 0) + bytes
  }

  /**
   * The value `read1`..`read4` return for the bytes they consumed: narrow reads
   * give the unsigned value, a 4-byte read its two's complement reading.
   */
  function ReadValue(bytes: seq<byte>): (r: int)
    requires 1 <= |bytes| <= 4
    ensures IsI32(r)
    ensures |bytes| < 4 ==> 0 <= r < Pow256(|bytes|)
    ensures r < 0 <==> |bytes| == 4 && bytes[0] >= 0x80
  {
    UnsignedBelow(bytes);
    if |bytes| == 4 then
      UnsignedOfFour(bytes);
      var u := Unsigned(bytes);
      if u >= TWO_31 then u - TWO_32 else u
    else
      assert Pow256(1) == 256 && Pow256(2) == 0x1_0000 && Pow256(3) == 0x100_0000;
      Unsigned(bytes)
  }

  /**
   * The reads build a zeroed 4-byte buffer, copy the bytes to its tail and apply
   * `from_be_bytes`: that is `ReadValue` of the bytes.
   */
  lemma FromBeBytesReads(bytes: seq<byte>)
    requires 1 <= |bytes| <= 4
    ensures FromBeBytes(ZeroExtended(bytes)) == ReadValue(bytes)
  {
    var buf := ZeroExtended(bytes);
    FromBeBytesIsTwosComplement(buf);
    UnsignedIgnoresLeadingZeros(buf[..4 - |bytes|], bytes);
    assert buf == buf[..4 - |bytes|] + bytes;
    UnsignedBelow(bytes);
    if |bytes| < 4 {
      assert buf[0] == 0;
      assert Pow256(1) == 256 && Pow256(2) == 0x1_0000 && Pow256(3) == 0x100_0000;
    } else {
      assert buf == bytes;
    }
  }

  lemma {:induction false} UnsignedBelow(s: seq<byte>)
    ensures Unsigned(s) < Pow256(|s|)
  {
    if s != [] {
      var p := s[..|s| - 1];
      UnsignedBelow(p);
      assert Unsigned(p) + 1 <= Pow256(|p|);
      assert (Unsigned(p) + 1) * 256 <= Pow256(|p|) * 256;
    }
  }

  lemma {:induction false} UnsignedOfZeros(z: seq<byte>)
    requires forall i :: 0 <= i < |z| ==> z[i] == 0
    ensures Unsigned(z) == 0
  {
    if z != [] {
      UnsignedOfZeros(z[..|z| - 1]);
    }
  }

  /** Leading zero bytes do not change an unsigned big-endian value. */
  lemma {:induction false} UnsignedIgnoresLeadingZeros(z: seq<byte>, s: seq<byte>)
    requires forall i :: 0 <= i < |z| ==> z[i] == 0
    ensures Unsigned(z + s) == Unsigned(s)
  {
    if s == [] {
      assert z + s == z;
      UnsignedOfZeros(z);
    } else {
      assert (z + s)[..|z + s| - 1] == z + s[..|s| - 1];
      UnsignedIgnoresLeadingZeros(z, s[..|s| - 1]);
    }
  }

  lemma UnsignedOfFour(buf: seq<byte>)
    requires |buf| == 4
    ensures Unsigned(buf) == (buf[0] as int) * 0x100_0000 + (buf[1] as int) * 0x1_0000 + (buf[2] as int) * 0x100 + buf[3]
  {
    assert buf[..1][..0] == [];
    assert Unsigned(buf[..1]) == buf[0];
    assert buf[..2][..1] == buf[..1];
    assert Unsigned(buf[..2]) == Unsigned(buf[..1]) * 256 + buf[1];
    assert buf[..3][..2] == buf[..2];
    assert Unsigned(buf[..3]) == Unsigned(buf[..2]) * 256 + buf[2];
    assert buf[..4][..3] == buf[..3];
    assert buf[..4] == buf;
  }

  /** `from_be_bytes` is the two's complement reading of the unsigned value. */
  lemma FromBeBytesIsTwosComplement(buf: seq<byte>)
    requires |buf| == 4
    ensures FromBeBytes(buf) == Unsigned(buf) - (if buf[0] >= 0x80 then TWO_32 else 0)
    ensures FromBeBytes(buf) == (if Unsigned(buf) >= TWO_31 then Unsigned(buf) - TWO_32 else Unsigned(buf))
  {
    UnsignedOfFour(buf);
  }

  /** Decoding inverts the unsigned encoding of every value that fits. */
  lemma {:induction false} UnsignedRoundTrip(v: nat, k: nat)
    requires v < Pow256(k)
    ensures Unsigned(UnsignedBytes(v, k)) == v
  {
    if k > 0 {
      var r := UnsignedBytes(v, k);
      assert r[..k - 1] == UnsignedBytes(v / 256, k - 1);
      UnsignedRoundTrip(v / 256, k - 1);
    }
  }

  /** Encoding inverts decoding: the encoding is a bijection on `k`-byte sequences. */
  lemma {:induction false} UnsignedBytesRoundTrip(s: seq<byte>)
    ensures UnsignedBytes(Unsigned(s), |s|) == s
  {
    if s != [] {
      var p := s[..|s| - 1];
      UnsignedBytesRoundTrip(p);
      assert Unsigned(s) / 256 == Unsigned(p);
      assert Unsigned(s) % 256 == s[|s| - 1];
      assert s == p + [s[|s| - 1]];
    }
  }

  /** `read4` of the big-endian encoding of any i32 gives that i32 back. */
  lemma Read4RoundTrip(v: int)
    requires IsI32(v)
    ensures ReadValue(ToBeBytes(v)) == v
  {
    var u := if v < 0 then v + TWO_32 else v;
    assert Pow256(4) == TWO_32;
    UnsignedRoundTrip(u, 4);
    assert ZeroExtended(ToBeBytes(v)) == ToBeBytes(v);
    FromBeBytesIsTwosComplement(ToBeBytes(v));
  }

  /** Every 4-byte sequence is the encoding of the i32 `read4` makes of it. */
  lemma Read4Bijective(bytes: seq<byte>)
    requires |bytes| == 4
    ensures ToBeBytes(ReadValue(bytes)) == bytes
  {
    assert ZeroExtended(bytes) == bytes;
    FromBeBytesIsTwosComplement(bytes);
    UnsignedBelow(bytes);
    assert Pow256(4) == TWO_32;
    UnsignedBytesRoundTrip(bytes);
  }

  /** `read1`..`read3` invert the unsigned encoding of every value in their range. */
  lemma NarrowReadRoundTrip(v: nat, k: nat)
    requires 1 <= k <= 3 && v < Pow256(k)
    ensures ReadValue(UnsignedBytes(v, k)) == v
  {
    UnsignedRoundTrip(v, k);
  }

  /** ... and every `k`-byte input is the encoding of the value read from it. */
  lemma NarrowReadBijective(bytes: seq<byte>)
    requires 1 <= |bytes| <= 3
    ensures UnsignedBytes(ReadValue(bytes), |bytes|) == bytes
  {
    UnsignedBytesRoundTrip(bytes);
  }

  /** The values of the reader's unit tests. */
  lemma ReadValueExamples()
    ensures ReadValue([47]) == 47
    ensures ReadValue([47, 56]) == 12088
    ensures ReadValue([47, 56, 0]) == 12088 * 256
    ensures ReadValue([0xff, 0xff, 0, 0]) == -65536
  {
    assert [47, 56, 0][..2] == [47, 56] && [47, 56][..1] == [47] && [47][..0] == [];
    UnsignedOfFour([0xff, 0xff, 0, 0]);
  }
}
