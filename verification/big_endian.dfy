/** Big-endian integers as Python's `int.from_bytes(b, "big", signed=...)`
    reads them, and the matching encoders. */
module BigEndian {

  /** One byte of the input file. */
  type Byte = b: int | 0 <= b < 256

  /** 256^w, the number of distinct values of a w-byte field. */
  function Pow256(w: nat): (p: nat)
    ensures p >= 1
  {
    if w == 0 then 1 else 256 * Pow256(w - 1)
  }

  /** 2^(8w-1): the magnitude bound of a w-byte two's-complement field. */
  function SignBound(w: nat): int
    requires w >= 1
  {
    128 * Pow256(w - 1)
  }

  /** The unsigned big-endian value of `s` (most significant byte first). */
  function Unsigned(s: seq<Byte>): (u: nat)
    ensures u < Pow256(|s|)
  {
    if |s| == 0 then 0 else Unsigned(s[..|s| - 1]) * 256 + s[|s| - 1]
  }

  /** The signed (two's-complement) big-endian value of `s`; an empty
      sequence reads as 0, as `int.from_bytes(b"", "big", signed=True)` does. */
  function Signed(s: seq<Byte>): (v: int)
    ensures |s| == 0 ==> v == 0
    ensures |s| >= 1 ==> -SignBound(|s|) <= v < SignBound(|s|)
    ensures |s| >= 1 ==> v == Unsigned(s) || v == Unsigned(s) - Pow256(|s|)
  {
    if |s| == 0 then 0
    else if Unsigned(s) >= SignBound(|s|) then Unsigned(s) - Pow256(|s|)
    else Unsigned(s)
  }

  /** The w-byte big-endian encoding of an unsigned value that fits. */
  function EncodeUnsigned(v: nat, w: nat): (s: seq<Byte>)
    requires v < Pow256(w)
    ensures |s| == w
    ensures Unsigned(s) == v
  {
    if w == 0 then []
    else
      var s := EncodeUnsigned(v / 256, w - 1) + [v % 256];
      assert s[..|s| - 1] == EncodeUnsigned(v / 256, w - 1);
      s
  }

  /** The w-byte two's-complement big-endian encoding of a value that fits. */
  function EncodeSigned(v: int, w: nat): (s: seq<Byte>)
    requires w >= 1 && -SignBound(w) <= v < SignBound(w)
    ensures |s| == w
    ensures Signed(s) == v
  {
    EncodeUnsigned(if v < 0 then v + Pow256(w) else v, w)
  }

  /** Unsigned decoding is injective: a byte sequence is recovered from its value. */
  lemma {:induction false} EncodeUnsignedOfUnsigned(s: seq<Byte>)
    ensures EncodeUnsigned(Unsigned(s), |s|) == s
  {
    if |s| > 0 {
      var p := s[..|s| - 1];
      EncodeUnsignedOfUnsigned(p);
      assert Unsigned(s) / 256 == Unsigned(p);
      assert Unsigned(s) % 256 == s[|s| - 1];
      assert p + [s[|s| - 1]] == s;
    }
  }

  /** Signed decoding is injective: a non-empty field is recovered from its value. */
  lemma EncodeSignedOfSigned(s: seq<Byte>)
    requires |s| >= 1
    ensures EncodeSigned(Signed(s), |s|) == s
  {
    EncodeUnsignedOfUnsigned(s);
  }

  lemma Pow256Values()
    ensures Pow256(1) == 0x100 && Pow256(2) == 0x1_0000
    ensures Pow256(5) == 0x100_0000_0000 && Pow256(6) == 0x1_0000_0000_0000
    ensures SignBound(2) == 0x8000 && SignBound(6) == 0x8000_0000_0000
  {
    assert Pow256(1) == 0x100;
    assert Pow256(2) == 0x1_0000;
    assert Pow256(3) == 0x100_0000;
    assert Pow256(4) == 0x1_0000_0000;
    assert Pow256(5) == 0x100_0000_0000;
  }

  /** A 6-byte field holds exactly the integers in [-2^47, 2^47), and every
      such integer survives encoding followed by decoding. */
  lemma SixByteRange(s: seq<Byte>, v: int)
    requires |s| == 6
    ensures -0x8000_0000_0000 <= Signed(s) < 0x8000_0000_0000
    ensures -0x8000_0000_0000 <= v < 0x8000_0000_0000 ==> Signed(EncodeSigned(v, 6)) == v
  {
    Pow256Values();
  }

  /** A 2-byte field holds exactly the int16 range [-32768, 32767]. */
  lemma TwoByteRange(s: seq<Byte>)
    requires |s| == 2
    ensures -0x8000 <= Signed(s) < 0x8000
  {
    Pow256Values();
  }

  /** Zero bytes have the unsigned value 0. */
  lemma {:induction false} ZerosUnsigned(s: seq<Byte>)
    requires forall i :: 0 <= i < |s| ==> s[i] == 0
    ensures Unsigned(s) == 0
  {
    if |s| > 0 {
      ZerosUnsigned(s[..|s| - 1]);
    }
  }
}
