/** The big-endian IEEE 754 binary64 values numpy reads for a `'>f8'` array
    cell (section 3.4 of IEEE 754-2008), and Python's `<` on them. */
module Float64 {
  import opened BigEndian

  /** A binary64 value: a NaN, an infinity, or a finite number. Both zeros
      are `Finite(0.0)`: they compare equal and have the same magnitude. */
  datatype Float = NaN | Infinity(negative: bool) | Finite(value: real)

  function Pow2(k: nat): (p: nat)
    ensures p >= 1
  {
    if k == 0 then 1 else 2 * Pow2(k - 1)
  }

  /** 2^e as a real, for any integer exponent. */
  function Scale(e: int): (s: real)
    ensures s > 0.0
  {
    if e >= 0 then Pow2(e) as real else 1.0 / (Pow2(-e) as real)
  }

  /** 2^52, the weight of the implicit leading bit of a normal number. */
  const Hidden := 0x10_0000_0000_0000

  /** The sign bit: bit 63, the top bit of the first byte. */
  function SignBit(cell: seq<Byte>): bool
    requires |cell| == 8
  {
    cell[0] >= 0x80
  }

  /** The biased exponent: bits 62..52. */
  function ExponentField(cell: seq<Byte>): (e: nat)
    requires |cell| == 8
    ensures e < 2048
  {
    (cell[0] as int % 0x80) * 16 + cell[1] as int / 16
  }

  /** The trailing significand: bits 51..0. */
  function FractionField(cell: seq<Byte>): (m: nat)
    requires |cell| == 8
    ensures m < Hidden
  {
    Pow256Values();
    (cell[1] as int % 16) * Pow256(6) + Unsigned(cell[2..8])
  }

  /** The value of a cell: exponent 2047 encodes the infinities (zero
      fraction) and NaN (any other fraction); exponent 0 encodes the zeros
      and the subnormal numbers `m * 2^-1074`; every other exponent `e`
      encodes the normal number `(2^52 + m) * 2^(e - 1075)`. */
  function Decode(cell: seq<Byte>): (x: Float)
    requires |cell| == 8
    ensures x.NaN? <==> ExponentField(cell) == 2047 && FractionField(cell) != 0
    ensures x.Infinity? <==> ExponentField(cell) == 2047 && FractionField(cell) == 0
    ensures x.Infinity? ==> x.negative == SignBit(cell)
    ensures x.Finite? ==> (SignBit(cell) ==> x.value <= 0.0) && (!SignBit(cell) ==> x.value >= 0.0)
  {
    var e, m := ExponentField(cell), FractionField(cell);
    if e == 2047 then
      if m == 0 then Infinity(SignBit(cell)) else NaN
    else
      Finite(if SignBit(cell) then -Magnitude(e, m) else Magnitude(e, m))
  }

  /** The magnitude of a finite cell with biased exponent `e` and fraction `m`. */
  function Magnitude(e: nat, m: nat): (r: real)
    ensures r >= 0.0
  {
    var significand := if e == 0 then m else Hidden + m;
    (significand as real) * Scale((if e == 0 then 1 else e) - 1075)
  }

  /** Python's `-x`. */
  function Negate(x: Float): Float {
    match x
    case NaN => NaN
    case Infinity(negative) => Infinity(!negative)
    case Finite(v) => Finite(-v)
  }

  /** Python's `a < b` on floats: false whenever either side is NaN, and
      -inf below every finite number below +inf. */
  predicate Less(a: Float, b: Float) {
    match (a, b)
    case (Finite(x), Finite(y)) => x < y
    case (Infinity(na), Finite(_)) => na
    case (Finite(_), Infinity(nb)) => !nb
    case (Infinity(na), Infinity(nb)) => na && !nb
    case _ => false
  }

  /** `a <= b` for values that are not NaN. */
  predicate AtMost(a: Float, b: Float) {
    Less(a, b) || (a == b && !a.NaN?)
  }

  lemma Pow2Values()
    ensures Pow2(4) == 16 && Pow2(52) == 16 * 0x1_0000_0000_0000
  {
    assert Pow2(4) == 16;
    assert Pow2(8) == 0x100;
    assert Pow2(12) == 0x1000;
    assert Pow2(16) == 0x1_0000;
    assert Pow2(20) == 0x10_0000;
    assert Pow2(24) == 0x100_0000;
    assert Pow2(28) == 0x1000_0000;
    assert Pow2(32) == 0x1_0000_0000;
    assert Pow2(36) == 0x10_0000_0000;
    assert Pow2(40) == 0x100_0000_0000;
    assert Pow2(44) == 0x1000_0000_0000;
    assert Pow2(48) == 0x1_0000_0000_0000;
  }

  /** The three fields split the 64 bits of a cell without overlap:
      sign * 2^63 + exponent * 2^52 + fraction is the cell read as an
      unsigned big-endian integer. */
  lemma FieldsPartitionCell(cell: seq<Byte>)
    requires |cell| == 8
    ensures (if SignBit(cell) then 0x8000_0000_0000_0000 else 0)
            + ExponentField(cell) * 0x10_0000_0000_0000 + FractionField(cell)
            == Unsigned(cell)
  {
    Pow256Values();
    var rest := cell[2..8];
    UnsignedSplit(cell, 2);
    assert cell[2..] == rest;
    assert Unsigned(cell[..2]) == cell[0] as int * 256 + cell[1] by {
      assert cell[..2][..1] == [cell[0]];
      assert Unsigned([cell[0]]) == cell[0] by {
        assert [cell[0]][..0] == [];
      }
    }
    SplitTopBytes(cell[0], cell[1], Unsigned(rest));
  }

  /** The top two bytes `c0 c1` split into the sign bit, the eleven exponent
      bits and the top four fraction bits. */
  lemma SplitTopBytes(c0: int, c1: int, low: int)
    requires 0 <= c0 < 256 && 0 <= c1 < 256
    ensures (if c0 >= 0x80 then 0x8000_0000_0000_0000 else 0)
            + ((c0 % 0x80) * 16 + c1 / 16) * 0x10_0000_0000_0000
            + ((c1 % 16) * 0x1_0000_0000_0000 + low)
            == (c0 * 256 + c1) * 0x1_0000_0000_0000 + low
  {
    var s := if c0 >= 0x80 then 1 else 0;
    assert c0 == 0x80 * s + c0 % 0x80;
    assert c1 == 16 * (c1 / 16) + c1 % 16;
  }

  /** An unsigned field splits into its first `k` bytes and the rest. */
  lemma {:induction false} UnsignedSplit(s: seq<Byte>, k: nat)
    requires k <= |s|
    ensures Unsigned(s) == Unsigned(s[..k]) * Pow256(|s| - k) + Unsigned(s[k..])
    decreases |s|
  {
    if |s| > k {
      var init, last := s[..|s| - 1], s[|s| - 1];
      UnsignedSplit(init, k);
      assert init[..k] == s[..k];
      var tail := s[k..];
      assert tail[..|tail| - 1] == init[k..];
      assert tail[|tail| - 1] == last;
      assert Unsigned(tail) == Unsigned(init[k..]) * 256 + last;
      assert Pow256(|s| - k) == 256 * Pow256(|init| - k);
      Regroup(Unsigned(s[..k]), Pow256(|init| - k), Unsigned(init[k..]), last);
    } else {
      assert s[..k] == s;
      assert s[k..] == [];
    }
  }

  lemma Regroup(a: int, p: int, u: int, last: int)
    ensures (a * p + u) * 256 + last == a * (256 * p) + (u * 256 + last)
  {
  }

  /** The cell with its sign bit flipped. */
  function FlipSign(cell: seq<Byte>): (flipped: seq<Byte>)
    requires |cell| == 8
    ensures |flipped| == 8 && flipped[1..] == cell[1..]
  {
    var first: int := (cell[0] as int + 0x80) % 0x100;
    [first] + cell[1..]
  }

  /** Flipping the sign bit negates the value: NaN stays NaN, an infinity
      changes sign, a finite number changes sign. */
  lemma FlipSignNegates(cell: seq<Byte>)
    requires |cell| == 8
    ensures Decode(FlipSign(cell)) == Negate(Decode(cell))
  {
    var flipped := FlipSign(cell);
    assert flipped[1..] == cell[1..];
    assert flipped[2..8] == cell[2..8];
    assert ExponentField(flipped) == ExponentField(cell);
    assert FractionField(flipped) == FractionField(cell);
    assert SignBit(flipped) == !SignBit(cell);
  }

  /** Biased exponents 1023 and 1024 with a zero fraction are 1.0 and 2.0. */
  lemma UnitMagnitudes()
    ensures Magnitude(1023, 0) == 1.0 && Magnitude(1024, 0) == 2.0
  {
    Pow2Values();
    var h := Hidden as real;
    assert Scale(-52) == 1.0 / h;
    assert Pow2(52) == 2 * Pow2(51);
    assert Scale(-51) == 2.0 / h;
  }

  /** The cell `3F F0 00 00 00 00 00 00` is 1.0. */
  lemma DecodeOne()
    ensures Decode([0x3F, 0xF0, 0, 0, 0, 0, 0, 0]) == Finite(1.0)
  {
    var one: seq<Byte> := [0x3F, 0xF0, 0, 0, 0, 0, 0, 0];
    assert ExponentField(one) == 1023;
    ZerosUnsigned(one[2..8]);
    assert FractionField(one) == 0;
    UnitMagnitudes();
  }

  /** The cell `C0 00 00 00 00 00 00 00` is -2.0. */
  lemma DecodeMinusTwo()
    ensures Decode([0xC0, 0, 0, 0, 0, 0, 0, 0]) == Finite(-2.0)
  {
    var two: seq<Byte> := [0xC0, 0, 0, 0, 0, 0, 0, 0];
    assert ExponentField(two) == 1024;
    ZerosUnsigned(two[2..8]);
    assert FractionField(two) == 0;
    UnitMagnitudes();
  }

  /** The cells `7F F0 00 .. 00` and `7F F8 00 .. 00` are +inf and a NaN. */
  lemma DecodeSpecials()
    ensures Decode([0x7F, 0xF0, 0, 0, 0, 0, 0, 0]) == Infinity(false)
    ensures Decode([0x7F, 0xF8, 0, 0, 0, 0, 0, 0]) == NaN
  {
    var inf: seq<Byte> := [0x7F, 0xF0, 0, 0, 0, 0, 0, 0];
    assert ExponentField(inf) == 2047;
    ZerosUnsigned(inf[2..8]);
    assert FractionField(inf) == 0;
    var nan: seq<Byte> := [0x7F, 0xF8, 0, 0, 0, 0, 0, 0];
    assert ExponentField(nan) == 2047;
    Pow256Values();
    assert FractionField(nan) != 0;
  }

  /** One more in the exponent doubles the scale. */
  lemma ScaleStep(x: int)
    ensures Scale(x + 1) == 2.0 * Scale(x)
  {
    if x < -1 {
      var p := Pow2(-x - 1) as real;
      assert Pow2(-x) as real == 2.0 * p;
      assert Scale(x) == 1.0 / (2.0 * p);
      assert Scale(x + 1) == 1.0 / p;
    }
  }

  /** For a fixed exponent, a larger fraction is a larger magnitude. */
  lemma MagnitudeInFraction(e: nat, m1: nat, m2: nat)
    requires m1 < m2
    ensures Magnitude(e, m1) < Magnitude(e, m2)
  {
    var s := Scale((if e == 0 then 1 else e) - 1075);
    var a := (if e == 0 then m1 else Hidden + m1) as real;
    var b := (if e == 0 then m2 else Hidden + m2) as real;
    assert Magnitude(e, m1) == a * s && Magnitude(e, m2) == b * s;
    ScaleLess(a, b, s);
  }

  /** `x = a * s` is below `y = b * s` when `a < b` and `s` is positive. */
  lemma ProductOrder(x: real, y: real, a: real, b: real, s: real)
    requires x == a * s && y == b * s && a < b && s > 0.0
    ensures x < y
  {
    ScaleLess(a, b, s);
  }

  lemma ScaleLess(a: real, b: real, s: real)
    requires a < b && s > 0.0
    ensures a * s < b * s
  {
    assert (b - a) * s > 0.0;
  }

  /** Every magnitude with exponent `e` is below the smallest one with
      exponent `e + 1`. */
  lemma MagnitudeBelowNext(e: nat, m: nat)
    requires m < Hidden
    ensures Magnitude(e, m) < Magnitude(e + 1, 0)
  {
    if e == 0 {
      SubnormalBelowNext(e, m);
    } else {
      NormalBelowNext(e, m);
    }
  }

  /** The subnormals and the smallest normal number share the scale 2^-1074. */
  lemma SubnormalBelowNext(e: nat, m: nat)
    requires e == 0 && m < Hidden
    ensures Magnitude(e, m) < Magnitude(e + 1, 0)
  {
    var s := Scale(e + 1 - 1075);
    assert Magnitude(e, m) == (m as real) * s;
    assert Magnitude(e + 1, 0) == (Hidden as real) * s;
    ProductOrder(Magnitude(e, m), Magnitude(e + 1, 0), m as real, Hidden as real, s);
  }

  /** From exponent `e` to `e + 1` the scale doubles, and `2^52 + m < 2 * 2^52`. */
  lemma NormalBelowNext(e: nat, m: nat)
    requires e > 0 && m < Hidden
    ensures Magnitude(e, m) < Magnitude(e + 1, 0)
  {
    var s := Scale(e - 1075);
    ScaleStep(e - 1075);
    var next := Scale(e + 1 - 1075);
    assert Magnitude(e, m) == (Hidden + m) as real * s;
    assert Magnitude(e + 1, 0) == (Hidden as real) * next;
    DoubledBound(Magnitude(e, m), Magnitude(e + 1, 0), m, s, next);
  }

  /** A significand below 2^53 at scale `s` is below 2^52 at scale `2s`. */
  lemma DoubledBound(x: real, y: real, m: nat, s: real, next: real)
    requires m < Hidden && s > 0.0 && next == 2.0 * s
    requires x == (Hidden + m) as real * s && y == (Hidden as real) * next
    ensures x < y
  {
    ScaleLess((Hidden + m) as real, (2 * Hidden) as real, s);
  }

  /** Finite magnitudes are ordered lexicographically by exponent, then
      fraction. */
  lemma {:induction false} MagnitudeOrder(e1: nat, m1: nat, e2: nat, m2: nat)
    requires m1 < Hidden && m2 < Hidden
    requires e1 < e2 || (e1 == e2 && m1 < m2)
    ensures Magnitude(e1, m1) < Magnitude(e2, m2)
    decreases e2 - e1
  {
    if e1 == e2 {
      MagnitudeInFraction(e1, m1, m2);
    } else {
      MagnitudeBelowNext(e1, m1);
      if e1 + 1 < e2 {
        MagnitudeOrder(e1 + 1, 0, e2, m2);
      } else if m2 > 0 {
        MagnitudeInFraction(e2, 0, m2);
      }
    }
  }

  /** For cells with a clear sign bit, the order of the 64-bit patterns is
      the order of the values: a larger pattern below the infinities is a
      larger finite number. */
  lemma DecodeOrder(a: seq<Byte>, b: seq<Byte>)
    requires |a| == 8 && |b| == 8 && !SignBit(a) && !SignBit(b)
    requires ExponentField(b) < 2047 && Unsigned(a) < Unsigned(b)
    ensures Decode(a).Finite? && Decode(b).Finite? && Less(Decode(a), Decode(b))
  {
    FieldsPartitionCell(a);
    FieldsPartitionCell(b);
    var ea, ma, eb, mb := ExponentField(a), FractionField(a), ExponentField(b), FractionField(b);
    assert ea < eb || (ea == eb && ma < mb);
    MagnitudeOrder(ea, ma, eb, mb);
  }

  /** `<` never holds with NaN on either side and never between equal values. */
  lemma LessIrreflexive(a: Float, b: Float)
    ensures (a.NaN? || b.NaN?) ==> !Less(a, b)
    ensures !Less(a, a)
  {
  }

  /** `<` is asymmetric and transitive. */
  lemma LessOrder(a: Float, b: Float, c: Float)
    ensures Less(a, b) ==> !Less(b, a)
    ensures Less(a, b) && Less(b, c) ==> Less(a, c)
  {
  }

  /** Without NaN, exactly one of `a < b`, `a == b`, `b < a` holds, so
      `!(b < a)` is `a <= b`. */
  lemma LessTotal(a: Float, b: Float)
    requires !a.NaN? && !b.NaN?
    ensures Less(a, b) || a == b || Less(b, a)
    ensures !Less(b, a) <==> AtMost(a, b)
  {
  }

  /** `<=` is transitive. */
  lemma AtMostTransitive(a: Float, b: Float, c: Float)
    requires AtMost(a, b) && AtMost(b, c)
    ensures AtMost(a, c)
  {
  }
}
