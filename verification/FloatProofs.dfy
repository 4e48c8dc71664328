/** Narrowing is exact, widening is injective, and the encoded width is the shortest exact one. */
module FloatProofs {
  import opened Core
  import opened Floats

  lemma Unpacked16(h: U16) ensures Pack16(Unpack16(h)) == h {}
  lemma Unpacked32(b: U32) ensures Pack32(Unpack32(b)) == b {}
  lemma Unpacked64(d: U64) ensures Pack64(Unpack64(d)) == d {}
  lemma Packed16(x: F16) ensures Unpack16(Pack16(x)) == x {}
  lemma Packed32(x: F32) ensures Unpack32(Pack32(x)) == x {}
  lemma Packed64(x: F64) ensures Unpack64(Pack64(x)) == x {}

  // ----- narrowing inverts widening, field by field

  /** `value as f32` is exact on every binary64 number that a binary32 number widens to. */
  lemma NarrowWiden(x: F32)
    requires !NaN32(x)
    ensures Narrow64(Widen32(x)) == Pack32(x)
  {
    if x.exp == 0 && x.frac > 0 {
      NarrowSubnormal(x);
    } else if 0 < x.exp < 255 {
      NarrowNormal(Widen32(x), P23 + x.frac);
    }
  }

  lemma NarrowSubnormal(x: F32)
    requires x.exp == 0 && x.frac > 0
    ensures Narrow64(Widen32(x)) == Pack32(x)
  {
    SubnormalShift32(x.frac);
    RoundShiftExact(x.frac, 53 - BitLength(x.frac));
  }

  lemma NarrowNormal(y: F64, q: nat)
    requires 897 <= y.exp <= 1150 && P52 + y.frac == q * P29
    ensures Narrow64(y) == y.sign * P31 + (y.exp - 897) * P23 + q
  {
    Pow2Values();
    RoundShiftExact(q, 29);
  }

  lemma SubnormalShift32(f: nat)
    requires 0 < f < P23
    ensures 1 <= BitLength(f) <= 23 && P52 + Normalized32(f) * P29 == f * Pow2(53 - BitLength(f))
  {
    var n, k := Normalized32(f), BitLength(f);
    Pow2Values();
    ShiftTo(f, 24 - k, 29, 53 - k);
  }

  lemma SubnormalShift16(f: nat)
    requires 0 < f < P10
    ensures 1 <= BitLength(f) <= 10
    ensures P23 + Normalized16(f) * P13 == f * Pow2(24 - BitLength(f))
    ensures P52 + Normalized16(f) * P42 == f * Pow2(53 - BitLength(f))
  {
    var n, k := Normalized16(f), BitLength(f);
    Pow2Values();
    ShiftTo(f, 11 - k, 13, 24 - k);
    ShiftTo(f, 11 - k, 42, 53 - k);
  }

  /** `exact_half` finds every half that was widened. */
  lemma NarrowWidenedHalf(x: F16)
    requires !NaN16(x)
    ensures NarrowToHalf(Widen16(x)) == Some(x)
  {
    if x.exp == 0 && x.frac > 0 {
      SubnormalShift16(x.frac);
      ExactDivision(x.frac, Pow2(24 - BitLength(x.frac)));
    } else if 0 < x.exp < 31 {
      ExactDivision(x.frac, P13);
    }
  }

  /** A half widened all the way has a 42-bit tail of zeros. */
  lemma WidenTwice(x: F16)
    requires !NaN16(x)
    ensures var w := Widen32(Widen16(x));
            w.sign == x.sign && !NaN64(w)
            && (x.exp == 0 && x.frac == 0 ==> w.exp == 0 && w.frac == 0)
            && (x.exp == 0 && x.frac > 0 ==> w.exp == 998 + BitLength(x.frac) && w.frac == Normalized16(x.frac) * P42)
            && (x.exp == 31 ==> w.exp == 2047 && w.frac == 0)
            && (0 < x.exp < 31 ==> w.exp == x.exp + 1008 && w.frac == x.frac * P42)
  {
  }

  /** `exact_half_f64` finds every half that was widened. */
  lemma NarrowWidenedHalfAtOnce(x: F16)
    requires !NaN16(x)
    ensures NarrowDoubleToHalf(Widen32(Widen16(x))) == Some(x)
    ensures Widen32(Widen16(x)).frac % P42 == 0
  {
    WidenTwice(x);
    if x.exp == 0 && x.frac > 0 {
      SubnormalShift16(x.frac);
      ExactDivision(x.frac, Pow2(53 - BitLength(x.frac)));
      ExactDivision(Normalized16(x.frac), P42);
    } else if 0 < x.exp < 31 {
      ExactDivision(x.frac, P42);
    }
  }

  /** The mantissa of a subnormal half is as long as the exponent says. */
  lemma QuotientBits(m: nat, g: nat, s: nat, top: nat)
    requires top > 10 && Pow2(top) <= m < 2 * Pow2(top) && g * Pow2(s) == m && g < P10 && top - 9 <= s <= top + 1
    ensures s <= top && g > 0 && BitLength(g) == top + 1 - s
  {
    assert 0 * Pow2(s) == 0;
    if s == top + 1 { MulMonotone(1, g, Pow2(s)); }
    var k := top + 1 - s;
    Pow2Add(k - 1, s);
    Pow2Add(k, s);
    MulCancel(Pow2(k - 1), g + 1, Pow2(s));
    MulCancel(g, Pow2(k), Pow2(s));
    BitLengthUnique(g, k);
  }

  lemma MulCancel(a: nat, b: nat, c: nat)
    requires a * c < b * c
    ensures a < b
  {
    if b <= a { MulMonotone(b, a, c); }
  }

  /** `exact_half` never changes the number. */
  lemma NarrowToHalfIsExact(x: F32)
    requires !NaN32(x) && NarrowToHalf(x).Some?
    ensures var y := NarrowToHalf(x).value; !NaN16(y) && Widen16(y) == x
  {
    var y := NarrowToHalf(x).value;
    if 102 <= x.exp <= 112 {
      Pow2Values();
      QuotientBits(x.frac + P23, y.frac, 126 - x.exp, 23);
      SubnormalShift16(y.frac);
    }
  }

  /** `exact_half_f64` never changes the number. */
  lemma NarrowDoubleToHalfIsExact(x: F64)
    requires NarrowDoubleToHalf(x).Some?
    ensures var y := NarrowDoubleToHalf(x).value; !NaN16(y) && Widen32(Widen16(y)) == x
  {
    var y := NarrowDoubleToHalf(x).value;
    if 999 <= x.exp <= 1008 {
      Pow2Values();
      QuotientBits(x.frac + P52, y.frac, 1051 - x.exp, 52);
      SubnormalShift16(y.frac);
    }
    WidenTwice(y);
  }

  lemma WidenedLowBits(x: F32)
    requires !NaN32(x)
    ensures !NaN64(Widen32(x)) && Widen32(x).frac % P29 == 0
  {
    if x.exp == 0 && x.frac > 0 {
      ExactDivision(Normalized32(x.frac), P29);
    } else if 0 < x.exp < 255 {
      ExactDivision(x.frac, P29);
    }
  }

  lemma WidenedNaN(x: F32)
    ensures NaN32(x) <==> NaN64(Widen32(x))
  {
  }

  lemma WidenedHalfNaN(x: F16)
    ensures NaN16(x) <==> NaN32(Widen16(x))
  {
  }

  // ----- which numbers a width can hold

  /** Some half, some single, holds exactly the number with pattern `d`. */
  ghost predicate IsHalf(d: U64) {
    exists x: F16 :: !NaN16(x) && Widen32(Widen16(x)) == Unpack64(d)
  }

  ghost predicate IsSingle(d: U64) {
    exists x: F32 :: !NaN32(x) && Widen32(x) == Unpack64(d)
  }

  lemma HalvesAreSingles(d: U64)
    ensures IsHalf(d) ==> IsSingle(d)
  {
    if IsHalf(d) {
      var x: F16 :| !NaN16(x) && Widen32(Widen16(x)) == Unpack64(d);
      WidenedHalfNaN(x);
    }
  }

  /** For a narrowed number, float equality is equality of patterns: zeros keep their sign. */
  lemma NarrowedEquality(d: U64)
    requires !IsNaN(d)
    ensures FloatEq(SingleToDouble(DoubleToSingle(d)), d) <==> SingleToDouble(DoubleToSingle(d)) == d
  {
    if d % P63 == 0 {
      Packed32(Fields(Unpack64(d).sign, 0, 0));
      Unpacked64(d);
    }
  }

  lemma TailOfPattern(d: U64)
    ensures Unpack64(d).frac % P29 == 0 ==> d % P29 == 0
    ensures Unpack64(d).frac % P42 == 0 ==> d % P42 == 0
  {
    var f := d % P52;
    if f % P29 == 0 {
      ExactDivision(d / P52 * 0x80_0000 + f / P29, P29);
      assert d == (d / P52 * 0x80_0000 + f / P29) * P29;
    }
    if f % P42 == 0 {
      ExactDivision(d / P52 * 0x400 + f / P42, P42);
      assert d == (d / P52 * 0x400 + f / P42) * P42;
    }
  }

  /** Comparing the narrowed and widened number with the original tests for an exact single. */
  lemma NarrowingTest(d: U64)
    requires !IsNaN(d)
    ensures FloatEq(SingleToDouble(DoubleToSingle(d)), d) <==> IsSingle(d)
    ensures IsSingle(d) ==> SingleToDouble(DoubleToSingle(d)) == d && !NaN32(Unpack32(DoubleToSingle(d)))
    ensures IsSingle(d) ==> d % P29 == 0
  {
    NarrowedEquality(d);
    var y := Unpack32(DoubleToSingle(d));
    WidenedNaN(y);
    Unpacked64(d);
    Packed64(Widen32(y));
    if IsSingle(d) {
      var x: F32 :| !NaN32(x) && Widen32(x) == Unpack64(d);
      NarrowWiden(x);
      Packed32(x);
      WidenedLowBits(x);
      TailOfPattern(d);
    }
  }

  /** The narrowing test for halves finds the half whenever there is one. */
  lemma HalfTest(d: U64)
    requires !IsNaN(d)
    ensures ExactHalfOfDouble(d).Some? <==> IsHalf(d)
    ensures IsHalf(d) ==> d % P42 == 0 && HalfToDouble(ExactHalfOfDouble(d).value) == d
  {
    var x := Unpack64(d);
    if NarrowDoubleToHalf(x).Some? {
      NarrowDoubleToHalfIsExact(x);
      var y := NarrowDoubleToHalf(x).value;
      Packed16(y);
      Packed32(Widen16(y));
      Unpacked64(d);
    }
    if IsHalf(d) {
      var y: F16 :| !NaN16(y) && Widen32(Widen16(y)) == x;
      NarrowWidenedHalfAtOnce(y);
      TailOfPattern(d);
    }
  }

  /** Narrowing to a half through a single or at once gives the same half. */
  lemma HalfTestsAgree(x: F32)
    requires !NaN32(x)
    ensures NarrowToHalf(x) == NarrowDoubleToHalf(Widen32(x))
  {
    if NarrowToHalf(x).Some? {
      NarrowToHalfIsExact(x);
      NarrowWidenedHalfAtOnce(NarrowToHalf(x).value);
    }
    if NarrowDoubleToHalf(Widen32(x)).Some? {
      NarrowDoubleToHalfIsExact(Widen32(x));
      var y := NarrowDoubleToHalf(Widen32(x)).value;
      WidenedHalfNaN(y);
      NarrowWiden(Widen16(y));
      NarrowWiden(x);
      Packed32(x);
      Packed32(Widen16(y));
      NarrowWidenedHalf(y);
    }
  }

  lemma ExactHalvesAgree(d: U64)
    requires !IsNaN(d) && IsSingle(d)
    ensures ExactHalf(DoubleToSingle(d)) == ExactHalfOfDouble(d)
  {
    NarrowingTest(d);
    var y := Unpack32(DoubleToSingle(d));
    HalfTestsAgree(y);
    Packed64(Widen32(y));
  }

  // ----- the encoded width

  /** Both encoders write the same bytes for every pattern. */
  lemma EncodersAgree(d: U64)
    ensures F64Preferred(d) == PreferredFloat(d)
  {
    if !IsNaN(d) {
      NarrowingTest(d);
      HalvesAreSingles(d);
      HalfTest(d);
      if IsSingle(d) { ExactHalvesAgree(d); }
    }
  }

  function FromBE16(s: Buf): U16 requires |s| == 2 { Pow256Values(); FromBE(s) }

  function FromBE32(s: Buf): U32 requires |s| == 4 { Pow256Values(); FromBE(s) }

  /** The width is the shortest that holds the number exactly, and reading it restores the bits. */
  lemma ShortestExactWidth(d: U64)
    ensures var b := PreferredFloat(d);
            if IsNaN(d) then b == [0xf9, 0x7e, 0x00]
            else if IsHalf(d) then |b| == 3 && b[0] == 0xf9 && HalfToDouble(FromBE16(b[1..])) == d
            else if IsSingle(d) then |b| == 5 && b[0] == 0xfa && SingleToDouble(FromBE32(b[1..])) == d
            else |b| == 9 && b[0] == 0xfb && FromBE(b[1..]) == d
  {
    var b := PreferredFloat(d);
    Pow256Values();
    if !IsNaN(d) {
      NarrowingTest(d);
      HalvesAreSingles(d);
      HalfTest(d);
      if IsHalf(d) {
        FromToBE(ExactHalfOfDouble(d).value, 2);
        assert b[1..] == ToBE(ExactHalfOfDouble(d).value, 2);
      } else if IsSingle(d) {
        FromToBE(DoubleToSingle(d), 4);
        assert b[1..] == ToBE(DoubleToSingle(d), 4);
      } else {
        FromToBE(d, 8);
        assert b[1..] == ToBE(d, 8);
      }
    }
  }

  lemma ToBEInjective(a: nat, b: nat, w: nat)
    requires a < Pow256(w) && b < Pow256(w) && ToBE(a, w) == ToBE(b, w)
    ensures a == b
  {
    FromToBE(a, w);
    FromToBE(b, w);
  }

  lemma WidenedHalf(h: U16)
    ensures Unpack64(HalfToDouble(h)) == Widen32(Widen16(Unpack16(h)))
    ensures IsNaN(HalfToDouble(h)) <==> NaN16(Unpack16(h))
  {
    var x := Unpack16(h);
    Packed32(Widen16(x));
    Packed64(Widen32(Widen16(x)));
    WidenedHalfNaN(x);
    WidenedNaN(Widen16(x));
  }

  /** The validator accepts a half, a single or a double exactly when the encoder writes it that way. */
  lemma ValidatorAcceptsHalf(h: U16)
    ensures !NonPreferred(25, h) <==> PreferredFloat(HalfToDouble(h)) == [0xf9] + ToBE(h, 2)
  {
    Pow256Values();
    WidenedHalf(h);
    var d := HalfToDouble(h);
    assert ToBE(0x7e00, 2) == [0x7e, 0x00] by { assert ToBE(0x7e, 1) == [0x7e]; }
    if IsNaN(d) {
      if PreferredFloat(d) == [0xf9] + ToBE(h, 2) {
        assert ToBE(h, 2) == ([0xf9] + ToBE(h, 2))[1..] == [0x7e, 0x00];
        ToBEInjective(h, 0x7e00, 2);
      }
    } else {
      NarrowWidenedHalfAtOnce(Unpack16(h));
      Unpacked16(h);
      NarrowingTest(d);
      HalvesAreSingles(d);
      HalfTest(d);
    }
  }

  lemma ValidatorAcceptsSingle(b: U32)
    ensures !NonPreferred(26, b) <==> PreferredFloat(SingleToDouble(b)) == [0xfa] + ToBE(b, 4)
  {
    var d, x := SingleToDouble(b), Unpack32(b);
    WidenedNaN(x);
    Packed64(Widen32(x));
    if !IsNaN(d) {
      NarrowWiden(x);
      Unpacked32(b);
      NarrowingTest(d);
      HalfTest(d);
      HalfTestsAgree(x);
    }
  }

  lemma ValidatorAcceptsDouble(d: U64)
    ensures !NonPreferred(27, d) <==> PreferredFloat(d) == [0xfb] + ToBE(d, 8)
  {
    if !IsNaN(d) {
      NarrowingTest(d);
      HalvesAreSingles(d);
      HalfTest(d);
    }
  }

  // ----- the numbers the patterns stand for

  /** Magnitudes in units of the smallest number of the format: 2^-24, 2^-149 and 2^-1074. */
  function Magnitude16(x: F16): nat {
    if x.exp == 0 then x.frac else (P10 + x.frac) * Pow2(x.exp - 1)
  }

  function Magnitude32(x: F32): nat {
    if x.exp == 0 then x.frac else (P23 + x.frac) * Pow2(x.exp - 1)
  }

  function Magnitude64(x: F64): nat {
    if x.exp == 0 then x.frac else (P52 + x.frac) * Pow2(x.exp - 1)
  }

  /** 1074 - 149 and 149 - 24: how many binary places a widening moves the unit. */
  const SINGLE_PLACES: nat := 925
  const HALF_PLACES: nat := 125

  /** Widening a single keeps sign and number. */
  lemma WideningKeepsNumber(x: F32)
    requires x.exp < 255
    ensures Widen32(x).exp < 2047 && Widen32(x).sign == x.sign
    ensures Magnitude64(Widen32(x)) == Magnitude32(x) * Pow2(SINGLE_PLACES)
  {
    hide Pow2;
    if x.exp > 0 {
      WidenedNormal(x);
      ShiftTo(P23 + x.frac, x.exp - 1, SINGLE_PLACES, x.exp + 924);
    } else if x.frac > 0 {
      WidenedSubnormal(x);
    }
  }

  lemma WidenedSubnormal(x: F32)
    requires x.exp == 0 && x.frac > 0
    ensures Widen32(x).exp < 2047 && Magnitude64(Widen32(x)) == x.frac * Pow2(SINGLE_PLACES)
  {
    hide Pow2, BitLength;
    var k := BitLength(x.frac);
    SubnormalShift32(x.frac);
    ShiftTo(x.frac, 53 - k, 872 + k, SINGLE_PLACES);
  }

  lemma WidenedNormal(x: F32)
    requires 0 < x.exp < 255
    ensures Magnitude64(Widen32(x)) == (P23 + x.frac) * Pow2(x.exp + 924)
  {
    Pow2Values();
    assert P52 + x.frac * P29 == (P23 + x.frac) * P29;
    ShiftTo(P23 + x.frac, 29, x.exp + 895, x.exp + 924);
  }

  /** Widening a half keeps sign and number. */
  lemma HalfWideningKeepsNumber(x: F16)
    requires x.exp < 31
    ensures Widen16(x).exp < 255 && Widen16(x).sign == x.sign
    ensures Magnitude32(Widen16(x)) == Magnitude16(x) * Pow2(HALF_PLACES)
  {
    hide Pow2;
    if x.exp > 0 {
      WidenedNormalHalf(x);
      ShiftTo(P10 + x.frac, x.exp - 1, HALF_PLACES, x.exp + 124);
    } else if x.frac > 0 {
      WidenedSubnormalHalf(x);
    }
  }

  lemma WidenedSubnormalHalf(x: F16)
    requires x.exp == 0 && x.frac > 0
    ensures Widen16(x).exp < 255 && Magnitude32(Widen16(x)) == x.frac * Pow2(HALF_PLACES)
  {
    hide Pow2, BitLength;
    var k := BitLength(x.frac);
    SubnormalShift16(x.frac);
    ShiftTo(x.frac, 24 - k, 101 + k, HALF_PLACES);
  }

  lemma WidenedNormalHalf(x: F16)
    requires 0 < x.exp < 31
    ensures Magnitude32(Widen16(x)) == (P10 + x.frac) * Pow2(x.exp + 124)
  {
    Pow2Values();
    assert P23 + x.frac * P13 == (P10 + x.frac) * P13;
    ShiftTo(P10 + x.frac, 13, x.exp + 111, x.exp + 124);
  }

  /** Distinct finite patterns of one sign are distinct numbers. */
  lemma MagnitudeInjective(x: F64, y: F64)
    requires x.sign == y.sign && Magnitude64(x) == Magnitude64(y)
    ensures x == y
  {
    if x.exp < y.exp { LargerExponentIsLarger(x, y); }
    if y.exp < x.exp { LargerExponentIsLarger(y, x); }
    if x.exp == y.exp > 0 {
      ExactDivision(P52 + x.frac, Pow2(x.exp - 1));
      ExactDivision(P52 + y.frac, Pow2(x.exp - 1));
    }
  }

  lemma LargerExponentIsLarger(x: F64, y: F64)
    requires x.exp < y.exp
    ensures Magnitude64(x) < Magnitude64(y)
  {
    var p := Pow2(y.exp - 1);
    MulMonotone(P52, P52 + y.frac, p);
    if x.exp > 0 {
      Pow2Monotone(x.exp - 1, y.exp - 1);
      DoublingBound(P52 + x.frac, P52, Pow2(x.exp - 1), p);
    } else {
      MulMonotone(1, p, P52);
    }
  }

  lemma DoublingBound(m: nat, n: nat, q: nat, p: nat)
    requires m < 2 * n && 0 < q && 2 * q <= p
    ensures m * q < n * p
  {
    MulMonotone(m + 1, 2 * n, q);
    MulMonotone(2 * q, p, n);
    assert 2 * n * q == 2 * q * n;
  }

  /** "Holds the number exactly" means equal sign and equal magnitude. */
  lemma SingleHoldsNumber(x: F32, y: F64)
    requires x.exp < 255 && y.exp < 2047
    ensures Widen32(x) == y <==> x.sign == y.sign && Magnitude32(x) * Pow2(SINGLE_PLACES) == Magnitude64(y)
  {
    hide Pow2, Widen32, Magnitude32, Magnitude64;
    WideningKeepsNumber(x);
    if x.sign == y.sign && Magnitude32(x) * Pow2(SINGLE_PLACES) == Magnitude64(y) {
      MagnitudeInjective(Widen32(x), y);
    }
  }

  lemma HalfHoldsNumber(x: F16, y: F64)
    requires x.exp < 31 && y.exp < 2047
    ensures Widen32(Widen16(x)) == y
            <==> x.sign == y.sign && Magnitude16(x) * Pow2(HALF_PLACES + SINGLE_PLACES) == Magnitude64(y)
  {
    hide Pow2, Widen16, Widen32, Magnitude16, Magnitude32, Magnitude64;
    HalfWideningKeepsNumber(x);
    ShiftTo(Magnitude16(x), HALF_PLACES, SINGLE_PLACES, HALF_PLACES + SINGLE_PLACES);
    SingleHoldsNumber(Widen16(x), y);
  }
}
