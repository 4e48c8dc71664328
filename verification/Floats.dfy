/** IEEE 754 bit patterns, exact narrowing, and the shortest-width float encoding. */
module Floats {
  import opened Core

  type U16 = n: int | 0 <= n < 0x1_0000
  type U32 = n: int | 0 <= n < 0x1_0000_0000

  const P10 := 0x400
  const P13 := 0x2000
  const P23 := 0x80_0000
  const P29 := 0x2000_0000
  const P31 := 0x8000_0000
  const P42 := 0x400_0000_0000
  const P52 := 0x10_0000_0000_0000
  const P63 := 0x8000_0000_0000_0000

  // ----- sign, exponent and fraction fields of the three formats

  datatype Fields = Fields(sign: nat, exp: nat, frac: nat)

  type F16 = x: Fields | x.sign < 2 && x.exp < 32 && x.frac < P10 witness Fields(0, 0, 0)
  type F32 = x: Fields | x.sign < 2 && x.exp < 256 && x.frac < P23 witness Fields(0, 0, 0)
  type F64 = x: Fields | x.sign < 2 && x.exp < 2048 && x.frac < P52 witness Fields(0, 0, 0)

  function Unpack16(h: U16): F16 { Fields(h / 0x8000, h / P10 % 32, h % P10) }
  function Unpack32(b: U32): F32 { Fields(b / P31, b / P23 % 256, b % P23) }
  function Unpack64(d: U64): F64 { Fields(d / P63, d / P52 % 2048, d % P52) }

  function Pack16(x: F16): U16 { x.sign * 0x8000 + x.exp * P10 + x.frac }
  function Pack32(x: F32): U32 { x.sign * P31 + x.exp * P23 + x.frac }
  function Pack64(x: F64): U64 { x.sign * P63 + x.exp * P52 + x.frac }

  predicate NaN16(x: F16) { x.exp == 31 && x.frac != 0 }
  predicate NaN32(x: F32) { x.exp == 255 && x.frac != 0 }
  predicate NaN64(x: F64) { x.exp == 2047 && x.frac != 0 }

  predicate IsNaN(d: U64) { NaN64(Unpack64(d)) }

  // ----- powers of two

  function Pow2(k: nat): (r: nat)
    ensures r > 0
  {
    if k == 0 then 1 else 2 * Pow2(k - 1)
  }

  /** The position after the highest set bit: 32 minus `leading_zeros` for a 32-bit `n`. */
  function BitLength(n: nat): (k: nat)
    ensures n > 0 ==> k > 0 && Pow2(k - 1) <= n < Pow2(k)
  {
    if n == 0 then 0 else if n == 1 then 1 else 1 + BitLength(n / 2)
  }

  /** A subnormal half's fraction shifted until its highest set bit falls off: `normalized`. */
  function Normalized16(f: nat): (n: nat)
    requires 0 < f < P10
    ensures 1 <= BitLength(f) <= 10 && n < P10 && P10 + n == f * Pow2(11 - BitLength(f))
  {
    NormalizedBits(f, 10, P10);
    f * Pow2(11 - BitLength(f)) % P10
  }

  /** The same for a subnormal single. */
  function Normalized32(f: nat): (n: nat)
    requires 0 < f < P23
    ensures 1 <= BitLength(f) <= 23 && n < P23 && P23 + n == f * Pow2(24 - BitLength(f))
  {
    NormalizedBits(f, 23, P23);
    f * Pow2(24 - BitLength(f)) % P23
  }

  // ----- widening

  function Widen16(x: F16): F32 {
    if x.exp == 0 && x.frac == 0 then x
    else if x.exp == 0 then
      var shift := 11 - BitLength(x.frac);
      Fields(x.sign, (var _ := Normalized16(x.frac); 113 - shift), Normalized16(x.frac) * P13)
    else if x.exp == 31 then Fields(x.sign, 255, x.frac * P13)
    else Fields(x.sign, x.exp + 112, x.frac * P13)
  }

  /** Exact, with NaNs made quiet. */
  function Widen32(x: F32): F64 {
    if x.exp == 255 then
      Fields(x.sign, 2047, (if x.frac == 0 || x.frac >= 0x40_0000 then x.frac else x.frac + 0x40_0000) * P29)
    else if x.exp == 0 && x.frac == 0 then x
    else if x.exp == 0 then
      Fields(x.sign, (var _ := Normalized32(x.frac); 873 + BitLength(x.frac)), Normalized32(x.frac) * P29)
    else Fields(x.sign, x.exp + 896, x.frac * P29)
  }

  /** `half_to_f64` up to its last step, which widens the binary32 pattern built here. */
  function HalfToSingle(h: U16): U32 { Pack32(Widen16(Unpack16(h))) }
  function SingleToDouble(b: U32): U64 { Pack64(Widen32(Unpack32(b))) }
  function HalfToDouble(h: U16): U64 { SingleToDouble(HalfToSingle(h)) }

  // ----- narrowing

  /** `m / 2^s` rounded to nearest, ties to even. */
  function RoundShift(m: nat, s: nat): nat {
    var q := m / Pow2(s);
    var twice := 2 * (m % Pow2(s));
    if twice > Pow2(s) || (twice == Pow2(s) && q % 2 == 1) then q + 1 else q
  }

  /** Rounds to nearest, overflows to infinity, keeps NaNs quiet; a carry runs into the exponent. */
  function Narrow64(x: F64): U32 {
    var sign := x.sign * P31;
    var m := P52 + x.frac;
    if x.exp == 2047 then
      if x.frac == 0 then sign + 0x7f80_0000 else sign + 0x7fc0_0000 + x.frac / P29 % 0x40_0000
    else if x.exp > 1150 then sign + 0x7f80_0000
    else if x.exp >= 897 then
      Pow2Values(); RoundShiftBound(m, 29, 0x100_0000);
      sign + (x.exp - 897) * P23 + RoundShift(m, 29)
    else if x.exp >= 872 then
      Pow2Values(); Pow2Monotone(30, 926 - x.exp); RoundShiftBound(m, 926 - x.exp, P23);
      sign + RoundShift(m, 926 - x.exp)
    else sign
  }

  /** `value as f32`. */
  function DoubleToSingle(d: U64): U32 { Narrow64(Unpack64(d)) }

  /** A mantissa shifted right, provided no set bit is lost. */
  function ExactShift(m: nat, s: nat, least: nat): (r: Option<nat>)
    requires least <= s && m < P10 * Pow2(least)
    ensures r.Some? <==> m % Pow2(s) == 0
    ensures r.Some? ==> r.value < P10 && r.value * Pow2(s) == m
  {
    QuotientBound(m, s, least, P10);
    if m % Pow2(s) == 0 then Some(m / Pow2(s)) else None
  }

  /** `exact_half` on fields. */
  function NarrowToHalf(x: F32): Option<F16> {
    var e := x.exp as int - 127 + 15;
    if x.exp == 255 then Some(Fields(x.sign, 31, if x.frac == 0 then 0 else 0x200))
    else if e >= 31 then None
    else if e <= 0 then
      if x.exp == 0 && x.frac == 0 then Some(Fields(x.sign, 0, 0))
      else if e < -10 then None
      else
        Pow2Values();
        match ExactShift(x.frac + P23, 14 - e, 14)
        case Some(g) => Some(Fields(x.sign, 0, g))
        case None => None
    else if x.frac % P13 != 0 then None
    else Some(Fields(x.sign, e, x.frac / P13))
  }

  /** `exact_half_f64` on fields. */
  function NarrowDoubleToHalf(x: F64): Option<F16> {
    if x.exp == 2047 && x.frac == 0 then Some(Fields(x.sign, 31, 0))
    else if 1009 <= x.exp <= 1038 && x.frac % P42 == 0 then Some(Fields(x.sign, x.exp - 1008, x.frac / P42))
    else if 999 <= x.exp <= 1008 then
      Pow2Values();
      match ExactShift(x.frac + P52, 1051 - x.exp, 43)
      case Some(g) => Some(Fields(x.sign, 0, g))
      case None => None
    else if x.exp == 0 && x.frac == 0 then Some(Fields(x.sign, 0, 0))
    else None
  }

  /** `exact_half`. */
  function ExactHalf(b: U32): Option<U16> {
    match NarrowToHalf(Unpack32(b))
    case Some(x) => Some(Pack16(x))
    case None => None
  }

  /** `exact_half_f64`. */
  function ExactHalfOfDouble(d: U64): Option<U16> {
    match NarrowDoubleToHalf(Unpack64(d))
    case Some(x) => Some(Pack16(x))
    case None => None
  }

  /** `==` on floats, by their patterns. */
  predicate FloatEq(a: U64, b: U64) {
    !IsNaN(a) && !IsNaN(b) && (a == b || (a % P63 == 0 && b % P63 == 0))
  }

  // ----- the encoders and the validator

  /** `Encoder::f64_preferred`. */
  function F64Preferred(d: U64): (b: Buf) {
    if IsNaN(d) then [0xf9, 0x7e, 0x00]
    else
      var narrowed := DoubleToSingle(d);
      if FloatEq(SingleToDouble(narrowed), d) then
        match ExactHalf(narrowed)
        case Some(half) => [0xf9] + ToBE(half, 2)
        case None => [0xfa] + ToBE(narrowed, 4)
      else [0xfb] + ToBE(d, 8)
  }

  /** `write_float_preferred`, which looks at the discarded bits before it narrows. */
  function PreferredFloat(d: U64): (b: Buf) {
    if d / P52 % 2048 != 2047 && d % P29 != 0 then [0xfb] + ToBE(d, 8)
    else if IsNaN(d) then [0xf9, 0x7e, 0x00]
    else if d % P42 == 0 && ExactHalfOfDouble(d).Some? then [0xf9] + ToBE(ExactHalfOfDouble(d).value, 2)
    else
      var narrowed := DoubleToSingle(d);
      if FloatEq(SingleToDouble(narrowed), d) then [0xfa] + ToBE(narrowed, 4)
      else [0xfb] + ToBE(d, 8)
  }

  /** The widths that `validate_deterministic_float` turns down, by additional information. */
  predicate NonPreferred(ai: nat, n: U64)
    requires ai == 25 ==> n < 0x1_0000
    requires ai == 26 ==> n < 0x1_0000_0000
  {
    if ai == 25 then IsNaN(HalfToDouble(n)) && n != 0x7e00
    else if ai == 26 then ExactHalf(n).Some?
    else if ai == 27 then IsNaN(n) || FloatEq(SingleToDouble(DoubleToSingle(n)), n)
    else false
  }

  // ----- arithmetic of shifts

  lemma Pow2Values()
    ensures Pow2(10) == P10 && Pow2(13) == P13 && Pow2(14) == 0x4000 && Pow2(23) == P23
    ensures Pow2(29) == P29 && Pow2(30) == 0x4000_0000
    ensures Pow2(42) == P42 && Pow2(43) == 0x800_0000_0000 && Pow2(52) == P52
  {
    Pow2Add(10, 13);
    Pow2Add(13, 10);
    Pow2Add(10, 3);
    Pow2Add(13, 1);
    Pow2Add(23, 6);
    Pow2Add(29, 1);
    Pow2Add(29, 13);
    Pow2Add(42, 1);
    Pow2Add(42, 10);
  }

  lemma {:induction false} Pow2Add(a: nat, b: nat)
    ensures Pow2(a + b) == Pow2(a) * Pow2(b)
  {
    if b > 0 {
      Pow2Add(a, b - 1);
    }
  }

  lemma {:induction false} Pow2Monotone(a: nat, b: nat)
    requires a <= b
    ensures Pow2(a) <= Pow2(b)
    ensures a < b ==> 2 * Pow2(a) <= Pow2(b)
  {
    if a < b { Pow2Monotone(a, b - 1); }
  }

  lemma BitLengthUnique(n: nat, k: nat)
    requires k > 0 && Pow2(k - 1) <= n < Pow2(k)
    ensures BitLength(n) == k
  {
    var j := BitLength(n);
    if j < k { Pow2Monotone(j, k - 1); }
    if k < j { Pow2Monotone(k, j - 1); }
  }

  lemma BitLengthAtMost(f: nat, t: nat)
    requires f < Pow2(t)
    ensures BitLength(f) <= t
  {
    if f > 0 {
      var top := BitLength(f) - 1;
      if t <= top { Pow2Monotone(t, top); }
    }
  }

  lemma MulMonotone(a: nat, b: nat, c: nat)
    requires a <= b
    ensures a * c <= b * c
  {
  }

  lemma MulAssoc(a: int, b: int, c: int)
    ensures a * b * c == a * (b * c)
  {
  }

  /** Quotient and remainder are determined by the division identity. */
  lemma DivisionUnique(n: nat, m: nat, q: nat)
    requires m > 0 && q * m <= n < (q + 1) * m
    ensures n / m == q && n % m == n - q * m
  {
    var x, r := n / m, n % m;
    assert n == x * m + r && (x + 1) * m == x * m + m;
    QuotientAtMost(x, m, q);
    QuotientAtMost(q, m, x);
  }

  lemma QuotientAtMost(x: nat, m: nat, q: nat)
    requires x * m < (q + 1) * m
    ensures x <= q
  {
    if x > q { MulMonotone(q + 1, x, m); }
  }

  lemma ExactDivision(q: nat, m: nat)
    requires m > 0
    ensures q * m / m == q && q * m % m == 0
  {
    DivisionUnique(q * m, m, q);
  }

  lemma QuotientBound(m: nat, s: nat, t: nat, limit: nat)
    requires t <= s && m < limit * Pow2(t)
    ensures m / Pow2(s) < limit
  {
    Pow2Monotone(t, s);
    QuotientBelow(m, Pow2(t), Pow2(s), limit);
  }

  lemma QuotientBelow(m: nat, a: nat, p: nat, limit: nat)
    requires 0 < a <= p && m < limit * a
    ensures m / p < limit
  {
    var q := m / p;
    assert q * p <= m by { assert m == q * p + m % p; }
    MulMonotone(a, p, limit);
    if q >= limit { MulMonotone(limit, q, p); }
  }

  lemma RoundShiftBound(m: nat, s: nat, limit: nat)
    requires m < limit * Pow2(s)
    ensures RoundShift(m, s) <= limit
  {
    QuotientBound(m, s, s, limit);
  }

  lemma RoundShiftExact(q: nat, s: nat)
    ensures RoundShift(q * Pow2(s), s) == q
  {
    ExactDivision(q, Pow2(s));
  }

  lemma ShiftTo(f: nat, a: nat, b: nat, t: nat)
    requires t == a + b
    ensures f * Pow2(a) * Pow2(b) == f * Pow2(t)
  {
    Pow2Add(a, b);
    MulAssoc(f, Pow2(a), Pow2(b));
  }

  /** Shifting a `k`-bit number left to `t` bits puts its highest bit at position `t - 1`. */
  lemma ShiftedBits(f: nat, t: nat)
    requires 0 < f && BitLength(f) <= t
    ensures Pow2(t - 1) <= f * Pow2(t - BitLength(f)) < Pow2(t)
  {
    var k := BitLength(f);
    Pow2Add(k - 1, t - k);
    Pow2Add(k, t - k);
    MulMonotone(Pow2(k - 1), f, Pow2(t - k));
    MulMonotone(f + 1, Pow2(k), Pow2(t - k));
  }

  lemma NormalizedBits(f: nat, t: nat, p: nat)
    requires 0 < f < p && ((t == 10 && p == P10) || (t == 23 && p == P23))
    ensures 1 <= BitLength(f) <= t
    ensures f * Pow2(t + 1 - BitLength(f)) % p == f * Pow2(t + 1 - BitLength(f)) - p
    ensures p <= f * Pow2(t + 1 - BitLength(f)) < 2 * p
  {
    Pow2Values();
    BitLengthAtMost(f, t);
    assert Pow2(t + 1) == 2 * Pow2(t);
    ShiftedBits(f, t + 1);
    DivisionUnique(f * Pow2(t + 1 - BitLength(f)), p, 1);
  }
}
