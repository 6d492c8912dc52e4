/** The binary16 and binary32 conversions, on bit patterns.

    A binary16 number is its 16-bit word, because its rounding carries from one field into the next; a
    binary32 number is its three fields. A magnitude is counted in units of 2^-149, the smallest
    binary32 subnormal, so that every finite number of either format is an integer. The fields of a
    word are disjoint, so `|` of fields is `+`. */
module HalfFloat {
  import opened Arith

  type Bit = n: nat | n < 2
  type Field8 = n: nat | n < 0x100
  type Field23 = n: nat | n < 0x80_0000
  type Word16 = n: nat | n < 0x1_0000

  datatype Float32 = Float32(sign: Bit, exponent: Field8, mantissa: Field23)

  function Pow2(n: nat): (r: nat)
    ensures r >= 1
  {
    if n == 0 then 1 else 2 * Pow2(n - 1)
  }

  // ----- Values -----

  predicate IsNaN32(f: Float32) { f.exponent == 0xff && f.mantissa != 0 }

  /** The magnitude of a binary32 number in units of 2^-149, infinity read as 2^128. */
  function Value32(f: Float32): nat {
    if f.exponent == 0 then f.mantissa else (0x80_0000 + f.mantissa) * Pow2(f.exponent - 1)
  }

  function Sign16(h: Word16): Bit { h / 0x8000 }
  function Magnitude16(h: Word16): nat { h % 0x8000 }

  const INFINITY16: nat := 0x7c00

  predicate IsNaN16(h: Word16) { Magnitude16(h) > INFINITY16 }

  /** The magnitude of a binary16 pattern in units of 2^-24, infinity read as 2^16. */
  function Count16(p: nat): nat {
    var e, m := p / 1024, p % 1024;
    if e == 0 then m else (1024 + m) * Pow2(e - 1)
  }

  function Value16(p: nat): nat { Count16(p) * Pow2(125) }

  function Distance(v: nat, p: nat): nat {
    if v >= Value16(p) then v - Value16(p) else Value16(p) - v
  }

  /** Sections 3.4 and 4.3.1 of IEEE 754-2019: no binary16 magnitude is nearer to `v`, and one that is
      just as near is odd. Infinity stands for 2^16, the first number past the finite range. */
  ghost predicate NearestEven(v: nat, p: nat) {
    && p <= INFINITY16
    && forall g: nat :: g <= INFINITY16 ==> AtLeastAsNear(v, p, g)
  }

  predicate AtLeastAsNear(v: nat, p: nat, g: nat) {
    Distance(v, p) <= Distance(v, g) && (Distance(v, p) == Distance(v, g) && g != p ==> p % 2 == 0)
  }

  // ----- The conversions -----

  function ShiftRight(value: nat, shift: nat): nat {
    if shift == 0 then value else ShiftRight(value / 2, shift - 1)
  }

  function LowBits(value: nat, shift: nat): nat {
    if shift == 0 then 0 else value % 2 + 2 * LowBits(value / 2, shift - 1)
  }

  function ShiftRoundToNearestEven(value: nat, shift: nat): nat
    requires shift >= 1
  {
    var truncated, half, remainder := ShiftRight(value, shift), Pow2(shift - 1), LowBits(value, shift);
    if remainder > half || (remainder == half && truncated % 2 != 0) then truncated + 1 else truncated
  }

  /** The position of the leading one. */
  function Leading(m: nat): (p: nat)
    requires m > 0
    ensures Pow2(p) <= m < Pow2(p + 1)
  {
    if m == 1 then 0 else Leading(m / 2) + 1
  }

  /** The binary32 number `m * 2^(e - 150)`, which is what the exact product of `m` by a power of two is. */
  function Exactly(sign: Bit, m: nat, e: nat): Float32
    requires 0 < m < 0x100_0000 && 24 <= e <= 254
  {
    LeadingBelow(m);
    Float32(sign, e - (23 - Leading(m)), Fraction(m))
  }

  /** What follows the leading one, moved up to the 23 bits below it. */
  function Fraction(m: nat): int
    requires m > 0
  {
    var p := Leading(m);
    if p > 23 then 0 else (m - Pow2(p)) * Pow2(23 - p)
  }

  function HalfToFloat(h: Word16): Float32 {
    var sign, exponent, mantissa := Sign16(h), h / 1024 % 32, h % 1024;
    if exponent == 0 then
      if mantissa == 0 then Float32(sign, 0, 0) else Exactly(sign, mantissa, 126)
    else if exponent == 31 then Float32(sign, 0xff, mantissa * 0x2000)
    else Float32(sign, exponent + 112, mantissa * 0x2000)
  }

  function FloatToHalf(f: Float32): Word16 {
    f.sign * 0x8000 + HalfMagnitude(f.exponent, f.mantissa)
  }

  function HalfMagnitude(rawExponent: Field8, mantissa: Field23): (r: nat)
    ensures r < 0x8000
  {
    if rawExponent == 0xff then
      if mantissa != 0 then
        var truncated := mantissa / 0x2000;
        0x7c00 + (if truncated != 0 then truncated else 1)
      else 0x7c00
    else
      var exponent := rawExponent - 127 + 15;
      if exponent >= 31 then 0x7c00
      else if exponent <= 0 then
        var shift := 14 - exponent;
        if shift > 25 || rawExponent == 0 then 0
        else
          ShiftedFits(mantissa + 0x80_0000, shift, 14, 0x400);
          ShiftRoundToNearestEven(mantissa + 0x80_0000, shift)
      else
        ShiftedFits(mantissa, 13, 13, 0x400);
        exponent * 0x400 + ShiftRoundToNearestEven(mantissa, 13)
  }

  // ----- Powers and products -----

  lemma {:induction false} Pow2Add(a: nat, b: nat)
    ensures Pow2(a + b) == Pow2(a) * Pow2(b)
  {
    if a == 0 {
    } else {
      Pow2Add(a - 1, b);
      assert (2 * Pow2(a - 1)) * Pow2(b) == 2 * (Pow2(a - 1) * Pow2(b));
    }
  }

  lemma Pow2Double(n: nat)
    requires n >= 1
    ensures Pow2(n) == 2 * Pow2(n - 1)
  {
  }

  lemma {:induction false} Pow2Ascends(a: nat, b: nat)
    requires a <= b
    ensures Pow2(a) <= Pow2(b)
  {
    if a < b { Pow2Ascends(a, b - 1); }
  }

  lemma MulLess(a: int, b: int, c: int)
    requires a < b && c > 0
    ensures a * c < b * c
  {
  }

  lemma SmallPowers()
    ensures Pow2(0) == 1 && Pow2(1) == 2 && Pow2(9) == 0x200 && Pow2(10) == 0x400 && Pow2(12) == 0x1000
      && Pow2(13) == 0x2000 && Pow2(14) == 0x4000 && Pow2(23) == 0x80_0000 && Pow2(24) == 0x100_0000
  {
  }

  lemma {:induction false} LeadingBelow(m: nat)
    requires 0 < m < 0x100_0000
    ensures Leading(m) <= 23 && 0 <= Fraction(m) < 0x80_0000
  {
    hide Leading, Pow2;
    var p := Leading(m);
    SmallPowers();
    if p > 23 { Pow2Ascends(24, p); }
    Pow2Add(p, 23 - p);
    Pow2Add(1, p);
    MulLess(m - Pow2(p), Pow2(p), Pow2(23 - p));
    Grows(0, m - Pow2(p), Pow2(23 - p));
  }

  /** A value below `bound * 2^least` rounds to at most `bound` whatever larger shift is used. */
  lemma {:induction false} ShiftedFits(value: nat, shift: nat, least: nat, bound: nat)
    requires 1 <= least <= shift && value < bound * Pow2(least)
    ensures ShiftRoundToNearestEven(value, shift) <= bound
  {
    hide Pow2, LowBits, ShiftRight;
    ShiftedBelow(value, shift, least, bound);
  }

  lemma {:induction false} ShiftedBelow(value: nat, shift: nat, least: nat, bound: nat)
    requires least <= shift && value < bound * Pow2(least)
    ensures ShiftRight(value, shift) < bound
  {
    hide Pow2, ShiftRight, LowBits;
    Pow2Ascends(least, shift);
    Grows(Pow2(least), Pow2(shift), bound);
    Split(value, shift);
    if ShiftRight(value, shift) >= bound { Grows(bound, ShiftRight(value, shift), Pow2(shift)); }
  }

  // ----- Rounding away low bits -----

  /** `ShiftRoundToNearestEven` gives the multiple of `2^shift` nearest to `value`, the even one of two
      that are as near, for every value and every shift. */
  lemma {:induction false} ShiftRoundsToNearestEven(value: nat, shift: nat, z: int)
    requires shift >= 1
    ensures NoNearerMultiple(value, ShiftRoundToNearestEven(value, shift), z, Pow2(shift))
  {
    hide Pow2, NoNearerMultiple, ShiftRight, LowBits;
    Pow2Double(shift);
    Split(value, shift);
    NearestMultiple(value, ShiftRight(value, shift), LowBits(value, shift), Pow2(shift - 1), Pow2(shift), z);
  }

  lemma Doubled(t: nat, d: nat)
    ensures t * (2 * d) == 2 * (t * d)
  {
  }

  predicate NoNearerMultiple(value: nat, q: nat, z: int, d: nat) {
    && Abs(value - q * d) <= Abs(value - z * d)
    && (Abs(value - q * d) == Abs(value - z * d) && z != q ==> q % 2 == 0)
  }

  lemma {:induction false} Split(value: nat, shift: nat)
    ensures value == ShiftRight(value, shift) * Pow2(shift) + LowBits(value, shift) &&
      LowBits(value, shift) < Pow2(shift)
  {
    if shift == 0 {
    } else {
      Split(value / 2, shift - 1);
      Doubled(ShiftRight(value / 2, shift - 1), Pow2(shift - 1));
    }
  }

  lemma NearestMultiple(value: nat, t: nat, r: nat, half: nat, d: nat, z: int)
    requires half > 0 && r < d && d == 2 * half && value == t * d + r
    ensures NoNearerMultiple(value, if r > half || (r == half && t % 2 != 0) then t + 1 else t, z, d)
  {
    assert (t + 1) * d == t * d + d && (t - 1) * d == t * d - d && (t + 2) * d == t * d + 2 * d;
    if z < t { Grows(z, t - 1, d); }
    if z > t + 1 { Grows(t + 2, z, d); }
  }

  function Abs(x: int): nat { if x < 0 then -x else x }

  // ----- The binary16 grid -----

  /** From one pattern to the next the value grows by one unit in the last place, also across exponents. */
  lemma CountStep(p: nat)
    ensures Count16(p + 1) == Count16(p) + Pow2(if p < 1024 then 0 else p / 1024 - 1)
  {
    var e, m := p / 1024, p % 1024;
    if m == 1023 {
      assert (p + 1) / 1024 == e + 1 && (p + 1) % 1024 == 0;
    } else {
      assert (p + 1) / 1024 == e && (p + 1) % 1024 == m + 1;
    }
  }

  lemma {:induction false} ValueAscends(p: nat, q: nat)
    requires p < q
    ensures Value16(p) < Value16(q)
  {
    hide Count16, Pow2;
    CountStep(q - 1);
    MulLess(Count16(q - 1), Count16(q), Pow2(125));
    if p < q - 1 { ValueAscends(p, q - 1); }
  }

  /** Rounding between two neighbours on the grid is rounding to the nearest pattern of all. */
  lemma NeighboursDecide(v: nat, p: nat, unit: nat, half: nat, remainder: nat)
    requires p < INFINITY16 && unit > 0 && half > 0 && remainder < 2 * half
    requires v == Value16(p) + unit * remainder && Value16(p + 1) == Value16(p) + unit * (2 * half)
    ensures NearestEven(v, if remainder > half || (remainder == half && p % 2 != 0) then p + 1 else p)
  {
    hide Value16;
    var h := if remainder > half || (remainder == half && p % 2 != 0) then p + 1 else p;
    assert unit * (2 * half) == unit * half + unit * half;
    if remainder > half { MulLess(half, remainder, unit); }
    if remainder < half { MulLess(remainder, half, unit); }
    MulLess(remainder, 2 * half, unit);
    Grows(0, unit, remainder);
    forall g: nat | g <= INFINITY16
      ensures AtLeastAsNear(v, h, g)
    {
      if g < p { ValueAscends(g, p); }
      if g > p + 1 { ValueAscends(p + 1, g); }
    }
  }

  /** A value on the grid is its own nearest pattern. */
  lemma OnGrid(p: nat)
    requires p <= INFINITY16
    ensures NearestEven(Value16(p), p)
  {
    hide Value16;
    forall g: nat | g <= INFINITY16
      ensures AtLeastAsNear(Value16(p), p, g)
    {
      if g < p { ValueAscends(g, p); }
      if g > p { ValueAscends(p, g); }
    }
  }

  /** Everything from 2^16 up is nearest to infinity. */
  lemma PastTheGrid(v: nat)
    requires v >= Value16(INFINITY16)
    ensures NearestEven(v, INFINITY16)
  {
    hide Value16;
    forall g: nat | g <= INFINITY16
      ensures AtLeastAsNear(v, INFINITY16, g)
    {
      if g < INFINITY16 { ValueAscends(g, INFINITY16); }
    }
  }

  /** Anything below half the smallest subnormal is nearest to zero. */
  lemma BelowTheGrid(v: nat)
    requires v < Pow2(124)
    ensures NearestEven(v, 0)
  {
    hide Pow2;
    SmallPowers();
    Pow2Add(1, 124);
    assert Value16(0) == 0 && Value16(1) == Pow2(125) == 2 * Pow2(124);
    hide Value16;
    forall g: nat | g <= INFINITY16
      ensures AtLeastAsNear(v, 0, g)
    {
      if g > 1 { ValueAscends(1, g); }
    }
  }

  /** The nearest pattern follows the value; in particular it is unique. */
  lemma NearestMonotone(v: nat, p: nat, v': nat, p': nat)
    requires v <= v' && NearestEven(v, p) && NearestEven(v', p')
    ensures p <= p'
  {
    hide Value16;
    if p > p' {
      ValueAscends(p', p);
      assert AtLeastAsNear(v, p, p') && AtLeastAsNear(v', p', p);
      assert AtLeastAsNear(v, p, p' + 1);
      ValueAscends(p', p' + 1);
      ValueAscends(p' + 1, p);
    }
  }

  // ----- Correct rounding -----

  /** Numbers in the normal range of binary16. */
  lemma RoundsNormal(rawExponent: Field8, mantissa: Field23)
    requires 113 <= rawExponent <= 142
    ensures NearestEven(Value32(Float32(0, rawExponent, mantissa)), HalfMagnitude(rawExponent, mantissa))
  {
    hide Pow2, NearestEven, Count16, ShiftRight, LowBits;
    SmallPowers();
    Split(mantissa, 13);
    var e, t, r := rawExponent - 112, ShiftRight(mantissa, 13), LowBits(mantissa, 13);
    var p, unit := e * 0x400 + t, Pow2(rawExponent - 1);
    hide HalfMagnitude, ShiftRoundToNearestEven;
    NormalMagnitude(rawExponent, mantissa);
    NormalPattern(e, t);
    Pow2Add(e - 1, 125);
    Pow2Add(rawExponent - 1, 13);
    NormalValues(t, r, Pow2(e - 1), Pow2(125), unit);
    NeighboursDecide(Value32(Float32(0, rawExponent, mantissa)), p, unit, 0x1000, r);
  }

  lemma {:induction false} NormalMagnitude(rawExponent: Field8, mantissa: Field23)
    requires 113 <= rawExponent <= 142
    ensures var p, r := (rawExponent - 112) * 0x400 + ShiftRight(mantissa, 13), LowBits(mantissa, 13);
      HalfMagnitude(rawExponent, mantissa) == if r > 0x1000 || (r == 0x1000 && p % 2 != 0) then p + 1 else p
    ensures ShiftRight(mantissa, 13) < 0x400
  {
    hide ShiftRight, LowBits, Pow2;
    SmallPowers();
    ShiftedBelow(mantissa, 13, 13, 0x400);
  }

  lemma {:induction false} NormalPattern(e: nat, t: nat)
    requires e > 0 && t < 1024
    ensures var p := e * 0x400 + t;
      Count16(p) == (1024 + t) * Pow2(e - 1) && Count16(p + 1) == (1024 + t) * Pow2(e - 1) + Pow2(e - 1)
  {
    hide Pow2;
    var p := e * 0x400 + t;
    assert p / 1024 == e && p % 1024 == t;
    CountStep(p);
  }

  lemma NormalValues(t: nat, r: nat, scale: nat, grid: nat, unit: nat)
    requires unit * 0x2000 == scale * grid
    ensures (0x80_0000 + (t * 0x2000 + r)) * unit == ((1024 + t) * scale) * grid + unit * r
    ensures ((1024 + t) * scale + scale) * grid == ((1024 + t) * scale) * grid + unit * 0x2000
  {
    assert ((1024 + t) * scale) * grid == (1024 + t) * (scale * grid);
    assert ((1024 + t) * scale + scale) * grid == ((1024 + t) * scale) * grid + scale * grid;
  }

  /** Numbers below the normal range: gradual underflow. */
  lemma RoundsSubnormal(rawExponent: Field8, mantissa: Field23)
    requires 101 <= rawExponent <= 112
    ensures NearestEven(Value32(Float32(0, rawExponent, mantissa)), HalfMagnitude(rawExponent, mantissa))
  {
    hide Pow2, NearestEven, ShiftRight, LowBits;
    SmallPowers();
    var shift, significand, unit := 126 - rawExponent, mantissa + 0x80_0000, Pow2(rawExponent - 1);
    var t, r := ShiftRight(significand, shift), LowBits(significand, shift);
    ShiftedBelow(significand, shift, 14, 0x400);
    Split(significand, shift);
    Pow2Add(1, shift - 1);
    Pow2Add(rawExponent - 1, shift);
    CountStep(t);
    assert Count16(t) == t;
    hide Count16;
    SubnormalValues(t, r, Pow2(shift), unit, Pow2(125));
    NeighboursDecide(Value32(Float32(0, rawExponent, mantissa)), t, unit, Pow2(shift - 1), r);
  }

  lemma SubnormalValues(t: nat, r: nat, step: nat, unit: nat, grid: nat)
    requires unit * step == grid
    ensures (t * step + r) * unit == t * grid + unit * r
    ensures (t + 1) * grid == t * grid + unit * step
  {
    assert (t * step) * unit == t * (unit * step);
  }

  /** Every binary32 number that is not a NaN is converted to the nearest binary16 number, ties to
      even, with gradual underflow, carries into the exponent and overflow to infinity. */
  lemma CorrectlyRounded(f: Float32)
    requires !IsNaN32(f)
    ensures Sign16(FloatToHalf(f)) == f.sign
    ensures NearestEven(Value32(f), Magnitude16(FloatToHalf(f)))
  {
    hide NearestEven;
    var e, m := f.exponent, f.mantissa;
    assert Magnitude16(FloatToHalf(f)) == HalfMagnitude(e, m) by { hide HalfMagnitude; }
    assert Value32(f) == Value32(Float32(0, e, m));
    if e >= 143 {
      LargeValue(f);
      PastTheGrid(Value32(f));
    } else if e >= 113 {
      RoundsNormal(e, m);
    } else if e >= 101 {
      RoundsSubnormal(e, m);
    } else {
      SmallValue(f);
      BelowTheGrid(Value32(f));
    }
  }

  lemma LargeValue(f: Float32)
    requires f.exponent >= 143
    ensures Value32(f) >= Value16(INFINITY16)
  {
    hide Pow2;
    SmallPowers();
    Pow2Ascends(142, f.exponent - 1);
    Pow2Add(23, 142);
    Pow2Add(10, 30);
    Pow2Add(40, 125);
    Grows(0x80_0000, 0x80_0000 + f.mantissa, Pow2(f.exponent - 1));
    Grows(Pow2(142), Pow2(f.exponent - 1), 0x80_0000);
  }

  lemma SmallValue(f: Float32)
    requires f.exponent <= 100
    ensures Value32(f) < Pow2(124)
  {
    hide Pow2;
    SmallPowers();
    Pow2Ascends(24, 124);
    if f.exponent > 0 {
      Pow2Ascends(f.exponent - 1, 99);
      Pow2Add(24, 99);
      Pow2Add(1, 123);
      MulLess(0x80_0000 + f.mantissa, 0x100_0000, Pow2(f.exponent - 1));
      Grows(Pow2(f.exponent - 1), Pow2(99), 0x100_0000);
    }
  }

  // ----- Overflow, order and NaN -----

  /** A finite number becomes infinite exactly from 65520 on, the midpoint past the largest finite
      binary16 number, which is 4095 * 2^4. */
  lemma OverflowsFromMidpoint(f: Float32)
    requires !IsNaN32(f)
    ensures Magnitude16(FloatToHalf(f)) == INFINITY16 <==> Value32(f) >= 4095 * Pow2(4) * Pow2(149)
  {
    hide FloatToHalf, Value32, Value16, Pow2, Magnitude16;
    CorrectlyRounded(f);
    var p := Magnitude16(FloatToHalf(f));
    Midpoint();
    assert AtLeastAsNear(Value32(f), p, INFINITY16 - 1) && AtLeastAsNear(Value32(f), p, INFINITY16);
    if p < INFINITY16 - 1 { ValueAscends(p, INFINITY16 - 1); }
    ValueAscends(INFINITY16 - 1, INFINITY16);
  }

  lemma Midpoint()
    ensures Value16(INFINITY16 - 1) + Value16(INFINITY16) == 2 * (4095 * Pow2(4) * Pow2(149))
  {
    hide Pow2;
    SmallPowers();
    Pow2Add(24, 125);
    Pow2Add(4, 24);
    Pow2Add(28, 1);
    Pow2Add(29, 1);
    assert Count16(INFINITY16 - 1) == 2047 * Pow2(29) && Count16(INFINITY16) == 1024 * Pow2(30);
    assert Pow2(4) * Pow2(149) == Pow2(28) * Pow2(125);
    assert 2047 * Pow2(29) + 1024 * Pow2(30) == 2 * 4095 * Pow2(28);
  }

  function Signed32(f: Float32): int { if f.sign == 1 then -(Value32(f) as int) else Value32(f) }
  function Signed16(h: Word16): int {
    if Sign16(h) == 1 then -(Value16(Magnitude16(h)) as int) else Value16(Magnitude16(h))
  }


  /** The conversion never reverses an order. */
  lemma Monotone(f: Float32, g: Float32)
    requires !IsNaN32(f) && !IsNaN32(g) && Signed32(f) <= Signed32(g)
    ensures Signed16(FloatToHalf(f)) <= Signed16(FloatToHalf(g))
  {
    hide Value16, Value32, FloatToHalf, NearestEven, Sign16, Magnitude16;
    CorrectlyRounded(f);
    CorrectlyRounded(g);
    var p, q := Magnitude16(FloatToHalf(f)), Magnitude16(FloatToHalf(g));
    if f.sign == 0 && g.sign == 0 {
      NearestMonotone(Value32(f), p, Value32(g), q);
      if p < q { ValueAscends(p, q); }
    } else if f.sign == 1 && g.sign == 1 {
      NearestMonotone(Value32(g), q, Value32(f), p);
      if q < p { ValueAscends(q, p); }
    } else if f.sign == 0 {
      BelowTheGridAtZero();
      NearestMonotone(Value32(f), p, 0, 0);
      NearestMonotone(Value32(g), q, 0, 0);
    }
  }

  lemma BelowTheGridAtZero()
    ensures NearestEven(0, 0) && Value16(0) == 0
  {
    OnGrid(0);
  }

  // ----- Half to float and back -----

  /** Widening is exact: the sign is kept, the value is the same, infinity becomes infinity, and only a
      NaN becomes a NaN. */
  lemma WideningIsExact(h: Word16)
    ensures var f := HalfToFloat(h);
      && f.sign == Sign16(h)
      && (IsNaN32(f) <==> IsNaN16(h))
      && (Magnitude16(h) == INFINITY16 <==> f.exponent == 0xff && f.mantissa == 0)
      && (Magnitude16(h) < INFINITY16 ==> Value32(f) == Value16(Magnitude16(h)))
  {
    hide Pow2, Exactly;
    var e, m := h / 1024 % 32, h % 1024;
    assert Magnitude16(h) == e * 1024 + m;
    assert Magnitude16(h) / 1024 == e && Magnitude16(h) % 1024 == m;
    if e == 0 && m > 0 {
      ExactValue(Sign16(h), m, 126);
    } else if 0 < e < 31 {
      SmallPowers();
      Pow2Add(e - 1, 125);
      Pow2Add(e + 111, 13);
      NormalValues(m, 0, Pow2(e - 1), Pow2(125), Pow2(e + 111));
    }
  }

  lemma {:induction false} ExactValue(sign: Bit, m: nat, e: nat)
    requires 0 < m < 0x100_0000 && 24 <= e <= 254
    ensures var f := Exactly(sign, m, e); f.sign == sign && 0 < f.exponent < 0xff && Value32(f) == m * Pow2(e - 1)
  {
    hide Pow2, Leading;
    LeadingBelow(m);
    SmallPowers();
    var p := Leading(m);
    Pow2Add(p, 23 - p);
    Pow2Add(23 - p, e - 24 + p);
    var a, b := Pow2(23 - p), Pow2(e - 24 + p);
    assert (Pow2(p) * a + (m - Pow2(p)) * a) * b == m * (a * b);
  }

  /** Narrowing what was widened restores the very word: subnormals, signed zeros, infinities and NaN
      payloads included. */
  lemma RoundTrip(h: Word16)
    ensures FloatToHalf(HalfToFloat(h)) == h
  {
    hide Pow2, Exactly;
    var f := HalfToFloat(h);
    WideningIsExact(h);
    if Magnitude16(h) < INFINITY16 {
      hide HalfToFloat, FloatToHalf, Value16, Value32, NearestEven;
      CorrectlyRounded(f);
      OnGrid(Magnitude16(h));
      NearestMonotone(Value32(f), Magnitude16(FloatToHalf(f)), Value32(f), Magnitude16(h));
      NearestMonotone(Value32(f), Magnitude16(h), Value32(f), Magnitude16(FloatToHalf(f)));
    } else {
      assert h / 1024 % 32 == 31;
      assert h % 1024 * 0x2000 / 0x2000 == h % 1024;
    }
  }

  /** A NaN stays a NaN of the same sign, whatever its payload; and nothing else becomes one. */
  lemma NaNStaysNaN(f: Float32)
    ensures IsNaN16(FloatToHalf(f)) <==> IsNaN32(f)
    ensures IsNaN32(f) ==> Sign16(FloatToHalf(f)) == f.sign
  {
    if !IsNaN32(f) { CorrectlyRounded(f); }
  }
}
