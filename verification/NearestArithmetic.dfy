/** Rounding to the nearest binary32 number is an arithmetic of the kind the integer scaling is proved for. */
module NearestArithmetic {
  import opened Arith
  import opened HalfFloat
  import opened PixelRows

  // ----- Rounding a magnitude, in units of 2^-149 -----

  /** 2^169 units, which is 2^20. */
  const LIMIT: nat := 0x2000000000000000000000000000000000000000000

  /** 2^149, the units in 1. */
  const UNITS: nat := 0x20000000000000000000000000000000000000

  predicate InReach(v: real) { 0.0 <= v <= LIMIT as real }

  lemma LimitIsPower()
    ensures Pow2(149) == UNITS && LIMIT == Pow2(169) < Pow2(170)
  {
    hide Pow2;
    SmallPowers();
    Pow2Add(10, 10);
    Pow2Add(20, 20);
    Pow2Add(40, 40);
    Pow2Add(80, 40);
    Pow2Add(120, 20);
    Pow2Add(140, 9);
    Pow2Add(149, 20);
    Pow2Double(170);
  }

  /** How many low bits are rounded off to leave at most 24. */
  function ShiftFor(v: real, k: nat): (r: nat)
    requires InReach(v) && k <= 146
    requires k > 0 ==> v >= Pow2(23 + k) as real
    ensures r <= 146 && v < Pow2(24 + r) as real && (r > 0 ==> v >= Pow2(23 + r) as real)
    decreases 146 - k
  {
    hide Pow2;
    if v < Pow2(24 + k) as real then k
    else
      EnoughShifted(v, k);
      ShiftFor(v, k + 1)
  }

  lemma EnoughShifted(v: real, k: nat)
    requires InReach(v) && k <= 146 && v >= Pow2(24 + k) as real
    ensures k < 146 && v >= Pow2(23 + (k + 1)) as real
  {
    hide Pow2;
    assert 23 + (k + 1) == 24 + k;
    LimitIsPower();
  }

  /** The integer nearest to `v / d`. */
  function Nearest(v: real, d: nat): int
    requires d > 0
  {
    (v / d as real + 0.5).Floor
  }

  lemma NearestIsNear(v: real, d: nat)
    requires d > 0 && v >= 0.0
    ensures var q := Nearest(v, d);
      q >= 0 && v - d as real / 2.0 <= (q * d) as real <= v + d as real / 2.0
  {
    var u, r := v / d as real, d as real;
    assert u * r == v;
    if u < 0.0 { MulLt(u, 0.0, r); }
    HalfAway(u, Nearest(v, d), d, v);
  }

  lemma HalfAway(u: real, q: int, d: nat, v: real)
    requires u - 0.5 <= q as real <= u + 0.5 && u * d as real == v
    ensures v - d as real / 2.0 <= (q * d) as real <= v + d as real / 2.0
  {
    Products(q, d);
    var half := d as real / 2.0;
    NotAbove(u, q as real, d as real, half);
    NotAbove(q as real, u, d as real, half);
  }

  lemma NotAbove(u: real, q: real, r: real, half: real)
    requires q <= u + 0.5 && r >= 0.0 && half + half == r
    ensures q * r <= u * r + half
  {
    MulLe(q, u + 0.5, r);
    Distribute(u, 0.5, r);
  }

  lemma Distribute(u: real, h: real, r: real)
    ensures (u + h) * r == u * r + h * r
  {
  }

  /** The number `q * 2^k`. */
  function Assembled(sign: Bit, q: int, k: nat): Float32
    requires 0 <= q <= 0x100_0000 && k <= 146
  {
    if q == 0x100_0000 then Float32(sign, k + 2, 0)
    else if q >= 0x80_0000 then Float32(sign, k + 1, q - 0x80_0000)
    else if k == 0 then Float32(sign, 0, q)
    else ZERO
  }

  lemma {:induction false} AssembledValue(sign: Bit, q: int, k: nat)
    requires 0 <= q <= 0x100_0000 && k <= 146 && (k > 0 ==> q >= 0x80_0000)
    ensures var f := Assembled(sign, q, k); IsFinite(f) && f.sign == sign && Value32(f) == q * Pow2(k)
  {
    hide Pow2;
    SmallPowers();
    Pow2Double(k + 1);
    Doubled(Pow2(k));
  }

  lemma Doubled(d: nat)
    ensures 0x80_0000 * (2 * d) == 0x100_0000 * d
  {
  }

  /** After the shift at most 24 bits are left, and exactly 24 when anything was shifted. */
  lemma NearestFits(v: real, k: nat)
    requires 0.0 <= v < Pow2(24 + k) as real && (k > 0 ==> v >= Pow2(23 + k) as real)
    ensures 0 <= Nearest(v, Pow2(k)) <= 0x100_0000 && (k > 0 ==> Nearest(v, Pow2(k)) >= 0x80_0000)
  {
    hide Pow2;
    Pow2Add(24, k);
    Pow2Add(23, k);
    SmallPowers();
    var d := Pow2(k);
    NearestIsNear(v, d);
    Bounded(v, d, 0x100_0000);
    if k > 0 { AtLeast(v, d, 0x80_0000); }
  }

  lemma Bounded(v: real, d: nat, n: nat)
    requires d > 0 && 0.0 <= v < (n * d) as real
    ensures Nearest(v, d) <= n
  {
    var u := v / d as real;
    assert u * d as real == v;
    Products(n, d);
    if u >= n as real { MulLe(n as real, u, d as real); }
  }

  lemma AtLeast(v: real, d: nat, n: nat)
    requires d > 0 && v >= (n * d) as real
    ensures Nearest(v, d) >= n
  {
    var u := v / d as real;
    assert u * d as real == v;
    Products(n, d);
    if u < n as real { MulLt(u, n as real, d as real); }
  }

  function Rounded(sign: Bit, v: real): Float32
    requires InReach(v)
  {
    hide Pow2;
    var k := ShiftFor(v, 0);
    NearestFits(v, k);
    Assembled(sign, Nearest(v, Pow2(k)), k)
  }

  /** Off by at most half a unit of the 24th bit. */
  lemma RoundedError(sign: Bit, v: real)
    requires InReach(v)
    ensures var f := Rounded(sign, v);
      && IsFinite(f) && f.sign == sign
      && v - v / 16_777_216.0 - 0.5 <= Value32(f) as real <= v + v / 16_777_216.0 + 0.5
  {
    hide Pow2, Nearest, Assembled, ShiftFor;
    var k := ShiftFor(v, 0);
    NearestFits(v, k);
    AssembledValue(sign, Nearest(v, Pow2(k)), k);
    NearestIsNear(v, Pow2(k));
    SmallPowers();
    if k > 0 {
      Pow2Add(23, k);
      HalfUnit(v, Pow2(k));
    }
  }

  lemma HalfUnit(v: real, d: nat)
    requires v >= (0x80_0000 * d) as real
    ensures d as real / 2.0 <= v / 16_777_216.0
  {
  }

  // ----- Rounding a real -----

  function Size(x: real): real { if x < 0.0 then -x else x }

  function Scaled(x: real): (v: real)
    requires InRange(x)
    ensures InReach(v)
  {
    Size(x) * UNITS as real
  }

  /** The nearest binary32 number to a real up to 2^20 in size. */
  function RoundReal(x: real): Float32
    requires InRange(x)
  {
    hide Pow2;
    Rounded(if x < 0.0 then 1 else 0, Scaled(x))
  }

  lemma RoundRealRounds(x: real)
    requires InRange(x)
    ensures Rounds(RoundReal(x), x)
  {
    hide Pow2, Rounded;
    RoundedError(if x < 0.0 then 1 else 0, Scaled(x));
    LimitIsPower();
    var f, p := RoundReal(x), Pow2(149);
    Unscaled(Size(x), Value32(f), p);
    if x < 0.0 { Negated(Value32(f), p); }
  }

  lemma Negated(m: int, p: nat)
    requires p > 0
    ensures (-m) as real / p as real == -(m as real / p as real)
  {
  }

  lemma Unscaled(a: real, m: int, p: nat)
    requires a >= 0.0 && p >= 1_099_511_627_776
    requires var v := a * p as real; v - v / 16_777_216.0 - 0.5 <= m as real <= v + v / 16_777_216.0 + 0.5
    ensures var s := a / 16_777_216.0 + 1.0 / 1_099_511_627_776.0; a - s <= m as real / p as real <= a + s
  {
    var r, q, e := p as real, m as real / p as real, 1.0 / 1_099_511_627_776.0;
    var s := a / 16_777_216.0 + e;
    assert q * r == m as real;
    assert e * r >= 0.5 by { MulLe(1_099_511_627_776.0, r, e); }
    assert s * r == (a * r) / 16_777_216.0 + e * r;
    assert (a - s) * r == a * r - s * r && (a + s) * r == a * r + s * r;
    if q < a - s { MulLt(q, a - s, r); }
    if q > a + s { MulLt(a + s, q, r); }
  }

  // ----- The arithmetic -----

  function RoundedOr(x: real): Float32 { if InRange(x) then RoundReal(x) else ZERO }

  function Product(a: Float32, b: Float32): Float32 { RoundedOr(Real(a) * Real(b)) }
  function Sum(a: Float32, b: Float32): Float32 { RoundedOr(Real(a) + Real(b)) }
  function Quotient(a: Float32, b: Float32): Float32 { if Real(b) == 0.0 then ZERO else RoundedOr(Real(a) / Real(b)) }

  /** Every operation rounded to nearest. */
  const NEAREST := Arithmetic(Product, Quotient, Sum)

  /** It is within the error bounds, so what is proved of every such arithmetic is proved of something. */
  lemma NearestIsFaithful()
    ensures Faithful(NEAREST)
  {
    hide Product, Sum, Quotient, Real, Rounds, InRange;
    forall a: Float32, b: Float32 | IsFinite(a) && IsFinite(b)
      ensures InRange(Real(a) * Real(b)) ==> Rounds(NEAREST.mul(a, b), Real(a) * Real(b))
      ensures InRange(Real(a) + Real(b)) ==> Rounds(NEAREST.add(a, b), Real(a) + Real(b))
      ensures Real(b) > 0.0 && InRange(Real(a) / Real(b)) ==> Rounds(NEAREST.div(a, b), Real(a) / Real(b))
    {
      OperationsRound(a, b);
    }
  }

  lemma OperationsRound(a: Float32, b: Float32)
    ensures InRange(Real(a) * Real(b)) ==> Rounds(Product(a, b), Real(a) * Real(b))
    ensures InRange(Real(a) + Real(b)) ==> Rounds(Sum(a, b), Real(a) + Real(b))
    ensures Real(b) > 0.0 && InRange(Real(a) / Real(b)) ==> Rounds(Quotient(a, b), Real(a) / Real(b))
  {
    hide RoundedOr, Real, Rounds, InRange;
    OrRounds(Real(a) * Real(b));
    OrRounds(Real(a) + Real(b));
    if Real(b) > 0.0 { OrRounds(Real(a) / Real(b)); }
  }

  lemma OrRounds(x: real)
    ensures InRange(x) ==> Rounds(RoundedOr(x), x)
  {
    if InRange(x) { RoundRealRounds(x); }
  }
}
