// How write of ieee754.js rounds a double to binary32, for every estimate of the
// logarithm within one of the exponent.
module Rounding {
  import opened Powers
  import opened Division
  import opened Ieee754

  // The magnitudes of binary64 numbers: 53-bit integers, scaled.
  predicate IsDouble(v: real, n: nat, k: int) {
    0 < n < Pow2(53) && v == Scale(n as real, k)
  }

  // v in units in the last place of its binade.
  function Position(f: Format, v: real, t: int): real
    requires f.Valid()
  {
    Scale(Scale(v, f.EBias() - Field(f, t)), f.mLen)
  }

  // Cutting x + (1/2 - 2^-54) rounds x to a nearest integer, ties downward, when
  // x is a whole number of units of 2^-53 or is below a half.
  lemma NudgedFloor(x: real, u: int)
    requires 0.0 <= x && u == (x + 0.5 - Exp2(-54)).Floor
    requires x < 0.5 || Scale(x, 53) == Scale(x, 53).Floor as real
    ensures x - 0.5 <= u as real < x + 0.5
  {
    Exp2Monotone(-54, -1);
    assert Exp2(-1) == 0.5;
    if 0.5 <= x && (u as real) < x - 0.5 {
      TieGap(x, u, Scale(x, 53).Floor);
    }
  }

  lemma ScaleInt(u: int, k: nat)
    ensures Scale(u as real, k) == (u * Pow2(k)) as real
  {
    Exp2OfNat(k);
    CastProduct(u, Pow2(k));
  }

  lemma CastProduct(u: int, p: nat)
    ensures (u as real) * (p as real) == (u * p) as real
  {
  }

  // A whole number of units of 2^-53 that lies past u + 1/2 lies a unit past it.
  lemma TieGap(x: real, u: int, j: int)
    requires Scale(x, 53) == j as real && (u as real) < x - 0.5
    ensures x + 0.5 - Exp2(-54) > (u + 1) as real
  {
    var g := x - u as real - 0.5;
    ScaleSum(g, u as real + 0.5, 53);
    ScaleSum(u as real, 0.5, 53);
    ScaleInt(u, 53);
    HalfOfPower(52);
    ScaleSign(g, 53);
    ScaleStrict(0.0, g, 53);
    ZeroScale(53);
    IntegerGap(Scale(g, 53), j - u * Pow2(53) - Pow2(52));
    UnitBelow(g, 53);
    Exp2Succ(-54);
  }

  lemma IntegerGap(r: real, i: int)
    requires r == i as real && r > 0.0
    ensures r >= 1.0
  {
  }

  lemma HalfOfPower(k: nat)
    ensures Scale(0.5, k + 1) == Pow2(k) as real
  {
    ScaleSucc(0.5, k);
    ScaleOne(k);
    ScaleSum(0.5, 0.5, k);
  }

  lemma UnitBelow(g: real, k: nat)
    requires Scale(g, k) >= 1.0
    ensures g >= Exp2(0 - k)
  {
    var unit := Exp2(0 - k);
    ScaleScale(1.0, 0 - k, k);
    ScaleZero(1.0);
    assert Scale(1.0, 0 - k) == unit;
    if g < unit {
      ScaleStrict(g, unit, k);
    }
  }

  // Written with a nudge of (1/2 - 2^-54) units, a double lands on a nearest unit.
  lemma UnitsNearest(f: Format, v: real, n: nat, k: int, t: int)
    requires f.Valid() && f.mLen == 23 && IsDouble(v, n, k) && IsExponent(v, t)
    ensures var x, u := Position(f, v, t), Units(f, v, t, f.Rt());
            0.0 <= x && x - 0.5 <= u as real < x + 0.5
  {
    var y := Scale(v, f.EBias() - Field(f, t));
    DoublePosition(f, v, n, k, t);
    RtBound(f);
    ScaleSum(y, f.Rt(), f.mLen);
    NudgedFloor(Scale(y, f.mLen), Units(f, v, t, f.Rt()));
  }

  // A double, seen from its binade, is below half a unit or whole in units of 2^-53.
  lemma DoublePosition(f: Format, v: real, n: nat, k: int, t: int)
    requires f.Valid() && IsDouble(v, n, k) && IsExponent(v, t)
    ensures var x := Position(f, v, t);
            0.0 <= x && (x < 0.5 || Scale(x, 53) == Scale(x, 53).Floor as real)
  {
    var y, field := Scale(v, f.EBias() - Field(f, t)), Field(f, t);
    ScaleSign(v, -t);
    ScaleSign(v, f.EBias() - field);
    ScaleSign(y, f.mLen);
    var shift := k + f.EBias() - field + f.mLen;
    ScaleScale(n as real, k, f.EBias() - field);
    ScaleScale(n as real, k + f.EBias() - field, f.mLen);
    ScaleScale(n as real, shift, 53);
    SmallOrWhole(n, shift);
  }

  // A 53-bit integer scaled by 2^shift is below 1/2 or whole in units of 2^-53.
  lemma SmallOrWhole(n: nat, shift: int)
    requires 0 < n < Pow2(53)
    ensures var x := Scale(n as real, shift);
            x < 0.5 || Scale(n as real, shift + 53) == Scale(n as real, shift + 53).Floor as real
  {
    if shift + 53 >= 0 {
      ScaleInt(n, shift + 53);
    } else {
      ScaleExponentMonotone(n as real, shift, -54);
      ScaleStrict(n as real, Pow2(53) as real, -54);
      ScaleOne(53);
      ScaleScale(1.0, 53, -54);
      assert Scale(1.0, -1) == 0.5;
    }
  }

  // The magnitude of a code given as units above the base of a binade.
  lemma MagnitudeOfUnits(f: Format, field: nat, units: nat)
    requires f.Valid() && 1 <= field && units <= 2 * Pow2(f.mLen)
    requires units >= Pow2(f.mLen) || field == 1
    ensures Magnitude(f, ShiftLeft(field - 1, f.mLen) + units)
         == Scale(units as real, field - f.EBias() - f.mLen)
  {
    var p, code := Pow2(f.mLen), ShiftLeft(field - 1, f.mLen) + units;
    ShiftLeftStep(field - 1, f.mLen);
    ShiftLeftStep(field, f.mLen);
    if units < p {
      MagnitudeOfFields(f, code, field - 1, units);
    } else if units < 2 * p {
      MagnitudeOfFields(f, code, field, units - p);
    } else {
      MagnitudeOfFields(f, code, field + 1, 0);
      ScaleTwice(p, field - f.EBias() - f.mLen);
    }
  }

  lemma MagnitudeOfFields(f: Format, code: nat, e: nat, t: nat)
    requires f.Valid() && code == ShiftLeft(e, f.mLen) + t && t < Pow2(f.mLen)
    ensures Magnitude(f, code) == if e == 0 then Scale(t as real, 1 - f.EBias() - f.mLen)
                                  else Scale((t + Pow2(f.mLen)) as real, e - f.EBias() - f.mLen)
  {
    FieldsFromParts(f, code, e, t);
  }

  lemma ScaleTwice(p: nat, k: int)
    ensures Scale(p as real, k + 1) == Scale((2 * p) as real, k)
  {
    ScaleSucc(p as real, k);
    ScaleSum(p as real, p as real, k);
  }

  lemma FieldsFromParts(f: Format, code: nat, e: nat, t: nat)
    requires f.Valid() && code == ShiftLeft(e, f.mLen) + t && t < Pow2(f.mLen)
    ensures Exponent(f, code) == e && Significand(f, code) == t
  {
    DivUnique(code, Pow2(f.mLen), e, t);
  }

  // Below the infinity code, units stay within two binade widths.
  lemma UnitsBounded(f: Format, v: real, t: int)
    requires f.Valid() && IsExponent(v, t)
    requires 0 <= Units(f, v, t, f.Rt())
    ensures var units := Units(f, v, t, f.Rt());
            units <= 2 * Pow2(f.mLen) && (units >= Pow2(f.mLen) || Field(f, t) == 1)
  {
    var y := Scale(v, f.EBias() - Field(f, t));
    RtBound(f);
    ScaleSum(y, f.Rt(), f.mLen);
    ScaleOne(f.mLen);
    ScaleSum(1.0, 1.0, f.mLen);
    if t + f.EBias() < 1 {
      SubnormalRange(f, v, t);
    } else {
      ScaleMonotone(1.0, y, f.mLen);
    }
    ScaleStrict(y, 2.0, f.mLen);
  }

  lemma PositionBack(f: Format, v: real, t: int)
    requires f.Valid()
    ensures Scale(Position(f, v, t), Field(f, t) - f.EBias() - f.mLen) == v
  {
    var field := Field(f, t);
    ScaleScale(v, f.EBias() - field, f.mLen);
    ScaleScale(v, f.EBias() - field + f.mLen, field - f.EBias() - f.mLen);
    ScaleZero(v);
  }

  function OverflowThreshold(f: Format): real
    requires f.Valid()
  {
    Scale((2 * Pow2(f.mLen)) as real - 0.5, f.EMax() - 1 - f.EBias() - f.mLen)
  }

  lemma PositionBounded(f: Format, v: real, t: int)
    requires f.Valid() && IsExponent(v, t)
    ensures var x, p := Position(f, v, t), Pow2(f.mLen) as real;
            0.0 <= x < 2.0 * p && (p <= x || Field(f, t) == 1)
  {
    var y := Scale(v, f.EBias() - Field(f, t));
    ScaleOne(f.mLen);
    ScaleSum(1.0, 1.0, f.mLen);
    if t + f.EBias() < 1 {
      SubnormalRange(f, v, t);
    } else {
      ScaleMonotone(1.0, y, f.mLen);
    }
    ScaleSign(y, f.mLen);
    ScaleStrict(y, 2.0, f.mLen);
  }

  lemma CodeOverflows(f: Format, field: nat, units: nat)
    requires f.Valid() && 1 <= field && units <= 2 * Pow2(f.mLen)
    requires units >= Pow2(f.mLen) || field == 1
    ensures Capped(f, field, units) == ShiftLeft(f.EMax(), f.mLen)
       <==> field >= f.EMax() || (field == f.EMax() - 1 && units == 2 * Pow2(f.mLen))
  {
    BiasBound(f);
    ShiftLeftStep(field - 1, f.mLen);
    ShiftLeftStep(field, f.mLen);
    if field >= f.EMax() {
      ShiftLeftMonotone(f.EMax(), field, f.mLen);
    } else if field < f.EMax() - 1 {
      ShiftLeftStep(field + 1, f.mLen);
      ShiftLeftMonotone(field + 2, f.EMax(), f.mLen);
    }
  }

  lemma ValueOverflows(f: Format, v: real, field: nat, x: real)
    requires f.Valid() && 1 <= field && v == Scale(x, field - f.EBias() - f.mLen)
    requires var p := Pow2(f.mLen) as real; 0.0 <= x < 2.0 * p && (p <= x || field == 1)
    ensures v > OverflowThreshold(f)
       <==> field >= f.EMax() || (field == f.EMax() - 1 && x > (2 * Pow2(f.mLen)) as real - 0.5)
  {
    BiasBound(f);
    ThresholdOrder(Pow2(f.mLen) as real, x, field - f.EBias() - f.mLen, f.EMax() - 1 - f.EBias() - f.mLen);
  }

  // x units of weight 2^q against just short of 2p units of weight 2^top.
  lemma ThresholdOrder(p: real, x: real, q: int, top: int)
    requires 1.0 <= p && 0.0 <= x < 2.0 * p && (p <= x || q < top)
    ensures Scale(x, q) > Scale(2.0 * p - 0.5, top) <==> q > top || (q == top && x > 2.0 * p - 0.5)
  {
    if q > top {
      ScaleExponentMonotone(x, top + 1, q);
      ScaleMonotone(p, x, top + 1);
      ScaleSucc(p, top);
      ScaleSum(p, p, top);
      ScaleStrict(2.0 * p - 0.5, 2.0 * p, top);
    } else if q < top {
      ScaleStrict(x, 2.0 * p, q);
      ScaleSum(p, p, q);
      ScaleSucc(p, q);
      ScaleExponentMonotone(p, q + 1, top);
      ScaleMonotone(p, 2.0 * p - 0.5, top);
    } else if x > 2.0 * p - 0.5 {
      ScaleStrict(2.0 * p - 0.5, x, top);
    } else {
      ScaleMonotone(x, 2.0 * p - 0.5, top);
    }
  }

  // --- Which code is right ---

  // Half a unit in the last place of the binade of 2^t.
  function HalfUnit(f: Format, t: int): real
    requires f.Valid()
  {
    Scale(0.5, Field(f, t) - f.EBias() - f.mLen)
  }

  // Infinity above the largest finite number plus half a unit, and otherwise a finite
  // number within half a unit of v.
  predicate IsRounded(f: Format, v: real, t: int, code: nat)
    requires f.Valid()
  {
    if v > OverflowThreshold(f) then code == ShiftLeft(f.EMax(), f.mLen)
    else code < ShiftLeft(f.EMax(), f.mLen) && IsWithin(f, v, t, code)
  }

  predicate IsWithin(f: Format, v: real, t: int, code: nat)
    requires f.Valid()
  {
    v - HalfUnit(f, t) <= Magnitude(f, code) <= v + HalfUnit(f, t)
  }

  // The same, seen from the binade: the position x is rounded to u units of `field`,
  // of which p fill the binade below and 2p the binade itself.
  predicate RoundsTo(f: Format, field: nat, x: real, u: int)
    requires f.Valid()
  {
    || field >= f.EMax()
    || (if field == f.EMax() - 1 && x > (2 * Pow2(f.mLen)) as real - 0.5 then u == 2 * Pow2(f.mLen)
        else IsNear(x, u) && !(field == f.EMax() - 1 && u == 2 * Pow2(f.mLen)))
  }

  predicate IsNear(x: real, u: int) {
    x - 0.5 <= u as real <= x + 0.5
  }

  lemma HalfUnitsExactly(x: real, u: real, q: int)
    ensures x - 0.5 <= u <= x + 0.5 <==> Scale(x, q) - Scale(0.5, q) <= Scale(u, q) <= Scale(x, q) + Scale(0.5, q)
  {
    ScaleSum(x - 0.5, 0.5, q);
    ScaleSum(x, 0.5, q);
    if u < x - 0.5 {
      ScaleStrict(u, x - 0.5, q);
    } else {
      ScaleMonotone(x - 0.5, u, q);
    }
    if u > x + 0.5 {
      ScaleStrict(x + 0.5, u, q);
    } else {
      ScaleMonotone(u, x + 0.5, q);
    }
  }

  lemma CodeIsRounded(f: Format, v: real, t: int, u: nat)
    requires f.Valid() && IsExponent(v, t)
    requires u <= 2 * Pow2(f.mLen) && (u >= Pow2(f.mLen) || Field(f, t) == 1)
    ensures IsRounded(f, v, t, Capped(f, Field(f, t), u)) <==> RoundsTo(f, Field(f, t), Position(f, v, t), u)
  {
    OverflowPosition(f, v, t);
    CodeOverflows(f, Field(f, t), u);
    FiniteWithin(f, v, t, u);
    CappedIs(f, Field(f, t), u);
  }

  lemma CappedIs(f: Format, field: nat, u: nat)
    requires f.Valid() && field >= 1
    ensures var code := Capped(f, field, u);
            code == ShiftLeft(f.EMax(), f.mLen)
            || (code < ShiftLeft(f.EMax(), f.mLen) && code == ShiftLeft(field - 1, f.mLen) + u)
  {
  }

  // Overflow, seen from the binade.
  lemma OverflowPosition(f: Format, v: real, t: int)
    requires f.Valid() && IsExponent(v, t)
    ensures v > OverflowThreshold(f)
       <==> Field(f, t) >= f.EMax()
            || (Field(f, t) == f.EMax() - 1 && Position(f, v, t) > (2 * Pow2(f.mLen)) as real - 0.5)
  {
    PositionBack(f, v, t);
    PositionBounded(f, v, t);
    ValueOverflows(f, v, Field(f, t), Position(f, v, t));
  }

  lemma FiniteWithin(f: Format, v: real, t: int, u: nat)
    requires f.Valid()
    requires u <= 2 * Pow2(f.mLen) && (u >= Pow2(f.mLen) || Field(f, t) == 1)
    ensures IsWithin(f, v, t, ShiftLeft(Field(f, t) - 1, f.mLen) + u) <==> IsNear(Position(f, v, t), u)
  {
    PositionBack(f, v, t);
    MagnitudeOfUnits(f, Field(f, t), u);
    HalfUnitsExactly(Position(f, v, t), u as real, Field(f, t) - f.EBias() - f.mLen);
  }

  // With the whole nudge every double is rounded.
  lemma WholeNudge(f: Format, v: real, n: nat, k: int, t: int)
    requires f.Valid() && f.mLen == 23 && IsDouble(v, n, k) && IsExponent(v, t)
    ensures 0 <= Units(f, v, t, f.Rt())
    ensures IsRounded(f, v, t, Capped(f, Field(f, t), Units(f, v, t, f.Rt())))
  {
    UnitsNearest(f, v, n, k, t);
    UnitsBounded(f, v, t);
    CodeIsRounded(f, v, t, Units(f, v, t, f.Rt()));
  }

  // --- Low estimates ---

  // How far past a whole number of units v is.
  function Fraction(f: Format, v: real, t: int): real
    requires f.Valid()
  {
    Position(f, v, t) - Position(f, v, t).Floor as real
  }

  // Below the top of a normal binade a low estimate halves the nudge, which then
  // carries only what is past three quarters of a unit. At the top the carry reaches
  // the exponent, where | adds it to an even exponent and drops it from an odd one.
  predicate LowEstimateFits(f: Format, v: real, t: int)
    requires f.Valid()
  {
    || t + f.EBias() < 1
    || t + f.EBias() >= f.EMax()
    || (if Scale(v, -t) + Slack(f, t, t - 1) < 2.0 then
          t + f.EBias() == 1 || Fraction(f, v, t) <= 0.5 || Fraction(f, v, t) > 0.75
        else (t + f.EBias()) % 2 == 0)
  }

  // Cutting x + (1/4 - 2^-55), for x whole in units of 2^-53.
  lemma QuarterFloor(x: real, u: int)
    requires u == (x + 0.25 - Exp2(-55)).Floor && Scale(x, 53) == Scale(x, 53).Floor as real
    ensures u == x.Floor + if x - x.Floor as real > 0.75 then 1 else 0
  {
    var w := x.Floor;
    Exp2Monotone(-55, -3);
    assert Exp2(-3) == 0.125;
    if x - w as real > 0.75 {
      QuarterGap(x, w, Scale(x, 53).Floor);
    }
  }

  lemma QuarterGap(x: real, w: int, j: int)
    requires Scale(x, 53) == j as real && x - w as real > 0.75
    ensures x - w as real - 0.75 >= Exp2(-55)
  {
    var g := x - w as real - 0.75;
    ScaleSum(g, w as real + 0.75, 53);
    ScaleSum(w as real, 0.75, 53);
    ScaleSum(0.5, 0.25, 53);
    ScaleInt(w, 53);
    HalfOfPower(52);
    ScaleSucc(0.25, 52);
    HalfOfPower(51);
    ScaleSign(g, 53);
    ScaleStrict(0.0, g, 53);
    ZeroScale(53);
    IntegerGap(Scale(g, 53), j - w * Pow2(53) - Pow2(52) - Pow2(51));
    UnitBelow(g, 53);
    Exp2Monotone(-55, -53);
  }

  lemma HalfNudge()
    ensures var rt := Exp2(-24) - Exp2(-77); Scale(rt / 2.0, 23) == 0.25 - Exp2(-55)
  {
    var rt := Exp2(-24) - Exp2(-77);
    RtUnits();
    ScaleSum(rt / 2.0, rt / 2.0, 23);
    Exp2Succ(-55);
  }

  // In units of the binade, a low estimate cuts at three quarters.
  lemma LowUnits(f: Format, v: real, n: nat, k: int, t: int)
    requires f.Valid() && f.mLen == 23 && IsDouble(v, n, k) && IsExponent(v, t) && t + f.EBias() > 1
    ensures var x, u := Position(f, v, t), Units(f, v, t, Slack(f, t, t - 1));
            u == x.Floor + if Fraction(f, v, t) > 0.75 then 1 else 0
  {
    var x := Position(f, v, t);
    WholePosition(f, v, n, k, t);
    HalvedUnits(f, v, t);
    QuarterFloor(x, (x + 0.25 - Exp2(-55)).Floor);
  }

  lemma WholePosition(f: Format, v: real, n: nat, k: int, t: int)
    requires f.Valid() && IsDouble(v, n, k) && IsExponent(v, t) && t + f.EBias() > 1
    ensures var x := Position(f, v, t); Scale(x, 53) == Scale(x, 53).Floor as real
  {
    DoublePosition(f, v, n, k, t);
    PositionBounded(f, v, t);
    assert 1 <= Pow2(f.mLen);
  }

  lemma HalvedUnits(f: Format, v: real, t: int)
    requires f.Valid() && f.mLen == 23 && t + f.EBias() > 1
    ensures Units(f, v, t, Slack(f, t, t - 1)) == (Position(f, v, t) + 0.25 - Exp2(-55)).Floor
  {
    var y := Scale(v, f.EBias() - Field(f, t));
    HalfNudge();
    assert Slack(f, t, t - 1) == f.Rt() / 2.0;
    ScaleSum(y, f.Rt() / 2.0, 23);
  }

  // y < 2 just when the units stay below the top of the binade.
  lemma BelowTop(f: Format, y: real)
    requires f.Valid()
    ensures y < 2.0 <==> Scale(y, f.mLen).Floor < 2 * Pow2(f.mLen)
  {
    ScaleOne(f.mLen);
    ScaleSum(1.0, 1.0, f.mLen);
    if y < 2.0 {
      ScaleStrict(y, 2.0, f.mLen);
    } else {
      ScaleMonotone(2.0, y, f.mLen);
    }
  }

  // What the halved nudge rounds right, below the top of the binade.
  lemma LowRoundsTo(f: Format, field: nat, x: real, u: int)
    requires f.Valid() && field < f.EMax() && u < 2 * Pow2(f.mLen)
    requires u == x.Floor + if x - x.Floor as real > 0.75 then 1 else 0
    ensures RoundsTo(f, field, x, u) <==> x - x.Floor as real <= 0.5 || x - x.Floor as real > 0.75
  {
  }

  // Below the top of its binade, the code is the capped count of whole units.
  lemma LowBelowTop(f: Format, v: real, n: nat, k: int, t: int)
    requires f.Valid() && f.mLen == 23 && IsDouble(v, n, k) && IsExponent(v, t) && 1 < t + f.EBias() < f.EMax()
    requires Scale(v, -t) + Slack(f, t, t - 1) < 2.0
    ensures var u := Units(f, v, t, Slack(f, t, t - 1));
            0 <= u && (IsRounded(f, v, t, Capped(f, Field(f, t), u)) <==> LowEstimateFits(f, v, t))
  {
    var x, u := Position(f, v, t), Units(f, v, t, Slack(f, t, t - 1));
    LowUnits(f, v, n, k, t);
    LowUnitsBounded(f, v, t, u);
    CodeIsRounded(f, v, t, u);
    LowRoundsTo(f, Field(f, t), x, u);
  }

  lemma LowUnitsBounded(f: Format, v: real, t: int, u: int)
    requires f.Valid() && IsExponent(v, t) && t + f.EBias() > 1
    requires u == Units(f, v, t, Slack(f, t, t - 1)) && u >= Position(f, v, t).Floor
    requires Scale(v, -t) + Slack(f, t, t - 1) < 2.0
    ensures Pow2(f.mLen) <= u < 2 * Pow2(f.mLen)
  {
    var y := Scale(v, -t) + Slack(f, t, t - 1);
    assert u == Scale(y, f.mLen).Floor;
    BelowTop(f, y);
    PositionAtLeast(f, v, t);
  }

  lemma PositionAtLeast(f: Format, v: real, t: int)
    requires f.Valid() && IsExponent(v, t) && t + f.EBias() > 1
    ensures Position(f, v, t).Floor >= Pow2(f.mLen)
  {
    PositionBounded(f, v, t);
    FloorAbove(Position(f, v, t), Pow2(f.mLen));
  }

  lemma FloorAbove(x: real, p: nat)
    requires p as real <= x
    ensures p <= x.Floor
  {
  }

  // At the top, | with a carry into the exponent.
  lemma CarryOr(e: nat, k: nat)
    ensures BitOr(ShiftLeft(e, k), Pow2(k)) == ShiftLeft(if e % 2 == 0 then e + 1 else e, k)
  {
    OrShifted(e, 1, k);
    LowBitOr(e);
    assert ShiftLeft(1, k) == Pow2(k);
  }

  lemma LowBitOr(e: nat)
    ensures BitOr(e, 1) == if e % 2 == 0 then e + 1 else e
  {
  }

  lemma EMaxIsOdd(f: Format)
    requires f.Valid()
    ensures f.EMax() % 2 == 1
  {
  }

  // The significand a low estimate leaves at the top of a binade is just the carry.
  lemma TopSignificand(f: Format, v: real, t: int)
    requires f.Valid() && IsExponent(v, t) && 1 <= t + f.EBias() < f.EMax()
    requires Scale(v, -t) + Slack(f, t, t - 1) >= 2.0
    ensures var (e, m) := FiniteFields(f, v, t - 1);
            e == t + f.EBias() && 0.0 <= m && m.Floor == Pow2(f.mLen)
  {
    var y := Scale(v, -t) + Slack(f, t, t - 1);
    NormalSteps(f, v, t, t - 1);
    assert FiniteFields(f, v, t - 1) == FieldsAt(f, Nudged(f, v, Corrected(v, t - 1)), t);
    TopCut(f, Scale(v, -t), Slack(f, t, t - 1));
  }

  lemma TopCut(f: Format, x: real, slack: real)
    requires f.Valid() && x < 2.0 <= x + slack && 0.0 <= slack <= f.Rt()
    ensures 0.0 <= Scale(x + slack - 1.0, f.mLen) && Scale(x + slack - 1.0, f.mLen).Floor == Pow2(f.mLen)
  {
    RtBound(f);
    ScaleMonotone(slack, f.Rt(), f.mLen);
    CarryUnits(f, x, slack);
    ScaleSum(x + slack - 1.0, 1.0, f.mLen);
    ScaleSum(x + slack - 2.0, 1.0, f.mLen);
    ScaleOne(f.mLen);
  }

  lemma TopCode(f: Format, v: real, t: int)
    requires f.Valid() && IsExponent(v, t) && 1 <= t + f.EBias() < f.EMax()
    requires Scale(v, -t) + Slack(f, t, t - 1) >= 2.0
    ensures var e := t + f.EBias();
            Encodes(f, FiniteFields(f, v, t - 1), ShiftLeft(if e % 2 == 0 then e + 1 else e, f.mLen))
  {
    TopSignificand(f, v, t);
    CarryOr(t + f.EBias(), f.mLen);
  }

  // At the top of a binade v is within half a unit of the next one.
  lemma TopPosition(f: Format, v: real, t: int)
    requires f.Valid() && f.mLen == 23 && IsExponent(v, t) && 1 <= t + f.EBias()
    requires Scale(v, -t) + Slack(f, t, t - 1) >= 2.0
    ensures (2 * Pow2(f.mLen)) as real - 0.5 < Position(f, v, t) < (2 * Pow2(f.mLen)) as real
  {
    var slack := Slack(f, t, t - 1);
    RtBound(f);
    assert 0.0 <= slack <= f.Rt();
    NearTop(f, Scale(v, -t), slack);
    PositionBounded(f, v, t);
  }

  lemma NearTop(f: Format, y: real, slack: real)
    requires y + slack >= 2.0 && slack <= f.Rt() && Scale(f.Rt(), f.mLen) < 0.5
    ensures Scale(y, f.mLen) > (2 * Pow2(f.mLen)) as real - 0.5
  {
    ScaleMonotone(slack, f.Rt(), f.mLen);
    ScaleSum(y, slack, f.mLen);
    ScaleOne(f.mLen);
    ScaleSum(1.0, 1.0, f.mLen);
    ScaleMonotone(2.0, y + slack, f.mLen);
  }

  lemma LowAtTop(f: Format, v: real, t: int)
    requires f.Valid() && f.mLen == 23 && IsExponent(v, t) && 1 <= t + f.EBias() < f.EMax()
    requires Scale(v, -t) + Slack(f, t, t - 1) >= 2.0
    ensures var e := t + f.EBias();
            IsRounded(f, v, t, ShiftLeft(if e % 2 == 0 then e + 1 else e, f.mLen)) <==> LowEstimateFits(f, v, t)
  {
    var e, p := t + f.EBias(), Pow2(f.mLen);
    var u := if e % 2 == 0 then 2 * p else p;
    TopPosition(f, v, t);
    EMaxIsOdd(f);
    TopCapped(f, e);
    CodeIsRounded(f, v, t, u);
    assert p >= 1;
  }

  lemma TopCapped(f: Format, e: nat)
    requires f.Valid() && 1 <= e < f.EMax()
    ensures Capped(f, e, 2 * Pow2(f.mLen)) == ShiftLeft(e + 1, f.mLen)
    ensures Capped(f, e, Pow2(f.mLen)) == ShiftLeft(e, f.mLen)
  {
    ShiftLeftStep(e - 1, f.mLen);
    ShiftLeftStep(e, f.mLen);
    ShiftLeftMonotone(e + 1, f.EMax(), f.mLen);
  }

  lemma OverflowCode(f: Format, v: real, t: int)
    requires f.Valid() && IsExponent(v, t) && t + f.EBias() >= f.EMax()
    ensures Encodes(f, FiniteFields(f, v, t - 1), ShiftLeft(f.EMax(), f.mLen))
  {
    BiasBound(f);
    NormalSteps(f, v, t, t - 1);
    OrIsSum(f.EMax(), 0, f.mLen);
  }

  // --- The rounding theorem ---

  lemma WholeNudgeRounds(f: Format, v: real, n: nat, k: int, t: int, estimate: int)
    requires f.Valid() && f.mLen == 23 && IsDouble(v, n, k) && IsExponent(v, t) && t - 1 <= estimate <= t + 1
    requires Slack(f, t, estimate) == f.Rt()
    requires t <= estimate || t + f.EBias() < 1 || Scale(v, -t) + Slack(f, t, estimate) < 2.0
    ensures exists code :: Encodes(f, FiniteFields(f, v, estimate), code) && IsRounded(f, v, t, code)
  {
    WholeNudge(f, v, n, k, t);
    var code := Capped(f, Field(f, t), Units(f, v, t, f.Rt()));
    WrittenCode(f, v, t, estimate);
    assert Encodes(f, FiniteFields(f, v, estimate), code);
  }

  lemma LowEstimateRounds(f: Format, v: real, n: nat, k: int, t: int, code: nat)
    requires f.Valid() && f.mLen == 23 && IsDouble(v, n, k) && IsExponent(v, t)
    requires Encodes(f, FiniteFields(f, v, t - 1), code)
    ensures IsRounded(f, v, t, code) <==> LowEstimateFits(f, v, t)
  {
    var y := Scale(v, -t) + Slack(f, t, t - 1);
    if t + f.EBias() < 1 || (t + f.EBias() == 1 && y < 2.0) {
      WholeNudgeRounds(f, v, n, k, t, t - 1);
    } else if t + f.EBias() >= f.EMax() {
      OverflowCode(f, v, t);
      OverflowPosition(f, v, t);
    } else if y < 2.0 {
      WrittenCode(f, v, t, t - 1);
      LowBelowTop(f, v, n, k, t);
    } else {
      TopCode(f, v, t);
      LowAtTop(f, v, t);
    }
  }

  // Every double written as binary32 from an estimate within one of its exponent is
  // rounded, to within half a unit or to infinity, except from a low estimate that
  // does not fit. Half a unit exactly is cut downward.
  lemma RoundsExactly(f: Format, v: real, n: nat, k: int, t: int, estimate: int, code: nat)
    requires f.Valid() && f.mLen == 23 && IsDouble(v, n, k)
    requires IsExponent(v, t) && t - 1 <= estimate <= t + 1
    requires Encodes(f, FiniteFields(f, v, estimate), code)
    ensures IsRounded(f, v, t, code) <==> t <= estimate || LowEstimateFits(f, v, t)
  {
    if t <= estimate {
      WholeNudgeRounds(f, v, n, k, t, estimate);
    } else {
      LowEstimateRounds(f, v, n, k, t, code);
    }
  }

  // The error of a finite result.
  lemma RoundingBound(f: Format, v: real, n: nat, k: int, t: int, estimate: int, code: nat)
    requires f.Valid() && f.mLen == 23 && IsDouble(v, n, k)
    requires IsExponent(v, t) && t - 1 <= estimate <= t + 1 && (t <= estimate || LowEstimateFits(f, v, t))
    requires Encodes(f, FiniteFields(f, v, estimate), code)
    ensures || code == ShiftLeft(f.EMax(), f.mLen)
            || (Exponent(f, code) < f.EMax() && IsWithin(f, v, t, code))
  {
    RoundsExactly(f, v, n, k, t, estimate, code);
    if v <= OverflowThreshold(f) {
      FiniteCode(f, code);
    }
  }

  lemma FiniteCode(f: Format, code: nat)
    requires f.Valid() && code < ShiftLeft(f.EMax(), f.mLen)
    ensures Exponent(f, code) < f.EMax()
  {
    JoinFields(f, code);
    if Exponent(f, code) >= f.EMax() {
      ShiftLeftMonotone(f.EMax(), Exponent(f, code), f.mLen);
    }
  }

  // It is infinite exactly above the largest finite number plus half a unit.
  lemma OverflowsExactly(f: Format, v: real, n: nat, k: int, t: int, estimate: int, code: nat)
    requires f.Valid() && f.mLen == 23 && IsDouble(v, n, k)
    requires IsExponent(v, t) && t - 1 <= estimate <= t + 1 && (t <= estimate || LowEstimateFits(f, v, t))
    requires Encodes(f, FiniteFields(f, v, estimate), code)
    ensures code == ShiftLeft(f.EMax(), f.mLen) <==> v > OverflowThreshold(f)
  {
    RoundsExactly(f, v, n, k, t, estimate, code);
  }

  // A power of two, and what is within half a unit above it, may be estimated low.
  lemma JustAbovePowersFit(f: Format, v: real, t: int)
    requires f.Valid() && f.mLen == 23 && IsExponent(v, t)
    requires Position(f, v, t) <= Pow2(f.mLen) as real + 0.5
    ensures LowEstimateFits(f, v, t)
  {
    if t + f.EBias() >= 1 {
      BaseFraction(f, v, t);
      BaseIsBelowTop(f, v, t);
    }
  }

  lemma BaseFraction(f: Format, v: real, t: int)
    requires f.Valid() && IsExponent(v, t) && Position(f, v, t) <= Pow2(f.mLen) as real + 0.5
    ensures t + f.EBias() > 1 ==> Fraction(f, v, t) <= 0.5
  {
    PositionBounded(f, v, t);
    if t + f.EBias() > 1 {
      PositionAtLeast(f, v, t);
    }
  }

  lemma BaseIsBelowTop(f: Format, v: real, t: int)
    requires f.Valid() && IsExponent(v, t) && t + f.EBias() >= 1
    requires Position(f, v, t) <= Pow2(f.mLen) as real + 0.5
    ensures Scale(v, -t) + Slack(f, t, t - 1) < 2.0
  {
    var slack := Slack(f, t, t - 1);
    RtBound(f);
    ScaleMonotone(slack, f.Rt(), f.mLen);
    ScaleSum(Scale(v, -t), slack, f.mLen);
    FloorBelow(Scale(Scale(v, -t) + slack, f.mLen), Pow2(f.mLen));
    BelowTop(f, Scale(v, -t) + slack);
  }

  lemma FloorBelow(x: real, p: nat)
    requires x < p as real + 1.0
    ensures p >= 1 ==> x.Floor < 2 * p
  {
  }

  // --- Where a low estimate does not fit ---

  lemma Binary32Bias()
    ensures BINARY32.EMax() == 255 && BINARY32.EBias() == 127
  {
    assert Pow2(8) == 256;
  }

  // The position of a number from 1 on, below 2.
  lemma PositionAboveOne(v: real)
    requires 1.0 <= v < 2.0
    ensures IsExponent(v, 0) && Position(BINARY32, v, 0) == Scale(v, 23)
  {
    Binary32Bias();
    assert Field(BINARY32, 0) == 127 && BINARY32.mLen == 23;
    ScaleZero(v);
    assert Scale(v, 127 - 127) == v;
  }

  // 1 + m * 2^-26 is a double with an integer of 27 bits.
  lemma DoubleAboveOne(v: real, m: nat, bits: nat)
    requires bits == 26 && v == 1.0 + Scale(m as real, 0 - bits as int) && m < Pow2(bits)
    ensures IsDouble(v, Pow2(bits) + m, 0 - bits as int)
  {
    OneAndFraction(m, bits, 0 - bits as int);
    Pow2Add(bits + 1, 52 - bits);
    MulMonotone(1, Pow2(52 - bits), Pow2(bits + 1));
  }

  lemma OneAndFraction(m: nat, k: nat, down: int)
    requires down + k == 0
    ensures 1.0 + Scale(m as real, down) == Scale((Pow2(k) + m) as real, down)
  {
    ScaleOne(k);
    ScaleScale(1.0, k, down);
    ScaleZero(1.0);
    ScaleSum(Pow2(k) as real, m as real, down);
  }

  // It stands m / 8 units above the base of its binade.
  lemma AboveOne(v: real, m: nat)
    requires v == 1.0 + Scale(m as real, -26) && m < Pow2(26)
    ensures IsExponent(v, 0) && Position(BINARY32, v, 0) == Pow2(23) as real + m as real / 8.0
  {
    ScaleScale(m as real, -26, 23);
    ScaleSum(1.0, Scale(m as real, -26), 23);
    ScaleOne(23);
    ScaledEighth(m as real);
    EighthsBelow(m, Pow2(23));
    RangeAboveOne(v, Pow2(23) as real + m as real / 8.0);
    PositionAboveOne(v);
  }

  lemma ScaledEighth(m: real)
    ensures Scale(m, -3) == m / 8.0
  {
    assert Exp2(-3) == 0.125;
  }

  lemma EighthsBelow(m: nat, p: nat)
    requires p == Pow2(23) && m < Pow2(26)
    ensures p as real + m as real / 8.0 < (2 * p) as real
  {
    Pow2Add(23, 3);
    assert Pow2(3) == 8;
  }

  lemma RangeAboveOne(v: real, x: real)
    requires Scale(v, 23) == x && Pow2(23) as real <= x < (2 * Pow2(23)) as real
    ensures 1.0 <= v < 2.0
  {
    ScaleOne(23);
    ScaleSum(1.0, 1.0, 23);
    if v < 1.0 {
      ScaleStrict(v, 1.0, 23);
    } else if v >= 2.0 {
      ScaleMonotone(2.0, v, 23);
    }
  }

  // 5/8 of a unit above 1: the halved nudge carries nothing, and 1 is written.
  lemma LowEstimateCutsDown(v: real)
    requires v == 1.0 + Scale(5 as real, -26)
    ensures IsDouble(v, Pow2(26) + 5, -26) && IsExponent(v, 0) && !LowEstimateFits(BINARY32, v, 0)
  {
    Pow2Add(23, 3);
    assert Pow2(3) == 8;
    DoubleAboveOne(v, 5, 26);
    AboveOne(v, 5);
    Binary32Bias();
    FloorOf(Position(BINARY32, v, 0), Pow2(23), 0.625);
    HalvedUnits(BINARY32, v, 0);
    BelowTop(BINARY32, Scale(v, 0) + Slack(BINARY32, 0, -1));
  }

  lemma FloorOf(x: real, w: int, fraction: real)
    requires x == w as real + fraction && 0.0 <= fraction < 1.0
    ensures x.Floor == w
  {
  }

  // 1/8 of a unit below 2: the carry meets the odd exponent of 1, and 1 is written.
  lemma LowEstimateLosesCarry(v: real)
    requires v == 1.0 + Scale((Pow2(26) - 1) as real, -26)
    ensures IsDouble(v, Pow2(26) + (Pow2(26) - 1), -26) && IsExponent(v, 0) && !LowEstimateFits(BINARY32, v, 0)
    ensures Encodes(BINARY32, FiniteFields(BINARY32, v, -1), ShiftLeft(127, 23))
    ensures Magnitude(BINARY32, ShiftLeft(127, 23)) == 1.0
  {
    DoubleAboveOne(v, Pow2(26) - 1, 26);
    AboveOne(v, Pow2(26) - 1);
    Binary32Bias();
    CarriesAtTop(v);
    TopCode(BINARY32, v, 0);
    OneIsBase();
  }

  lemma CarriesAtTop(v: real)
    requires IsExponent(v, 0)
    requires Position(BINARY32, v, 0) == Pow2(23) as real + (Pow2(26) - 1) as real / 8.0
    ensures Scale(v, 0) + Slack(BINARY32, 0, -1) >= 2.0
  {
    Pow2Add(23, 3);
    assert Pow2(3) == 8;
    Binary32Bias();
    HalvedUnits(BINARY32, v, 0);
    Exp2Monotone(-55, -3);
    assert Exp2(-3) == 0.125;
    BelowTop(BINARY32, Scale(v, 0) + Slack(BINARY32, 0, -1));
  }

  lemma OneIsBase()
    ensures Magnitude(BINARY32, ShiftLeft(127, 23)) == 1.0
  {
    Binary32Bias();
    ShiftLeftStep(126, 23);
    MagnitudeOfUnits(BINARY32, 127, Pow2(23));
    ScaleOne(23);
    ScaleScale(1.0, 23, -23);
    ScaleZero(1.0);
  }
}
