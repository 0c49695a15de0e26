// Powers of two and of 256, over the naturals and over the reals, with the laws
// the byte codecs need.
module Powers {
  import opened Division

  function Pow2(n: nat): (r: nat)
    ensures r > 0
  {
    if n == 0 then 1 else 2 * Pow2(n - 1)
  }

  lemma {:induction false} Pow2Add(a: nat, b: nat)
    ensures Pow2(a + b) == Pow2(a) * Pow2(b)
  {
    if a > 0 {
      Pow2Add(a - 1, b);
      DoubleNat(Pow2(a - 1), Pow2(b));
    }
  }

  lemma DoubleNat(x: nat, y: nat)
    ensures (2 * x) * y == 2 * (x * y)
  {
  }

  // n >> k, and n & ((1 << k) - 1).
  function ShiftRight(n: nat, k: nat): nat {
    Quot(n, Pow2(k))
  }

  function LowBits(n: nat, k: nat): nat {
    Rem(n, Pow2(k))
  }

  // Shifts compose, and taking low bits commutes with shifting.
  lemma ShiftSplit(n: nat, a: nat, b: nat)
    ensures ShiftRight(ShiftRight(n, a), b) == ShiftRight(n, a + b)
    ensures ShiftRight(LowBits(n, a + b), a) == LowBits(ShiftRight(n, a), b)
    ensures LowBits(LowBits(n, a + b), a) == LowBits(n, a)
  {
    Pow2Add(a, b);
    Split(n, Pow2(a), Pow2(b));
    ModSplit(n, Pow2(a), Pow2(b));
  }

  lemma ByteSplit(n: nat)
    ensures ShiftRight(n, 8) == n / 256 && LowBits(n, 8) == n % 256
  {
    assert Pow2(8) == 256;
  }

  // The JavaScript | on naturals.
  function BitOr(a: nat, b: nat): (r: nat)
    decreases a + b
  {
    if a == 0 then b
    else if b == 0 then a
    else 2 * BitOr(a / 2, b / 2) + if a % 2 == 1 || b % 2 == 1 then 1 else 0
  }

  // high << k
  function ShiftLeft(high: nat, k: nat): (r: nat) {
    high * Pow2(k)
  }

  lemma BitOrHalf(a: nat, b: nat)
    ensures BitOr(a, b) / 2 == BitOr(a / 2, b / 2)
    ensures a % 2 == 0 ==> BitOr(a, b) % 2 == b % 2
  {
  }

  lemma ShiftLeftSucc(high: nat, k: nat)
    ensures ShiftLeft(high, k + 1) == 2 * ShiftLeft(high, k)
  {
    DoubleNat(Pow2(k), high);
  }

  lemma ShiftLeftStep(high: nat, k: nat)
    ensures ShiftLeft(high + 1, k) == ShiftLeft(high, k) + Pow2(k)
  {
  }

  lemma ShiftLeftMonotone(a: nat, b: nat, k: nat)
    requires a <= b
    ensures ShiftLeft(a, k) <= ShiftLeft(b, k)
  {
    MulMonotone(a, b, Pow2(k));
  }

  // Or-ing into the cleared low bits is addition.
  lemma {:induction false} OrIsSum(high: nat, low: nat, k: nat)
    requires low < Pow2(k)
    ensures BitOr(ShiftLeft(high, k), low) == ShiftLeft(high, k) + low
    decreases k
  {
    if k > 0 {
      ShiftLeftSucc(high, k - 1);
      OrIsSum(high, low / 2, k - 1);
      BitOrHalf(ShiftLeft(high, k), low);
    } else {
      assert ShiftLeft(high, k) == high;
    }
  }

  // Dropping j of the k cleared low bits.
  lemma {:induction false} ShiftOr(high: nat, low: nat, k: nat, j: nat)
    requires j <= k
    ensures ShiftRight(BitOr(ShiftLeft(high, k), low), j) == BitOr(ShiftLeft(high, k - j), ShiftRight(low, j))
    ensures LowBits(BitOr(ShiftLeft(high, k), low), j) == LowBits(low, j)
    decreases j
  {
    var n := BitOr(ShiftLeft(high, k), low);
    if j == 0 {
      HalfStep(n, 0);
      HalfStep(low, 0);
    } else {
      HalfOr(high, low, k);
      ShiftOr(high, low / 2, k - 1, j - 1);
      HalfStep(n, j - 1);
      HalfStep(low, j - 1);
    }
  }

  lemma HalfOr(high: nat, low: nat, k: nat)
    requires k > 0
    ensures BitOr(ShiftLeft(high, k), low) / 2 == BitOr(ShiftLeft(high, k - 1), low / 2)
    ensures BitOr(ShiftLeft(high, k), low) % 2 == low % 2
  {
    ShiftLeftSucc(high, k - 1);
    BitOrHalf(ShiftLeft(high, k), low);
  }

  lemma HalfStep(n: nat, j: nat)
    ensures ShiftRight(n, 0) == n && LowBits(n, 0) == 0
    ensures ShiftRight(n, j + 1) == ShiftRight(n / 2, j)
    ensures LowBits(n, j + 1) == 2 * LowBits(n / 2, j) + n % 2
  {
    Split(n, 2, Pow2(j));
  }

  lemma OrDouble(x: nat, y: nat)
    ensures BitOr(2 * x, 2 * y) == 2 * BitOr(x, y)
  {
    BitOrHalf(2 * x, 2 * y);
  }

  lemma {:induction false} OrShifted(a: nat, b: nat, k: nat)
    ensures BitOr(ShiftLeft(a, k), ShiftLeft(b, k)) == ShiftLeft(BitOr(a, b), k)
    decreases k
  {
    if k == 0 {
      assert ShiftLeft(a, 0) == a && ShiftLeft(b, 0) == b;
    } else {
      ShiftLeftSucc(a, k - 1);
      ShiftLeftSucc(b, k - 1);
      ShiftLeftSucc(BitOr(a, b), k - 1);
      OrShifted(a, b, k - 1);
      OrDouble(ShiftLeft(a, k - 1), ShiftLeft(b, k - 1));
    }
  }

  lemma {:induction false} OrBound(a: nat, b: nat, k: nat)
    requires a < Pow2(k) && b < Pow2(k)
    ensures BitOr(a, b) < Pow2(k)
    decreases k
  {
    if k > 0 {
      OrBound(a / 2, b / 2, k - 1);
      BitOrHalf(a, b);
    }
  }

  // 2 to a possibly negative power.
  function Exp2(k: int): (r: real)
    ensures r > 0.0
    decreases if k < 0 then -k else k
  {
    if k == 0 then 1.0
    else if k > 0 then 2.0 * Exp2(k - 1)
    else 0.5 * Exp2(k + 1)
  }

  // v * 2^k, the only real product the float codec forms with a power of two.
  function Scale(v: real, k: int): (r: real) {
    v * Exp2(k)
  }

  lemma Exp2Succ(k: int)
    ensures Exp2(k + 1) == 2.0 * Exp2(k)
  {
  }

  lemma DoubleProduct(v: real, p: real, q: real)
    requires q == 2.0 * p
    ensures v * q == 2.0 * (v * p)
  {
  }

  lemma ScaleSucc(v: real, k: int)
    ensures Scale(v, k + 1) == 2.0 * Scale(v, k)
  {
    Exp2Succ(k);
    DoubleProduct(v, Exp2(k), Exp2(k + 1));
  }

  lemma ScaleZero(v: real)
    ensures Scale(v, 0) == v
  {
    assert Exp2(0) == 1.0;
  }

  // Scaling by 2^a and then by 2^b is scaling by 2^(a+b).
  lemma {:induction false} ScaleScale(v: real, a: int, b: int)
    ensures Scale(Scale(v, a), b) == Scale(v, a + b)
    decreases if b < 0 then -b else b
  {
    if b == 0 {
      ScaleZero(Scale(v, a));
    } else if b > 0 {
      ScaleScale(v, a, b - 1);
      ScaleSucc(Scale(v, a), b - 1);
      ScaleSucc(v, a + b - 1);
    } else {
      ScaleScale(v, a, b + 1);
      ScaleSucc(Scale(v, a), b);
      ScaleSucc(v, a + b);
    }
  }

  lemma ScaleSum(v: real, w: real, k: int)
    ensures Scale(v + w, k) == Scale(v, k) + Scale(w, k)
  {
    Distribute(v, w, Exp2(k));
  }

  lemma Distribute(v: real, w: real, p: real)
    ensures (v + w) * p == v * p + w * p
  {
  }

  lemma ScaleMonotone(v: real, w: real, k: int)
    requires v <= w
    ensures Scale(v, k) <= Scale(w, k)
  {
    Distribute(w - v, v, Exp2(k));
  }

  lemma ScaleStrict(v: real, w: real, k: int)
    requires v < w
    ensures Scale(v, k) < Scale(w, k)
  {
    Distribute(w - v, v, Exp2(k));
    ProductPositive(w - v, Exp2(k));
  }

  lemma ProductPositive(x: real, y: real)
    requires x > 0.0 && y > 0.0
    ensures x * y > 0.0
  {
  }

  lemma ScaleSign(v: real, k: int)
    ensures v >= 0.0 <==> Scale(v, k) >= 0.0
  {
    if v < 0.0 {
      ScaleStrict(v, 0.0, k);
    } else {
      ScaleMonotone(0.0, v, k);
    }
  }

  lemma {:induction false} ScaleExponentMonotone(v: real, a: int, b: int)
    requires a <= b && v >= 0.0
    ensures Scale(v, a) <= Scale(v, b)
    decreases b - a
  {
    if a < b {
      ScaleExponentMonotone(v, a, b - 1);
      ScaleSucc(v, b - 1);
      ScaleSign(v, b - 1);
    }
  }

  lemma ScaleOne(k: nat)
    ensures Scale(1.0, k) == Pow2(k) as real
  {
    Exp2OfNat(k);
  }

  lemma {:induction false} Exp2OfNat(n: nat)
    ensures Exp2(n) == Pow2(n) as real
  {
    if n > 0 {
      Exp2OfNat(n - 1);
    }
  }

  lemma {:induction false} Exp2Monotone(a: int, b: int)
    requires a <= b
    ensures Exp2(a) <= Exp2(b)
    decreases b - a
  {
    if a < b {
      Exp2Monotone(a, b - 1);
      Exp2Succ(b - 1);
    }
  }
}
