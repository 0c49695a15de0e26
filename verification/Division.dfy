// Laws of division with remainder on the naturals, stated on plain variables so
// that the codecs can use them with any divisor.
module Division {

  function Quot(n: nat, d: nat): nat
    requires d > 0
  {
    n / d
  }

  function Rem(n: nat, d: nat): (r: nat)
    requires d > 0
    ensures r < d
  {
    n % d
  }

  lemma MulMonotone(x: nat, y: nat, a: nat)
    requires x <= y
    ensures a * x <= a * y
  {
    assert a * y == a * x + a * (y - x);
  }

  // Division with remainder has one answer.
  lemma DivUnique(n: nat, d: nat, q: nat, r: nat)
    requires r < d && n == d * q + r
    ensures n / d == q && n % d == r
  {
    var q0, r0 := n / d, n % d;
    assert n == d * q0 + r0;
    if q0 < q {
      MulMonotone(q0 + 1, q, d);
    } else if q < q0 {
      MulMonotone(q + 1, q0, d);
    }
  }

  // The parts of n = a * (b * q + r') + r.
  lemma Split(n: nat, a: nat, b: nat)
    requires a > 0 && b > 0
    ensures a * b > 0
    ensures n / a / b == n / (a * b)
    ensures n % (a * b) == a * (n / a % b) + n % a
  {
    var q, r := n / a, n % a;
    assert a * b > 0 by { MulMonotone(1, b, a); }
    SplitParts(n, a, b, a * b, q, r, q / b, q % b);
  }

  lemma SplitParts(n: nat, a: nat, b: nat, m: nat, q: nat, r: nat, q': nat, r': nat)
    requires m == a * b && m > 0 && r < a && r' < b
    requires n == a * q + r && q == b * q' + r'
    ensures n / m == q' && n % m == a * r' + r
  {
    QuotientBound(a, b, q', r', r, n);
    DivUnique(n, m, q', a * r' + r);
  }

  lemma QuotientBound(a: nat, b: nat, q': nat, r': nat, r: nat, n: nat)
    requires r < a && r' < b && n == a * (b * q' + r') + r
    ensures 0 <= a * r' + r < a * b
    ensures n == (a * b) * q' + (a * r' + r)
  {
    MulMonotone(r' + 1, b, a);
    assert a * (b * q' + r') == a * (b * q') + a * r';
    assert a * (b * q') == (a * b) * q';
  }

  // Taking the low digits and then splitting them again.
  lemma ModSplit(n: nat, a: nat, b: nat)
    requires a > 0 && b > 0
    ensures a * b > 0
    ensures n % (a * b) / a == n / a % b
    ensures n % (a * b) % a == n % a
  {
    Split(n, a, b);
    DivUnique(n % (a * b), a, n / a % b, n % a);
  }
}
