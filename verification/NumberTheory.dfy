/** Divisibility, greatest common divisors and truncated division: what the rational arithmetic
    rests on. `Gcd` stands for `integer::gcd`: the non-negative greatest common divisor. */
module NumberTheory {

  function Abs(x: int): (r: nat)
    ensures r == x || r == -x
  {
    if x < 0 then -x else x
  }

  /** C++ `/`: rounds toward zero. */
  function TDiv(a: int, b: int): int
    requires b != 0
  {
    if (a < 0) == (b < 0) then Abs(a) / Abs(b) else -(Abs(a) / Abs(b))
  }

  /** C++ `%`: takes the sign of the dividend. */
  function TMod(a: int, b: int): int
    requires b != 0
  {
    if a < 0 then -(Abs(a) % Abs(b)) else Abs(a) % Abs(b)
  }

  predicate Divides(d: int, a: int) {
    if d == 0 then a == 0 else a % d == 0
  }

  lemma ProductMagnitude(d: int, t: int)
    requires t != 0
    ensures Abs(d * t) >= Abs(d)
  {
    if d > 0 && t > 0 { assert d * t >= d; }
    if d > 0 && t < 0 { assert d * t <= -d; }
    if d < 0 && t > 0 { assert d * t <= d; }
    if d < 0 && t < 0 { assert d * t >= -d; }
  }

  lemma MultipleMod(d: int, k: int)
    requires d != 0
    ensures (d * k) % d == 0 && (d * k) / d == k
  {
    var q, r := (d * k) / d, (d * k) % d;
    assert d * k == d * q + r;
    assert r == d * (k - q);
    if k != q { ProductMagnitude(d, k - q); }
  }

  lemma DividesMultiple(d: int, k: int)
    ensures Divides(d, d * k) && Divides(d, k * d)
  {
    if d != 0 { MultipleMod(d, k); }
  }

  /** The cofactor of a divisor. */
  lemma Cofactor(d: int, a: int) returns (k: int)
    requires Divides(d, a)
    ensures a == d * k && a == k * d
  {
    if d == 0 { k := 0; } else { k := a / d; }
  }

  lemma DividesSum(d: int, a: int, b: int, x: int, y: int)
    requires Divides(d, a) && Divides(d, b)
    ensures Divides(d, a * x + b * y)
  {
    var j := Cofactor(d, a);
    var k := Cofactor(d, b);
    assert a * x + b * y == d * (j * x + k * y) by {
      assert a * x == d * (j * x);
      assert b * y == d * (k * y);
    }
    DividesMultiple(d, j * x + k * y);
  }

  lemma DividesProduct(d: int, a: int, x: int)
    requires Divides(d, a)
    ensures Divides(d, a * x) && Divides(d, x * a)
  {
    var k := Cofactor(d, a);
    assert a * x == d * (k * x);
    DividesMultiple(d, k * x);
  }

  lemma DividesTransitive(a: int, b: int, c: int)
    requires Divides(a, b) && Divides(b, c)
    ensures Divides(a, c)
  {
    var k := Cofactor(b, c);
    DividesProduct(a, b, k);
  }

  lemma DividesOne(d: nat)
    requires Divides(d, 1)
    ensures d == 1
  {
    var k := Cofactor(d, 1);
    ProductMagnitude(d, k);
  }

  lemma DividesAntisymmetric(a: nat, b: nat)
    requires Divides(a, b) && Divides(b, a)
    ensures a == b
  {
    if a != 0 && b != 0 {
      var j := Cofactor(a, b);
      var k := Cofactor(b, a);
      ProductMagnitude(a, j);
      ProductMagnitude(b, k);
    }
  }

  lemma DividesNegation(d: int, a: int)
    ensures Divides(d, a) <==> Divides(d, -a)
    ensures Divides(d, a) <==> Divides(-d, a)
  {
    if Divides(d, a) {
      var k := Cofactor(d, a);
      assert -a == d * -k && a == -d * -k;
      DividesMultiple(d, -k);
      DividesMultiple(-d, -k);
    }
    if Divides(d, -a) {
      var k := Cofactor(d, -a);
      assert a == d * -k;
      DividesMultiple(d, -k);
    }
    if Divides(-d, a) {
      var k := Cofactor(-d, a);
      assert a == d * -k;
      DividesMultiple(d, -k);
    }
  }

  lemma DividesAbs(d: int, a: int)
    ensures Divides(d, a) <==> Divides(d, Abs(a))
  {
    DividesNegation(d, a);
  }

  // ----- greatest common divisor -----

  function GcdNat(a: nat, b: nat): nat
    decreases b
  {
    if b == 0 then a else GcdNat(b, a % b)
  }

  function Gcd(a: int, b: int): nat {
    GcdNat(Abs(a), Abs(b))
  }

  lemma {:induction false} GcdNatBezout(a: nat, b: nat) returns (x: int, y: int)
    ensures a * x + b * y == GcdNat(a, b)
    decreases b
  {
    if b == 0 {
      x, y := 1, 0;
    } else {
      var u, v := GcdNatBezout(b, a % b);
      x, y := v, u - (a / b) * v;
      assert a == b * (a / b) + a % b;
      assert a * v == b * (a / b) * v + (a % b) * v;
      assert b * y == b * u - b * (a / b) * v by {
        assert b * (u - (a / b) * v) == b * u - b * ((a / b) * v);
        assert b * ((a / b) * v) == b * (a / b) * v;
      }
    }
  }

  lemma {:induction false} GcdNatDivides(a: nat, b: nat)
    ensures Divides(GcdNat(a, b), a) && Divides(GcdNat(a, b), b)
    decreases b
  {
    if b == 0 {
      DividesMultiple(a, 1);
      DividesMultiple(a, 0);
    } else {
      var g := GcdNat(a, b);
      GcdNatDivides(b, a % b);
      DividesSum(g, b, a % b, a / b, 1);
      assert b * (a / b) + (a % b) * 1 == a;
    }
  }

  lemma Bezout(a: int, b: int) returns (x: int, y: int)
    ensures a * x + b * y == Gcd(a, b)
  {
    x, y := GcdNatBezout(Abs(a), Abs(b));
    if a < 0 { assert Abs(a) * x == a * -x; x := -x; }
    if b < 0 { assert Abs(b) * y == b * -y; y := -y; }
  }

  lemma GcdDivides(a: int, b: int)
    ensures Divides(Gcd(a, b), a) && Divides(Gcd(a, b), b)
  {
    GcdNatDivides(Abs(a), Abs(b));
    DividesAbs(Gcd(a, b), a);
    DividesAbs(Gcd(a, b), b);
  }

  lemma GcdGreatest(d: int, a: int, b: int)
    requires Divides(d, a) && Divides(d, b)
    ensures Divides(d, Gcd(a, b))
  {
    var x, y := Bezout(a, b);
    DividesSum(d, a, b, x, y);
  }

  /** The gcd is the only natural number that divides both and is divisible by every common divisor. */
  lemma GcdUnique(a: int, b: int, g: nat)
    requires Divides(g, a) && Divides(g, b)
    requires forall d :: Divides(d, a) && Divides(d, b) ==> Divides(d, g)
    ensures g == Gcd(a, b)
  {
    GcdDivides(a, b);
    GcdGreatest(g, a, b);
    DividesAntisymmetric(g, Gcd(a, b));
  }

  lemma GcdSymmetric(a: int, b: int)
    ensures Gcd(a, b) == Gcd(b, a)
  {
    GcdDivides(a, b);
    GcdDivides(b, a);
    GcdGreatest(Gcd(a, b), b, a);
    GcdGreatest(Gcd(b, a), a, b);
    DividesAntisymmetric(Gcd(a, b), Gcd(b, a));
  }

  lemma GcdPositive(a: int, b: int)
    requires a != 0 || b != 0
    ensures Gcd(a, b) > 0
  {
    GcdDivides(a, b);
  }

  lemma GcdBound(a: int, b: int)
    ensures b != 0 ==> Gcd(a, b) <= Abs(b)
    ensures a != 0 ==> Gcd(a, b) <= Abs(a)
  {
    GcdDivides(a, b);
    if b != 0 { DivisorBound(Gcd(a, b), b); }
    if a != 0 { DivisorBound(Gcd(a, b), a); }
  }

  lemma DivisorBound(d: nat, a: int)
    requires Divides(d, a) && a != 0
    ensures d <= Abs(a)
  {
    var k := Cofactor(d, a);
    ProductMagnitude(d, k);
  }

  // ----- coprime numbers -----

  predicate Coprime(a: int, b: int) {
    Gcd(a, b) == 1
  }

  lemma CoprimeFromBezout(a: int, b: int, x: int, y: int)
    requires a * x + b * y == 1
    ensures Coprime(a, b)
  {
    GcdDivides(a, b);
    DividesSum(Gcd(a, b), a, b, x, y);
    DividesOne(Gcd(a, b));
  }

  /** Every common divisor of coprime numbers is a unit. */
  lemma CoprimeFromDivisors(a: int, b: int)
    requires forall d: nat :: Divides(d, a) && Divides(d, b) ==> d == 1
    ensures Coprime(a, b)
  {
    GcdDivides(a, b);
  }

  lemma CommonDivisorOfCoprime(d: nat, a: int, b: int)
    requires Coprime(a, b) && Divides(d, a) && Divides(d, b)
    ensures d == 1
  {
    GcdGreatest(d, a, b);
    DividesOne(d);
  }

  lemma CoprimeDivisor(a: int, b: int, d: int)
    requires Coprime(a, b) && Divides(d, a)
    ensures Coprime(d, b)
  {
    forall e: nat | Divides(e, d) && Divides(e, b) ensures e == 1 {
      DividesTransitive(e, d, a);
      CommonDivisorOfCoprime(e, a, b);
    }
    CoprimeFromDivisors(d, b);
  }

  lemma BezoutTimes(a: int, b: int, c: int, x: int, y: int)
    requires a * x + b * y == 1
    ensures a * (x * c) + (b * c) * y == c
  {
    calc {
      a * (x * c) + (b * c) * y;
      (a * x) * c + (b * y) * c;
      (a * x + b * y) * c;
      c;
    }
  }

  /** Euclid's lemma. */
  lemma EuclidsLemma(a: int, b: int, c: int)
    requires Coprime(a, b) && Divides(a, b * c)
    ensures Divides(a, c)
  {
    var x, y := Bezout(a, b);
    var m := b * c;
    DividesMultiple(a, 1);
    DividesSum(a, a, m, x * c, y);
    BezoutTimes(a, b, c, x, y);
  }

  lemma CoprimeProduct(a: int, b: int, c: int)
    requires Coprime(a, b) && Coprime(a, c)
    ensures Coprime(a, b * c)
  {
    forall d: nat | Divides(d, a) && Divides(d, b * c) ensures d == 1 {
      CoprimeDivisor(a, b, d);
      EuclidsLemma(d, b, c);
      CommonDivisorOfCoprime(d, a, c);
    }
    CoprimeFromDivisors(a, b * c);
  }

  lemma CoprimeSymmetric(a: int, b: int)
    ensures Coprime(a, b) <==> Coprime(b, a)
  {
    GcdSymmetric(a, b);
  }

  lemma FactorOut(g: int, a: int, b: int, x: int, y: int)
    ensures (a * g) * x + (b * g) * y == g * (a * x + b * y)
  {
    assert (a * g) * x == g * (a * x);
    assert (b * g) * y == g * (b * y);
    assert g * (a * x + b * y) == g * (a * x) + g * (b * y);
  }

  /** Dividing two numbers by their gcd leaves them coprime. */
  lemma GcdQuotients(a: int, b: int, a1: int, b1: int)
    requires a != 0 || b != 0
    requires a == a1 * Gcd(a, b) && b == b1 * Gcd(a, b)
    ensures Coprime(a1, b1)
  {
    var g := Gcd(a, b);
    GcdPositive(a, b);
    var x, y := Bezout(a, b);
    FactorOut(g, a1, b1, x, y);
    CancelFactor(g, a1 * x + b1 * y, 1);
    CoprimeFromBezout(a1, b1, x, y);
  }

  lemma GcdOfNegation(a: int, b: int)
    ensures Gcd(-a, b) == Gcd(a, b) == Gcd(a, -b)
  {
  }

  // ----- truncated division -----

  lemma NatDivision(m: nat, d: nat)
    requires d > 0
    ensures m == d * (m / d) + m % d && 0 <= m % d < d && 0 <= m / d
  {
  }

  lemma SignedProducts(d: int, q: int)
    ensures -d * -q == d * q && d * -q == -(d * q) && -d * q == -(d * q)
  {
  }

  /** The defining property of C++ `/` and `%`. */
  lemma TruncatedDivision(a: int, b: int)
    requires b != 0
    ensures a == b * TDiv(a, b) + TMod(a, b)
    ensures Abs(TMod(a, b)) < Abs(b)
    ensures a >= 0 ==> TMod(a, b) >= 0
    ensures a <= 0 ==> TMod(a, b) <= 0
  {
    var q, r := Abs(a) / Abs(b), Abs(a) % Abs(b);
    NatDivision(Abs(a), Abs(b));
    SignedProducts(b, q);
    assert TMod(a, b) == if a < 0 then -r else r;
    assert TDiv(a, b) == if (a < 0) == (b < 0) then q else -q;
  }

  lemma QuotientUnique(d: int, k: int, q: int, r: int)
    requires d * k == d * q + r && Abs(r) < Abs(d)
    ensures k == q
  {
    assert d * (k - q) == r;
    if k != q { ProductMagnitude(d, k - q); }
  }

  lemma ExactDivision(a: int, d: int, k: int)
    requires d != 0 && a == d * k
    ensures TDiv(a, d) == k
  {
    TruncatedDivision(a, d);
    QuotientUnique(d, k, TDiv(a, d), TMod(a, d));
  }

  /** A number divided by one of its divisors. */
  lemma DivideOut(a: int, d: int)
    requires d != 0 && Divides(d, a)
    ensures a == d * TDiv(a, d) && a == TDiv(a, d) * d
  {
    var k := Cofactor(d, a);
    ExactDivision(a, d, k);
  }

  lemma CancelFactor(c: int, a: int, b: int)
    requires c != 0 && c * a == c * b
    ensures a == b
  {
    assert c * (a - b) == 0;
    if a != b { ProductMagnitude(c, a - b); }
  }

  // ----- least common multiple -----

  /** `integer::lcm`: non-negative, zero when either argument is. */
  function Lcm(a: int, b: int): nat {
    if a == 0 || b == 0 then 0
    else
      GcdPositive(a, b);
      Product(Quotient(Abs(a), Gcd(a, b)), Abs(b))
  }

  function Quotient(m: nat, d: nat): nat
    requires d > 0
  {
    m / d
  }

  function Product(m: nat, k: nat): nat {
    m * k
  }

  lemma LcmForm(a: int, b: int) returns (a1: int, b1: int)
    requires a != 0 && b != 0
    ensures Abs(a) == a1 * Gcd(a, b) && Abs(b) == b1 * Gcd(a, b) && Coprime(a1, b1)
    ensures Lcm(a, b) == a1 * Abs(b) && Lcm(a, b) == Abs(a) * b1
  {
    var g := Gcd(a, b);
    GcdPositive(a, b);
    GcdDivides(a, b);
    DividesAbs(g, a);
    DividesAbs(g, b);
    a1 := Cofactor(g, Abs(a));
    b1 := Cofactor(g, Abs(b));
    MultipleMod(g, a1);
    assert Gcd(Abs(a), Abs(b)) == g;
    GcdQuotients(Abs(a), Abs(b), a1, b1);
    assert a1 * (b1 * g) == (a1 * g) * b1;
  }

  lemma LcmIsMultiple(a: int, b: int)
    ensures Divides(a, Lcm(a, b)) && Divides(b, Lcm(a, b))
  {
    if a == 0 || b == 0 {
      DividesMultiple(a, 0);
      DividesMultiple(b, 0);
    } else {
      var a1, b1 := LcmForm(a, b);
      DividesMultiple(Abs(a), b1);
      DividesMultiple(Abs(b), a1);
      DividesNegation(a, Lcm(a, b));
      DividesNegation(b, Lcm(a, b));
    }
  }

  lemma LcmLeast(a: int, b: int, m: int)
    requires Divides(a, m) && Divides(b, m)
    ensures Divides(Lcm(a, b), m)
  {
    if a != 0 && b != 0 {
      var g := Gcd(a, b);
      var a1, b1 := LcmForm(a, b);
      DividesNegation(a, m);
      DividesNegation(b, m);
      GcdPositive(a, b);
      CoprimeMultiples(g, a1, b1, Abs(a), Abs(b), m);
    }
  }

  lemma MulAssociative(a: int, b: int, c: int)
    ensures a * (b * c) == (a * b) * c
  {
  }

  lemma CancelCommon(g: nat, a: int, b: int, j: int, k: int)
    requires g > 0 && (a * g) * j == (b * g) * k
    ensures a * j == b * k
  {
    assert g * (a * j) == (a * g) * j;
    assert g * (b * k) == (b * g) * k;
    CancelFactor(g, a * j, b * k);
  }

  lemma CoprimeMultiples(g: nat, a1: int, b1: int, a: int, b: int, m: int)
    requires g > 0 && a == a1 * g && b == b1 * g && Coprime(a1, b1)
    requires Divides(a, m) && Divides(b, m)
    ensures Divides(a * b1, m)
  {
    var j := Cofactor(a, m);
    var k := Cofactor(b, m);
    CancelCommon(g, a1, b1, j, k);
    DividesMultiple(b1, k);
    CoprimeSymmetric(a1, b1);
    EuclidsLemma(b1, a1, j);
    var t := Cofactor(b1, j);
    MulAssociative(a, b1, t);
    DividesMultiple(a * b1, t);
  }

  lemma LcmDividesProduct(a: int, b: int)
    ensures Divides(Lcm(a, b), a * b)
  {
    DividesMultiple(a, b);
    DividesMultiple(b, a);
    LcmLeast(a, b, a * b);
  }
}
