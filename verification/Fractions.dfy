/** Fractions as values: the normal form, the real number a fraction denotes, arithmetic
    defined by one final reduction, and the reductions by partial gcds that refine it. */
module Fractions {
  import opened NumberTheory

  datatype Fraction = Fraction(n: int, d: int)

  /** The class invariant of `rational`: positive denominator, nothing left to cancel. */
  predicate Normal(f: Fraction) {
    f.d > 0 && Coprime(f.n, f.d)
  }

  ghost function Val(f: Fraction): (v: real)
    requires f.d != 0
    ensures v * f.d as real == f.n as real
  {
    f.n as real / f.d as real
  }

  /** In normal form no number but one divides both parts. */
  lemma NormalMeans(f: Fraction)
    ensures Normal(f) <==> f.d > 0 && forall e: nat :: Divides(e, f.n) && Divides(e, f.d) ==> e == 1
  {
    if Normal(f) {
      forall e: nat | Divides(e, f.n) && Divides(e, f.d) ensures e == 1 {
        CommonDivisorOfCoprime(e, f.n, f.d);
      }
    }
    if f.d > 0 && forall e: nat :: Divides(e, f.n) && Divides(e, f.d) ==> e == 1 {
      CoprimeFromDivisors(f.n, f.d);
    }
  }

  predicate SameValue(a: Fraction, b: Fraction) {
    a.n * b.d == b.n * a.d
  }

  lemma CrossReal(an: real, ad: real, bn: real, bd: real)
    requires ad > 0.0 && bd > 0.0
    ensures an / ad == bn / bd <==> an * bd == bn * ad
    ensures an / ad < bn / bd <==> an * bd < bn * ad
  {
    var x, y := an / ad, bn / bd;
    assert x * ad == an && y * bd == bn;
    assert an * bd == x * (ad * bd) && bn * ad == y * (ad * bd);
    RealScale(x, y, ad * bd);
  }

  lemma RealScale(x: real, y: real, c: real)
    requires c > 0.0
    ensures x == y <==> x * c == y * c
    ensures x < y <==> x * c < y * c
  {
  }

  lemma IntProductReal(a: int, b: int)
    ensures (a * b) as real == (a as real) * (b as real)
  {
  }

  lemma Cross(a: Fraction, b: Fraction)
    requires a.d > 0 && b.d > 0
    ensures Val(a) == Val(b) <==> SameValue(a, b)
    ensures Val(a) < Val(b) <==> a.n * b.d < b.n * a.d
  {
    CrossReal(a.n as real, a.d as real, b.n as real, b.d as real);
    IntProductReal(a.n, b.d);
    IntProductReal(b.n, a.d);
  }

  /** Two fractions in normal form that denote the same number are the same fraction, so the
      componentwise `operator==` decides equality of values. */
  lemma Canonical(a: Fraction, b: Fraction)
    requires Normal(a) && Normal(b)
    ensures a == b <==> SameValue(a, b)
    ensures a == b <==> Val(a) == Val(b)
  {
    Cross(a, b);
    if SameValue(a, b) {
      DenominatorDivides(a.n, a.d, b.n, b.d);
      DenominatorDivides(b.n, b.d, a.n, a.d);
      DividesAntisymmetric(a.d, b.d);
      CancelFactor(a.d, a.n, b.n);
    }
  }

  lemma DenominatorDivides(an: int, ad: int, bn: int, bd: int)
    requires Coprime(an, ad) && an * bd == bn * ad
    ensures Divides(ad, bd)
  {
    DividesMultiple(ad, bn);
    CoprimeSymmetric(an, ad);
    EuclidsLemma(ad, an, bd);
  }

  // ----- reduction by the full gcd -----

  function Reduce(n: int, d: int): (f: Fraction)
    requires d != 0
  {
    GcdPositive(n, d);
    var g := Gcd(n, d);
    if d > 0 then Fraction(TDiv(n, g), TDiv(d, g)) else Fraction(-TDiv(n, g), -TDiv(d, g))
  }

  lemma ReduceFacts(n: int, d: int)
    requires d != 0
    ensures Normal(Reduce(n, d)) && SameValue(Reduce(n, d), Fraction(n, d))
  {
    GcdPositive(n, d);
    GcdDivides(n, d);
    var g := Gcd(n, d);
    DivideOut(n, g);
    DivideOut(d, g);
    var n1, d1 := TDiv(n, g), TDiv(d, g);
    GcdQuotients(n, d, n1, d1);
    GcdOfNegation(n1, d1);
    GcdOfNegation(-n1, d1);
    SignOfProduct(d1, g);
    CrossReduced(n1, d1, g);
  }

  lemma CrossReduced(n1: int, d1: int, g: int)
    ensures n1 * (d1 * g) == (n1 * g) * d1
    ensures -n1 * (d1 * g) == (n1 * g) * -d1
  {
  }

  lemma SignOfProduct(k: int, g: int)
    requires g > 0
    ensures k > 0 <==> k * g > 0
    ensures k < 0 <==> k * g < 0
  {
  }

  /** The reduced form is the only normal fraction with that value. */
  lemma ReduceUnique(f: Fraction, n: int, d: int)
    requires d > 0 && Normal(f) && SameValue(f, Fraction(n, d))
    ensures f == Reduce(n, d)
  {
    ReduceFacts(n, d);
    var r := Reduce(n, d);
    Cross(f, Fraction(n, d));
    Cross(r, Fraction(n, d));
    Canonical(f, r);
  }

  // ----- arithmetic with one final reduction -----

  function Add(a: Fraction, b: Fraction): Fraction
    requires a.d > 0 && b.d > 0
  {
    Positive(a.d, b.d);
    Reduce(a.n * b.d + b.n * a.d, a.d * b.d)
  }

  function Negate(a: Fraction): Fraction {
    Fraction(-a.n, a.d)
  }

  function Mul(a: Fraction, b: Fraction): Fraction
    requires a.d > 0 && b.d > 0
  {
    Positive(a.d, b.d);
    Reduce(a.n * b.n, a.d * b.d)
  }

  /** The reciprocal of a nonzero fraction, with a positive denominator. */
  function Inverse(a: Fraction): (f: Fraction)
    requires a.n != 0
    ensures f.d > 0
  {
    if a.n > 0 then Fraction(a.d, a.n) else Fraction(-a.d, -a.n)
  }

  function Integer(i: int): Fraction {
    Fraction(i, 1)
  }

  lemma Positive(a: int, b: int)
    requires a > 0 && b > 0
    ensures a * b > 0
  {
  }

  lemma IntegerNormal(i: int)
    ensures Normal(Integer(i))
  {
    CoprimeFromBezout(i, 1, 0, 1);
  }

  lemma IntegerVal(i: int)
    ensures Val(Integer(i)) == i as real
  {
  }

  lemma NegateNormal(a: Fraction)
    requires Normal(a)
    ensures Normal(Negate(a))
  {
    GcdOfNegation(a.n, a.d);
  }

  lemma InverseNormal(a: Fraction)
    requires Normal(a) && a.n != 0
    ensures Normal(Inverse(a))
  {
    CoprimeSymmetric(a.n, a.d);
    GcdOfNegation(a.d, a.n);
    GcdOfNegation(-a.d, a.n);
  }

  // ----- the value of each operation -----

  lemma QuotientSum(an: real, ad: real, bn: real, bd: real)
    requires ad > 0.0 && bd > 0.0
    ensures ad * bd > 0.0 && (an * bd + bn * ad) / (ad * bd) == an / ad + bn / bd
  {
    var x, y := an / ad, bn / bd;
    assert x * ad == an && y * bd == bn;
    assert an * bd == x * (ad * bd) && bn * ad == y * (ad * bd);
    assert (x + y) * (ad * bd) == an * bd + bn * ad;
  }

  lemma QuotientProduct(an: real, ad: real, bn: real, bd: real)
    requires ad > 0.0 && bd > 0.0
    ensures ad * bd > 0.0 && (an * bn) / (ad * bd) == (an / ad) * (bn / bd)
  {
    var x, y := an / ad, bn / bd;
    assert x * ad == an && y * bd == bn;
    assert (x * ad) * (y * bd) == (x * y) * (ad * bd);
  }

  lemma RawSum(a: Fraction, b: Fraction)
    requires a.d > 0 && b.d > 0
    ensures a.d * b.d > 0 && Val(Fraction(a.n * b.d + b.n * a.d, a.d * b.d)) == Val(a) + Val(b)
  {
    Positive(a.d, b.d);
    IntProductReal(a.n, b.d);
    IntProductReal(b.n, a.d);
    IntProductReal(a.d, b.d);
    QuotientSum(a.n as real, a.d as real, b.n as real, b.d as real);
  }

  lemma RawProduct(a: Fraction, b: Fraction)
    requires a.d > 0 && b.d > 0
    ensures a.d * b.d > 0 && Val(Fraction(a.n * b.n, a.d * b.d)) == Val(a) * Val(b)
  {
    Positive(a.d, b.d);
    IntProductReal(a.n, b.n);
    IntProductReal(a.d, b.d);
    QuotientProduct(a.n as real, a.d as real, b.n as real, b.d as real);
  }

  lemma AddVal(a: Fraction, b: Fraction)
    requires a.d > 0 && b.d > 0
    ensures Normal(Add(a, b)) && Val(Add(a, b)) == Val(a) + Val(b)
  {
    var raw := Fraction(a.n * b.d + b.n * a.d, a.d * b.d);
    RawSum(a, b);
    ReduceFacts(raw.n, raw.d);
    Cross(Add(a, b), raw);
  }

  lemma MulVal(a: Fraction, b: Fraction)
    requires a.d > 0 && b.d > 0
    ensures Normal(Mul(a, b)) && Val(Mul(a, b)) == Val(a) * Val(b)
  {
    var raw := Fraction(a.n * b.n, a.d * b.d);
    RawProduct(a, b);
    ReduceFacts(raw.n, raw.d);
    Cross(Mul(a, b), raw);
  }

  lemma NegateVal(a: Fraction)
    requires a.d > 0
    ensures Val(Negate(a)) == -Val(a)
  {
    var x := Val(a);
    assert x * (a.d as real) == a.n as real;
    assert (-x) * (a.d as real) == -(a.n as real);
  }

  lemma InverseVal(a: Fraction)
    requires a.d > 0 && a.n != 0
    ensures Inverse(a).d > 0 && Val(Inverse(a)) * Val(a) == 1.0
  {
    QuotientProduct(Inverse(a).n as real, Inverse(a).d as real, a.n as real, a.d as real);
    var p, q := (Inverse(a).n as real) * (a.n as real), (Inverse(a).d as real) * (a.d as real);
    assert p == q by {
      assert Inverse(a).n * a.n == Inverse(a).d * a.d;
      IntProductReal(Inverse(a).n, a.n);
      IntProductReal(Inverse(a).d, a.d);
    }
    assert p / q == 1.0;
  }

  // ----- laws of the normal forms -----

  lemma AddCommutes(a: Fraction, b: Fraction)
    requires a.d > 0 && b.d > 0
    ensures Add(a, b) == Add(b, a)
  {
    AddVal(a, b);
    AddVal(b, a);
    Canonical(Add(a, b), Add(b, a));
  }

  lemma AddAssociates(a: Fraction, b: Fraction, c: Fraction)
    requires a.d > 0 && b.d > 0 && c.d > 0
    ensures Normal(Add(a, b)) && Normal(Add(b, c))
    ensures Add(Add(a, b), c) == Add(a, Add(b, c))
  {
    AddVal(a, b);
    AddVal(b, c);
    AddVal(Add(a, b), c);
    AddVal(a, Add(b, c));
    Canonical(Add(Add(a, b), c), Add(a, Add(b, c)));
  }

  lemma MulCommutes(a: Fraction, b: Fraction)
    requires a.d > 0 && b.d > 0
    ensures Mul(a, b) == Mul(b, a)
  {
    MulVal(a, b);
    MulVal(b, a);
    Canonical(Mul(a, b), Mul(b, a));
  }

  lemma RealAssociative(x: real, y: real, z: real)
    ensures (x * y) * z == x * (y * z)
  {
  }

  lemma MulLeftVal(a: Fraction, b: Fraction, c: Fraction)
    requires a.d > 0 && b.d > 0 && c.d > 0
    ensures Normal(Mul(a, b)) && Normal(Mul(Mul(a, b), c))
    ensures Val(Mul(Mul(a, b), c)) == (Val(a) * Val(b)) * Val(c)
  {
    MulVal(a, b);
    MulVal(Mul(a, b), c);
  }

  lemma MulRightVal(a: Fraction, b: Fraction, c: Fraction)
    requires a.d > 0 && b.d > 0 && c.d > 0
    ensures Normal(Mul(b, c)) && Normal(Mul(a, Mul(b, c)))
    ensures Val(Mul(a, Mul(b, c))) == Val(a) * (Val(b) * Val(c))
  {
    MulVal(b, c);
    MulVal(a, Mul(b, c));
  }

  lemma RealUndo(x: real, y: real, z: real)
    requires z * y == 1.0
    ensures (x * y) * z == x
  {
    assert (x * y) * z == x * (z * y);
  }

  lemma RealDistributive(x: real, y: real, z: real)
    ensures x * (y + z) == x * y + x * z
  {
  }

  lemma MulAssociates(a: Fraction, b: Fraction, c: Fraction)
    requires a.d > 0 && b.d > 0 && c.d > 0
    ensures Normal(Mul(a, b)) && Normal(Mul(b, c))
    ensures Mul(Mul(a, b), c) == Mul(a, Mul(b, c))
  {
    MulLeftVal(a, b, c);
    MulRightVal(a, b, c);
    RealAssociative(Val(a), Val(b), Val(c));
    Canonical(Mul(Mul(a, b), c), Mul(a, Mul(b, c)));
  }

  lemma MulDistributes(a: Fraction, b: Fraction, c: Fraction)
    requires a.d > 0 && b.d > 0 && c.d > 0
    ensures Normal(Add(b, c)) && Normal(Mul(a, b)) && Normal(Mul(a, c))
    ensures Mul(a, Add(b, c)) == Add(Mul(a, b), Mul(a, c))
  {
    AddVal(b, c);
    MulVal(a, b);
    MulVal(a, c);
    MulVal(a, Add(b, c));
    AddVal(Mul(a, b), Mul(a, c));
    RealDistributive(Val(a), Val(b), Val(c));
    Canonical(Mul(a, Add(b, c)), Add(Mul(a, b), Mul(a, c)));
  }

  /** Subtracting what was added, or dividing by what was multiplied, gives the operand back. */
  lemma AddUndone(a: Fraction, b: Fraction)
    requires Normal(a) && b.d > 0
    ensures Normal(Add(a, b)) && Add(Add(a, b), Negate(b)) == a
  {
    AddVal(a, b);
    NegateVal(b);
    AddVal(Add(a, b), Negate(b));
    Canonical(Add(Add(a, b), Negate(b)), a);
  }

  lemma MulUndone(a: Fraction, b: Fraction)
    requires Normal(a) && b.d > 0 && b.n != 0
    ensures Normal(Mul(a, b)) && Inverse(b).d > 0 && Mul(Mul(a, b), Inverse(b)) == a
  {
    hide Coprime, Mul, Inverse, Val;
    InverseVal(b);
    MulLeftVal(a, b, Inverse(b));
    RealUndo(Val(a), Val(b), Val(Inverse(b)));
    Canonical(Mul(Mul(a, b), Inverse(b)), a);
  }

  // ----- order -----

  predicate LessThan(a: Fraction, b: Fraction) {
    a.n * b.d < b.n * a.d
  }

  /** It is the order of the values. */
  lemma LessIsOrderOfValues(a: Fraction, b: Fraction)
    requires a.d > 0 && b.d > 0
    ensures LessThan(a, b) <==> Val(a) < Val(b)
  {
    Cross(a, b);
  }

  /** `operator<` is a strict total order on normal forms. */
  lemma LessIsStrictTotalOrder(a: Fraction, b: Fraction, c: Fraction)
    requires Normal(a) && Normal(b) && Normal(c)
    ensures !LessThan(a, a)
    ensures LessThan(a, b) && LessThan(b, c) ==> LessThan(a, c)
    ensures a == b || LessThan(a, b) || LessThan(b, a)
    ensures LessThan(a, b) ==> a != b && !LessThan(b, a)
  {
    Cross(a, b);
    Cross(b, a);
    Cross(b, c);
    Cross(a, c);
    Canonical(a, b);
  }

  /** The order is compatible with `+=`. */
  lemma LessRespectsAdd(a: Fraction, b: Fraction, c: Fraction)
    requires a.d > 0 && b.d > 0 && c.d > 0
    ensures LessThan(a, b) <==> LessThan(Add(a, c), Add(b, c))
  {
    AddVal(a, c);
    AddVal(b, c);
    Cross(a, b);
    Cross(Add(a, c), Add(b, c));
  }
}
