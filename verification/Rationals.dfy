/** The class `rational`: arithmetic in place by partial gcds, comparison by continued fractions. */
module Rationals {
  import opened NumberTheory
  import opened Fractions

  // ----- addition: dividing by gcd(num, g) is enough -----

  /** For a/b + c/d in normal form with g = gcd(b, d), b = b1 g, d = d1 g and
      n = a d1 + c b1, the numerator n shares no factor with b1 or d1. */
  lemma NumeratorCoprimeToCofactor(a: int, b: int, c: int, b1: int, d1: int, n: int)
    requires Coprime(a, b) && Divides(b1, b) && Coprime(b1, d1) && n == a * d1 + c * b1
    ensures Coprime(n, b1)
  {
    forall e: nat | Divides(e, n) && Divides(e, b1) ensures e == 1 {
      DividesSum(e, n, b1, 1, -c);
      assert n * 1 + b1 * -c == d1 * a;
      CoprimeDivisor(b1, d1, e);
      EuclidsLemma(e, d1, a);
      DividesTransitive(e, b1, b);
      CommonDivisorOfCoprime(e, a, b);
    }
    CoprimeFromDivisors(n, b1);
  }

  lemma CofactorThrough(h: nat, k: int, d1: int, g3: int)
    requires h > 0 && k * h == d1 * (g3 * h)
    ensures k == d1 * g3
  {
    assert h * (d1 * g3) == d1 * (g3 * h);
    CancelFactor(h, k, d1 * g3);
  }

  /** Dividing n by h = gcd(n, g) and the denominator by h leaves them coprime. */
  lemma PartialReductionCoprime(a: int, b: int, c: int, d: int, g: nat, b1: int, d1: int, n: int, h: nat, n1: int, k: int)
    requires b > 0 && d > 0 && Coprime(a, b) && Coprime(c, d)
    requires g == Gcd(b, d) && b == b1 * g && d == d1 * g
    requires n == a * d1 + c * b1 && h == Gcd(n, g) && n == n1 * h && d == k * h
    ensures Coprime(n1, b1 * k)
  {
    GcdPositive(b, d);
    GcdQuotients(b, d, b1, d1);
    DividesMultiple(b1, g);
    DividesMultiple(d1, g);
    NumeratorCoprimeToCofactor(a, b, c, b1, d1, n);
    CoprimeSymmetric(b1, d1);
    NumeratorCoprimeToCofactor(c, d, a, d1, b1, n);
    DividesMultiple(n1, h);
    CoprimeDivisor(n, b1, n1);
    CoprimeDivisor(n, d1, n1);
    GcdPositive(n, g);
    GcdDivides(n, g);
    var g3 := Cofactor(h, g);
    GcdQuotients(n, g, n1, g3);
    CofactorThrough(h, k, d1, g3);
    CoprimeProduct(n1, d1, g3);
    CoprimeProduct(n1, b1, k);
  }

  lemma PartialReductionValue(a: int, b: int, c: int, d: int, g: int, b1: int, d1: int, n: int, h: int, n1: int, k: int)
    requires b == b1 * g && d == d1 * g && n == a * d1 + c * b1 && n == n1 * h && d == k * h
    ensures n1 * (b * d) == (a * d + c * b) * (b1 * k)
  {
    calc {
      (a * d + c * b) * (b1 * k);
      { assert a * d == (a * d1) * g; assert c * b == (c * b1) * g; }
      (n * g) * (b1 * k);
      ((n1 * h) * g) * (b1 * k);
      { Regroup(n1, h, g, b1, k); }
      n1 * ((b1 * g) * (k * h));
      n1 * (b * d);
    }
  }

  lemma Regroup(n: int, h: int, g: int, b: int, k: int)
    ensures ((n * h) * g) * (b * k) == n * ((b * g) * (k * h))
  {
  }

  /** The result of `operator+=`: exactly the reduced sum. */
  lemma PartialReduction(x: Fraction, y: Fraction, g: nat, b1: int, d1: int, n: int, h: nat, n1: int, k: int)
    requires Normal(x) && Normal(y)
    requires g == Gcd(x.d, y.d) && x.d == b1 * g && y.d == d1 * g
    requires n == x.n * d1 + y.n * b1 && h == Gcd(n, g) && n == n1 * h && y.d == k * h
    ensures Fraction(n1, b1 * k) == Add(x, y)
  {
    PartialReductionCoprime(x.n, x.d, y.n, y.d, g, b1, d1, n, h, n1, k);
    PartialReductionValue(x.n, x.d, y.n, y.d, g, b1, d1, n, h, n1, k);
    GcdPositive(x.d, y.d);
    GcdPositive(n, g);
    SignOfProduct(b1, g);
    SignOfProduct(k, h);
    Positive(b1, k);
    Positive(x.d, y.d);
    ReduceUnique(Fraction(n1, b1 * k), x.n * y.d + y.n * x.d, x.d * y.d);
  }

  // ----- multiplication: cancelling crosswise is enough -----

  lemma CrossCancelCoprime(a: int, b: int, c: int, d: int, g1: nat, g2: nat, a1: int, d1: int, c2: int, b2: int)
    requires b > 0 && d > 0 && Coprime(a, b) && Coprime(c, d)
    requires g1 == Gcd(a, d) && g2 == Gcd(c, b)
    requires a == a1 * g1 && d == d1 * g1 && c == c2 * g2 && b == b2 * g2
    ensures Coprime(a1 * c2, b2 * d1)
  {
    GcdQuotients(a, d, a1, d1);
    GcdQuotients(c, b, c2, b2);
    DividesMultiple(a1, g1);
    DividesMultiple(d1, g1);
    DividesMultiple(c2, g2);
    DividesMultiple(b2, g2);
    CoprimeOfDivisors(a, b, a1, b2);
    CoprimeOfDivisors(c, d, c2, d1);
    CoprimeProduct(a1, b2, d1);
    CoprimeProduct(c2, b2, d1);
    CoprimeSymmetric(a1, b2 * d1);
    CoprimeSymmetric(c2, b2 * d1);
    CoprimeProduct(b2 * d1, a1, c2);
    CoprimeSymmetric(b2 * d1, a1 * c2);
  }

  lemma CoprimeOfDivisors(a: int, b: int, a1: int, b1: int)
    requires Coprime(a, b) && Divides(a1, a) && Divides(b1, b)
    ensures Coprime(a1, b1)
  {
    CoprimeDivisor(a, b, a1);
    CoprimeSymmetric(a1, b);
    CoprimeDivisor(b, a1, b1);
    CoprimeSymmetric(a1, b1);
  }

  lemma CrossCancelValue(a1: int, g1: int, b2: int, g2: int, c2: int, d1: int)
    ensures (a1 * c2) * ((b2 * g2) * (d1 * g1)) == ((a1 * g1) * (c2 * g2)) * (b2 * d1)
  {
    assert (a1 * c2) * ((b2 * g2) * (d1 * g1)) == (a1 * c2) * ((b2 * d1) * (g1 * g2));
    assert ((a1 * g1) * (c2 * g2)) * (b2 * d1) == (a1 * c2) * ((b2 * d1) * (g1 * g2));
  }

  /** The result of `operator*=`: exactly the reduced product. */
  lemma CrossCancel(x: Fraction, y: Fraction, g1: nat, g2: nat, a1: int, d1: int, c2: int, b2: int)
    requires Normal(x) && Normal(y)
    requires g1 == Gcd(x.n, y.d) && g2 == Gcd(y.n, x.d)
    requires x.n == a1 * g1 && y.d == d1 * g1 && y.n == c2 * g2 && x.d == b2 * g2
    ensures Fraction(a1 * c2, b2 * d1) == Mul(x, y)
  {
    CrossCancelCoprime(x.n, x.d, y.n, y.d, g1, g2, a1, d1, c2, b2);
    CrossCancelValue(a1, g1, b2, g2, c2, d1);
    GcdPositive(x.n, y.d);
    GcdPositive(y.n, x.d);
    SignOfProduct(d1, g1);
    SignOfProduct(b2, g2);
    Positive(b2, d1);
    Positive(x.d, y.d);
    ReduceUnique(Fraction(a1 * c2, b2 * d1), x.n * y.n, x.d * y.d);
  }

  // ----- adding and multiplying by an integer -----

  lemma AddIntegerReduced(x: Fraction, i: int)
    requires Normal(x)
    ensures Fraction(x.n + i * x.d, x.d) == Add(x, Integer(i))
  {
    forall e: nat | Divides(e, x.n + i * x.d) && Divides(e, x.d) ensures e == 1 {
      DividesSum(e, x.n + i * x.d, x.d, 1, -i);
      assert (x.n + i * x.d) * 1 + x.d * -i == x.n;
      CommonDivisorOfCoprime(e, x.n, x.d);
    }
    CoprimeFromDivisors(x.n + i * x.d, x.d);
    ReduceUnique(Fraction(x.n + i * x.d, x.d), x.n * 1 + i * x.d, x.d * 1);
  }

  lemma MulIntegerReduced(x: Fraction, i: int, g: nat, i1: int, d1: int)
    requires Normal(x) && g == Gcd(i, x.d) && i == i1 * g && x.d == d1 * g
    ensures Fraction(x.n * i1, d1) == Mul(x, Integer(i))
  {
    IntegerNormal(i);
    GcdOfOne(x.n);
    CrossCancel(x, Integer(i), 1, g, x.n, 1, i1, d1);
  }

  lemma GcdOfOne(a: int)
    ensures Gcd(a, 1) == 1
  {
    CoprimeFromBezout(a, 1, 0, 1);
  }

  // ----- machine integers -----

  /** x is a value of a signed two's-complement type whose largest value is maxInt. */
  predicate InRange(maxInt: nat, x: int) {
    -1 <= x + maxInt && x <= maxInt
  }

  /** A value computed in such a type: overflow is undefined behaviour, so being representable
      is an obligation wherever a value is computed. */
  function Fit(ghost maxInt: nat, x: int): (y: int)
    requires -1 - maxInt <= x <= maxInt
    ensures y == x
  {
    x
  }

  /** The integer types a rational is built on. Operands of a type narrower than `int` are promoted,
      so that only its stored results can leave the type. */
  datatype IntType = Unbounded | Signed(maxInt: nat, narrow: bool) {
    predicate Has(x: int) {
      Signed? ==> InRange(maxInt, x)
    }

    function Least(): int
      requires Signed?
    {
      -1 - maxInt
    }

    /** The least value, whose opposite the type does not have. */
    predicate IsLeast(x: int) {
      Signed? && x == Least()
    }

    /** Unary minus: in two's complement the least value is its own negation. */
    function Negated(x: int): (y: int)
      requires Has(x)
      ensures y == if Has(-x) then -x else x
    {
      if IsLeast(x) then x else -x
    }

    /** C++ defines `a % b` when it defines `a / b`: not for b = 0, and not when the quotient leaves
        the type that computes it. */
    predicate HasRemainder(a: int, b: int) {
      b != 0 && (IsLeast(a) && b == -1 ==> narrow)
    }
  }

  // ----- integer::gcd on machine integers -----

  datatype GcdResult = Gives(value: nat) | NoGcd

  /** `integer::gcd`: takes one remainder to get rid of a least value, whose magnitude the type does
      not have, and leaves the rest to the algorithms for non-negative numbers. */
  function IntegerGcd(t: IntType, a: int, b: int): GcdResult
    requires t.Has(a) && t.Has(b)
    decreases (if t.IsLeast(a) then 1 else 0) + (if t.IsLeast(b) then 1 else 0)
  {
    if t.IsLeast(a) then
      if !t.HasRemainder(a, b) then NoGcd
      else
        TruncatedDivision(a, b);
        IntegerGcd(t, TMod(a, b), b)
    else if t.IsLeast(b) then
      if !t.HasRemainder(b, a) then NoGcd
      else
        TruncatedDivision(b, a);
        IntegerGcd(t, a, TMod(b, a))
    else Gives(Gcd(a, b))
  }

  /** The arguments on which `integer::gcd` divides by zero or overflows. */
  predicate GcdUndefined(t: IntType, a: int, b: int) {
    (t.IsLeast(a) && (b == 0 || t.IsLeast(b) || (b == -1 && !t.narrow)))
    || (t.IsLeast(b) && (a == 0 || (a == -1 && !t.narrow)))
  }

  lemma GcdOfRemainder(a: int, b: int)
    requires b != 0
    ensures Gcd(TMod(a, b), b) == Gcd(a, b) == Gcd(b, TMod(a, b))
  {
    TruncatedDivision(a, b);
    assert Abs(TMod(a, b)) == Abs(a) % Abs(b);
    GcdSymmetric(TMod(a, b), b);
  }

  /** Elsewhere it gives the gcd. */
  lemma IntegerGcdIff(t: IntType, a: int, b: int)
    requires t.Has(a) && t.Has(b)
    ensures IntegerGcd(t, a, b) == NoGcd <==>
      t.Signed? && ((a == -1 - t.maxInt && (b == 0 || b == -1 - t.maxInt || (b == -1 && !t.narrow)))
                    || (b == -1 - t.maxInt && (a == 0 || (a == -1 && !t.narrow))))
    ensures GcdUndefined(t, a, b) <==> IntegerGcd(t, a, b) == NoGcd
    ensures IntegerGcd(t, a, b) != NoGcd ==> IntegerGcd(t, a, b) == Gives(Gcd(a, b))
    decreases (if t.IsLeast(a) then 1 else 0) + (if t.IsLeast(b) then 1 else 0)
  {
    hide Gcd, TMod;
    if t.IsLeast(a) && t.HasRemainder(a, b) {
      TruncatedDivision(a, b);
      GcdOfRemainder(a, b);
      IntegerGcdIff(t, TMod(a, b), b);
      RemainderOfItself(a);
    } else if !t.IsLeast(a) && t.IsLeast(b) && t.HasRemainder(b, a) {
      TruncatedDivision(b, a);
      GcdOfRemainder(b, a);
      GcdSymmetric(a, b);
      IntegerGcdIff(t, a, TMod(b, a));
    }
  }

  lemma RemainderOfItself(a: int)
    ensures a != 0 ==> TMod(a, a) == 0
  {
  }

  // ----- what normalizing does -----

  lemma QuotientHas(t: IntType, a: int, b: int)
    requires t.Has(a) && b > 0
    ensures t.Has(TDiv(a, b))
  {
    if t.Signed? { QuotientFits(t.maxInt, a, b); }
  }

  /** Only dividing by one leaves the least value where it is. */
  lemma LeastQuotient(t: IntType, a: int, g: int)
    requires t.Has(a) && g > 0 && Divides(g, a)
    ensures t.IsLeast(TDiv(a, g)) <==> t.IsLeast(a) && g == 1
  {
    var k := TDiv(a, g);
    DivideOut(a, g);
    if k < 0 { NegativeScale(k, g); }
  }

  lemma NegativeScale(k: int, g: int)
    requires k < 0 && g > 0
    ensures k * g <= k && (g >= 2 ==> k * g <= 2 * k)
  {
  }

  /** When the parts of the reduced fraction, and the gcd, are representable. */
  lemma Representable(t: IntType, n: int, d: int)
    requires t.Has(n) && t.Has(d) && d != 0
    ensures t.Has(Reduce(n, d).d) <==> !(t.IsLeast(d) && Coprime(n, d))
    ensures t.Has(Reduce(n, d).n) <==> !(t.IsLeast(n) && d < 0 && Coprime(n, d))
    ensures t.Has(Gcd(n, d)) <==> !(t.IsLeast(d) && (n == 0 || n == d))
  {
    hide Gcd, TDiv;
    var g := Gcd(n, d);
    GcdPositive(n, d);
    GcdDivides(n, d);
    LeastQuotient(t, n, g);
    LeastQuotient(t, d, g);
    QuotientHas(t, n, g);
    QuotientHas(t, d, g);
    GcdBound(n, d);
    DivideOut(d, g);
    DivideOut(n, g);
    SignOfProduct(TDiv(d, g), g);
    LargestGcd(t, n, d);
  }

  lemma LargestGcd(t: IntType, n: int, d: int)
    requires t.Has(n) && t.Has(d) && d != 0
    ensures t.Has(Gcd(n, d)) <==> !(t.IsLeast(d) && (n == 0 || n == d))
  {
    hide Gcd;
    GcdBound(n, d);
    GcdDivides(n, d);
    if t.IsLeast(d) && (n == 0 || n == d) {
      DividesMultiple(d, 1);
      DividesMultiple(d, 0);
      GcdGreatest(d, n, d);
      GcdPositive(n, d);
      DividesNegation(d, Gcd(n, d));
      DivisorBound(-d, Gcd(n, d));
    }
  }

  /** How the two-argument constructor ends. */
  datatype Outcome = Normalized | BadRational | UndefinedBehavior

  function NormalizeOutcome(t: IntType, n: int, d: int): Outcome {
    if d == 0 then BadRational
    else if n != 0 && GcdUndefined(t, n, d) then UndefinedBehavior
    else if t.IsLeast(d) && Coprime(n, d) then BadRational
    else Normalized
  }

  /** What it stores when it ends well: the reduced fraction, or its opposite when the numerator was
      a least value that had to change sign. */
  function NormalizeValue(t: IntType, n: int, d: int): Fraction
    requires d != 0
  {
    if t.IsLeast(n) && d < 0 && Coprime(n, d) then Negate(Reduce(n, d)) else Reduce(n, d)
  }

  /** Normalizing n/d ends well, with the right value, if and only if the denominator is not zero and,
      unless n is zero, the gcd is defined and no least value has to change sign: n and d have a
      common factor, or d is neither the least value nor negative below a least n. */
  lemma NormalizesIff(t: IntType, n: int, d: int)
    requires t.Has(n) && t.Has(d) && t.Has(1)
    ensures d != 0 && NormalizeOutcome(t, n, d) == Normalized && NormalizeValue(t, n, d) == Reduce(n, d) <==>
      d != 0 && (n == 0 || (!GcdUndefined(t, n, d) && (Gcd(n, d) > 1 || !(t.IsLeast(d) || (t.IsLeast(n) && d < 0)))))
  {
    hide GcdUndefined, Gcd;
    if d != 0 {
      GcdPositive(n, d);
      if n == 0 {
        GcdBound(n, d);
        LeastOverZero(t, d);
      } else {
        ReduceFacts(n, d);
        NotItsOpposite(n, d, Reduce(n, d));
      }
    }
  }

  lemma ReduceCoprime(n: int, d: int)
    requires d < 0 && Coprime(n, d)
    ensures Reduce(n, d) == Fraction(-n, -d)
  {
    ExactDivision(n, 1, n);
    ExactDivision(d, 1, d);
  }

  /** One over the least value: the denominator cannot be made positive, which the code notices. */
  lemma LeastDenominator(t: IntType)
    requires t.Signed? && t.maxInt >= 1
    ensures NormalizeOutcome(t, 1, t.Least()) == BadRational
  {
    CoprimeFromBezout(1, t.Least(), 1, 0);
  }

  /** The least value over minus the greatest: the numerator keeps its sign, unnoticed. */
  lemma LeastNumerator(t: IntType)
    requires t.Signed? && t.maxInt >= 2
    ensures NormalizeOutcome(t, t.Least(), t.Least() + 1) == Normalized
    ensures NormalizeValue(t, t.Least(), t.Least() + 1) == Fraction(t.Least(), t.maxInt)
    ensures Reduce(t.Least(), t.Least() + 1) == Fraction(t.maxInt + 1, t.maxInt)
  {
    CoprimeFromBezout(t.Least(), t.Least() + 1, -1, 1);
    ReduceCoprime(t.Least(), t.Least() + 1);
  }

  /** The least value over minus one: as above in a narrow type, an overflow inside the gcd in others. */
  lemma LeastOverMinusOne(t: IntType)
    requires t.Signed? && t.maxInt >= 1
    ensures NormalizeOutcome(t, t.Least(), -1) == if t.narrow then Normalized else UndefinedBehavior
    ensures NormalizeValue(t, t.Least(), -1) == Fraction(t.Least(), 1)
    ensures Reduce(t.Least(), -1) == Fraction(t.maxInt + 1, 1)
  {
    CoprimeFromBezout(t.Least(), -1, 0, -1);
    ReduceCoprime(t.Least(), -1);
  }

  /** The least value over itself: the gcd divides by zero, although the reduced fraction is one. */
  lemma LeastOverItself(t: IntType)
    requires t.Signed? && t.maxInt >= 1
    ensures NormalizeOutcome(t, t.Least(), t.Least()) == UndefinedBehavior
    ensures IntegerGcd(t, t.Least(), t.Least()) == NoGcd
    ensures Reduce(t.Least(), t.Least()) == Fraction(1, 1)
  {
    IntegerGcdIff(t, t.Least(), t.Least());
    ReduceSame(t.Least());
  }

  lemma ReduceSame(d: int)
    requires d < 0
    ensures Reduce(d, d) == Fraction(1, 1)
  {
    assert Abs(d) % Abs(d) == 0 by { MultipleMod(Abs(d), 1); assert Abs(d) * 1 == Abs(d); }
    assert GcdNat(Abs(d), 0) == Abs(d) && Gcd(d, d) == GcdNat(Abs(d), Abs(d) % Abs(d));
    ExactDivision(d, Abs(d), -1);
  }

  lemma LeastOverZero(t: IntType, d: int)
    requires t.Has(1) && d != 0
    ensures t.IsLeast(d) ==> !Coprime(0, d)
    ensures !t.IsLeast(0)
  {
    assert Gcd(0, d) == Abs(d) by {
      DividesMultiple(Abs(d), 0);
      DividesMultiple(Abs(d), 1);
      assert Abs(d) * 1 == Abs(d);
      DividesAbs(Abs(d), d);
      GcdGreatest(Abs(d), 0, d);
      GcdDivides(0, d);
      DividesAbs(Gcd(0, d), d);
      DividesAntisymmetric(Abs(d), Gcd(0, d));
    }
  }

  lemma NotItsOpposite(n: int, d: int, f: Fraction)
    requires n != 0 && f.d > 0 && SameValue(f, Fraction(n, d))
    ensures Negate(f) != f
  {
    ProductMagnitude(n, f.d);
  }

  lemma ZeroNormalizes(t: IntType, d: int)
    requires t.Has(1) && d != 0
    ensures NormalizeOutcome(t, 0, d) == Normalized && NormalizeValue(t, 0, d) == Fraction(0, 1)
    ensures Normal(Fraction(0, 1))
  {
    hide Gcd, TDiv, Reduce;
    LeastOverZero(t, d);
    ZeroReduces(d);
    IntegerNormal(0);
  }

  lemma OutcomeFor(t: IntType, n: int, d: int)
    requires t.Has(1)
    ensures NormalizeOutcome(t, n, d) == BadRational <==>
      d == 0 || (t.IsLeast(d) && Coprime(n, d) && (n == 0 || !GcdUndefined(t, n, d)))
    ensures NormalizeOutcome(t, n, d) == UndefinedBehavior <==> d != 0 && n != 0 && GcdUndefined(t, n, d)
    ensures d != 0 ==>
      NormalizeValue(t, n, d) == if t.IsLeast(n) && d < 0 && Coprime(n, d) then Negate(Reduce(n, d)) else Reduce(n, d)
  {
  }

  lemma UndefinedSettles(t: IntType, n: int, d: int)
    requires n != 0 && d != 0 && GcdUndefined(t, n, d)
    ensures NormalizeOutcome(t, n, d) == UndefinedBehavior
  {
  }

  lemma NormalizeValueNormal(t: IntType, n: int, d: int)
    requires d != 0
    ensures Normal(NormalizeValue(t, n, d))
  {
    hide Gcd, TDiv, Reduce;
    ReduceFacts(n, d);
    NegateNormal(Reduce(n, d));
  }

  /** What the branches of `normalize` need of the quotients by the gcd. */
  lemma QuotientsSettle(t: IntType, n: int, d: int)
    requires t.Has(n) && t.Has(d) && n != 0 && d != 0 && !GcdUndefined(t, n, d)
    ensures Gcd(n, d) > 0
    ensures var n1, d1 := TDiv(n, Gcd(n, d)), TDiv(d, Gcd(n, d));
      t.Has(n1) && t.Has(d1) && Settled(t, n, d, if d1 < 0 then t.Negated(n1) else n1, if d1 < 0 then t.Negated(d1) else d1)
  {
    hide Gcd, TDiv, Divides, GcdUndefined;
    GcdPositive(n, d);
    var g := Gcd(n, d);
    GcdDivides(n, d);
    DivideOut(d, g);
    SignOfProduct(TDiv(d, g), g);
    QuotientHas(t, n, g);
    QuotientHas(t, d, g);
    LeastQuotient(t, n, g);
    LeastQuotient(t, d, g);
  }

  /** A stored denominator below zero throws; any other goes with the value to be stored. */
  predicate Settled(t: IntType, n: int, d: int, n2: int, d2: int)
    requires d != 0
  {
    if d2 < 0 then NormalizeOutcome(t, n, d) == BadRational
    else NormalizeOutcome(t, n, d) == Normalized && NormalizeValue(t, n, d) == Fraction(n2, d2)
  }

  lemma QuotientFits(maxInt: nat, a: int, b: int)
    requires InRange(maxInt, a) && b > 0
    ensures InRange(maxInt, TDiv(a, b)) && InRange(maxInt, TMod(a, b))
    ensures TMod(a, b) != 0 ==> Abs(TDiv(a, b)) < Abs(a)
  {
    hide TDiv, TMod;
    TruncatedDivision(a, b);
    var q, r := TDiv(a, b), TMod(a, b);
    if q != 0 {
      ProductMagnitude(q, b);
      assert b * q == q * b;
      QuotientSign(a, b);
    }
    QuotientSign(a, b);
  }

  lemma QuotientSign(a: int, b: int)
    requires b > 0
    ensures a >= 0 ==> TDiv(a, b) >= 0
    ensures a <= 0 ==> TDiv(a, b) <= 0
  {
    NatDivision(Abs(a), b);
  }

  /** `integer::gcd` of a number and a positive one is computed within the type. */
  lemma GcdFits(maxInt: nat, a: int, b: int)
    requires 0 < b <= maxInt && InRange(maxInt, a)
    ensures 0 < Gcd(a, b) <= maxInt
    ensures forall narrow :: IntegerGcd(Signed(maxInt, narrow), a, b) == Gives(Gcd(a, b))
  {
    GcdPositive(a, b);
    GcdBound(a, b);
    forall narrow ensures IntegerGcd(Signed(maxInt, narrow), a, b) == Gives(Gcd(a, b)) {
      IntegerGcdIff(Signed(maxInt, narrow), a, b);
    }
  }

  // ----- comparison by continued fractions -----

  /** One operand while its continued fraction is expanded: n/d with quotient q and remainder r. */
  datatype Expansion = Expansion(n: int, d: int, q: int, r: int)

  /** n = q d + r with 0 <= r < d, every component representable. */
  predicate Expanded(e: Expansion, maxInt: nat) {
    e.d > 0 && e.n == e.q * e.d + e.r && 0 <= e.r < e.d
    && InRange(maxInt, e.n) && InRange(maxInt, e.d) && InRange(maxInt, e.q) && InRange(maxInt, e.r)
  }

  lemma FloorOrder(a: Expansion, b: Expansion)
    requires a.d > 0 && a.n == a.q * a.d + a.r && 0 <= a.r < a.d
    requires b.d > 0 && b.n == b.q * b.d + b.r && 0 <= b.r < b.d
    ensures a.q < b.q ==> a.n * b.d < b.n * a.d
  {
    if a.q < b.q {
      var m := a.d * b.d;
      Positive(a.d, b.d);
      ScaleLess(a.r, a.d, b.d);
      assert a.n * b.d == a.q * m + a.r * b.d by { Spread(a.q, a.d, a.r, b.d); }
      assert b.n * a.d == b.q * m + b.r * a.d by { Spread(b.q, b.d, b.r, a.d); }
      assert (a.q + 1) * m <= b.q * m by { ScaleAtMost(a.q + 1, b.q, m); }
      ScaleAtMost(0, b.r, a.d);
    }
  }

  lemma Spread(q: int, d: int, r: int, c: int)
    ensures (q * d + r) * c == q * (d * c) + r * c
  {
  }

  lemma ScaleLess(x: int, y: int, c: int)
    requires c > 0
    ensures x < y <==> x * c < y * c
  {
  }

  lemma ScaleAtMost(x: int, y: int, c: int)
    requires c > 0 && x <= y
    ensures x * c <= y * c
  {
  }

  /** With equal quotients the order is that of the remainders' fractions. */
  lemma EqualQuotients(a: Expansion, b: Expansion)
    requires a.q == b.q && a.n == a.q * a.d + a.r && b.n == b.q * b.d + b.r
    ensures a.n * b.d < b.n * a.d <==> a.r * b.d < b.r * a.d
  {
    Spread(a.q, a.d, a.r, b.d);
    Spread(b.q, b.d, b.r, a.d);
    assert a.d * b.d == b.d * a.d;
  }

  /** The order of the two operands as the loop sees it; taking reciprocals reverses it. */
  ghost predicate Before(a: Expansion, b: Expansion, reverse: bool) {
    if reverse then b.n * a.d < a.n * b.d else a.n * b.d < b.n * a.d
  }

  lemma NextCycle(a: Expansion, b: Expansion, a': Expansion, b': Expansion, reverse: bool)
    requires a.q == b.q && a.n == a.q * a.d + a.r && b.n == b.q * b.d + b.r
    requires a'.n == a.d && a'.d == a.r && b'.n == b.d && b'.d == b.r
    ensures Before(a', b', !reverse) == Before(a, b, reverse)
  {
    EqualQuotients(a, b);
    EqualQuotients(b, a);
  }

  lemma ExpansionEnded(a: Expansion, b: Expansion, reverse: bool, maxA: nat, maxB: nat)
    requires Expanded(a, maxA) && Expanded(b, maxB) && a.q == b.q && (a.r == 0 || b.r == 0)
    ensures Before(a, b, reverse) == (if a.r == b.r then false else (a.r != 0) != !reverse)
  {
    EqualQuotients(a, b);
    EqualQuotients(b, a);
    if a.r > 0 { Positive(a.r, b.d); }
    if b.r > 0 { Positive(b.r, a.d); }
  }

  // ----- the divisions of the in-place operators are exact -----

  lemma ZeroReduces(d: int)
    requires d != 0
    ensures Reduce(0, d) == Fraction(0, 1)
  {
    ReduceFacts(0, d);
    var f := Reduce(0, d);
    if f.n != 0 { ProductMagnitude(d, f.n); }
    DividesMultiple(f.d, 0);
    DividesMultiple(f.d, 1);
    GcdGreatest(f.d, 0, f.d);
    DividesOne(f.d);
  }

  lemma ZeroProduct(x: Fraction, y: Fraction)
    requires Normal(x) && x.n == 0 && y.d > 0
    ensures Mul(x, y) == x
  {
    Positive(x.d, y.d);
    ReduceUnique(x, x.n * y.n, x.d * y.d);
  }

  lemma SumFactors(n: int, g: nat, d: int)
    requires g > 0 && Divides(g, d)
    ensures Gcd(n, g) > 0
    ensures n == TDiv(n, Gcd(n, g)) * Gcd(n, g) && d == TDiv(d, Gcd(n, g)) * Gcd(n, g)
  {
    GcdPositive(n, g);
    GcdDivides(n, g);
    DividesTransitive(Gcd(n, g), g, d);
    DivideOut(n, Gcd(n, g));
    DivideOut(d, Gcd(n, g));
  }

  lemma CrossFactors(x: Fraction, y: Fraction)
    requires x.d > 0 && y.d > 0
    ensures var g1, g2 := Gcd(x.n, y.d), Gcd(y.n, x.d);
            g1 > 0 && g2 > 0
            && x.n == TDiv(x.n, g1) * g1 && y.d == TDiv(y.d, g1) * g1
            && y.n == TDiv(y.n, g2) * g2 && x.d == TDiv(x.d, g2) * g2
  {
    SumFactors(x.n, y.d, y.d) by { DividesMultiple(y.d, 1); assert y.d * 1 == y.d; }
    SumFactors(y.n, x.d, x.d) by { DividesMultiple(x.d, 1); assert x.d * 1 == x.d; }
  }

  lemma NegateQuotient(a: int, g: int)
    requires g != 0
    ensures TDiv(-a, g) == -TDiv(a, g)
  {
    if a == 0 { NatDivision(0, Abs(g)); }
  }

  lemma NegatedFactor(a: int, b: int)
    ensures -a * b == -(a * b)
  {
  }

  lemma NegateFactor(a: int, b: int)
    ensures a * -b == -(a * b)
  {
  }

  // ----- the class -----

  class Rational {
    var num: int
    var den: int

    ghost predicate Valid()
      reads this
    {
      Normal(Value())
    }

    ghost function Value(): (f: Fraction)
      reads this
      ensures f == Fraction(num, den)
    {
      Fraction(num, den)
    }

    constructor (n: int)
      ensures Valid() && num == n && den == 1
    {
      num, den := n, 1;
      IntegerNormal(n);
    }

    /** A fraction that has yet to be normalized, as the two-argument constructor first stores it. */
    constructor Raw(n: int, d: int)
      ensures num == n && den == d
    {
      num, den := n, d;
    }

    /** `normalize` */
    method Normalize(t: IntType) returns (outcome: Outcome)
      requires t.Has(num) && t.Has(den) && t.Has(1)
      modifies this
      ensures outcome == NormalizeOutcome(t, old(num), old(den))
      ensures outcome == BadRational <==>
        old(den) == 0
        || (t.IsLeast(old(den)) && Coprime(old(num), old(den)) && (old(num) == 0 || !GcdUndefined(t, old(num), old(den))))
      ensures outcome == UndefinedBehavior <==> old(den) != 0 && old(num) != 0 && GcdUndefined(t, old(num), old(den))
      ensures outcome == Normalized ==> Valid()
      ensures outcome == Normalized && t.IsLeast(old(num)) && old(den) < 0 && Coprime(old(num), old(den)) ==>
        Value() == Negate(Reduce(old(num), old(den)))
      ensures outcome == Normalized && !(t.IsLeast(old(num)) && old(den) < 0 && Coprime(old(num), old(den))) ==>
        Value() == Reduce(old(num), old(den))
      ensures old(den) == 0 ==> Value() == old(Value())
    {
      OutcomeFor(t, num, den);
      if den == 0 {
        return BadRational;
      }
      hide Gcd, TDiv, Reduce, Normal, InRange, NormalizeOutcome, NormalizeValue, GcdUndefined, IntType.Has, IntType.Negated, IntType.IsLeast;
      if num == 0 {
        ZeroNormalizes(t, den);
        den := 1;
        return Normalized;
      }
      var gcd := IntegerGcd(t, num, den);
      IntegerGcdIff(t, num, den);
      if gcd.NoGcd? {
        UndefinedSettles(t, num, den);
        return UndefinedBehavior;
      }
      var g := gcd.value;
      QuotientsSettle(t, num, den);
      NormalizeValueNormal(t, num, den);
      num := TDiv(num, g);
      den := TDiv(den, g);
      if den < 0 {
        num := t.Negated(num);
        den := t.Negated(den);
      }
      if den < 0 {
        return BadRational;
      }
      return Normalized;
    }

    /** Assigns n/d, or leaves the number alone when normalizing throws. */
    method Assign(t: IntType, n: int, d: int) returns (outcome: Outcome)
      requires t.Has(n) && t.Has(d) && t.Has(1)
      modifies this
      ensures outcome == NormalizeOutcome(t, n, d)
      ensures outcome == BadRational <==> d == 0 || (t.IsLeast(d) && Coprime(n, d) && (n == 0 || !GcdUndefined(t, n, d)))
      ensures outcome == UndefinedBehavior <==> d != 0 && n != 0 && GcdUndefined(t, n, d)
      ensures outcome == Normalized ==>
        Valid() && Value() == if t.IsLeast(n) && d < 0 && Coprime(n, d) then Negate(Reduce(n, d)) else Reduce(n, d)
      ensures outcome == BadRational ==> Value() == old(Value())
    {
      var r := new Rational.Raw(n, d);
      outcome := r.Normalize(t);
      if outcome == Normalized {
        num, den := r.num, r.den;
      }
    }

    /** `operator+=`. The argument may be this very object. */
    method AddAssign(r: Rational)
      requires Valid() && r.Valid()
      modifies this
      ensures Valid() && Value() == Add(old(Value()), old(r.Value()))
    {
      var rNum, rDen := r.num, r.den;
      ghost var x, y := Value(), r.Value();
      var g := Gcd(den, rDen);
      GcdPositive(den, rDen);
      GcdDivides(den, rDen);
      DivideOut(den, g);
      DivideOut(rDen, g);
      ghost var g0 := g;
      den := TDiv(den, g);
      num := num * TDiv(rDen, g) + rNum * den;
      ghost var b1, d1, n := den, TDiv(rDen, g), num;
      g := Gcd(num, g);
      SumFactors(n, g0, y.d);
      num := TDiv(num, g);
      den := den * TDiv(rDen, g);
      PartialReduction(x, y, g0, b1, d1, n, g, num, TDiv(rDen, g));
      AddVal(x, y);
    }

    /** `operator-=`. The argument may be this very object. */
    method SubAssign(r: Rational)
      requires Valid() && r.Valid()
      modifies this
      ensures Valid() && Value() == Add(old(Value()), Negate(old(r.Value())))
    {
      var rNum, rDen := r.num, r.den;
      ghost var x, y := Value(), Negate(r.Value());
      NegateNormal(r.Value());
      var g := Gcd(den, rDen);
      GcdPositive(den, rDen);
      GcdDivides(den, rDen);
      DivideOut(den, g);
      DivideOut(rDen, g);
      ghost var g0 := g;
      den := TDiv(den, g);
      NegatedFactor(rNum, den);
      num := num * TDiv(rDen, g) - rNum * den;
      ghost var b1, d1, n := den, TDiv(rDen, g), num;
      assert n == x.n * d1 + y.n * b1;
      g := Gcd(num, g);
      SumFactors(n, g0, y.d);
      num := TDiv(num, g);
      den := den * TDiv(rDen, g);
      PartialReduction(x, y, g0, b1, d1, n, g, num, TDiv(rDen, g));
      AddVal(x, y);
    }

    /** `operator*=`. Every value computed on the way is representable as soon as the reduced
        product is. The argument may be this very object. */
    method MulAssign(r: Rational, ghost maxInt: nat)
      requires Valid() && r.Valid()
      requires -1 - maxInt <= num <= maxInt && den <= maxInt && -1 - maxInt <= r.num <= maxInt && r.den <= maxInt
      requires -1 - maxInt <= Mul(Value(), r.Value()).n <= maxInt && Mul(Value(), r.Value()).d <= maxInt
      modifies this
      ensures Valid() && Value() == Mul(old(Value()), old(r.Value()))
    {
      var rNum, rDen := r.num, r.den;
      ghost var x, y := Value(), r.Value();
      hide TDiv, Gcd, Mul, Coprime, IntegerGcd;
      MulVal(x, y);
      assert Mul(x, y).d > 0;
      GcdFits(maxInt, num, rDen);
      GcdFits(maxInt, rNum, den);
      var gcd1 := Fit(maxInt, Gcd(num, rDen));
      var gcd2 := Fit(maxInt, Gcd(rNum, den));
      CrossFactors(x, y);
      QuotientFits(maxInt, num, gcd1);
      QuotientFits(maxInt, rNum, gcd2);
      QuotientFits(maxInt, den, gcd2);
      QuotientFits(maxInt, rDen, gcd1);
      CrossCancel(x, y, gcd1, gcd2, TDiv(x.n, gcd1), TDiv(y.d, gcd1), TDiv(y.n, gcd2), TDiv(x.d, gcd2));
      num := Fit(maxInt, Fit(maxInt, TDiv(num, gcd1)) * Fit(maxInt, TDiv(rNum, gcd2)));
      den := Fit(maxInt, Fit(maxInt, TDiv(den, gcd2)) * Fit(maxInt, TDiv(rDen, gcd1)));
    }

    /** `operator/=`; false stands for the thrown bad_rational. The argument may be this very object. */
    method DivAssign(r: Rational) returns (ok: bool)
      requires Valid() && r.Valid()
      modifies this
      ensures Valid() && (ok <==> old(r.num) != 0)
      ensures ok ==> Value() == Mul(old(Value()), Inverse(old(r.Value())))
      ensures !ok ==> Value() == old(Value())
    {
      var rNum, rDen := r.num, r.den;
      if rNum == 0 {
        return false;
      }
      ghost var x, y := Value(), Inverse(r.Value());
      InverseNormal(r.Value());
      MulVal(x, y);
      if num == 0 {
        ZeroProduct(x, y);
        return true;
      }
      var gcd1 := Gcd(num, rNum);
      var gcd2 := Gcd(rDen, den);
      GcdOfNegation(num, rNum);
      GcdOfNegation(rDen, den);
      CrossFactors(x, y);
      NegateQuotient(rNum, gcd1);
      NegateQuotient(rDen, gcd2);
      CrossCancel(x, y, gcd1, gcd2, TDiv(x.n, gcd1), TDiv(y.d, gcd1), TDiv(y.n, gcd2), TDiv(x.d, gcd2));
      NegateFactor(TDiv(num, gcd1), TDiv(rDen, gcd2));
      NegateFactor(TDiv(den, gcd2), TDiv(rNum, gcd1));
      num := TDiv(num, gcd1) * TDiv(rDen, gcd2);
      den := TDiv(den, gcd2) * TDiv(rNum, gcd1);
      if den < 0 {
        num := -num;
        den := -den;
      }
      return true;
    }

    // ----- integer arguments -----

    method AddAssignInteger(i: int)
      requires Valid()
      modifies this
      ensures Valid() && Value() == Add(old(Value()), Integer(i))
    {
      AddIntegerReduced(Value(), i);
      AddVal(Value(), Integer(i));
      num := num + i * den;
    }

    method SubAssignInteger(i: int)
      requires Valid()
      modifies this
      ensures Valid() && Value() == Add(old(Value()), Integer(-i))
    {
      AddIntegerReduced(Value(), -i);
      AddVal(Value(), Integer(-i));
      NegatedFactor(i, den);
      num := num - i * den;
    }

    method MulAssignInteger(i: int)
      requires Valid()
      modifies this
      ensures Valid() && Value() == Mul(old(Value()), Integer(i))
    {
      var gcd := Gcd(i, den);
      MulVal(Value(), Integer(i));
      GcdPositive(i, den);
      GcdDivides(i, den);
      DivideOut(i, gcd);
      DivideOut(den, gcd);
      MulIntegerReduced(Value(), i, gcd, TDiv(i, gcd), TDiv(den, gcd));
      num := num * TDiv(i, gcd);
      den := TDiv(den, gcd);
    }

    /** False stands for the thrown bad_rational. */
    method DivAssignInteger(i: int) returns (ok: bool)
      requires Valid()
      modifies this
      ensures Valid() && (ok <==> i != 0)
      ensures ok ==> Value() == Mul(old(Value()), Inverse(Integer(i)))
      ensures !ok ==> Value() == old(Value())
    {
      if i == 0 {
        return false;
      }
      ghost var x, y := Value(), Inverse(Integer(i));
      IntegerNormal(i);
      InverseNormal(Integer(i));
      MulVal(x, y);
      if num == 0 {
        ZeroProduct(x, y);
        return true;
      }
      var gcd := Gcd(num, i);
      GcdOfNegation(num, i);
      CrossFactors(x, y);
      NegateQuotient(i, gcd);
      UnitGcd(y.n, x.d);
      CrossCancel(x, y, gcd, 1, TDiv(x.n, gcd), TDiv(y.d, gcd), y.n, x.d);
      NegateFactor(TDiv(num, gcd), 1);
      NegateFactor(den, TDiv(i, gcd));
      num := TDiv(num, gcd);
      den := den * TDiv(i, gcd);
      if den < 0 {
        num := -num;
        den := -den;
      }
      return true;
    }

    // ----- comparison -----

    /** `operator==` */
    method Equals(r: Rational) returns (same: bool)
      requires Valid() && r.Valid()
      ensures same <==> num * r.den == r.num * den
    {
      Canonical(Value(), r.Value());
      same := num == r.num && den == r.den;
    }

    method EqualsInteger(i: int) returns (same: bool)
      requires Valid()
      ensures same <==> num == i * den
    {
      IntegerNormal(i);
      Canonical(Value(), Integer(i));
      same := den == 1 && num == i;
    }

    /** `operator<`: walks the two continued fractions in lockstep. Every value computed on the
        way stays in the range of its own operand's components. */
    method Less(r: Rational, ghost maxThis: nat, ghost maxThat: nat) returns (less: bool)
      requires den > 0 && r.den > 0
      requires -1 - maxThis <= num <= maxThis && den <= maxThis
      requires -1 - maxThat <= r.num <= maxThat && r.den <= maxThat
      ensures less <==> num * r.den < r.num * den
    {
      var ts := FirstCycle(num, den, maxThis);
      var rs := FirstCycle(r.num, r.den, maxThat);
      var reverse := false;
      while true
        invariant Expanded(ts, maxThis) && Expanded(rs, maxThat)
        invariant Before(ts, rs, reverse) <==> num * r.den < r.num * den
        decreases ts.d
      {
        if ts.q != rs.q {
          FloorOrder(ts, rs);
          FloorOrder(rs, ts);
          return if reverse then ts.q > rs.q else ts.q < rs.q;
        }
        reverse := !reverse;
        if ts.r == 0 || rs.r == 0 {
          ExpansionEnded(ts, rs, !reverse, maxThis, maxThat);
          break;
        }
        ghost var ts0, rs0 := ts, rs;
        ts := NextTerm(ts, maxThis);
        rs := NextTerm(rs, maxThat);
        NextCycle(ts0, rs0, ts, rs, !reverse);
      }
      if ts.r == rs.r {
        return false;
      } else {
        return (ts.r != 0) != reverse;
      }
    }

    /** `operator<` against an integer: compares the floor. */
    method LessInteger(i: int) returns (less: bool)
      requires den > 0
      ensures less <==> num < i * den
    {
      var q, r := TDiv(num, den), TMod(num, den);
      TruncatedDivision(num, den);
      while r < 0
        invariant num == q * den + r && -den < r < den
        decreases -r
      {
        StepDown(q, den, r);
        r := r + den;
        q := q - 1;
      }
      FloorOrder(Expansion(num, den, q, r), Expansion(i, 1, i, 0));
      if i <= q { ScaleAtMost(i, q, den); }
      less := q < i;
    }
  }

  lemma UnitGcd(u: int, d: int)
    requires u == 1 || u == -1
    ensures Gcd(u, d) == 1
  {
    CoprimeFromBezout(u, d, u, 0);
  }

  lemma StepDown(q: int, d: int, r: int)
    ensures q * d + r == (q - 1) * d + (r + d)
  {
  }

  /** The first term, whose remainder is brought from C++'s sign convention to 0 <= r < d. */
  method FirstCycle(n: int, d: int, ghost maxInt: nat) returns (e: Expansion)
    requires d > 0 && InRange(maxInt, n) && InRange(maxInt, d)
    ensures Expanded(e, maxInt) && e.n == n && e.d == d
  {
    hide TDiv, TMod, Abs;
    QuotientFits(maxInt, n, d);
    TruncatedDivision(n, d);
    QuotientSign(n, d);
    e := Expansion(n, d, Fit(maxInt, TDiv(n, d)), Fit(maxInt, TMod(n, d)));
    while e.r < 0
      invariant e.n == n && e.d == d && n == e.q * d + e.r && -d < e.r < d
      invariant InRange(maxInt, e.q)
      invariant e.r < 0 ==> Abs(e.q) < Abs(n) && e.q <= 0
      decreases -e.r
    {
      StepDown(e.q, d, e.r);
      e := e.(r := Fit(maxInt, e.r + e.d));
      e := e.(q := Fit(maxInt, e.q - 1));
    }
  }

  /** Reciprocate the fractional part and expand it by one more term. */
  method NextTerm(e: Expansion, ghost maxInt: nat) returns (next: Expansion)
    requires Expanded(e, maxInt) && e.r > 0
    ensures Expanded(next, maxInt) && next.n == e.d && next.d == e.r
  {
    QuotientFits(maxInt, e.d, e.r);
    TruncatedDivision(e.d, e.r);
    next := Expansion(e.d, e.r, Fit(maxInt, TDiv(e.d, e.r)), Fit(maxInt, TMod(e.d, e.r)));
  }

  // ----- is_normalized -----

  /** `inner_gcd`: Euclid on C++ remainders, so the result may be negative. */
  function InnerGcd(a: int, b: int): int
    decreases Abs(b)
  {
    if b == 0 then a
    else
      TruncatedDivision(a, b);
      InnerGcd(b, TMod(a, b))
  }

  lemma {:induction false} InnerGcdIsGcd(a: int, b: int)
    ensures Abs(InnerGcd(a, b)) == Gcd(a, b)
    decreases Abs(b)
  {
    if b != 0 {
      TruncatedDivision(a, b);
      InnerGcdIsGcd(b, TMod(a, b));
      assert Abs(TMod(a, b)) == Abs(a) % Abs(b);
    }
  }

  predicate IsNormalized(n: int, d: int) {
    d > 0 && (n != 0 || d == 1) && Abs(InnerGcd(n, d)) == 1
  }

  /** The conversion check accepts exactly the fractions in normal form. */
  lemma IsNormalizedIsNormal(n: int, d: int)
    ensures IsNormalized(n, d) <==> Normal(Fraction(n, d))
  {
    InnerGcdIsGcd(n, d);
    if d > 0 && n == 0 && Coprime(n, d) {
      DividesMultiple(d, 0);
      DividesMultiple(d, 1);
      CommonDivisorOfCoprime(d, 0, d);
    }
  }

  // ----- gcd and lcm of rationals -----

  /** a is an integer multiple of g. */
  predicate MultipleOf(a: Fraction, g: Fraction) {
    Divides(g.n * a.d, a.n * g.d)
  }

  /** Between normal forms, being an integer multiple is a matter of numerators and denominators. */
  lemma MultipleOfNormal(a: Fraction, g: Fraction)
    requires Normal(a) && Normal(g)
    ensures MultipleOf(a, g) <==> Divides(g.n, a.n) && Divides(a.d, g.d)
  {
    if MultipleOf(a, g) {
      DividesMultiple(a.d, g.n);
      DividesTransitive(a.d, g.n * a.d, a.n * g.d);
      CoprimeSymmetric(a.n, a.d);
      EuclidsLemma(a.d, a.n, g.d);
      DividesMultiple(g.n, a.d);
      DividesTransitive(g.n, g.n * a.d, a.n * g.d);
      assert a.n * g.d == g.d * a.n;
      EuclidsLemma(g.n, g.d, a.n);
    }
    if Divides(g.n, a.n) && Divides(a.d, g.d) {
      var j := Cofactor(g.n, a.n);
      var k := Cofactor(a.d, g.d);
      ProductOfCofactors(g.n, j, a.d, k);
      DividesMultiple(g.n * a.d, j * k);
    }
  }

  ghost function Times(k: int, g: Fraction): (v: real)
    requires g.d != 0
    ensures v == k as real * Val(g)
  {
    k as real * Val(g)
  }

  /** In values: a is an integer times g. */
  lemma MultipleOfMeans(a: Fraction, g: Fraction)
    requires a.d > 0 && g.d > 0
    ensures MultipleOf(a, g) <==> exists k: int :: Val(a) == Times(k, g)
  {
    if MultipleOf(a, g) {
      var k := Cofactor(g.n * a.d, a.n * g.d);
      assert a.n * g.d == (k * g.n) * a.d by { assert (g.n * a.d) * k == (k * g.n) * a.d; }
      IntegerTimes(a, g, k);
      assert Val(a) == Times(k, g);
    }
    forall k: int | Val(a) == Times(k, g) ensures MultipleOf(a, g) {
      IntegerTimes(a, g, k);
      assert (k * g.n) * a.d == (g.n * a.d) * k;
      DividesMultiple(g.n * a.d, k);
    }
  }

  lemma IntegerTimes(a: Fraction, g: Fraction, k: int)
    requires a.d > 0 && g.d > 0
    ensures Val(a) == k as real * Val(g) <==> a.n * g.d == (k * g.n) * a.d
  {
    var h := Fraction(k * g.n, g.d);
    Cross(a, h);
    IntProductReal(k, g.n);
    ScaledVal(Val(h), Val(g), k as real, g.n as real, g.d as real);
  }

  lemma ScaledVal(v: real, w: real, k: real, n: real, d: real)
    requires d > 0.0 && v * d == k * n && w * d == n
    ensures v == k * w
  {
    assert (k * w) * d == k * n;
    RealScale(v, k * w, d);
  }

  lemma ProductOfCofactors(a: int, j: int, b: int, k: int)
    ensures (a * j) * (b * k) == (a * b) * (j * k)
  {
  }

  /** Both evaluators hand their constructor a fraction that is already in normal form. */
  lemma GcdFractionNormal(a: Fraction, b: Fraction)
    requires Normal(a) && Normal(b)
    ensures Normal(Fraction(Gcd(a.n, b.n), Lcm(a.d, b.d)))
  {
    var g, l := Gcd(a.n, b.n), Lcm(a.d, b.d);
    GcdDivides(a.n, b.n);
    CoprimeDivisor(a.n, a.d, g);
    CoprimeDivisor(b.n, b.d, g);
    CoprimeProduct(g, a.d, b.d);
    LcmDividesProduct(a.d, b.d);
    DividesMultiple(g, 1);
    assert g * 1 == g;
    CoprimeOfDivisors(g, a.d * b.d, g, l);
    LcmPositive(a.d, b.d);
  }

  lemma LcmPositive(a: int, b: int)
    requires a != 0 && b != 0
    ensures Lcm(a, b) > 0
  {
    var a1, b1 := LcmForm(a, b);
    if Lcm(a, b) == 0 {
      LcmDividesProduct(a, b);
      ProductMagnitude(a, b);
    }
  }

  lemma LcmFractionNormal(a: Fraction, b: Fraction)
    requires Normal(a) && Normal(b)
    ensures Normal(Fraction(Lcm(a.n, b.n), Gcd(a.d, b.d)))
  {
    var l, g := Lcm(a.n, b.n), Gcd(a.d, b.d);
    GcdPositive(a.d, b.d);
    GcdDivides(a.d, b.d);
    CoprimeSymmetric(a.n, a.d);
    CoprimeSymmetric(b.n, b.d);
    CoprimeDivisor(a.d, a.n, g);
    CoprimeDivisor(b.d, b.n, g);
    CoprimeProduct(g, a.n, b.n);
    LcmDividesProduct(a.n, b.n);
    DividesMultiple(g, 1);
    assert g * 1 == g;
    CoprimeOfDivisors(g, a.n * b.n, g, l);
    CoprimeSymmetric(g, l);
  }

  /** `gcd_evaluator<rational>`: the result divides both arguments with integer quotients, and
      every rational that does so divides the result. */
  method GcdEvaluator(a: Rational, b: Rational) returns (r: Rational)
    requires a.Valid() && b.Valid()
    ensures r.Valid() && fresh(r) && r.num >= 0
    ensures MultipleOf(a.Value(), r.Value()) && MultipleOf(b.Value(), r.Value())
    ensures forall c :: Normal(c) && MultipleOf(a.Value(), c) && MultipleOf(b.Value(), c) ==> MultipleOf(r.Value(), c)
  {
    GcdFractionNormal(a.Value(), b.Value());
    GcdFractionGreatest(a.Value(), b.Value());
    r := new Rational(0);
    var outcome := r.Assign(Unbounded, Gcd(a.num, b.num), Lcm(a.den, b.den));
    NormalReduces(Fraction(Gcd(a.num, b.num), Lcm(a.den, b.den)));
  }

  lemma NormalReduces(f: Fraction)
    requires Normal(f)
    ensures Reduce(f.n, f.d) == f
  {
    ReduceUnique(f, f.n, f.d);
  }

  lemma GcdFractionGreatest(a: Fraction, b: Fraction)
    requires Normal(a) && Normal(b)
    ensures var g := Fraction(Gcd(a.n, b.n), Lcm(a.d, b.d));
            MultipleOf(a, g) && MultipleOf(b, g)
            && forall c :: Normal(c) && MultipleOf(a, c) && MultipleOf(b, c) ==> MultipleOf(g, c)
  {
    var g := Fraction(Gcd(a.n, b.n), Lcm(a.d, b.d));
    GcdFractionNormal(a, b);
    GcdDivides(a.n, b.n);
    LcmIsMultiple(a.d, b.d);
    MultipleOfNormal(a, g);
    MultipleOfNormal(b, g);
    forall c | Normal(c) && MultipleOf(a, c) && MultipleOf(b, c) ensures MultipleOf(g, c) {
      MultipleOfNormal(a, c);
      MultipleOfNormal(b, c);
      GcdGreatest(c.n, a.n, b.n);
      LcmLeast(a.d, b.d, c.d);
      MultipleOfNormal(g, c);
    }
  }

  /** `lcm_evaluator<rational>`: the result is an integer multiple of both arguments, and every
      rational that is so is an integer multiple of the result. */
  method LcmEvaluator(a: Rational, b: Rational) returns (r: Rational)
    requires a.Valid() && b.Valid()
    ensures r.Valid() && fresh(r) && r.num >= 0
    ensures MultipleOf(r.Value(), a.Value()) && MultipleOf(r.Value(), b.Value())
    ensures forall c :: Normal(c) && MultipleOf(c, a.Value()) && MultipleOf(c, b.Value()) ==> MultipleOf(c, r.Value())
  {
    LcmFractionNormal(a.Value(), b.Value());
    LcmFractionLeast(a.Value(), b.Value());
    r := new Rational(0);
    var outcome := r.Assign(Unbounded, Lcm(a.num, b.num), Gcd(a.den, b.den));
    NormalReduces(Fraction(Lcm(a.num, b.num), Gcd(a.den, b.den)));
  }

  lemma LcmFractionLeast(a: Fraction, b: Fraction)
    requires Normal(a) && Normal(b)
    ensures var l := Fraction(Lcm(a.n, b.n), Gcd(a.d, b.d));
            MultipleOf(l, a) && MultipleOf(l, b)
            && forall c :: Normal(c) && MultipleOf(c, a) && MultipleOf(c, b) ==> MultipleOf(c, l)
  {
    var l := Fraction(Lcm(a.n, b.n), Gcd(a.d, b.d));
    LcmFractionNormal(a, b);
    LcmIsMultiple(a.n, b.n);
    GcdDivides(a.d, b.d);
    MultipleOfNormal(l, a);
    MultipleOfNormal(l, b);
    forall c | Normal(c) && MultipleOf(c, a) && MultipleOf(c, b) ensures MultipleOf(c, l) {
      MultipleOfNormal(c, a);
      MultipleOfNormal(c, b);
      LcmLeast(a.n, b.n, c.n);
      GcdGreatest(c.d, a.d, b.d);
      MultipleOfNormal(c, l);
    }
  }
}
