/** The closed-form M/M/c quantities: the empty-system probability P0 and
    the Erlang C waiting probability, over exact real arithmetic. */
module Formulas {
  import opened Outcomes

  /** x^n, the value `math.pow` computes for an integral exponent. */
  function Pow(x: real, n: nat): real
  {
    if n == 0 then 1.0 else x * Pow(x, n - 1)
  }

  lemma {:induction false} PowPositive(x: real, n: nat)
    requires x > 0.0
    ensures Pow(x, n) > 0.0
  {
    if n > 0 {
      PowPositive(x, n - 1);
      MulPositive(x, Pow(x, n - 1));
    }
  }

  lemma MulPositive(x: real, y: real)
    requires x > 0.0 && y > 0.0
    ensures x * y > 0.0
  {
  }

  /** n!, as the float `factorial` is declared to return; never below 1. */
  function Factorial(n: nat): (r: real)
    ensures r >= 1.0
  {
    if n == 0 then 1.0 else n as real * Factorial(n - 1)
  }

  /** a^k / k!, the k-th term of the series in the P0 denominator. */
  function Term(a: real, k: nat): real
  {
    Pow(a, k) / Factorial(k)
  }

  lemma TermPositive(a: real, k: nat)
    requires a > 0.0
    ensures Term(a, k) > 0.0
  {
    PowPositive(a, k);
  }

  /** Consecutive terms are related by the ratio recurrence
      term_(k+1) = term_k * a / (k + 1), stated as (k + 1) * term_(k+1) = a * term_k. */
  lemma TermRatio(a: real, k: nat, k1: nat)
    requires k1 == k + 1
    ensures Term(a, k1) * k1 as real == Term(a, k) * a
  {
    var p, p1 := Pow(a, k), Pow(a, k1);
    var f, f1 := Factorial(k), Factorial(k1);
    PowSucc(a, k, k1, p, p1);
    FactorialSucc(k, k1, f, f1);
    var k1r := k1 as real;
    ScaledQuotient(p, f, a, k1r);
    assert Term(a, k1) == (a * p) / (k1r * f);
  }

  /** (a * p) / (k * f) * k == p / f * a for positive f and k. */
  lemma ScaledQuotient(p: real, f: real, a: real, k: real)
    requires f > 0.0 && k > 0.0
    ensures (a * p) / (k * f) * k == p / f * a
  {
    assert (a * p) / (k * f) * (k * f) == a * p;
    assert p / f * f == p;
    assert (a * p) / (k * f) * k * f == p / f * a * f;
  }

  /** x^(k+1) = x * x^k, stated on the two powers passed as values. */
  lemma PowSucc(x: real, k: nat, k1: nat, p: real, p1: real)
    requires k1 == k + 1 && p == Pow(x, k) && p1 == Pow(x, k1)
    ensures p1 == x * p
  {
  }

  /** (k+1)! = (k+1) * k!, stated on the two factorials passed as values. */
  lemma FactorialSucc(k: nat, k1: nat, f: real, f1: real)
    requires k1 == k + 1 && f == Factorial(k) && f1 == Factorial(k1)
    ensures f1 == k1 as real * f
  {
  }

  /** Sum of a^k / k! for k = 0 .. c - 1 (the `sum_term` of the source). */
  function SumTerm(a: real, c: nat): real
  {
    if c == 0 then 0.0 else SumTerm(a, c - 1) + Term(a, c - 1)
  }

  /** A positive offered load gives a series that starts at 1 and grows. */
  lemma {:induction false} SumTermAtLeastOne(a: real, c: nat)
    requires a > 0.0 && c >= 1
    ensures SumTerm(a, c) >= 1.0
  {
    if c == 1 {
      assert Term(a, 0) == 1.0;
    } else {
      SumTermAtLeastOne(a, c - 1);
      TermPositive(a, c - 1);
    }
  }

  /** With a positive offered load the series only grows as terms are added. */
  lemma {:induction false} SumTermGrows(a: real, m: nat, c: nat)
    requires a > 0.0 && m <= c
    ensures SumTerm(a, m) <= SumTerm(a, c)
    decreases c - m
  {
    if m < c {
      SumTermGrows(a, m, c - 1);
      TermPositive(a, c - 1);
    }
  }

  /** (a^c / c!) * (c / (c - a)), the tail of the P0 denominator
      (the `last_term` of the source). */
  function LastTerm(a: real, c: nat): real
    requires c as real != a
  {
    Term(a, c) * (c as real / (c as real - a))
  }

  /** The normalising constant whose reciprocal is P0. */
  function P0Denominator(a: real, c: nat): real
    requires c as real != a
  {
    SumTerm(a, c) + LastTerm(a, c)
  }

  /** For 0 < a < c both parts of the denominator are positive and the
      series part is at least 1, so the denominator exceeds 1. */
  lemma P0DenominatorBounds(a: real, c: nat)
    requires 0.0 < a < c as real
    ensures SumTerm(a, c) >= 1.0 && LastTerm(a, c) > 0.0 && P0Denominator(a, c) > 1.0
  {
    SumTermAtLeastOne(a, c);
    TermPositive(a, c);
    var cr := c as real;
    var g := cr - a;
    DivPositive(cr, g);
    MulPositive(Term(a, c), cr / g);
  }

  lemma DivPositive(x: real, y: real)
    requires x > 0.0 && y > 0.0
    ensures x / y > 0.0
  {
    DivUnique(x, y, x / y);
    if x / y <= 0.0 {
      MulMono(x / y, 0.0, y);
    }
  }

  lemma P0Split(a: real, c: nat)
    requires c as real != a
    ensures P0Denominator(a, c) == SumTerm(a, c) + LastTerm(a, c)
    ensures LastTerm(a, c) == Term(a, c) * (c as real / (c as real - a))
  {
  }

  /** `calculate_p0`: P0 = 1 / (sum_term + last_term).  A negative server
      count makes `factorial` raise; c = a and a zero denominator divide by
      zero (c = 0 always does: both terms vanish). */
  function CalculateP0(a: real, c: int): (r: Result<real>)
    ensures c < 0 ==> r == Failure(ValueError)
    ensures c >= 0 && c as real == a ==> r == Failure(ZeroDivisionError)
    ensures c == 0 ==> r == Failure(ZeroDivisionError)
    ensures r.Success? ==> c >= 1 && c as real != a && r.value * P0Denominator(a, c) == 1.0
  {
    if c < 0 then Failure(ValueError)
    else if c as real == a then Failure(ZeroDivisionError)
    else if P0Denominator(a, c) == 0.0 then Failure(ZeroDivisionError)
    else Success(1.0 / P0Denominator(a, c))
  }

  /** In a stable system (0 < a < c) P0 is computed and is a probability
      strictly between 0 and 1. */
  lemma P0Bounds(a: real, c: int)
    requires 0.0 < a < c as real
    ensures CalculateP0(a, c).Success? && 0.0 < CalculateP0(a, c).value < 1.0
  {
    P0DenominatorBounds(a, c);
    var d := P0Denominator(a, c);
    ReciprocalBelowOne(d, CalculateP0(a, c).value);
  }

  lemma ReciprocalBelowOne(d: real, p: real)
    requires d > 1.0 && p * d == 1.0
    ensures 0.0 < p < 1.0
  {
    if p <= 0.0 {
      MulMono(p, 0.0, d);
    } else if p >= 1.0 {
      MulMono(1.0, p, d);
    }
  }

  /** `calculate_erlang_c`: 1 when rho >= 1, otherwise
      (a^c / c!) * P0 / (1 - rho), failing as `calculate_p0` does. */
  function CalculateErlangC(a: real, c: int, rho: real): (r: Result<real>)
    ensures rho >= 1.0 ==> r == Success(1.0)
    ensures rho < 1.0 ==> (r.Failure? <==> CalculateP0(a, c).Failure?)
    ensures rho < 1.0 && r.Failure? ==> r.error == CalculateP0(a, c).error
  {
    if rho >= 1.0 then Success(1.0)
    else
      match CalculateP0(a, c)
      case Failure(e) => Failure(e)
      case Success(p0) =>
        var numerator := Term(a, c);
        var denominator := 1.0 - rho;
        Success(numerator * p0 / denominator)
  }

  /** With rho = a / c < 1, Erlang C is the share of last_term in the P0
      denominator, a probability strictly between 0 and 1. */
  lemma ErlangCBounds(a: real, c: int)
    requires 0.0 < a < c as real
    ensures CalculateErlangC(a, c, a / c as real).Success?
    ensures CalculateErlangC(a, c, a / c as real).value == LastTerm(a, c) / P0Denominator(a, c)
    ensures 0.0 < CalculateErlangC(a, c, a / c as real).value < 1.0
  {
    var cr := c as real;
    var rho := a / cr;
    RatioBelowOne(a, cr);
    P0Bounds(a, c);
    var p0 := CalculateP0(a, c).value;
    ErlangCFormula(a, c, rho, p0);
    ErlangCValue(a, c, rho, p0);
  }

  lemma ErlangCFormula(a: real, c: int, rho: real, p0: real)
    requires rho < 1.0 && CalculateP0(a, c) == Success(p0)
    ensures CalculateErlangC(a, c, rho).Success?
    ensures CalculateErlangC(a, c, rho).value == Term(a, c) * p0 / (1.0 - rho)
  {
  }

  lemma RatioBelowOne(a: real, cr: real)
    requires 0.0 < a < cr
    ensures 0.0 < a / cr < 1.0
  {
    DivPositive(a, cr);
    QuotientProduct(a, cr, a / cr);
    if a / cr >= 1.0 {
      MulMono(1.0, a / cr, cr);
    }
  }

  lemma ErlangCValue(a: real, c: nat, rho: real, p0: real)
    requires 0.0 < a < c as real && rho == a / c as real
    requires p0 * P0Denominator(a, c) == 1.0
    ensures Term(a, c) * p0 / (1.0 - rho) == LastTerm(a, c) / P0Denominator(a, c)
    ensures 0.0 < LastTerm(a, c) / P0Denominator(a, c) < 1.0
  {
    P0DenominatorBounds(a, c);
    TermPositive(a, c);
    P0Split(a, c);
    var cr := c as real;
    ErlangCAlgebra(Term(a, c), p0, a, cr, SumTerm(a, c), LastTerm(a, c), P0Denominator(a, c));
  }

  lemma DivUnique(x: real, y: real, z: real)
    requires y != 0.0 && z * y == x
    ensures x / y == z
  {
  }

  /** The field identity behind ErlangCValue, over plain reals:
      t * p0 / (1 - a/c) is the share of last = t * c/(c - a) in d = s + last. */
  lemma ErlangCAlgebra(t: real, p0: real, a: real, cr: real, s: real, last: real, d: real)
    requires 0.0 < a < cr && t > 0.0 && s >= 1.0
    requires last == t * (cr / (cr - a)) && d == s + last && p0 * d == 1.0
    ensures t * p0 / (1.0 - a / cr) == last / d
    ensures 0.0 < last / d < 1.0
  {
    var q := cr / (cr - a);
    DivUnique(cr - a, cr, 1.0 - a / cr);
    assert 1.0 / (1.0 - a / cr) == q;
    assert p0 == 1.0 / d;
    calc {
      t * p0 / (1.0 - a / cr);
      t * p0 * q;
      last * p0;
      last / d;
    }
    assert q > 0.0;
    assert last > 0.0;
  }

  /** rho < 1 means fewer offered erlangs than servers, and spare capacity. */
  lemma StableLoad(lam: real, mu: real, c: nat, rho: real, a: real)
    requires lam > 0.0 && mu > 0.0 && c > 0
    requires rho == lam / (c as real * mu) && a == lam / mu && rho < 1.0
    ensures 0.0 < a < c as real && rho == a / c as real
    ensures lam < c as real * mu
  {
    var cr := c as real;
    var cap := cr * mu;
    MulPositive(cr, mu);
    QuotientProduct(lam, cap, rho);
    QuotientProduct(lam, mu, a);
    MulStrict(rho, 1.0, cap);
    MulCancel(a, cr, mu);
    PositiveFactor(a, mu, lam);
    EqualRatio(rho, cr, mu, a);
  }

  lemma QuotientProduct(x: real, y: real, z: real)
    requires y != 0.0 && z == x / y
    ensures z * y == x
  {
  }

  lemma PositiveFactor(x: real, y: real, z: real)
    requires y > 0.0 && z > 0.0 && x * y == z
    ensures x > 0.0
  {
    if x <= 0.0 {
      MulMono(x, 0.0, y);
    }
  }

  lemma EqualRatio(rho: real, cr: real, mu: real, a: real)
    requires cr > 0.0 && mu > 0.0 && rho * (cr * mu) == a * mu
    ensures rho == a / cr
  {
    assert (rho * cr) * mu == a * mu;
    assert rho * cr == a;
    DivUnique(a, cr, rho);
  }

  lemma MulStrict(x: real, y: real, z: real)
    requires x < y && z > 0.0
    ensures x * z < y * z
  {
  }

  lemma MulCancel(x: real, y: real, z: real)
    requires x * z < y * z && z > 0.0
    ensures x < y
  {
    if x >= y {
      MulMono(y, x, z);
    }
  }

  lemma MulMono(x: real, y: real, z: real)
    requires x <= y && z > 0.0
    ensures x * z <= y * z
  {
  }
}
