/** Fractions of an unsigned 64-bit numerator and an int denominator, reckoned in place: nx_math. */
module Fractions {

  const U64 := 0x1_0000_0000_0000_0000
  const LONG_MAX := 0x7fff_ffff_ffff_ffff
  const INT_MAX := 0x7fff_ffff

  /** struct nx_num as a value. 0/0 is what a sum starts from. */
  datatype Frac = Frac(n: nat, d: nat)

  /** Conversion to a 32-bit int. */
  function ToInt(x: int): int {
    (x + 0x8000_0000) % 0x1_0000_0000 - 0x8000_0000
  }

  predicate Divides(k: int, x: int)
    requires k > 0
  {
    x % k == 0
  }

  ghost predicate LowestTerms(f: Frac) {
    forall k :: k > 0 && Divides(k, f.n) && Divides(k, f.d) ==> k == 1
  }

  /** Equal as rational numbers. */
  predicate SameRatio(a: Frac, b: Frac) {
    a.n * b.d == b.n * a.d
  }

  // ---------- Divisibility ----------

  lemma {:induction false} SmallMultiple(k: int, x: int)
    requires k > 0 && -k < k * x < k
    ensures x == 0
  {
  }

  lemma {:induction false} MultipleDivides(k: int, q: int)
    requires k > 0
    ensures Divides(k, k * q) && (k * q) / k == q
  {
    var x := k * q;
    assert x == k * (x / k) + x % k;
    assert k * (q - x / k) == x % k;
    SmallMultiple(k, q - x / k);
  }

  lemma {:induction false} DividesTimes(k: int, x: int, y: int)
    requires k > 0 && Divides(k, x)
    ensures Divides(k, x * y)
  {
    assert x == k * (x / k);
    assert x * y == k * (x / k * y);
    MultipleDivides(k, x / k * y);
  }

  lemma {:induction false} DividesSum(k: int, x: int, y: int)
    requires k > 0 && Divides(k, x)
    ensures Divides(k, x + y) <==> Divides(k, y)
  {
    assert x == k * (x / k);
    if Divides(k, y) {
      assert y == k * (y / k);
      assert x + y == k * (x / k + y / k);
      MultipleDivides(k, x / k + y / k);
    }
    if Divides(k, x + y) {
      assert x + y == k * ((x + y) / k);
      assert y == k * ((x + y) / k - x / k);
      MultipleDivides(k, (x + y) / k - x / k);
    }
  }

  /** One step of Euclid's loop keeps the common divisors. */
  lemma {:induction false} EuclidStep(k: int, n: int, m: int)
    requires k > 0 && n > 0
    ensures Divides(k, n) && Divides(k, m) <==> Divides(k, m % n) && Divides(k, n)
  {
    assert m == n * (m / n) + m % n;
    if Divides(k, n) {
      DividesTimes(k, n, m / n);
      DividesSum(k, n * (m / n), m % n);
    }
  }

  /** g is the greatest common divisor of a and b: it divides both, and every common divisor divides it. */
  ghost predicate IsGcd(g: int, a: int, b: int) {
    && g > 0 && Divides(g, a) && Divides(g, b)
    && forall k :: k > 0 && Divides(k, a) && Divides(k, b) ==> Divides(k, g)
  }

  /** nx_gcd(n, d). The remainder and the result pass through an int, which never loses any of them. */
  method Gcd(n: int, d: int) returns (g: int)
    requires 0 < n <= LONG_MAX && 0 < d <= INT_MAX
    ensures IsGcd(g, n, d) && g <= d
  {
    var a, m := n, d;
    while a != 0
      invariant 0 <= a <= LONG_MAX && 0 < m <= LONG_MAX && (m <= d || 0 < a <= d)
      invariant forall k :: k > 0 ==> (Divides(k, a) && Divides(k, m) <==> Divides(k, n) && Divides(k, d))
      decreases a
    {
      assert 0 <= m % a < a && m % a <= m;
      var remainder := ToInt(m % a);
      assert remainder == m % a;
      forall k | k > 0 ensures Divides(k, remainder) && Divides(k, a) <==> Divides(k, n) && Divides(k, d) {
        EuclidStep(k, a, m);
      }
      if remainder == 0 { DividesLess(a, m); }
      m := a;
      a := remainder;
    }
    g := ToInt(m);
    assert g == m;
    assert Divides(g, 0) && Divides(g, g) by { MultipleDivides(g, 1); }
  }

  lemma {:induction false} DividesLess(k: int, x: int)
    requires k > 0 && x > 0 && Divides(k, x)
    ensures k <= x
  {
    assert x == k * (x / k);
  }

  lemma {:induction false} SmallFactor(g: int, k: int)
    requires g > 0 && k > 0 && g * k <= g
    ensures k == 1
  {
  }

  /** Taking the greatest common divisor out leaves lowest terms of the same ratio. */
  lemma {:induction false} Reduced(n: nat, d: nat, g: int)
    requires n > 0 && d > 0 && IsGcd(g, n, d)
    ensures 0 < n / g <= n && 0 < d / g <= d
    ensures LowestTerms(Frac(n / g, d / g)) && SameRatio(Frac(n / g, d / g), Frac(n, d))
  {
    var a, b := n / g, d / g;
    assert n == g * a && d == g * b;
    FactorLess(g, a);
    FactorLess(g, b);
    ReducedTerms(a, b, g);
    CrossEqual(a, b, g);
  }

  lemma {:induction false} CrossEqual(a: nat, b: nat, g: int)
    ensures a * (g * b) == (g * a) * b
  {
  }

  lemma {:induction false} FactorLess(g: int, a: int)
    requires g > 0 && g * a > 0
    ensures 0 < a <= g * a
  {
  }

  lemma {:induction false} ReducedTerms(a: nat, b: nat, g: int)
    requires g > 0 && a > 0 && IsGcd(g, g * a, g * b)
    ensures LowestTerms(Frac(a, b))
  {
    forall k | k > 0 && Divides(k, a) && Divides(k, b) ensures k == 1 {
      assert g * k > 0;
      TimesDivides(g, k, a);
      TimesDivides(g, k, b);
      assert Divides(g * k, g);
      DividesLess(g * k, g);
      SmallFactor(g, k);
    }
  }

  lemma {:induction false} TimesDivides(g: int, k: int, x: int)
    requires g > 0 && k > 0 && Divides(k, x)
    ensures g * k > 0 && Divides(g * k, g * x)
  {
    assert x == k * (x / k);
    assert g * x == (g * k) * (x / k);
    MultipleDivides(g * k, x / k);
  }

  // ---------- Products ----------

  function Product(a: Frac, b: Frac): Frac { Frac(Times(a.n, b.n), Times(a.d, b.d)) }

  /** Equal ratios have equal products: the product is one of rational numbers. */
  lemma {:induction false} ProductOfRatios(a: Frac, b: Frac, c: Frac, d: Frac)
    requires SameRatio(a, c) && SameRatio(b, d)
    ensures SameRatio(Product(a, b), Product(c, d))
  {
    FourFactors(a.n, b.n, c.d, d.d);
    FourFactors(c.n, d.n, a.d, b.d);
  }

  lemma {:induction false} FourFactors(x: nat, y: nat, z: nat, w: nat)
    ensures Times(x, y) * Times(z, w) == (x * z) * (y * w)
  {
    assert (x * y) * (z * w) == ((x * z) * y) * w;
  }

  // ---------- Sums ----------

  /** A product, kept as one thing. */
  function Times(x: nat, y: nat): nat { x * y }

  function Quotient(x: nat, y: nat): nat
    requires y > 0
  {
    x / y
  }

  /** nx_add_frac on values without bounds. */
  function Sum(a: Frac, b: Frac): Frac {
    if a.n == 0 && a.d == 0 then b
    else if b.n == 0 || b.d == 0 then a
    else if a.d == 0 then b
    else if a.d == b.d then Frac(a.n + b.n, a.d)
    else if b.d > a.d && b.d % a.d == 0 then Frac(Times(a.n, Quotient(b.d, a.d)) + b.n, b.d)
    else if a.d % b.d == 0 then Frac(a.n + Times(b.n, Quotient(a.d, b.d)), a.d)
    else Frac(Times(a.n, b.d) + Times(b.n, a.d), Times(a.d, b.d))
  }

  /** Numerator and denominator, 0/0 counting as 0/1. */
  function Top(f: Frac): (r: nat)
    ensures f.d > 0 ==> r == f.n
  {
    if f.d == 0 then 0 else f.n
  }

  function Bottom(f: Frac): (r: nat)
    ensures r > 0 && (f.d > 0 ==> r == f.d)
  {
    if f.d == 0 then 1 else f.d
  }

  /** r is the rational sum of a and b. */
  predicate IsSum(r: Frac, a: Frac, b: Frac) {
    Top(r) * (Bottom(a) * Bottom(b)) == (Top(a) * Bottom(b) + Top(b) * Bottom(a)) * Bottom(r)
  }

  /** Every branch gives the rational sum. */
  lemma {:induction false} SumIsExact(a: Frac, b: Frac)
    requires (a.d == 0 ==> a.n == 0) && (b.d == 0 ==> b.n == 0)
    ensures IsSum(Sum(a, b), a, b)
    ensures Sum(a, b).d == 0 ==> Sum(a, b).n == 0
  {
    hide IsSum;
    if a.d == 0 || b.n == 0 || b.d == 0 {
      SumWithNothing(a, b);
    } else if a.d == b.d {
      SumOfEqual(a, b);
    } else if b.d > a.d && b.d % a.d == 0 {
      SumOverRight(a, b);
    } else if a.d % b.d == 0 {
      SumOverLeft(a, b);
    } else {
      SumCrossed(a, b);
    }
  }

  /** It is over the larger denominator where the other divides it, and over their product where neither does. */
  lemma {:induction false} SumBottom(a: Frac, b: Frac)
    requires a.d > 0 && b.d > 0 && b.n > 0
    ensures Sum(a, b).d == if a.d % b.d == 0 then a.d else if b.d % a.d == 0 then b.d else a.d * b.d
  {
    if a.d != b.d && a.d % b.d == 0 && b.d % a.d == 0 {
      DividesLess(a.d, b.d);
      DividesLess(b.d, a.d);
      assert false;
    } else if b.d % a.d == 0 {
      DividesLess(a.d, b.d);
    }
  }

  lemma {:induction false} SumWithNothing(a: Frac, b: Frac)
    requires (a.d == 0 ==> a.n == 0) && (b.d == 0 ==> b.n == 0)
    ensures a.d == 0 ==> IsSum(b, a, b)
    ensures b.n == 0 || b.d == 0 ==> IsSum(a, a, b)
  {
  }

  lemma {:induction false} SumOfEqual(a: Frac, b: Frac)
    requires a.d == b.d > 0
    ensures IsSum(Frac(a.n + b.n, a.d), a, b)
  {
    EqualBelow(a.n, b.n, a.d);
  }

  lemma {:induction false} SumOverRight(a: Frac, b: Frac)
    requires a.d > 0 && b.d > 0 && b.d % a.d == 0
    ensures IsSum(Frac(Times(a.n, Quotient(b.d, a.d)) + b.n, b.d), a, b)
  {
    DivisionExact(b.d, a.d);
    Scaled(a.n, a.d, b.n, b.d, Quotient(b.d, a.d));
  }

  lemma {:induction false} SumOverLeft(a: Frac, b: Frac)
    requires a.d > 0 && b.d > 0 && a.d % b.d == 0
    ensures IsSum(Frac(a.n + Times(b.n, Quotient(a.d, b.d)), a.d), a, b)
  {
    DivisionExact(a.d, b.d);
    Scaled(b.n, b.d, a.n, a.d, Quotient(a.d, b.d));
    Commutes(a.d, b.d);
  }

  lemma {:induction false} SumCrossed(a: Frac, b: Frac)
    requires a.d > 0 && b.d > 0
    ensures IsSum(Frac(Times(a.n, b.d) + Times(b.n, a.d), Times(a.d, b.d)), a, b) && Times(a.d, b.d) > 0
  {
    Crossed(a.d, b.d);
  }

  lemma {:induction false} EqualBelow(n: nat, m: nat, d: nat)
    ensures (n + m) * (d * d) == (n * d + m * d) * d
  {
    assert (n + m) * d == n * d + m * d;
    assert (n + m) * (d * d) == ((n + m) * d) * d;
  }

  lemma {:induction false} DivisionExact(x: nat, y: nat)
    requires y > 0 && x % y == 0
    ensures x == y * Quotient(x, y)
  {
  }

  lemma {:induction false} Scaled(n: nat, d: nat, m: nat, e: nat, q: nat)
    requires e == d * q
    ensures (Times(n, q) + m) * (d * e) == (n * e + m * d) * e
  {
    assert (n * q) * d == n * (d * q);
    assert (n * q + m) * d == (n * q) * d + m * d;
    assert (n * q + m) * (d * e) == ((n * q + m) * d) * e;
  }

  lemma {:induction false} Commutes(x: nat, y: nat)
    ensures x * y == y * x
  {
  }

  lemma {:induction false} Crossed(x: nat, y: nat)
    requires x > 0 && y > 0
    ensures x * y > 0
  {
  }

  /** Reckoning modulo 2^64. */
  function Wrap(x: nat): (r: nat)
    ensures r < U64 == 0x1_0000_0000_0000_0000
    ensures x < U64 ==> r == x
  {
    x % U64
  }

  lemma {:induction false} WrapSum(x: nat, y: nat)
    ensures Wrap(Wrap(x) + y) == Wrap(x + y) && Wrap(x + Wrap(y)) == Wrap(x + y)
  {
    var p, q := x / U64, y / U64;
    assert x == U64 * p + Wrap(x) && y == U64 * q + Wrap(y);
    hide Wrap;
    WrapMultiple(p, Wrap(x) + y);
    WrapMultiple(q, x + Wrap(y));
  }

  lemma {:induction false} WrapTimes(x: nat, y: nat)
    ensures Wrap(Times(Wrap(x), y)) == Wrap(Times(x, y))
  {
    var q, r := x / U64, x % U64;
    assert x == U64 * q + r;
    assert x * y == U64 * (q * y) + r * y by { WrapTimesParts(q, r, y); }
    WrapMultiple(q * y, r * y);
  }

  lemma {:induction false} WrapTimesParts(q: nat, r: nat, y: nat)
    ensures (U64 * q + r) * y == U64 * (q * y) + r * y
  {
  }

  lemma {:induction false} WrapMultiple(k: nat, x: nat)
    ensures Wrap(U64 * k + x) == Wrap(x)
  {
  }

  lemma {:induction false} CrossQuotients(x: nat, y: nat)
    requires x > 0 && y > 0
    ensures Quotient(Times(x, y), x) == y && Quotient(Times(x, y), y) == x
  {
    MultipleDivides(x, y);
    MultipleDivides(y, x);
    Commutes(x, y);
  }

  class Num {
    var n: nat
    var d: nat

    constructor (n: nat, d: nat)
      ensures this.n == n && this.d == d
    {
      this.n, this.d := n, d;
    }

    function Value(): Frac
      reads this
    {
      Frac(n, d)
    }

    /** nx_add_frac, numerators reckoned modulo 2^64: it is the sum exactly when the sum's numerator fits. The
        sum's denominator must fit an int. */
    method AddFrac(other: Frac)
      requires n < U64 && other.n < U64 && Sum(Value(), other).d <= INT_MAX
      modifies this
      ensures var r := Sum(old(Value()), other); Value() == Frac(Wrap(r.n), r.d)
    {
      hide Wrap;
      if n == 0 && d == 0 {
        n, d := other.n, other.d;
        return;
      }
      if other.n == 0 || other.d == 0 { return; }
      if d == 0 {
        n, d := other.n, other.d;
      } else if d == other.d {
        n := Wrap(n + other.n);
      } else if other.d > d && other.d % d == 0 {
        WrapSum(Times(n, Quotient(other.d, d)), other.n);
        n := Wrap(Times(n, Quotient(other.d, d)));
        d := other.d;
        n := Wrap(n + other.n);
      } else if d % other.d == 0 {
        WrapSum(n, Times(other.n, Quotient(d, other.d)));
        var term := Wrap(Times(other.n, Quotient(d, other.d)));
        n := Wrap(n + term);
      } else {
        CrossQuotients(d, other.d);
        WrapSum(Times(n, other.d), Times(other.n, d));
        WrapSum(Wrap(Times(n, other.d)), Times(other.n, d));
        var oden := d;
        d := Times(d, other.d);
        n := Wrap(Times(n, Quotient(d, oden)));
        var term := Wrap(Times(other.n, Quotient(d, other.d)));
        n := Wrap(n + term);
      }
    }

    /** nx_mul_frac: the product, its numerator modulo 2^64. */
    method MulFrac(other: Frac)
      requires Times(d, other.d) <= INT_MAX
      modifies this
      ensures Product(old(Value()), other).n < U64 ==> Value() == Product(old(Value()), other)
      ensures n == Wrap(Product(old(Value()), other).n) && d == Product(old(Value()), other).d
    {
      n := Wrap(Times(n, other.n));
      d := Times(d, other.d);
    }

    /** nx_simplify: lowest terms of the same ratio; a fraction with a zero in it stays as it is. */
    method Simplify()
      requires n <= LONG_MAX && d <= INT_MAX
      modifies this
      ensures old(n == 0 || d == 0) ==> Value() == old(Value())
      ensures old(n > 0 && d > 0) ==> n > 0 && d > 0 && LowestTerms(Value()) && SameRatio(Value(), old(Value()))
      ensures n <= old(n) && d <= old(d)
    {
      if n == 0 || d == 0 { return; }
      var gcd := Gcd(n, d);
      Reduced(n, d, gcd);
      n := n / gcd;
      d := d / gcd;
    }
  }

  /** nx_div_num: the quotient in lowest terms. */
  method DivNum(divide: Frac, divisor: Frac) returns (res: Frac)
    requires divide.d <= INT_MAX && 0 < divisor.n <= INT_MAX && 0 < divisor.d <= INT_MAX
    requires divide.n * divisor.d <= LONG_MAX && divide.d * divisor.n <= INT_MAX
    ensures divide.n > 0 && divide.d > 0 ==>
              res.n > 0 && res.d > 0 && LowestTerms(res) &&
                  res.n * (divide.d * divisor.n) == (divide.n * divisor.d) * res.d
    ensures res.d <= INT_MAX
    ensures divide.n == 0 || divide.d == 0 ==> res == Frac(divide.n * divisor.d, divide.d * divisor.n)
  {
    var d := divisor.d;
    var byD, byN := ToInt(divisor.n), d;
    assert byD == divisor.n;
    assert divide.n > 0 && divide.d > 0 ==> divide.n * byN > 0 && divide.d * byD > 0;
    var r := new Num((divide.n * byN) % U64, divide.d * byD);
    r.Simplify();
    res := r.Value();
  }
}
