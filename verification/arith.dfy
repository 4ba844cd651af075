/** Exact integer arithmetic shared by the puzzle models: powers, factorials,
    the greatest common divisor and binomial coefficients. Each is a plain
    recursive definition, standing in for Python's `**`, `math.factorial`
    and `fractions.gcd`. */
module Arith {

  /** b raised to the e-th power. */
  function Pow(b: int, e: nat): (r: int)
    ensures b > 0 ==> r > 0
  {
    if e == 0 then 1 else b * Pow(b, e - 1)
  }

  lemma {:induction false} PowOne(e: nat)
    ensures Pow(1, e) == 1
  {
    if e > 0 {
      PowOne(e - 1);
    }
  }

  lemma {:induction false} PowAdd(b: int, e1: nat, e2: nat)
    ensures Pow(b, e1 + e2) == Pow(b, e1) * Pow(b, e2)
  {
    if e1 > 0 {
      PowAdd(b, e1 - 1, e2);
      assert Pow(b, e1 + e2) == b * Pow(b, e1 - 1 + e2);
    }
  }

  /** n! */
  function Factorial(n: nat): (r: nat)
    ensures r >= 1
  {
    if n == 0 then 1 else n * Factorial(n - 1)
  }

  /** The greatest common divisor, by Euclid's subtraction rule; Gcd(a, 0) == a. */
  function Gcd(a: nat, b: nat): nat
    decreases a + b
  {
    if a == 0 then b
    else if b == 0 then a
    else if a > b then Gcd(a - b, b)
    else Gcd(a, b - a)
  }

  /** d divides n (for a nonzero d). */
  predicate Divides(d: int, n: int)
    requires d != 0
  {
    n % d == 0
  }

  lemma {:induction false} GcdSymmetric(a: nat, b: nat)
    ensures Gcd(a, b) == Gcd(b, a)
    decreases a + b
  {
    if a != 0 && b != 0 && a != b {
      if a > b {
        GcdSymmetric(a - b, b);
      } else {
        GcdSymmetric(a, b - a);
      }
    }
  }

  lemma {:induction false} GcdPositive(a: nat, b: nat)
    requires a > 0 || b > 0
    ensures Gcd(a, b) > 0
    decreases a + b
  {
    if a != 0 && b != 0 {
      if a > b {
        GcdPositive(a - b, b);
      } else if a < b {
        GcdPositive(a, b - a);
      }
    }
  }

  lemma {:induction false} GcdSubtract(a: nat, b: nat, k: nat)
    requires b > 0 && a >= k * b
    ensures Gcd(a - k * b, b) == Gcd(a, b)
  {
    if k > 0 {
      assert (k - 1) * b == k * b - b;
      GcdSubtract(a - b, b, k - 1);
      assert a - b - (k - 1) * b == a - k * b;
    }
  }

  /** Reducing one argument modulo the other keeps the gcd (Euclid's step). */
  lemma GcdMod(a: nat, b: nat)
    requires b > 0
    ensures Gcd(a % b, b) == Gcd(a, b)
  {
    assert a == (a / b) * b + a % b;
    GcdSubtract(a, b, a / b);
  }

  lemma MulAtLeast(d: int, z: int)
    requires d > 0 && z >= 1
    ensures d * z >= d
  {}

  lemma DivModUnique(d: int, n: int, q: int, r: int)
    requires d > 0 && n == d * q + r && 0 <= r < d
    ensures n % d == r
  {
    var q' := n / d;
    var r' := n % d;
    assert n == d * q' + r';
    assert d * (q - q') == r' - r;
    if q - q' >= 1 {
      MulAtLeast(d, q - q');
    } else if q - q' <= -1 {
      MulAtLeast(d, q' - q);
    }
  }

  lemma ModShift(d: int, x: int, k: int)
    requires d > 0
    ensures (x + d * k) % d == x % d
  {
    assert x == d * (x / d) + x % d;
    assert x + d * k == d * (x / d + k) + x % d;
    DivModUnique(d, x + d * k, x / d + k, x % d);
  }

  lemma DividesSelf(n: int)
    requires n > 0
    ensures Divides(n, n) && Divides(n, 0)
  {
  }

  lemma DividesSum(d: int, x: int, y: int)
    requires d > 0 && Divides(d, x) && Divides(d, y)
    ensures Divides(d, x + y)
  {
    var q := y / d;
    assert y == d * q;
    ModShift(d, x, q);
  }

  lemma DividesDifference(d: int, x: int, y: int)
    requires d > 0 && Divides(d, x) && Divides(d, y)
    ensures Divides(d, x - y)
  {
    var q := y / d;
    assert y == d * q;
    ModShift(d, x, -q);
    assert x - y == x + d * (-q);
  }

  /** Gcd divides both of its arguments. */
  lemma {:induction false} GcdDividesBoth(a: nat, b: nat)
    requires a > 0 || b > 0
    ensures Gcd(a, b) > 0 && Divides(Gcd(a, b), a) && Divides(Gcd(a, b), b)
    decreases a + b
  {
    GcdPositive(a, b);
    if a == 0 {
      DividesSelf(b);
    } else if b == 0 || a == b {
      DividesSelf(a);
    } else if a > b {
      GcdDividesBoth(a - b, b);
      DividesSum(Gcd(a - b, b), a - b, b);
      assert a - b + b == a;
    } else {
      GcdDividesBoth(a, b - a);
      DividesSum(Gcd(a, b - a), b - a, a);
      assert b - a + a == b;
    }
  }

  /** Every common divisor of a and b divides Gcd(a, b): Gcd is the greatest one. */
  lemma {:induction false} CommonDivisorDividesGcd(a: nat, b: nat, d: int)
    requires d > 0 && Divides(d, a) && Divides(d, b)
    requires a > 0 || b > 0
    ensures Gcd(a, b) > 0 && Divides(d, Gcd(a, b))
    decreases a + b
  {
    GcdPositive(a, b);
    if a == 0 {
      DividesSelf(b);
    } else if b == 0 || a == b {
      DividesSelf(a);
    } else if a > b {
      DividesDifference(d, a, b);
      CommonDivisorDividesGcd(a - b, b, d);
    } else {
      DividesDifference(d, b, a);
      CommonDivisorDividesGcd(a, b - a, d);
    }
  }

  /** The binomial coefficient by Pascal's rule; 0 when k > n. */
  function Binomial(n: nat, k: nat): nat
  {
    if k == 0 then 1
    else if n == 0 then 0
    else Binomial(n - 1, k - 1) + Binomial(n - 1, k)
  }

  lemma {:induction false} BinomialAboveIsZero(n: nat, k: nat)
    requires k > n
    ensures Binomial(n, k) == 0
  {
    if n > 0 {
      BinomialAboveIsZero(n - 1, k - 1);
      BinomialAboveIsZero(n - 1, k);
    }
  }

  lemma {:induction false} BinomialFull(n: nat)
    ensures Binomial(n, n) == 1
  {
    if n > 0 {
      BinomialFull(n - 1);
      BinomialAboveIsZero(n - 1, n);
    }
  }

  lemma MulSwap(a: int, k: int, x: int)
    ensures a * (k * x) == k * (a * x)
  {}

  lemma MulDistrib(a: int, b: int, x: int)
    ensures (a + b) * x == a * x + b * x
  {}

  lemma PascalStep(n: int, k: int, a: int, b: int, fk1: int, fk: int, fnk: int, fmk: int, fm: int)
    requires fk == k * fk1 && fnk == (n - k) * fmk
    requires a * (fk1 * fnk) == fm && b * (fk * fmk) == fm
    ensures (a + b) * (fk * fnk) == n * fm
  {
    MulDistrib(a, b, fk * fnk);
    calc {
      a * (fk * fnk);
      a * ((k * fk1) * fnk);
      { assert (k * fk1) * fnk == k * (fk1 * fnk); }
      a * (k * (fk1 * fnk));
      { MulSwap(a, k, fk1 * fnk); }
      k * (a * (fk1 * fnk));
    }
    calc {
      b * (fk * fnk);
      b * (fk * ((n - k) * fmk));
      { MulSwap(fk, n - k, fmk); }
      b * ((n - k) * (fk * fmk));
      { MulSwap(b, n - k, fk * fmk); }
      (n - k) * (b * (fk * fmk));
    }
    MulDistrib(k, n - k, fm);
  }

  /** Pascal's coefficient agrees with the factorial formula n! / (k! (n-k)!). */
  lemma {:induction false} BinomialTimesFactorials(n: nat, k: nat)
    requires k <= n
    ensures Binomial(n, k) * (Factorial(k) * Factorial(n - k)) == Factorial(n)
  {
    if k == 0 {
    } else if k == n {
      BinomialFull(n);
    } else {
      var m := n - 1;
      BinomialTimesFactorials(m, k - 1);
      BinomialTimesFactorials(m, k);
      assert m - (k - 1) == n - k;
      PascalStep(n, k, Binomial(m, k - 1), Binomial(m, k), Factorial(k - 1), Factorial(k),
                 Factorial(n - k), Factorial(m - k), Factorial(m));
    }
  }
}
