/** The number theory behind the pager link's textbook RSA: powers, the Euclidean
    property of primes, binomial coefficients, Fermat's little theorem, and the exponent
    cancellation that makes decryption undo encryption for every residue, including the
    ones that share a factor with the modulus. */
module NumberTheory {

  function Pow(b: int, e: nat): int
    decreases e
  {
    if e == 0 then 1 else b * Pow(b, e - 1)
  }

  ghost predicate Divides(d: int, n: int)
  {
    exists k: int :: n == d * k
  }

  ghost predicate IsPrime(p: int)
  {
    1 < p && forall d :: 2 <= d < p ==> p % d != 0
  }

  // ----- powers

  lemma {:induction false} PowAdd(b: int, x: nat, y: nat)
    ensures Pow(b, x + y) == Pow(b, x) * Pow(b, y)
  {
    if x == 0 {
    } else {
      PowAdd(b, x - 1, y);
      assert b * (Pow(b, x - 1) * Pow(b, y)) == (b * Pow(b, x - 1)) * Pow(b, y);
    }
  }

  lemma {:induction false} PowMul(b: int, x: nat, y: nat)
    ensures Pow(Pow(b, x), y) == Pow(b, x * y)
    decreases y
  {
    if y == 0 {
    } else {
      PowMul(b, x, y - 1);
      assert x * y == x + x * (y - 1);
      PowAdd(b, x, x * (y - 1));
    }
  }

  lemma {:induction false} ZeroPow(e: nat)
    requires 0 < e
    ensures Pow(0, e) == 0
  {
  }

  // ----- divisibility

  lemma DividesSum(d: int, a: int, b: int)
    requires Divides(d, a) && Divides(d, b)
    ensures Divides(d, a + b) && Divides(d, a - b)
  {
    var x :| a == d * x;
    var y :| b == d * y;
    assert a + b == d * (x + y);
    assert a - b == d * (x - y);
  }

  ghost function Quotient(d: int, n: int): (k: int)
    requires Divides(d, n)
    ensures n == d * k
  {
    var k :| n == d * k;
    k
  }

  lemma MulAssociative(a: int, b: int, c: int)
    ensures a * (b * c) == (a * b) * c
  {
  }

  lemma DividesProduct(d: int, a: int, m: int)
    requires Divides(d, a)
    ensures Divides(d, m * a)
  {
    var x :| a == d * x;
    assert m * a == d * (m * x);
  }

  lemma {:induction false} NonNegativeProduct(a: int, b: int)
    requires 0 <= a && 0 <= b
    ensures 0 <= a * b
    decreases a
  {
    if a != 0 {
      NonNegativeProduct(a - 1, b);
      assert a * b == (a - 1) * b + b;
    }
  }

  lemma MulGrows(d: int, x: int)
    requires 0 < d
    ensures 0 < x ==> d <= d * x
    ensures x < 0 ==> d * x <= -d
  {
    if 0 < x {
      NonNegativeProduct(d, x - 1);
      assert d * x == d * (x - 1) + d;
    } else if x < 0 {
      NonNegativeProduct(d, -x - 1);
      assert d * x == -(d * (-x - 1)) - d;
    }
  }

  lemma DivisionUnique(d: int, q: int, r: int, s: int, t: int)
    requires 0 <= r < d && 0 <= t < d && d * q + r == d * s + t
    ensures q == s && r == t
  {
    MulGrows(d, q - s);
    assert d * (q - s) == d * q - d * s;
  }

  lemma QuotientUnique(n: int, d: int, q: int, r: int)
    requires 0 < d && 0 <= r < d && n == d * q + r
    ensures n / d == q && n % d == r
  {
    DivisionUnique(d, q, r, n / d, n % d);
  }

  /** Congruence, as divisibility of the difference, is equality of remainders. */
  lemma CongruentRemainders(a: int, b: int, m: int)
    requires 0 < m
    ensures Divides(m, a - b) <==> a % m == b % m
  {
    if Divides(m, a - b) {
      var k :| a - b == m * k;
      assert a == m * (b / m + k) + b % m;
      QuotientUnique(a, m, b / m + k, b % m);
    }
    if a % m == b % m {
      assert a - b == m * (a / m - b / m);
    }
  }

  lemma ModMul(a: int, b: int, m: int)
    requires 0 < m
    ensures (a * b) % m == ((a % m) * (b % m)) % m
    ensures (a * b) % m == ((a % m) * b) % m
  {
    var x, y := a / m, b / m;
    assert a * b - (a % m) * b == m * (x * b);
    CongruentRemainders(a * b, (a % m) * b, m);
    assert (a % m) * b - (a % m) * (b % m) == m * ((a % m) * y);
    CongruentRemainders((a % m) * b, (a % m) * (b % m), m);
  }

  lemma {:induction false} PowMod(b: int, e: nat, m: int)
    requires 0 < m
    ensures Pow(b % m, e) % m == Pow(b, e) % m
    decreases e
  {
    if e != 0 {
      var c := b % m;
      PowMod(b, e - 1, m);
      ModMul(b, Pow(b, e - 1), m);
      ModMul(c, Pow(c, e - 1), m);
      QuotientUnique(c, m, 0, c);
    }
  }

  // ----- primes

  /** Euclid's lemma, by descent on the factor that is too small to be divisible. */
  lemma {:induction false} EuclidSmall(p: int, k: int, c: int)
    requires IsPrime(p) && 0 < k < p && Divides(p, k * c)
    ensures Divides(p, c)
    decreases k
  {
    if k == 1 {
    } else {
      var q, r := p / k, p % k;
      assert r * c == c * p - q * (k * c);
      assert Divides(p, c * p) by { assert c * p == p * c; }
      DividesProduct(p, k * c, q);
      DividesSum(p, c * p, q * (k * c));
      EuclidSmall(p, r, c);
    }
  }

  lemma CofactorBounds(p: int, d: int, q: int)
    requires 2 <= d < p && p == d * q
    ensures 1 < q < p && p == q * d
  {
    MulGrows(d, q);
    assert d * q == 2 * q + (d - 2) * q;
  }

  lemma ProductGrows(b: int, d: int, q: int)
    requires 0 < b <= d && b <= q
    ensures b * b <= d * q
  {
    NonNegativeProduct(b, q - b);
    NonNegativeProduct(d - b, q);
    assert d * q == b * b + b * (q - b) + (d - b) * q;
  }

  /** Trial division up to a bound whose square exceeds p settles primality. */
  lemma TrialDivision(p: int, bound: int)
    requires 1 < p && 2 <= bound && p < bound * bound
    requires forall d :: 2 <= d < bound ==> p % d != 0
    ensures IsPrime(p)
  {
    forall d | 2 <= d < p
      ensures p % d != 0
    {
      if p % d == 0 {
        SmallDivisor(p, bound, d);
      }
    }
  }

  lemma SmallDivisor(p: int, bound: int, d: int)
    requires 2 <= d < p < bound * bound && 0 < bound && p % d == 0
    ensures exists c :: 2 <= c < bound && p % c == 0
  {
    var q := p / d;
    CofactorBounds(p, d, q);
    if q < bound {
      QuotientUnique(p, q, d, 0);
    } else if bound <= d {
      ProductGrows(bound, d, q);
    }
  }

  // ----- binomial coefficients

  function Choose(n: nat, k: nat): nat
  {
    if k == 0 then 1
    else if n == 0 then 0
    else Choose(n - 1, k - 1) + Choose(n - 1, k)
  }

  lemma {:induction false} ChooseAbove(n: nat, k: nat)
    requires n < k
    ensures Choose(n, k) == 0
  {
    if n != 0 {
      ChooseAbove(n - 1, k - 1);
      ChooseAbove(n - 1, k);
    }
  }

  lemma {:induction false} ChooseFull(n: nat)
    ensures Choose(n, n) == 1
  {
    if n != 0 {
      ChooseFull(n - 1);
      ChooseAbove(n - 1, n);
    }
  }

  lemma AbsorptionAlgebra(n: int, k: int, u: int, v: int, x: int, y: int)
    requires u == x + y && k * v == (n - 1) * y && (k - 1) * u == (n - 1) * x
    ensures k * (u + v) == n * u
  {
    assert k * (u + v) == (k - 1) * u + u + k * v;
    assert (n - 1) * u == (n - 1) * x + (n - 1) * y;
  }

  lemma {:induction false} ChooseAbsorption(n: nat, k: nat)
    requires 0 < k && 0 < n
    ensures k * Choose(n, k) == n * Choose(n - 1, k - 1)
  {
    if n == 1 {
      if k != 1 {
        ChooseAbove(1, k);
        ChooseAbove(0, k - 1);
      }
    } else {
      ChooseAbsorption(n - 1, k);
      if k == 1 {
        assert Choose(n, 1) == 1 + Choose(n - 1, 1);
      } else {
        ChooseAbsorption(n - 1, k - 1);
        AbsorptionAlgebra(n, k, Choose(n - 1, k - 1), Choose(n - 1, k), Choose(n - 2, k - 2), Choose(n - 2, k - 1));
      }
    }
  }

  /** A prime divides every inner binomial coefficient of its row. */
  lemma PrimeDividesChoose(p: int, k: nat)
    requires IsPrime(p) && 0 < k < p
    ensures Divides(p, Choose(p, k))
  {
    ChooseAbsorption(p, k);
    assert Divides(p, k * Choose(p, k));
    EuclidSmall(p, k, Choose(p, k));
  }

  // ----- the binomial theorem, for (a + 1)^n

  function BinomialSum(a: int, n: nat, j: nat): int
    decreases j
  {
    Choose(n, j) * Pow(a, j) + if j == 0 then 0 else BinomialSum(a, n, j - 1)
  }

  lemma PascalAlgebra(a: int, w: int, c: int, d: int, s: int, t: int)
    requires s == c * w + t
    ensures (c + d) * (a * w) + (s + a * t) == d * (a * w) + s + a * s
  {
    assert (c + d) * (a * w) == a * (c * w) + d * (a * w);
    assert a * s == a * (c * w) + a * t;
  }

  lemma {:induction false} BinomialPascal(a: int, n: nat, j: nat)
    requires 0 < j
    ensures BinomialSum(a, n + 1, j) == BinomialSum(a, n, j) + a * BinomialSum(a, n, j - 1)
    decreases j
  {
    var c, d, w := Choose(n, j - 1), Choose(n, j), Pow(a, j - 1);
    if j == 1 {
      PascalAlgebra(a, w, c, d, BinomialSum(a, n, 0), 0);
      assert BinomialSum(a, n, 0) == c * w;
      assert BinomialSum(a, n + 1, 0) == c * w;
    } else {
      BinomialPascal(a, n, j - 1);
      PascalAlgebra(a, w, c, d, BinomialSum(a, n, j - 1), BinomialSum(a, n, j - 2));
    }
  }

  lemma {:induction false} BinomialTheorem(a: int, n: nat)
    ensures Pow(a + 1, n) == BinomialSum(a, n, n)
  {
    if n != 0 {
      BinomialTheorem(a, n - 1);
      BinomialPascal(a, n - 1, n);
      ChooseAbove(n - 1, n);
      var s := BinomialSum(a, n - 1, n - 1);
      assert BinomialSum(a, n - 1, n) == s;
      assert s + a * s == (a + 1) * s;
    }
  }

  lemma {:induction false} InnerBinomials(a: int, p: int, j: nat)
    requires IsPrime(p) && j < p
    ensures Divides(p, BinomialSum(a, p, j) - 1)
    decreases j
  {
    if j == 0 {
      assert BinomialSum(a, p, 0) - 1 == p * 0;
    } else {
      InnerBinomials(a, p, j - 1);
      PrimeDividesChoose(p, j);
      DividesProduct(p, Choose(p, j), Pow(a, j));
      DividesSum(p, BinomialSum(a, p, j - 1) - 1, Pow(a, j) * Choose(p, j));
    }
  }

  // ----- Fermat, and the exponents that leave every residue alone

  lemma {:induction false} Fermat(a: nat, p: int)
    requires IsPrime(p)
    ensures Divides(p, Pow(a, p) - a)
    decreases a
  {
    if a == 0 {
      ZeroPow(p);
      assert Pow(a, p) - a == p * 0;
    } else {
      var b := a - 1;
      Fermat(b, p);
      BinomialTheorem(b, p);
      InnerBinomials(b, p, p - 1);
      ChooseFull(p);
      DividesSum(p, BinomialSum(b, p, p - 1) - 1, Pow(b, p) - b);
    }
  }

  lemma {:induction false} FermatExponent(a: nat, p: int, t: nat)
    requires IsPrime(p)
    ensures 0 <= t * (p - 1) && Divides(p, Pow(a, 1 + t * (p - 1)) - a)
    decreases t
  {
    if t == 0 {
      assert Pow(a, 1) - a == p * 0;
    } else {
      FermatExponent(a, p, t - 1);
      var y := Pow(a, 1 + (t - 1) * (p - 1));
      var z := Pow(a, p - 1);
      assert t * (p - 1) == (t - 1) * (p - 1) + (p - 1);
      PowAdd(a, 1 + (t - 1) * (p - 1), p - 1);
      DividesProduct(p, y - a, z);
      Fermat(a, p);
      Rearranged(a, y, z);
      assert Pow(a, p) == a * z;
      DividesSum(p, z * (y - a), a * z - a);
    }
  }

  lemma Rearranged(a: int, y: int, z: int)
    ensures z * (y - a) + (a * z - a) == y * z - a
  {
  }

  lemma DividesPrimeProduct(p: int, q: int, n: int)
    requires IsPrime(q) && 0 < p < q && Divides(p, n) && Divides(q, n)
    ensures Divides(p * q, n)
  {
    var c := Quotient(p, n);
    EuclidSmall(q, p, c);
    var k := Quotient(q, c);
    MulAssociative(p, q, k);
  }

  /** For distinct primes p and q, an exponent that is 1 modulo both p - 1 and q - 1 acts as
      the identity on every residue of p * q. */
  lemma TwoPrimeExponent(a: nat, p: int, q: int, m: nat, s: nat, t: nat)
    requires IsPrime(p) && IsPrime(q) && p < q && a < p * q
    requires m == 1 + s * (p - 1) && m == 1 + t * (q - 1)
    ensures Pow(a, m) % (p * q) == a
  {
    FermatExponent(a, p, s);
    FermatExponent(a, q, t);
    DividesPrimeProduct(p, q, Pow(a, m) - a);
    CongruentRemainders(Pow(a, m), a, p * q);
    QuotientUnique(a, p * q, 0, a);
  }
}
