/** Powers modulo a prime, up to Fermat's little theorem. */
module NumberTheory {

  // ---------- Remainders ----------

  lemma SmallMultiple(k: int, d: int)
    requires -d < k * d < d
    ensures k == 0
  {}

  lemma Distributes(a: int, b: int, c: int)
    ensures (a + b) * c == a * c + b * c
    ensures (a - b) * c == a * c - b * c
  {}

  lemma Associates(a: int, b: int, c: int)
    ensures (a * b) * c == a * (b * c)
  {}

  lemma DivisionIsUnique(q: int, r: int, q': int, r': int, n: int)
    requires q * n + r == q' * n + r' && 0 <= r < n && 0 <= r' < n
    ensures q == q' && r == r'
  {
    Distributes(q, q', n);
    SmallMultiple(q - q', n);
  }

  lemma DivMod(a: int, n: int)
    requires n > 0
    ensures a == a / n * n + a % n && 0 <= a % n < n
  {}

  /** Numbers that differ by a multiple of n leave the same remainder. */
  lemma SameRemainder(a: int, b: int, k: int, n: int)
    requires n > 0 && a == b + k * n
    ensures a % n == b % n
  {
    DivMod(a, n);
    DivMod(b, n);
    Distributes(b / n, k, n);
    DivisionIsUnique(a / n, a % n, b / n + k, b % n, n);
  }

  /** Numbers that leave the same remainder differ by a multiple of n. */
  lemma Difference(a: int, b: int, n: int) returns (k: int)
    requires n > 0 && a % n == b % n
    ensures a == b + k * n
  {
    k := a / n - b / n;
    DivMod(a, n);
    DivMod(b, n);
    Distributes(a / n, b / n, n);
  }

  lemma SmallRemainder(a: int, n: int)
    requires 0 <= a < n
    ensures a % n == a
  {}

  lemma RemainderTwice(a: int, n: int)
    requires n > 0
    ensures a % n % n == a % n
  {}

  lemma AddRemainder(a: int, a': int, b: int, b': int, n: int)
    requires n > 0 && a % n == a' % n && b % n == b' % n
    ensures (a + b) % n == (a' + b') % n
  {
    var k := Difference(a, a', n);
    var l := Difference(b, b', n);
    Distributes(k, l, n);
    SameRemainder(a + b, a' + b', k + l, n);
  }

  lemma ProductOfSums(a: int, a': int, k: int, b: int, b': int, l: int, n: int)
    requires a == a' + k * n && b == b' + l * n
    ensures a * b == a' * b' + (a' * l + k * b) * n
  {
    calc {
      a * b;
      { Distributes(a', k * n, b); }
      a' * b + k * n * b;
      a' * b + k * b * n;
      { Distributes(b', l * n, a'); }
      a' * b' + a' * (l * n) + k * b * n;
      a' * b' + a' * l * n + k * b * n;
      { Distributes(a' * l, k * b, n); }
      a' * b' + (a' * l + k * b) * n;
    }
  }

  lemma MulRemainder(a: int, a': int, b: int, b': int, n: int)
    requires n > 0 && a % n == a' % n && b % n == b' % n
    ensures (a * b) % n == (a' * b') % n
  {
    var k := Difference(a, a', n);
    var l := Difference(b, b', n);
    ProductOfSums(a, a', k, b, b', l, n);
    SameRemainder(a * b, a' * b', a' * l + k * b, n);
  }

  // ---------- Powers ----------

  function Pow(b: nat, e: nat): nat {
    if e == 0 then 1 else b * Pow(b, e - 1)
  }

  /** What `BigUint::modpow` computes. */
  function ModPow(b: nat, e: nat, n: nat): (r: nat)
    requires n > 0
    ensures r < n
  {
    Pow(b, e) % n
  }

  lemma {:induction false} PowAdd(b: nat, d: nat, e: nat)
    ensures Pow(b, d + e) == Pow(b, d) * Pow(b, e)
  {
    if d > 0 {
      PowAdd(b, d - 1, e);
      Associates(b, Pow(b, d - 1), Pow(b, e));
    }
  }

  lemma {:induction false} PowMul(b: nat, d: nat, e: nat)
    ensures Pow(b, d * e) == Pow(Pow(b, d), e)
  {
    if e > 0 {
      PowMul(b, d, e - 1);
      assert d * e == d + d * (e - 1);
      PowAdd(b, d, d * (e - 1));
    } else {
      assert d * e == 0;
    }
  }

  lemma {:induction false} PowOfProduct(a: nat, b: nat, e: nat)
    ensures Pow(a * b, e) == Pow(a, e) * Pow(b, e)
  {
    if e > 0 {
      PowOfProduct(a, b, e - 1);
      var x, y := Pow(a, e - 1), Pow(b, e - 1);
      calc {
        (a * b) * (x * y);
        { Associates(a, b, x * y); Associates(b, x, y); Associates(x, b, y); }
        a * (x * (b * y));
        { Associates(a, x, b * y); }
        (a * x) * (b * y);
      }
    }
  }

  lemma {:induction false} PowRemainder(a: nat, b: nat, e: nat, n: nat)
    requires n > 0 && a % n == b % n
    ensures Pow(a, e) % n == Pow(b, e) % n
  {
    if e > 0 {
      PowRemainder(a, b, e - 1, n);
      MulRemainder(a, b, Pow(a, e - 1), Pow(b, e - 1), n);
    }
  }

  lemma {:induction false} PowOne(e: nat)
    ensures Pow(1, e) == 1
  {
    if e > 0 {
      PowOne(e - 1);
    }
  }

  lemma {:induction false} PowPositive(b: nat, e: nat)
    requires b > 0
    ensures Pow(b, e) > 0
  {
    if e > 0 {
      PowPositive(b, e - 1);
    }
  }

  // ---------- Primes ----------

  ghost predicate Prime(p: nat) {
    p >= 2 && forall d :: 2 <= d < p ==> p % d != 0
  }

  lemma {:induction false} EuclidSmall(p: nat, a: nat, b: int)
    requires Prime(p) && 0 < a < p && (a * b) % p == 0
    ensures b % p == 0
    decreases a
  {
    if a > 1 {
      var r, q := p % a, p / a;
      var k := Difference(a * b, 0, p);
      DivMod(p, a);
      calc {
        r * b;
        (p - q * a) * b;
        { Distributes(p, q * a, b); }
        p * b - q * a * b;
        { Associates(q, a, b); Associates(q, k, p); }
        p * b - q * k * p;
        { Distributes(b, q * k, p); }
        (b - q * k) * p;
      }
      SameRemainder(r * b, 0, b - q * k, p);
      EuclidSmall(p, r, b);
    }
  }

  /** Euclid's lemma. */
  lemma Euclid(p: nat, a: int, b: int)
    requires Prime(p) && a % p != 0 && (a * b) % p == 0
    ensures b % p == 0
  {
    RemainderTwice(a, p);
    MulRemainder(a, a % p, b, b, p);
    EuclidSmall(p, a % p, b);
  }

  lemma CancelFactor(p: nat, c: int, a: int, b: int)
    requires Prime(p) && c % p != 0 && (c * a) % p == (c * b) % p
    ensures a % p == b % p
  {
    var k := Difference(c * a, c * b, p);
    assert c * (a - b) == k * p;
    SameRemainder(c * (a - b), 0, k, p);
    Euclid(p, c, a - b);
    var l := Difference(a - b, 0, p);
    SameRemainder(a, b, l, p);
  }

  lemma {:induction false} PowNotDivisible(p: nat, a: nat, e: nat)
    requires Prime(p) && a % p != 0
    ensures Pow(a, e) % p != 0
  {
    if e == 0 {
      SmallRemainder(1, p);
    } else {
      PowNotDivisible(p, a, e - 1);
      if Pow(a, e) % p == 0 {
        Euclid(p, a, Pow(a, e - 1));
      }
    }
  }

  // ---------- Fermat's little theorem ----------

  function Factorial(n: nat): nat {
    if n == 0 then 1 else n * Factorial(n - 1)
  }

  lemma {:induction false} FactorialNotDivisible(p: nat, n: nat)
    requires Prime(p) && n < p
    ensures Factorial(n) % p != 0
  {
    if n == 0 {
      SmallRemainder(1, p);
    } else {
      FactorialNotDivisible(p, n - 1);
      SmallRemainder(n, p);
      if Factorial(n) % p == 0 {
        Euclid(p, n, Factorial(n - 1));
      }
    }
  }

  /** The product of the members of `s` between 1 and n. */
  ghost function ProductIn(s: set<int>, n: nat): int {
    if n == 0 then 1 else if n in s then n * ProductIn(s, n - 1) else ProductIn(s, n - 1)
  }

  lemma {:induction false} ProductInsert(s: set<int>, x: int, n: nat)
    requires x !in s && 1 <= x
    ensures ProductIn(s + {x}, n) == if x <= n then x * ProductIn(s, n) else ProductIn(s, n)
  {
    if n > 0 {
      ProductInsert(s, x, n - 1);
      if n in s && x < n {
        Associates(n, x, ProductIn(s, n - 1));
        Associates(x, n, ProductIn(s, n - 1));
      }
    }
  }

  ghost function UpTo(n: nat): set<int> {
    if n == 0 then {} else UpTo(n - 1) + {n}
  }

  lemma {:induction false} UpToFacts(n: nat)
    ensures forall x :: x in UpTo(n) <==> 1 <= x <= n
    ensures |UpTo(n)| == n
    ensures ProductIn(UpTo(n), n) == Factorial(n)
  {
    if n > 0 {
      UpToFacts(n - 1);
      ProductInsert(UpTo(n - 1), n, n);
      ProductAbove(UpTo(n - 1), n);
    }
  }

  lemma ProductAbove(s: set<int>, n: nat)
    requires n > 0 && n !in s
    ensures ProductIn(s, n) == ProductIn(s, n - 1)
  {}

  /** The remainders of a, 2a, ..., ka. */
  ghost function Multiples(a: nat, p: nat, k: nat): set<int>
    requires p > 0
  {
    if k == 0 then {} else Multiples(a, p, k - 1) + {(a * k) % p}
  }

  lemma {:induction false} MultiplesAreNew(a: nat, p: nat, k: nat, j: nat)
    requires Prime(p) && a % p != 0 && k < j < p
    ensures (a * j) % p !in Multiples(a, p, k)
  {
    if k > 0 {
      MultiplesAreNew(a, p, k - 1, j);
      if (a * j) % p == (a * k) % p {
        CancelFactor(p, a, j, k);
        SmallRemainder(j, p);
        SmallRemainder(k, p);
      }
    }
  }

  lemma {:induction false} MultiplesBounds(a: nat, p: nat, k: nat)
    requires Prime(p) && a % p != 0 && k < p
    ensures |Multiples(a, p, k)| == k
    ensures forall x :: x in Multiples(a, p, k) ==> 1 <= x <= p - 1
  {
    if k > 0 {
      MultiplesBounds(a, p, k - 1);
      MultiplesAreNew(a, p, k - 1, k);
      MultipleInRange(a, p, k);
    }
  }

  lemma MultipleInRange(a: nat, p: nat, k: nat)
    requires Prime(p) && a % p != 0 && 0 < k < p
    ensures 1 <= (a * k) % p <= p - 1
  {
    SmallRemainder(k, p);
    if (a * k) % p == 0 {
      Euclid(p, a, k);
    }
  }

  lemma {:induction false} MultiplesProduct(a: nat, p: nat, k: nat)
    requires Prime(p) && a % p != 0 && k < p
    ensures ProductIn(Multiples(a, p, k), p - 1) % p == (Pow(a, k) * Factorial(k)) % p
  {
    if k == 0 {
      ProductOfNone(p - 1);
    } else {
      var before, x := Multiples(a, p, k - 1), (a * k) % p;
      MultiplesProduct(a, p, k - 1);
      MultiplesAreNew(a, p, k - 1, k);
      MultipleInRange(a, p, k);
      ProductInsert(before, x, p - 1);
      ProductStep(x, a, k, Pow(a, k - 1), Factorial(k - 1), ProductIn(before, p - 1), p);
    }
  }

  lemma ProductStep(x: int, a: int, k: int, power: int, factorial: int, product: int, p: int)
    requires p > 0 && x == (a * k) % p && product % p == (power * factorial) % p
    ensures (x * product) % p == ((a * power) * (k * factorial)) % p
  {
    RemainderTwice(a * k, p);
    MulRemainder(x, a * k, product, power * factorial, p);
    calc {
      (a * k) * (power * factorial);
      { Associates(a, k, power * factorial); Associates(k, power, factorial); Associates(power, k, factorial); }
      a * (power * (k * factorial));
      { Associates(a, power, k * factorial); }
      (a * power) * (k * factorial);
    }
  }

  lemma {:induction false} ProductOfNone(n: nat)
    ensures ProductIn({}, n) == 1
  {
    if n > 0 {
      ProductOfNone(n - 1);
    }
  }

  lemma SameSizeSubset(a: set<int>, b: set<int>, n: nat)
    requires (forall x :: x in a ==> 1 <= x <= n) && (forall x :: x in b <==> 1 <= x <= n)
    requires |a| == |b|
    ensures a == b
  {
    forall x | x in a ensures x in b {}
    assert |b - a| == 0;
    assert b == a + (b - a);
  }

  /** Fermat's little theorem. */
  lemma Fermat(p: nat, a: nat)
    requires Prime(p) && a % p != 0
    ensures Pow(a, p - 1) % p == 1
  {
    hide Pow, Factorial, Multiples, UpTo, ProductIn;
    MultiplesBounds(a, p, p - 1);
    MultiplesProduct(a, p, p - 1);
    UpToFacts(p - 1);
    SameSizeSubset(Multiples(a, p, p - 1), UpTo(p - 1), p - 1);
    FactorialNotDivisible(p, p - 1);
    CancelFromProduct(p, Factorial(p - 1), Pow(a, p - 1));
  }

  lemma CancelFromProduct(p: nat, f: int, w: int)
    requires Prime(p) && f % p != 0 && f % p == (w * f) % p
    ensures w % p == 1
  {
    assert w * f == f * w && f == f * 1;
    CancelFactor(p, f, w, 1);
    SmallRemainder(1, p);
  }

  lemma PowOfPeriods(p: nat, a: nat, q: nat, periods: nat)
    requires Prime(p) && a % p != 0 && periods == (p - 1) * q
    ensures Pow(a, periods) % p == 1
  {
    hide Pow;
    var period: nat := p - 1;
    PowMul(a, period, q);
    Fermat(p, a);
    SmallRemainder(1, p);
    PowRemainder(Pow(a, period), 1, q, p);
    PowOne(q);
  }

  lemma DropPeriods(p: nat, a: nat, periods: nat, r: nat)
    requires p >= 2 && Pow(a, periods) % p == 1
    ensures ModPow(a, periods + r, p) == ModPow(a, r, p)
  {
    hide Pow;
    PowAdd(a, periods, r);
    SmallRemainder(1, p);
    MulRemainder(Pow(a, periods), 1, Pow(a, r), Pow(a, r), p);
  }

  lemma PrimeAboveOne(p: nat)
    requires Prime(p)
    ensures p >= 2
  {}

  /** An exponent is some periods and its remainder. */
  lemma PeriodsOf(p: nat, a: nat, e: nat) returns (periods: nat, r: nat)
    requires Prime(p) && a % p != 0
    ensures e == periods + r && r == e % (p - 1) && Pow(a, periods) % p == 1
  {
    hide Pow;
    var n := p - 1;
    periods, r := n * (e / n), e % n;
    PowOfPeriods(p, a, e / n, periods);
  }

  /** Exponents may be reduced modulo p - 1 when the base is not divisible by p. */
  lemma ReduceExponent(p: nat, a: nat, e: nat)
    requires Prime(p) && a % p != 0
    ensures ModPow(a, e % (p - 1), p) == ModPow(a, e, p)
  {
    hide Pow, ModPow, Prime;
    PrimeAboveOne(p);
    var periods, r := PeriodsOf(p, a, e);
    DropPeriods(p, a, periods, r);
  }

  /** ... and when it is divisible, exactly when the reduction does not turn a positive exponent into 0. */
  lemma ReduceExponentExactly(p: nat, a: nat, e: nat)
    requires Prime(p)
    ensures ModPow(a, e % (p - 1), p) == ModPow(a, e, p) <==> a % p != 0 || e == 0 || e % (p - 1) != 0
  {
    if a % p != 0 {
      ReduceExponent(p, a, e);
    } else {
      PowOfMultiple(p, a, e);
      PowOfMultiple(p, a, e % (p - 1));
      SmallRemainder(0, p - 1);
    }
  }

  lemma PowOfMultiple(p: nat, a: nat, e: nat)
    requires p >= 2 && a % p == 0
    ensures Pow(a, e) % p == if e == 0 then 1 else 0
  {
    if e > 0 {
      MulRemainder(a, 0, Pow(a, e - 1), Pow(a, e - 1), p);
    }
  }
}
