/** Sets of numbers closed under sums and differences, such as the periods of a machine:
    Euclid's algorithm stays inside them. */
module Periods {

  function Sum(a: nat, b: nat): nat {
    a + b
  }

  ghost predicate Closed(P: nat -> bool) {
    && P(0)
    && (forall a: nat, b: nat {:trigger Sum(a, b)} :: P(a) && P(b) ==> P(Sum(a, b)))
    && (forall a: nat, b: nat {:trigger Sum(a, b)} :: P(a) && P(Sum(a, b)) ==> P(b))
  }

  lemma {:induction false} Multiple(P: nat -> bool, a: nat, k: nat)
    requires Closed(P) && P(a)
    ensures P(Product(k, a))
  {
    if k == 0 {
    } else {
      Multiple(P, a, k - 1);
      assert Product(k, a) == Sum(a, Product(k - 1, a));
    }
  }

  /** The greatest common divisor of two members is a member. */
  lemma {:induction false} Euclid(P: nat -> bool, a: nat, b: nat) returns (h: nat, i: nat, j: nat)
    requires Closed(P) && P(a) && P(b) && b > 0
    ensures h > 0 && P(h) && a == h * i && b == h * j
    decreases b
  {
    var q, r := a / b, a % b;
    if r == 0 {
      h, i, j := b, q, 1;
    } else {
      Multiple(P, b, q);
      assert a == Sum(Product(q, b), r);
      var k;
      h, j, k := Euclid(P, b, r);
      i := q * j + k;
      Combine(h, q, j, k);
    }
  }

  lemma Combine(h: nat, q: nat, j: nat, k: nat)
    ensures q * j + k >= 0 && h * (q * j + k) == q * (h * j) + h * k
  {
    assert h * (q * j + k) == h * (q * j) + h * k;
    assert h * (q * j) == q * (h * j);
  }

  predicate SmallPrime(p: nat) {
    p == 7 || p == 31 || p == 151
  }

  lemma LargeFactors(h: nat, j: nat)
    ensures h > 12 && j > 12 ==> h * j >= 169
  {
    if h > 12 && j > 12 {
      assert (h - 13) * (j - 13) >= 0;
    }
  }

  lemma Factors(p: nat, h: nat, j: nat)
    requires SmallPrime(p) && h * j == p
    ensures h == 1 || h == p
  {
    LargeFactors(h, j);
    if h <= 12 {
      SmallFactor(p, h, j);
    } else {
      SmallFactor(p, j, h);
    }
  }

  lemma SmallFactor(p: nat, h: nat, j: nat)
    requires SmallPrime(p) && h * j == p && h <= 12
    ensures h == 1 || (h == p && j == 1)
  {
    assert h == 0 || h == 1 || h == 2 || h == 3 || h == 4 || h == 5 || h == 6
           || h == 7 || h == 8 || h == 9 || h == 10 || h == 11 || h == 12;
  }

  /** If c * p is a member and c is not, p divides every member. */
  lemma PrimeDivides(P: nat -> bool, p: nat, c: nat, d: nat)
    requires Closed(P) && SmallPrime(p) && P(Product(c, p)) && !P(c) && P(d)
    ensures d % p == 0
  {
    var Q := (n: nat) => P(Product(c, n));
    ScaledClosed(P, Q, c);
    Multiple(P, d, c);
    var h, i, j := Euclid(Q, d, p);
    Factors(p, h, j);
    assert Product(c, 1) == c;
    MultipleOfPrime(p, i);
  }

  function Product(x: nat, y: nat): (p: nat)
    ensures p == x * y
  {
    assert x * y >= 0;
    x * y
  }

  lemma ScaledClosed(P: nat -> bool, Q: nat -> bool, c: nat)
    requires Closed(P) && forall n :: Q(n) <==> P(Product(c, n))
    ensures Closed(Q)
  {
    forall a: nat, b: nat ensures Product(c, Sum(a, b)) == Sum(Product(c, a), Product(c, b)) {
      assert c * (a + b) == c * a + c * b;
    }
    assert Product(c, 0) == 0;
  }

  lemma MultipleOfPrime(p: nat, i: nat)
    requires SmallPrime(p)
    ensures (p * i) % p == 0
  {
    assert (7 * i) % 7 == 0 && (31 * i) % 31 == 0 && (151 * i) % 151 == 0;
  }

  /** 7, 31 and 151 together divide only multiples of 32767. */
  lemma ThreePrimes(d: nat)
    requires d % 7 == 0 && d % 31 == 0 && d % 151 == 0
    ensures d % 32767 == 0
  {
    Cofactors(d, d / 7, d / 31, d / 151);
  }

  lemma Cofactors(d: nat, a: nat, b: nat, c: nat)
    requires d == 7 * a && d == 31 * b && d == 151 * c
    ensures d % 32767 == 0
  {
    var e := 9 * b - 2 * a;
    var k := 23 * e - 16 * c;
    assert d == 32767 * k;
  }
}
