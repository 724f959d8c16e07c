/** Lesson2 isPrime: trial division by every i from 2 while i <= sqrt(n). The bound is
    taken as the exact integer square root, that is, the loop runs while i * i <= n. */
module Prime {

  /** `n` is prime: at least 2 and no divisor strictly between 1 and `n`. */
  ghost predicate IsPrimeNumber(n: int) {
    n >= 2 && forall d :: 2 <= d < n ==> n % d != 0
  }

  lemma MulLeft(a: int, b: int, c: int)
    requires 0 <= a <= b && 0 <= c
    ensures c * a <= c * b
  {
  }

  /** A multiple of `e` leaves no remainder on division by `e`. */
  lemma ProductMod(e: int, f: int)
    requires e > 0
    ensures (e * f) % e == 0
  {
    var p := e * f;
    assert p == e * (p / e) + p % e;
    assert e * (f - p / e) == p % e;
    if f - p / e > 0 {
      MulLeft(1, f - p / e, e);
    } else if f - p / e < 0 {
      MulLeft(1, p / e - f, e);
    }
  }

  /** A composite number has a divisor no larger than its square root. */
  lemma SmallDivisor(n: int, d: int)
    requires 2 <= d < n && n % d == 0
    ensures exists e :: 2 <= e < n && e * e <= n && n % e == 0
  {
    if d * d > n {
      var e := n / d;
      assert n == d * e;
      assert e >= 2 by {
        if e <= 1 {
          MulLeft(e, 1, d);
        }
      }
      assert e < d by {
        if e >= d {
          MulLeft(d, e, d);
        }
      }
      MulLeft(e, d, e);
      ProductMod(e, d);
      assert e * d == n;
    }
  }

  method IsPrime(n: int) returns (r: bool)
    ensures r <==> IsPrimeNumber(n)
  {
    if n <= 1 {
      return false;
    }
    var i := 2;
    while i * i <= n
      invariant 2 <= i
      invariant forall d :: 2 <= d < i ==> n % d != 0
      decreases n - i
    {
      if n % i == 0 {
        assert i < n by {
          if i >= n {
            MulLeft(n, i, i);
          }
        }
        return false;
      }
      i := i + 1;
    }
    forall d | 2 <= d < n
      ensures n % d != 0
    {
      if d >= i && n % d == 0 {
        SmallDivisor(n, d);
        var e :| 2 <= e < n && e * e <= n && n % e == 0;
        if e >= i {
          MulLeft(i, e, i);
          MulLeft(i, e, e);
        }
      }
    }
    return true;
  }
}
