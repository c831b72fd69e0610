/** Divisibility, primality and the facts about Euclidean `%` that the
    chameleon-hash proofs rest on. */
module ModArith {

  /** d is a positive divisor of n. */
  predicate Divides(d: nat, n: int) {
    d > 0 && n % d == 0
  }

  /** n is prime: greater than one, and its only positive divisors are 1 and n. */
  ghost predicate IsPrime(n: nat) {
    n > 1 && forall d: nat :: Divides(d, n) ==> d == 1 || d == n
  }

  /** Euclidean division is unique: any decomposition n * k + r with
      0 <= r < n names the quotient and the remainder. */
  lemma ModUnique(a: int, n: int, k: int, r: int)
    requires n > 0 && a == n * k + r && 0 <= r < n
    ensures a / n == k && a % n == r
  {
    var k0, r0 := a / n, a % n;
    assert n * (k - k0) == r0 - r;
    if k - k0 >= 1 {
      MulAtLeast(n, k - k0);
    } else if k0 - k >= 1 {
      MulAtLeast(n, k0 - k);
    }
  }

  /** A positive multiple of n is at least n. */
  lemma MulAtLeast(n: int, c: int)
    requires n > 0 && c >= 1
    ensures n * c >= n
  {
  }

  /** Multiples of n leave no remainder. */
  lemma MulMod(n: int, c: int)
    requires n > 0
    ensures (n * c) % n == 0
  {
    ModUnique(n * c, n, c, 0);
  }

  /** Adding a multiple of n does not change the remainder. */
  lemma ModAddMultiple(a: int, n: int, c: int)
    requires n > 0
    ensures (a + n * c) % n == a % n
  {
    ModUnique(a + n * c, n, a / n + c, a % n);
  }

  /** Two integers are congruent modulo n exactly when their remainders agree. */
  lemma CongruentIff(a: int, b: int, n: int)
    requires n > 0
    ensures (a - b) % n == 0 <==> a % n == b % n
  {
    if (a - b) % n == 0 {
      ModAddMultiple(b, n, (a - b) / n);
    } else {
      if a % n == b % n {
        ModUnique(a - b, n, a / n - b / n, 0);
      }
    }
  }

  /** Remainders may be taken before multiplying. */
  lemma ModMul(a: int, b: int, n: int)
    requires n > 0
    ensures (a * b) % n == ((a % n) * (b % n)) % n
  {
    var qa, ra := a / n, a % n;
    var qb, rb := b / n, b % n;
    assert a == n * qa + ra && b == n * qb + rb;
    calc {
      a * b;
      (n * qa + ra) * b;
      n * (qa * b) + ra * b;
      n * (qa * b) + ra * (n * qb + rb);
      n * (qa * b) + n * (ra * qb) + ra * rb;
      ra * rb + n * (qa * b + ra * qb);
    }
    ModAddMultiple(ra * rb, n, qa * b + ra * qb);
  }

  /** A divisor of x and of y divides every integer combination of them. */
  lemma DividesCombination(d: nat, x: int, y: int, c1: int, c2: int)
    requires Divides(d, x) && Divides(d, y)
    ensures Divides(d, c1 * x + c2 * y)
  {
    var kx, ky := x / d, y / d;
    assert x == d * kx && y == d * ky;
    assert c1 * x + c2 * y == d * (c1 * kx + c2 * ky);
    MulMod(d, c1 * kx + c2 * ky);
  }

  /** A positive divisor of a positive number is no larger than it. */
  lemma DivisorAtMost(d: nat, n: int)
    requires Divides(d, n) && n > 0
    ensures d <= n
  {
    var c := n / d;
    assert n == d * c;
    MulAtLeast(d, c);
  }
}
