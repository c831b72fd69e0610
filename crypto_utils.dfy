/** The three bigint-crypto-utils routines the chameleon hash calls, given
    as specification functions: modular exponentiation, modular inverse and
    the bounded random draw. Only non-negative exponents are modelled. */
module CryptoUtils {
  import opened ModArith

  datatype Option<T> = None | Some(value: T)

  /** Plain integer power b^e: the reference definition for ModPow. */
  function Pow(b: nat, e: nat): nat {
    if e == 0 then 1 else b * Pow(b, e - 1)
  }

  /** modPow(b, e, n): b^e reduced modulo n by repeated multiplication, the
      intermediate product reduced at every step. */
  function ModPow(b: nat, e: nat, n: nat): (r: nat)
    requires n > 0
    ensures r < n
  {
    if e == 0 then 1 % n else ((b % n) * ModPow(b, e - 1, n)) % n
  }

  /** Reducing at every step gives the same answer as reducing b^e once. */
  lemma {:induction false} ModPowIsPowMod(b: nat, e: nat, n: nat)
    requires n > 0
    ensures ModPow(b, e, n) == Pow(b, e) % n
  {
    if e > 0 {
      ModPowIsPowMod(b, e - 1, n);
      ModMul(b, Pow(b, e - 1), n);
      ModMul(b % n, Pow(b, e - 1) % n, n);
      ModUnique(b % n, n, 0, b % n);
      ModUnique(Pow(b, e - 1) % n, n, 0, Pow(b, e - 1) % n);
    }
  }

  /** Product of powers: b^(e1 + e2) == b^e1 * b^e2. */
  lemma {:induction false} PowAdd(b: nat, e1: nat, e2: nat)
    ensures Pow(b, e1 + e2) == Pow(b, e1) * Pow(b, e2)
  {
    if e1 > 0 {
      PowAdd(b, e1 - 1, e2);
      assert Pow(b, e1 + e2) == b * Pow(b, e1 - 1 + e2);
    }
  }

  /** Power of a power: (b^e1)^e2 == b^(e1 * e2). */
  lemma {:induction false} PowMul(b: nat, e1: nat, e2: nat)
    ensures Pow(Pow(b, e1), e2) == Pow(b, e1 * e2)
  {
    if e2 > 0 {
      PowMul(b, e1, e2 - 1);
      assert e1 * e2 == e1 + e1 * (e2 - 1);
      PowAdd(b, e1, e1 * (e2 - 1));
    }
  }

  /** Every power of 1 is 1. */
  lemma {:induction false} PowOne(e: nat)
    ensures Pow(1, e) == 1
  {
    if e > 0 {
      PowOne(e - 1);
    }
  }

  /** The base may be reduced modulo n before exponentiating. */
  lemma {:induction false} PowModBase(b: nat, e: nat, n: nat)
    requires n > 0
    ensures Pow(b % n, e) % n == Pow(b, e) % n
  {
    ModPowIsPowMod(b, e, n);
    ModPowIsPowMod(b % n, e, n);
    ModPowReducedBase(b, e, n);
  }

  lemma {:induction false} ModPowReducedBase(b: nat, e: nat, n: nat)
    requires n > 0
    ensures ModPow(b % n, e, n) == ModPow(b, e, n)
  {
    if e > 0 {
      ModPowReducedBase(b, e - 1, n);
      ModUnique(b % n, n, 0, b % n);
    }
  }

  /** Reducing the exponent modulo q: when g^q == 1 (mod n), g^e and
      g^(e mod q) agree modulo n. */
  lemma {:induction false} ModPowExponentMod(g: nat, e: nat, q: nat, n: nat)
    requires n > 0 && q > 0
    requires ModPow(g, q, n) == 1
    ensures ModPow(g, e, n) == ModPow(g, e % q, n)
  {
    var c, s := e / q, e % q;
    assert e == q * c + s;
    ModPowDropOrderMultiple(g, q, c, s, n);
  }

  /** If g^q == 1 (mod n), g^(q * c + s) and g^s agree modulo n. */
  lemma ModPowDropOrderMultiple(g: nat, q: nat, c: nat, s: nat, n: nat)
    requires n > 0
    requires ModPow(g, q, n) == 1
    ensures ModPow(g, q * c + s, n) == ModPow(g, s, n)
  {
    var a, b := Pow(g, q * c), Pow(g, s);
    assert Pow(g, q * c + s) == a * b by { PowAdd(g, q * c, s); }
    assert a % n == 1 by { PowOfOrderMultiple(g, q, c, n); }
    calc {
      ModPow(g, q * c + s, n);
      { ModPowIsPowMod(g, q * c + s, n); }
      (a * b) % n;
      { ModMul(a, b, n); }
      ((a % n) * (b % n)) % n;
      (b % n) % n;
      { ModUnique(b % n, n, 0, b % n); }
      b % n;
      { ModPowIsPowMod(g, s, n); }
      ModPow(g, s, n);
    }
  }

  /** If g^q == 1 (mod n), so is every g^(q * c). */
  lemma PowOfOrderMultiple(g: nat, q: nat, c: nat, n: nat)
    requires n > 0
    requires ModPow(g, q, n) == 1
    ensures Pow(g, q * c) % n == 1
  {
    ModPowIsPowMod(g, q, n);
    calc {
      Pow(g, q * c) % n;
      { PowMul(g, q, c); }
      Pow(Pow(g, q), c) % n;
      { PowModBase(Pow(g, q), c, n); }
      Pow(1, c) % n;
      { PowOne(c); }
      1 % n;
      { ModUnique(1, n, 0, 1); }
      1;
    }
  }

  /** Extended Euclid: the greatest common divisor of a and b with Bezout
      coefficients. */
  function EGcd(a: nat, b: nat): (r: (nat, int, int))
    decreases b
    ensures a * r.1 + b * r.2 == r.0
    ensures a > 0 || b > 0 ==> Divides(r.0, a) && Divides(r.0, b)
  {
    if b == 0 then
      (a, 1, 0)
    else
      var (d, s, t) := EGcd(b, a % b);
      EGcdStep(a, b, d, s, t);
      (d, t, s - (a / b) * t)
  }

  lemma EGcdStep(a: nat, b: nat, d: nat, s: int, t: int)
    requires b > 0
    requires b * s + (a % b) * t == d
    requires Divides(d, b) && Divides(d, a % b)
    ensures a * t + b * (s - (a / b) * t) == d
    ensures Divides(d, a)
  {
    var k := a / b;
    assert a == b * k + a % b;
    calc {
      a * t + b * (s - k * t);
      (b * k + a % b) * t + b * s - b * (k * t);
      b * s + (a % b) * t;
    }
    DividesCombination(d, b, a % b, k, 1);
  }

  /** Every common divisor of a and b divides their gcd. */
  lemma CommonDivisorDividesGcd(c: nat, a: nat, b: nat)
    requires Divides(c, a) && Divides(c, b)
    ensures Divides(c, EGcd(a, b).0)
  {
    var r := EGcd(a, b);
    DividesCombination(c, a, b, r.1, r.2);
  }

  /** modInv(a, n): the inverse of a modulo n. The library first reduces a
      into [0, n) and then runs extended Euclid, which throws a RangeError
      when the reduced value is zero or the gcd is not 1; None stands for
      that error. */
  function ModInv(a: nat, n: nat): (r: Option<nat>)
    requires n > 0
    ensures r.Some? ==> r.value < n && (a * r.value) % n == 1
  {
    if a % n == 0 then None
    else
      var (d, s, t) := EGcd(a % n, n);
      if d == 1 then
        InverseFromBezout(a, n, s, t);
        Some(s % n)
      else None
  }

  lemma InverseFromBezout(a: nat, n: nat, s: int, t: int)
    requires n > 0 && a % n != 0
    requires (a % n) * s + n * t == 1
    ensures (a * (s % n)) % n == 1
  {
    var ra, rs := a % n, s % n;
    ModUnique(rs, n, 0, rs);
    ModUnique(ra, n, 0, ra);
    assert n > 1;
    ModUnique(1, n, 0, 1);
    calc {
      (a * rs) % n;
      { ModMul(a, rs, n); }
      (ra * (rs % n)) % n;
      (ra * rs) % n;
      (ra % n * rs) % n;
      { ModMul(ra, s, n); }
      (ra * s) % n;
      { assert ra * s == 1 + n * -t; }
      (1 + n * -t) % n;
      { ModAddMultiple(1, n, -t); }
      1 % n;
    }
  }

  /** ModInv never misses an inverse: whenever some v satisfies
      a * v == 1 (mod n) with n > 1, ModInv returns one. */
  lemma ModInvComplete(a: nat, n: nat, v: int)
    requires n > 1 && (a * v) % n == 1
    ensures ModInv(a, n).Some?
  {
    if a % n == 0 {
      ModMul(a, v, n);
      ModUnique(0, n, 0, 0);
      assert false;
    }
    var d := EGcd(a % n, n).0;
    // d divides n and a % n, hence a = n * (a / n) + a % n, hence a * v,
    // hence a * v - n * ((a * v) / n) == 1.
    assert a == (a / n) * n + 1 * (a % n);
    DividesCombination(d, n, a % n, a / n, 1);
    DividesCombination(d, a, n, v, -((a * v) / n));
    assert v * a + (-((a * v) / n)) * n == 1;
    DivisorAtMost(d, 1);
  }

  /** An inverse in [0, n) is unique, so ModInv returns the one the
      library's extended Euclid reduces into [0, n). */
  lemma ModInvUnique(a: nat, n: nat, v: nat)
    requires n > 0 && v < n && (a * v) % n == 1
    ensures ModInv(a, n) == Some(v)
  {
    assert n > 1 by {
      if n == 1 {
        ModUnique(a * v, 1, a * v, 0);
      }
    }
    ModInvComplete(a, n, v);
    var w := ModInv(a, n).value;
    ModUnique(v, n, 0, v);
    ModUnique(w, n, 0, w);
    ModUnique(1, n, 0, 1);
    calc {
      v;
      (v * 1) % n;
      { ModMul(v, a * w, n); }
      (v * (a * w)) % n;
      { assert v * (a * w) == w * (a * v); }
      (w * (a * v)) % n;
      { ModMul(w, a * v, n); }
      (w * 1) % n;
      w;
    }
  }

  /** Modulo a prime q, a has an inverse exactly when q does not divide it. */
  lemma ModInvPrime(a: nat, q: nat)
    requires IsPrime(q)
    ensures ModInv(a, q).Some? <==> a % q != 0
  {
    if a % q != 0 {
      var d := EGcd(a % q, q).0;
      assert Divides(d, q);
      DivisorAtMost(d, a % q);
      assert d == 1;
    }
  }

  /** randBetween(min, max) with the library's argument order swapped back:
      a value in [min, max], both ends included, chosen by the random source
      (here the parameter entropy). The library throws a RangeError unless
      max > min; None stands for that error. */
  function RandBetween(min: int, max: int, entropy: nat): (r: Option<int>)
    ensures r.Some? <==> min < max
    ensures r.Some? ==> min <= r.value <= max
  {
    if max <= min then None else Some(min + entropy % (max - min + 1))
  }

  /** Every value of the range can be drawn. */
  lemma RandBetweenCovers(min: int, max: int, v: int)
    requires min < max && min <= v <= max
    ensures RandBetween(min, max, v - min) == Some(v)
  {
    ModUnique(v - min, max - min + 1, 0, v - min);
  }
}
