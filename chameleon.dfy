/** The discrete-log chameleon hash of chamelon.js: Hash(m, r) = g^m * y^r
    mod p with public key y = g^x mod p, and the trapdoor collision finder
    that, knowing x, turns (m1, r1) and a new message m2 into r' with
    Hash(m2, r') == Hash(m1, r1).

    The scheme is first stated over explicit group values (HashValue,
    CollisionValue and the theorems about them); the class ChameleonHash
    then fixes the group as the source does and evaluates the same
    functions on its fields. */
module Chameleon {
  import opened ModArith
  import opened JsSemantics
  import opened CryptoUtils

  /** The 2048-bit MODP prime of RFC 3526, section 3 (group 14). */
  const Group14Prime: nat := 0xFFFFFFFF_FFFFFFFF_C90FDAA2_2168C234_C4C6628B_80DC1CD1_29024E08_8A67CC74_020BBEA6_3B139B22_514A0879_8E3404DD_EF9519B3_CD3A431B_302B0A6D_F25F1437_4FE1356D_6D51C245_E485B576_625E7EC6_F44C42E9_A637ED6B_0BFF5CB6_F406B7ED_EE386BFB_5A899FA5_AE9F2411_7C4B1FE6_49286651_ECE45B3D_C2007CB8_A163BF05_98DA4836_1C55D39A_69163FA8_FD24CF5F_83655D23_DCA3AD96_1C62F356_208552BB_9ED52907_7096966D_670C354E_4ABC9804_F1746C08_CA18217C_32905E46_2E36CE3B_E39E772C_180E8603_9B2783A2_EC07A28F_B5C55DF0_6F4C52C9_DE2BCBF6_95581718_3995497C_EA956AE5_15D22618_98FA0510_15728E5A_8AACAA68_FFFFFFFF_FFFFFFFF

  /** The cofactor k and generator g the source hard-codes. */
  const Cofactor: nat := 2
  const Generator: nat := 2

  /** The errors the source throws: the two primality guards of the
      constructor, and the RangeError of modInv when x has no inverse
      modulo q. */
  datatype Error = PNotPrime | QNotPrime | NoInverse

  datatype Result<T> = Success(value: T) | Failure(error: Error)

  /** Hash(m, r) = g^m * y^r mod p, computed as the product of two modular
      powers reduced once more modulo p. */
  function HashValue(p: nat, g: nat, y: nat, m: nat, r: nat): (h: nat)
    requires p > 0
    ensures h < p
    ensures h == (Pow(g, m) * Pow(y, r)) % p
  {
    ModPowIsPowMod(g, m, p);
    ModPowIsPowMod(y, r, p);
    ModMul(Pow(g, m), Pow(y, r), p);
    (ModPow(g, m, p) * ModPow(y, r, p)) % p
  }

  /** With the public key y = g^x mod p, Hash(m, r) is the single power
      g^(m + x * r) mod p. */
  lemma HashIsSinglePower(p: nat, g: nat, x: nat, m: nat, r: nat)
    requires p > 0
    ensures HashValue(p, g, ModPow(g, x, p), m, r) == ModPow(g, m + x * r, p)
  {
    var y := ModPow(g, x, p);
    ModPowIsPowMod(g, x, p);
    ModPowIsPowMod(g, m + x * r, p);
    PowModBase(Pow(g, x), r, p);
    PowMul(g, x, r);
    PowAdd(g, m, x * r);
    calc {
      HashValue(p, g, y, m, r);
      (Pow(g, m) * Pow(y, r)) % p;
      { ModMul(Pow(g, m), Pow(y, r), p); }
      ((Pow(g, m) % p) * (Pow(y, r) % p)) % p;
      ((Pow(g, m) % p) * (Pow(g, x * r) % p)) % p;
      { ModMul(Pow(g, m), Pow(g, x * r), p); }
      (Pow(g, m) * Pow(g, x * r)) % p;
      Pow(g, m + x * r) % p;
    }
  }

  /** generateCollision(m1, r1, m2) for the trapdoor x of a group whose
      exponents live modulo q: xInv = modInv(x, q), then with JavaScript's
      truncating `%`, diff = (m1 - m2) % q, r' = (r1 + diff * xInv) % q and
      finally (r' + q) % q. The result lies in [0, q) and solves
      m2 + x * r' == m1 + x * r1 (mod q), whatever the signs of the inputs;
      the only failure is the missing inverse. */
  function CollisionValue(q: nat, x: nat, m1: int, r1: int, m2: int): (res: Result<nat>)
    requires q > 0
    ensures res.Failure? ==> res.error == NoInverse
    ensures res.Success? ==> res.value < q
    ensures res.Success? ==> Divides(q, (m2 + x * res.value) - (m1 + x * r1))
  {
    match ModInv(x, q)
    case None => Failure(NoInverse)
    case Some(xInv) =>
      var diff := Rem(m1 - m2, q);
      var rPrime := Rem(r1 + diff * xInv, q);
      var r := Rem(rPrime + q, q);
      CollisionCongruence(q, x, xInv, m1, r1, m2, diff, rPrime, r);
      Success(r)
  }

  /** The arithmetic behind CollisionValue: each truncated remainder is
      congruent to its dividend, and x * xInv == 1 (mod q). */
  lemma CollisionCongruence(q: nat, x: int, xInv: int, m1: int, r1: int, m2: int,
                            diff: int, rPrime: int, r: int)
    requires q > 1
    requires (x * xInv) % q == 1
    requires Divides(q, (m1 - m2) - diff)
    requires Divides(q, (r1 + diff * xInv) - rPrime)
    requires Divides(q, (rPrime + q) - r)
    ensures Divides(q, (m2 + x * r) - (m1 + x * r1))
  {
    var a := r - rPrime;
    var b := (r1 + diff * xInv) - rPrime;
    var c := x * xInv - 1;
    var d := (m1 - m2) - diff;
    DividesCombination(q, q, (rPrime + q) - r, 1, -1);
    assert Divides(q, a);
    ModUnique(1, q, 0, 1);
    CongruentIff(x * xInv, 1, q);
    assert Divides(q, c);
    DividesCombination(q, a, b, x, -x);
    DividesCombination(q, c, d, diff, -1);
    DividesCombination(q, x * a + (-x) * b, diff * c + (-1) * d, 1, 1);
    calc {
      1 * (x * a + (-x) * b) + 1 * (diff * c + (-1) * d);
      x * r - x * rPrime - x * r1 - x * (diff * xInv) + x * rPrime + diff * (x * xInv) - diff - m1 + m2 + diff;
      (m2 + x * r) - (m1 + x * r1);
    }
  }

  /** The value generateCollision returns is the one its comment promises,
      r' = (r1 + (m1 - m2) * x^-1) mod q with the mathematical (never
      negative) mod: the truncating `%` steps and the final `+ q` cancel
      out. */
  lemma CollisionIsMathematicalMod(q: nat, x: nat, m1: int, r1: int, m2: int)
    requires q > 0
    requires ModInv(x, q).Some?
    ensures CollisionValue(q, x, m1, r1, m2)
         == Success((r1 + (m1 - m2) * ModInv(x, q).value) % q)
  {
    var xInv := ModInv(x, q).value;
    var diff := Rem(m1 - m2, q);
    var rPrime := Rem(r1 + diff * xInv, q);
    var r := Rem(rPrime + q, q);
    var a := r1 + diff * xInv;
    var target := r1 + (m1 - m2) * xInv;
    NormalizeRem(a, q);
    DividesCombination(q, (m1 - m2) - diff, 0, xInv, 0);
    assert target - a == xInv * ((m1 - m2) - diff) + 0 * 0;
    CongruentIff(target, a, q);
  }

  /** When q is prime, generateCollision fails exactly when q divides the
      trapdoor x. */
  lemma CollisionSucceedsIff(q: nat, x: nat, m1: int, r1: int, m2: int)
    requires IsPrime(q)
    ensures CollisionValue(q, x, m1, r1, m2).Success? <==> x % q != 0
  {
    ModInvPrime(x, q);
  }

  /** A failed generateCollision is never a missed inverse: no v satisfies
      x * v == 1 (mod q). */
  lemma CollisionFailsOnlyWithoutInverse(q: nat, x: nat, m1: int, r1: int, m2: int, v: int)
    requires q > 1
    requires CollisionValue(q, x, m1, r1, m2).Failure?
    ensures (x * v) % q != 1
  {
    if (x * v) % q == 1 {
      ModInvComplete(x, q, v);
    }
  }

  /** The collision theorem: if g^q == 1 (mod p) and y = g^x mod p, the
      randomizer generateCollision returns makes m2 hash to the same value
      as (m1, r1). */
  lemma CollisionTheorem(p: nat, q: nat, g: nat, x: nat, m1: nat, r1: nat, m2: nat)
    requires p > 0 && q > 0
    requires ModPow(g, q, p) == 1
    requires CollisionValue(q, x, m1, r1, m2).Success?
    ensures var y := ModPow(g, x, p);
            HashValue(p, g, y, m2, CollisionValue(q, x, m1, r1, m2).value)
            == HashValue(p, g, y, m1, r1)
  {
    var r2 := CollisionValue(q, x, m1, r1, m2).value;
    HashIsSinglePower(p, g, x, m1, r1);
    HashIsSinglePower(p, g, x, m2, r2);
    CongruentIff(m2 + x * r2, m1 + x * r1, q);
    ModPowExponentMod(g, m1 + x * r1, q, p);
    ModPowExponentMod(g, m2 + x * r2, q, p);
  }

  /** The ChameleonHash object: the group (p, g, k, q) and the key pair
      (x, y), set once by the constructor and only read afterwards. */
  class ChameleonHash {
    var p: nat
    var g: nat
    var k: nat
    var q: nat
    var x: nat
    var y: nat

    /** What every constructed object satisfies: the hard-coded group,
        q = (p - 1) / k, a trapdoor in [1, p - 1] and its public key. */
    ghost predicate Valid()
      reads this
    {
      && p == Group14Prime
      && g == Generator
      && k == Cofactor
      && q == (p - 1) / k
      && 1 <= x <= p - 1
      && y == ModPow(g, x, p)
    }

    /** The field assignments of the constructor. The trapdoor x is
        randBetween(1, p - 1) driven by the random source entropy; the
        primality guards that precede it are in Create. */
    constructor (entropy: nat)
      ensures Valid()
      ensures x == RandBetween(1, Group14Prime - 1, entropy).value
    {
      p := Group14Prime;
      g := Generator;
      k := Cofactor;
      new;
      q := (p - 1) / k;
      x := RandBetween(1, p - 1, entropy).value;
      y := ModPow(g, x, p);
    }

    /** new ChameleonHash() with its guards as intended: throws when the
        primality test rejects p, then when it rejects q = (p - 1) / 2;
        otherwise a fresh valid object. So no object exists whose p or q
        the test rejected. */
    static method Create(isProbablyPrime: nat -> bool, entropy: nat)
      returns (res: Result<ChameleonHash>)
      ensures !isProbablyPrime(Group14Prime) ==> res == Failure(PNotPrime)
      ensures isProbablyPrime(Group14Prime) && !isProbablyPrime((Group14Prime - 1) / Cofactor)
              ==> res == Failure(QNotPrime)
      ensures isProbablyPrime(Group14Prime) && isProbablyPrime((Group14Prime - 1) / Cofactor)
              ==> res.Success?
      ensures res.Success? ==> fresh(res.value) && res.value.Valid()
                               && isProbablyPrime(res.value.p) && isProbablyPrime(res.value.q)
                               && res.value.x == RandBetween(1, Group14Prime - 1, entropy).value
    {
      if !isProbablyPrime(Group14Prime) {
        return Failure(PNotPrime);
      }
      if !isProbablyPrime((Group14Prime - 1) / Cofactor) {
        return Failure(QNotPrime);
      }
      var ch := new ChameleonHash(entropy);
      return Success(ch);
    }

    /** new ChameleonHash() as written: the library's isProbablyPrime
        returns a Promise, and each guard negates that Promise instead of
        the verdict it settles to. Neither guard ever throws. */
    static method CreateAsWritten(isProbablyPrime: nat -> bool, entropy: nat)
      returns (res: Result<ChameleonHash>)
      ensures res.Success? && fresh(res.value) && res.value.Valid()
      ensures res.value.x == RandBetween(1, Group14Prime - 1, entropy).value
    {
      if !Truthy(Promise(isProbablyPrime(Group14Prime))) {
        return Failure(PNotPrime);
      }
      if !Truthy(Promise(isProbablyPrime((Group14Prime - 1) / Cofactor))) {
        return Failure(QNotPrime);
      }
      var ch := new ChameleonHash(entropy);
      return Success(ch);
    }

    /** hash(m, r) = g^m * y^r mod p on the object's fields; with the key
        relation y = g^x mod p it is g^(m + x * r) mod p. */
    function Hash(m: nat, r: nat): (h: nat)
      reads this
      requires Valid()
      ensures h < p
      ensures h == ModPow(g, m + x * r, p)
    {
      HashIsSinglePower(p, g, x, m, r);
      HashValue(p, g, y, m, r)
    }

    /** generateCollision(m1, r1, m2): reads only the trapdoor x and the
        order q. */
    function GenerateCollision(m1: int, r1: int, m2: int): (res: Result<nat>)
      reads this`x, this`q
      requires q > 0
      ensures res.Failure? ==> res.error == NoInverse
      ensures res.Success? ==> res.value < q
      ensures res.Success? ==> Divides(q, (m2 + x * res.value) - (m1 + x * r1))
    {
      CollisionValue(q, x, m1, r1, m2)
    }
  }

  /** After construction p == k * q + 1 (p is odd), q > 1 and g == 2. */
  lemma SafePrimeShape(ch: ChameleonHash)
    requires ch.Valid()
    ensures ch.p == ch.k * ch.q + 1 && ch.q > 1 && ch.g == 2 && ch.k == 2
  {
    assert Group14Prime % 2 == 1;
  }

  /** After construction the key pair satisfies 1 <= x <= 2q and the public
      key y is g^x mod p, an element of [0, p). */
  lemma KeyPairRange(ch: ChameleonHash)
    requires ch.Valid()
    ensures 1 <= ch.x <= 2 * ch.q && ch.y < ch.p && ch.y == Pow(ch.g, ch.x) % ch.p
  {
    SafePrimeShape(ch);
    ModPowIsPowMod(ch.g, ch.x, ch.p);
  }

  /** The object's generateCollision finds a collision for its own hash
      whenever it succeeds, provided g^q == 1 (mod p). */
  lemma CollisionFound(ch: ChameleonHash, m1: nat, r1: nat, m2: nat)
    requires ch.Valid()
    requires ModPow(ch.g, ch.q, ch.p) == 1
    requires ch.GenerateCollision(m1, r1, m2).Success?
    ensures ch.Hash(m2, ch.GenerateCollision(m1, r1, m2).value) == ch.Hash(m1, r1)
  {
    CollisionTheorem(ch.p, ch.q, ch.g, ch.x, m1, r1, m2);
  }

  /** If q is truly prime, the object's generateCollision fails exactly for
      the two trapdoors q and 2q of [1, p - 1]. */
  lemma TrapdoorInvertible(ch: ChameleonHash, m1: int, r1: int, m2: int)
    requires ch.Valid() && IsPrime(ch.q)
    ensures ch.GenerateCollision(m1, r1, m2).Success? <==> ch.x != ch.q && ch.x != 2 * ch.q
  {
    SafePrimeShape(ch);
    CollisionSucceedsIff(ch.q, ch.x, m1, r1, m2);
    MultipleInDoubleRange(ch.x, ch.q);
  }

  /** In [1, 2q] the only multiples of q are q and 2q. */
  lemma MultipleInDoubleRange(x: nat, q: nat)
    requires q > 0 && 1 <= x <= 2 * q
    ensures x % q == 0 <==> x == q || x == 2 * q
  {
    if x == q {
      ModUnique(x, q, 1, 0);
    } else if x == 2 * q {
      ModUnique(x, q, 2, 0);
    } else if x < q {
      ModUnique(x, q, 0, x);
    } else {
      ModUnique(x, q, 1, x - q);
    }
  }

  /** The guards as written ignore the verdict: `!isProbablyPrime(p)`
      negates a pending Promise, which is truthy whatever it settles to, so
      the guard never throws. The intended guard, on the settled boolean,
      throws exactly when the verdict is false; the two differ exactly on a
      rejected modulus. */
  lemma RejectedPrimePassesGuardAsWritten(verdict: bool)
    ensures Truthy(Promise(verdict))
    ensures !Truthy(Bool(verdict)) <==> !verdict
    ensures (!Truthy(Promise(verdict)) != !Truthy(Bool(verdict))) <==> !verdict
  {
  }
}
