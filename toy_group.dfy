/** The chameleon hash over the small safe prime 23 = 2 * 11 + 1, where
    g = 2 has order 11 modulo 23: a concrete instance of the
    general theorems, small enough to evaluate. */
module ToyGroup {
  import opened JsSemantics
  import opened CryptoUtils
  import opened Chameleon

  const ToyP: nat := 23
  const ToyQ: nat := 11
  const ToyG: nat := 2
  /** The trapdoor x = 7 and its public key y = 2^7 mod 23. */
  const ToyX: nat := 7
  const ToyY: nat := 13

  /** A concrete key pair: y = 2^7 mod 23 = 13, and 7 has
      the inverse 8 modulo 11. */
  lemma ToyKeyPair()
    ensures ModPow(ToyG, ToyX, ToyP) == ToyY
    ensures ModInv(ToyX, ToyQ) == Some(8)
  {
    PowersOfTwo();
    assert EGcd(7, 11) == (1, -3, 2) by {
      assert EGcd(1, 0) == (1, 1, 0);
      assert EGcd(3, 1) == (1, 0, 1);
      assert EGcd(4, 3) == (1, 1, -1);
      assert EGcd(7, 4) == (1, -1, 2);
      assert EGcd(11, 7) == (1, 2, -3);
    }
  }

  /** A concrete collision: with m1 = 3, r1 = 5 and m2 = 9 the truncating
      remainders go negative (diff = -6, r' = -10) before the final
      (r' + q) % q brings the randomizer back to 1. */
  lemma ToyCollision()
    ensures Rem(3 - 9, ToyQ) == -6 && Rem(5 + -6 * 8, ToyQ) == -10
    ensures CollisionValue(ToyQ, ToyX, 3, 5, 9) == Success(1)
  {
    ToyKeyPair();
  }

  /** ... and Hash(9, 1) equals Hash(3, 5) = 9. */
  lemma ToyHashes()
    ensures HashValue(ToyP, ToyG, ToyY, 3, 5) == 9
    ensures HashValue(ToyP, ToyG, ToyY, 9, 1) == 9
  {
    PowersOfTwo();
    PowersOfThirteen();
  }

  /** 2^k mod 23 for k = 0 .. 11. */
  lemma PowersOfTwo()
    ensures ModPow(2, 3, 23) == 8 && ModPow(2, 7, 23) == 13
    ensures ModPow(2, 9, 23) == 6 && ModPow(2, 11, 23) == 1
  {
    assert ModPow(2, 0, 23) == 1;
    assert ModPow(2, 1, 23) == 2;
    assert ModPow(2, 2, 23) == 4;
    assert ModPow(2, 3, 23) == 8;
    assert ModPow(2, 4, 23) == 16;
    assert ModPow(2, 5, 23) == 9;
    assert ModPow(2, 6, 23) == 18;
    assert ModPow(2, 7, 23) == 13;
    assert ModPow(2, 8, 23) == 3;
    assert ModPow(2, 9, 23) == 6;
    assert ModPow(2, 10, 23) == 12;
  }

  /** 2 has order 11 modulo 23: 2^11 == 1 and no smaller positive power
      of 2 is 1. */
  lemma TwoHasOrderEleven()
    ensures ModPow(ToyG, ToyQ, ToyP) == 1
    ensures forall e :: 0 < e < ToyQ ==> ModPow(ToyG, e, ToyP) != 1
  {
    PowersOfTwo();
    assert ModPow(2, 1, 23) == 2;
    assert ModPow(2, 2, 23) == 4;
    assert ModPow(2, 4, 23) == 16;
    assert ModPow(2, 5, 23) == 9;
    assert ModPow(2, 6, 23) == 18;
    assert ModPow(2, 8, 23) == 3;
    assert ModPow(2, 10, 23) == 12;
  }

  /** 13^k mod 23 for k = 0 .. 5. */
  lemma PowersOfThirteen()
    ensures ModPow(13, 1, 23) == 13 && ModPow(13, 5, 23) == 4
  {
    assert ModPow(13, 0, 23) == 1;
    assert ModPow(13, 1, 23) == 13;
    assert ModPow(13, 2, 23) == 8;
    assert ModPow(13, 3, 23) == 12;
    assert ModPow(13, 4, 23) == 18;
  }

  /** In the toy group every (m1, r1, m2) gets a collision. */
  lemma ToyCollisionForAll(m1: nat, r1: nat, m2: nat)
    ensures CollisionValue(ToyQ, ToyX, m1, r1, m2).Success?
    ensures HashValue(ToyP, ToyG, ToyY, m2, CollisionValue(ToyQ, ToyX, m1, r1, m2).value)
         == HashValue(ToyP, ToyG, ToyY, m1, r1)
  {
    assert ModPow(ToyG, ToyQ, ToyP) == 1 && ModPow(ToyG, ToyX, ToyP) == ToyY by {
      PowersOfTwo();
    }
    assert ModInv(ToyX, ToyQ) == Some(8);
    CollisionTheorem(ToyP, ToyQ, ToyG, ToyX, m1, r1, m2);
  }
}
