# Chameleon hash over RFC 3526 group 14, in Dafny

This project models the `ChameleonHash` class of `chamelon.js`. It is a
discrete-logarithm chameleon hash:

- `Hash(m, r) = g^m · y^r mod p`, with public key `y = g^x mod p`.
- Whoever holds the trapdoor `x` can take any `(m1, r1)` and a new message
  `m2` and compute a randomizer `r'` with `Hash(m2, r') == Hash(m1, r1)`.

The class hard-codes the 2048-bit MODP prime of RFC 3526, section 3
(group 14). It fixes `g = 2` and `k = 2`, and derives `q = (p - 1) / k`. It
calls a probabilistic primality test on `p` and `q`, but its guards negate
the Promise the test returns and so never throw (see "## Findings"). It
draws `x` from `[1, p - 1]` and sets `y = g^x mod p`. Then it answers `hash(m, r)` and
`generateCollision(m1, r1, m2)`.

Modules:

- `ModArith` (modular.dfy): divisibility, primality and the facts about
  Euclidean remainders the proofs use.
- `JsSemantics` (js_semantics.dfy): JavaScript's BigInt `%`, which truncates
  toward zero, and the truthiness that `!` tests.
- `CryptoUtils` (crypto_utils.dfy): specification functions for the three
  bigint-crypto-utils routines the class calls. These are `modPow`, `modInv`
  (via an extended Euclid of its own) and `randBetween`.
- `Chameleon` (chameleon.dfy): the scheme over explicit group values
  (`HashValue`, `CollisionValue`, the collision theorem), and the class
  `ChameleonHash` fixed to group 14, whose functions evaluate the scheme on
  its fields.
- `ToyGroup` (toy_group.dfy): the same scheme over the safe prime
  23 = 2 · 11 + 1, evaluated concretely.

Outside influences are parameters:

- The primality test is a function `isProbablyPrime: nat -> bool`.
- The random source is a number `entropy`; `randBetween` maps it into its
  range.
- Messages and randomizers are arguments.

In a few places the code does less than a textbook discrete-logarithm
chameleon hash (one that generates its own safe prime and reduces every
value into the group); the model follows the code:

- The prime is hard-coded rather than generated from a bit length.
- `generateCollision` returns values in `[0, q - 1]`, not `[1, p - 1]`.
- No domain check is made on `m` or `r`.
- A missing inverse surfaces as the library's RangeError (`NoInverse` here).

## Model

| member | source | states |
|---|---|---|
| `Chameleon.ChameleonHash.constructor` | chamelon.js:27-43 | The fields are p = the group 14 prime, g = 2, k = 2, q = (p - 1) / k. x is randBetween(1, p - 1) and y = g^x mod p. The object satisfies Valid(). |
| `Chameleon.ChameleonHash.Create` | chamelon.js:6-44 | If the test rejects p, the result is the PNotPrime error. If it accepts p but rejects q, the result is QNotPrime. If it accepts both, construction succeeds. A success is a fresh valid object whose p and q the test accepted, so no object exists with a rejected p or q. |
| `Chameleon.ChameleonHash.CreateAsWritten` | chamelon.js:22-37 | Models the guards as written: they negate the Promise the test returns. Construction always succeeds, whatever the test says. |
| `JsSemantics.Truthy` | chamelon.js:23 | What `!` tests in the guards at lines 23 and 35: a boolean is itself, and a Promise is truthy whatever it settles to, so `false` is the only falsy value. |
| `Chameleon.RejectedPrimePassesGuardAsWritten` | chamelon.js:23-25 | The guard as written, `!` applied to the Promise, never throws, whatever the verdict. The intended guard on the settled boolean throws exactly on a rejection, so the two differ exactly when the test rejects the modulus. |
| `Chameleon.SafePrimeShape` | chamelon.js:28-32 | After construction p == k·q + 1 (p is odd), q > 1, g == 2 and k == 2. |
| `Chameleon.KeyPairRange` | chamelon.js:39-43 | After construction 1 <= x <= 2q = p - 1, and y == g^x mod p lies in [0, p). |
| `CryptoUtils.RandBetween` | chamelon.js:47-49 | The draw succeeds exactly when min < max, and then lies in [min, max] with both ends included. The library's RangeError is modelled as None. |
| `CryptoUtils.RandBetweenCovers` | chamelon.js:47-49 | Some value of the random source yields each value of [min, max]. |
| `CryptoUtils.ModPow` | chamelon.js:53-54 | modPow(b, e, n) lies in [0, n). |
| `CryptoUtils.ModPowIsPowMod` | chamelon.js:53-54 | Reducing at every step equals b^e mod n, against the plain power Pow. |
| `CryptoUtils.PowAdd` | chamelon.js:51 | Product of powers: b^(e1 + e2) == b^e1 · b^e2. |
| `CryptoUtils.PowMul` | chamelon.js:51 | Power of a power: (b^e1)^e2 == b^(e1·e2). |
| `CryptoUtils.ModPowExponentMod` | chamelon.js:58 | If g^q ≡ 1 (mod n), then g^e ≡ g^(e mod q) (mod n). |
| `Chameleon.HashValue` | chamelon.js:51-56 | hash(m, r) lies in [0, p) and equals g^m · y^r mod p, computed with the plain power. |
| `Chameleon.HashIsSinglePower` | chamelon.js:43-56 | With y = g^x mod p, hash(m, r) == g^(m + x·r) mod p. |
| `Chameleon.ChameleonHash.Hash` | chamelon.js:52-56 | On a valid object, hash(m, r) lies in [0, p) and equals g^(m + x·r) mod p. It is a function, so it is deterministic and changes no field. |
| `CryptoUtils.EGcd` | chamelon.js:61 | Extended Euclid returns d with Bezout coefficients a·s + b·t == d. d divides a and b unless both are 0. |
| `CryptoUtils.CommonDivisorDividesGcd` | chamelon.js:61 | Every common divisor of a and b divides EGcd's d, so d is the greatest. |
| `CryptoUtils.ModInv` | chamelon.js:61 | A returned inverse v lies in [0, n) and a·v ≡ 1 (mod n). None models the library's RangeError. |
| `CryptoUtils.ModInvComplete` | chamelon.js:61 | Whenever some v has a·v ≡ 1 (mod n) with n > 1, ModInv succeeds. |
| `CryptoUtils.ModInvUnique` | chamelon.js:61 | An inverse v in [0, n) is unique: ModInv(a, n) returns exactly v, the value the library reduces its Bezout coefficient to. |
| `CryptoUtils.ModInvPrime` | chamelon.js:61 | Modulo a prime q, an inverse exists exactly when q does not divide a. |
| `JsSemantics.Rem` | chamelon.js:63-66 | BigInt `%` (truncating): the dividend minus the result is a multiple of n, and \|result\| < \|n\|. The result is never negative for a non-negative dividend and never positive for a non-positive one. |
| `JsSemantics.RemVsEuclid` | chamelon.js:63-64 | The truncating `%` equals Euclidean mod on non-negative dividends. On negative ones with a non-zero residue it equals Euclidean mod minus n. |
| `JsSemantics.NormalizeRem` | chamelon.js:65-66 | (a % n + n) % n under truncating `%` lies in [0, n) and equals a mod n. |
| `Chameleon.CollisionValue` | chamelon.js:59-67 | generateCollision fails only with NoInverse. A result lies in [0, q) and solves m2 + x·r' ≡ m1 + x·r1 (mod q) for all signs of m1, r1, m2. |
| `Chameleon.CollisionIsMathematicalMod` | chamelon.js:62-66 | When the inverse exists, the result is exactly (r1 + (m1 - m2)·x⁻¹) mod q with the never-negative mod, as the comment promises. |
| `Chameleon.CollisionSucceedsIff` | chamelon.js:61 | If q is prime, generateCollision succeeds exactly when q does not divide x. |
| `Chameleon.CollisionFailsOnlyWithoutInverse` | chamelon.js:61 | If generateCollision fails, no v satisfies x·v ≡ 1 (mod q). |
| `Chameleon.CollisionTheorem` | chamelon.js:58-67 | Suppose g^q ≡ 1 (mod p) and y = g^x mod p. Then hash(m2, generateCollision(m1, r1, m2)) == hash(m1, r1) for all m1, r1, m2 >= 0. |
| `Chameleon.ChameleonHash.GenerateCollision` | chamelon.js:59-67 | It reads only the fields x and q. It fails only with NoInverse. A result lies in [0, q) and solves m2 + x·r' ≡ m1 + x·r1 (mod q). |
| `Chameleon.CollisionFound` | chamelon.js:58-67 | On a valid object with g^q ≡ 1 (mod p), a successful generateCollision(m1, r1, m2) gives hash(m2, r') == hash(m1, r1). This is the check the demo prints. |
| `Chameleon.TrapdoorInvertible` | chamelon.js:59-61 | On a valid object with q prime, generateCollision succeeds exactly when x ∉ {q, 2q}. These are the only multiples of q in [1, p - 1]. |
| `ToyGroup.ToyKeyPair` | chamelon.js:40-43 | In the group p = 23, x = 7 gives y = 13, and 7⁻¹ mod 11 = 8. |
| `ToyGroup.TwoHasOrderEleven` | chamelon.js:28-32 | In the p = 23 group, g = 2 has order exactly q = 11: 2^11 ≡ 1 and no smaller positive power is 1, the relation between g and q the collision theorem assumes. |
| `ToyGroup.ToyCollision` | chamelon.js:63-66 | For m1 = 3, r1 = 5, m2 = 9, diff = -6 and r' = -10 are negative before the final `+ q` yields 1. |
| `ToyGroup.ToyHashes` | chamelon.js:52-56 | Hash(3, 5) == Hash(9, 1) == 9 in the p = 23 group. |
| `ToyGroup.ToyCollisionForAll` | chamelon.js:94-105 | In the p = 23 group every (m1, r1, m2) gets a collision, which the demo's equality check expects. |

## Left out

- Primality testing (`isProbablyPrime`, chamelon.js:23, 35): a probabilistic foreign call, modelled as a function parameter. The primality of the 2048-bit constant is not proved. Real primality (`IsPrime`) appears only as a hypothesis.
- Random sampling (`randBetween`'s source, chamelon.js:48): the random source is the parameter `entropy`. Uniformity is not modelled, only the range and that every value can be drawn.
- The internals of bigint-crypto-utils' `modPow` (square-and-multiply) and `modInv` (an iterative extended Euclid). `ModPow` is a step-by-step recursion, equal to b^e mod n by `ModPowIsPowMod`. `ModInv` reduces the Bezout coefficient of the recursive `EGcd` into [0, n); by `ModInvUnique` no other value in [0, n) is an inverse, so it agrees with any correct extended Euclid.
- Negative exponents: the library's `modPow` inverts the base for them. The model takes `m`, `r` and `x` as non-negative, as the demo produces them.
- Chameleon.ChameleonHash.Hash: exponents are `nat`, so a negative `m` or `r` (a RangeError or inverted base in the library) is not modelled.
- Chameleon.CollisionTheorem: proved under the hypothesis g^q ≡ 1 (mod p). The source never checks it. For group 14 it is a known property of g = 2, but it is not proved here.
- JavaScript's RangeError for BigInt `%` by zero: every `%` in the class divides by q or p, which are positive.
- Hex decoding (`hexToBigint`, chamelon.js:8-20): the prime is written as a Dafny hex literal.
- Construction in one step: a Dafny constructor cannot throw. The guards are in `ChameleonHash.Create`, and the constructor performs the field assignments.
- The demo (chamelon.js:70-106) is left out: console output, random bytes and the caller-side reduction of messages modulo p - 1. Only its final equality check is restated, by `CollisionFound` and the toy lemmas.
- test/chamelon.js is not part of this model. It is a logging loop that calls a constructor argument and an `initialize()` method that chamelon.js does not have.
- Safe-prime generation from a bit length and a check of the generator: the source has neither.

## Findings

| source | as written | input that shows it | evidently intended | confidence | as-written member | corrected member |
|---|---|---|---|---|---|---|
| chamelon.js:23-25 | `!bigintCryptoUtils.isProbablyPrime(this.p)` negates the Promise the library's `isProbablyPrime` returns. Any Promise is truthy, so the guard is always false; the same holds for q at lines 35-37. | A primality test that rejects p: construction still succeeds (`RejectedPrimePassesGuardAsWritten`). | Await the verdict, so a rejected p or q throws. | medium: not executed; relies on the library's documented Promise-returning `isProbablyPrime` | `Chameleon.ChameleonHash.CreateAsWritten` | `Chameleon.ChameleonHash.Create` |
