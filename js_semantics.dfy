/** The JavaScript semantics the source relies on where it differs from
    Dafny's: BigInt `%` and the truthiness tested by `!`. */
module JsSemantics {
  import opened ModArith

  function Abs(n: int): nat {
    if n < 0 then -n else n
  }

  /** The BigInt `%` operator: the remainder of division truncated toward
      zero, so a non-zero result takes the sign of the dividend (Dafny's own
      `%` is Euclidean and never negative). Dividing by zero throws a
      RangeError in JavaScript; no caller in the model divides by zero. */
  function Rem(a: int, n: int): (r: int)
    requires n != 0
    ensures Divides(Abs(n), a - r)
    ensures Abs(r) < Abs(n)
    ensures a >= 0 ==> r >= 0
    ensures a <= 0 ==> r <= 0
  {
    var m := Abs(n);
    if a >= 0 then
      EuclidRemainder(a, m);
      a % m
    else
      EuclidRemainder(-a, m);
      DividesCombination(m, -a - (-a) % m, 0, -1, 0);
      -((-a) % m)
  }

  lemma EuclidRemainder(a: int, m: int)
    requires m > 0
    ensures Divides(m, a - a % m)
  {
    assert a - a % m == m * (a / m);
    MulMod(m, a / m);
  }

  /** The truncating remainder agrees with Dafny's Euclidean `%` on
      non-negative dividends, and the two differ by exactly n on dividends
      whose Euclidean remainder is not zero: the gap the `+ q` of
      generateCollision closes. */
  lemma {:induction false} RemVsEuclid(a: int, n: int)
    requires n > 0
    ensures a >= 0 ==> Rem(a, n) == a % n
    ensures a < 0 && a % n != 0 ==> Rem(a, n) == a % n - n
    ensures a < 0 && a % n == 0 ==> Rem(a, n) == 0
  {
    var r := Rem(a, n);
    CongruentIff(a, r, n);
    if r < 0 {
      ModAddMultiple(r, n, 1);
      ModUnique(r + n, n, 0, r + n);
    } else {
      ModUnique(r, n, 0, r);
    }
  }

  /** Adding n to a truncated remainder and reducing again lands in [0, n)
      with the same Euclidean residue as the dividend. */
  lemma {:induction false} NormalizeRem(a: int, n: int)
    requires n > 0
    ensures 0 <= Rem(Rem(a, n) + n, n) < n
    ensures Rem(Rem(a, n) + n, n) == a % n
  {
    RemVsEuclid(a, n);
    var r := Rem(a, n);
    RemVsEuclid(r + n, n);
    ModAddMultiple(r, n, 1);
    if r >= 0 {
      ModUnique(r, n, 0, r);
    } else {
      ModUnique(r + n, n, 0, r + n);
    }
  }

  /** A value `!` can be applied to in the constructor's guards: a boolean,
      or the Promise an asynchronous call returns, which settles later to
      a boolean. */
  datatype JsValue = Bool(b: bool) | Promise(settlesTo: bool)

  /** JavaScript truthiness: a boolean is itself, and every object, a
      Promise included, is truthy whatever it settles to; so `false` is the
      only falsy value here. */
  predicate Truthy(v: JsValue): (t: bool)
    ensures t <==> v != Bool(false)
  {
    match v
    case Bool(b) => b
    case Promise(_) => true
  }
}
