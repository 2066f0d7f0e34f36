/** Division and remainder facts the codecs, the shaper and the wrapping counters need.
    Each lemma meets one nonlinear step, so none of them searches. */
module Arith {
  function Max(a: int, b: int): int { if a < b then b else a }

  function Min(a: int, b: int): int { if a < b then a else b }

  function Pow(base: nat, exponent: nat): (power: nat)
    ensures base > 0 ==> power > 0
  {
    if exponent == 0 then 1 else Pow(base, exponent - 1) * base
  }

  lemma AtLeast(a: nat, b: nat)
    requires b > 0
    ensures a * b >= a
  {
    assert a * b == a + a * (b - 1);
  }

  lemma MulMono(a: int, b: int, c: nat)
    requires a <= b
    ensures a * c <= b * c
  {
    assert (b - a) * c == b * c - a * c;
  }

  /** A quotient and a remainder in range are the only ones. */
  lemma DecompositionUnique(divisor: nat, q1: int, r1: nat, q2: int, r2: nat)
    requires q1 * divisor + r1 == q2 * divisor + r2
    requires r1 < divisor && r2 < divisor
    ensures q1 == q2 && r1 == r2
  {
    var gap := q2 - q1;
    assert gap * divisor == r1 - r2;
    assert gap * divisor == divisor * gap && gap * divisor == -(divisor * -gap);
    if gap > 0 {
      AtLeast(divisor, gap);
    } else if gap < 0 {
      AtLeast(divisor, -gap);
    }
  }

  lemma Division(value: int, divisor: nat)
    requires divisor > 0
    ensures value == value / divisor * divisor + value % divisor && 0 <= value % divisor < divisor
  {
  }

  lemma QuotientUnique(value: int, divisor: nat, quotient: int, remainder: nat)
    requires divisor > 0 && value == quotient * divisor + remainder && remainder < divisor
    ensures value / divisor == quotient && value % divisor == remainder
  {
    Division(value, divisor);
    DecompositionUnique(divisor, value / divisor, value % divisor, quotient, remainder);
  }

  lemma QuotientAtMost(value: nat, divisor: nat, bound: nat)
    requires divisor > 0 && value < (bound + 1) * divisor
    ensures value / divisor <= bound
  {
    Division(value, divisor);
    if bound + 1 <= value / divisor {
      MulMono(bound + 1, value / divisor, divisor);
    }
  }

  lemma DivideBound(value: nat, divisor: nat)
    requires divisor > 0
    ensures 0 <= value / divisor <= value
  {
    Division(value, divisor);
    assert value / divisor >= 0;
    AtLeast(value / divisor, divisor);
  }

  lemma TwoLevels(value: nat, a: nat, b: nat, q: nat, r: nat, qq: nat, rr: nat)
    requires value == q * a + r && r < a && q == qq * b + rr && rr < b
    ensures value == qq * (a * b) + (rr * a + r) && rr * a + r < a * b
  {
    assert (qq * b + rr) * a == qq * b * a + rr * a;
    assert qq * b * a == qq * (a * b);
    assert (b - rr) * a == a * b - rr * a;
    AtLeast(a, b - rr);
    assert a * (b - rr) == (b - rr) * a;
  }

  /** Division by a variable, named so that a proof can use it without looking inside. */
  function Quotient(value: nat, divisor: nat): (q: nat)
    requires divisor > 0
    ensures q <= value
  {
    DivideBound(value, divisor);
    value / divisor
  }

  lemma QuotientBounds(value: nat, divisor: nat)
    requires divisor > 0
    ensures Quotient(value, divisor) * divisor <= value < Quotient(value, divisor) * divisor + divisor
  {
    Division(value, divisor);
  }

  lemma DivideTwice(value: nat, a: nat, b: nat)
    requires a > 0 && b > 0
    ensures a * b > 0 && value / a / b == value / (a * b)
  {
    var q, r := value / a, value % a;
    var qq, rr := q / b, q % b;
    Division(value, a);
    Division(q, b);
    DivideBound(value, a);
    DivideBound(q, b);
    TwoLevels(value, a, b, q, r, qq, rr);
    QuotientUnique(value, a * b, qq, rr * a + r);
  }

  /** Wrapping early or late makes no difference to a wrapping product. */
  lemma WrapTwice(value: nat, a: nat, modulus: nat)
    requires modulus > 0
    ensures (value % modulus) * a % modulus == value * a % modulus
  {
    var q, r := value / modulus, value % modulus;
    Division(value, modulus);
    var s, t := r * a / modulus, r * a % modulus;
    Division(r * a, modulus);
    Regroup(q, modulus, r, a, s, t);
    QuotientUnique(value * a, modulus, q * a + s, t);
  }

  lemma Regroup(q: int, modulus: int, r: int, a: int, s: int, t: int)
    requires r * a == s * modulus + t
    ensures (q * modulus + r) * a == (q * a + s) * modulus + t
  {
    assert (q * modulus + r) * a == q * modulus * a + r * a;
    assert (q * a + s) * modulus == q * a * modulus + s * modulus;
    assert q * modulus * a == q * a * modulus;
  }
}
