/**
 * Integer helpers with Rust's semantics.  Dafny's `/` and `%` are
 * Euclidean; Rust's `/` truncates toward zero and its `%` takes the sign
 * of the dividend, so they differ on negative operands.
 */
module IntMath {

  function Abs(x: int): (r: nat)
    ensures r == x || r == -x
  {
    if x < 0 then -x else x
  }

  /** Rust's `i32::signum`. */
  function Sign(x: int): (r: int)
    ensures r == 0 <==> x == 0
    ensures r == 1 <==> x > 0
    ensures r == -1 <==> x < 0
  {
    if x > 0 then 1 else if x < 0 then -1 else 0
  }

  /** Rust's integer `/`: the quotient truncated toward zero. */
  function Quot(a: int, b: int): int
    requires b != 0
  {
    if (a < 0) == (b < 0) then Abs(a) / Abs(b) else -(Abs(a) / Abs(b))
  }

  /** Rust's integer `%`: what is left after `Quot`. */
  function Rem(a: int, b: int): int
    requires b != 0
  {
    a - b * Quot(a, b)
  }

  /** `Quot` and `Rem` are the truncating division: the remainder is smaller
      than the divisor in magnitude and never has the opposite sign of the
      dividend. */
  lemma QuotRemSpec(a: int, b: int)
    requires b != 0
    ensures a == b * Quot(a, b) + Rem(a, b)
    ensures Abs(Rem(a, b)) < Abs(b)
    ensures a >= 0 ==> Rem(a, b) >= 0
    ensures a <= 0 ==> Rem(a, b) <= 0
    ensures Abs(Quot(a, b)) == Abs(a) / Abs(b)
  {
    var q, r := Abs(a) / Abs(b), Abs(a) % Abs(b);
    NatDivMod(Abs(a), Abs(b));
    SignedProduct(a, b, q);
    var bq := b * Quot(a, b);
    assert Rem(a, b) == a - bq;
    assert Rem(a, b) == (if a >= 0 then r else -r);
  }

  /** Euclidean division of naturals. */
  lemma NatDivMod(x: nat, y: nat)
    requires y > 0
    ensures x == y * (x / y) + x % y && 0 <= x % y < y
  {
  }

  /** The divisor times the truncated quotient, by the signs involved. */
  lemma SignedProduct(a: int, b: int, q: int)
    requires b != 0 && q == Abs(a) / Abs(b)
    ensures Quot(a, b) == (if (a < 0) == (b < 0) then q else -q)
    ensures b * Quot(a, b) == (if a >= 0 then Abs(b) * q else -(Abs(b) * q))
  {
    var bb := Abs(b);
    if b > 0 {
      assert b == bb;
    } else {
      assert b == -bb;
      assert (-bb) * (-q) == bb * q;
      assert (-bb) * q == -(bb * q);
    }
  }

  /** On a non-negative dividend and a positive divisor Rust's and Dafny's
      division agree. */
  lemma QuotOfNatural(a: int, b: int)
    requires a >= 0 && b > 0
    ensures Quot(a, b) == a / b && Rem(a, b) == a % b
  {
  }

  lemma MulAtLeast(a: int, t: int)
    requires a > 0 && t >= 1
    ensures a * t >= a
  {
    assert a * t == a * (t - 1) + a;
    assert a * (t - 1) >= 0;
  }

  /** Euclidean division is determined by the quotient/remainder equation. */
  lemma DivModUnique(x: int, a: int, q: int, r: int)
    requires a > 0 && x == a * q + r && 0 <= r < a
    ensures x / a == q && x % a == r
  {
    var q0, r0 := x / a, x % a;
    assert x == a * q0 + r0;
    assert a * (q - q0) == r0 - r;
    if q > q0 { MulAtLeast(a, q - q0); }
    else if q < q0 { MulAtLeast(a, q0 - q); }
  }

  lemma MulDiv(a: int, k: int)
    requires a > 0
    ensures (a * k) % a == 0 && (a * k) / a == k
  {
    DivModUnique(a * k, a, k, 0);
  }

  /** Natural power, `u32::pow`. */
  function Pow(b: int, e: nat): int
  {
    if e == 0 then 1 else b * Pow(b, e - 1)
  }

  lemma {:induction false} PowPositive(b: int, e: nat)
    requires b > 0
    ensures Pow(b, e) > 0
  {
    if e > 0 { PowPositive(b, e - 1); }
  }

  lemma {:induction false} PowAdd(b: int, e1: nat, e2: nat)
    ensures Pow(b, e1 + e2) == Pow(b, e1) * Pow(b, e2)
  {
    if e1 > 0 {
      PowAdd(b, e1 - 1, e2);
      assert Pow(b, e1 + e2) == b * Pow(b, e1 - 1 + e2);
    }
  }

  /** A smaller power of the same base divides a larger one. */
  lemma PowDivides(b: int, e1: nat, e2: nat)
    requires b > 0 && e1 <= e2
    ensures Pow(b, e1) > 0 && Pow(b, e2) % Pow(b, e1) == 0
  {
    PowPositive(b, e1);
    PowAdd(b, e1, e2 - e1);
    MulDiv(Pow(b, e1), Pow(b, e2 - e1));
  }

  lemma {:induction false} MulMonotone(a: int, b: int, c: nat)
    requires a <= b
    ensures a * c <= b * c
  {
    if c > 0 {
      MulMonotone(a, b, c - 1);
      assert a * c == a * (c - 1) + a;
      assert b * c == b * (c - 1) + b;
    }
  }
}
