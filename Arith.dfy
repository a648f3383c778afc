/** Integer arithmetic as the C++ sources use it: powers of ten, absolute
    value, the sign convention `x < 0 ? -1 : 1`, and the C++ division and
    remainder, which truncate toward zero (Dafny's own `/` and `%` are
    Euclidean and agree with C++ only on non-negative operands). */
module Arith {

  function Pow10(i: nat): (p: int)
    ensures p >= 1
  {
    if i == 0 then 1 else 10 * Pow10(i - 1)
  }

  lemma {:induction false} Pow10Monotone(i: nat, j: nat)
    requires i <= j
    ensures Pow10(i) <= Pow10(j)
  {
    if i < j {
      Pow10Monotone(i, j - 1);
    }
  }

  lemma {:induction false} Pow10Add(i: nat, j: nat)
    ensures Pow10(i + j) == Pow10(i) * Pow10(j)
  {
    if j > 0 {
      Pow10Add(i, j - 1);
      calc {
        Pow10(i + j);
        10 * Pow10(i + j - 1);
        10 * (Pow10(i) * Pow10(j - 1));
        Pow10(i) * (10 * Pow10(j - 1));
        Pow10(i) * Pow10(j);
      }
    }
  }

  function Abs(x: int): nat
  {
    if x < 0 then -x else x
  }

  /** The sign the sources attach to a value: `x < 0 ? -1 : 1`, so zero counts as positive. */
  function Sign(x: int): int
  {
    if x < 0 then -1 else 1
  }

  function Max(x: int, y: int): int
  {
    if x < y then y else x
  }

  function Min(x: int, y: int): int
  {
    if x < y then x else y
  }

  /** C++ `a / b` for a positive divisor: the quotient rounded toward zero. */
  function Quot(a: int, b: int): int
    requires b > 0
  {
    if a < 0 then -((-a) / b) else a / b
  }

  /** `mod` of the sources (BigInt.cpp `detail::mod`, ops.cpp and diff.cpp `mod`),
      which for a positive divisor is also C++ `a % b`: the remainder of the
      truncating division, carrying the sign of `a`. */
  function Mod(a: int, b: int): (r: int)
    requires b > 0
    ensures a == Quot(a, b) * b + r
    ensures 0 <= a ==> 0 <= r < b
    ensures a < 0 ==> -b < r <= 0
  {
    if a < 0 then -((-a) % b) else a % b
  }

  /** Euclidean division is determined by its quotient and remainder. */
  lemma DivModUnique(m: int, d: int, q: int, r: int)
    requires d > 0 && m == q * d + r && 0 <= r < d
    ensures m / d == q && m % d == r
  {
    var q', r' := m / d, m % d;
    assert (q - q') * d == r' - r;
    if q > q' {
      MulAtLeast(q - q', d);
      assert false;
    }
    if q < q' {
      MulAtLeast(q' - q, d);
      assert false;
    }
  }

  lemma MulAtLeast(k: int, d: int)
    requires k >= 1 && d > 0
    ensures k * d >= d
  {
    assert k * d == (k - 1) * d + d;
    assert (k - 1) * d >= 0;
  }

  /** Division by 10^(k+1) peels one more decimal digit off division by 10^k. */
  lemma DivModPow10Step(m: nat, k: nat)
    ensures m / Pow10(k + 1) == (m / Pow10(k)) / 10
    ensures m % Pow10(k + 1) == m % Pow10(k) + ((m / Pow10(k)) % 10) * Pow10(k)
  {
    DivModTen(m, Pow10(k));
  }

  /** Dividing by 10p is dividing by p and then by 10. */
  lemma DivModTen(m: nat, p: int)
    requires p >= 1
    ensures m / (10 * p) == (m / p) / 10
    ensures m % (10 * p) == m % p + ((m / p) % 10) * p
  {
    var q, r := m / p, m % p;
    var q1, q0 := q / 10, q % 10;
    assert q == 10 * q1 + q0;
    assert m == q * p + r;
    calc {
      m;
      (10 * q1 + q0) * p + r;
      q1 * (10 * p) + (q0 * p + r);
    }
    assert q0 * p <= 9 * p by {
      MulMono(q0, 9, p);
    }
    DivModUnique(m, 10 * p, q1, q0 * p + r);
  }

  lemma MulMono(x: int, y: int, p: nat)
    requires x <= y
    ensures x * p <= y * p
  {
    assert y * p - x * p == (y - x) * p;
  }

  /** C++ `x / y` for any non-zero divisor, rounded toward zero. */
  function TDiv(x: int, y: int): int
    requires y != 0
  {
    if (x < 0) == (y < 0) then Abs(x) / Abs(y) else -(Abs(x) / Abs(y))
  }

  /** C++ `x % y` for any non-zero divisor: the remainder takes the sign of x. */
  function TRem(x: int, y: int): int
    requires y != 0
  {
    if x < 0 then -(Abs(x) % Abs(y)) else Abs(x) % Abs(y)
  }

  /** The division-remainder law of truncating division, with the sign rules:
      the remainder is smaller than the divisor in magnitude and takes the
      sign of the dividend; a non-zero quotient is positive exactly when the
      operands have the same sign. */
  lemma TruncDivLaw(x: int, y: int)
    requires y != 0
    ensures x == TDiv(x, y) * y + TRem(x, y)
    ensures Abs(TRem(x, y)) < Abs(y)
    ensures TRem(x, y) != 0 ==> Sign(TRem(x, y)) == Sign(x)
    ensures TDiv(x, y) != 0 ==> (Sign(TDiv(x, y)) == 1 <==> (x < 0) == (y < 0))
    ensures Abs(TDiv(x, y)) == Abs(x) / Abs(y) && Abs(TRem(x, y)) == Abs(x) % Abs(y)
  {
    var q, r := Abs(x) / Abs(y), Abs(x) % Abs(y);
    SignedDivision(x, y, q, r);
  }

  /** Re-attaching the signs to a division of magnitudes. */
  lemma SignedDivision(x: int, y: int, q: int, r: int)
    requires y != 0 && q >= 0 && r >= 0 && Abs(x) == q * Abs(y) + r
    ensures x == (if (x < 0) == (y < 0) then q else -q) * y + (if x < 0 then -r else r)
  {
    var qy := q * y;
    if y < 0 {
      assert q * Abs(y) == -qy;
    } else {
      assert q * Abs(y) == qy;
    }
    assert (-q) * y == -qy;
  }
}
