/**
 Java `int` arithmetic that differs from Dafny's.

 Dafny's `/` and `%` are Euclidean (the remainder is never negative); Java's
 truncate toward zero, so the remainder takes the sign of the dividend. The
 timecode decoders can be handed negative frame counts (on the failing path of
 a subtraction), so every division of the model goes through `Div` and `Rem`.
 */
module JavaInt {

  function Abs(a: int): (r: int)
    ensures r >= 0
    ensures r == a || r == -a
  {
    if a < 0 then -a else a
  }

  /** Java's `a / b` for a positive divisor. */
  function Div(a: int, b: int): int
    requires b > 0
  {
    if a >= 0 then a / b else -((-a) / b)
  }

  /** Java's `a % b` for a positive divisor. */
  function Rem(a: int, b: int): int
    requires b > 0
  {
    if a >= 0 then a % b else -((-a) % b)
  }

  /**
   Java's division truncates toward zero: the quotient has magnitude |a| / b
   and the sign of `a`, and the remainder has the sign of `a` and magnitude below `b`.
   */
  lemma TruncatedDivision(a: int, b: int)
    requires b > 0
    ensures Abs(Div(a, b)) == Abs(a) / b
    ensures Div(a, b) != 0 ==> (Div(a, b) < 0 <==> a < 0)
    ensures a == b * Div(a, b) + Rem(a, b)
    ensures -b < Rem(a, b) < b
    ensures Rem(a, b) != 0 ==> (Rem(a, b) < 0 <==> a < 0)
  {
    if a >= 0 {
      var q, r := a / b, a % b;
      NonNegativeQuotient(a, b);
      assert Div(a, b) == q && Abs(a) == a && Abs(q) == q;
      assert Rem(a, b) == a - b * q == r;
    } else {
      var q, r := (-a) / b, (-a) % b;
      assert -a == b * q + r;
      NonNegativeQuotient(-a, b);
      assert Div(a, b) == -q && Abs(a) == -a && Abs(-q) == q;
      assert b * Div(a, b) == -(b * q);
      assert Rem(a, b) == -r;
    }
  }

  /** Java's quotient and remainder are odd in the dividend; Dafny's are not. */
  lemma DivRemNegate(a: int, b: int)
    requires b > 0
    ensures Div(-a, b) == -Div(a, b) && Rem(-a, b) == -Rem(a, b)
  {
  }

  lemma NonNegativeQuotient(a: int, b: int)
    requires a >= 0 && b > 0
    ensures a / b >= 0
  {
    var q := a / b;
    assert a == b * q + a % b;
    if q < 0 {
      MulAtLeast(-q, b);
      assert false;
    }
  }

  /** On a non-negative dividend Java's and Dafny's division agree. */
  lemma DivRemNonNegative(a: int, b: int)
    requires a >= 0 && b > 0
    ensures Div(a, b) == a / b && Rem(a, b) == a % b
  {
  }

  lemma MulAtLeast(x: int, d: int)
    requires x >= 1 && d > 0
    ensures x * d >= d
  {
    assert (x - 1) * d >= 0;
  }

  /** Dafny's (Euclidean) quotient and remainder are the unique `q`, `r` with `n == q * d + r` and `0 <= r < d`. */
  lemma DivModBy(n: int, d: int, q: int, r: int)
    requires d > 0 && 0 <= r < d && n == q * d + r
    ensures n / d == q && n % d == r
  {
    var q', r' := n / d, n % d;
    assert n == q' * d + r';
    if q' > q {
      MulAtLeast(q' - q, d);
      assert false;
    } else if q' < q {
      MulAtLeast(q - q', d);
      assert false;
    }
  }

  /** A quotient stays below `b` when the dividend stays below `b` divisors. */
  lemma DivBelow(a: int, d: int, b: int)
    requires d > 0 && 0 <= a < b * d
    ensures a / d < b
  {
    var q := a / d;
    assert a == q * d + a % d;
    if q >= b {
      assert false;
    }
  }

  lemma MulNonNegative(x: int, y: int)
    requires x >= 0 && y >= 0
    ensures x * y >= 0
  {
  }

  /** One digit `hi` of radix `b` above a digit `lo` of radix `d` stays below `b * d`. */
  lemma MixedRadix(lo: int, hi: int, d: int, b: int)
    requires 0 <= lo < d && 0 <= hi < b
    ensures 0 <= hi * d + lo < b * d
  {
    MulNonNegative(b - 1 - hi, d);
    MulNonNegative(hi, d);
    assert (b - 1 - hi) * d == b * d - d - hi * d;
  }

  /** Upper and lower end of Java's `int`. */
  const IntMin: int := -0x8000_0000
  const IntMax: int := 0x7FFF_FFFF

  /** Two's-complement wrap-around of a mathematical integer into an `int`. */
  function Wrap32(x: int): (r: int)
    ensures IntMin <= r <= IntMax
    ensures (x - r) % 0x1_0000_0000 == 0
    ensures IntMin <= x <= IntMax ==> r == x
  {
    (x - IntMin) % 0x1_0000_0000 + IntMin
  }
}
