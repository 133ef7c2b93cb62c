/** Numbers as the editor's pixel code sees them. JavaScript numbers are taken
    as exact rationals (`real`); a canvas stores each channel in a clamped
    byte array, which rounds to the nearest integer (halves to even) and
    clamps to 0..255 on every write. */
module ByteMath {

  /** One element of a canvas `ImageData` buffer. */
  type Byte = b: int | 0 <= b < 256

  function Abs(x: int): (r: nat)
    ensures r == x || r == -x
  {
    if x < 0 then -x else x
  }

  lemma MulMonotone(a: int, b: int, c: nat)
    requires a <= b
    ensures a * c <= b * c
  {
  }

  function MaxReal(a: real, b: real): (m: real)
    ensures m >= a && m >= b && (m == a || m == b)
  {
    if a >= b then a else b
  }

  function MinReal(a: real, b: real): (m: real)
    ensures m <= a && m <= b && (m == a || m == b)
  {
    if a <= b then a else b
  }

  /** `Math.round`: the nearest integer, a half rounded up. */
  function Round(x: real): (r: int)
    ensures x - 0.5 < r as real <= x + 0.5
  {
    (x + 0.5).Floor
  }

  /** What a write of `x` into a clamped byte array stores: 0 below the range,
      255 above it, otherwise the nearest integer with ties going to the even one. */
  function ClampByte(x: real): (r: Byte)
    ensures x <= 0.0 ==> r == 0
    ensures x >= 255.0 ==> r == 255
    ensures 0.0 <= x <= 255.0 ==> x - 0.5 <= r as real <= x + 0.5
    ensures 0.0 <= x <= 255.0 && (r as real == x + 0.5 || r as real == x - 0.5) ==> r % 2 == 0
    ensures 0.0 <= x <= 255.0 && x == x.Floor as real ==> r == x.Floor
  {
    if x <= 0.0 then 0
    else if x >= 255.0 then 255
    else
      var f := x.Floor;
      if f as real + 0.5 < x then f + 1
      else if x < f as real + 0.5 then f
      else if f % 2 == 0 then f
      else f + 1
  }

  /** Quotient and remainder are determined by any decomposition p == y * w + x with 0 <= x < w. */
  lemma DivModUnique(p: int, w: int, x: int, y: int)
    requires 0 <= x < w && p == y * w + x
    ensures p / w == y && p % w == x
  {
    var q, r := p / w, p % w;
    assert p == q * w + r && 0 <= r < w;
    if q > y {
      MulMonotone(y + 1, q, w);
    } else if q < y {
      MulMonotone(q + 1, y, w);
    }
  }

  /** n / d < c whenever n < c * d. */
  lemma QuotientBelow(n: int, d: int, c: int)
    requires d > 0 && n < c * d
    ensures n / d < c
  {
    if n / d >= c {
      MulMonotone(c, n / d, d);
    }
  }

  /** Integer division by a positive divisor keeps the order of dividends. */
  lemma DivMonotone(a: int, b: int, d: int)
    requires a <= b && d > 0
    ensures a / d <= b / d
  {
    assert a < (b / d + 1) * d;
    QuotientBelow(a, d, b / d + 1);
  }

  /** `Math.round(n / d)` for a positive divisor, computed on integers: the result
      is within half of n / d, a half going up. */
  function RoundQuotient(n: int, d: int): (r: int)
    requires d > 0
    ensures 2 * n - d < 2 * d * r <= 2 * n + d
  {
    (2 * n + d) / (2 * d)
  }

  /** Rounding a quotient keeps the order of the dividends. */
  lemma RoundQuotientMonotone(m: int, n: int, d: int)
    requires m <= n && d > 0
    ensures RoundQuotient(m, d) <= RoundQuotient(n, d)
  {
    DivMonotone(2 * m + d, 2 * n + d, 2 * d);
  }

  /** A quotient that is exact needs no rounding. */
  lemma RoundQuotientExact(q: int, d: int)
    requires d > 0
    ensures RoundQuotient(q * d, d) == q
  {
    var r := RoundQuotient(q * d, d);
    assert 2 * d * (q - 1) < 2 * d * r <= 2 * d * q + d;
    if r < q {
      MulMonotone(r, q - 1, 2 * d);
    } else if r > q {
      MulMonotone(q + 1, r, 2 * d);
    }
  }

  /** The byte a clamped array stores for n / d, computed on integers: 0 at or below 0,
      255 at or above 255, otherwise within half of n / d, ties going to the even byte. */
  function StoreQuotient(n: int, d: int): (r: Byte)
    requires d > 0
    ensures n <= 0 ==> r == 0
    ensures n >= 255 * d ==> r == 255
    ensures 0 <= n <= 255 * d ==> 2 * n - d <= 2 * d * r <= 2 * n + d
    ensures 0 <= n <= 255 * d && (2 * d * r == 2 * n - d || 2 * d * r == 2 * n + d) ==> r % 2 == 0
  {
    if n <= 0 then 0
    else if n >= 255 * d then 255
    else
      NearestQuotientBounds(n, d);
      NearestQuotient(n, d)
  }

  /** Within the byte range, the stored quotient times the divisor is within half a
      divisor of the dividend. */
  lemma StoreQuotientNear(n: int, d: int)
    requires 0 <= n <= 255 * d && d > 0
    ensures 2 * n - d <= 2 * (StoreQuotient(n, d) * d) <= 2 * n + d
  {
    var r := StoreQuotient(n, d);
    assert 2 * n - d <= 2 * d * r <= 2 * n + d;
    assert 2 * d * r == 2 * (r * d);
  }

  /** The rounding step of `StoreQuotient`: the nearest integer to n / d, a tie going to
      the even neighbour. */
  function NearestQuotient(n: int, d: int): int
    requires d > 0
  {
    var q, m := n / d, n % d;
    if 2 * m < d || (2 * m == d && q % 2 == 0) then q else q + 1
  }

  /** For a dividend strictly inside the byte range the rounded quotient is a byte within
      half of n / d, and a tie lands on an even value. */
  lemma NearestQuotientBounds(n: int, d: int)
    requires 0 < n < 255 * d
    ensures var r := NearestQuotient(n, d);
            && 0 <= r <= 255
            && 2 * n - d <= 2 * d * r <= 2 * n + d
            && ((2 * d * r == 2 * n - d || 2 * d * r == 2 * n + d) ==> r % 2 == 0)
  {
    var q, m := n / d, n % d;
    DivSplit(n, d);
    QuotientBelow(n, d, 255);
    var r := NearestQuotient(n, d);
    if 2 * m < d || (2 * m == d && q % 2 == 0) {
      assert r == q;
      assert 2 * d * r == 2 * n - 2 * m;
    } else {
      assert r == q + 1;
      assert 2 * d * r == 2 * n - 2 * m + 2 * d;
    }
  }

  /** Quotient and remainder, with the doubled products the rounding compares. */
  lemma DivSplit(n: int, d: int)
    requires d > 0
    ensures 0 <= n % d < d
    ensures 2 * d * (n / d) == 2 * n - 2 * (n % d)
    ensures 2 * d * (n / d + 1) == 2 * n - 2 * (n % d) + 2 * d
  {
    assert n == d * (n / d) + n % d;
  }

  /** Dividing by a positive real keeps order and equality. */
  lemma DivideOrder(a: real, b: real, dd: real)
    requires dd > 0.0
    ensures a < b <==> a / dd < b / dd
    ensures a == b <==> a / dd == b / dd
  {
  }

  /** a / b is the c with c * b == a. */
  lemma QuotientOf(a: real, b: real, c: real)
    requires b != 0.0 && c * b == a
    ensures a / b == c
  {
  }

  /** n / d moved by a half, written over the common denominator 2d. */
  lemma HalfShift(n: real, d: real)
    requires d > 0.0
    ensures (2.0 * n + d) / (2.0 * d) == n / d + 0.5
    ensures (2.0 * n - d) / (2.0 * d) == n / d - 0.5
  {
    var q := n / d;
    assert q * d == n;
    QuotientOf(2.0 * n + d, 2.0 * d, q + 0.5);
    QuotientOf(2.0 * n - d, 2.0 * d, q - 0.5);
  }

  /** The integer bounds kept by `RoundQuotient` and `StoreQuotient`, read over the reals. */
  lemma HalfBounds(n: int, d: int, r: int)
    requires d > 0
    ensures var x := n as real / d as real;
            && (2 * n - d < 2 * d * r <==> x - 0.5 < r as real)
            && (2 * d * r < 2 * n + d <==> r as real < x + 0.5)
            && (2 * d * r == 2 * n + d <==> r as real == x + 0.5)
            && (2 * d * r == 2 * n - d <==> r as real == x - 0.5)
  {
    var N, D, R := n as real, d as real, r as real;
    HalfShift(N, D);
    QuotientOf(2.0 * D * R, 2.0 * D, R);
    DivideOrder(2.0 * N - D, 2.0 * D * R, 2.0 * D);
    DivideOrder(2.0 * D * R, 2.0 * N + D, 2.0 * D);
    CastMul(d, r);
  }

  /** Converting a product to a real is the product of the conversions. */
  lemma CastMul(a: int, b: int)
    ensures (a * b) as real == a as real * b as real
  {
  }

  /** The integer quotient is `Math.round` of the exact quotient. */
  lemma RoundQuotientIsRound(n: int, d: int)
    requires d > 0
    ensures RoundQuotient(n, d) == Round(n as real / d as real)
  {
    var a, b := RoundQuotient(n, d), Round(n as real / d as real);
    HalfBounds(n, d, a);
    HalfBounds(n, d, b);
  }

  /** The sign tests of `StoreQuotient` agree with those of the exact quotient. */
  lemma QuotientRange(n: int, d: int)
    requires d > 0
    ensures n <= 0 <==> n as real / d as real <= 0.0
    ensures n >= 255 * d <==> n as real / d as real >= 255.0
  {
    var N, D := n as real, d as real;
    QuotientOf(0.0, D, 0.0);
    QuotientOf(255.0 * D, D, 255.0);
    DivideOrder(0.0, N, D);
    DivideOrder(N, 255.0 * D, D);
  }

  /** Two integers within half of x, each even when it sits exactly half away, are equal. */
  lemma NearestUnique(x: real, a: int, b: int)
    requires x - 0.5 <= a as real <= x + 0.5 && x - 0.5 <= b as real <= x + 0.5
    requires a as real == x - 0.5 || a as real == x + 0.5 ==> a % 2 == 0
    requires b as real == x - 0.5 || b as real == x + 0.5 ==> b % 2 == 0
    ensures a == b
  {
  }

  /** The integer store is what a clamped byte array stores for the exact quotient. */
  lemma StoreQuotientIsClampByte(n: int, d: int)
    requires d > 0
    ensures StoreQuotient(n, d) == ClampByte(n as real / d as real)
  {
    var x := n as real / d as real;
    QuotientRange(n, d);
    if 0 < n < 255 * d {
      var a := StoreQuotient(n, d);
      HalfBounds(n, d, a);
      NearestUnique(x, a, ClampByte(x));
    }
  }
}
