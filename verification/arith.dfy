/** Facts of real arithmetic that the solver does not find by itself, each
    stated over distinct variables so that callers can instantiate them. */
module Arith {

  lemma MulPos(a: real, b: real, n: real)
    requires a > 0.0 && b > 0.0 && n == a * b
    ensures n > 0.0
  {
  }

  lemma MulNonneg(a: real, b: real, n: real)
    requires a >= 0.0 && b >= 0.0 && n == a * b
    ensures n >= 0.0
  {
  }

  lemma MulZero(a: real, b: real, n: real)
    requires a == 0.0 && n == a * b
    ensures n == 0.0
  {
  }

  lemma MulBelowOne(a: real, b: real, n: real)
    requires 0.0 <= a < 1.0 && 0.0 <= b < 1.0 && n == a * b
    ensures n < 1.0
  {
    assert a * b <= a * 1.0;
  }

  lemma MulAtLeastOne(a: real, b: real, n: real)
    requires a >= 1.0 && b >= 1.0 && n == a * b
    ensures n >= 1.0
  {
    assert a * b >= a * 1.0;
  }

  /** A factor in [0, 1] does not enlarge a nonnegative number. */
  lemma UnitTimesNonneg(t: real, w: real, n: real)
    requires w >= 0.0 && n == t * w
    ensures 0.0 <= t <= 1.0 ==> 0.0 <= n <= w
  {
    if 0.0 <= t <= 1.0 {
      MulNonneg(t, w, n);
      MulNonneg(1.0 - t, w, w - n);
    }
  }

  lemma DivCancel(a: real, w: real, n: real)
    requires w != 0.0 && n == a * w
    ensures n / w == a
  {
  }

  lemma DivTimes(a: real, w: real)
    requires w != 0.0
    ensures a / w * w == a
  {
  }

  /** Two values mirrored about 0, scaled into [0, w], sum to w. */
  lemma Mirrored(a: real, w: real, p: real, q: real)
    requires p == (a * 0.5 + 0.5) * w && q == (-a * 0.5 + 0.5) * w
    ensures p + q == w
  {
  }

  /** A nonnegative square root lies strictly between 0 and 1 exactly when
      its square does. */
  lemma RootGate(s: real, n: real)
    requires s >= 0.0 && s * s == n
    ensures 0.0 < s < 1.0 <==> 0.0 < n < 1.0
  {
    if s >= 1.0 {
      MulAtLeastOne(s, s, n);
    } else if s > 0.0 {
      MulPos(s, s, n);
      MulBelowOne(s, s, n);
    } else {
      MulZero(s, s, n);
    }
  }

  /** Nonnegative numbers with equal squares are equal. */
  lemma RootUnique(s: real, t: real, n: real)
    requires s >= 0.0 && t >= 0.0 && s * s == n && t * t == n
    ensures s == t
  {
    if s < t {
      SquareMono(s, t, n, n);
    } else if t < s {
      SquareMono(t, s, n, n);
    }
  }

  /** Squaring is strictly increasing on the nonnegative numbers. */
  lemma SquareMono(a: real, b: real, p: real, q: real)
    requires 0.0 <= a < b && p == a * a && q == b * b
    ensures p < q
  {
    MulNonneg(a, b - a, a * b - p);
    MulPos(b, b - a, q - a * b);
  }

  lemma SquarePos(a: real, p: real)
    requires a != 0.0 && p == a * a
    ensures p > 0.0
  {
    if a > 0.0 { MulPos(a, a, p); } else { MulPos(-a, -a, p); }
  }

  lemma SquareNonneg(a: real, p: real)
    requires p == a * a
    ensures p >= 0.0
  {
    if a != 0.0 { SquarePos(a, p); }
  }

  /** A sum of two squares vanishes only when both terms do. */
  lemma SumOfSquaresZero(a: real, b: real, n: real)
    requires n == a * a + b * b
    ensures n >= 0.0
    ensures n == 0.0 <==> a == 0.0 && b == 0.0
  {
    var p, q := a * a, b * b;
    SquareNonneg(a, p);
    SquareNonneg(b, q);
    if a != 0.0 { SquarePos(a, p); }
    if b != 0.0 { SquarePos(b, q); }
  }

  lemma CancelFactor(x: real, y: real, k: real, p: real, q: real)
    requires k != 0.0 && p == x * k && q == y * k && p == q
    ensures x == y
  {
  }

  /** Scaling the unit vector (co, si) = (dx, dy) / len by f gives a vector
      along (dx, dy) whose squared length is f * f. */
  lemma ScaledUnit(co: real, si: real, len: real, dx: real, dy: real, f: real)
    requires len > 0.0 && len * len == dx * dx + dy * dy
    requires co * len == dx && si * len == dy
    ensures co * f == f / len * dx && si * f == f / len * dy
    ensures (co * f) * (co * f) + (si * f) * (si * f) == f * f
  {
    assert co == dx / len && si == dy / len;
    var u := co * co + si * si;
    var L := len * len;
    MulPos(len, len, L);
    assert u * L == dx * dx + dy * dy;
    CancelFactor(u, 1.0, L, u * L, 1.0 * L);
    assert (co * f) * (co * f) + (si * f) * (si * f) == u * (f * f);
  }
}
