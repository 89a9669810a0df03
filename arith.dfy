/** Facts of integer arithmetic, kept apart so that each is proved in a small context. */
module Arith {
  lemma MulMono(a: int, b: int, n: int)
    requires a <= b && 0 <= n
    ensures a * n <= b * n
  {
  }

  lemma Distrib(a: int, b: int, c: int)
    ensures a * (b + c) == a * b + a * c
  {
  }

  lemma FloorBounds(s: nat, n: nat)
    requires n > 0
    ensures s / n * n <= s < (s / n + 1) * n
  {
  }

  /** The floor of `s / n` is the one `v` with `v * n <= s < (v + 1) * n`. */
  lemma FloorUnique(s: nat, n: nat, v: int)
    requires n > 0 && v * n <= s < (v + 1) * n
    ensures s / n == v
  {
    var q := s / n;
    FloorBounds(s, n);
    if q < v {
      MulMono(q + 1, v, n);
    } else if q > v {
      MulMono(v + 1, q, n);
    }
  }

  /** A quotient is zero exactly when the dividend is below the divisor. */
  lemma DivIsZero(s: nat, n: nat)
    requires n > 0
    ensures s / n == 0 <==> s < n
  {
    FloorBounds(s, n);
    if s < n {
      FloorUnique(s, n, 0);
    }
  }

  /** A larger divisor of `w > 0` leaves a smaller quotient. */
  lemma QuotientDecreases(w: nat, x: nat, x': nat)
    requires w > 0 && 0 < x < x' && w % x == 0 && w % x' == 0
    ensures w / x > w / x'
  {
    var q, q' := w / x, w / x';
    assert q * x == w && q' * x' == w;
    if q <= q' {
      MulMono(x + 1, x', q);
      MulMono(q, q', x');
    }
  }
}
