/** Small facts about products and quotients, kept apart so that no larger proof has to redo them. */
module Arithmetic {

  lemma MulMono(a: int, b: int, c: int)
    requires a <= b && 0 <= c
    ensures a * c <= b * c
  {
  }

  lemma Distribute(a: int, b: int, c: int)
    ensures (a + b) * c == a * c + b * c
    ensures (a - b) * c == a * c - b * c
  {
  }

  lemma Associate(a: int, b: int, c: int)
    ensures (a * b) * c == a * (b * c)
  {
  }

  lemma DivMod(x: nat, d: nat)
    requires d > 0
    ensures x == x / d * d + x % d && 0 <= x % d < d
    ensures 0 <= x / d
  {
  }

  /** Division with remainder has one answer. */
  lemma DivUnique(x: nat, d: nat, q: nat, r: nat)
    requires r < d && x == q * d + r
    ensures x / d == q && x % d == r
  {
    DivMod(x, d);
    var q' := x / d;
    if q' < q {
      MulMono(q' + 1, q, d);
      Distribute(q', 1, d);
    } else if q < q' {
      MulMono(q + 1, q', d);
      Distribute(q, 1, d);
    }
  }

  /** The quotient is the largest multiplier that still fits. */
  lemma DivGreatest(x: nat, d: nat, q: nat)
    requires d > 0
    ensures q <= x / d <==> q * d <= x
  {
    DivMod(x, d);
    var q' := x / d;
    if q <= q' {
      MulMono(q, q', d);
    } else {
      MulMono(q' + 1, q, d);
      Distribute(q', 1, d);
    }
  }

  lemma DivMono(a: nat, b: nat, d: nat)
    requires a <= b && d > 0
    ensures a / d <= b / d
  {
    DivMod(a, d);
    DivGreatest(b, d, a / d);
  }

  lemma DivAntitone(x: nat, c: nat, d: nat)
    requires 0 < c <= d
    ensures x / d <= x / c
  {
    DivMod(x, d);
    MulMono(c, d, x / d);
    DivGreatest(x, c, x / d);
  }

  lemma ScaleLess(x: nat, q: nat, p: nat)
    requires p > 0
    ensures x < q <==> x * p < q * p
  {
    if x < q {
      MulMono(x + 1, q, p);
      Distribute(x, 1, p);
    } else {
      MulMono(q, x, p);
    }
  }

  /** Just below q, scaling by more than p already reaches q * p. */
  lemma ScaleOvershoots(q: nat, p: nat, d: nat)
    requires 0 < p < q && p < d
    ensures q * p <= (q - 1) * d
  {
    MulMono(p + 1, d, q - 1);
    Distribute(p, 1, q - 1);
    Distribute(q, -1, p);
  }
}
