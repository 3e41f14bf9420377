/** One-step facts about integer products, so that larger proofs stay linear. */
module Products {

  lemma MulSub(x: int, y: int, t: int)
    ensures (x - y) * t == x * t - y * t
  {
  }

  lemma MulAdd(x: int, y: int, t: int)
    ensures (x + y) * t == x * t + y * t
  {
  }

  lemma MulGroup(x: int, y: int, t: int)
    ensures (x * y) * t == x * (y * t)
  {
  }

  /** (k x) t with k x named p. */
  lemma MulNamed(x: int, k: int, t: int, p: int)
    requires p == k * x
    ensures x * (k * t) == p * t
  {
  }

  lemma MulRotate(x: int, m: int, b: int)
    ensures x * (m * b) == m * (x * b)
  {
  }

  lemma MulLe(x: int, y: int, t: int)
    requires x <= y && t >= 0
    ensures x * t <= y * t
  {
  }

  lemma MulLt(x: int, y: int, t: int)
    requires x < y && t > 0
    ensures x * t < y * t
  {
  }

  lemma PositiveFactor(m: int, d: int)
    requires m > 0 && d * m > 0
    ensures d > 0
  {
  }

  lemma CancelLt(x: int, y: int, t: int)
    requires t > 0 && x * t < y * t
    ensures x < y
  {
    MulSub(y, x, t);
    PositiveFactor(t, y - x);
  }

  lemma CancelLe(x: int, y: int, t: int)
    requires t > 0 && x * t <= y * t
    ensures x <= y
  {
    MulAdd(y, 1, t);
    CancelLt(x, y + 1, t);
  }

  lemma CancelEq(x: int, y: int, t: int)
    requires t > 0 && x * t == y * t
    ensures x == y
  {
    CancelLe(x, y, t);
    CancelLe(y, x, t);
  }

  lemma DivisionBounds(x: int, m: int)
    requires m > 0
    ensures (x / m) * m <= x < (x / m) * m + m
  {
  }

  lemma QuotientIs(x: int, m: int, q: int)
    requires m > 0 && q * m <= x < q * m + m
    ensures x / m == q
  {
    DivisionBounds(x, m);
    MulAdd(q, 1, m);
    MulAdd(x / m, 1, m);
    CancelLt(x / m, q + 1, m);
    CancelLt(q, x / m + 1, m);
  }

  lemma MultipleHasNoRemainder(r: int, k: int)
    requires r > 0
    ensures (k * r) % r == 0
  {
    QuotientIs(k * r, r, k);
  }

  lemma NoRemainderIsMultiple(x: int, m: int)
    requires m > 0 && x % m == 0
    ensures x == (x / m) * m
  {
  }
}
