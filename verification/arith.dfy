/** Facts about multiplication and Euclidean division by a positive divisor,
    proved from the defining equation `a == (a / d) * d + a % d`. */
module Arith {

  lemma MulSucc(k: nat, d: nat)
    ensures (k + 1) * d == k * d + d
  {}

  lemma MulNonneg(a: nat, b: nat)
    ensures a * b >= 0
  {}

  /** Multiples of `d` are at least `d` apart. */
  lemma {:induction false} MulGap(x: nat, y: nat, d: nat)
    requires x < y
    ensures x * d + d <= y * d
    decreases y - x
  {
    MulSucc(x, d);
    if x + 1 < y {
      MulGap(x + 1, y, d);
    }
  }

  /** Quotient and remainder are the only pair that rebuilds `a`. */
  lemma DivModUnique(a: int, d: int, q: nat, r: int)
    requires d > 0 && 0 <= r < d && a == q * d + r
    ensures a / d == q && a % d == r
  {
    var q', r' := a / d, a % d;
    assert a == q' * d + r';
    assert q' >= 0;
    if q < q' {
      MulGap(q, q', d);
    } else if q' < q {
      MulGap(q', q, d);
    }
  }

  /** Reducing the first summand first does not change the remainder. */
  lemma ModAddLeft(a: nat, b: nat, w: nat)
    requires w > 0
    ensures (a % w + b) % w == (a + b) % w
  {
    var q, r := a / w, a % w;
    var q2, r2 := (r + b) / w, (r + b) % w;
    assert a == q * w + r;
    assert r + b == q2 * w + r2;
    assert (q + q2) * w == q * w + q2 * w;
    DivModUnique(a + b, w, q + q2, r2);
  }

  /** Stepping `run` further from the `n`-th multiple of `run`, wrapped at
      `w`, reaches the next multiple, wrapped at `w`. */
  lemma ModNextMultiple(c: nat, n: nat, m: nat, run: nat, w: nat)
    requires w > 0 && m == n + 1 && c == (n * run) % w
    ensures (c + run) % w == (m * run) % w
  {
    MulNonneg(n, run);
    ModAddLeft(n * run, run, w);
    MulSucc(n, run);
  }
}
