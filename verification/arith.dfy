/** Small facts about integer multiplication, division and remainder, kept
    apart so that each nonlinear step is proved once, in a small context. */
module Arith {

  lemma MulNonNeg(a: int, b: int)
    requires a >= 0 && b >= 0
    ensures a * b >= 0
  {
  }

  lemma MulMono(a: int, b: int, n: int)
    requires a <= b && n >= 0
    ensures a * n <= b * n
  {
    MulNonNeg(b - a, n);
    assert b * n - a * n == (b - a) * n;
  }

  lemma MulStrict(a: int, b: int, n: int)
    requires a < b && n > 0
    ensures a * n + n <= b * n
  {
    MulMono(a + 1, b, n);
    assert (a + 1) * n == a * n + n;
  }

  /** Quotient and remainder are determined by `k == q * n + r` with `0 <= r < n`. */
  lemma DivModUnique(k: int, n: int, q: int, r: int)
    requires n > 0 && 0 <= r < n && k == q * n + r
    ensures k / n == q && k % n == r
  {
    var q', r' := k / n, k % n;
    assert k == q' * n + r';
    if q' < q {
      MulStrict(q', q, n);
      assert false;
    } else if q < q' {
      MulStrict(q, q', n);
      assert false;
    }
  }

  lemma DivMod(k: int, n: int)
    requires n > 0
    ensures k == (k / n) * n + k % n && 0 <= k % n < n
  {
  }

  lemma MulDiv(a: int, n: int)
    requires n > 0
    ensures (a * n) / n == a && (a * n) % n == 0
  {
    DivModUnique(a * n, n, a, 0);
  }

  lemma MulSucc(a: int, n: int)
    ensures a * n + n == (a + 1) * n
    ensures (a + 1) * n - n == a * n
  {
  }

  /** Position `k` of an `nr` by `nc` row-major grid lies in row `k / nc`, column `k % nc`. */
  lemma GridIndex(k: int, nr: int, nc: int)
    requires nc > 0 && 0 <= k < nr * nc
    ensures 0 <= k / nc < nr && 0 <= k % nc < nc
    ensures k == (k / nc) * nc + k % nc
  {
    DivMod(k, nc);
    if k / nc >= nr {
      MulMono(nr, k / nc, nc);
    }
  }

  // Real division by a positive number.

  lemma DivMonoReal(a: real, b: real, n: real)
    requires a <= b && n > 0.0
    ensures a / n <= b / n
  {
  }

  lemma MulDivReal(n: real, x: real)
    requires n > 0.0
    ensures (n * x) / n == x
  {
  }

  lemma DivAtMostReal(t: real, n: real, x: real)
    requires n > 0.0 && t <= n * x
    ensures t / n <= x
  {
    DivMonoReal(t, n * x, n);
    MulDivReal(n, x);
  }

  lemma DivNonNegReal(t: real, n: real)
    requires 0.0 <= t && n > 0.0
    ensures 0.0 <= t / n
  {
  }
}
