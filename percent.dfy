/**
 * The two counter-based progress formulas of `processExcelWithImages`:
 * `floor(k / n * 50) + 20` while downloading and `floor(k / t * 15) + 75`
 * while embedding, with exact rational division.
 */
module Percent {
  /** Progress after the k-th of n downloads has finished. */
  function DownloadPercent(k: nat, n: nat): int
    requires n > 0
  {
    50 * k / n + 20
  }

  /** Progress after the k-th of t embeddings has been processed. */
  function EmbedPercent(k: nat, t: nat): int
    requires t > 0
  {
    15 * k / t + 75
  }

  lemma {:induction false} LessMul(x: nat, y: nat, n: nat)
    requires n > 0 && x * n < y * n
    ensures x < y
  {
    if y <= x {
      MulMonotone(y, x, n);
    }
  }

  lemma {:induction false} DivMonotone(a: nat, b: nat, n: nat)
    requires n > 0 && a <= b
    ensures a / n <= b / n
  {
    var qa, qb := a / n, b / n;
    assert qa * n <= a;
    assert b < (qb + 1) * n;
    LessMul(qa, qb + 1, n);
  }

  lemma {:induction false} MulMonotone(x: nat, y: nat, n: nat)
    requires x <= y
    ensures x * n <= y * n
  {
  }

  lemma {:induction false} MulDivCancel(c: nat, n: nat)
    requires n > 0
    ensures c * n / n == c
  {
    var q := c * n / n;
    assert q * n <= c * n;
    assert c * n < (q + 1) * n;
    LessMul(q, c + 1, n);
    LessMul(c, q + 1, n);
  }

  lemma {:induction false} ScaledRatio(c: nat, k: nat, n: nat)
    requires 0 < n && k <= n
    ensures 0 <= c * k / n <= c
    ensures k == n ==> c * k / n == c
  {
    MulMonotone(k, n, c);
    assert c * k <= c * n;
    DivMonotone(c * k, c * n, n);
    MulDivCancel(c, n);
  }

  /** Download progress stays in [20, 70] and reaches 70 with the last download. */
  lemma DownloadPercentBounds(k: nat, n: nat)
    requires 0 < n && k <= n
    ensures 20 <= DownloadPercent(k, n) <= 70
    ensures k == n ==> DownloadPercent(k, n) == 70
  {
    ScaledRatio(50, k, n);
  }

  /** Download progress never decreases as the counter grows. */
  lemma DownloadPercentMonotone(j: nat, k: nat, n: nat)
    requires 0 < n && j <= k
    ensures DownloadPercent(j, n) <= DownloadPercent(k, n)
  {
    MulMonotone(j, k, 50);
    assert j * 50 == 50 * j && k * 50 == 50 * k;
    DivMonotone(50 * j, 50 * k, n);
  }

  /** Embed progress stays in [75, 90] and reaches 90 with the last reference. */
  lemma EmbedPercentBounds(k: nat, t: nat)
    requires 0 < t && k <= t
    ensures 75 <= EmbedPercent(k, t) <= 90
    ensures k == t ==> EmbedPercent(k, t) == 90
  {
    ScaledRatio(15, k, t);
  }

  /** Embed progress never decreases as the counter grows. */
  lemma EmbedPercentMonotone(j: nat, k: nat, t: nat)
    requires 0 < t && j <= k
    ensures EmbedPercent(j, t) <= EmbedPercent(k, t)
  {
    MulMonotone(j, k, 15);
    assert j * 15 == 15 * j && k * 15 == 15 * k;
    DivMonotone(15 * j, 15 * k, t);
  }
}
