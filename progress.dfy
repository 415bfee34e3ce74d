/**
 * The percentage shown by the download progress callback, `100 * current //
 * total`, and the limiter wrapped around that callback (`@slow(2)`).
 */
module Progress {
  import opened Wrappers
  import RateLimiter

  /** The progress callback is decorated with an interval of 2 (seconds, as ticks). */
  const ProgressInterval: int := 2

  /** Python's `//`: the quotient rounded toward negative infinity. Dafny's
      `/` rounds so that the remainder is non-negative, which agrees only for
      a positive divisor. */
  function FloorDiv(a: int, b: int): (q: int)
    requires b != 0
    ensures b > 0 ==> q * b <= a < q * b + b
    ensures b < 0 ==> q * b + b < a <= q * b
  {
    if b > 0 then a / b else (-a) / (-b)
  }

  /** The percentage the callback displays for `current` of `total` bytes;
      `None` when `total` is zero: the division raises inside the callback's
      `try`, the bare `except` swallows it and nothing is displayed. */
  function Percentage(current: int, total: int): (p: Option<int>)
    ensures p.None? <==> total == 0
  {
    if total == 0 then None else Some(FloorDiv(100 * current, total))
  }

  /** For a transfer in progress the shown value is a percentage: between 0
      and 100, and exactly the largest p with p * total <= 100 * current. */
  lemma PercentageInRange(current: int, total: int)
    requires 0 <= current <= total && total > 0
    ensures Percentage(current, total).Some?
    ensures var p := Percentage(current, total).value;
            0 <= p <= 100 && p * total <= 100 * current < (p + 1) * total
  {
  }

  /** The shown percentage never goes down as more bytes arrive. */
  lemma PercentageMonotone(current: int, current': int, total: int)
    requires current <= current' && total > 0
    ensures Percentage(current, total).value <= Percentage(current', total).value
  {
    var p := FloorDiv(100 * current, total);
    var p' := FloorDiv(100 * current', total);
    ScaleCancel(p, p', total);
  }

  /** Dividing both sides of an inequality by a positive factor. */
  lemma ScaleCancel(x: int, y: int, t: int)
    requires t > 0 && x * t < (y + 1) * t
    ensures x <= y
  {
  }

  /** The last chunk of a transfer shows 100, the first shows 0. */
  lemma PercentageEnds(total: int)
    requires total > 0
    ensures Percentage(total, total) == Some(100)
    ensures Percentage(0, total) == Some(0)
  {
  }

  /** `progress_bar` as decorated at import time: one limiter with interval
      2 around the percentage, created once and shared by every transfer. */
  method DecorateProgressBar(importedAt: int) returns (bar: RateLimiter.Throttled<(int, int), Option<int>>)
    ensures fresh(bar) && bar.Valid()
    ensures bar.interval == ProgressInterval && bar.lastUpdate == importedAt
    ensures bar.decoratedAt == importedAt && bar.calls == [] && bar.fired == []
    ensures forall current, total :: bar.func((current, total)) == Percentage(current, total)
  {
    bar := new RateLimiter.Throttled(ProgressInterval, (ct: (int, int)) => Percentage(ct.0, ct.1), importedAt);
  }
}
