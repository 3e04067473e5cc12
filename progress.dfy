/** The trip-progress percentage of `/api/trip/:id`: elapsed time over the
    scheduled duration, as a rounded percentage capped at 100. Nothing bounds it
    from below, so a query before departure yields a negative value. */
module TripProgress {
  import opened Tables

  function Min(a: int, b: int): (r: int)
    ensures r <= a && r <= b
    ensures r == a || r == b
  {
    if a <= b then a else b
  }

  /** The ratio n / d rounded to the nearest integer, halves upwards (towards
      positive infinity), as `Math.round` does. */
  function RoundHalfUp(n: int, d: int): (r: int)
    requires d > 0
    ensures d * (2 * r - 1) <= 2 * n < d * (2 * r + 1)
  {
    (2 * n + d) / (2 * d)
  }

  /** A positive factor can be cancelled from a strict inequality. */
  lemma CancelLess(d: int, a: int, b: int)
    requires d > 0
    requires d * a < d * b
    ensures a < b
  {
    assert d * (b - a) > 0;
  }

  /** The rounding is unique: at most one integer lies within a half of n / d. */
  lemma RoundHalfUpUnique(n: int, d: int, k: int)
    requires d > 0
    requires d * (2 * k - 1) <= 2 * n < d * (2 * k + 1)
    ensures k == RoundHalfUp(n, d)
  {
    var r := RoundHalfUp(n, d);
    assert d * (2 * k - 1) < d * (2 * r + 1);
    assert d * (2 * r - 1) < d * (2 * k + 1);
    CancelLess(d, 2 * k - 1, 2 * r + 1);
    CancelLess(d, 2 * r - 1, 2 * k + 1);
  }

  lemma RoundHalfUpMonotone(n1: int, n2: int, d: int)
    requires d > 0
    requires n1 <= n2
    ensures RoundHalfUp(n1, d) <= RoundHalfUp(n2, d)
  {
    var r1, r2 := RoundHalfUp(n1, d), RoundHalfUp(n2, d);
    assert d * (2 * r1 - 1) < d * (2 * r2 + 1);
    CancelLess(d, 2 * r1 - 1, 2 * r2 + 1);
  }

  /** The rounding reaches `m` exactly when n / d is at least m - 1/2. */
  lemma RoundHalfUpReaches(n: int, d: int, m: int)
    requires d > 0
    ensures RoundHalfUp(n, d) >= m <==> d * (2 * m - 1) <= 2 * n
  {
    var k := RoundHalfUp(n, d);
    if d * (2 * m - 1) <= 2 * n {
      CancelLess(d, 2 * m - 1, 2 * k + 1);
    } else {
      CancelLess(d, 2 * k - 1, 2 * m - 1);
    }
  }

  /** The progress, in percent, of a trip of `durationMinutes` minutes that
      departed at `tripStart`, at time `now` (both in milliseconds). */
  function Progress(tripStart: int, durationMinutes: int, now: int): (p: int)
    requires durationMinutes > 0
    ensures p <= 100
    // once the whole duration has elapsed the value is pinned at 100
    ensures now - tripStart >= durationMinutes * MsPerMinute ==> p == 100
    // and it is 100 exactly when the rounded share reaches 100, that is from
    // 99.5 percent of the duration on
    ensures p == 100 <==> 200 * (now - tripStart) >= 199 * (durationMinutes * MsPerMinute)
    // below the cap it is the elapsed share rounded to the nearest percent
    ensures p < 100 ==>
      var total := durationMinutes * MsPerMinute;
      total * (2 * p - 1) <= 200 * (now - tripStart) < total * (2 * p + 1)
    // after departure it is never negative
    ensures now >= tripStart ==> p >= 0
  {
    var total := durationMinutes * MsPerMinute;
    var elapsed := now - tripStart;
    var p := Min(RoundHalfUp(elapsed * 100, total), 100);
    assert elapsed >= total ==> RoundHalfUp(elapsed * 100, total) >= 100 by {
      if elapsed >= total {
        RoundHalfUpMonotone(total * 100, elapsed * 100, total);
        RoundHalfUpUnique(total * 100, total, 100);
      }
    }
    RoundHalfUpReaches(elapsed * 100, total, 100);
    assert elapsed >= 0 ==> RoundHalfUp(elapsed * 100, total) >= 0 by {
      if elapsed >= 0 {
        RoundHalfUpMonotone(0, elapsed * 100, total);
        RoundHalfUpUnique(0, total, 0);
      }
    }
    p
  }

  /** Progress never decreases as time goes on. */
  lemma ProgressMonotone(tripStart: int, durationMinutes: int, now1: int, now2: int)
    requires durationMinutes > 0
    requires now1 <= now2
    ensures Progress(tripStart, durationMinutes, now1) <= Progress(tripStart, durationMinutes, now2)
  {
    RoundHalfUpMonotone((now1 - tripStart) * 100, (now2 - tripStart) * 100, durationMinutes * MsPerMinute);
  }

  /** A 10-minute trip queried 20 minutes after departure is at 100, not 200;
      a 60-minute trip is at 50 after 30 minutes and at -10 six minutes before
      it departs. */
  lemma ProgressExamples(start: int)
    ensures Progress(start, 10, start + 20 * MsPerMinute) == 100
    ensures Progress(start, 60, start + 30 * MsPerMinute) == 50
    ensures Progress(start, 60, start - 6 * MsPerMinute) == -10
  {
    RoundHalfUpUnique(30 * MsPerMinute * 100, 60 * MsPerMinute, 50);
    RoundHalfUpUnique(-6 * MsPerMinute * 100, 60 * MsPerMinute, -10);
  }
}
