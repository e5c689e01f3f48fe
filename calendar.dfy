/** Calendar arithmetic the service does on timestamps: collapsing a timestamp
    to the midnight that starts its day, and counting the whole days between
    two timestamps the way `int(a.Sub(b).Hours() / 24)` does. */
module Calendar {
  import opened Models

  /** The midnight that starts the day of `t`. */
  function Normalize(t: Instant): (r: Instant)
    ensures IsNormalized(r)
    ensures r.day == t.day
  {
    Instant(t.day, 0)
  }

  predicate IsNormalized(t: Instant) {
    t.sinceMidnight == 0
  }

  /** Two timestamps normalize to the same value exactly when they fall on the
      same calendar day, and normalizing twice is normalizing once. */
  lemma NormalizeSameDay(a: Instant, b: Instant)
    ensures Normalize(a) == Normalize(b) <==> a.day == b.day
    ensures Normalize(Normalize(a)) == Normalize(a)
    ensures IsNormalized(a) ==> Normalize(a) == a
  {
  }

  /** A timestamp as nanoseconds on one timeline. */
  function Nanos(t: Instant): int {
    t.day * NanosPerDay + t.sinceMidnight
  }

  /** Integer division that truncates toward zero, as a float-to-int
      conversion does. */
  function TruncDiv(a: int, b: nat): (q: int)
    requires b > 0
    ensures a >= 0 ==> q >= 0 && q * b <= a < q * b + b
    ensures a < 0 ==> q <= 0 && q * b - b < a <= q * b
  {
    if a >= 0 then a / b else -((-a) / b)
  }

  /** Whole days from `earlier` to `later`: the elapsed time in days, truncated
      toward zero. */
  function WholeDaysBetween(later: Instant, earlier: Instant): (days: int)
    ensures Nanos(later) >= Nanos(earlier) ==>
      days >= 0 && days * NanosPerDay <= Nanos(later) - Nanos(earlier) < (days + 1) * NanosPerDay
    ensures Nanos(later) < Nanos(earlier) ==>
      days <= 0 && (days - 1) * NanosPerDay < Nanos(later) - Nanos(earlier) <= days * NanosPerDay
  {
    TruncDiv(Nanos(later) - Nanos(earlier), NanosPerDay)
  }

  /** Between two midnights the count is exact. */
  lemma {:induction false} WholeDaysBetweenMidnights(later: Instant, earlier: Instant)
    requires IsNormalized(later) && IsNormalized(earlier)
    ensures WholeDaysBetween(later, earlier) == later.day - earlier.day
  {
    var q := WholeDaysBetween(later, earlier);
    var k := later.day - earlier.day;
    assert Nanos(later) - Nanos(earlier) == k * NanosPerDay;
    if k >= 0 {
      assert q * NanosPerDay <= k * NanosPerDay < q * NanosPerDay + NanosPerDay;
    } else {
      assert q * NanosPerDay - NanosPerDay < k * NanosPerDay <= q * NanosPerDay;
    }
  }

  /** From a midnight back to an arbitrary timestamp: the count is the
      difference of the day numbers, less one when `earlier` is past its own
      midnight and lies on an earlier day. */
  lemma {:induction false} WholeDaysSinceTimestamp(today: Instant, earlier: Instant)
    requires IsNormalized(today)
    ensures earlier.day < today.day && earlier.sinceMidnight > 0 ==>
      WholeDaysBetween(today, earlier) == today.day - earlier.day - 1
    ensures earlier.day >= today.day || earlier.sinceMidnight == 0 ==>
      WholeDaysBetween(today, earlier) == today.day - earlier.day
  {
    var q := WholeDaysBetween(today, earlier);
    var k := today.day - earlier.day;
    var a := Nanos(today) - Nanos(earlier);
    assert a == k * NanosPerDay - earlier.sinceMidnight;
    if a >= 0 {
      assert q * NanosPerDay <= a < q * NanosPerDay + NanosPerDay;
    } else {
      assert q * NanosPerDay - NanosPerDay < a <= q * NanosPerDay;
    }
  }
}
