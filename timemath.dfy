/** Integer time arithmetic as the task tracker performs it. Instants are integer
    milliseconds (the value of Date.prototype.getTime). The date-fns difference functions
    truncate toward zero, and JavaScript's `%` takes the sign of its dividend; Dafny's `/` and
    `%` are Euclidean, so both are written out here. */
module TimeMath {

  /** An instant, in milliseconds since the epoch. */
  type Time = int

  const MsPerMinute: int := 60 * 1000
  const MsPerHour: int := 60 * MsPerMinute
  /** A day is taken to be exactly 24 hours (see README "Left out"). */
  const MsPerDay: int := 24 * MsPerHour
  const MsPerWeek: int := 7 * MsPerDay

  /** date-fns isAfter(a, b): a is strictly later than b, so an instant is never after
      itself and of two distinct instants exactly one is after the other. */
  function IsAfter(a: Time, b: Time): (r: bool)
    ensures r ==> a != b
    ensures a != b ==> r != (b > a)
  {
    a > b
  }

  /** Math.trunc(a / b) for a positive divisor: the quotient rounded toward zero. */
  function TruncDiv(a: int, b: int): (q: int)
    requires b > 0
    ensures a >= 0 ==> 0 <= q && q * b <= a < q * b + b
    ensures a < 0 ==> q <= 0 && q * b - b < a <= q * b
  {
    if a >= 0 then
      DivBounds(a, b);
      a / b
    else
      DivBounds(-a, b);
      -((-a) / b)
  }

  /** Euclidean division of a non-negative dividend brackets it between consecutive
      multiples of the divisor. */
  lemma DivBounds(a: int, b: int)
    requires a >= 0 && b > 0
    ensures 0 <= a / b && (a / b) * b <= a < (a / b) * b + b
    ensures (-(a / b)) * b == -((a / b) * b)
  {
    var q, r := a / b, a % b;
    assert a == b * q + r;
    assert b * q == q * b;
  }

  /** JavaScript's `a % b` for a positive divisor: the remainder of truncated division,
      which has the sign of the dividend. */
  function TruncRem(a: int, b: int): (r: int)
    requires b > 0
    ensures r == a - TruncDiv(a, b) * b
    ensures a >= 0 ==> 0 <= r < b
    ensures a < 0 ==> -b < r <= 0
  {
    if a >= 0 then a % b else -((-a) % b)
  }

  /** date-fns differenceInMinutes(later, earlier): whole minutes, truncated toward zero. */
  function DifferenceInMinutes(later: Time, earlier: Time): (m: int)
    ensures later >= earlier ==> 0 <= m && m * MsPerMinute <= later - earlier < m * MsPerMinute + MsPerMinute
    ensures later < earlier ==> m <= 0 && m * MsPerMinute - MsPerMinute < later - earlier <= m * MsPerMinute
  {
    TruncDiv(later - earlier, MsPerMinute)
  }

  /** date-fns differenceInHours(later, earlier): whole hours, truncated toward zero. */
  function DifferenceInHours(later: Time, earlier: Time): (h: int)
    ensures later >= earlier ==> 0 <= h && h * MsPerHour <= later - earlier < h * MsPerHour + MsPerHour
    ensures later < earlier ==> h <= 0 && h * MsPerHour - MsPerHour < later - earlier <= h * MsPerHour
  {
    TruncDiv(later - earlier, MsPerHour)
  }

  /** date-fns differenceInDays(later, earlier), taking every day to be 24 hours long. */
  function DifferenceInDays(later: Time, earlier: Time): (d: int)
    ensures later >= earlier ==> 0 <= d && d * MsPerDay <= later - earlier < d * MsPerDay + MsPerDay
    ensures later < earlier ==> d <= 0 && d * MsPerDay - MsPerDay < later - earlier <= d * MsPerDay
  {
    TruncDiv(later - earlier, MsPerDay)
  }

  /** Whole hours are whole minutes divided by 60, and whole days are whole hours divided
      by 24: truncation in stages agrees with truncation in one step. */
  lemma NestedUnits(d: int)
    requires d >= 0
    ensures d / MsPerHour == (d / MsPerMinute) / 60
    ensures d / MsPerDay == (d / MsPerHour) / 24
  {
    var m := d / MsPerMinute;
    var h := m / 60;
    assert d == MsPerMinute * m + d % MsPerMinute;
    assert m == 60 * h + m % 60;
    assert d == MsPerHour * h + (MsPerMinute * (m % 60) + d % MsPerMinute);
    DivisionUnique(d, MsPerHour, h, MsPerMinute * (m % 60) + d % MsPerMinute);
    var dd := h / 24;
    assert h == 24 * dd + h % 24;
    assert d == MsPerDay * dd + (MsPerHour * (h % 24) + MsPerMinute * (m % 60) + d % MsPerMinute);
    DivisionUnique(d, MsPerDay, dd, MsPerHour * (h % 24) + MsPerMinute * (m % 60) + d % MsPerMinute);
  }

  /** Quotient and remainder are unique: a == b * q + r with 0 <= r < b fixes q. */
  lemma DivisionUnique(a: int, b: int, q: int, r: int)
    requires b > 0 && 0 <= r < b && a == b * q + r
    ensures a / b == q
  {
    var q' := a / b;
    if q' < q {
      MultiplyMonotone(b, q' + 1, q);
    } else if q' > q {
      MultiplyMonotone(b, q + 1, q');
    }
  }

  lemma MultiplyMonotone(b: int, x: int, y: int)
    requires b > 0 && x <= y
    ensures b * x <= b * y
    ensures b * (x + 1) == b * x + b
  {
  }

  /** Truncated division by a positive divisor never decreases as its dividend grows. */
  lemma TruncDivMonotone(a1: int, a2: int, b: int)
    requires b > 0 && a1 <= a2
    ensures TruncDiv(a1, b) <= TruncDiv(a2, b)
  {
    var q1, q2 := TruncDiv(a1, b), TruncDiv(a2, b);
    if q1 > q2 {
      MultiplyMonotone(b, q2 + 1, q1);
    }
  }
}
