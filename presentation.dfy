/** The values the task list renders for each pending task, all pure functions of the task's
    due instant and the current instant: the countdown text, the 0-100 progress value measured
    against a fixed seven-day window ending at the due instant, and the colour band chosen from
    that progress. */
module Presentation {
  import opened TimeMath
  import opened JsText

  /** The length of the nominal window, in minutes (totalDuration). */
  const MinutesPerWeek: int := 7 * 24 * 60

  // ---------------------------------------------------------------------------
  // getCountdown

  /** The three numbers getCountdown computes before choosing a label. */
  datatype Parts = Parts(days: int, hours: int, minutes: int)

  /** Whole days, whole hours modulo 24 and whole minutes modulo 60 until the due instant.
      When the due instant is not past they are the mixed-radix digits of the whole minutes
      remaining. */
  function RemainingParts(due: Time, now: Time): (p: Parts)
    ensures now <= due ==> 0 <= p.days && 0 <= p.hours < 24 && 0 <= p.minutes < 60
    ensures now <= due ==> p.days * 1440 + p.hours * 60 + p.minutes == DifferenceInMinutes(due, now)
  {
    var p := Parts(DifferenceInDays(due, now),
                   TruncRem(DifferenceInHours(due, now), 24),
                   TruncRem(DifferenceInMinutes(due, now), 60));
    if now <= due then NestedUnits(due - now); p else p
  }

  /** The four labels getCountdown can produce. */
  datatype Countdown =
    | Overdue
    | DaysHours(days: int, hours: int)
    | HoursMinutes(hours: int, minutes: int)
    | MinutesLeft(minutes: int)

  /** getCountdown: "Expired" once the due instant is strictly past; otherwise days and hours
      when at least a day remains, hours and minutes when at least an hour remains, and
      minutes alone (possibly zero) when less than an hour remains. */
  function GetCountdown(due: Time, now: Time): (c: Countdown)
    ensures c.Overdue? <==> now > due
    ensures c.DaysHours? <==> now <= due && due - now >= MsPerDay
    ensures c.HoursMinutes? <==> now <= due && MsPerHour <= due - now < MsPerDay
    ensures c.MinutesLeft? <==> now <= due && due - now < MsPerHour
    ensures c.MinutesLeft? ==> c.minutes == (due - now) / MsPerMinute
    ensures c.HoursMinutes? ==> 0 < c.hours < 24 && 0 <= c.minutes < 60
    ensures c.DaysHours? ==> 0 < c.days && 0 <= c.hours < 24
  {
    if IsAfter(now, due) then Overdue
    else
      var p := RemainingParts(due, now);
      NestedUnits(due - now);
      if p.days > 0 then DaysHours(p.days, p.hours)
      else if p.hours > 0 then HoursMinutes(p.hours, p.minutes)
      else MinutesLeft(p.minutes)
  }

  /** The label chosen carries the parts computed for it. */
  lemma CountdownCarriesParts(due: Time, now: Time)
    requires now <= due
    ensures var c, p := GetCountdown(due, now), RemainingParts(due, now);
      && (c.DaysHours? ==> c.days == p.days && c.hours == p.hours)
      && (c.HoursMinutes? ==> p.days == 0 && c.hours == p.hours && c.minutes == p.minutes)
      && (c.MinutesLeft? ==> p.days == 0 && p.hours == 0 && c.minutes == p.minutes)
  {
    NestedUnits(due - now);
  }

  /** A task due exactly now shows "0m remaining". */
  lemma CountdownAtDue(t: Time)
    ensures GetCountdown(t, t) == MinutesLeft(0)
    ensures CountdownText(GetCountdown(t, t)) == "0m remaining"
  {
    assert NatToString(0) == "0";
  }

  /** The text of a countdown label, as the template literals build it. */
  function CountdownText(c: Countdown): (s: string)
    ensures s == "Expired" <==> c.Overdue?
    ensures !c.Overdue? ==> |s| > 10 && s[|s| - 10..] == " remaining"
  {
    match c
    case Overdue => "Expired"
    case DaysHours(d, h) => Remaining(IntToString(d) + "d " + IntToString(h) + "h")
    case HoursMinutes(h, m) => Remaining(IntToString(h) + "h " + IntToString(m) + "m")
    case MinutesLeft(m) => Remaining(IntToString(m) + "m")
  }

  function Remaining(amount: string): (s: string)
    requires |amount| > 0
    ensures |s| > 10 && s[|s| - 10..] == " remaining"
  {
    amount + " remaining"
  }

  // ---------------------------------------------------------------------------
  // getTimeProgress

  function Min(a: real, b: real): real {
    if a <= b then a else b
  }

  function Max(a: real, b: real): real {
    if a >= b then a else b
  }

  /** Whole minutes from the implicit creation instant (seven days before the due instant)
      to now; negative before that instant. */
  function ElapsedMinutes(due: Time, now: Time): (e: int)
    ensures now >= due - MsPerWeek ==> 0 <= e
    ensures now < due - MsPerWeek + MsPerMinute ==> e <= 0
    ensures now <= due ==> e <= MinutesPerWeek
  {
    var e := DifferenceInMinutes(now, due - MsPerWeek);
    if now <= due then TruncDivMonotone(now - (due - MsPerWeek), MsPerWeek, MsPerMinute); e else e
  }

  /** getTimeProgress: 100 once the due instant is strictly past; otherwise the elapsed share
      of the seven-day window, as a percentage clamped to [0, 100]. */
  function GetTimeProgress(due: Time, now: Time): (p: real)
    ensures 0.0 <= p <= 100.0
    ensures now > due ==> p == 100.0
  {
    if IsAfter(now, due) then 100.0
    else
      var elapsed := ElapsedMinutes(due, now);
      Min(100.0, Max(0.0, (elapsed as real / MinutesPerWeek as real) * 100.0))
  }

  /** Within the window the clamp never bites: progress is exactly the elapsed whole minutes
      as a share of 10080. Before the window (less than a whole minute into it, or earlier)
      it is 0, and at the due instant it is 100. */
  lemma ProgressInWindow(due: Time, now: Time)
    ensures due - MsPerWeek <= now <= due ==>
      GetTimeProgress(due, now) == ElapsedMinutes(due, now) as real * 100.0 / MinutesPerWeek as real
    ensures now < due - MsPerWeek + MsPerMinute ==> GetTimeProgress(due, now) == 0.0
    ensures GetTimeProgress(due, due) == 100.0
  {
    if due - MsPerWeek <= now <= due {
      TruncDivMonotone(now - (due - MsPerWeek), MsPerWeek, MsPerMinute);
    }
  }

  /** Progress never decreases as time passes. */
  lemma ProgressMonotone(due: Time, now1: Time, now2: Time)
    requires now1 <= now2
    ensures GetTimeProgress(due, now1) <= GetTimeProgress(due, now2)
  {
    if now2 <= due {
      TruncDivMonotone(now1 - (due - MsPerWeek), now2 - (due - MsPerWeek), MsPerMinute);
    }
  }

  // ---------------------------------------------------------------------------
  // The colour banding of the progress value

  datatype Band = Safe | Warning | Critical

  /** Critical above 75, warning above 50 up to 75, safe at 50 or below. */
  function ProgressBand(p: real): (b: Band)
    ensures b == Critical <==> p > 75.0
    ensures b == Warning <==> 50.0 < p <= 75.0
    ensures b == Safe <==> p <= 50.0
  {
    if p > 75.0 then Critical else if p > 50.0 then Warning else Safe
  }

  function Severity(b: Band): nat {
    match b
    case Safe => 0
    case Warning => 1
    case Critical => 2
  }

  /** A task's band only ever escalates as time passes, and an overdue or due task is critical. */
  lemma BandEscalates(due: Time, now1: Time, now2: Time)
    requires now1 <= now2
    ensures Severity(ProgressBand(GetTimeProgress(due, now1))) <= Severity(ProgressBand(GetTimeProgress(due, now2)))
    ensures now2 >= due ==> ProgressBand(GetTimeProgress(due, now2)) == Critical
  {
    ProgressMonotone(due, now1, now2);
    if now2 == due {
      ProgressInWindow(due, now2);
    }
  }
}
