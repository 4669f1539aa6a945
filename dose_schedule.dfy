/** The pure half of the background reminder worker: the next-dose calculator, the
    "taken today" check and the choice of the closest untaken dose
    (public/reminder-worker.js). */
module DoseSchedule {
  import Clock
  import opened Medicines
  import opened Selection

  /** The weekday every weekly medicine is scheduled on (0 = Sunday). */
  const ScheduleDay: int := 0

  /** `getNextDoseTime(med, now)`: the medicine's hour and minute on today's date;
      a weekly dose is moved to the next Sunday (a week on when today is Sunday and
      the time has passed), a daily dose to tomorrow when the time has passed. */
  function NextDoseTime(med: Medicine, now: int): int
    requires WellFormed(med)
  {
    var today := Clock.DayOf(now);
    var candidate := DoseOn(med, today);
    match med.frequency
    case Weekly =>
      var daysUntilNext := (ScheduleDay - Clock.Weekday(today) + 7) % 7;
      var days := if daysUntilNext == 0 && candidate < now then 7 else daysUntilNext;
      DoseOn(med, today + days)
    case Daily =>
      if candidate < now then DoseOn(med, today + 1) else candidate
  }

  /** The medicine's time of day, in milliseconds since midnight. */
  function DoseMsOfDay(med: Medicine): int
    requires WellFormed(med)
  {
    TimeOf(med).hour * Clock.MsPerHour + TimeOf(med).minute * Clock.MsPerMinute
  }

  /** Dose instants at the medicine's time of day are ordered as their days are. */
  lemma DoseOnMonotone(med: Medicine, d1: int, d2: int)
    requires WellFormed(med) && d1 <= d2
    ensures DoseOn(med, d1) <= DoseOn(med, d2)
  {
  }

  /** Any instant at the medicine's time of day is that day's dose instant. */
  lemma InstantIsDoseOn(med: Medicine, t: int)
    requires WellFormed(med) && Clock.MsOfDay(t) == DoseMsOfDay(med)
    ensures t == DoseOn(med, Clock.DayOf(t))
  {
  }

  /** Daily dose: today at the medicine's time if that is not before `now`, otherwise
      tomorrow; so the result is in `[now, now + 1 day)`, and it is the earliest
      instant at or after `now` at the medicine's time of day. */
  lemma DailyNextDose(med: Medicine, now: int)
    requires WellFormed(med) && med.frequency == Daily
    ensures var r := NextDoseTime(med, now);
      && Clock.MsOfDay(r) == DoseMsOfDay(med)
      && now <= r < now + Clock.MsPerDay
      && (Clock.DayOf(r) == Clock.DayOf(now) <==> now <= DoseOn(med, Clock.DayOf(now)))
      && (Clock.DayOf(r) == Clock.DayOf(now) + 1 <==> DoseOn(med, Clock.DayOf(now)) < now)
      && forall t :: now <= t && Clock.MsOfDay(t) == DoseMsOfDay(med) ==> r <= t
  {
    var today := Clock.DayOf(now);
    DoseOnDay(med, today);
    DoseOnDay(med, today + 1);
    DoseOnShift(med, today, 1);
    assert now == today * Clock.MsPerDay + Clock.MsOfDay(now);
    assert DoseOn(med, today) == today * Clock.MsPerDay + Clock.MsOfDay(DoseOn(med, today));
    var r := NextDoseTime(med, now);
    forall t | now <= t && Clock.MsOfDay(t) == DoseMsOfDay(med) ensures r <= t {
      InstantIsDoseOn(med, t);
      if Clock.DayOf(t) > today {
        DoseOnMonotone(med, today + 1, Clock.DayOf(t));
      }
    }
  }

  /** The days from a weekday to the next Sunday, as the worker computes them, land
      on a Sunday. */
  lemma DaysUntilSunday(today: int)
    ensures Clock.Weekday(today + (ScheduleDay - Clock.Weekday(today) + 7) % 7) == ScheduleDay
    ensures Clock.Weekday(today + 7) == Clock.Weekday(today)
  {
  }

  /** A later Sunday is at least as far away as the one the worker picks. */
  lemma LaterSunday(today: int, d: int)
    requires today <= d && Clock.Weekday(d) == ScheduleDay
    ensures var k := (ScheduleDay - Clock.Weekday(today) + 7) % 7;
      d - today >= k && (k == 0 && d != today ==> d - today >= 7)
  {
    var k := (ScheduleDay - Clock.Weekday(today) + 7) % 7;
    assert (d - today) % 7 == k by {
      assert (d + 4) % 7 == 0;
    }
  }

  /** The number of days the worker moves a weekly dose forward. */
  function WeeklyDays(med: Medicine, now: int): (days: int)
    requires WellFormed(med)
    ensures 0 <= days <= 7
  {
    var today := Clock.DayOf(now);
    var daysUntilNext := (ScheduleDay - Clock.Weekday(today) + 7) % 7;
    if daysUntilNext == 0 && DoseOn(med, today) < now then 7 else daysUntilNext
  }

  /** The weekly result is the dose instant `WeeklyDays` after today, and no earlier
      than `now`. */
  lemma WeeklyIsDoseOn(med: Medicine, now: int)
    requires WellFormed(med) && med.frequency == Weekly
    ensures NextDoseTime(med, now) == DoseOn(med, Clock.DayOf(now) + WeeklyDays(med, now))
    ensures now <= NextDoseTime(med, now)
  {
    var today := Clock.DayOf(now);
    DoseOnDay(med, today);
    if WeeklyDays(med, now) > 0 {
      DoseOnMonotone(med, today + 1, today + WeeklyDays(med, now));
    }
  }

  /** Weekly dose: on a Sunday at the medicine's time, never before `now`, less than
      seven days after it, and seven days on exactly when today is Sunday and the time
      has passed. */
  lemma WeeklyNextDose(med: Medicine, now: int)
    requires WellFormed(med) && med.frequency == Weekly
    ensures var r := NextDoseTime(med, now);
      && Clock.Weekday(Clock.DayOf(r)) == ScheduleDay
      && Clock.MsOfDay(r) == DoseMsOfDay(med)
      && now <= r < now + 7 * Clock.MsPerDay
      && (Clock.DayOf(r) == Clock.DayOf(now) + 7 <==>
            Clock.Weekday(Clock.DayOf(now)) == ScheduleDay && DoseOn(med, Clock.DayOf(now)) < now)
  {
    var today := Clock.DayOf(now);
    var days := WeeklyDays(med, now);
    DaysUntilSunday(today);
    WeeklyIsDoseOn(med, now);
    DoseOnDay(med, today + days);
    DoseOnDay(med, today);
    DoseOnShift(med, today, days);
    assert now == today * Clock.MsPerDay + Clock.MsOfDay(now);
    assert DoseOn(med, today) == today * Clock.MsPerDay + Clock.MsOfDay(DoseOn(med, today));
  }

  /** The weekly result is the earliest Sunday instant at the medicine's time of day
      at or after `now`. */
  lemma WeeklyEarliest(med: Medicine, now: int, t: int)
    requires WellFormed(med) && med.frequency == Weekly
    requires now <= t && Clock.MsOfDay(t) == DoseMsOfDay(med) && Clock.Weekday(Clock.DayOf(t)) == ScheduleDay
    ensures NextDoseTime(med, now) <= t
  {
    var today := Clock.DayOf(now);
    WeeklyIsDoseOn(med, now);
    InstantIsDoseOn(med, t);
    DoseOnDay(med, today);
    LaterSunday(today, Clock.DayOf(t));
    if Clock.DayOf(t) != today {
      DoseOnMonotone(med, today + WeeklyDays(med, now), Clock.DayOf(t));
    }
  }

  // ---- taken today --------------------------------------------------------

  /** One history entry records a dose of `id` on calendar day `today`. */
  predicate LogMatches(log: HistoryLog, id: string, today: int) {
    log.medicineId == id && Clock.DayOf(log.date) == today
  }

  /** `wasTakenToday(id)`: `history.some(...)` over the entries, left to right. */
  predicate TakenToday(history: seq<HistoryLog>, id: string, today: int)
    ensures TakenToday(history, id, today) <==> exists i :: 0 <= i < |history| && LogMatches(history[i], id, today)
  {
    |history| > 0 && (LogMatches(history[0], id, today) || TakenToday(history[1..], id, today))
  }

  /** The answer over a concatenation is the disjunction of the answers; so entries
      for other medicines or other days never change it, and appending entries can
      only turn `false` into `true`. */
  lemma {:induction false} TakenTodayAppend(h1: seq<HistoryLog>, h2: seq<HistoryLog>, id: string, today: int)
    ensures TakenToday(h1 + h2, id, today) == (TakenToday(h1, id, today) || TakenToday(h2, id, today))
  {
    if |h1| > 0 {
      assert (h1 + h2)[1..] == h1[1..] + h2;
      TakenTodayAppend(h1[1..], h2, id, today);
    } else {
      assert h1 + h2 == h2;
    }
  }

  lemma TakenTodayIgnoresOthers(history: seq<HistoryLog>, log: HistoryLog, id: string, today: int)
    requires !LogMatches(log, id, today)
    ensures TakenToday(history + [log], id, today) == TakenToday(history, id, today)
    ensures TakenToday([log] + history, id, today) == TakenToday(history, id, today)
  {
    TakenTodayAppend(history, [log], id, today);
    TakenTodayAppend([log], history, id, today);
  }

  // ---- the closest untaken dose ------------------------------------------

  /** Candidate instant of each medicine: none for a medicine taken today. */
  function Candidates(meds: seq<Medicine>, history: seq<HistoryLog>, now: int): (c: seq<Option<int>>)
    requires AllWellFormed(meds)
    ensures |c| == |meds|
  {
    seq(|meds|, i requires 0 <= i < |meds| =>
      if TakenToday(history, meds[i].id, Clock.DayOf(now)) then None else Some(NextDoseTime(meds[i], now)))
  }

  /** The `forEach` of `scheduleNextReminder`: the closest dose among medicines not
      taken today, first in list order on ties. */
  function Closest(meds: seq<Medicine>, history: seq<HistoryLog>, now: int): Option<Choice>
    requires AllWellFormed(meds)
  {
    FirstEarliest(Candidates(meds, history, now))
  }

  /** The chosen medicine was not taken today, its dose is no later than that of any
      other medicine not taken today and strictly earlier than that of every such
      medicine before it in the list; nothing is chosen exactly when every medicine
      (possibly none) was taken today. */
  lemma ClosestSpec(meds: seq<Medicine>, history: seq<HistoryLog>, now: int)
    requires AllWellFormed(meds)
    ensures var today := Clock.DayOf(now);
      match Closest(meds, history, now)
      case None => forall j :: 0 <= j < |meds| ==> TakenToday(history, meds[j].id, today)
      case Some(c) =>
        && c.index < |meds|
        && !TakenToday(history, meds[c.index].id, today)
        && c.time == NextDoseTime(meds[c.index], now)
        && (forall j :: 0 <= j < |meds| && !TakenToday(history, meds[j].id, today) ==> c.time <= NextDoseTime(meds[j], now))
        && (forall j :: 0 <= j < c.index && !TakenToday(history, meds[j].id, today) ==> c.time < NextDoseTime(meds[j], now))
  {
    var cands := Candidates(meds, history, now);
    match Closest(meds, history, now)
    case None =>
      forall j | 0 <= j < |meds| ensures TakenToday(history, meds[j].id, Clock.DayOf(now)) {
        assert cands[j].None?;
      }
    case Some(c) =>
      forall j | 0 <= j < |meds| && !TakenToday(history, meds[j].id, Clock.DayOf(now))
        ensures c.time <= NextDoseTime(meds[j], now)
      {
        assert cands[j].Some?;
      }
      forall j | 0 <= j < c.index && !TakenToday(history, meds[j].id, Clock.DayOf(now))
        ensures c.time < NextDoseTime(meds[j], now)
      {
        assert cands[j].Some?;
      }
  }

  /** A medicine with a history entry dated today is never chosen, however many
      other medicines there are. */
  lemma TakenNeverChosen(meds: seq<Medicine>, history: seq<HistoryLog>, now: int, i: nat)
    requires AllWellFormed(meds) && i < |meds|
    requires exists k :: 0 <= k < |history| && LogMatches(history[k], meds[i].id, Clock.DayOf(now))
    ensures Closest(meds, history, now) == None || meds[Closest(meds, history, now).value.index].id != meds[i].id
  {
    ClosestSpec(meds, history, now);
  }
}
