/** The computations embedded in the dashboard page (src/app/dashboard/page.tsx):
    the medicine list grouped by time of day, the page's own next-dose selection and
    its countdown text, the history shown for a selected day and the list left after
    deleting a medicine. The validating time pattern is `TimeFormat.IsValidTime`. */
module Dashboard {
  import Clock
  import opened TimeFormat
  import opened Medicines
  import opened Selection
  import DoseSchedule

  // ---- list filters -------------------------------------------------------

  /** `xs.filter(keep)` */
  function Filter<T(!new)>(xs: seq<T>, keep: T -> bool): (r: seq<T>)
    ensures |r| <= |xs|
    ensures forall x :: x in r <==> x in xs && keep(x)
  {
    if |xs| == 0 then [] else (if keep(xs[0]) then [xs[0]] else []) + Filter(xs[1..], keep)
  }

  /** `a` is `b` with some elements left out and the rest in their order. */
  predicate Subsequence<T(==)>(a: seq<T>, b: seq<T>) {
    if |a| == 0 then true
    else if |b| == 0 then false
    else if a[0] == b[0] then Subsequence(a[1..], b[1..])
    else Subsequence(a, b[1..])
  }

  /** A filter keeps the kept elements in their original order. */
  lemma {:induction false} FilterInOrder<T(!new)>(xs: seq<T>, keep: T -> bool)
    ensures Subsequence(Filter(xs, keep), xs)
  {
    if |xs| > 0 {
      FilterInOrder(xs[1..], keep);
      var rest := Filter(xs[1..], keep);
      if keep(xs[0]) {
        assert Filter(xs, keep) == [xs[0]] + rest;
        assert ([xs[0]] + rest)[1..] == rest;
      } else {
        assert Filter(xs, keep) == rest;
        if |rest| > 0 {
          assert rest[0] in rest;
        }
      }
    }
  }

  /** A filter keeps each kept element as often as it occurs. */
  lemma {:induction false} FilterCounts<T(!new)>(xs: seq<T>, keep: T -> bool, x: T)
    requires keep(x)
    ensures multiset(Filter(xs, keep))[x] == multiset(xs)[x]
  {
    if |xs| > 0 {
      FilterCounts(xs[1..], keep, x);
      assert xs == [xs[0]] + xs[1..];
    }
  }

  /** `history.filter(log => isSameDay(new Date(log.date), selectedDate))`, or no
      entries when no day is selected. */
  function LogsForSelectedDay(history: seq<HistoryLog>, selected: Option<int>): seq<HistoryLog> {
    if selected.None? then [] else Filter(history, (log: HistoryLog) => Clock.DayOf(log.date) == selected.value)
  }

  /** The shown entries are exactly the history entries on the selected day, in
      order; a medicine counts as taken on a day exactly when that day's list holds
      an entry for it. */
  lemma LogsForSelectedDaySpec(history: seq<HistoryLog>, day: int, id: string)
    ensures var r := LogsForSelectedDay(history, Some(day));
      && Subsequence(r, history)
      && (forall log :: log in r <==> log in history && Clock.DayOf(log.date) == day)
      && (forall log: HistoryLog :: Clock.DayOf(log.date) == day ==> multiset(r)[log] == multiset(history)[log])
      && (DoseSchedule.TakenToday(history, id, day) <==> exists log :: log in r && log.medicineId == id)
    ensures LogsForSelectedDay(history, None) == []
  {
    var onDay := (log: HistoryLog) => Clock.DayOf(log.date) == day;
    FilterInOrder(history, onDay);
    forall log: HistoryLog | Clock.DayOf(log.date) == day
      ensures multiset(LogsForSelectedDay(history, Some(day)))[log] == multiset(history)[log]
    {
      FilterCounts(history, onDay, log);
    }
    if DoseSchedule.TakenToday(history, id, day) {
      var i :| 0 <= i < |history| && DoseSchedule.LogMatches(history[i], id, day);
      assert history[i] in LogsForSelectedDay(history, Some(day));
    }
  }

  /** `existingMedicines.filter(med => med.id !== id)` */
  function DeleteMedicine(meds: seq<Medicine>, id: string): seq<Medicine> {
    Filter(meds, (med: Medicine) => med.id != id)
  }

  /** Deleting keeps exactly the medicines with another id, in order; deleting again
      changes nothing; and the worker can never choose a deleted medicine. */
  lemma DeleteMedicineSpec(meds: seq<Medicine>, id: string, history: seq<HistoryLog>, now: int)
    ensures var r := DeleteMedicine(meds, id);
      && Subsequence(r, meds)
      && (forall m :: m in r <==> m in meds && m.id != id)
      && (forall m: Medicine :: m.id != id ==> multiset(r)[m] == multiset(meds)[m])
      && DeleteMedicine(r, id) == r
    ensures AllWellFormed(meds) ==>
      var r := DeleteMedicine(meds, id);
      AllWellFormed(r) &&
      match DoseSchedule.Closest(r, history, now)
      case Some(c) => r[c.index].id != id
      case None => true
  {
    var other := (med: Medicine) => med.id != id;
    FilterInOrder(meds, other);
    forall m: Medicine | m.id != id ensures multiset(DeleteMedicine(meds, id))[m] == multiset(meds)[m] {
      FilterCounts(meds, other, m);
    }
    FilterKeepsAll(DeleteMedicine(meds, id), (med: Medicine) => med.id != id);
    if AllWellFormed(meds) {
      var r := DeleteMedicine(meds, id);
      forall i | 0 <= i < |r| ensures WellFormed(r[i]) {
        assert r[i] in meds;
      }
      DoseSchedule.ClosestSpec(r, history, now);
      match DoseSchedule.Closest(r, history, now)
      case Some(c) => assert r[c.index] in r;
      case None =>
    }
  }

  /** Filtering a list every element of which is kept gives it back. */
  lemma {:induction false} FilterKeepsAll<T(!new)>(xs: seq<T>, keep: T -> bool)
    requires forall x :: x in xs ==> keep(x)
    ensures Filter(xs, keep) == xs
  {
    if |xs| > 0 {
      assert forall x :: x in xs[1..] ==> x in xs;
      FilterKeepsAll(xs[1..], keep);
      assert xs == [xs[0]] + xs[1..];
    }
  }

  // ---- grouping by time of day -----------------------------------------------

  datatype Period = Morning | Afternoon | Evening

  /** The branch of `groupedMedicines` a parsed hour takes. */
  function PeriodOf(hour: int): Period {
    if hour < 12 then Morning
    else if hour >= 12 && hour < 17 then Afternoon
    else Evening
  }

  /** The medicines of one period, in list order, as `forEach` + `push` builds them. */
  function InPeriod(meds: seq<Medicine>, p: Period): (r: seq<Medicine>)
    requires AllWellFormed(meds)
    ensures |r| <= |meds|
  {
    if |meds| == 0 then []
    else
      var last := meds[|meds| - 1];
      InPeriod(meds[..|meds| - 1], p) + (if PeriodOf(TimeOf(last).hour) == p then [last] else [])
  }

  /** `groupedMedicines`: the hour parsed from each time picks the list it is pushed
      onto. */
  method GroupMedicines(meds: seq<Medicine>) returns (morning: seq<Medicine>, afternoon: seq<Medicine>, evening: seq<Medicine>)
    requires AllWellFormed(meds)
    ensures morning == InPeriod(meds, Morning)
    ensures afternoon == InPeriod(meds, Afternoon)
    ensures evening == InPeriod(meds, Evening)
    ensures |morning| + |afternoon| + |evening| == |meds|
    ensures multiset(morning) + multiset(afternoon) + multiset(evening) == multiset(meds)
  {
    morning, afternoon, evening := [], [], [];
    var i := 0;
    while i < |meds|
      invariant 0 <= i <= |meds|
      invariant morning == InPeriod(meds[..i], Morning)
      invariant afternoon == InPeriod(meds[..i], Afternoon)
      invariant evening == InPeriod(meds[..i], Evening)
    {
      InPeriodStep(meds, i, Morning);
      InPeriodStep(meds, i, Afternoon);
      InPeriodStep(meds, i, Evening);
      var med := meds[i];
      var hour := TimeOf(med).hour;
      if hour < 12 {
        morning := morning + [med];
      } else if hour >= 12 && hour < 17 {
        afternoon := afternoon + [med];
      } else {
        evening := evening + [med];
      }
      i := i + 1;
    }
    assert meds[..i] == meds;
    InPeriodPartition(meds);
  }

  /** One step of the loop: the medicine at position `i` joins its own group only. */
  lemma InPeriodStep(meds: seq<Medicine>, i: nat, p: Period)
    requires AllWellFormed(meds) && i < |meds|
    ensures InPeriod(meds[..i + 1], p) == InPeriod(meds[..i], p) + (if PeriodOf(TimeOf(meds[i]).hour) == p then [meds[i]] else [])
  {
    assert meds[..i + 1][..i] == meds[..i];
  }

  /** The three groups together hold every medicine exactly as often as the list. */
  lemma {:induction false} InPeriodPartition(meds: seq<Medicine>)
    requires AllWellFormed(meds)
    ensures |InPeriod(meds, Morning)| + |InPeriod(meds, Afternoon)| + |InPeriod(meds, Evening)| == |meds|
    ensures multiset(InPeriod(meds, Morning)) + multiset(InPeriod(meds, Afternoon)) + multiset(InPeriod(meds, Evening))
      == multiset(meds)
  {
    if |meds| > 0 {
      var init := meds[..|meds| - 1];
      var last := meds[|meds| - 1];
      SplitLast(meds);
      InPeriodPartition(init);
      InPeriodLast(meds);
      var p := PeriodOf(TimeOf(last).hour);
      AddToOne(InPeriod(init, Morning), InPeriod(init, Afternoon), InPeriod(init, Evening), init, last,
               p == Morning, p == Afternoon, p == Evening);
    }
  }

  lemma SplitLast<T>(s: seq<T>)
    requires |s| > 0
    ensures s == s[..|s| - 1] + [s[|s| - 1]]
  {
  }

  /** The last medicine of a list joins its own group only. */
  lemma InPeriodLast(meds: seq<Medicine>)
    requires AllWellFormed(meds) && |meds| > 0
    ensures var init := meds[..|meds| - 1];
      var last := meds[|meds| - 1];
      var p := PeriodOf(TimeOf(last).hour);
      && InPeriod(meds, Morning) == InPeriod(init, Morning) + (if p == Morning then [last] else [])
      && InPeriod(meds, Afternoon) == InPeriod(init, Afternoon) + (if p == Afternoon then [last] else [])
      && InPeriod(meds, Evening) == InPeriod(init, Evening) + (if p == Evening then [last] else [])
  {
  }

  /** Appending an element to exactly one of three lists that together hold `xs`
      makes them hold `xs + [x]`. */
  lemma AddToOne<T>(m: seq<T>, a: seq<T>, e: seq<T>, xs: seq<T>, x: T, toM: bool, toA: bool, toE: bool)
    requires |m| + |a| + |e| == |xs| && multiset(m) + multiset(a) + multiset(e) == multiset(xs)
    requires (toM && !toA && !toE) || (!toM && toA && !toE) || (!toM && !toA && toE)
    ensures var m' := m + (if toM then [x] else []);
      var a' := a + (if toA then [x] else []);
      var e' := e + (if toE then [x] else []);
      |m'| + |a'| + |e'| == |xs + [x]| && multiset(m') + multiset(a') + multiset(e') == multiset(xs + [x])
  {
    assert multiset(xs + [x]) == multiset(xs) + multiset{x};
    if toM {
      assert multiset(m + [x]) == multiset(m) + multiset{x};
    } else if toA {
      assert multiset(a + [x]) == multiset(a) + multiset{x};
    } else {
      assert multiset(e + [x]) == multiset(e) + multiset{x};
    }
  }

  /** Each medicine lands in exactly the group its hour selects: before 12 in the
      morning, from 12 to 16 in the afternoon, from 17 in the evening. */
  lemma {:induction false} InPeriodMembers(meds: seq<Medicine>, p: Period, m: Medicine)
    requires AllWellFormed(meds)
    ensures m in InPeriod(meds, p) <==> m in meds && PeriodOf(TimeOf(m).hour) == p
  {
    if |meds| > 0 {
      var init := meds[..|meds| - 1];
      InPeriodMembers(init, p, m);
      SplitLast(meds);
    }
  }

  lemma PeriodRanges(hour: nat)
    requires hour <= 23
    ensures PeriodOf(hour) == Morning <==> hour < 12
    ensures PeriodOf(hour) == Afternoon <==> 12 <= hour < 17
    ensures PeriodOf(hour) == Evening <==> 17 <= hour
  {
  }

  // ---- the dashboard's next-dose rule -----------------------------------------

  /** The next-dose instant as the dashboard computes it: the weekly day count is
      taken from the candidate's own weekday, which is today's. */
  function DashNextDoseTime(med: Medicine, now: int): int
    requires WellFormed(med)
  {
    var today := Clock.DayOf(now);
    var candidate := DoseOn(med, today);
    match med.frequency
    case Weekly =>
      var currentDay := Clock.Weekday(today);
      var daysUntilNext := (Clock.Weekday(Clock.DayOf(candidate)) - currentDay + 7) % 7;
      var days := if daysUntilNext == 0 && candidate < now then 7 else daysUntilNext;
      DoseOn(med, today + days)
    case Daily =>
      if candidate < now then DoseOn(med, today + 1) else candidate
  }

  /** The dashboard's weekly day count is always 0 to start with: a weekly dose is
      today at the medicine's time when that is not before `now`, otherwise seven
      days later. */
  lemma DashWeeklyIsDoseOn(med: Medicine, now: int)
    requires WellFormed(med) && med.frequency == Weekly
    ensures var today := Clock.DayOf(now);
      DashNextDoseTime(med, now) == if DoseOn(med, today) < now then DoseOn(med, today + 7) else DoseOn(med, today)
  {
    DoseOnDay(med, Clock.DayOf(now));
  }

  /** So a weekly dose on the dashboard always falls on today's weekday, never before
      `now` and less than seven days after it. */
  lemma DashWeeklyNextDose(med: Medicine, now: int)
    requires WellFormed(med) && med.frequency == Weekly
    ensures var today := Clock.DayOf(now);
      var r := DashNextDoseTime(med, now);
      && r == (if DoseOn(med, today) < now then DoseOn(med, today + 7) else DoseOn(med, today))
      && Clock.Weekday(Clock.DayOf(r)) == Clock.Weekday(today)
      && now <= r < now + 7 * Clock.MsPerDay
  {
    var today := Clock.DayOf(now);
    DashWeeklyIsDoseOn(med, now);
    DoseOnDay(med, today);
    DoseOnDay(med, today + 7);
    DoseOnShift(med, today, 7);
    DoseSchedule.DaysUntilSunday(today);
    assert now == today * Clock.MsPerDay + Clock.MsOfDay(now);
    assert DoseOn(med, today) == today * Clock.MsPerDay + Clock.MsOfDay(DoseOn(med, today));
  }

  /** For a daily medicine the dashboard and the worker compute the same instant. */
  lemma DailyRulesAgree(med: Medicine, now: int)
    requires WellFormed(med) && med.frequency == Daily
    ensures DashNextDoseTime(med, now) == DoseSchedule.NextDoseTime(med, now)
  {
  }

  /** For a weekly medicine they agree exactly on Sundays. */
  lemma WeeklyRulesAgreeOnlyOnSunday(med: Medicine, now: int)
    requires WellFormed(med) && med.frequency == Weekly
    ensures DashNextDoseTime(med, now) == DoseSchedule.NextDoseTime(med, now)
        <==> Clock.Weekday(Clock.DayOf(now)) == DoseSchedule.ScheduleDay
  {
    DashWeeklyNextDose(med, now);
    DoseSchedule.WeeklyNextDose(med, now);
  }

  /** The dashboard's candidates: every medicine, taken today or not. */
  function DashCandidates(meds: seq<Medicine>, now: int): (c: seq<Option<int>>)
    requires AllWellFormed(meds)
    ensures |c| == |meds|
  {
    seq(|meds|, i requires 0 <= i < |meds| => Some(DashNextDoseTime(meds[i], now)))
  }

  /** When every medicine is daily and none was taken today, the dashboard shows the
      dose the worker arms for. */
  lemma SelectionsAgree(meds: seq<Medicine>, history: seq<HistoryLog>, now: int)
    requires AllWellFormed(meds)
    requires forall i :: 0 <= i < |meds| ==> meds[i].frequency == Daily
    requires forall i :: 0 <= i < |meds| ==> !DoseSchedule.TakenToday(history, meds[i].id, Clock.DayOf(now))
    ensures FirstEarliest(DashCandidates(meds, now)) == DoseSchedule.Closest(meds, history, now)
  {
    assert DashCandidates(meds, now) == DoseSchedule.Candidates(meds, history, now);
  }

  // ---- countdown ------------------------------------------------------------

  datatype Countdown = Countdown(days: nat, hours: nat, minutes: nat, seconds: nat)

  /** The quotient is determined by any decomposition with a remainder in range. */
  lemma DivUnique(a: int, d: int, k: int, m: int)
    requires d > 0 && a == d * k + m && 0 <= m < d
    ensures a / d == k
  {
    var q := a / d;
    assert a == d * q + a % d;
    assert d * (q - k) == m - a % d;
    if q > k {
      MulAtLeast(d, q - k);
    } else if q < k {
      MulAtLeast(d, k - q);
    }
  }

  lemma MulAtLeast(d: int, n: int)
    requires d > 0 && n >= 1
    ensures d * n >= d
  {
  }

  /** Division by a product is division by each factor in turn. */
  lemma DivDiv(a: nat, b: nat, c: nat)
    requires b > 0 && c > 0
    ensures a / (b * c) == (a / b) / c
  {
    var q := a / b;
    var k := q / c;
    var r1 := a % b;
    var r2 := q % c;
    assert a == b * q + r1;
    assert q == c * k + r2;
    MulSplit(b, c, k, r2);
    MulBelow(b, c, r2);
    DivUnique(a, b * c, k, b * r2 + r1);
  }

  lemma MulSplit(b: int, c: int, k: int, r: int)
    ensures b * (c * k + r) == (b * c) * k + b * r
  {
  }

  lemma MulBelow(b: int, c: int, r: int)
    requires b > 0 && 0 <= r < c
    ensures 0 <= b * r <= b * c - b
  {
    assert b * (c - 1 - r) >= 0;
    assert b * (c - 1 - r) == b * c - b - b * r;
  }

  /** The `Math.floor` divisions and remainders of the countdown. */
  function Breakdown(diff: int): (c: Countdown)
    requires diff > 0
    ensures c.hours < 24 && c.minutes < 60 && c.seconds < 60
    ensures c.days * 86400 + c.hours * 3600 + c.minutes * 60 + c.seconds == diff / 1000
  {
    var s := diff / 1000;
    DivDiv(diff, 1000, 60);
    DivDiv(diff, 60000, 60);
    DivDiv(diff, 3600000, 24);
    assert s == 60 * (s / 60) + s % 60;
    assert s / 60 == 60 * ((s / 60) / 60) + (s / 60) % 60;
    DivDiv(s, 60, 60);
    DivDiv(s, 3600, 24);
    DivDiv(diff, 1000, 3600);
    DivDiv(diff, 1000, 86400);
    var hoursTotal := diff / Clock.MsPerHour;
    assert hoursTotal == 24 * (hoursTotal / 24) + hoursTotal % 24;
    Countdown(diff / Clock.MsPerDay, (diff / Clock.MsPerHour) % 24, (diff / Clock.MsPerMinute) % 60, (diff / 1000) % 60)
  }

  /** The `Nd ` prefix of the countdown: present only when whole days are left. */
  function DaysText(days: nat): string {
    if days > 0 then NatToString(days) + "d " else ""
  }

  /** The `HHh MMm SSs` part of the countdown. */
  function ClockText(hours: nat, minutes: nat, seconds: nat): string {
    Pad2(hours) + "h " + Pad2(minutes) + "m " + Pad2(seconds) + "s"
  }

  /** The text shown under "Next dose": `Nd ` only when there are whole days left,
      then two-digit hours, minutes and seconds; "It's time!" once the dose is due. */
  function CountdownText(diff: int): string {
    if diff > 0 then
      var c := Breakdown(diff);
      DaysText(c.days) + ClockText(c.hours, c.minutes, c.seconds)
    else "It's time!"
  }

  /** Reads the day prefix back. */
  function ReadDays(prefix: string): Option<nat> {
    if prefix == [] then Some(0)
    else if |prefix| >= 3 && prefix[|prefix| - 2..] == "d " && AllDigits(prefix[..|prefix| - 2]) then
      Some(ParseDigits(prefix[..|prefix| - 2]))
    else None
  }

  /** Reads the clock part back. */
  function ReadClock(clock: string): Option<(nat, nat, nat)> {
    if |clock| == 11 && AllDigits(clock[0..2]) && clock[2..4] == "h " && AllDigits(clock[4..6])
       && clock[6..8] == "m " && AllDigits(clock[8..10]) && clock[10..] == "s" then
      Some((ParseDigits(clock[0..2]), ParseDigits(clock[4..6]), ParseDigits(clock[8..10])))
    else None
  }

  /** Reads a countdown text back into its fields. */
  function ReadCountdown(text: string): Option<Countdown> {
    if |text| < 11 then None
    else
      match (ReadDays(text[..|text| - 11]), ReadClock(text[|text| - 11..]))
      case (Some(d), Some(hms)) => Some(Countdown(d, hms.0, hms.1, hms.2))
      case _ => None
  }

  lemma ReadDaysText(days: nat)
    ensures ReadDays(DaysText(days)) == Some(days)
    ensures |DaysText(days)| == 0 <==> days == 0
  {
    if days > 0 {
      var p := DaysText(days);
      assert p[..|p| - 2] == NatToString(days);
      ParseNatToString(days);
    }
  }

  lemma ReadClockText(hours: nat, minutes: nat, seconds: nat)
    requires hours < 100 && minutes < 100 && seconds < 100
    ensures ReadClock(ClockText(hours, minutes, seconds)) == Some((hours, minutes, seconds))
  {
    Pad2Digits(hours);
    Pad2Digits(minutes);
    Pad2Digits(seconds);
    ParsePad2(hours);
    ParsePad2(minutes);
    ParsePad2(seconds);
    var clock := ClockText(hours, minutes, seconds);
    assert clock[0..2] == Pad2(hours);
    assert clock[4..6] == Pad2(minutes);
    assert clock[8..10] == Pad2(seconds);
  }

  /** The countdown text determines the breakdown it was made from, and carries a day
      prefix exactly when at least one whole day is left; the due text reads as no
      countdown at all. */
  lemma CountdownTextRoundTrip(diff: int)
    ensures diff > 0 ==> ReadCountdown(CountdownText(diff)) == Some(Breakdown(diff))
    ensures diff > 0 ==> (|CountdownText(diff)| > 11 <==> Breakdown(diff).days > 0)
    ensures diff <= 0 ==> ReadCountdown(CountdownText(diff)) == None
  {
    if diff > 0 {
      var c := Breakdown(diff);
      var prefix := DaysText(c.days);
      var clock := ClockText(c.hours, c.minutes, c.seconds);
      ReadDaysText(c.days);
      ReadClockText(c.hours, c.minutes, c.seconds);
      Pad2Digits(c.hours);
      Pad2Digits(c.minutes);
      Pad2Digits(c.seconds);
      var text := prefix + clock;
      assert |clock| == 11;
      assert text[..|text| - 11] == prefix;
      assert text[|text| - 11..] == clock;
    }
  }

  /** The dashboard's choice: the earliest dose of any medicine, first in list order
      on ties; there is one whenever the list is not empty. */
  lemma DashClosestSpec(meds: seq<Medicine>, now: int)
    requires AllWellFormed(meds)
    ensures var r := FirstEarliest(DashCandidates(meds, now));
      && (r.None? <==> meds == [])
      && (r.Some? ==>
            && r.value.index < |meds|
            && r.value.time == DashNextDoseTime(meds[r.value.index], now)
            && (forall j :: 0 <= j < |meds| ==> r.value.time <= DashNextDoseTime(meds[j], now))
            && (forall j :: 0 <= j < r.value.index ==> r.value.time < DashNextDoseTime(meds[j], now)))
  {
    var cands := DashCandidates(meds, now);
    var r := FirstEarliest(cands);
    if meds != [] {
      assert cands[0].Some?;
    }
    if r.Some? {
      forall j | 0 <= j < |meds| ensures r.value.time <= DashNextDoseTime(meds[j], now) {
        assert cands[j].Some?;
      }
      forall j | 0 <= j < r.value.index ensures r.value.time < DashNextDoseTime(meds[j], now) {
        assert cands[j].Some?;
      }
    }
  }

  /** The instant and the medicine the page shows as next. */
  datatype NextDose = NextDose(medicine: Medicine, time: int)

  /** The `forEach` of `updateNextDose`: keep the first strictly earliest next dose
      over all the medicines. */
  method FindDashClosest(meds: seq<Medicine>, now: int) returns (closestDose: Option<NextDose>)
    requires AllWellFormed(meds)
    ensures match FirstEarliest(DashCandidates(meds, now))
      case None => closestDose == None
      case Some(c) => closestDose == Some(NextDose(meds[c.index], c.time))
  {
    closestDose := None;
    ghost var cands := DashCandidates(meds, now);
    ghost var best: Option<Choice> := None;
    var i := 0;
    while i < |meds|
      invariant 0 <= i <= |meds|
      invariant best == FirstEarliest(cands[..i])
      invariant best.None? ==> closestDose.None?
      invariant best.Some? ==> closestDose == Some(NextDose(meds[best.value.index], best.value.time))
    {
      FirstEarliestStep(cands, i);
      var med := meds[i];
      var nextDoseTime := DashNextDoseTime(med, now);
      if closestDose.None? || nextDoseTime < closestDose.value.time {
        closestDose := Some(NextDose(med, nextDoseTime));
        best := Some(Choice(i, nextDoseTime));
      }
      i := i + 1;
    }
    assert cands[..i] == cands;
  }

  /** What the walk's result says about the medicine list. */
  lemma ShownDoseSpec(meds: seq<Medicine>, now: int, nextDose: Option<NextDose>)
    requires AllWellFormed(meds) && meds != []
    requires match FirstEarliest(DashCandidates(meds, now))
      case None => nextDose == None
      case Some(c) => nextDose == Some(NextDose(meds[c.index], c.time))
    ensures nextDose.Some?
    ensures exists i :: 0 <= i < |meds| && meds[i] == nextDose.value.medicine
              && nextDose.value.time == DashNextDoseTime(meds[i], now)
              && forall j :: 0 <= j < i ==> nextDose.value.time < DashNextDoseTime(meds[j], now)
    ensures forall j :: 0 <= j < |meds| ==> nextDose.value.time <= DashNextDoseTime(meds[j], now)
  {
    DashClosestSpec(meds, now);
    var c := FirstEarliest(DashCandidates(meds, now)).value;
    assert meds[c.index] == nextDose.value.medicine && nextDose.value.time == c.time;
  }

  /** `updateNextDose()` with the clock reading `now`: the next dose (`null` = `None`)
      and the countdown text the page shows. */
  method UpdateNextDose(meds: seq<Medicine>, now: int) returns (nextDose: Option<NextDose>, timeToNextDose: string)
    requires AllWellFormed(meds)
    ensures meds == [] ==> nextDose == None && timeToNextDose == ""
    ensures meds != [] ==>
      && nextDose.Some?
      && timeToNextDose == CountdownText(nextDose.value.time - now)
      && (exists i :: 0 <= i < |meds| && meds[i] == nextDose.value.medicine
            && nextDose.value.time == DashNextDoseTime(meds[i], now)
            && forall j :: 0 <= j < i ==> nextDose.value.time < DashNextDoseTime(meds[j], now))
      && (forall j :: 0 <= j < |meds| ==> nextDose.value.time <= DashNextDoseTime(meds[j], now))
  {
    if |meds| == 0 {
      return None, "";
    }
    nextDose := FindDashClosest(meds, now);
    ShownDoseSpec(meds, now, nextDose);
    timeToNextDose := CountdownText(nextDose.value.time - now);
  }
}
