/** The records the reminder core works on: a scheduled medicine and a log entry
    saying a dose was taken. */
module Medicines {
  import TimeFormat
  import Clock

  datatype Option<T> = None | Some(value: T) {
    /** `x || default` on a field that may be missing. */
    function GetOr(default: T): T {
      if Some? then value else default
    }
  }

  datatype Frequency = Daily | Weekly

  /** A medicine; `time` is the `HH:MM` string the user entered. */
  datatype Medicine = Medicine(id: string, medicineName: string, dosage: string, time: string, frequency: Frequency)

  /** A taken dose; `date` is the local instant it was recorded (in milliseconds). */
  datatype HistoryLog = HistoryLog(medicineId: string, name: string, dosage: string, time: string, date: int)

  /** The medicine's time passed the dashboard's `HH:MM` pattern. */
  predicate WellFormed(med: Medicine) {
    TimeFormat.IsValidTime(med.time)
  }

  predicate AllWellFormed(meds: seq<Medicine>) {
    forall i :: 0 <= i < |meds| ==> WellFormed(meds[i])
  }

  /** The hour and minute parsed from the medicine's time string. */
  function TimeOf(med: Medicine): (t: TimeFormat.TimeOfDay)
    requires WellFormed(med)
    ensures t.hour <= 23 && t.minute <= 59
  {
    TimeFormat.ParseTime(med.time)
  }

  /** `setHours(hour, minute, 0, 0)` on the given day. */
  function DoseOn(med: Medicine, day: int): int
    requires WellFormed(med)
  {
    Clock.At(day, TimeOf(med).hour, TimeOf(med).minute)
  }

  /** The dose instant on a day lies on that day, at the medicine's time of day. */
  lemma DoseOnDay(med: Medicine, day: int)
    requires WellFormed(med)
    ensures Clock.DayOf(DoseOn(med, day)) == day
    ensures Clock.MsOfDay(DoseOn(med, day)) == TimeOf(med).hour * Clock.MsPerHour + TimeOf(med).minute * Clock.MsPerMinute
  {
    Clock.AtOnDay(day, TimeOf(med).hour, TimeOf(med).minute);
  }

  /** Moving a dose by whole days moves its instant by as many days. */
  lemma DoseOnShift(med: Medicine, day: int, n: int)
    requires WellFormed(med)
    ensures DoseOn(med, day + n) == DoseOn(med, day) + n * Clock.MsPerDay
  {
    assert (day + n) * Clock.MsPerDay == day * Clock.MsPerDay + n * Clock.MsPerDay;
  }
}
