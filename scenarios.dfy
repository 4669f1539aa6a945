/** Runs of the worker model with one daily medicine due at 08:00, on day 20000
    of the model's calendar (a Friday), with the clock read at various times. */
module Scenarios {
  import opened Clock
  import TimeFormat
  import opened Medicines
  import opened DoseSchedule
  import opened ReminderWorker

  const Day: int := 20000
  const Pill: Medicine := Medicine("1", "Aspirin", "1 tablet", "08:00", Daily)

  lemma PillDoses()
    ensures WellFormed(Pill) && TimeOf(Pill).hour == 8 && TimeOf(Pill).minute == 0
  {
    TimeFormat.Pad2Digits(8);
    TimeFormat.Pad2Digits(0);
    assert Pill.time == TimeFormat.Render(8, 0);
    TimeFormat.RenderAccepted(8, 0);
  }

  /** The worker after loading the medicine at 07:00: one natural timer, for 08:00. */
  const Loaded: WorkerState :=
    WorkerState([Pill], [], None, Some(0), [Timer(Natural, At(Day, 8, 0), Pill, true)], [])

  /** At 07:00 with an empty history the worker arms one timer, for today 08:00. */
  lemma ArmsForToday()
    ensures WellFormed(Pill)
    ensures Handled(Initial, UpdateData(Some([Pill]), Some([])), At(Day, 7, 0)) == Loaded
  {
    PillDoses();
    assert Candidates([Pill], [], At(Day, 7, 0)) == [Some(At(Day, 8, 0))];
  }

  /** At 09:00 today's dose has passed and was not taken: the timer is for tomorrow
      08:00. */
  lemma ArmsForTomorrow()
    ensures WellFormed(Pill)
    ensures Handled(Initial, UpdateData(Some([Pill]), Some([])), At(Day, 9, 0)).timers
      == [Timer(Natural, At(Day + 1, 8, 0), Pill, true)]
  {
    PillDoses();
    assert Candidates([Pill], [], At(Day, 9, 0)) == [Some(At(Day + 1, 8, 0))];
  }

  /** A dose logged at 08:05 today leaves nothing to remind about at 08:10. */
  lemma TakenDoseIdles()
    ensures WellFormed(Pill)
    ensures var taken := HistoryLog("1", "Aspirin", "1 tablet", "08:00", At(Day, 8, 5));
      Handled(Initial, UpdateData(Some([Pill]), Some([taken])), At(Day, 8, 10)).timers == []
  {
    PillDoses();
    var taken := HistoryLog("1", "Aspirin", "1 tablet", "08:00", At(Day, 8, 5));
    assert TakenToday([taken], "1", Clock.DayOf(At(Day, 8, 10)));
    assert Candidates([Pill], [taken], At(Day, 8, 10)) == [None];
  }

  /** The worker after a snooze at 08:00: the natural timer is cancelled and a snooze
      timer is pending for 08:05. */
  const Snoozed: WorkerState :=
    WorkerState([Pill], [], Some(1), Some(0),
                [Timer(Natural, At(Day, 8, 0), Pill, false), Timer(TimerKind.Snoozed, At(Day, 8, 5), Pill, true)], [])

  lemma SnoozeAtEight()
    ensures WellFormed(Pill)
    ensures Handled(Loaded, Snooze(Pill), At(Day, 8, 0)) == Snoozed
  {
    PillDoses();
  }

  /** The snooze timer runs at 08:05: the reminder is posted, and as today's dose is
      now past and still not taken, the worker arms tomorrow's 08:00 dose. */
  lemma RemindAfterSnooze()
    ensures WellFormed(Pill)
    ensures Fired(Snoozed, 1, At(Day, 8, 5))
      == WorkerState([Pill], [], Some(1), Some(2),
                     [Timer(Natural, At(Day, 8, 0), Pill, false), Timer(TimerKind.Snoozed, At(Day, 8, 5), Pill, false),
                      Timer(Natural, At(Day + 1, 8, 0), Pill, true)], [Pill])
  {
    PillDoses();
    assert Candidates([Pill], [], At(Day, 8, 5)) == [Some(At(Day + 1, 8, 0))];
  }

  /** The natural timer of 08:00 running at 08:00 posts the reminder and arms
      nothing: tomorrow's dose is not scheduled. */
  lemma OnTimeReminderArmsNothing()
    ensures WellFormed(Pill)
    ensures Fired(Loaded, 0, At(Day, 8, 0))
      == WorkerState([Pill], [], None, Some(0), [Timer(Natural, At(Day, 8, 0), Pill, false)], [Pill])
  {
    PillDoses();
    assert Candidates([Pill], [], At(Day, 8, 0)) == [Some(At(Day, 8, 0))];
  }

  /** With the corrected reschedule, the same on-time run arms tomorrow's 08:00 dose. */
  lemma OnTimeReminderRearms()
    ensures WellFormed(Pill)
    ensures FiredAfter(Loaded, 0, At(Day, 8, 0))
      == WorkerState([Pill], [], None, Some(1),
                     [Timer(Natural, At(Day, 8, 0), Pill, false), Timer(Natural, At(Day + 1, 8, 0), Pill, true)], [Pill])
  {
    PillDoses();
    assert CandidatesAfter([Pill], [], At(Day, 8, 0)) == [Some(At(Day + 1, 8, 0))];
  }
}
