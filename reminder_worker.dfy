/** The background reminder worker (public/reminder-worker.js) as a state machine.

    The worker's four module-level variables are the fields of `Worker`. The host's
    timer table and the messages posted back to the page are modelled too, as the
    fields `timers` and `posted`: `setTimeout` appends a pending `Timer` whose handle
    is its position in `timers`, `clearTimeout` marks it no longer pending, and a
    pending timer runs through `Worker.Fire`, which the host calls at or after the
    timer's instant. `WorkerState` is the value of all six fields; `Scheduled`,
    `Handled` and `Fired` say what each operation does to it, and the lemmas below
    state the worker's promises about those functions. */
module ReminderWorker {
  import Clock
  import opened Medicines
  import opened Selection
  import opened DoseSchedule

  /** `5 * 60 * 1000`: how long a snooze defers the reminder. */
  const SnoozeDelay: int := 5 * 60 * 1000

  datatype TimerKind = Natural | Snoozed

  /** A timer armed through `setTimeout`: when it runs it posts `payload` to the page
      and then calls `scheduleNextReminder`. */
  datatype Timer = Timer(kind: TimerKind, fireAt: int, payload: Medicine, live: bool)

  /** The messages the page sends (`event.data.type` and its payload). A missing
      `medicines` or `history` field of an `UPDATE_DATA` payload is `None`. */
  datatype Message =
    | UpdateData(medicines: Option<seq<Medicine>>, history: Option<seq<HistoryLog>>)
    | Snooze(payload: Medicine)
    | Other(kind: string)

  datatype WorkerState = WorkerState(
    medicines: seq<Medicine>,
    history: seq<HistoryLog>,
    snoozeTimeout: Option<nat>,
    nextDoseTimeout: Option<nat>,
    timers: seq<Timer>,
    posted: seq<Medicine>)

  /** The worker's state when the script starts. */
  const Initial: WorkerState := WorkerState([], [], None, None, [], [])

  /** The state invariant: every stored time string passed the dashboard's pattern. */
  predicate Ready(s: WorkerState) {
    AllWellFormed(s.medicines)
  }

  /** What the page may send: an `UPDATE_DATA` carries only validated medicines, and
      a message of any other kind has a type other than the two handled ones. */
  predicate Acceptable(msg: Message) {
    && (msg.UpdateData? ==> AllWellFormed(msg.medicines.GetOr([])))
    && (msg.Other? ==> msg.kind != "UPDATE_DATA" && msg.kind != "SNOOZE")
  }

  /** `clearTimeout(handle)`: the timer stops being pending; an unknown or absent
      handle changes nothing. */
  function Cancel(timers: seq<Timer>, handle: Option<nat>): (r: seq<Timer>)
    ensures |r| == |timers|
    ensures forall h :: 0 <= h < |r| ==>
      r[h] == (if handle == Some(h) then timers[h].(live := false) else timers[h])
  {
    if handle.Some? && handle.value < |timers| then
      timers[handle.value := timers[handle.value].(live := false)]
    else timers
  }

  /** The timer `scheduleNextReminder` arms, if any: one for the closest dose among
      medicines not taken today, only when it lies strictly after `now`. */
  function Armed(meds: seq<Medicine>, history: seq<HistoryLog>, now: int): Option<Timer>
    requires AllWellFormed(meds)
  {
    match Closest(meds, history, now)
    case Some(c) => if c.time - now > 0 then Some(Timer(Natural, c.time, meds[c.index], true)) else None
    case None => None
  }

  /** The second half of `scheduleNextReminder()`: arm the `Armed` timer, if any, and
      store its handle. */
  function Arm(s: WorkerState, now: int): WorkerState
    requires Ready(s)
  {
    match Armed(s.medicines, s.history, now)
    case Some(t) => s.(timers := s.timers + [t], nextDoseTimeout := Some(|s.timers|))
    case None => s
  }

  /** `scheduleNextReminder()` at instant `now`: cancel both stored timers, then arm
      the `Armed` timer and store its handle. */
  function Scheduled(s: WorkerState, now: int): WorkerState
    requires Ready(s)
  {
    Arm(s.(timers := Cancel(Cancel(s.timers, s.nextDoseTimeout), s.snoozeTimeout)), now)
  }

  /** `self.onmessage` for one message received at instant `now`. */
  function Handled(s: WorkerState, msg: Message, now: int): WorkerState
    requires Ready(s) && Acceptable(msg)
  {
    match msg
    case UpdateData(meds, hist) =>
      Scheduled(s.(medicines := meds.GetOr([]), history := hist.GetOr([])), now)
    case Snooze(payload) =>
      var cleared := Cancel(s.timers, s.nextDoseTimeout);
      s.(timers := cleared + [Timer(Snoozed, now + SnoozeDelay, payload, true)],
         snoozeTimeout := Some(|cleared|))
    case Other(_) => s
  }

  /** The pending timer `handle` runs at instant `now`: it stops being pending, its
      payload is posted to the page, and the worker reschedules. */
  function Fired(s: WorkerState, handle: nat, now: int): WorkerState
    requires Ready(s) && handle < |s.timers| && s.timers[handle].live
  {
    var t := s.timers[handle];
    Scheduled(s.(timers := s.timers[handle := t.(live := false)], posted := s.posted + [t.payload]), now)
  }

  // ---- what scheduleNextReminder promises --------------------------------

  /** Every reschedule first cancels the stored natural timer and the stored snooze
      timer, leaves every other timer as it was, keeps the data, the snooze handle and
      the posted messages, and arms at most one new timer. */
  lemma ScheduledCancelsFirst(s: WorkerState, now: int)
    requires Ready(s)
    ensures var r := Scheduled(s, now);
      && r.medicines == s.medicines && r.history == s.history
      && r.snoozeTimeout == s.snoozeTimeout && r.posted == s.posted
      && |s.timers| <= |r.timers| <= |s.timers| + 1
      && (forall h :: 0 <= h < |s.timers| ==>
            r.timers[h].live == (s.timers[h].live && s.nextDoseTimeout != Some(h) && s.snoozeTimeout != Some(h)))
      && (forall h :: 0 <= h < |s.timers| ==> r.timers[h].(live := true) == s.timers[h].(live := true))
  {
  }

  /** The natural handle is kept when nothing is armed, and names the new pending
      natural timer otherwise. */
  lemma ScheduledStoresHandle(s: WorkerState, now: int)
    requires Ready(s)
    ensures var r := Scheduled(s, now);
      && (|r.timers| == |s.timers| ==> r.nextDoseTimeout == s.nextDoseTimeout)
      && (|r.timers| == |s.timers| + 1 ==>
            r.nextDoseTimeout == Some(|s.timers|) && r.timers[|s.timers|].live && r.timers[|s.timers|].kind == Natural)
  {
  }

  /** Any untaken medicine whose dose is not after `now`. */
  predicate DueAlready(s: WorkerState, now: int)
    requires Ready(s)
  {
    exists j :: 0 <= j < |s.medicines| && !TakenToday(s.history, s.medicines[j].id, Clock.DayOf(now))
      && NextDoseTime(s.medicines[j], now) <= now
  }

  /** The new timer, when there is one, is a pending natural timer for a medicine not
      taken today whose dose is after `now` and no later than that of any other
      untaken medicine, and the stored natural handle names it. No timer is armed
      exactly when every medicine (possibly none) was taken today, or when the
      closest untaken dose is not after `now`. */
  lemma ScheduledArms(s: WorkerState, now: int)
    requires Ready(s)
    ensures var r := Scheduled(s, now);
      var today := Clock.DayOf(now);
      && (|r.timers| == |s.timers| <==>
            (forall j :: 0 <= j < |s.medicines| ==> TakenToday(s.history, s.medicines[j].id, today))
            || DueAlready(s, now))
      && (|r.timers| == |s.timers| ==> r.nextDoseTimeout == s.nextDoseTimeout)
      && (|r.timers| == |s.timers| + 1 ==>
            var t := r.timers[|s.timers|];
            && t.kind == Natural && t.live && now < t.fireAt
            && r.nextDoseTimeout == Some(|s.timers|)
            && (exists i :: 0 <= i < |s.medicines| && s.medicines[i] == t.payload
                  && !TakenToday(s.history, s.medicines[i].id, today)
                  && t.fireAt == NextDoseTime(s.medicines[i], now)
                  && forall j :: 0 <= j < i && !TakenToday(s.history, s.medicines[j].id, today) ==>
                       t.fireAt < NextDoseTime(s.medicines[j], now))
            && (forall j :: 0 <= j < |s.medicines| && !TakenToday(s.history, s.medicines[j].id, today) ==>
                  t.fireAt <= NextDoseTime(s.medicines[j], now)))
  {
    ClosestSpec(s.medicines, s.history, now);
    var r := Scheduled(s, now);
    match Closest(s.medicines, s.history, now)
    case None =>
    case Some(c) =>
      if c.time - now > 0 {
        var t := r.timers[|s.timers|];
        assert s.medicines[c.index] == t.payload;
      } else {
        assert DueAlready(s, now) by {
          assert !TakenToday(s.history, s.medicines[c.index].id, Clock.DayOf(now));
        }
      }
  }

  /** A list with no medicines never arms a timer. */
  lemma EmptyListArmsNothing(s: WorkerState, now: int)
    requires s.medicines == []
    ensures |Scheduled(s, now).timers| == |s.timers|
  {
  }

  // ---- the natural timer is unique ------------------------------------------

  /** The stored handles name timers that exist. */
  predicate HandlesKnown(s: WorkerState) {
    && (s.nextDoseTimeout.Some? ==> s.nextDoseTimeout.value < |s.timers|)
    && (s.snoozeTimeout.Some? ==> s.snoozeTimeout.value < |s.timers|)
  }

  /** At most one natural timer is pending, and the stored natural handle names it. */
  predicate NaturalUnique(s: WorkerState) {
    && HandlesKnown(s)
    && forall h :: 0 <= h < |s.timers| && s.timers[h].live && s.timers[h].kind == Natural ==>
         s.nextDoseTimeout == Some(h)
  }

  lemma ScheduledKeepsNaturalUnique(s: WorkerState, now: int)
    requires Ready(s) && HandlesKnown(s)
    requires forall h :: 0 <= h < |s.timers| && s.timers[h].live && s.timers[h].kind == Natural ==>
      s.nextDoseTimeout == Some(h)
    ensures NaturalUnique(Scheduled(s, now))
  {
    ScheduledCancelsFirst(s, now);
    ScheduledStoresHandle(s, now);
  }

  /** Whatever message arrives and whichever pending timer runs, at most one natural
      timer stays pending. */
  lemma {:induction false} NaturalUniqueInvariant(s: WorkerState, msg: Message, handle: nat, now: int)
    requires Ready(s) && NaturalUnique(s)
    ensures Acceptable(msg) ==> NaturalUnique(Handled(s, msg, now))
    ensures handle < |s.timers| && s.timers[handle].live ==> NaturalUnique(Fired(s, handle, now))
  {
    NaturalUniqueInit();
    if Acceptable(msg) && msg.UpdateData? {
      ScheduledKeepsNaturalUnique(s.(medicines := msg.medicines.GetOr([]), history := msg.history.GetOr([])), now);
    }
    if handle < |s.timers| && s.timers[handle].live {
      var t := s.timers[handle];
      ScheduledKeepsNaturalUnique(s.(timers := s.timers[handle := t.(live := false)], posted := s.posted + [t.payload]), now);
    }
  }

  lemma NaturalUniqueInit()
    ensures NaturalUnique(Initial)
  {
  }

  // ---- UPDATE_DATA ----------------------------------------------------------

  /** The pending timers, without their handles, in the order they were armed. */
  function Pending(timers: seq<Timer>): (p: seq<Timer>)
    ensures forall k :: 0 <= k < |p| ==> p[k].live
    ensures forall t :: t in p <==> exists h :: 0 <= h < |timers| && timers[h] == t && t.live
  {
    if |timers| == 0 then []
    else Pending(timers[..|timers| - 1]) + (if timers[|timers| - 1].live then [timers[|timers| - 1]] else [])
  }

  lemma {:induction false} PendingSame(a: seq<Timer>, b: seq<Timer>)
    requires |a| == |b|
    requires forall k :: 0 <= k < |a| ==> a[k].live == b[k].live && (a[k].live ==> a[k] == b[k])
    ensures Pending(a) == Pending(b)
  {
    if |a| > 0 {
      PendingSame(a[..|a| - 1], b[..|b| - 1]);
    }
  }

  /** `UPDATE_DATA` replaces both lists wholesale (a missing field becomes empty)
      and reschedules; the posted messages and the snooze handle stay. */
  lemma UpdateDataReplaces(s: WorkerState, meds: Option<seq<Medicine>>, hist: Option<seq<HistoryLog>>, now: int)
    requires Ready(s) && AllWellFormed(meds.GetOr([]))
    ensures var r := Handled(s, UpdateData(meds, hist), now);
      && r.medicines == (if meds.Some? then meds.value else [])
      && r.history == (if hist.Some? then hist.value else [])
      && r.posted == s.posted && r.snoozeTimeout == s.snoozeTimeout
  {
  }

  lemma PendingAppend(a: seq<Timer>, t: Timer)
    ensures Pending(a + [t]) == Pending(a) + (if t.live then [t] else [])
  {
    assert (a + [t])[..|a|] == a;
  }

  /** Cancelling both handles after arming `armed` and then arming it again leaves
      the same pending timers as arming it once. */
  lemma RearmSamePending(a: seq<Timer>, next: Option<nat>, snooze: Option<nat>, armed: Option<Timer>)
    requires armed.Some? ==> armed.value.live
    ensures var cleared := Cancel(Cancel(a, next), snooze);
      var added := if armed.Some? then [armed.value] else [];
      var once := cleared + added;
      var next' := if armed.Some? then Some(|cleared|) else next;
      Pending(Cancel(Cancel(once, next'), snooze) + added) == Pending(once)
  {
    var cleared := Cancel(Cancel(a, next), snooze);
    if armed.Some? {
      RearmOne(a, cleared, snooze, armed.value);
    } else {
      assert Cancel(Cancel(cleared, next), snooze) == cleared;
      assert cleared + [] == cleared;
    }
  }

  lemma CancelLast(ts: seq<Timer>, t: Timer)
    ensures Cancel(ts + [t], Some(|ts|)) == ts + [t.(live := false)]
  {
  }

  /** Cancelling a timer that is not pending changes nothing. */
  lemma CancelDead(ts: seq<Timer>, handle: Option<nat>)
    requires handle.Some? && handle.value < |ts| ==> !ts[handle.value].live
    ensures Cancel(ts, handle) == ts
  {
    if handle.Some? && handle.value < |ts| {
      assert ts[handle.value].(live := false) == ts[handle.value];
    }
  }

  lemma RearmOne(a: seq<Timer>, cleared: seq<Timer>, snooze: Option<nat>, t: Timer)
    requires |cleared| == |a| && t.live
    requires snooze.Some? && snooze.value < |cleared| ==> !cleared[snooze.value].live
    ensures Pending(Cancel(Cancel(cleared + [t], Some(|a|)), snooze) + [t]) == Pending(cleared + [t])
  {
    CancelLast(cleared, t);
    CancelDead(cleared + [t.(live := false)], snooze);
    var again := Cancel(Cancel(cleared + [t], Some(|a|)), snooze);
    PendingAppend(cleared, t);
    PendingAppend(cleared, t.(live := false));
    PendingAppend(again, t);
  }

  /** Sending the same `UPDATE_DATA` twice at the same instant leaves the same pending
      timers (same kind, instant and payload) as sending it once. */
  lemma UpdateDataIdempotent(s: WorkerState, meds: Option<seq<Medicine>>, hist: Option<seq<HistoryLog>>, now: int)
    requires Ready(s) && AllWellFormed(meds.GetOr([]))
    ensures var once := Handled(s, UpdateData(meds, hist), now);
      var twice := Handled(once, UpdateData(meds, hist), now);
      && Pending(twice.timers) == Pending(once.timers)
      && twice.medicines == once.medicines && twice.history == once.history
      && twice.posted == once.posted && twice.snoozeTimeout == once.snoozeTimeout
  {
    var s0 := s.(medicines := meds.GetOr([]), history := hist.GetOr([]));
    var once := Scheduled(s0, now);
    assert once.(medicines := meds.GetOr([]), history := hist.GetOr([])) == once;
    var armed := Armed(s0.medicines, s0.history, now);
    var cleared := Cancel(Cancel(s.timers, s.nextDoseTimeout), s.snoozeTimeout);
    var added := if armed.Some? then [armed.value] else [];
    assert once.timers == cleared + added;
    assert once.nextDoseTimeout == if armed.Some? then Some(|cleared|) else s.nextDoseTimeout;
    assert Scheduled(once, now).timers == Cancel(Cancel(once.timers, once.nextDoseTimeout), s.snoozeTimeout) + added;
    RearmSamePending(s.timers, s.nextDoseTimeout, s.snoozeTimeout, armed);
  }

  // ---- SNOOZE ---------------------------------------------------------------

  /** `SNOOZE` cancels only the stored natural timer, arms a snooze timer five minutes
      on that carries the given payload unchanged (whether or not it is a current
      medicine), leaves every other timer, including an earlier snooze timer, as it
      was, and does not touch the data. */
  lemma SnoozeDefers(s: WorkerState, payload: Medicine, now: int)
    requires Ready(s)
    ensures var r := Handled(s, Snooze(payload), now);
      && r.medicines == s.medicines && r.history == s.history && r.posted == s.posted
      && r.nextDoseTimeout == s.nextDoseTimeout
      && |r.timers| == |s.timers| + 1
      && r.timers[|s.timers|] == Timer(Snoozed, now + 300000, payload, true)
      && r.snoozeTimeout == Some(|s.timers|)
      && (forall h :: 0 <= h < |s.timers| ==>
            r.timers[h] == if s.nextDoseTimeout == Some(h) then s.timers[h].(live := false) else s.timers[h])
  {
  }

  /** Any other message type changes nothing. */
  lemma OtherMessageIgnored(s: WorkerState, kind: string, now: int)
    requires Ready(s) && Acceptable(Other(kind))
    ensures Handled(s, Other(kind), now) == s
  {
  }

  /** A pending timer no stored handle names: no `clearTimeout` of the worker can
      reach it any more. */
  predicate Orphaned(s: WorkerState, h: nat) {
    && h < |s.timers| && s.timers[h].live
    && s.nextDoseTimeout != Some(h) && s.snoozeTimeout != Some(h)
  }

  /** Two `SNOOZE` messages in a row leave both snooze timers pending, and the first
      one is orphaned: its handle was overwritten by the second. */
  lemma BackToBackSnoozes(s: WorkerState, p: Medicine, q: Medicine, t1: int, t2: int)
    requires Ready(s) && HandlesKnown(s)
    ensures var r := Handled(Handled(s, Snooze(p), t1), Snooze(q), t2);
      && r.timers[|s.timers|] == Timer(Snoozed, t1 + SnoozeDelay, p, true)
      && r.timers[|s.timers| + 1] == Timer(Snoozed, t2 + SnoozeDelay, q, true)
      && Orphaned(r, |s.timers|)
  {
  }

  /** An orphaned timer stays pending whatever message arrives and whichever other
      timer runs: only its own firing ends it. */
  lemma OrphanStaysPending(s: WorkerState, h: nat, msg: Message, handle: nat, now: int)
    requires Ready(s) && Orphaned(s, h)
    ensures Acceptable(msg) ==> Orphaned(Handled(s, msg, now), h)
    ensures handle < |s.timers| && s.timers[handle].live && handle != h ==> Orphaned(Fired(s, handle, now), h)
  {
    if Acceptable(msg) && msg.UpdateData? {
      ScheduledCancelsFirst(s.(medicines := msg.medicines.GetOr([]), history := msg.history.GetOr([])), now);
    }
    if handle < |s.timers| && s.timers[handle].live && handle != h {
      var t := s.timers[handle];
      ScheduledCancelsFirst(s.(timers := s.timers[handle := t.(live := false)], posted := s.posted + [t.payload]), now);
    }
  }

  /** So after two snoozes and any `UPDATE_DATA`, the first snooze timer is still
      pending beside whatever the update armed. */
  lemma SnoozeOutlivesUpdate(s: WorkerState, p: Medicine, q: Medicine, meds: Option<seq<Medicine>>,
                             hist: Option<seq<HistoryLog>>, t1: int, t2: int, t3: int)
    requires Ready(s) && HandlesKnown(s) && AllWellFormed(meds.GetOr([]))
    ensures var r := Handled(Handled(Handled(s, Snooze(p), t1), Snooze(q), t2), UpdateData(meds, hist), t3);
      Orphaned(r, |s.timers|) && r.timers[|s.timers|].payload == p
  {
    var r2 := Handled(Handled(s, Snooze(p), t1), Snooze(q), t2);
    BackToBackSnoozes(s, p, q, t1, t2);
    OrphanStaysPending(r2, |s.timers|, UpdateData(meds, hist), 0, t3);
  }

  // ---- the snooze that cancels the earlier snooze --------------------------

  /** `onmessage` with `SNOOZE` also clearing the stored snooze timer, as every other
      arming path of the worker does. */
  function HandledSingle(s: WorkerState, msg: Message, now: int): WorkerState
    requires Ready(s) && Acceptable(msg)
  {
    match msg
    case Snooze(payload) =>
      var cleared := Cancel(Cancel(s.timers, s.nextDoseTimeout), s.snoozeTimeout);
      s.(timers := cleared + [Timer(Snoozed, now + SnoozeDelay, payload, true)],
         snoozeTimeout := Some(|cleared|))
    case _ => Handled(s, msg, now)
  }

  /** At most one timer of either kind is pending, and a stored handle names it. */
  predicate SingleTimer(s: WorkerState) {
    && HandlesKnown(s)
    && (forall h :: 0 <= h < |s.timers| && s.timers[h].live ==>
          s.nextDoseTimeout == Some(h) || s.snoozeTimeout == Some(h))
    && (forall h1, h2 :: 0 <= h1 < |s.timers| && 0 <= h2 < |s.timers| && s.timers[h1].live && s.timers[h2].live ==> h1 == h2)
  }

  /** Every pending timer is named by a stored handle. */
  predicate AllNamed(s: WorkerState) {
    forall h :: 0 <= h < |s.timers| && s.timers[h].live ==> s.nextDoseTimeout == Some(h) || s.snoozeTimeout == Some(h)
  }

  /** Cancelling both stored timers, when they name every pending timer, leaves none
      pending. */
  lemma CancelBothClears(s: WorkerState)
    requires AllNamed(s)
    ensures var cleared := Cancel(Cancel(s.timers, s.nextDoseTimeout), s.snoozeTimeout);
      |cleared| == |s.timers| && forall h :: 0 <= h < |cleared| ==> !cleared[h].live
  {
  }

  /** A table with nothing pending and one timer appended satisfies `SingleTimer`
      when the appended timer's handle is stored. */
  lemma AppendedSingle(s: WorkerState)
    requires |s.timers| > 0 && HandlesKnown(s)
    requires forall h :: 0 <= h < |s.timers| - 1 ==> !s.timers[h].live
    requires s.nextDoseTimeout == Some(|s.timers| - 1) || s.snoozeTimeout == Some(|s.timers| - 1)
    ensures SingleTimer(s)
  {
  }

  lemma ScheduledSingle(s: WorkerState, now: int)
    requires Ready(s) && HandlesKnown(s) && AllNamed(s)
    ensures SingleTimer(Scheduled(s, now))
  {
    ScheduledCancelsFirst(s, now);
    ScheduledStoresHandle(s, now);
    var r := Scheduled(s, now);
    assert forall h :: 0 <= h < |s.timers| ==> !r.timers[h].live;
    if |r.timers| > |s.timers| {
      AppendedSingle(r);
    }
  }

  lemma SnoozeSingle(s: WorkerState, payload: Medicine, now: int)
    requires Ready(s) && SingleTimer(s)
    ensures SingleTimer(HandledSingle(s, Snooze(payload), now))
  {
    CancelBothClears(s);
    AppendedSingle(HandledSingle(s, Snooze(payload), now));
  }

  /** With the corrected snooze, at most one timer is ever pending: every message and
      every firing keeps `SingleTimer`, which holds of the initial state. */
  lemma {:induction false} SingleTimerInvariant(s: WorkerState, msg: Message, handle: nat, now: int)
    requires Ready(s) && SingleTimer(s)
    ensures SingleTimer(Initial)
    ensures Acceptable(msg) ==> SingleTimer(HandledSingle(s, msg, now))
    ensures handle < |s.timers| && s.timers[handle].live ==> SingleTimer(Fired(s, handle, now))
  {
    if Acceptable(msg) {
      match msg
      case UpdateData(meds, hist) =>
        ScheduledSingle(s.(medicines := meds.GetOr([]), history := hist.GetOr([])), now);
      case Snooze(payload) =>
        SnoozeSingle(s, payload, now);
      case Other(_) =>
    }
    if handle < |s.timers| && s.timers[handle].live {
      var t := s.timers[handle];
      ScheduledSingle(s.(timers := s.timers[handle := t.(live := false)], posted := s.posted + [t.payload]), now);
    }
  }

  // ---- firing ---------------------------------------------------------------

  /** A firing posts exactly the timer's payload, after the earlier posts, and the
      timer is no longer pending. */
  lemma FiredPosts(s: WorkerState, handle: nat, now: int)
    requires Ready(s) && handle < |s.timers| && s.timers[handle].live
    ensures var r := Fired(s, handle, now);
      r.posted == s.posted + [s.timers[handle].payload] && !r.timers[handle].live
      && r.medicines == s.medicines && r.history == s.history
  {
  }

  /** A dose instant is its own next dose: at the very instant a dose is due, the
      calculator returns that instant again. */
  lemma NextDoseAtDoseInstant(med: Medicine, now: int)
    requires WellFormed(med)
    ensures NextDoseTime(med, NextDoseTime(med, now)) == NextDoseTime(med, now)
  {
    var r := NextDoseTime(med, now);
    var d := Clock.DayOf(r);
    if med.frequency == Daily {
      DailyNextDose(med, now);
    } else {
      WeeklyNextDose(med, now);
      DaysUntilSunday(d);
    }
    InstantIsDoseOn(med, r);
  }

  /** A natural timer that runs exactly at its instant, for a medicine still in the
      list and not taken, makes the reschedule pick that same dose with delay 0: no
      timer is armed, so no later dose of any medicine is scheduled until the next
      `UPDATE_DATA`. */
  lemma OnTimeFireArmsNothing(s: WorkerState, handle: nat, i: nat, before: int)
    requires Ready(s) && handle < |s.timers| && s.timers[handle].live
    requires i < |s.medicines| && s.timers[handle].payload == s.medicines[i]
    requires s.timers[handle].fireAt == NextDoseTime(s.medicines[i], before)
    requires !TakenToday(s.history, s.medicines[i].id, Clock.DayOf(s.timers[handle].fireAt))
    ensures |Fired(s, handle, s.timers[handle].fireAt).timers| == |s.timers|
  {
    var now := s.timers[handle].fireAt;
    var t := s.timers[handle];
    var s1 := s.(timers := s.timers[handle := t.(live := false)], posted := s.posted + [t.payload]);
    NextDoseAtDoseInstant(s.medicines[i], before);
    assert DueAlready(s1, now);
    ScheduledArms(s1, now);
  }

  // ---- the reschedule after a reminder, corrected ------------------------------

  /** A medicine's next dose strictly after `now` (the first one at or after the next
      millisecond): a dose due exactly now counts as passed. */
  function NextDoseAfter(med: Medicine, now: int): (r: int)
    requires WellFormed(med)
    ensures now < r
    ensures Clock.MsOfDay(r) == DoseMsOfDay(med)
  {
    NextDoseAfterBounds(med, now);
    NextDoseTime(med, now + 1)
  }

  lemma NextDoseAfterBounds(med: Medicine, now: int)
    requires WellFormed(med)
    ensures now < NextDoseTime(med, now + 1) && Clock.MsOfDay(NextDoseTime(med, now + 1)) == DoseMsOfDay(med)
  {
    if med.frequency == Daily {
      DailyNextDose(med, now + 1);
    } else {
      WeeklyNextDose(med, now + 1);
    }
  }

  /** Candidate instant of each medicine under the correction: none for a medicine
      taken today. */
  function CandidatesAfter(meds: seq<Medicine>, history: seq<HistoryLog>, now: int): (c: seq<Option<int>>)
    requires AllWellFormed(meds)
    ensures |c| == |meds|
  {
    seq(|meds|, i requires 0 <= i < |meds| =>
      if TakenToday(history, meds[i].id, Clock.DayOf(now)) then None else Some(NextDoseAfter(meds[i], now)))
  }

  /** The corrected choice: the closest dose strictly after `now` among medicines not
      taken today, first in list order on ties. */
  function ClosestAfter(meds: seq<Medicine>, history: seq<HistoryLog>, now: int): Option<Choice>
    requires AllWellFormed(meds)
  {
    FirstEarliest(CandidatesAfter(meds, history, now))
  }

  /** The corrected choice picks nothing exactly when every medicine was taken today;
      otherwise an untaken medicine whose later dose is no later than any other's. */
  lemma ClosestAfterSpec(meds: seq<Medicine>, history: seq<HistoryLog>, now: int)
    requires AllWellFormed(meds)
    ensures var today := Clock.DayOf(now);
      match ClosestAfter(meds, history, now)
      case None => forall j :: 0 <= j < |meds| ==> TakenToday(history, meds[j].id, today)
      case Some(c) =>
        && c.index < |meds|
        && !TakenToday(history, meds[c.index].id, today)
        && c.time == NextDoseAfter(meds[c.index], now)
        && (forall j :: 0 <= j < |meds| && !TakenToday(history, meds[j].id, today) ==> c.time <= NextDoseAfter(meds[j], now))
  {
    var cands := CandidatesAfter(meds, history, now);
    match ClosestAfter(meds, history, now)
    case None =>
      forall j | 0 <= j < |meds| ensures TakenToday(history, meds[j].id, Clock.DayOf(now)) {
        assert cands[j].None?;
      }
    case Some(c) =>
      forall j | 0 <= j < |meds| && !TakenToday(history, meds[j].id, Clock.DayOf(now))
        ensures c.time <= NextDoseAfter(meds[j], now)
      {
        assert cands[j].Some?;
      }
  }

  /** `scheduleNextReminder()` with the corrected choice; its `delay` is then always
      positive. */
  function ScheduledAfter(s: WorkerState, now: int): WorkerState
    requires Ready(s)
  {
    var cleared := Cancel(Cancel(s.timers, s.nextDoseTimeout), s.snoozeTimeout);
    match ClosestAfter(s.medicines, s.history, now)
    case Some(c) => s.(timers := cleared + [Timer(Natural, c.time, s.medicines[c.index], true)],
                       nextDoseTimeout := Some(|cleared|))
    case None => s.(timers := cleared)
  }

  /** A timer callback followed by the corrected reschedule. */
  function FiredAfter(s: WorkerState, handle: nat, now: int): WorkerState
    requires Ready(s) && handle < |s.timers| && s.timers[handle].live
  {
    var t := s.timers[handle];
    ScheduledAfter(s.(timers := s.timers[handle := t.(live := false)], posted := s.posted + [t.payload]), now)
  }

  /** The corrected reschedule arms a timer exactly when some medicine was not taken
      today; the timer is a pending natural one, after `now`, at the next later dose of
      an untaken medicine, no later than that of any other untaken medicine. */
  lemma ScheduledAfterArms(s: WorkerState, now: int)
    requires Ready(s)
    ensures var r := ScheduledAfter(s, now);
      var today := Clock.DayOf(now);
      && |s.timers| <= |r.timers| <= |s.timers| + 1
      && (|r.timers| == |s.timers| + 1 <==>
            exists j :: 0 <= j < |s.medicines| && !TakenToday(s.history, s.medicines[j].id, today))
      && (|r.timers| == |s.timers| + 1 ==>
            var t := r.timers[|s.timers|];
            && t.kind == Natural && t.live && now < t.fireAt
            && r.nextDoseTimeout == Some(|s.timers|)
            && (exists i :: 0 <= i < |s.medicines| && s.medicines[i] == t.payload
                  && !TakenToday(s.history, s.medicines[i].id, today)
                  && t.fireAt == NextDoseAfter(s.medicines[i], now))
            && (forall j :: 0 <= j < |s.medicines| && !TakenToday(s.history, s.medicines[j].id, today) ==>
                  t.fireAt <= NextDoseAfter(s.medicines[j], now)))
  {
    ClosestAfterSpec(s.medicines, s.history, now);
    var r := ScheduledAfter(s, now);
    match ClosestAfter(s.medicines, s.history, now)
    case None =>
    case Some(c) =>
      var t := r.timers[|s.timers|];
      assert s.medicines[c.index] == t.payload;
  }

  /** With the correction, the reminder for a dose that runs exactly on time is
      followed by a new timer: the medicine it reminded of is still untaken. */
  lemma OnTimeFireRearms(s: WorkerState, handle: nat, i: nat, before: int)
    requires Ready(s) && handle < |s.timers| && s.timers[handle].live
    requires i < |s.medicines| && s.timers[handle].payload == s.medicines[i]
    requires s.timers[handle].fireAt == NextDoseTime(s.medicines[i], before)
    requires !TakenToday(s.history, s.medicines[i].id, Clock.DayOf(s.timers[handle].fireAt))
    ensures var now := s.timers[handle].fireAt;
      var r := FiredAfter(s, handle, now);
      && |r.timers| == |s.timers| + 1
      && r.timers[|s.timers|].live && now < r.timers[|s.timers|].fireAt
  {
    var now := s.timers[handle].fireAt;
    var t := s.timers[handle];
    var s1 := s.(timers := s.timers[handle := t.(live := false)], posted := s.posted + [t.payload]);
    ScheduledAfterArms(s1, now);
  }

  /** The `forEach` of `scheduleNextReminder`: skip the medicines taken today and
      keep the first strictly earliest next dose of the others. */
  method FindClosest(meds: seq<Medicine>, history: seq<HistoryLog>, now: int)
    returns (closestDose: Option<int>, closestMed: Option<Medicine>)
    requires AllWellFormed(meds)
    ensures match Closest(meds, history, now)
      case None => closestDose == None && closestMed == None
      case Some(c) => closestDose == Some(c.time) && closestMed == Some(meds[c.index])
    ensures Armed(meds, history, now)
      == if closestDose.Some? && closestMed.Some? && closestDose.value - now > 0
         then Some(Timer(Natural, closestDose.value, closestMed.value, true)) else None
  {
    closestDose, closestMed := None, None;
    ghost var cands := Candidates(meds, history, now);
    ghost var best: Option<Choice> := None;
    var i := 0;
    while i < |meds|
      invariant 0 <= i <= |meds|
      invariant best == FirstEarliest(cands[..i])
      invariant best.None? ==> closestDose.None? && closestMed.None?
      invariant best.Some? ==> closestDose == Some(best.value.time) && closestMed == Some(meds[best.value.index])
    {
      FirstEarliestStep(cands, i);
      var med := meds[i];
      if !TakenToday(history, med.id, Clock.DayOf(now)) {
        var nextTime := NextDoseTime(med, now);
        if closestDose.None? || nextTime < closestDose.value {
          closestDose, closestMed := Some(nextTime), Some(med);
          best := Some(Choice(i, nextTime));
        }
      }
      i := i + 1;
    }
    assert cands[..i] == cands;
  }

  class Worker {
    var medicines: seq<Medicine>
    var history: seq<HistoryLog>
    var snoozeTimeout: Option<nat>
    var nextDoseTimeout: Option<nat>
    var timers: seq<Timer>
    var posted: seq<Medicine>

    ghost function State(): WorkerState
      reads this
    {
      WorkerState(medicines, history, snoozeTimeout, nextDoseTimeout, timers, posted)
    }

    ghost predicate Valid()
      reads this
    {
      Ready(State())
    }

    constructor ()
      ensures Valid() && State() == Initial
    {
      medicines, history := [], [];
      snoozeTimeout, nextDoseTimeout := None, None;
      timers, posted := [], [];
    }

    /** `clearTimeout(handle)` */
    method ClearTimeout(handle: Option<nat>)
      modifies this
      ensures State() == old(State()).(timers := Cancel(old(timers), handle))
    {
      if handle.Some? && handle.value < |timers| {
        timers := timers[handle.value := timers[handle.value].(live := false)];
      }
    }

    /** `setTimeout(callback, delay)`: a new pending timer, whose handle is returned. */
    method SetTimeout(kind: TimerKind, delay: int, payload: Medicine, now: int) returns (handle: nat)
      modifies this
      ensures handle == |old(timers)|
      ensures State() == old(State()).(timers := old(timers) + [Timer(kind, now + delay, payload, true)])
    {
      handle := |timers|;
      timers := timers + [Timer(kind, now + delay, payload, true)];
    }

    /** `scheduleNextReminder()`, with the clock reading `now`. */
    method ScheduleNextReminder(now: int)
      requires Valid()
      modifies this
      ensures Valid() && State() == Scheduled(old(State()), now)
    {
      ghost var s := State();
      if nextDoseTimeout.Some? {
        ClearTimeout(nextDoseTimeout);
      }
      if snoozeTimeout.Some? {
        ClearTimeout(snoozeTimeout);
      }
      assert State() == s.(timers := Cancel(Cancel(s.timers, s.nextDoseTimeout), s.snoozeTimeout));
      ArmClosest(now);
    }

    /** The rest of `scheduleNextReminder()`: find the closest untaken dose and arm a
        timer for it when it lies in the future. */
    method ArmClosest(now: int)
      requires Valid()
      modifies this
      ensures Valid() && State() == Arm(old(State()), now)
    {
      var closestDose, closestMed := FindClosest(medicines, history, now);
      if closestDose.Some? && closestMed.Some? {
        var delay := closestDose.value - now;
        if delay > 0 {
          var handle := SetTimeout(Natural, delay, closestMed.value, now);
          nextDoseTimeout := Some(handle);
        }
      }
    }

    /** `self.onmessage` for a message received at instant `now`. */
    method OnMessage(msg: Message, now: int)
      requires Valid() && Acceptable(msg)
      modifies this
      ensures Valid() && State() == Handled(old(State()), msg, now)
    {
      match msg
      case UpdateData(meds, hist) =>
        medicines := meds.GetOr([]);
        history := hist.GetOr([]);
        ScheduleNextReminder(now);
      case Snooze(payload) =>
        if nextDoseTimeout.Some? {
          ClearTimeout(nextDoseTimeout);
        }
        var handle := SetTimeout(Snoozed, SnoozeDelay, payload, now);
        snoozeTimeout := Some(handle);
      case Other(_) =>
    }

    /** The host runs pending timer `handle` at instant `now`, no earlier than it was
        armed for: `postMessage(payload)` then `scheduleNextReminder()`. */
    method Fire(handle: nat, now: int)
      requires Valid() && handle < |timers| && timers[handle].live && timers[handle].fireAt <= now
      modifies this
      ensures Valid() && State() == Fired(old(State()), handle, now)
    {
      var t := timers[handle];
      timers := timers[handle := t.(live := false)];
      posted := posted + [t.payload];
      ScheduleNextReminder(now);
    }
  }
}
