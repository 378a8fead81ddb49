/**
 * The reminder task: the due decision made for each habit, the pass over all
 * users and their habits that dispatches a notification for each due habit,
 * and the notification itself, which renders the reminder text and stamps
 * `last_notification`.
 *
 * The clock is a parameter: `clock(k)` is what `datetime.now()` returns at the
 * k-th habit evaluation of a pass (the source reads the clock once per habit).
 * The Telegram request and the task queue are not modelled.
 */
module Tasks {
  import opened Wrappers
  import opened Temporal
  import opened Text
  import opened Models

  // ---------------------------------------------------------------------------
  // The due decision

  /** Python values on the two sides of the source's time comparison. */
  datatype PyValue = PyTime(t: TimeOfDay) | PyDateTime(dt: DateTime)

  /**
   * Python `==`. A `time` and a `datetime` never compare equal: each type's
   * `__eq__` returns NotImplemented for the other and `==` falls back to identity.
   */
  predicate PyEquals(a: PyValue, b: PyValue)
    ensures PyEquals(a, b) <==> a == b
    ensures a.PyTime? != b.PyTime? ==> !PyEquals(a, b)
  {
    match (a, b)
    case (PyTime(x), PyTime(y)) => x == y
    case (PyDateTime(x), PyDateTime(y)) => x == y
    case _ => false
  }

  /** `last_note is None or last_note.date() < day`. */
  predicate NotifiedBefore(lastNote: Option<DateTime>, day: int)
  {
    lastNote.None? || lastNote.value.date < day
  }

  /** The evident intent of `start_time == now`: the same hour and minute. */
  predicate TimeMatches(habitTime: TimeOfDay, nowTime: TimeOfDay)
  {
    TruncateTime(habitTime) == TruncateTime(nowTime)
  }

  /** The day before which the last notification must fall: today, or today minus 7 for weekly habits. */
  function Threshold(periodicity: string, now: DateTime): int
  {
    if periodicity == Weekly then MinusDays(now, 7).date else now.date
  }

  /**
   * Whether a reminder is due for `h` at clock reading `reading`, with the
   * time comparison as intended (same hour and minute). A periodicity that is
   * neither 'daily' nor 'weekly' is never due.
   */
  predicate Due(h: Habit, reading: DateTime)
    ensures Due(h, reading) <==>
      (h.periodicity == Daily || h.periodicity == Weekly)
      && NotifiedBefore(h.lastNotification,
                        if h.periodicity == Daily then reading.date else reading.date - 7)
      && h.time.hour == reading.time.hour && h.time.minute == reading.time.minute
  {
    var now := Truncate(reading);
    var startTime := TruncateTime(h.time);
    IsPeriodicityChoice(h.periodicity)
    && NotifiedBefore(h.lastNotification, Threshold(h.periodicity, now))
    && TimeMatches(startTime, now.time)
  }

  /**
   * The decision exactly as the source writes it: `start_time` is a `time`
   * (the column is a TimeField) and `now` a `datetime`, so the comparison is
   * between two different types.
   */
  predicate DueAsWritten(h: Habit, reading: DateTime)
    ensures !DueAsWritten(h, reading)
  {
    var now := Truncate(reading);
    var startTime := TruncateTime(h.time);
    if h.periodicity == Daily then
      NotifiedBefore(h.lastNotification, now.date) && PyEquals(PyTime(startTime), PyDateTime(now))
    else if h.periodicity == Weekly then
      NotifiedBefore(h.lastNotification, MinusDays(now, 7).date) && PyEquals(PyTime(startTime), PyDateTime(now))
    else
      false
  }

  /** A daily habit at 09:00, never notified, read at 09:00: intended due, as written not. */
  lemma DueAsWrittenMissesDailyReminder(today: int)
    ensures
      var h := NewHabit(Some(1), TimeOfDay(9, 0, 0, 0));
      var reading := DateTime(today, TimeOfDay(9, 0, 0, 0));
      Due(h, reading) && !DueAsWritten(h, reading)
  {
  }

  /** A daily habit never notified is due exactly at its minute. */
  lemma DailyNeverNotified(h: Habit, reading: DateTime)
    requires h.periodicity == Daily && h.lastNotification.None?
    ensures Due(h, reading) <==> TimeMatches(h.time, reading.time)
  {
  }

  /** A daily habit notified today is not due again today, whatever the time. */
  lemma DailyNotifiedToday(h: Habit, reading: DateTime)
    requires h.periodicity == Daily && h.lastNotification.Some?
    requires h.lastNotification.value.date == reading.date
    ensures !Due(h, reading)
  {
  }

  /** A weekly habit is due only when notified strictly before today minus 7 days. */
  lemma WeeklyThreshold(h: Habit, reading: DateTime, t: DateTime)
    requires h.periodicity == Weekly && h.lastNotification == Some(t)
    ensures Due(h, reading) <==> t.date < reading.date - 7 && TimeMatches(h.time, reading.time)
    ensures t.date == reading.date - 7 ==> !Due(h, reading)
    ensures t.date <= reading.date - 8 && TimeMatches(h.time, reading.time) ==> Due(h, reading)
  {
  }

  /** Weekly is never more permissive than daily. */
  lemma WeeklyImpliesDaily(h: Habit, reading: DateTime)
    requires h.periodicity == Weekly
    ensures Due(h, reading) ==> Due(h.(periodicity := Daily), reading)
  {
  }

  /** Any other periodicity is never due. */
  lemma OtherPeriodicityNeverDue(h: Habit, reading: DateTime)
    requires h.periodicity != Daily && h.periodicity != Weekly
    ensures !Due(h, reading)
  {
  }

  /** Seconds and microseconds do not matter: two readings in the same minute decide alike. */
  lemma SameMinuteSameDecision(h: Habit, r1: DateTime, r2: DateTime)
    requires Truncate(r1) == Truncate(r2)
    ensures Due(h, r1) == Due(h, r2)
  {
  }

  /** Days after a notification during which a habit stays quiet. */
  function QuietDays(periodicity: string): int
  {
    if periodicity == Weekly then 7 else 0
  }

  /**
   * Once notified at `sentAt`, a habit is next due on the first matching
   * minute more than `QuietDays` days after the notification's date.
   */
  lemma DueAfterNotification(h: Habit, sentAt: DateTime, reading: DateTime)
    requires IsPeriodicityChoice(h.periodicity)
    ensures Due(h.(lastNotification := Some(sentAt)), reading) <==>
              reading.date > sentAt.date + QuietDays(h.periodicity) && TimeMatches(h.time, reading.time)
  {
  }

  /** Idempotence: stamped at or after the reading's date, the habit is not due at that reading. */
  lemma StampedNotDue(h: Habit, sentAt: DateTime, reading: DateTime)
    requires sentAt.date >= reading.date
    ensures !Due(h.(lastNotification := Some(sentAt)), reading)
  {
  }

  // ---------------------------------------------------------------------------
  // The reminder text

  const ReminderHead: string := "Напоминание:\n\n - необходимо выполнить привычку '"
  const ReminderMiddle: string := "' за: "
  const ReminderTail: string := " секунд."

  /** Each of five concatenated parts sits at its own offset. */
  lemma ConcatParts(p1: string, p2: string, p3: string, p4: string, p5: string)
    ensures
      var s := p1 + p2 + p3 + p4 + p5;
      var start := |p1| + |p2| + |p3|;
      && |s| == start + |p4| + |p5|
      && s[..|p1|] == p1
      && s[|p1|..|p1| + |p2|] == p2
      && s[|p1| + |p2|..start] == p3
      && s[start..start + |p4|] == p4
      && s[start + |p4|..] == p5
  {
    var s := p1 + p2 + p3 + p4 + p5;
    assert s == (p1 + p2) + (p3 + p4 + p5);
    assert s == (p1 + p2 + p3) + (p4 + p5);
  }

  /** The message sent for a habit: its action and its execution time, as f-string fields. */
  function ReminderText(action: Option<string>, executionTime: Option<int>): (msg: string)
    ensures
      var a, n := OptionalText(action), OptionalIntText(executionTime);
      var start := |ReminderHead| + |a| + |ReminderMiddle|;
      && |msg| == start + |n| + |ReminderTail|
      && msg[..|ReminderHead|] == ReminderHead
      && msg[|ReminderHead|..|ReminderHead| + |a|] == a
      && msg[|ReminderHead| + |a|..start] == ReminderMiddle
      && msg[start..start + |n|] == n
      && msg[start + |n|..] == ReminderTail
  {
    ConcatParts(ReminderHead, OptionalText(action), ReminderMiddle, OptionalIntText(executionTime), ReminderTail);
    ReminderHead + OptionalText(action) + ReminderMiddle + OptionalIntText(executionTime) + ReminderTail
  }

  /** The action and a non-negative execution time can be read back from the message. */
  lemma ReminderTextReadsBack(action: string, seconds: nat)
    ensures
      var msg := ReminderText(Some(action), Some(seconds));
      var start := |ReminderHead| + |action| + |ReminderMiddle|;
      var end := |msg| - |ReminderTail|;
      && msg[|ReminderHead|..|ReminderHead| + |action|] == action
      && start <= end
      && AllDigits(msg[start..end]) && DecimalValue(msg[start..end]) == seconds
  {
  }

  // ---------------------------------------------------------------------------
  // The pass over users and habits

  /** One habit looked at by the pass, and the clock reading it was judged at. */
  datatype Evaluation = Evaluation(habit: HabitId, at: DateTime)

  /** `send_notification.delay(habit, execution_time)`: the habit travels as a snapshot. */
  datatype Dispatch = Dispatch(habit: HabitId, snapshot: Habit, executionTime: Option<int>)

  function EvaluatedHabits(evals: seq<Evaluation>): (ids: seq<HabitId>)
    ensures |ids| == |evals| && forall k :: 0 <= k < |evals| ==> ids[k] == evals[k].habit
  {
    seq(|evals|, k requires 0 <= k < |evals| => evals[k].habit)
  }

  function DispatchedHabits(ds: seq<Dispatch>): (ids: seq<HabitId>)
    ensures |ids| == |ds| && forall j :: 0 <= j < |ds| ==> ids[j] == ds[j].habit
  {
    seq(|ds|, j requires 0 <= j < |ds| => ds[j].habit)
  }

  ghost predicate Distinct<T>(s: seq<T>)
  {
    forall i, j :: 0 <= i < j < |s| ==> s[i] != s[j]
  }

  lemma DistinctConcat<T>(a: seq<T>, b: seq<T>)
    requires Distinct(a) && Distinct(b)
    requires forall x :: x in b ==> x !in a
    ensures Distinct(a + b)
  {
    forall i, j | 0 <= i < j < |a + b|
      ensures (a + b)[i] != (a + b)[j]
    {
      if j >= |a| && i < |a| {
        assert (a + b)[j] == b[j - |a|] && b[j - |a|] in b;
      }
    }
  }

  /** The habits owned by any of `users`. */
  function OwnedByAny(rows: map<HabitId, Habit>, users: seq<UserId>): (ids: set<HabitId>)
    ensures forall k :: k in ids <==> k in rows && rows[k].user.Some? && rows[k].user.value in users
  {
    set k | k in rows && rows[k].user.Some? && rows[k].user.value in users
  }

  /** The dispatches a sequence of evaluations produces, in evaluation order. */
  function DueOnly(rows: map<HabitId, Habit>, evals: seq<Evaluation>): (r: seq<Dispatch>)
    requires forall k :: 0 <= k < |evals| ==> evals[k].habit in rows
    ensures |r| <= |evals|
    ensures forall j :: 0 <= j < |r| ==>
              && r[j].habit in rows && r[j].snapshot == rows[r[j].habit]
              && r[j].executionTime == r[j].snapshot.executionTime
              && IsPeriodicityChoice(r[j].snapshot.periodicity)
    decreases |evals|
  {
    if evals == [] then []
    else
      var init := DueOnly(rows, evals[..|evals| - 1]);
      var e := evals[|evals| - 1];
      var h := rows[e.habit];
      if Due(h, e.at) then init + [Dispatch(e.habit, h, h.executionTime)] else init
  }

  /** Every evaluation that found its habit due produced a dispatch of it. */
  lemma {:induction false} DueOnlyComplete(rows: map<HabitId, Habit>, evals: seq<Evaluation>, k: nat)
    requires forall i :: 0 <= i < |evals| ==> evals[i].habit in rows
    requires k < |evals| && Due(rows[evals[k].habit], evals[k].at)
    ensures evals[k].habit in DispatchedHabits(DueOnly(rows, evals))
    decreases |evals|
  {
    var init := evals[..|evals| - 1];
    if k < |evals| - 1 {
      DueOnlyComplete(rows, init, k);
      var j :| 0 <= j < |DueOnly(rows, init)| && DueOnly(rows, init)[j].habit == evals[k].habit;
      assert DueOnly(rows, evals)[j] == DueOnly(rows, init)[j];
    } else {
      var r := DueOnly(rows, evals);
      assert r[|r| - 1].habit == evals[k].habit;
    }
  }

  /** Every dispatch comes from an evaluation that found its habit due. */
  lemma {:induction false} DueOnlySound(rows: map<HabitId, Habit>, evals: seq<Evaluation>, j: nat)
    requires forall i :: 0 <= i < |evals| ==> evals[i].habit in rows
    requires j < |DueOnly(rows, evals)|
    ensures exists k :: 0 <= k < |evals| && evals[k].habit == DueOnly(rows, evals)[j].habit
                        && Due(rows[evals[k].habit], evals[k].at)
    decreases |evals|
  {
    var init := evals[..|evals| - 1];
    if j < |DueOnly(rows, init)| {
      DueOnlySound(rows, init, j);
      var k :| 0 <= k < |init| && init[k].habit == DueOnly(rows, init)[j].habit
               && Due(rows[init[k].habit], init[k].at);
      assert evals[k] == init[k];
    } else {
      assert Due(rows[evals[|evals| - 1].habit], evals[|evals| - 1].at);
    }
  }

  /**
   * Idempotence across passes: a pass whose clock readings all fall on or
   * before `day` dispatches no habit whose last notification is dated `day`
   * or later; in particular, none it already notified that day.
   */
  lemma NoRepeatSameDay(rows: map<HabitId, Habit>, evals: seq<Evaluation>, day: int)
    requires forall i :: 0 <= i < |evals| ==> evals[i].habit in rows && evals[i].at.date <= day
    ensures forall j :: 0 <= j < |DueOnly(rows, evals)| ==>
              NotifiedBefore(DueOnly(rows, evals)[j].snapshot.lastNotification, day)
  {
    forall j | 0 <= j < |DueOnly(rows, evals)|
      ensures NotifiedBefore(DueOnly(rows, evals)[j].snapshot.lastNotification, day)
    {
      DueOnlySound(rows, evals, j);
    }
  }

  /** Dispatching is decided evaluation by evaluation, so it distributes over concatenation. */
  lemma {:induction false} DueOnlyAppend(rows: map<HabitId, Habit>, a: seq<Evaluation>, b: seq<Evaluation>)
    requires forall k :: 0 <= k < |a| ==> a[k].habit in rows
    requires forall k :: 0 <= k < |b| ==> b[k].habit in rows
    ensures forall k :: 0 <= k < |a + b| ==> (a + b)[k].habit in rows
    ensures DueOnly(rows, a + b) == DueOnly(rows, a) + DueOnly(rows, b)
    decreases |b|
  {
    if b != [] {
      var b' := b[..|b| - 1];
      assert (a + b)[..|a + b| - 1] == a + b';
      DueOnlyAppend(rows, a, b');
    } else {
      assert a + b == a;
    }
  }

  /** One more evaluation adds one dispatch when its habit is due and none otherwise. */
  lemma DueOnlySnoc(rows: map<HabitId, Habit>, evals: seq<Evaluation>, e: Evaluation)
    requires forall k :: 0 <= k < |evals| ==> evals[k].habit in rows
    requires e.habit in rows
    ensures forall k :: 0 <= k < |evals + [e]| ==> (evals + [e])[k].habit in rows
    ensures DueOnly(rows, evals + [e]) ==
              DueOnly(rows, evals) + if Due(rows[e.habit], e.at) then [Dispatch(e.habit, rows[e.habit], rows[e.habit].executionTime)] else []
  {
    assert (evals + [e])[..|evals|] == evals;
  }

  /** Evaluating one habit of those remaining moves it from `remaining` to the evaluated ones. */
  lemma RemindStep(habits: set<HabitId>, remaining: set<HabitId>, clock: nat -> DateTime, start: nat,
                   evals: seq<Evaluation>, id: HabitId)
    requires remaining <= habits && id in remaining
    requires forall k :: 0 <= k < |evals| ==> evals[k].habit in habits - remaining && evals[k].at == clock(start + k)
    requires forall x :: x in EvaluatedHabits(evals) <==> x in habits - remaining
    requires Distinct(EvaluatedHabits(evals))
    ensures
      var evals', remaining' := evals + [Evaluation(id, clock(start + |evals|))], remaining - {id};
      && (forall k :: 0 <= k < |evals'| ==> evals'[k].habit in habits - remaining' && evals'[k].at == clock(start + k))
      && (forall x :: x in EvaluatedHabits(evals') <==> x in habits - remaining')
      && Distinct(EvaluatedHabits(evals'))
  {
    var evals' := evals + [Evaluation(id, clock(start + |evals|))];
    assert EvaluatedHabits(evals') == EvaluatedHabits(evals) + [id];
    DistinctConcat(EvaluatedHabits(evals), [id]);
  }

  /**
   * The inner loop of `send_habit_reminder` for one user: for each habit of
   * `habits`, in the order the query yields them, read the clock (the reading
   * numbered `start + k` for the k-th habit), decide, and dispatch if due.
   */
  method RemindHabits(rows: map<HabitId, Habit>, habits: set<HabitId>, clock: nat -> DateTime, start: nat)
    returns (evals: seq<Evaluation>, dispatched: seq<Dispatch>)
    requires habits <= rows.Keys
    ensures RemindedExactly(rows, habits, clock, start, evals, dispatched)
  {
    evals, dispatched := [], [];
    var remaining := habits;
    while remaining != {}
      invariant remaining <= habits
      invariant forall k :: 0 <= k < |evals| ==> evals[k].habit in habits - remaining && evals[k].at == clock(start + k)
      invariant forall id :: id in EvaluatedHabits(evals) <==> id in habits - remaining
      invariant Distinct(EvaluatedHabits(evals))
      invariant dispatched == DueOnly(rows, evals)
      decreases remaining
    {
      var id :| id in remaining;
      var habit := rows[id];
      var now := clock(start + |evals|);
      RemindStep(habits, remaining, clock, start, evals, id);
      DueOnlySnoc(rows, evals, Evaluation(id, now));
      evals := evals + [Evaluation(id, now)];
      if Due(habit, now) {
        dispatched := dispatched + [Dispatch(id, habit, habit.executionTime)];
      }
      remaining := remaining - {id};
    }
  }

  /** Appending one user's evaluations keeps the clock readings numbered in order. */
  lemma PassClockStep(rows: map<HabitId, Habit>, habits: set<HabitId>, clock: nat -> DateTime,
                      evals: seq<Evaluation>, more: seq<Evaluation>)
    requires habits <= rows.Keys
    requires forall k :: 0 <= k < |evals| ==> evals[k].habit in rows && evals[k].at == clock(k)
    requires forall k :: 0 <= k < |more| ==> more[k].habit in habits && more[k].at == clock(|evals| + k)
    ensures forall k :: 0 <= k < |evals + more| ==> (evals + more)[k].habit in rows && (evals + more)[k].at == clock(k)
  {
    forall k | 0 <= k < |evals + more|
      ensures (evals + more)[k].habit in rows && (evals + more)[k].at == clock(k)
    {
      if k >= |evals| {
        assert (evals + more)[k] == more[k - |evals|];
      }
    }
  }

  /** Appending the habits of `users[i]` extends the evaluated habits to the owners `users[..i + 1]`. */
  lemma PassCoverageStep(rows: map<HabitId, Habit>, users: seq<UserId>, i: nat,
                         evals: seq<Evaluation>, more: seq<Evaluation>)
    requires i < |users|
    requires forall id :: id in EvaluatedHabits(evals) <==> id in OwnedByAny(rows, users[..i])
    requires forall id :: id in EvaluatedHabits(more) <==> id in OwnedBy(rows, users[i])
    ensures forall id :: id in EvaluatedHabits(evals + more) <==> id in OwnedByAny(rows, users[..i + 1])
  {
    assert EvaluatedHabits(evals + more) == EvaluatedHabits(evals) + EvaluatedHabits(more);
    assert users[..i + 1] == users[..i] + [users[i]];
    forall id
      ensures id in EvaluatedHabits(evals + more) <==> id in OwnedByAny(rows, users[..i + 1])
    {
      assert id in EvaluatedHabits(evals + more) <==> id in EvaluatedHabits(evals) || id in EvaluatedHabits(more);
      if id in rows && rows[id].user.Some? {
        var u := rows[id].user.value;
        assert u in users[..i + 1] <==> u in users[..i] || u == users[i];
      }
    }
  }

  /** Distinct users own disjoint habits, so no habit is evaluated twice in a pass. */
  lemma PassDistinctStep(rows: map<HabitId, Habit>, users: seq<UserId>, i: nat,
                         evals: seq<Evaluation>, more: seq<Evaluation>)
    requires Distinct(users) && i < |users|
    requires forall id :: id in EvaluatedHabits(evals) <==> id in OwnedByAny(rows, users[..i])
    requires forall id :: id in EvaluatedHabits(more) <==> id in OwnedBy(rows, users[i])
    requires Distinct(EvaluatedHabits(evals)) && Distinct(EvaluatedHabits(more))
    ensures Distinct(EvaluatedHabits(evals + more))
  {
    assert EvaluatedHabits(evals + more) == EvaluatedHabits(evals) + EvaluatedHabits(more);
    assert users[i] !in users[..i];
    DistinctConcat(EvaluatedHabits(evals), EvaluatedHabits(more));
  }

  /** What `RemindHabits` promises for one user's habits, starting at clock reading `start`. */
  ghost predicate RemindedExactly(rows: map<HabitId, Habit>, habits: set<HabitId>, clock: nat -> DateTime, start: nat,
                                  evals: seq<Evaluation>, dispatched: seq<Dispatch>)
  {
    && (forall k :: 0 <= k < |evals| ==> evals[k].habit in habits && evals[k].at == clock(start + k))
    && (forall id :: id in EvaluatedHabits(evals) <==> id in habits)
    && Distinct(EvaluatedHabits(evals))
    && (forall k :: 0 <= k < |evals| ==> evals[k].habit in rows)
    && dispatched == DueOnly(rows, evals)
  }

  /** The state of the pass once the users `users[..i]` are done. */
  ghost predicate PassInvariant(rows: map<HabitId, Habit>, users: seq<UserId>, i: nat, clock: nat -> DateTime,
                                evals: seq<Evaluation>, dispatched: seq<Dispatch>)
  {
    && i <= |users|
    && (forall k :: 0 <= k < |evals| ==> evals[k].habit in rows && evals[k].at == clock(k))
    && (forall id :: id in EvaluatedHabits(evals) <==> id in OwnedByAny(rows, users[..i]))
    && Distinct(EvaluatedHabits(evals))
    && dispatched == DueOnly(rows, evals)
  }

  /** Finishing user `users[i]` moves the pass invariant from `i` to `i + 1`. */
  lemma PassStep(rows: map<HabitId, Habit>, users: seq<UserId>, i: nat, clock: nat -> DateTime,
                 evals: seq<Evaluation>, dispatched: seq<Dispatch>, more: seq<Evaluation>, sent: seq<Dispatch>)
    requires Distinct(users) && i < |users|
    requires PassInvariant(rows, users, i, clock, evals, dispatched)
    requires RemindedExactly(rows, OwnedBy(rows, users[i]), clock, |evals|, more, sent)
    ensures PassInvariant(rows, users, i + 1, clock, evals + more, dispatched + sent)
  {
    var habits := OwnedBy(rows, users[i]);
    PassClockStep(rows, habits, clock, evals, more);
    PassCoverageStep(rows, users, i, evals, more);
    PassDistinctStep(rows, users, i, evals, more);
    DueOnlyAppend(rows, evals, more);
  }

  lemma PassDone(rows: map<HabitId, Habit>, users: seq<UserId>, clock: nat -> DateTime,
                 evals: seq<Evaluation>, dispatched: seq<Dispatch>)
    requires PassInvariant(rows, users, |users|, clock, evals, dispatched)
    ensures forall k :: 0 <= k < |evals| ==> evals[k].habit in rows && evals[k].at == clock(k)
    ensures forall id :: id in EvaluatedHabits(evals) <==> id in OwnedByAny(rows, users)
    ensures Distinct(EvaluatedHabits(evals))
    ensures dispatched == DueOnly(rows, evals)
  {
    assert users[..|users|] == users;
  }

  /**
   * `send_habit_reminder`: for each user, for each of the user's habits,
   * read the clock, decide, and dispatch the habit if due. Nothing is
   * written: notifications run later as their own tasks.
   */
  method ReminderPass(rows: map<HabitId, Habit>, users: seq<UserId>, clock: nat -> DateTime)
    returns (evals: seq<Evaluation>, dispatched: seq<Dispatch>)
    requires Distinct(users)
    ensures forall k :: 0 <= k < |evals| ==> evals[k].habit in rows && evals[k].at == clock(k)
    ensures forall id :: id in EvaluatedHabits(evals) <==> id in OwnedByAny(rows, users)
    ensures Distinct(EvaluatedHabits(evals))
    ensures dispatched == DueOnly(rows, evals)
  {
    evals, dispatched := [], [];
    for i := 0 to |users|
      invariant PassInvariant(rows, users, i, clock, evals, dispatched)
    {
      var more, sent := RemindHabits(rows, OwnedBy(rows, users[i]), clock, |evals|);
      PassStep(rows, users, i, clock, evals, dispatched, more, sent);
      evals, dispatched := evals + more, dispatched + sent;
    }
    assert users[..|users|] == users;
    PassDone(rows, users, clock, evals, dispatched);
  }

  // ---------------------------------------------------------------------------
  // The notification

  /** Why `send_notification` can stop before its save. */
  datatype SendError =
    | UserMissing  // `habit.user` is None, so reading its `tlg_chat_id` raises
    | PostFailed   // `requests.post` raised (connection error, timeout)

  /**
   * `send_notification`: read the owner's chat id, render the reminder, post
   * it, then save the snapshot with `last_notification` set to the clock
   * reading `sentAt`. Whether the post raised is the parameter `postRaised`;
   * an HTTP error status does not raise, so it still stamps. Either raise
   * ends the task before the save and leaves the table as it was.
   */
  method SendNotification(table: HabitTable, d: Dispatch, postRaised: bool, sentAt: DateTime)
    returns (r: Result<string, SendError>)
    requires table.Valid() && d.habit in table.rows && ColumnsFit(d.snapshot)
    requires d.snapshot.linkedHabit.Some? ==> d.snapshot.linkedHabit.value in table.rows
    modifies table
    ensures table.Valid() && table.nextId == old(table.nextId)
    ensures d.snapshot.user.None? ==> r == Failure(UserMissing) && table.rows == old(table.rows)
    ensures d.snapshot.user.Some? && postRaised ==> r == Failure(PostFailed) && table.rows == old(table.rows)
    ensures d.snapshot.user.Some? && !postRaised ==>
              && r == Success(ReminderText(d.snapshot.action, d.executionTime))
              && table.rows == old(table.rows)[d.habit := d.snapshot.(lastNotification := Some(sentAt))]
    ensures r.Success? && d.snapshot == old(table.rows[d.habit]) ==>
              table.rows[d.habit].(lastNotification := d.snapshot.lastNotification) == d.snapshot
  {
    if d.snapshot.user.None? {
      return Failure(UserMissing);
    }
    var msg := ReminderText(d.snapshot.action, d.executionTime);
    if postRaised {
      return Failure(PostFailed);
    }
    table.Save(d.habit, d.snapshot.(lastNotification := Some(sentAt)));
    r := Success(msg);
  }
}
