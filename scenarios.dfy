/**
 * Client code that runs the pieces together through their contracts alone:
 * a habit is created, one pass dispatches it, its notification stamps it,
 * and a second pass in the same minute dispatches nothing; when the post
 * raises instead, nothing is stamped and the second pass dispatches it again.
 */
module Scenarios {
  import opened Wrappers
  import opened Temporal
  import opened Models
  import opened Tasks

  method DailyReminderOnce(today: int) returns (first: seq<Dispatch>, msg: string, second: seq<Dispatch>)
    ensures |first| == 1 && first[0].snapshot.action == Some("Exercise")
    ensures msg == ReminderText(Some("Exercise"), Some(60))
    ensures second == []
  {
    var nine := TimeOfDay(9, 0, 0, 0);
    var table := new HabitTable();
    var h := NewHabit(Some(7), nine).(action := Some("Exercise"), executionTime := Some(60));
    var id := table.Create(h, nine);
    var reading := DateTime(today, TimeOfDay(9, 0, 30, 0));
    var clock := (k: nat) => reading;

    var evals;
    evals, first := ReminderPass(table.rows, [7], clock);
    assert EvaluatedHabits(evals) == [id] by {
      assert id in OwnedByAny(table.rows, [7]);
      assert table.rows.Keys == {id};
    }
    assert evals == [Evaluation(id, reading)];
    assert DueOnly(table.rows, evals[..0]) == [];
    assert Due(table.rows[id], reading);
    var sent := SendNotification(table, first[0], false, reading);
    msg := sent.value;

    evals, second := ReminderPass(table.rows, [7], clock);
    NoRepeatSameDay(table.rows, evals, today);
  }

  method FailedPostRetried(today: int) returns (first: seq<Dispatch>, sent: Result<string, SendError>, second: seq<Dispatch>)
    ensures |first| == 1 && sent == Failure(PostFailed)
    ensures second == first
  {
    var nine := TimeOfDay(9, 0, 0, 0);
    var table := new HabitTable();
    var h := NewHabit(Some(7), nine).(action := Some("Exercise"), executionTime := Some(60));
    var id := table.Create(h, nine);
    var reading := DateTime(today, TimeOfDay(9, 0, 30, 0));
    var clock := (k: nat) => reading;

    var evals;
    evals, first := ReminderPass(table.rows, [7], clock);
    assert EvaluatedHabits(evals) == [id] by {
      assert id in OwnedByAny(table.rows, [7]);
      assert table.rows.Keys == {id};
    }
    assert evals == [Evaluation(id, reading)];
    assert DueOnly(table.rows, evals[..0]) == [];
    assert Due(table.rows[id], reading);
    sent := SendNotification(table, first[0], true, reading);

    var again;
    again, second := ReminderPass(table.rows, [7], clock);
    assert EvaluatedHabits(again) == [id] by {
      assert id in OwnedByAny(table.rows, [7]);
      assert table.rows.Keys == {id};
    }
    assert again == evals;
  }
}
