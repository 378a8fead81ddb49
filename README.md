# Habit tracker: reminders, validation and the habit table

A Dafny model of the core of a Django habit-tracking backend. It covers three parts:

- **The reminder task** (`habits/tasks.py`). A periodic pass walks every user and every habit of that user. For each habit it reads the clock and decides whether a reminder is due. The decision uses the habit's periodicity, its optional `last_notification` and its time of day. Each due habit is handed to `send_notification`, which renders the reminder text and saves the habit with `last_notification` stamped.
- **Habit validation** (`habits/serializers.py`). `HabitSerializer.validate` runs four ordered cross-field checks. It raises the first failing check's message, or returns the data unchanged.
- **The habit record and table** (`habits/models.py`). This part covers the fields, their defaults and column limits, and `__str__`. It also covers the two deletion rules. `linked_habit` is SET_NULL: deleting a habit nulls every link to it. `user` is CASCADE: deleting a user deletes that user's habits.

Modules:

- `Wrappers`: `Option` (a nullable column or an absent field) and `Result` (a return value or a raised error).
- `Temporal`: `datetime.time` and `datetime.datetime`. A date is a day number. A time of day keeps its hour, minute, second and microsecond. `Truncate` is `.replace(second=0, microsecond=0)` and `MinusDays` is `- timedelta(days=n)`.
- `Text`: Python's `str()` of an `int` and of `None`, as the reminder's f-string renders them.
- `Models`: the `Habit` row, `NewHabit` (all defaults), `HabitStr`, and the deletion functions. It also holds the `HabitTable` class. Its methods `Create`, `Save`, `DeleteHabit` and `DeleteUser` update the table in place and keep its foreign keys resolved.
- `Serializers`: `Validate`, stated against a separate definition of the habit invariants and the order of the checks.
- `Tasks`: the due decision and the reminder pass.
  - `Due` is the decision with the time comparison as intended: the same hour and minute.
  - `DueAsWritten` is the decision exactly as the source writes it.
  - `ReminderPass` is the nested loop over users and habits.
  - `DueOnly` is the function that specifies which habits the pass dispatches.
  - `SendNotification` renders the message, posts it and stamps the habit, or stops at one of the two raises before the save.
- `Scenarios`: two clients that run create, pass, notify and pass again through the contracts, one with a successful post and one with a post that raises.

The clock is a parameter. `ReminderPass` takes `clock: nat -> DateTime`, and the k-th habit evaluation reads `clock(k)`, because the source calls `datetime.now()` once per habit. `SendNotification` takes its own reading `sentAt`, because the notification task calls `datetime.now()` again, without truncation.

Behaviour worth noting:

- **Reward and linked habit.** `validate` rejects a habit that has both. A habit with neither passes.
- **Execution time.** Only values above 120 are rejected. Zero and negative values pass.
- **Deleting a habit.** Only that habit goes. Links from other habits to it are set to null.
- **Deleting a user.** The user's habits go too. Links from the remaining habits to those habits are set to null.
- **Saving after a notification.** `send_notification` saves the whole habit snapshot it was given, not just `last_notification`.
- **A failed send.** A null `user` or a `requests.post` that raises ends the task before the save, so nothing is stamped. An HTTP error status does not raise, so the habit is stamped anyway.

## Model

| member | source | states |
|---|---|---|
| `Temporal.TruncateTime` | habits/tasks.py:31 | Truncation keeps hour and minute and zeroes seconds and microseconds |
| `Temporal.Truncate` | habits/tasks.py:28 | Truncating a datetime keeps its date and truncates its time of day |
| `Temporal.MinusDays` | habits/tasks.py:42 | Subtracting n days moves the date back by n and keeps the time of day |
| `Temporal.TruncatedEqualIffSameMinute` | habits/tasks.py:28-31 | Two valid times are equal after truncation exactly when their minute of day (0..1439) is equal |
| `Text.NatToDecimal` | habits/tasks.py:52 | `str()` of a non-negative int: at least one digit, all digits, a leading zero only for 0, and exactly "0" for 0 |
| `Text.DecimalRoundTrip` | habits/tasks.py:52 | Reading back the decimal text of n gives n |
| `Text.IntToDecimal` | habits/tasks.py:52 | `str()` of any int: a leading '-' exactly when negative, the digits read back to the absolute value with no leading zero, and exactly "0" for 0 |
| `Text.OptionalText` | habits/tasks.py:52 | A null action renders as "None", otherwise as itself |
| `Text.OptionalIntText` | habits/tasks.py:52 | A null execution time renders as "None", otherwise as Python's decimal text of its value: no leading zero, a '-' for negatives, and exactly "0" for 0 |
| `Models.NewHabit` | habits/models.py:7-28 | Defaults: periodicity 'daily', not pleasant, not public, no last notification, and all other nullable columns null; `user` is the given owner. The time is the creation clock (`auto_now_add`) |
| `Models.HabitStr` | habits/models.py:30-31 | The string form is the action. It succeeds exactly when the action is not null and is then at most 255 characters |
| `Models.OwnedBy` | habits/tasks.py:17 | `filter(user=user)`: exactly the habits whose user is u |
| `Models.DeleteCollected` | habits/models.py:8-17 | Deleting a set of habits removes exactly those keys. Survivors change only in `linked_habit`, which is nulled exactly when it pointed into the deleted set. Resolved links stay resolved |
| `Models.AfterHabitDeleted` | habits/models.py:17 | Deleting a habit removes that key only. A habit that linked to it survives with its link set to null, and every other habit is unchanged |
| `Models.AfterUserDeleted` | habits/models.py:8-12 | Deleting a user removes exactly the user's habits. Other habits change only in a link to a removed habit, which is set to null exactly when its target belonged to the user; every other link is kept as it was |
| `Models.HabitTable.Create` | habits/models.py:14 | Insert under a fresh auto-increment key, with `time` overwritten by the creation clock. The table stays valid |
| `Models.HabitTable.Save` | habits/tasks.py:60 | `save()` writes every column of the given row. The table stays valid |
| `Models.HabitTable.DeleteHabit` | habits/models.py:17 | The table becomes `AfterHabitDeleted` of the old table, and its foreign keys stay resolved |
| `Models.HabitTable.DeleteUser` | habits/models.py:8-12 | The table becomes `AfterUserDeleted` of the old table, and its foreign keys stay resolved |
| `Serializers.Violates` | habits/serializers.py:12-22 | No check fires on data without a linked habit, a non-empty reward and an execution time |
| `Serializers.HabitInvariants` | habits/serializers.py:12-22 | The invariants hold exactly when none of the four checks fires |
| `Serializers.Message` | habits/serializers.py:13-22 | Each check's raised text, with its length |
| `Serializers.MessageIdentifiesCheck` | habits/serializers.py:13-22 | The four raised texts are pairwise distinct, so the text names the failing check |
| `Serializers.Validate` | habits/serializers.py:11-24 | Accepts exactly the data meeting the four invariants, and returns it unchanged. A rejection names a check that fails, and every earlier check passes |
| `Serializers.ValidateReadsFourFields` | habits/serializers.py:11-24 | The verdict depends only on link, reward, execution time and the pleasant flag |
| `Serializers.EmptyRewardIsAbsent` | habits/serializers.py:12 | An empty reward is judged like a missing one (Python truthiness) |
| `Serializers.NonPositiveExecutionTimePasses` | habits/serializers.py:14-16 | Zero and negative execution times are not rejected |
| `Serializers.ExecutionTimeBoundary` | habits/serializers.py:14-16 | 120 passes, and 121 is rejected with the execution-time error |
| `Serializers.FirstFailingCheckDecides` | habits/serializers.py:12-22 | A pleasant habit with both reward and link gets the first check's error |
| `Serializers.CreateRequestAccepted` | habits/tests.py:19-35 | The test suite's create request is accepted unchanged |
| `Tasks.PyEquals` | habits/tasks.py:37 | Python `==` on a `time` and a `datetime`: equal exactly when same type and same value, so never across the two types |
| `Tasks.DueAsWritten` | habits/tasks.py:34-43 | With the source's literal comparison of a `time` with a `datetime`, no habit is ever due |
| `Tasks.DueAsWrittenMissesDailyReminder` | habits/tasks.py:37 | A daily 09:00 habit, never notified and read at 09:00, is due as intended but not as written |
| `Tasks.Due` | habits/tasks.py:34-43 | Due exactly when the periodicity is daily or weekly, the last notification is absent or dated before today (or before today minus 7 when weekly), and hour and minute match |
| `Tasks.DailyNeverNotified` | habits/tasks.py:28-38 | A daily habit never notified is due exactly at its minute |
| `Tasks.DailyNotifiedToday` | habits/tasks.py:37 | A daily habit notified today is not due, whatever the time |
| `Tasks.WeeklyThreshold` | habits/tasks.py:42 | Weekly: due exactly when notified strictly before today minus 7 days, at the matching minute. 7 days ago is not due, and 8 or more days ago is due |
| `Tasks.WeeklyImpliesDaily` | habits/tasks.py:37-42 | A weekly habit that is due would also be due as a daily one |
| `Tasks.OtherPeriodicityNeverDue` | habits/tasks.py:34-43 | A periodicity other than 'daily' and 'weekly' is never due |
| `Tasks.SameMinuteSameDecision` | habits/tasks.py:28-31 | Two readings in the same minute give the same decision |
| `Tasks.DueAfterNotification` | habits/tasks.py:34-43 | After a notification on day D, the habit is due exactly at a matching minute on a day after D (daily) or after D+7 (weekly) |
| `Tasks.StampedNotDue` | habits/tasks.py:59 | Stamped at or after the reading's date, a habit is not due at that reading, for either periodicity |
| `Tasks.ReminderText` | habits/tasks.py:52 | The message is the fixed head, the action text, the fixed middle, the execution-time text and the fixed tail, each at its position |
| `Tasks.ReminderTextReadsBack` | habits/tasks.py:52 | The action and a non-negative execution time can be read back from the message |
| `Tasks.DueOnly` | habits/tasks.py:20-43 | Each dispatch carries the habit's current row and its execution time, and has periodicity daily or weekly. There are no more dispatches than evaluations |
| `Tasks.DueOnlyComplete` | habits/tasks.py:34-43 | Every evaluation that finds its habit due yields a dispatch of that habit |
| `Tasks.DueOnlySound` | habits/tasks.py:34-43 | Every dispatch comes from an evaluation that found its habit due |
| `Tasks.NoRepeatSameDay` | habits/tasks.py:37-59 | A pass whose readings are all on or before day D dispatches no habit whose last notification is dated D or later |
| `Tasks.DueOnlyAppend` | habits/tasks.py:15-20 | The dispatches of two runs of evaluations, one after the other, are the first run's dispatches followed by the second's |
| `Tasks.RemindHabits` | habits/tasks.py:17-43 | The inner loop for one user's habits. It evaluates each of them exactly once, with the readings numbered from `start`, and dispatches exactly the due evaluations, in order |
| `Tasks.ReminderPass` | habits/tasks.py:10-43 | Evaluates each habit of the listed users exactly once and no other habit. The k-th evaluation reads `clock(k)`. The dispatches are exactly the due evaluations, in order |
| `Tasks.SendNotification` | habits/tasks.py:46-60 | A null user fails before the post and a raised post fails before the save; both leave the table unchanged. Otherwise it returns the reminder text and saves the snapshot with `last_notification` set, and with a current snapshot only `last_notification` changes |
| `Scenarios.DailyReminderOnce` | habits/tasks.py:9-60 | A created daily habit is dispatched once at its minute with its action in the message. A second pass in the same minute dispatches nothing |
| `Scenarios.FailedPostRetried` | habits/tasks.py:9-60 | When the post raises, nothing is stamped and the next pass in the same minute dispatches the habit again |

## Findings

| source | as written | input that shows it | evidently intended | confidence | as-written member | corrected member |
|---|---|---|---|---|---|---|
| habits/tasks.py:37 | `start_time == now` compares a `datetime.time` (a TimeField value) with a `datetime.datetime`. Python never finds these equal, so no habit is ever due and no reminder is ever sent. The same comparison is at habits/tasks.py:42 | daily habit at 09:00, `last_notification` None, `now` = today 09:00 | compare the hour and minute: `start_time == now.time()` | not executed | `Tasks.DueAsWrittenMissesDailyReminder` | `Tasks.Due` |

The rest of the model uses the corrected decision `Tasks.Due`.

## Left out

- The Telegram request: the bot token from the environment, the chat id and the HTTP POST. Whether the post raised is the parameter `postRaised` of `SendNotification`. The response itself is never read, as in the source.
- The Celery machinery: `@shared_task`, `.delay` and the periodic trigger. A dispatch is a returned value carrying a copy of the habit row, and a notification is a separate method call. This assumes Celery's task serializer can carry a Django model instance (pickle); the Celery settings are not part of this model, and with Celery's default JSON serializer `send_notification.delay(habit, execution_time)` at habits/tasks.py:38 and :43 would raise and end the pass.
- Concurrency between the pass and the notification tasks. This includes a habit deleted or edited after dispatch. `SendNotification` requires the habit to be in the table, and it writes the snapshot it was given over the current row, as `save()` does.
- Time zones: `USE_TZ` and aware versus naive datetimes. Dates are bare day numbers, and Python's date range (years 1 to 9999) is not bounded.
- The users table and the `user` foreign key's own integrity. Users are bare identifiers.
- DRF field-level validation, which runs before `validate`: `max_length`, periodicity choices, and resolving a `linked_habit` primary key. `Serializers.LinkedHabit` is the resolved habit's id and pleasant flag.
- Partial updates, where `validate` sees only the supplied fields, and all update operations. The CRUD views, URL routing, permissions, admin and user serializers are glue.
- The initial migration, which disagrees with the current model.
- Tasks.ReminderPass: does not state that evaluations are grouped user by user in the order of `users`. It states only which habits are evaluated, once each, and the clock reading each one gets.
