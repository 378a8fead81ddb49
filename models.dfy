/**
 * The `Habit` model: its fields, their defaults and column limits, its
 * string form, and the habit table with the two deletion rules the model
 * declares (`linked_habit` is SET_NULL, `user` is CASCADE).
 */
module Models {
  import opened Wrappers
  import opened Temporal

  /** Primary keys of habits and of users. */
  type HabitId = nat
  type UserId = nat

  /** The two `periodicity` choices. The column is a CharField, so other strings can be stored. */
  const Daily: string := "daily"
  const Weekly: string := "weekly"

  /** `max_length` of `place`, `action` and `reward`, and of `periodicity`. */
  const TextLimit: nat := 255
  const PeriodicityLimit: nat := 20

  /** One row of the habit table; nullable columns are `Option`s. */
  datatype Habit = Habit(
    user: Option<UserId>,
    place: Option<string>,
    time: TimeOfDay,
    action: Option<string>,
    isPleasant: bool,
    linkedHabit: Option<HabitId>,
    periodicity: string,
    reward: Option<string>,
    executionTime: Option<int>,
    isPublic: bool,
    lastNotification: Option<DateTime>)

  predicate IsPeriodicityChoice(p: string)
  {
    p == Daily || p == Weekly
  }

  predicate FitsLimit(x: Option<string>, limit: nat)
  {
    x.None? || |x.value| <= limit
  }

  /** The `max_length` limits of the char columns. */
  predicate ColumnsFit(h: Habit)
  {
    FitsLimit(h.place, TextLimit) && FitsLimit(h.action, TextLimit) && FitsLimit(h.reward, TextLimit)
    && |h.periodicity| <= PeriodicityLimit
  }

  /**
   * A habit created with nothing but its owner: every other column takes its
   * declared default, and `time` is the creation clock (`auto_now_add`).
   */
  function NewHabit(user: Option<UserId>, createdAt: TimeOfDay): (h: Habit)
    ensures h.user == user && h.time == createdAt
    ensures h.periodicity == Daily && IsPeriodicityChoice(h.periodicity)
    ensures !h.isPleasant && !h.isPublic
    ensures h.lastNotification.None?
    ensures h.place.None? && h.action.None? && h.reward.None? && h.linkedHabit.None? && h.executionTime.None?
    ensures ColumnsFit(h)
  {
    Habit(user, None, createdAt, None, false, None, Daily, None, None, false, None)
  }

  /** What `str(habit)` raises when `__str__` returns `None` instead of a str. */
  datatype StrError = StrReturnedNonString

  /** `str(habit)`: the habit's `action`; a null action makes `str()` raise. */
  function HabitStr(h: Habit): (r: Result<string, StrError>)
    ensures r.Success? <==> h.action.Some?
    ensures r.Success? ==> r.value == h.action.value
    ensures ColumnsFit(h) && r.Success? ==> |r.value| <= TextLimit
  {
    match h.action
    case Some(a) => Success(a)
    case None => Failure(StrReturnedNonString)
  }

  /** Every `linked_habit` names a habit that is in the table (the foreign key holds). */
  ghost predicate LinksResolve(rows: map<HabitId, Habit>)
  {
    forall k :: k in rows && rows[k].linkedHabit.Some? ==> rows[k].linkedHabit.value in rows
  }

  /** The habits whose `user` is `u`. */
  function OwnedBy(rows: map<HabitId, Habit>, u: UserId): (ids: set<HabitId>)
    ensures forall k :: k in ids <==> k in rows && rows[k].user == Some(u)
  {
    set k | k in rows && rows[k].user == Some(u)
  }

  /** SET_NULL applied to one habit when the habits `gone` are deleted. */
  function Unlinked(h: Habit, gone: set<HabitId>): Habit
  {
    if h.linkedHabit.Some? && h.linkedHabit.value in gone then h.(linkedHabit := None) else h
  }

  /**
   * The table after the habits `gone` are deleted: they disappear, and every
   * surviving habit that linked to one of them has its link set to null.
   */
  function DeleteCollected(rows: map<HabitId, Habit>, gone: set<HabitId>): (r: map<HabitId, Habit>)
    ensures r.Keys == rows.Keys - gone
    ensures forall k :: k in r ==> r[k].(linkedHabit := rows[k].linkedHabit) == rows[k]
    ensures forall k :: k in r && r[k].linkedHabit.Some? ==>
              r[k].linkedHabit == rows[k].linkedHabit && r[k].linkedHabit.value !in gone
    ensures forall k :: k in r && rows[k].linkedHabit.Some? && rows[k].linkedHabit.value !in gone ==>
              r[k].linkedHabit == rows[k].linkedHabit
    ensures LinksResolve(rows) ==> LinksResolve(r)
  {
    map k | k in rows && k !in gone :: Unlinked(rows[k], gone)
  }

  /** `habit.delete()` for habit `id`. */
  function AfterHabitDeleted(rows: map<HabitId, Habit>, id: HabitId): (r: map<HabitId, Habit>)
    ensures r.Keys == rows.Keys - {id}
    ensures forall k :: k in r ==>
              r[k] == if rows[k].linkedHabit == Some(id) then rows[k].(linkedHabit := None) else rows[k]
  {
    DeleteCollected(rows, {id})
  }

  /**
   * `user.delete()`: CASCADE deletes exactly that user's habits; every other
   * habit is kept, unchanged except that a link to one of the deleted habits
   * is set to null.
   */
  function AfterUserDeleted(rows: map<HabitId, Habit>, u: UserId): (r: map<HabitId, Habit>)
    ensures forall k :: k in r <==> k in rows && rows[k].user != Some(u)
    ensures forall k :: k in r ==> r[k].(linkedHabit := rows[k].linkedHabit) == rows[k]
    ensures forall k :: k in r && rows[k].linkedHabit.Some? ==>
              var target := rows[k].linkedHabit.value;
              (r[k].linkedHabit.None? <==> target in rows && rows[target].user == Some(u))
    ensures forall k :: k in r ==>
              r[k] == if rows[k].linkedHabit.Some? && rows[k].linkedHabit.value in OwnedBy(rows, u)
                      then rows[k].(linkedHabit := None) else rows[k]
  {
    DeleteCollected(rows, OwnedBy(rows, u))
  }

  /** The habit table, updated in place by saves and deletes. */
  class HabitTable {
    var rows: map<HabitId, Habit>
    /** The next auto-increment primary key. */
    var nextId: HabitId

    ghost predicate Valid()
      reads this
    {
      LinksResolve(rows) && forall k :: k in rows ==> k < nextId && ColumnsFit(rows[k])
    }

    constructor ()
      ensures Valid() && rows == map[] && nextId == 1
    {
      rows := map[];
      nextId := 1;
    }

    /**
     * `Habit.objects.create(...)`: a new primary key, and `time` overwritten by
     * the creation clock (`auto_now_add` ignores a supplied value).
     */
    method Create(h: Habit, createdAt: TimeOfDay) returns (id: HabitId)
      requires Valid() && ColumnsFit(h)
      requires h.linkedHabit.Some? ==> h.linkedHabit.value in rows
      modifies this
      ensures Valid()
      ensures id == old(nextId) && id !in old(rows) && nextId == id + 1
      ensures rows == old(rows)[id := h.(time := createdAt)]
    {
      id := nextId;
      rows := rows[id := h.(time := createdAt)];
      nextId := nextId + 1;
    }

    /** `habit.save()` on an existing habit: its row becomes `h`, all columns written. */
    method Save(id: HabitId, h: Habit)
      requires Valid() && id in rows && ColumnsFit(h)
      requires h.linkedHabit.Some? ==> h.linkedHabit.value in rows
      modifies this
      ensures Valid() && nextId == old(nextId)
      ensures rows == old(rows)[id := h]
    {
      rows := rows[id := h];
    }

    /** `habit.delete()`. */
    method DeleteHabit(id: HabitId)
      requires Valid()
      modifies this
      ensures Valid() && nextId == old(nextId)
      ensures rows == AfterHabitDeleted(old(rows), id)
    {
      rows := AfterHabitDeleted(rows, id);
    }

    /** `user.delete()`, as seen from the habit table. */
    method DeleteUser(u: UserId)
      requires Valid()
      modifies this
      ensures Valid() && nextId == old(nextId)
      ensures rows == AfterUserDeleted(old(rows), u)
    {
      rows := AfterUserDeleted(rows, u);
    }
  }
}
