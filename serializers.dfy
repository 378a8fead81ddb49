/**
 * `HabitSerializer.validate`: four cross-field checks, run in order over the
 * fields the request supplied; the first that fails raises its message,
 * otherwise the data is returned as it came in.
 */
module Serializers {
  import opened Wrappers
  import opened Temporal
  import Models

  /** The habit a `linked_habit` primary key resolves to, as far as `validate` looks at it. */
  datatype LinkedHabit = LinkedHabit(id: Models.HabitId, isPleasant: bool)

  /** The validated field values; a field the request left out is `None`. */
  datatype HabitData = HabitData(
    user: Option<Models.UserId>,
    place: Option<string>,
    action: Option<string>,
    isPleasant: Option<bool>,
    linkedHabit: Option<LinkedHabit>,
    periodicity: Option<string>,
    reward: Option<string>,
    executionTime: Option<int>,
    isPublic: Option<bool>,
    lastNotification: Option<DateTime>)

  /** The largest `execution_time` accepted, in seconds. */
  const MaxExecutionTime: int := 120

  /** The four `ValidationError`s, in the order the checks run. */
  datatype ValidationError =
    | LinkedAndReward
    | ExecutionTimeTooLong
    | LinkedNotPleasant
    | PleasantWithRewardOrLink

  /** The text `validate` raises for each check. */
  function Message(e: ValidationError): (m: string)
    ensures |m| == match e
      case LinkedAndReward => 65
      case ExecutionTimeTooLong => 48
      case LinkedNotPleasant => 72
      case PleasantWithRewardOrLink => 71
  {
    match e
    case LinkedAndReward => "Нельзя одновременно указывать связанную привычку и вознаграждение"
    case ExecutionTimeTooLong => "Время выполнения не может быть больше 120 секунд"
    case LinkedNotPleasant => "В связанные привычки могут попадать только привычки с признаком приятной"
    case PleasantWithRewardOrLink => "У приятной привычки не может быть вознаграждения или связанной привычки"
  }

  /** A client can tell from the raised text alone which check failed. */
  lemma MessageIdentifiesCheck(e1: ValidationError, e2: ValidationError)
    ensures Message(e1) == Message(e2) <==> e1 == e2
  {
  }

  /** Position of a check in the order `validate` runs them. */
  function Rank(e: ValidationError): nat
  {
    match e
    case LinkedAndReward => 0
    case ExecutionTimeTooLong => 1
    case LinkedNotPleasant => 2
    case PleasantWithRewardOrLink => 3
  }

  /** Python truthiness: `None` and the empty string are false. */
  predicate TruthyText(x: Option<string>)
  {
    x.Some? && x.value != ""
  }

  /** A model instance defines no `__bool__`, so any linked habit is truthy. */
  predicate TruthyLink(x: Option<LinkedHabit>)
  {
    x.Some?
  }

  predicate TruthyFlag(x: Option<bool>)
  {
    x == Some(true)
  }

  /** The condition under which each check raises its error. */
  predicate Violates(d: HabitData, e: ValidationError)
    ensures Violates(d, e) ==> d.linkedHabit.Some? || TruthyText(d.reward) || d.executionTime.Some?
  {
    match e
    case LinkedAndReward => TruthyLink(d.linkedHabit) && TruthyText(d.reward)
    case ExecutionTimeTooLong => d.executionTime.Some? && d.executionTime.value > MaxExecutionTime
    case LinkedNotPleasant => TruthyLink(d.linkedHabit) && !d.linkedHabit.value.isPleasant
    case PleasantWithRewardOrLink => TruthyFlag(d.isPleasant) && (TruthyText(d.reward) || TruthyLink(d.linkedHabit))
  }

  /**
   * The habit invariants, stated on their own: reward and linked habit are
   * not both given, the execution time is at most 120 seconds when given, a
   * linked habit is pleasant, and a pleasant habit has neither.
   */
  predicate HabitInvariants(d: HabitData)
    ensures HabitInvariants(d) <==>
              && !Violates(d, LinkedAndReward) && !Violates(d, ExecutionTimeTooLong)
              && !Violates(d, LinkedNotPleasant) && !Violates(d, PleasantWithRewardOrLink)
  {
    && !(d.linkedHabit.Some? && d.reward.Some? && |d.reward.value| > 0)
    && (d.executionTime.Some? ==> d.executionTime.value <= MaxExecutionTime)
    && (d.linkedHabit.Some? ==> d.linkedHabit.value.isPleasant)
    && (d.isPleasant == Some(true) ==> (d.reward.None? || d.reward.value == "") && d.linkedHabit.None?)
  }

  function Validate(d: HabitData): (r: Result<HabitData, ValidationError>)
    ensures r.Success? <==> HabitInvariants(d)
    ensures r.Success? ==> r.value == d
    ensures r.Failure? ==> Violates(d, r.error)
    ensures r.Failure? ==> forall e :: Rank(e) < Rank(r.error) ==> !Violates(d, e)
  {
    if d.linkedHabit.Some? && TruthyText(d.reward) then
      Failure(LinkedAndReward)
    else if d.executionTime.Some? && d.executionTime.value > MaxExecutionTime then
      Failure(ExecutionTimeTooLong)
    else if d.linkedHabit.Some? && !d.linkedHabit.value.isPleasant then
      Failure(LinkedNotPleasant)
    else if d.isPleasant == Some(true) && (TruthyText(d.reward) || d.linkedHabit.Some?) then
      Failure(PleasantWithRewardOrLink)
    else
      Success(d)
  }

  /** Validation depends only on the four fields it inspects. */
  lemma ValidateReadsFourFields(d1: HabitData, d2: HabitData)
    requires d1.linkedHabit == d2.linkedHabit && d1.reward == d2.reward
    requires d1.executionTime == d2.executionTime && d1.isPleasant == d2.isPleasant
    ensures Validate(d1).Success? == Validate(d2).Success?
    ensures Validate(d1).Failure? ==> Validate(d1).error == Validate(d2).error
  {
  }

  /** An empty reward counts as no reward: a habit with a link and `reward = ""` passes the first check. */
  lemma EmptyRewardIsAbsent(d: HabitData)
    requires d.reward == Some("")
    ensures Validate(d).Success? == Validate(d.(reward := None)).Success?
    ensures Validate(d).Failure? ==> Validate(d).error == Validate(d.(reward := None)).error
  {
  }

  /** Zero and negative execution times are not rejected. */
  lemma NonPositiveExecutionTimePasses(d: HabitData, n: int)
    requires n <= 0 && d.linkedHabit.None? && d.isPleasant != Some(true)
    ensures Validate(d.(executionTime := Some(n))).Success?
  {
  }

  /** 120 seconds is accepted and 121 rejected, other fields permitting. */
  lemma ExecutionTimeBoundary(d: HabitData)
    requires d.linkedHabit.None? && d.isPleasant != Some(true)
    ensures Validate(d.(executionTime := Some(120))).Success?
    ensures Validate(d.(executionTime := Some(121))) == Failure(ExecutionTimeTooLong)
  {
  }

  /** A pleasant habit that has both a reward and a link is reported for the pair, the first check. */
  lemma FirstFailingCheckDecides(d: HabitData, l: LinkedHabit)
    requires d.isPleasant == Some(true) && TruthyText(d.reward) && d.linkedHabit == Some(l)
    ensures Validate(d) == Failure(LinkedAndReward)
  {
  }

  /** The create request of the test suite: a reward, no link, 60 seconds, not pleasant. */
  lemma CreateRequestAccepted()
    ensures
      var d := HabitData(Some(1), Some("Home"), Some("Exercise"), Some(false), None, Some("daily"),
                         Some("None"), Some(60), Some(false), None);
      Validate(d) == Success(d)
  {
  }
}
