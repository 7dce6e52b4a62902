/**
 * Reminder resolution and the scheduling decision for a task's toast
 * notification: which labels exist, how far before the due instant each one
 * fires, how the due instant is assembled from the due date and the time due,
 * and whether saving or cancelling asks the toast service to schedule, to
 * cancel, or to do nothing.
 */
module Reminders {
  import opened Wrappers
  import opened Clock
  import opened Tasks

  /** The entries of the reminder combo box, in the order it lists them. */
  datatype ReminderChoice =
    | NoReminder
    | AtDueTime
    | FiveMinutes
    | TenMinutes
    | FifteenMinutes
    | OneHour
    | TwoHours
    | OneDay
    | TwoDays
  {
    function Label(): string {
      match this
      case NoReminder => NoReminderLabel
      case AtDueTime => "At Time of Due Date"
      case FiveMinutes => "5 Minutes Before"
      case TenMinutes => "10 Minutes Before"
      case FifteenMinutes => "15 Minutes Before"
      case OneHour => "1 Hour Before"
      case TwoHours => "2 Hours Before"
      case OneDay => "1 Day Before"
      case TwoDays => "2 Days Before"
    }

    /** How long before the due instant the reminder fires, in minutes. */
    function LeadMinutes(): nat {
      match this
      case NoReminder => 0
      case AtDueTime => 0
      case FiveMinutes => 5
      case TenMinutes => 10
      case FifteenMinutes => 15
      case OneHour => 60
      case TwoHours => 2 * 60
      case OneDay => 24 * 60
      case TwoDays => 2 * 24 * 60
    }
  }

  /** The combo-box entry a stored label names, if any. */
  function ChoiceOf(text: string): (c: Option<ReminderChoice>)
    ensures c.Some? ==> c.value.Label() == text
    ensures c.None? ==> forall choice: ReminderChoice :: choice.Label() != text
  {
    if text == NoReminder.Label() then Some(NoReminder)
    else if text == AtDueTime.Label() then Some(AtDueTime)
    else if text == FiveMinutes.Label() then Some(FiveMinutes)
    else if text == TenMinutes.Label() then Some(TenMinutes)
    else if text == FifteenMinutes.Label() then Some(FifteenMinutes)
    else if text == OneHour.Label() then Some(OneHour)
    else if text == TwoHours.Label() then Some(TwoHours)
    else if text == OneDay.Label() then Some(OneDay)
    else if text == TwoDays.Label() then Some(TwoDays)
    else None
  }

  /** Every combo-box entry is recovered from its label: the labels are distinct. */
  lemma LabelsRoundTrip(c: ReminderChoice)
    ensures ChoiceOf(c.Label()) == Some(c)
  {
  }

  /**
   * The switch on the reminder label: how many ticks are subtracted from the
   * due instant. "At Time of Due Date", and any label the switch does not
   * list, subtract nothing.
   */
  function LeadTicks(text: string): (ticks: nat)
    ensures ChoiceOf(text).Some? ==> ticks == ChoiceOf(text).value.LeadMinutes() * TicksPerMinute
    ensures ChoiceOf(text).None? ==> ticks == 0
  {
    match text
    case "5 Minutes Before" => 5 * TicksPerMinute
    case "10 Minutes Before" => 10 * TicksPerMinute
    case "15 Minutes Before" => 15 * TicksPerMinute
    case "1 Hour Before" => TicksPerHour
    case "2 Hours Before" => 2 * TicksPerHour
    case "1 Day Before" => TicksPerDay
    case "2 Days Before" => 2 * TicksPerDay
    case _ => 0
  }

  /** The two instants handed to the toast service. */
  datatype ToastTimes = ToastTimes(scheduled: ValidDateTimeOffset, due: ValidDateTimeOffset)

  /**
   * The due instant is the calendar date of `date` at the time of day and
   * offset of `time`; the toast fires `LeadTicks(text)` earlier, at the same
   * offset. Either step throws if it leaves the calendar, which can only
   * happen within two days of its ends.
   */
  function Resolve(date: ValidDateTimeOffset, time: ValidDateTimeOffset, text: string): (r: Result<ToastTimes, Fault>)
    ensures r.Ok? ==> r.value.due.Day() == date.Day()
    ensures r.Ok? ==> r.value.due.TimeOfDay() / TicksPerSecond == time.TimeOfDay() / TicksPerSecond
    ensures r.Ok? ==> r.value.due.offsetMinutes == time.offsetMinutes
    ensures r.Ok? ==> r.value.scheduled.UtcTicks() == r.value.due.UtcTicks() - LeadTicks(text)
    ensures r.Ok? ==> r.value.scheduled.offsetMinutes == r.value.due.offsetMinutes
    ensures r.Ok? ==> !Before(r.value.due, r.value.scheduled)
    ensures 2 < date.Day() < LastDay ==> r.Ok?
    ensures r.Err? ==> r.error == DateOutOfRange
  {
    match Combine(date, time)
    case Err(e) => Err(e)
    case Ok(due) =>
      var lead: int := LeadTicks(text);
      if lead == 0 then Ok(ToastTimes(due, due))
      else
        match Shift(due, 0 - lead)
        case Err(e) => Err(e)
        case Ok(scheduled) => Ok(ToastTimes(scheduled, due))
  }

  /**
   * The worked example: a due date of 2024-03-10 with a time due of 09:00 at
   * UTC+1 and the label "1 Day Before" fires at 2024-03-09 09:00 UTC+1.
   */
  lemma OneDayBeforeExample()
    ensures var date := FromCivil(2024, 3, 10, 0, 0, 0, 0);
            var time := FromCivil(2020, 6, 1, 9, 0, 0, 60);
            date.Valid() && time.Valid()
            && Resolve(date, time, OneDay.Label())
               == Ok(ToastTimes(FromCivil(2024, 3, 9, 9, 0, 0, 60), FromCivil(2024, 3, 10, 9, 0, 0, 60)))
  {
    var day := 738_954;  // 2024-03-10 counted from 0001-01-01
    ExampleReadings(day);
    var date: ValidDateTimeOffset := DateTimeOffset(day * TicksPerDay, 0);
    var time: ValidDateTimeOffset := FromCivil(2020, 6, 1, 9, 0, 0, 60);
    var due: ValidDateTimeOffset := DateTimeOffset(day * TicksPerDay + 9 * TicksPerHour, 60);
    assert Combine(date, time) == Ok(due);
    assert LeadTicks(OneDay.Label()) == TicksPerDay;
    assert Shift(due, 0 - TicksPerDay) == Ok(DateTimeOffset((day - 1) * TicksPerDay + 9 * TicksPerHour, 60));
  }

  /** The readings of the worked example, as tick counts. */
  lemma ExampleReadings(day: int)
    requires day == 738_954
    ensures FromCivil(2024, 3, 10, 0, 0, 0, 0) == DateTimeOffset(day * TicksPerDay, 0)
    ensures FromCivil(2024, 3, 10, 9, 0, 0, 60) == DateTimeOffset(day * TicksPerDay + 9 * TicksPerHour, 60)
    ensures FromCivil(2024, 3, 9, 9, 0, 0, 60) == DateTimeOffset((day - 1) * TicksPerDay + 9 * TicksPerHour, 60)
    ensures FromCivil(2020, 6, 1, 9, 0, 0, 60).Valid()
    ensures FromCivil(2020, 6, 1, 9, 0, 0, 60).TimeOfDay() == 9 * TicksPerHour
    ensures FromCivil(2020, 6, 1, 9, 0, 0, 60).offsetMinutes == 60
  {
    assert DaysBeforeYear(2024) + DaysBeforeMonth(2024, 3) == day - 9;
  }

  /** ToNullableDateTimeOffset applied to a text field; a null field parses to null. */
  function ParseField(parse: string -> Option<ValidDateTimeOffset>, field: Option<string>): Option<ValidDateTimeOffset> {
    match field
    case None => None
    case Some(text) => parse(text)
  }

  /** What PrepareAndScheduleToastNotification asks of the toast service. */
  datatype ToastDecision =
    | CancelToast(key: int)             // RemoveScheduledToast, keyed by the task id
    | NoToast                           // nothing: no reminder can be computed
    | Schedule(times: ToastTimes)       // ScheduleToast with the task's current data
    | Threw(fault: Fault)               // the instant arithmetic left the calendar

  /**
   * The scheduling decision for task `t`: the "None" label cancels the toast
   * keyed by the task id whatever the dates say; otherwise a due date or time
   * due that is missing or unreadable yields nothing; otherwise the toast is
   * scheduled at the resolved instants.
   */
  function Decide(parse: string -> Option<ValidDateTimeOffset>, t: Task): (d: ToastDecision)
    ensures d.CancelToast? <==> t.reminderTime == NoReminderLabel
    ensures d.CancelToast? ==> d.key == t.id
    ensures d.NoToast? <==> t.reminderTime != NoReminderLabel
                            && (ParseField(parse, t.dueDate).None? || ParseField(parse, t.timeDue).None?)
    ensures d.Schedule? || d.Threw? ==>
              && ParseField(parse, t.dueDate).Some? && ParseField(parse, t.timeDue).Some?
              && var r := Resolve(ParseField(parse, t.dueDate).value, ParseField(parse, t.timeDue).value, t.reminderTime);
                 (d.Schedule? ==> r == Ok(d.times)) && (d.Threw? ==> r == Err(d.fault))
  {
    if t.reminderTime == NoReminderLabel then CancelToast(t.id)
    else
      match (ParseField(parse, t.dueDate), ParseField(parse, t.timeDue))
      case (Some(date), Some(time)) =>
        (match Resolve(date, time, t.reminderTime)
         case Ok(times) => Schedule(times)
         case Err(e) => Threw(e))
      case _ => NoToast
  }

  /**
   * IsReminderInformationNull (despite its name, true when the information is
   * all there): the due date text is neither null nor empty, the time due is
   * not null, and a reminder other than "None" is chosen.
   */
  predicate HasReminderInformation(t: Task) {
    && t.dueDate.Some? && t.dueDate.value != ""
    && t.timeDue.Some?
    && t.reminderTime != NoReminderLabel
    && t.reminderTime != ""
  }

  /**
   * When the save-time guard lets a task through, the decision never cancels:
   * saving a task whose label is "None" does not remove its toast.
   */
  lemma GuardExcludesCancel(parse: string -> Option<ValidDateTimeOffset>, t: Task)
    requires HasReminderInformation(t)
    ensures !Decide(parse, t).CancelToast?
    ensures Decide(parse, t).NoToast? <==> ParseField(parse, t.dueDate).None? || ParseField(parse, t.timeDue).None?
    ensures t.reminderTime in LabelsOtherThanNone() || ChoiceOf(t.reminderTime).None?
  {
  }

  /**
   * The empty label is not "None": the decision schedules a toast for it, as
   * for any label the switch does not list, and fires it at the due instant.
   */
  lemma EmptyLabelSchedulesAtDue(parse: string -> Option<ValidDateTimeOffset>, t: Task)
    requires t.reminderTime == ""
    requires ParseField(parse, t.dueDate).Some? && ParseField(parse, t.timeDue).Some?
    requires 2 < ParseField(parse, t.dueDate).value.Day() < LastDay
    ensures Decide(parse, t).Schedule?
    ensures Decide(parse, t).times.scheduled.UtcTicks() == Decide(parse, t).times.due.UtcTicks()
  {
    assert ChoiceOf("").None?;
  }

  function LabelsOtherThanNone(): set<string> {
    set c: ReminderChoice | c != NoReminder :: c.Label()
  }

  /**
   * CheckIfPastDue: false when the due date or the time due is missing or
   * unreadable; otherwise whether the due instant lies before `now`.
   */
  function PastDue(parse: string -> Option<ValidDateTimeOffset>, t: Task, now: DateTimeOffset): (r: Result<bool, Fault>)
    ensures ParseField(parse, t.dueDate).None? || ParseField(parse, t.timeDue).None? ==> r == Ok(false)
    ensures r == Ok(true) ==> ParseField(parse, t.dueDate).Some? && ParseField(parse, t.timeDue).Some?
    ensures r.Err? ==> r.error == DateOutOfRange
    ensures ParseField(parse, t.dueDate).Some? && ParseField(parse, t.timeDue).Some? ==>
              var c := Combine(ParseField(parse, t.dueDate).value, ParseField(parse, t.timeDue).value);
              && (c.Ok? ==> r == Ok(Before(c.value, now)))
              && (c.Err? ==> r == Err(DateOutOfRange))
  {
    match ParseField(parse, t.dueDate)
    case None => Ok(false)
    case Some(date) =>
      match ParseField(parse, t.timeDue)
      case None => Ok(false)
      case Some(time) =>
        match Combine(date, time)
        case Err(e) => Err(e)
        case Ok(due) => Ok(Before(due, now))
  }

  /**
   * The past-due check and the toast agree on the due instant: whenever a toast
   * is scheduled, the task is past due exactly when that toast's due instant
   * lies before `now`.
   */
  lemma PastDueAgreesWithToast(parse: string -> Option<ValidDateTimeOffset>, t: Task, now: DateTimeOffset)
    requires Decide(parse, t).Schedule?
    ensures PastDue(parse, t, now) == Ok(Before(Decide(parse, t).times.due, now))
  {
  }
}
