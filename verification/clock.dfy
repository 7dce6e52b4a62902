/**
 * The part of .NET's DateTimeOffset that the reminder code relies on.
 *
 * A DateTimeOffset is a wall-clock reading, counted in 100-nanosecond ticks
 * from 0001-01-01 00:00:00, together with the UTC offset (whole minutes) the
 * reading was taken in. Both the reading and the UTC instant it denotes must
 * lie within DateTime's range 0001-01-01 .. 9999-12-31; every constructor and
 * every Add* call that would leave that range throws
 * ArgumentOutOfRangeException, modelled here as the `DateOutOfRange` fault.
 */
module Clock {
  import opened Wrappers

  const TicksPerSecond: int := 10_000_000
  const TicksPerMinute: int := 600_000_000
  const TicksPerHour: int := 36_000_000_000
  const TicksPerDay: int := 864_000_000_000

  /** DateTime.MaxValue.Ticks: the last tick of 9999-12-31. */
  const MaxTicks: int := 3_155_378_975_999_999_999

  /** The day number (days since 0001-01-01) of 9999-12-31. */
  const LastDay: int := 3_652_058

  /** DateTimeOffset accepts offsets of at most fourteen hours either way. */
  const MaxOffsetMinutes: int := 840

  predicate InRange(ticks: int) {
    0 <= ticks <= MaxTicks
  }

  datatype DateTimeOffset = DateTimeOffset(clockTicks: int, offsetMinutes: int) {

    /** The instant on the UTC time line; comparisons of DateTimeOffsets use it. */
    function UtcTicks(): int {
      clockTicks - offsetMinutes * TicksPerMinute
    }

    /** The calendar date of the wall-clock reading, as a day number. */
    function Day(): int {
      clockTicks / TicksPerDay
    }

    /** The time of day of the wall-clock reading, in ticks since midnight. */
    function TimeOfDay(): int {
      clockTicks % TicksPerDay
    }

    predicate Valid() {
      && InRange(clockTicks)
      && -MaxOffsetMinutes <= offsetMinutes <= MaxOffsetMinutes
      && InRange(UtcTicks())
    }
  }

  /** The values a DateTimeOffset can actually hold. */
  type ValidDateTimeOffset = d: DateTimeOffset | d.Valid() witness DateTimeOffset(0, 0)

  /**
   * `new DateTimeOffset(date.Year, date.Month, date.Day, time.Hour,
   * time.Minute, time.Second, time.Offset)`: the calendar date of `date`, the
   * time of day of `time` truncated to whole seconds, and the offset of `time`.
   * The wall-clock reading is always in range; the UTC instant may not be, on
   * the first and the last day of the calendar.
   */
  function Combine(date: ValidDateTimeOffset, time: ValidDateTimeOffset): (r: Result<ValidDateTimeOffset, Fault>)
    ensures r.Ok? ==> r.value.Day() == date.Day()
    ensures r.Ok? ==> r.value.TimeOfDay() / TicksPerSecond == time.TimeOfDay() / TicksPerSecond
    ensures r.Ok? ==> r.value.TimeOfDay() % TicksPerSecond == 0
    ensures r.Ok? ==> r.value.offsetMinutes == time.offsetMinutes
    ensures 0 < date.Day() < LastDay ==> r.Ok?
    ensures r.Err? ==> r.error == DateOutOfRange
  {
    var wholeSeconds := time.TimeOfDay() / TicksPerSecond;
    var combined := DateTimeOffset(date.Day() * TicksPerDay + wholeSeconds * TicksPerSecond, time.offsetMinutes);
    if InRange(combined.UtcTicks()) then Ok(combined) else Err(DateOutOfRange)
  }

  /**
   * `d.AddMinutes(n)`, `d.AddHours(n)` and `d.AddDays(n)` for whole `n`: the
   * wall-clock reading moves by `delta` ticks and the offset is kept, so the
   * UTC instant moves by exactly `delta` too. Throws when either leaves the range.
   */
  function Shift(d: ValidDateTimeOffset, delta: int): (r: Result<ValidDateTimeOffset, Fault>)
    ensures r.Ok? ==> r.value.UtcTicks() == d.UtcTicks() + delta
    ensures r.Ok? ==> r.value.offsetMinutes == d.offsetMinutes
    ensures r.Ok? <==> InRange(d.clockTicks + delta) && InRange(d.UtcTicks() + delta)
    ensures r.Err? ==> r.error == DateOutOfRange
  {
    var moved := DateTimeOffset(d.clockTicks + delta, d.offsetMinutes);
    if moved.Valid() then Ok(moved) else Err(DateOutOfRange)
  }

  /** DateTimeOffset.Compare(a, b) < 0: `a` is the earlier instant. */
  predicate Before(a: DateTimeOffset, b: DateTimeOffset) {
    a.UtcTicks() < b.UtcTicks()
  }

  // Proleptic Gregorian calendar, used to write readings as dates.

  predicate IsLeapYear(year: int) {
    year % 4 == 0 && (year % 100 != 0 || year % 400 == 0)
  }

  function DaysBeforeYear(year: int): int {
    var y := year - 1;
    365 * y + y / 4 - y / 100 + y / 400
  }

  function DaysBeforeMonth(year: int, month: int): int {
    var cumulative := [0, 31, 59, 90, 120, 151, 181, 212, 243, 273, 304, 334];
    (if 1 <= month <= 12 then cumulative[month - 1] else 0)
    + (if month > 2 && IsLeapYear(year) then 1 else 0)
  }

  /** The reading `year-month-day hour:minute:second` at the given offset. */
  function FromCivil(year: int, month: int, day: int, hour: int, minute: int, second: int, offsetMinutes: int): DateTimeOffset {
    var days := DaysBeforeYear(year) + DaysBeforeMonth(year, month) + day - 1;
    DateTimeOffset(days * TicksPerDay + hour * TicksPerHour + minute * TicksPerMinute + second * TicksPerSecond, offsetMinutes)
  }
}
