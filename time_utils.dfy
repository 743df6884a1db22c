/**
 * The clinic open-status check of frontend/src/utils/timeUtils.ts. The source reads
 * the clock itself; here the weekday (0 = Sunday, as `Date.getDay` counts) and the
 * hour and minute of "now" are parameters.
 */
module TimeUtils {
  import opened Wrappers
  import opened Strings

  /** One day's opening hours, each bound written "HH:MM". */
  datatype Interval = Interval(open: string, close: string)

  /** The schedule, keyed by lower-case English day name; days may be missing. */
  type WorkingHours = map<string, Interval>

  type Weekday = d: int | 0 <= d < 7
  type Hour = h: int | 0 <= h < 24
  type Minute = m: int | 0 <= m < 60

  const DayNames: seq<string> :=
    ["sunday", "monday", "tuesday", "wednesday", "thursday", "friday", "saturday"]

  /** `days[now.getDay()]`: the name the schedule is looked up under. */
  function DayName(d: Weekday): (name: string)
    ensures name in DayNames
  {
    DayNames[d]
  }

  /** Different weekdays look up different entries. */
  lemma DayNamesDistinct(d1: Weekday, d2: Weekday)
    requires d1 != d2
    ensures DayName(d1) != DayName(d2)
  {
    var n1, n2 := DayName(d1), DayName(d2);
    assert |n1| != |n2| || n1[0] != n2[0];
  }

  /**
   * JavaScript's `Number(part)` for one component of a time string: the empty
   * string is 0, a string of decimal digits its value, anything else NaN (`None`).
   */
  function NumberOf(part: string): (n: Option<int>)
    ensures n.Some? <==> AllDigits(part)
    ensures n.Some? ==> n.value >= 0
    ensures part == "" ==> n == Some(0)
  {
    if AllDigits(part) then Some(DigitsValue(part)) else None
  }

  /**
   * `const [h, m] = t.split(':').map(Number); h * 60 + m`. Fewer than two pieces leave
   * `m` undefined, and undefined or NaN makes the sum NaN (`None`); pieces after the
   * second are ignored.
   */
  function MinutesOf(t: string): (r: Option<int>)
    ensures r.Some? <==> |Split(t, ':')| >= 2 && AllDigits(Split(t, ':')[0]) && AllDigits(Split(t, ':')[1])
    ensures r.Some? ==> r.value >= 0
  {
    var parts := Split(t, ':');
    if |parts| < 2 then None
    else match (NumberOf(parts[0]), NumberOf(parts[1]))
      case (Some(h), Some(m)) => Some(h * 60 + m)
      case _ => None
  }

  /** Minutes since midnight of the current time, as on line 11. */
  function NowMinutes(hour: Hour, minute: Minute): (r: int)
    ensures 0 <= r < 24 * 60
  {
    hour * 60 + minute
  }

  /**
   * `isClinicOpen`: only the entry for today's name is consulted; a missing entry,
   * or a bound that is NaN, reads as closed, and both bounds are inclusive.
   */
  function IsClinicOpen(hours: WorkingHours, day: Weekday, hour: Hour, minute: Minute): (open: bool)
    ensures open ==> DayName(day) in hours
    ensures open ==> MinutesOf(hours[DayName(day)].open).Some? && MinutesOf(hours[DayName(day)].close).Some?
  {
    var now := NowMinutes(hour, minute);
    var name := DayName(day);
    if name !in hours then false
    else
      match (MinutesOf(hours[name].open), MinutesOf(hours[name].close))
      case (Some(o), Some(c)) => o <= now && now <= c
      case _ => false
  }

  /** Two decimal digits with a leading zero, the way the schedule writes hours and minutes. */
  function TwoDigits(n: int): (s: string)
    requires 0 <= n < 100
    ensures |s| == 2 && AllDigits(s)
  {
    [DigitChar(n / 10), DigitChar(n % 10)]
  }

  /** "HH:MM" for a time of day. */
  function FormatTime(h: Hour, m: Minute): string
  {
    TwoDigits(h) + ":" + TwoDigits(m)
  }

  lemma {:induction false} TwoDigitsValue(n: int)
    requires 0 <= n < 100
    ensures NumberOf(TwoDigits(n)) == Some(n)
  {
    var s := TwoDigits(n);
    assert s[..1][..0] == [];
    assert DigitsValue(s[..1]) == n / 10;
    assert s[..|s| - 1] == s[..1];
  }

  /** A well-formed "HH:MM" bound converts to hours * 60 + minutes. */
  lemma {:induction false} MinutesOfFormatted(h: Hour, m: Minute)
    ensures MinutesOf(FormatTime(h, m)) == Some(h * 60 + m)
  {
    var hh, mm := TwoDigits(h), TwoDigits(m);
    assert FormatTime(h, m) == Join([hh, mm], ':');
    SplitJoin([hh, mm], ':');
    TwoDigitsValue(h);
    TwoDigitsValue(m);
  }

  /** Entries for other days never affect the result. */
  lemma OnlyTodayMatters(h1: WorkingHours, h2: WorkingHours, day: Weekday, hour: Hour, minute: Minute)
    requires DayName(day) in h1 <==> DayName(day) in h2
    requires DayName(day) in h1 ==> h1[DayName(day)] == h2[DayName(day)]
    ensures IsClinicOpen(h1, day, hour, minute) == IsClinicOpen(h2, day, hour, minute)
  {
  }

  /** No entry for today: closed at every minute. */
  lemma ClosedWithoutEntry(hours: WorkingHours, day: Weekday, hour: Hour, minute: Minute)
    requires DayName(day) !in hours
    ensures !IsClinicOpen(hours, day, hour, minute)
  {
  }

  /** A bound that does not convert (NaN) makes every comparison false: closed. */
  lemma ClosedWhenBoundIsNaN(hours: WorkingHours, day: Weekday, hour: Hour, minute: Minute)
    requires DayName(day) in hours
    requires MinutesOf(hours[DayName(day)].open).None? || MinutesOf(hours[DayName(day)].close).None?
    ensures !IsClinicOpen(hours, day, hour, minute)
  {
  }

  /**
   * With well-formed bounds the clinic is open exactly when opening <= now <= closing;
   * so it is open at the opening minute and at the closing minute, closed one minute
   * before opening and one minute after closing.
   */
  lemma {:induction false} OpenIffWithinBounds(hours: WorkingHours, day: Weekday,
                                               oh: Hour, om: Minute, ch: Hour, cm: Minute,
                                               hour: Hour, minute: Minute)
    requires DayName(day) in hours
    requires hours[DayName(day)] == Interval(FormatTime(oh, om), FormatTime(ch, cm))
    ensures IsClinicOpen(hours, day, hour, minute) <==>
            oh * 60 + om <= hour * 60 + minute <= ch * 60 + cm
  {
    MinutesOfFormatted(oh, om);
    MinutesOfFormatted(ch, cm);
  }

  /** Overnight hours (closing before opening) never wrap past midnight: closed all day. */
  lemma {:induction false} OvernightNeverOpen(hours: WorkingHours, day: Weekday,
                                              oh: Hour, om: Minute, ch: Hour, cm: Minute,
                                              hour: Hour, minute: Minute)
    requires DayName(day) in hours
    requires hours[DayName(day)] == Interval(FormatTime(oh, om), FormatTime(ch, cm))
    requires ch * 60 + cm < oh * 60 + om
    ensures !IsClinicOpen(hours, day, hour, minute)
  {
    OpenIffWithinBounds(hours, day, oh, om, ch, cm, hour, minute);
  }

  /** Monday 09:00-18:00: open at 09:00 and 18:00, closed at 08:59 and 18:01 and on Tuesday. */
  lemma {:induction false} MondayNineToSix(hours: WorkingHours)
    requires hours == map["monday" := Interval("09:00", "18:00")]
    ensures IsClinicOpen(hours, 1, 9, 0) && IsClinicOpen(hours, 1, 18, 0)
    ensures !IsClinicOpen(hours, 1, 8, 59) && !IsClinicOpen(hours, 1, 18, 1)
    ensures !IsClinicOpen(hours, 2, 12, 0)
  {
    MondayEntry(hours);
    OpenIffWithinBounds(hours, 1, 9, 0, 18, 0, 9, 0);
    OpenIffWithinBounds(hours, 1, 9, 0, 18, 0, 18, 0);
    OpenIffWithinBounds(hours, 1, 9, 0, 18, 0, 8, 59);
    OpenIffWithinBounds(hours, 1, 9, 0, 18, 0, 18, 1);
  }

  /** The one entry of the Monday schedule, written with `FormatTime`. */
  lemma MondayEntry(hours: WorkingHours)
    requires hours == map["monday" := Interval("09:00", "18:00")]
    ensures DayName(1) in hours && hours[DayName(1)] == Interval(FormatTime(9, 0), FormatTime(18, 0))
    ensures DayName(2) !in hours
  {
    assert DayName(1) == "monday" && DayName(2) == "tuesday";
    assert "tuesday"[0] != "monday"[0];
    FormatNine();
    FormatEighteen();
  }

  lemma FormatNine()
    ensures FormatTime(9, 0) == "09:00"
  {
    assert DigitChar(0) == '0' && DigitChar(9) == '9';
  }

  lemma FormatEighteen()
    ensures FormatTime(18, 0) == "18:00"
  {
    assert DigitChar(0) == '0' && DigitChar(1) == '1' && DigitChar(8) == '8';
  }
}
