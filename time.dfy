/**
 * The conversion of a booking's "H:MM AM|PM" time to a 24-hour time of day and the
 * one-hour slot that starts there (server.js, in addCalendarEvent and again in the
 * POST /api/book handler).
 */
module Time {
  import opened Wrappers
  import opened Text
  import opened Numbers

  /** A minute, in milliseconds: every instant of the model counts milliseconds. */
  const MinuteMs := 60_000
  /** An hour, which is also how long every booking lasts. */
  const HourMs := 3_600_000

  /** A span of time in milliseconds from the start of the booking's day. */
  datatype Interval = Interval(start: int, end: int)

  /**
   * The pieces read out of the time text: `time.split(' ')` gives the clock part and
   * the modifier, `timePart.split(':')` the hours and minutes. A piece the text does
   * not have is `undefined`, here `None`.
   */
  datatype Clock = Clock(hours: string, minutes: Option<string>, modifier: Option<string>)

  /** Element `i` of a destructured array, `undefined` past its end. */
  function Piece(parts: seq<string>, i: nat): Option<string>
  {
    if i < |parts| then Some(parts[i]) else None
  }

  function ReadClock(time: string): Clock
  {
    var halves := Split(time, " ");
    var fields := Split(halves[0], ":");
    Clock(fields[0], Piece(fields, 1), Piece(halves, 1))
  }

  /** A value as a template literal writes it: `undefined` for a missing one. */
  function Show(o: Option<string>): string
  {
    match o
    case Some(s) => s
    case None => "undefined"
  }

  /** The first conversion step: the hour text "12" becomes "00". */
  function Zeroed(hours: string): string
  {
    if hours == "12" then "00" else hours
  }

  /**
   * The second step: only for the modifier "PM", the hour becomes the number parsed
   * from the zeroed text plus 12 (NaN stays NaN); otherwise the zeroed text stays.
   */
  function Afternoon(zeroed: string, modifier: Option<string>, parsed: Option<int>): string
  {
    if modifier == Some("PM") then
      match parsed
      case None => "NaN"
      case Some(n) => IntText(n + 12)
    else zeroed
  }

  /**
   * The hour text after the two conversion steps, in the source's order.
   * `decimalRadix` tells whether `parseInt` is given radix 10.
   */
  function HourText(hours: string, modifier: Option<string>, decimalRadix: bool): string
  {
    Afternoon(Zeroed(hours), modifier, ParseInt(Zeroed(hours), decimalRadix))
  }

  /**
   * The time of day, in milliseconds, that the date-time text written with these hour
   * and minute texts denotes, or `None` when it is an invalid date. Which texts the
   * runtime's date parser accepts is abstracted: decimal hours below 24 and decimal
   * minutes below 60.
   */
  function TimeOfDay(hourText: string, minuteText: string): (t: Option<int>)
    ensures t.Some? ==> 0 <= t.value < 24 * HourMs
    ensures t.Some? <==> IsDecimal(hourText) && IsDecimal(minuteText)
                         && Decimal(hourText) < 24 && Decimal(minuteText) < 60
  {
    if IsDecimal(hourText) && IsDecimal(minuteText) && Decimal(hourText) < 24 && Decimal(minuteText) < 60
    then Some(Decimal(hourText) * HourMs + Decimal(minuteText) * MinuteMs)
    else None
  }

  /**
   * The slot a booking for `time` occupies: from the converted time of day to one
   * hour later; `None` when the start is an invalid date.
   */
  function SlotAt(time: string, decimalRadix: bool): (slot: Option<Interval>)
    ensures slot.Some? ==> slot.value.end == slot.value.start + HourMs
    ensures slot.Some? ==> 0 <= slot.value.start < 24 * HourMs
  {
    SlotOfClock(ReadClock(time), decimalRadix)
  }

  /** The slot of a time already read into its pieces. */
  function SlotOfClock(clock: Clock, decimalRadix: bool): (slot: Option<Interval>)
    ensures slot.Some? ==> slot.value.end == slot.value.start + HourMs
    ensures slot.Some? ==> 0 <= slot.value.start < 24 * HourMs
  {
    SlotFrom(HourText(clock.hours, clock.modifier, decimalRadix), Show(clock.minutes))
  }

  /** The slot starting at the time of day written with these hour and minute texts. */
  function SlotFrom(hourText: string, minuteText: string): (slot: Option<Interval>)
    ensures slot.Some? ==> slot.value.end == slot.value.start + HourMs
    ensures slot.Some? ==> 0 <= slot.value.start < 24 * HourMs
  {
    match TimeOfDay(hourText, minuteText)
    case None => None
    case Some(start) => Some(Interval(start, start + HourMs))
  }

  /** The slot as addCalendarEvent computes it, with `parseInt(hours, 10)`. */
  function Slot(time: string): Option<Interval>
  {
    SlotAt(time, true)
  }

  /** The slot as the POST /api/book handler computes it, with `parseInt(hours)`. */
  function CheckedSlot(time: string): Option<Interval>
  {
    SlotAt(time, false)
  }

  /** "12" is midnight before noon: it becomes hour 0, and with "PM" hour 12, never 24. */
  lemma TwelveIsZeroOrNoon(modifier: Option<string>, decimalRadix: bool)
    ensures HourText("12", modifier, decimalRadix) == if modifier == Some("PM") then "12" else "00"
  {
    if modifier == Some("PM") {
      DoubleZero();
      assert ParseInt("00", decimalRadix) == Some(0);
      TwelveText();
    }
  }

  /** With "PM" any other decimal hour gains 12. */
  lemma PmAddsTwelve(hours: string, decimalRadix: bool)
    requires IsDecimal(hours) && hours != "12"
    ensures IsDecimal(HourText(hours, Some("PM"), decimalRadix))
    ensures Decimal(HourText(hours, Some("PM"), decimalRadix)) == Decimal(hours) + 12
  {
  }

  /** With "PM" an hour text other than "12" that `parseInt` reads as `n` becomes the text of `n + 12`. */
  lemma PmAddsTwelveToParsed(hours: string, decimalRadix: bool, n: nat)
    requires hours != "12" && ParseInt(hours, decimalRadix) == Some(n)
    ensures HourText(hours, Some("PM"), decimalRadix) == NatText(n + 12)
    ensures IsDecimal(HourText(hours, Some("PM"), decimalRadix))
    ensures Decimal(HourText(hours, Some("PM"), decimalRadix)) == n + 12
  {
  }

  /** Without "PM" every hour text but "12" is left exactly as written. */
  lemma OtherModifierKeepsHour(hours: string, modifier: Option<string>, decimalRadix: bool)
    requires modifier != Some("PM") && hours != "12"
    ensures HourText(hours, modifier, decimalRadix) == hours
  {
  }

  /** A time written "H:MM M" is read back as exactly those three pieces. */
  lemma ReadWellFormedClock(hours: string, minutes: string, modifier: string)
    requires Lacks(hours, ':') && Lacks(hours, ' ')
    requires Lacks(minutes, ':') && Lacks(minutes, ' ') && Lacks(modifier, ' ')
    ensures ReadClock(hours + ":" + minutes + " " + modifier) == Clock(hours, Some(minutes), Some(modifier))
  {
    var clockPart := hours + ":" + minutes;
    assert Lacks(clockPart, ' ') by {
      forall i | 0 <= i < |clockPart| ensures clockPart[i] != ' ' {
        if i < |hours| { assert clockPart[i] == hours[i]; }
        else if i > |hours| { assert clockPart[i] == minutes[i - |hours| - 1]; }
      }
    }
    SplitOnce(clockPart, ' ', modifier);
    SplitOnce(hours, ':', minutes);
  }

  /** `String(12)` is "12". */
  lemma TwelveText()
    ensures NatText(12) == "12"
  {
    assert NatText(12) == NatText(1) + "2";
  }

  /** The modifier written after the clock time. */
  function Meridiem(pm: bool): string
  {
    if pm then "PM" else "AM"
  }

  /**
   * An hour of the 12-hour clock as the booking form writes it: a decimal from 1 to 12,
   * and twelve written exactly "12", since the conversion compares the text and not
   * the number.
   */
  predicate ClockHour(hours: string)
  {
    IsDecimal(hours) && 1 <= Decimal(hours) <= 12 && (Decimal(hours) == 12 ==> hours == "12")
  }

  /** The 24-hour clock hour of hour `h` (1 to 12) of the 12-hour clock, before or after noon. */
  function TwentyFourHour(h: nat, pm: bool): nat
  {
    (if h == 12 then 0 else h) + (if pm then 12 else 0)
  }

  /**
   * The conversion turns the hour of a well-formed "H:MM AM|PM" into its 24-hour clock
   * hour: "12 AM" is 0, "12 PM" is 12, any other hour H stays H before noon and becomes
   * H + 12 after.
   */
  lemma ConvertsClockHour(hours: string, pm: bool)
    requires ClockHour(hours)
    ensures var hourText := HourText(hours, Some(Meridiem(pm)), true);
            IsDecimal(hourText) && Decimal(hourText) == TwentyFourHour(Decimal(hours), pm)
  {
    if hours == "12" {
      TwelveIsZeroOrNoon(Some(Meridiem(pm)), true);
      DoubleZero();
      TwelveText();
    } else {
      assert Decimal(hours) != 12;
      if pm {
        PmAddsTwelve(hours, true);
      } else {
        OtherModifierKeepsHour(hours, Some("AM"), true);
      }
    }
  }

  lemma DecimalLacksSeparators(s: string)
    requires IsDecimal(s)
    ensures Lacks(s, ':') && Lacks(s, ' ')
  {
    forall i | 0 <= i < |s| ensures s[i] != ':' && s[i] != ' ' {
      assert IsDigitIn(s[i], 10);
    }
  }

  /** The slot of a time "H:MM M" whose converted hour is valid starts at that hour and those minutes. */
  lemma SlotOfWellFormed(hours: string, minutes: string, modifier: string, decimalRadix: bool, hour: nat)
    requires Lacks(hours, ':') && Lacks(hours, ' ')
    requires Lacks(minutes, ':') && Lacks(minutes, ' ') && Lacks(modifier, ' ')
    requires var hourText := HourText(hours, Some(modifier), decimalRadix);
             IsDecimal(hourText) && Decimal(hourText) == hour < 24
    requires IsDecimal(minutes) && Decimal(minutes) < 60
    ensures var start := hour * HourMs + Decimal(minutes) * MinuteMs;
            SlotAt(hours + ":" + minutes + " " + modifier, decimalRadix) == Some(Interval(start, start + HourMs))
  {
    ReadWellFormedClock(hours, minutes, modifier);
    SlotOfHourText(HourText(hours, Some(modifier), decimalRadix), minutes, hour);
  }

  /** A valid hour and minute text give the hour starting at that time of day. */
  lemma SlotOfHourText(hourText: string, minutes: string, hour: nat)
    requires IsDecimal(hourText) && Decimal(hourText) == hour < 24
    requires IsDecimal(minutes) && Decimal(minutes) < 60
    ensures var start := hour * HourMs + Decimal(minutes) * MinuteMs;
            SlotFrom(hourText, minutes) == Some(Interval(start, start + HourMs))
  {
  }

  /** The time text "H:MM M" as the booking form sends it. */
  function TimeText(hours: string, minutes: string, modifier: string): string
  {
    hours + ":" + minutes + " " + modifier
  }

  /**
   * The hour and modifier of a time "H:MM M" hold no separator, and the conversion turns
   * them into the 24-hour clock hour `hour`.
   */
  predicate ConvertsTo(hours: string, modifier: string, hour: nat)
  {
    && Lacks(hours, ':') && Lacks(hours, ' ') && Lacks(modifier, ' ')
    && IsDecimal(HourText(hours, Some(modifier), true))
    && Decimal(HourText(hours, Some(modifier), true)) == hour < 24
  }

  /** A well-formed "H:MM AM" or "H:MM PM" converts to the 24-hour clock hour of H. */
  lemma ClockHourConverts(hours: string, pm: bool)
    requires ClockHour(hours)
    ensures ConvertsTo(hours, Meridiem(pm), TwentyFourHour(Decimal(hours), pm))
  {
    ConvertsClockHour(hours, pm);
    DecimalLacksSeparators(hours);
  }

  /**
   * The slot of a time "H:MM M" whose hour converts to `hour` starts at that hour and
   * the given minutes, and ends an hour later.
   */
  lemma SlotOfTime(hours: string, minutes: string, modifier: string, hour: nat)
    requires ConvertsTo(hours, modifier, hour) && IsDecimal(minutes) && Decimal(minutes) < 60
    ensures var start := hour * HourMs + Decimal(minutes) * MinuteMs;
            Slot(TimeText(hours, minutes, modifier)) == Some(Interval(start, start + HourMs))
  {
    DecimalLacksSeparators(minutes);
    SlotOfWellFormed(hours, minutes, modifier, true, hour);
  }

  /** At the same minutes, the slot of the next hour starts where this one ends. */
  lemma NextHourFollows(hours: string, next: string, minutes: string, modifier: string, hour: nat)
    requires ConvertsTo(hours, modifier, hour) && ConvertsTo(next, modifier, hour + 1)
    requires IsDecimal(minutes) && Decimal(minutes) < 60
    ensures Slot(TimeText(hours, minutes, modifier)).Some? && Slot(TimeText(next, minutes, modifier)).Some?
    ensures Slot(TimeText(next, minutes, modifier)).value.start == Slot(TimeText(hours, minutes, modifier)).value.end
  {
    SlotOfTime(hours, minutes, modifier, hour);
    SlotOfTime(next, minutes, modifier, hour + 1);
  }

  /** Both conversions give the same hour text unless that text is hexadecimal. */
  lemma HourSitesAgree(hours: string, modifier: Option<string>)
    requires !HexPrefixed(hours)
    ensures HourText(hours, modifier, true) == HourText(hours, modifier, false)
  {
    assert !HexPrefixed(Zeroed(hours)) by { DecimalIsUnsigned("00"); }
    ParseIntRadixIrrelevant(Zeroed(hours));
  }

  /** Both conversion sites give the same slot unless the hour text is hexadecimal. */
  lemma SitesAgree(time: string)
    requires !HexPrefixed(ReadClock(time).hours)
    ensures Slot(time) == CheckedSlot(time)
  {
    var clock := ReadClock(time);
    HourSitesAgree(clock.hours, clock.modifier);
    var minutes := Show(clock.minutes);
    assert TimeOfDay(HourText(clock.hours, clock.modifier, true), minutes)
        == TimeOfDay(HourText(clock.hours, clock.modifier, false), minutes);
  }
}
