/**
 * The POST /api/book handler (server.js): validate the request, list the day's events,
 * refuse an overlapping slot, write the calendar event, mail the owner, reply. The
 * provider's calendar and the owner's mailbox are the state it changes; what the
 * collaborators do during one request is given as input. Also the read side, the
 * GET /api/appointments handler.
 */
module Booking {
  import opened Wrappers
  import opened Text
  import opened Numbers
  import opened Time
  import opened Calendar
  import opened Codec

  /** The JSON body of POST /api/book; a field the body lacks is `None`. */
  datatype Request = Request(
    name: Option<string>,
    phone: Option<string>,
    service: Option<string>,
    date: Option<string>,
    time: Option<string>)

  /** `!field` is false: the field is there and is not the empty string. */
  predicate Given(field: Option<string>)
  {
    field.Some? && field.value != ""
  }

  /** Name, service, date and time are given; the phone is optional. */
  predicate Complete(req: Request)
  {
    Given(req.name) && Given(req.service) && Given(req.date) && Given(req.time)
  }

  /** The status and JSON body of a reply. */
  datatype Reply = Reply(status: int, message: string, error: Option<string>)

  const MissingFields := Reply(400, "Name, service, date, and time are required.", None)
  const AlreadyBooked := Reply(400, "Sorry, this time slot is already booked.", None)
  const Booked := Reply(200, "Booking successful!", None)

  /** The 500 reply, carrying the message of the error that ended the request. */
  function Failed(error: string): Reply
  {
    Reply(500, "Booking failed", Some(error))
  }

  /** The message of the RangeError that `toISOString` throws on an Invalid Date. */
  const InvalidTimeValue := "Invalid time value"

  /**
   * What the collaborators do during one request: the listing's error, if any; the id
   * the provider gives a new event and the insert's error, if any; whether a mail
   * account is configured and the error of sending, if any.
   */
  datatype Providers = Providers(
    listError: Option<string>,
    newId: string,
    insertError: Option<string>,
    mailConfigured: bool,
    mailError: Option<string>)

  datatype Mail = Mail(subject: string, text: string)

  /** The notification sendEmailNotification sends to the owner. */
  function Notification(req: Request): Mail
  {
    Mail("New Booking: " + Show(req.name),
      "New appointment booked!\n\nName: " + Show(req.name) + "\nPhone: " + Show(req.phone)
      + "\nService: " + Show(req.service) + "\nDate: " + Show(req.date) + "\nTime: " + Show(req.time))
  }

  /** The event addCalendarEvent writes for a request, once the provider has given it `id`. */
  function BookingEvent(id: string, req: Request, slot: Interval): (e: Event)
    ensures e.id == id && Span(e) == Some(slot)
  {
    Event(id,
      Some(Summary(Show(req.name), Show(req.service))),
      Some(Description(req.phone, Show(req.service))),
      EventTime(Some(slot.start), None),
      EventTime(Some(slot.end), None))
  }

  /** The requested slot is a valid time and overlaps one of the day's events. */
  predicate Taken(slot: Option<Interval>, day: seq<Event>)
  {
    slot.Some? && AnyOverlap(slot.value, day)
  }

  /** The request gets as far as a successful calendar insert, given the day's events. */
  predicate Inserted(req: Request, env: Providers, day: seq<Event>)
  {
    Complete(req) && env.listError.None? && !Taken(Slot(req.time.value), day)
    && Slot(req.time.value).Some? && env.insertError.None?
  }

  /** The request also gets the owner's notification sent. */
  predicate Mailed(req: Request, env: Providers, day: seq<Event>)
  {
    Inserted(req, env, day) && env.mailConfigured && env.mailError.None?
  }

  /**
   * The reply to a request, given the day's events, following the handler's steps: the
   * field check, the listing, the overlap test, the insert (which fails first on an
   * Invalid Date), the mail (skipped when no account is configured).
   */
  function Outcome(req: Request, env: Providers, day: seq<Event>): Reply
  {
    if !Complete(req) then MissingFields
    else if env.listError.Some? then Failed(env.listError.value)
    else if Taken(Slot(req.time.value), day) then AlreadyBooked
    else if Slot(req.time.value).None? then Failed(InvalidTimeValue)
    else if env.insertError.Some? then Failed(env.insertError.value)
    else if env.mailConfigured && env.mailError.Some? then Failed(env.mailError.value)
    else Booked
  }

  /**
   * The reply of the handler as written: the overlap test uses the slot converted with
   * `parseInt(hours)`, while the event that addCalendarEvent then writes, and the
   * RangeError of an Invalid Date, come from its own conversion with `parseInt(hours, 10)`.
   */
  function OutcomeAsWritten(req: Request, env: Providers, day: seq<Event>): Reply
  {
    if !Complete(req) then MissingFields
    else if env.listError.Some? then Failed(env.listError.value)
    else if Taken(CheckedSlot(req.time.value), day) then AlreadyBooked
    else if Slot(req.time.value).None? then Failed(InvalidTimeValue)
    else if env.insertError.Some? then Failed(env.insertError.value)
    else if env.mailConfigured && env.mailError.Some? then Failed(env.mailError.value)
    else Booked
  }

  /** Unless the hour of the time has a "0x" prefix, the handler as written replies as `Outcome`. */
  lemma AsWrittenAgreesWithoutHexHour(req: Request, env: Providers, day: seq<Event>)
    requires req.time.Some? ==> !HexPrefixed(ReadClock(req.time.value).hours)
    ensures OutcomeAsWritten(req, env, day) == Outcome(req, env, day)
  {
    if req.time.Some? {
      SitesAgree(req.time.value);
    }
  }

  /** One event clashes with another: it has a span, and that span overlaps the other. */
  predicate Clash(e: Event, other: Event)
  {
    Span(e).Some? && Overlaps(Span(e).value, other)
  }

  /** No event of a day clashes with one listed before it. */
  predicate NoDoubleBooking(day: seq<Event>)
  {
    forall i, j :: 0 <= i < j < |day| ==> !Clash(day[j], day[i])
  }

  /** A request is refused with 400 exactly when a field is missing or the slot is taken. */
  lemma RefusedIffMissingOrTaken(req: Request, env: Providers, day: seq<Event>)
    ensures Outcome(req, env, day).status == 400 <==>
              !Complete(req) || (env.listError.None? && Taken(Slot(req.time.value), day))
  {
  }

  /** A refused request writes nothing and mails nothing. */
  lemma RefusalWritesNothing(req: Request, env: Providers, day: seq<Event>)
    requires Outcome(req, env, day).status == 400
    ensures !Inserted(req, env, day) && !Mailed(req, env, day)
  {
  }

  /**
   * 200 comes only after the insert and the mail both succeeded (or mail is not
   * configured), and a 500 after a successful insert can only be the mail's failure.
   */
  lemma SuccessOnlyAfterInsertAndMail(req: Request, env: Providers, day: seq<Event>)
    ensures Outcome(req, env, day) == Booked <==>
              Inserted(req, env, day) && (env.mailConfigured ==> env.mailError.None?)
    ensures Inserted(req, env, day) && Outcome(req, env, day).status == 500 ==>
              env.mailConfigured && env.mailError.Some?
              && Outcome(req, env, day) == Failed(env.mailError.value)
    ensures Mailed(req, env, day) ==> Outcome(req, env, day) == Booked
  {
  }

  /** Every failure of a collaborator ends the request with 500 and that collaborator's error. */
  lemma FailuresReplyWithTheirError(req: Request, env: Providers, day: seq<Event>)
    requires Complete(req)
    ensures env.listError.Some? ==> Outcome(req, env, day) == Failed(env.listError.value)
    ensures (env.listError.None? && !Taken(Slot(req.time.value), day) && Slot(req.time.value).Some?
             && env.insertError.Some?) ==> Outcome(req, env, day) == Failed(env.insertError.value)
    ensures (env.listError.None? && Slot(req.time.value).None?) ==> Outcome(req, env, day) == Failed(InvalidTimeValue)
  {
  }

  /** The event written for a free slot clashes with nothing already on the day, nor they with it. */
  lemma {:induction false} FreeSlotKeepsDayUnbooked(day: seq<Event>, id: string, req: Request, slot: Interval)
    requires NoDoubleBooking(day) && !AnyOverlap(slot, day)
    ensures NoDoubleBooking(day + [BookingEvent(id, req, slot)])
  {
    var e := BookingEvent(id, req, slot);
    var day' := day + [e];
    assert Span(e) == Some(slot);
    forall i, j | 0 <= i < j < |day'| ensures !Clash(day'[j], day'[i]) {
      if j == |day| {
        assert day'[i] == day[i];
        assert !Overlaps(slot, day[i]);
      } else {
        assert day'[j] == day[j] && day'[i] == day[i];
      }
    }
  }

  /** The provider's calendar and the owner's mailbox as the handlers see and change them. */
  class Scheduler {
    /** Each day's events, by the date text they were listed and booked under. */
    var calendar: map<string, seq<Event>>
    /** The notifications sent to the owner, oldest first. */
    var outbox: seq<Mail>

    constructor ()
      ensures calendar == map[] && outbox == []
    {
      calendar := map[];
      outbox := [];
    }

    /** What listCalendarEvents returns for `date` when the provider answers. */
    function DayEvents(date: string): seq<Event>
      reads this
    {
      if date in calendar then calendar[date] else []
    }

    /** POST /api/book, with the slot computed once and used for both the check and the insert. */
    method Book(req: Request, env: Providers) returns (reply: Reply)
      modifies this
      ensures reply == Outcome(req, env, old(DayEvents(Show(req.date))))
      ensures calendar == if Inserted(req, env, old(DayEvents(Show(req.date))))
                          then old(calendar)[req.date.value := old(DayEvents(req.date.value))
                                 + [BookingEvent(env.newId, req, Slot(req.time.value).value)]]
                          else old(calendar)
      ensures outbox == if Mailed(req, env, old(DayEvents(Show(req.date))))
                        then old(outbox) + [Notification(req)]
                        else old(outbox)
      ensures forall d :: NoDoubleBooking(old(DayEvents(d))) ==> NoDoubleBooking(DayEvents(d))
    {
      if !Complete(req) {
        return MissingFields;
      }
      var date := req.date.value;
      var slot := Slot(req.time.value);
      if env.listError.Some? {
        return Failed(env.listError.value);
      }
      var existing := DayEvents(date);
      if slot.Some? && AnyOverlap(slot.value, existing) {
        return AlreadyBooked;
      }
      if slot.None? {
        return Failed(InvalidTimeValue);
      }
      if env.insertError.Some? {
        return Failed(env.insertError.value);
      }
      if NoDoubleBooking(existing) {
        FreeSlotKeepsDayUnbooked(existing, env.newId, req, slot.value);
      }
      calendar := calendar[date := existing + [BookingEvent(env.newId, req, slot.value)]];
      if env.mailConfigured {
        if env.mailError.Some? {
          return Failed(env.mailError.value);
        }
        outbox := outbox + [Notification(req)];
      }
      return Booked;
    }

    /** GET /api/appointments: the day's events projected for the admin page. */
    method Appointments(date: Option<string>, listError: Option<string>) returns (listing: Listing)
      ensures !Given(date) ==> listing == Listing(400, "Date query parameter is required (YYYY-MM-DD).", [])
      ensures Given(date) && listError.Some? ==> listing == Listing(500, "Failed to fetch appointments.", [])
      ensures Given(date) && listError.None? ==>
                listing.status == 200 && listing.appointments == Project(DayEvents(date.value))
    {
      if !Given(date) {
        return Listing(400, "Date query parameter is required (YYYY-MM-DD).", []);
      }
      if listError.Some? {
        return Listing(500, "Failed to fetch appointments.", []);
      }
      return Listing(200, "", Project(DayEvents(date.value)));
    }
  }

  /** The reply of GET /api/appointments: a status, an error message, the appointments. */
  datatype Listing = Listing(status: int, message: string, appointments: seq<Appointment>)

  /** A booked event, listed and shown on the admin page, reads back as its request. */
  lemma ListedBookingReadsBack(id: string, req: Request, slot: Interval)
    requires Complete(req)
    requires NameKeepsSeparator(req.name.value) && !Contains(req.service.value, Separator)
    requires SingleLine(Show(req.phone))
    ensures DecodeRows(Project([BookingEvent(id, req, slot)]))
            == Some([Row(id, req.name.value, req.service.value, Show(req.phone))])
  {
    var e := BookingEvent(id, req, slot);
    var name, service := req.name.value, req.service.value;
    SummaryRoundTrip(name, service);
    PhoneRoundTrip(req.phone, service);
    var apps := Project([e]);
    var app := apps[0];
    assert app.summary == Some(Summary(name, service));
    assert app.description == Some(Description(req.phone, service));
    var row := Row(id, name, service, Show(req.phone));
    assert DecodeRow(app) == Some(row);
    var rows := DecodeRows(apps);
    assert rows.Some?;
    assert rows.value == [rows.value[0]];
  }

  /**
   * Once "H:MM" is booked, a request for any other minutes of the same hour H and
   * modifier is refused: the two slots share part of that hour.
   */
  lemma SameHourIsRefused(hours: string, booked: string, minutes: string, modifier: string, hour: nat,
                          id: string, bookedBy: Request, req: Request, env: Providers)
    requires ConvertsTo(hours, modifier, hour)
    requires IsDecimal(booked) && Decimal(booked) < 60 && IsDecimal(minutes) && Decimal(minutes) < 60
    requires Complete(req) && req.time == Some(TimeText(hours, minutes, modifier)) && env.listError.None?
    ensures Slot(TimeText(hours, booked, modifier)).Some?
    ensures Outcome(req, env, [BookingEvent(id, bookedBy, Slot(TimeText(hours, booked, modifier)).value)]) == AlreadyBooked
  {
    SlotOfTime(hours, booked, modifier, hour);
    SlotOfTime(hours, minutes, modifier, hour);
    var e := BookingEvent(id, bookedBy, Slot(TimeText(hours, booked, modifier)).value);
    assert Overlaps(Slot(TimeText(hours, minutes, modifier)).value, [e][0]);
  }

  /**
   * Once "H:MM" is booked, the same minutes of the next hour of the 24-hour clock are
   * still free: the slots only touch.
   */
  lemma NextHourIsFree(hours: string, next: string, minutes: string, modifier: string, hour: nat, id: string, booked: Request)
    requires ConvertsTo(hours, modifier, hour) && ConvertsTo(next, modifier, hour + 1)
    requires IsDecimal(minutes) && Decimal(minutes) < 60
    ensures Slot(TimeText(hours, minutes, modifier)).Some? && Slot(TimeText(next, minutes, modifier)).Some?
    ensures !Taken(Slot(TimeText(next, minutes, modifier)), [BookingEvent(id, booked, Slot(TimeText(hours, minutes, modifier)).value)])
  {
    NextHourFollows(hours, next, minutes, modifier, hour);
    var first := Slot(TimeText(hours, minutes, modifier)).value;
    var e := BookingEvent(id, booked, first);
    TouchingDoesNotOverlap(Slot(TimeText(next, minutes, modifier)).value, e);
    assert !Overlaps(Slot(TimeText(next, minutes, modifier)).value, [e][0]);
  }

  /**
   * On the 12-hour clock: once "H:MM AM" (or PM) is booked, "H+1:MM" with the same
   * modifier is still free, from 1 to 10 o'clock, as when 10:00 AM and then 11:00 AM
   * are both booked.
   */
  lemma NextClockHourIsFree(hours: string, next: string, minutes: string, pm: bool, id: string, booked: Request)
    requires ClockHour(hours) && ClockHour(next) && Decimal(next) == Decimal(hours) + 1 <= 11
    requires IsDecimal(minutes) && Decimal(minutes) < 60
    ensures Slot(TimeText(hours, minutes, Meridiem(pm))).Some? && Slot(TimeText(next, minutes, Meridiem(pm))).Some?
    ensures !Taken(Slot(TimeText(next, minutes, Meridiem(pm))),
                   [BookingEvent(id, booked, Slot(TimeText(hours, minutes, Meridiem(pm))).value)])
  {
    ClockHourConverts(hours, pm);
    ClockHourConverts(next, pm);
    NextHourIsFree(hours, next, minutes, Meridiem(pm), TwentyFourHour(Decimal(hours), pm), id, booked);
  }

  /** "0x1" has no blank or sign before its digits and carries the hexadecimal prefix. */
  lemma HexUnsigned()
    ensures Unsigned("0x1") == "0x1" && HexPrefixed("0x1") && !IsNegative("0x1")
  {
    var s := "0x1";
    assert !IsJsSpace(s[0]);
    assert TrimStart(s) == s;
  }

  /** `parseInt("0x1")` reads the hexadecimal 1. */
  lemma HexParse()
    ensures ParseInt("0x1", false) == Some(1)
  {
    HexUnsigned();
    assert "0x1"[2..] == "1";
    assert LeadingDigits("1", 16) == "1" by { assert AllDigitsIn("1", 16); }
    assert ValueIn("1", 16) == 1 by { assert "1"[..0] == ""; }
  }

  /** `parseInt("0x1", 10)` stops at the 'x' and reads 0. */
  lemma DecimalParseOfHex()
    ensures ParseInt("0x1", true) == Some(0)
  {
    HexUnsigned();
    var s := "0x1";
    var tail := s[1..];
    assert tail == "x1";
    assert DigitOf(tail[0]) == Some(33);
    assert LeadingDigits(tail, 10) == "";
    assert IsDigitIn(s[0], 10);
    assert LeadingDigits(s, 10) == [s[0]] + LeadingDigits(tail, 10);
    assert ValueIn("0", 10) == 0 by { assert "0"[..0] == ""; }
  }

  /** Without a radix, "0x1" PM becomes hour 13. */
  lemma HexHourWithoutRadix()
    ensures IsDecimal(HourText("0x1", Some("PM"), false)) && Decimal(HourText("0x1", Some("PM"), false)) == 13
  {
    HexParse();
    PmAddsTwelveToParsed("0x1", false, 1);
  }

  /** With radix 10, "0x1" is read up to the 'x': 0, so "0x1" PM becomes hour 12. */
  lemma HexHourWithRadix()
    ensures IsDecimal(HourText("0x1", Some("PM"), true)) && Decimal(HourText("0x1", Some("PM"), true)) == 12
  {
    DecimalParseOfHex();
    PmAddsTwelveToParsed("0x1", true, 0);
  }

  /** "0x1:00 PM" is read as the pieces "0x1", "00" and "PM". */
  lemma HexTimePieces()
    ensures "0x1" + ":" + "00" + " " + "PM" == "0x1:00 PM"
    ensures Lacks("0x1", ':') && Lacks("0x1", ' ')
    ensures Lacks("00", ':') && Lacks("00", ' ') && Lacks("PM", ' ')
  {
  }

  /** The handler's check, without a radix, looks at 13:00 to 14:00 for "0x1:00 PM". */
  lemma HexCheckedSlot()
    ensures CheckedSlot("0x1:00 PM") == Some(Interval(13 * HourMs, 14 * HourMs))
  {
    HexTimePieces();
    DoubleZero();
    HexHourWithoutRadix();
    SlotOfWellFormed("0x1", "00", "PM", false, 13);
  }

  /** The event written, with radix 10, covers 12:00 to 13:00 for "0x1:00 PM". */
  lemma HexWrittenSlot()
    ensures Slot("0x1:00 PM") == Some(Interval(12 * HourMs, 13 * HourMs))
  {
    HexTimePieces();
    DoubleZero();
    HexHourWithRadix();
    SlotOfWellFormed("0x1", "00", "PM", true, 12);
  }

  /**
   * The handler checks a time against the day with `parseInt(hours)` but writes it with
   * `parseInt(hours, 10)`. For "0x1:00 PM" the check looks at 13:00 to 14:00, which is
   * free beside an event from 12:00 to 13:00, while the event written covers 12:00 to
   * 13:00 and so double-books it.
   */
  lemma HexHourEscapesCheck(noon: Event, id: string, req: Request)
    requires Span(noon) == Some(Interval(12 * HourMs, 13 * HourMs))
    ensures CheckedSlot("0x1:00 PM") == Some(Interval(13 * HourMs, 14 * HourMs))
    ensures Slot("0x1:00 PM") == Some(Interval(12 * HourMs, 13 * HourMs))
    ensures !Taken(CheckedSlot("0x1:00 PM"), [noon])
    ensures Clash(BookingEvent(id, req, Slot("0x1:00 PM").value), noon)
  {
    HexCheckedSlot();
    HexWrittenSlot();
    assert !Overlaps(Interval(13 * HourMs, 14 * HourMs), [noon][0]);
  }

  /**
   * The handler as written books "0x1:00 PM" beside an event from 12:00 to 13:00 and
   * writes an event that clashes with it, where `Outcome` refuses the request.
   */
  lemma HexHourDoubleBooks(noon: Event, req: Request, env: Providers)
    requires Span(noon) == Some(Interval(12 * HourMs, 13 * HourMs))
    requires Complete(req) && req.time == Some("0x1:00 PM")
    requires env.listError.None? && env.insertError.None? && (env.mailConfigured ==> env.mailError.None?)
    ensures OutcomeAsWritten(req, env, [noon]) == Booked
    ensures Outcome(req, env, [noon]) == AlreadyBooked
    ensures !NoDoubleBooking([noon, BookingEvent(env.newId, req, Slot("0x1:00 PM").value)])
  {
    HexHourEscapesCheck(noon, env.newId, req);
    var day := [noon, BookingEvent(env.newId, req, Slot("0x1:00 PM").value)];
    assert Clash(day[1], day[0]);
    assert Overlaps(Slot("0x1:00 PM").value, [noon][0]);
  }
}
