# Booking service: slot arithmetic, booking decision and event text codec

A Dafny model of the core of a small appointment-booking service. Customers post a
name, an optional phone, a service, a date and a 12-hour time such as "11:00 AM". The
server turns the time into a one-hour slot and refuses it when it overlaps an event
already in the provider's calendar for that day. Otherwise it writes a calendar event
and mails the owner. An admin page lists the day's events and reads the customer,
service and phone back out of each event's summary and description.

The modules follow the program's pieces:

- `Text`: JavaScript's `split` with a string separator, `indexOf`, and `replace` with a
  string pattern (first occurrence only).
- `Numbers`: `parseInt` with radix 10 and with no radix, where a "0x" prefix switches to
  hexadecimal. Also the decimal text `String(n)` writes.
- `Time`: the 12-hour to 24-hour conversion ("12" becomes "00" first, then "PM" adds 12)
  and the one-hour slot. Instants are milliseconds from the start of the booking's day.
- `Calendar`: provider events, the strict overlap test, and the projection served by
  GET /api/appointments.
- `Codec`: the summary `Booking: <name> - <service>` and the description
  `Phone: <phone>\nService: <service>` written by the server. Also their decoding on the
  admin page: the `/Phone: (.*)/` match, the removal of "Booking: " and the split on " - ".
- `Booking`: the POST /api/book handler as the method `Scheduler.Book`. It updates a
  calendar (each day's events, keyed by the date text) and an outbox of notifications.
  `Book` and its specification `Outcome` are the handler with the correction listed
  under "Findings": one slot, converted with radix 10, is both checked and written. The
  handler as written is the function `OutcomeAsWritten`. It replies as `Outcome` unless
  the hour has a "0x" prefix, in which case it can double-book.
  What the calendar provider and the mailer do during one request is an input
  (`Providers`). The read-only GET /api/appointments handler is `Scheduler.Appointments`.

`Book` is proved against the function `Outcome`. Its contract gives the reply, the new
calendar and the new outbox. It also states that a day whose events never overlapped
still has none after any booking. Lemmas about `Outcome` state the handler's
guarantees:

- a 400 refusal means a missing field or a taken slot;
- a refusal writes nothing;
- 200 comes only after both the insert and the mail succeeded.

A value the request lacks is written out the way a template literal writes it:
"undefined". The live handler does not default a missing phone, so the description then
reads `Phone: undefined`. The "Not provided" default appears only in a commented-out
earlier handler.

## Model

| member | source | states |
|---|---|---|
| Text.FindSpec | public/admin.js:73 | the index found is an occurrence of the separator and no occurrence lies before it; none means no occurrence at all |
| Text.SplitJoins | server.js:53-54 | the pieces joined with the separator give back the text, and no piece contains the separator |
| Text.SplitAtFirst | public/admin.js:73-74 | when no occurrence of the separator starts inside the text before it (one may start there and run into the separator, as in "Bob -" before " - "), that text is the first piece and the rest splits on its own |
| Text.SplitOnce | server.js:53-54 | a text with exactly one separator character splits into the two sides |
| Text.ReplaceLeadingOccurrence | public/admin.js:68 | replacing the first occurrence of a pattern that the text starts with removes exactly that prefix and keeps the rest unchanged |
| Numbers.NatText | server.js:60-63 | the decimal text of a number is all digits, denotes that number and has no leading zero |
| Numbers.LeadingDigits | server.js:60 | the digits `parseInt` reads form the longest prefix made only of digits of the radix |
| Numbers.ParseInt | server.js:60 | a decimal text parses to its value; with radix 10, or for a text without a "0x" prefix, the result is NaN exactly when no digit follows the blanks and sign; a number without '-' is not negative |
| Numbers.ParseIntRadixIrrelevant | server.js:291 | `parseInt(s)` and `parseInt(s, 10)` agree on every text without a "0x" prefix |
| Time.TwelveIsZeroOrNoon | server.js:56-61 | hour "12" becomes "00" without "PM" and 12 with "PM", never 24, because the reset runs before the addition |
| Time.PmAddsTwelve | server.js:59-61 | with "PM", every other decimal hour gains exactly 12 |
| Time.OtherModifierKeepsHour | server.js:53-61 | with any modifier other than exactly "PM", an hour other than "12" is left as written |
| Time.ReadWellFormedClock | server.js:53-54 | "H:MM M" is read back as exactly the hours, minutes and modifier it was written from |
| Time.PmAddsTwelveToParsed | server.js:59-61 | with "PM", an hour text other than "12" that `parseInt` reads as a number n ≥ 0 becomes the decimal text of n + 12 |
| Time.HourText | server.js:56-61 | the hour after the two conversion steps; its behaviour is stated by TwelveIsZeroOrNoon, PmAddsTwelve, PmAddsTwelveToParsed and OtherModifierKeepsHour |
| Time.ConvertsClockHour | server.js:53-61 | the hour H of "H:MM AM/PM" becomes its 24-hour clock hour: "12 AM" is 0, "12 PM" is 12, any other H stays H before noon and gains 12 after |
| Time.ClockHourConverts | server.js:53-61 | a well-formed "H:MM AM/PM" holds no stray separator and converts to the 24-hour clock hour of H |
| Time.TimeOfDay | server.js:63 | the time of day lies within the day, and it exists exactly when the hour and minute texts are valid decimals |
| Time.SlotAt | server.js:63-64 | a slot ends exactly one hour (3,600,000 ms) after it starts, and it starts within the day |
| Time.SlotOfWellFormed | server.js:53-64 | a time whose hour converts to a valid hour starts at that hour plus its minutes, which pass through unchanged, and lasts one hour |
| Time.SlotOfTime | server.js:53-64 | the slot of "H:MM M" starts at the converted hour of H plus MM minutes and ends one hour later |
| Time.NextHourFollows | server.js:63-64 | at the same minutes, the slot of the next hour starts exactly where this one ends |
| Time.HourSitesAgree | server.js:290-291 | both conversion sites give the same hour text unless the hour is hexadecimal |
| Time.SitesAgree | server.js:287-294 | the slot checked for overlap equals the slot written unless the hour text has a "0x" prefix |
| Calendar.AnyOverlap | server.js:299-303 | the test is true exactly when some existing event overlaps the slot |
| Calendar.IntersectSymmetric | server.js:302 | the pair test does not depend on which span is the candidate |
| Calendar.TouchingDoesNotOverlap | server.js:299-303 | an event ending exactly at the start, or starting exactly at the end, does not overlap |
| Calendar.AllDayEventUsesDate | server.js:300-301 | an event without `dateTime` is tested on its `date` fields |
| Calendar.NoEventsNoOverlap | server.js:299-303 | an empty day never overlaps |
| Calendar.AnyOverlapAppend | server.js:299-303 | the test over two lists is the disjunction of the tests, so adding events never frees a slot |
| Calendar.Project | server.js:195-201 | the projection keeps count, order, id, summary and description, and takes start and end from `dateTime`, else from `date` |
| Codec.Line | public/admin.js:60 | `.*` captures the longest prefix without a line terminator |
| Codec.Summary | server.js:67 | the summary written; SummaryRoundTrip and TrailingDashBreaksRoundTrip state what the admin page reads back from it |
| Codec.Description | server.js:68 | the description written; PhoneRoundTrip and PhoneCutAtLineBreak state what the admin page reads back from it |
| Codec.MatchPhone | public/admin.js:60 | the match fails exactly when the description has no "Phone: "; otherwise the capture starts right after the first "Phone: " and runs up to the first line terminator or the end |
| Codec.PhoneColumn | public/admin.js:60-61 | 'N/A' when the description is absent, empty or has no "Phone: ", otherwise the text the match captures |
| Codec.CustomerColumn | public/admin.js:73 | the text before the first " - "; SummaryRoundTrip and CustomerOfCutName state its value |
| Codec.ServiceColumn | public/admin.js:74 | the second piece of the split, or 'N/A' when it is absent or empty; SummaryRoundTrip and ServiceOfCutName state its value |
| Codec.DecodeRow | public/admin.js:57-75 | a row exists exactly when the summary is present, and it keeps the id and the phone column |
| Codec.DecodeRows | public/admin.js:57-81 | the table renders exactly when every summary is present, with one row per appointment in order |
| Codec.PhoneRoundTrip | public/admin.js:60-61 | a phone without a line break is read back whole from the description it was written into |
| Codec.PhoneCutAtLineBreak | public/admin.js:60-61 | a phone with a line break is shown only up to that break |
| Codec.DisplayOfSummary | public/admin.js:68 | removing "Booking: " leaves exactly name, separator and service |
| Codec.SummaryRoundTrip | public/admin.js:73-74 | name and service come back unchanged when the service is non-empty, has no " - " and the name neither holds " - " nor ends in " -" |
| Codec.CustomerOfCutName | public/admin.js:73 | a name holding " - " is shown only up to its first " - " |
| Codec.NameWithSeparatorIsCut | public/admin.js:68-73 | the customer column of a summary whose name holds " - " is that name cut short |
| Codec.KeptNameSplits | public/admin.js:73-74 | a name that keeps the separator is the whole first piece of the split, and the text after the separator splits on its own |
| Codec.CutNameSplits | public/admin.js:73-74 | a summary whose name holds " - " splits first at the name's own first " - " |
| Codec.ServiceOfCutName | public/admin.js:68-74 | the service column of such a summary shows the rest of the name after its first " - ", or 'N/A' when that rest is empty, provided the rest keeps the separator |
| Codec.TrailingDashBreaksRoundTrip | public/admin.js:73-74 | the name "Bob -" with the service "Cut" shows as "Bob" and "- Cut", though neither holds " - " |
| Booking.Outcome | server.js:279-325 | the reply of the corrected handler; RefusedIffMissingOrTaken, SuccessOnlyAfterInsertAndMail and FailuresReplyWithTheirError state its guarantees |
| Booking.BookingEvent | server.js:66-77 | the event written carries the provider's id and spans exactly the slot |
| Booking.Notification | server.js:101-106 | the mail sent to the owner; Scheduler.Book states when it joins the outbox |
| Booking.RefusedIffMissingOrTaken | server.js:279-307 | the reply is 400 exactly when name, service, date or time is missing or empty, or the listed day overlaps the slot |
| Booking.RefusalWritesNothing | server.js:305-307 | a refused request neither writes an event nor sends a mail |
| Booking.SuccessOnlyAfterInsertAndMail | server.js:309-317 | 200 exactly when the insert succeeded and the mail succeeded or is not configured; after a successful insert, 500 can only be the mail's failure |
| Booking.FailuresReplyWithTheirError | server.js:319-325 | a failed listing, an invalid start time or a failed insert gives 500 with that error's message |
| Booking.FreeSlotKeepsDayUnbooked | server.js:297-310 | writing an event for a slot that overlaps nothing keeps a day free of double bookings |
| Booking.Scheduler.Book | server.js:276-326 | the corrected handler: the reply is `Outcome`; the event is added to the day only on a successful insert and the mail only after it; nothing changes otherwise; no day gains a double booking |
| Booking.Scheduler.Appointments | server.js:184-209 | 400 without a date, 500 when listing fails, otherwise 200 with the projection of the day's events |
| Booking.ListedBookingReadsBack | server.js:66-68 | a booked event, listed and decoded, gives back the id, name, service and phone of its request |
| Booking.SameHourIsRefused | server.js:299-307 | once "H:MM" is booked, a request for any minutes of the same hour and modifier is refused with 400 |
| Booking.NextHourIsFree | server.js:299-303 | once "H:MM" is booked, the same minutes of the next hour of the 24-hour clock are still free |
| Booking.NextClockHourIsFree | server.js:287-303 | on the 12-hour clock, once "H:MM AM" (or PM) is booked for H from 1 to 10, "H+1:MM" with the same modifier is still free, as when 10:00 AM and then 11:00 AM are both booked |
| Booking.OutcomeAsWritten | server.js:279-325 | the reply of the handler as written, whose overlap test uses `parseInt(hours)`; AsWrittenAgreesWithoutHexHour and HexHourDoubleBooks state how it relates to `Outcome` |
| Booking.AsWrittenAgreesWithoutHexHour | server.js:287-294 | the handler as written replies as `Outcome` whenever the hour of the time has no "0x" prefix |
| Booking.HexParse | server.js:291 | `parseInt("0x1")` reads the hexadecimal 1 |
| Booking.DecimalParseOfHex | server.js:60 | `parseInt("0x1", 10)` reads only the leading 0 |
| Booking.HexHourWithoutRadix | server.js:291 | without a radix, "0x1" with "PM" becomes hour 13 |
| Booking.HexHourWithRadix | server.js:60 | with radix 10, "0x1" with "PM" becomes hour 12 |
| Booking.HexCheckedSlot | server.js:287-294 | the overlap check looks at 13:00-14:00 for "0x1:00 PM" |
| Booking.HexWrittenSlot | server.js:53-64 | the event written for "0x1:00 PM" covers 12:00-13:00 |
| Booking.HexHourEscapesCheck | server.js:291 | "0x1:00 PM" is checked as 13:00-14:00 and passes beside an event at 12:00-13:00, while the event written covers 12:00-13:00 and clashes with it |
| Booking.HexHourDoubleBooks | server.js:287-317 | beside an event from 12:00 to 13:00, the handler as written books "0x1:00 PM" and the day then holds two clashing events, while `Outcome` refuses the request |

## Left out

- HTTP plumbing: Express setup, JSON parsing, static files and the listener. A request
  body is five optional strings; a field that is not a string is not modelled.
- The calendar provider's API, its authentication and the mailer are inputs. Their
  errors and the new event's id arrive through `Providers`, and their effects are the
  updates to `calendar` and `outbox`.
- Date parsing and time zones. A date-time is valid when its hour and minute texts are
  decimal, the hour below 24 and the minutes below 60. Whether the runtime accepts an
  unpadded hour such as "T9:00:00", the local time zone, `toISOString`, the time-zone
  tag and the day window of the listing are not modelled.
- The calendar is keyed by the date text. An invalid date text fails the listing with a
  RangeError; the model leaves that to the listing error.
- An invalid start time: the overlap test finds nothing, then the insert fails with the
  RangeError "Invalid time value". Every comparison with an Invalid Date is false, which
  the model states as "no span".
- Strings are sequences of Unicode scalar values, not UTF-16 code units. Numbers
  beyond 2^53 are exact integers here.
- The DELETE /api/appointments/:id route: one foreign call behind a trivial check.
- The commented-out earlier handler, the customer page (public/script.js), and the DOM
  work of the admin page: HTML building, dialogs, fetch, and `toLocaleTimeString`.
- Two concurrent requests for the same slot can both pass the check. This race is not
  modelled: requests here run one at a time.
- The order of a day's events. The listing asks the provider for events ordered by
  start time (server.js:134). Here a day's events keep the order in which they were
  booked, so `Scheduler.Appointments` and `DecodeRows` list them in that order.
- Slots that cross midnight. "11:30 PM" gives a slot from 23:30 to 00:30. The provider's
  listing of the next day includes that event, so a request for "12:00 AM" on the next
  day is refused. Here an event is kept only under its own date and measured from that
  day's start, so `Scheduler.Book` accepts that request and writes it. The "no day gains
  a double booking" promise of `Book` holds for each date key, not across midnight.

## Findings

| source | as written | input that shows it | evidently intended | confidence | as-written member | corrected member |
|---|---|---|---|---|---|---|
| server.js:291 | the handler converts the hour for its overlap check with `parseInt(hours)` (no radix), while the event written uses `parseInt(hours, 10)` (server.js:60) | time "0x1:00 PM" beside an event from 12:00 to 13:00: the check looks at 13:00-14:00 and finds it free, and the event written covers 12:00-13:00, so it double-books | the slot checked is the slot written, whatever the time text | not executed | Booking.HexHourDoubleBooks | Booking.Scheduler.Book |
