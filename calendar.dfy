/**
 * Calendar events as the server reads them back from the provider: the overlap test
 * of the POST /api/book handler and the projection served by GET /api/appointments
 * (server.js).
 */
module Calendar {
  import opened Wrappers
  import opened Time

  /**
   * The start or end of a provider event: `dateTime` for a timed event, `date` for an
   * all-day one. Both are instants in milliseconds on the axis of the booking's day.
   */
  datatype EventTime = EventTime(dateTime: Option<int>, date: Option<int>)

  datatype Event = Event(
    id: string,
    summary: Option<string>,
    description: Option<string>,
    start: EventTime,
    end: EventTime)

  /** `t.dateTime || t.date`: the date-time when there is one, otherwise the date. */
  function Resolve(t: EventTime): Option<int>
  {
    if t.dateTime.Some? then t.dateTime else t.date
  }

  /** Two spans intersect: each starts strictly before the other ends. */
  predicate Intersect(a: Interval, b: Interval)
  {
    a.start < b.end && a.end > b.start
  }

  /** The span an event occupies, or `None` when its start or end is an Invalid Date. */
  function Span(e: Event): Option<Interval>
  {
    match (Resolve(e.start), Resolve(e.end))
    case (Some(s), Some(t)) => Some(Interval(s, t))
    case _ => None
  }

  /**
   * The test applied to each existing event: `start < eventEnd && end > eventStart`.
   * Every comparison with an Invalid Date is false, so an event without a start or end
   * never overlaps.
   */
  predicate Overlaps(slot: Interval, e: Event)
  {
    Span(e).Some? && Intersect(slot, Span(e).value)
  }

  /** `existingEvents.some(...)` with the test above. */
  function AnyOverlap(slot: Interval, events: seq<Event>): (r: bool)
    ensures r <==> exists i :: 0 <= i < |events| && Overlaps(slot, events[i])
  {
    if events == [] then false
    else
      var rest := AnyOverlap(slot, events[1..]);
      assert forall i :: 1 <= i < |events| ==> events[i] == events[1..][i - 1];
      Overlaps(slot, events[0]) || rest
  }

  /** The overlap relation does not depend on which of the two spans is the candidate. */
  lemma IntersectSymmetric(a: Interval, b: Interval)
    ensures Intersect(a, b) <==> Intersect(b, a)
  {
  }

  /** Spans that only touch do not overlap: one ends exactly where the other starts. */
  lemma TouchingDoesNotOverlap(slot: Interval, e: Event)
    requires Resolve(e.end) == Some(slot.start) || Resolve(e.start) == Some(slot.end)
    ensures !Overlaps(slot, e)
  {
  }

  /** An all-day event is tested on its `date` fields. */
  lemma AllDayEventUsesDate(slot: Interval, e: Event)
    requires e.start.dateTime.None? && e.end.dateTime.None?
    requires e.start.date.Some? && e.end.date.Some?
    ensures Overlaps(slot, e) <==> slot.start < e.end.date.value && slot.end > e.start.date.value
  {
  }

  /** An empty day never overlaps. */
  lemma NoEventsNoOverlap(slot: Interval)
    ensures !AnyOverlap(slot, [])
  {
  }

  /** The test over two lists of events is the test over each: adding events never frees a slot. */
  lemma {:induction false} AnyOverlapAppend(slot: Interval, a: seq<Event>, b: seq<Event>)
    ensures AnyOverlap(slot, a + b) <==> AnyOverlap(slot, a) || AnyOverlap(slot, b)
  {
    if a == [] {
      assert a + b == b;
    } else {
      assert (a + b)[1..] == a[1..] + b;
      AnyOverlapAppend(slot, a[1..], b);
    }
  }

  /** What GET /api/appointments returns for each event. */
  datatype Appointment = Appointment(
    id: string,
    summary: Option<string>,
    description: Option<string>,
    startTime: Option<int>,
    endTime: Option<int>)

  /** `events.map(...)` into appointments. */
  function Project(events: seq<Event>): (apps: seq<Appointment>)
    ensures |apps| == |events|
    ensures forall i :: 0 <= i < |events| ==>
              apps[i].id == events[i].id && apps[i].summary == events[i].summary
              && apps[i].description == events[i].description
    ensures forall i :: 0 <= i < |events| ==>
              apps[i].startTime == (if events[i].start.dateTime.Some? then events[i].start.dateTime else events[i].start.date)
              && apps[i].endTime == (if events[i].end.dateTime.Some? then events[i].end.dateTime else events[i].end.date)
  {
    if events == [] then []
    else
      var e := events[0];
      var rest := Project(events[1..]);
      assert forall i :: 1 <= i < |events| ==> events[i] == events[1..][i - 1];
      [Appointment(e.id, e.summary, e.description, Resolve(e.start), Resolve(e.end))] + rest
  }
}
