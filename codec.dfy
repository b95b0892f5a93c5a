/**
 * The free-text format in which a booking's name, service and phone travel inside a
 * calendar event: written by addCalendarEvent (server.js) into the summary and the
 * description, read back by the admin page (public/admin.js) into its columns.
 */
module Codec {
  import opened Wrappers
  import opened Text
  import opened Time
  import opened Calendar

  const BookingPrefix := "Booking: "
  const Separator := " - "
  const PhoneLabel := "Phone: "

  /** The event summary "Booking: <name> - <service>". */
  function Summary(name: string, service: string): string
  {
    BookingPrefix + name + Separator + service
  }

  /** The event description "Phone: <phone>\nService: <service>"; a missing phone reads "undefined". */
  function Description(phone: Option<string>, service: string): string
  {
    PhoneLabel + Show(phone) + "\nService: " + service
  }

  /** The characters at which `.` in a JavaScript regular expression stops. */
  predicate IsLineTerminator(c: char)
  {
    c == '\n' || c == '\r' || c == '\U{2028}' || c == '\U{2029}'
  }

  predicate SingleLine(s: string)
  {
    forall i :: 0 <= i < |s| ==> !IsLineTerminator(s[i])
  }

  /** What `(.*)` captures: the text up to the first line terminator. */
  function Line(s: string): (l: string)
    ensures l <= s && SingleLine(l)
    ensures |l| == |s| || IsLineTerminator(s[|l|])
  {
    if s == [] || IsLineTerminator(s[0]) then []
    else [s[0]] + Line(s[1..])
  }

  /** A single-line text followed by a line terminator is captured exactly. */
  lemma LineStopsAtTerminator(a: string, rest: string)
    requires SingleLine(a) && (rest == [] || IsLineTerminator(rest[0]))
    ensures Line(a + rest) == a
  {
    var s := a + rest;
    assert a == s[..|a|];
  }

  /** Group 1 of `description.match(/Phone: (.*)/)`, or `None` when there is no match. */
  function MatchPhone(d: string): (r: Option<string>)
    ensures r.None? <==> !Contains(d, PhoneLabel)
    ensures r.Some? ==> SingleLine(r.value)
    ensures r.Some? ==> var from := Find(d, PhoneLabel).value + |PhoneLabel|;
                        r.value <= d[from..] && (from + |r.value| == |d| || IsLineTerminator(d[from + |r.value|]))
  {
    match Find(d, PhoneLabel)
    case None => None
    case Some(k) => Some(Line(d[k + |PhoneLabel|..]))
  }

  /** The phone shown by the admin page: 'N/A' unless the description holds "Phone: ". */
  function PhoneColumn(description: Option<string>): (phone: string)
    ensures (description.None? || description.value == "" || !Contains(description.value, PhoneLabel))
            ==> phone == "N/A"
    ensures (description.Some? && description.value != "" && Contains(description.value, PhoneLabel))
            ==> Some(phone) == MatchPhone(description.value)
  {
    if description.None? || description.value == "" then "N/A"
    else match MatchPhone(description.value)
      case None => "N/A"
      case Some(p) => p
  }

  /** `summary.replace('Booking: ', '')`. */
  function SummaryDisplay(summary: string): string
  {
    ReplaceFirst(summary, BookingPrefix, "")
  }

  /** `summaryDisplay.split(' - ')[0]`. */
  function CustomerColumn(display: string): string
  {
    Split(display, Separator)[0]
  }

  /** `summaryDisplay.split(' - ')[1] || 'N/A'`. */
  function ServiceColumn(display: string): string
  {
    var parts := Split(display, Separator);
    if |parts| > 1 && parts[1] != "" then parts[1] else "N/A"
  }

  /** The columns of one appointment row; the time column and its locale formatting are not modelled. */
  datatype Row = Row(id: string, customer: string, service: string, phone: string)

  /**
   * One row of the admin table, or `None` when the summary is missing and
   * `app.summary.replace` throws, which aborts the rendering of the whole table.
   */
  function DecodeRow(app: Appointment): (r: Option<Row>)
    ensures r.None? <==> app.summary.None?
    ensures r.Some? ==> r.value.id == app.id && r.value.phone == PhoneColumn(app.description)
  {
    match app.summary
    case None => None
    case Some(summary) =>
      var display := SummaryDisplay(summary);
      Some(Row(app.id, CustomerColumn(display), ServiceColumn(display), PhoneColumn(app.description)))
  }

  /** The rows of the table, in the order of the appointments; `None` when any row throws. */
  function DecodeRows(apps: seq<Appointment>): (r: Option<seq<Row>>)
    ensures r.Some? <==> forall i :: 0 <= i < |apps| ==> apps[i].summary.Some?
    ensures r.Some? ==> |r.value| == |apps|
    ensures r.Some? ==> forall i :: 0 <= i < |apps| ==> Some(r.value[i]) == DecodeRow(apps[i])
  {
    if apps == [] then Some([])
    else
      assert forall i :: 1 <= i < |apps| ==> apps[i] == apps[1..][i - 1];
      match (DecodeRow(apps[0]), DecodeRows(apps[1..]))
      case (Some(row), Some(rows)) => Some([row] + rows)
      case _ => None
  }

  /** Right after a leading "Phone: ", a single line followed by a line break is captured whole. */
  lemma MatchAfterLabel(p: string, rest: string)
    requires SingleLine(p) && (rest == [] || IsLineTerminator(rest[0]))
    ensures MatchPhone(PhoneLabel + (p + rest)) == Some(p)
  {
    var d := PhoneLabel + (p + rest);
    FindAtStart(PhoneLabel, p + rest);
    assert d[|PhoneLabel|..] == p + rest;
    LineStopsAtTerminator(p, rest);
  }

  /** The phone written into a description is read back whole when it is one line. */
  lemma PhoneRoundTrip(phone: Option<string>, service: string)
    requires SingleLine(Show(phone))
    ensures PhoneColumn(Some(Description(phone, service))) == Show(phone)
  {
    var rest := "\nService: " + service;
    assert Description(phone, service) == PhoneLabel + (Show(phone) + rest);
    MatchAfterLabel(Show(phone), rest);
  }

  /** A phone with a line break in it is shown only up to that break. */
  lemma PhoneCutAtLineBreak(phone: string, tail: string, service: string)
    requires SingleLine(phone) && tail != [] && IsLineTerminator(tail[0])
    ensures PhoneColumn(Some(Description(Some(phone + tail), service))) == phone
  {
    var rest := tail + "\nService: " + service;
    assert Description(Some(phone + tail), service) == PhoneLabel + (phone + rest);
    MatchAfterLabel(phone, rest);
  }

  /** Removing "Booking: " from a summary leaves "<name> - <service>", whatever the name holds. */
  lemma DisplayOfSummary(name: string, service: string)
    ensures SummaryDisplay(Summary(name, service)) == name + Separator + service
  {
    assert Summary(name, service) == BookingPrefix + (name + Separator + service);
    ReplaceLeadingOccurrence(BookingPrefix, name + Separator + service);
  }

  /**
   * The first " - " of a summary is the separator written after the name: the name
   * holds no " - ", and does not end in " -", which with the separator's leading space
   * would form an earlier one.
   */
  predicate NameKeepsSeparator(name: string)
  {
    !Contains(name + " -", Separator)
  }

  /** Name and service come back unchanged when neither breaks the separator. */
  lemma SummaryRoundTrip(name: string, service: string)
    requires NameKeepsSeparator(name) && !Contains(service, Separator) && service != ""
    ensures CustomerColumn(SummaryDisplay(Summary(name, service))) == name
    ensures ServiceColumn(SummaryDisplay(Summary(name, service))) == service
  {
    DisplayOfSummary(name, service);
    KeptNameSplits(name, service);
    SplitWithout(service, Separator);
  }

  /** A name that keeps the separator is the whole first piece of "<name> - <rest>". */
  lemma KeptNameSplits(name: string, rest: string)
    requires NameKeepsSeparator(name)
    ensures Split(name + Separator + rest, Separator) == [name] + Split(rest, Separator)
  {
    assert Separator[..|Separator| - 1] == " -";
    NoEarlierOccurrence(name, Separator, rest);
    SplitAtFirst(name, Separator, rest);
  }

  /** The customer column of "<name> - <service>" when the name holds " - " itself. */
  lemma CustomerOfCutName(name: string, service: string)
    requires Contains(name, Separator)
    ensures var k := Find(name, Separator).value;
            CustomerColumn(name + Separator + service) == name[..k] && k < |name|
  {
    assert name + Separator + service == name + (Separator + service);
    FirstPieceInPrefix(name, Separator, Separator + service);
  }

  /** A name holding " - " is cut at its first " - " in the customer column. */
  lemma NameWithSeparatorIsCut(name: string, service: string)
    requires Contains(name, Separator)
    ensures var k := Find(name, Separator).value;
            CustomerColumn(SummaryDisplay(Summary(name, service))) == name[..k] && k < |name|
  {
    DisplayOfSummary(name, service);
    CustomerOfCutName(name, service);
  }

  /**
   * When the name holds " - ", the service column shows the rest of the name after its
   * first " - ", provided that rest keeps the separator after it ('N/A' when it is empty).
   */
  lemma ServiceOfCutName(name: string, service: string)
    requires Contains(name, Separator)
    ensures var rest := name[Find(name, Separator).value + |Separator|..];
            NameKeepsSeparator(rest) ==>
              ServiceColumn(SummaryDisplay(Summary(name, service))) == if rest == "" then "N/A" else rest
  {
    DisplayOfSummary(name, service);
    var k := Find(name, Separator).value;
    var rest := name[k + |Separator|..];
    CutNameSplits(name, service);
    if NameKeepsSeparator(rest) {
      KeptNameSplits(rest, service);
    }
  }

  /** "<name> - <service>" splits first at the name's own first " - ". */
  lemma CutNameSplits(name: string, service: string)
    requires Contains(name, Separator)
    ensures var k := Find(name, Separator).value;
            Split(name + Separator + service, Separator)
              == [name[..k]] + Split(name[k + |Separator|..] + Separator + service, Separator)
  {
    FindSpec(name, Separator);
    var k := Find(name, Separator).value;
    var head, rest := name[..k], name[k + |Separator|..];
    assert name == head + Separator + rest;
    var display := head + Separator + (rest + Separator + service);
    assert display == name + (Separator + service);
    forall j: nat | j < |head| ensures !OccursAt(display, Separator, j) {
      PrefixOccurrence(name, Separator, Separator + service, j);
    }
    SplitAtFirst(head, Separator, rest + Separator + service);
    assert name + Separator + service == display;
  }

  /** No " - " occurs in "Bob -". */
  lemma NoSeparatorInBobDash()
    ensures !Contains("Bob -", Separator)
  {
    var s := "Bob -";
    forall j: nat ensures !OccursAt(s, Separator, j) {
      if j + 3 <= |s| {
        assert s[j..j + 3][1] == s[j + 1];
      }
    }
    Absent(s, Separator);
  }

  /** No " - " occurs in "- Cut". */
  lemma NoSeparatorInDashCut()
    ensures !Contains("- Cut", Separator)
  {
    var s := "- Cut";
    forall j: nat ensures !OccursAt(s, Separator, j) {
      if j + 3 <= |s| {
        assert s[j..j + 3][0] == s[j] && s[j..j + 3][1] == s[j + 1];
      }
    }
    Absent(s, Separator);
  }

  /** "Bob - - Cut" splits into "Bob" and "- Cut". */
  lemma SplitOfBobDashCut()
    ensures Split("Bob" + Separator + "- Cut", Separator) == ["Bob", "- Cut"]
  {
    NoSeparatorInBobDash();
    assert "Bob" + Separator[..|Separator| - 1] == "Bob -";
    NoEarlierOccurrence("Bob", Separator, "- Cut");
    SplitAtFirst("Bob", Separator, "- Cut");
    NoSeparatorInDashCut();
    SplitWithout("- Cut", Separator);
  }

  /**
   * Leaving " - " out of the name is not enough: the name "Bob -" and the service
   * "Cut" read back as customer "Bob" and service "- Cut".
   */
  lemma TrailingDashBreaksRoundTrip()
    ensures !Contains("Bob -", Separator) && !Contains("Cut", Separator)
    ensures CustomerColumn(SummaryDisplay(Summary("Bob -", "Cut"))) == "Bob"
    ensures ServiceColumn(SummaryDisplay(Summary("Bob -", "Cut"))) == "- Cut"
  {
    DisplayOfSummary("Bob -", "Cut");
    assert "Bob -" + Separator + "Cut" == "Bob" + Separator + "- Cut";
    NoSeparatorInBobDash();
    SplitOfBobDashCut();
    assert Find("Cut", Separator).None?;
  }
}
