/**
 * The event loop of `run` in main.go: for every parsed event, fix the start
 * and end times up with the zone named by the TZID parameter, default the
 * duration, and emit the lines of its text block.
 *
 * Go's `for _, e := range c.Events` works on a copy of each event, so an
 * event is a value here and the fix-ups are updates of a local variable.
 * Output lines are kept as data: which lines appear, in which order and with
 * which values; the `Printf` layout is not modelled.
 */
module Report {
  import opened Wrappers
  import opened GoStrings
  import opened Timezone

  datatype Attendee = Attendee(cn: GoString)

  /** A VEVENT as the parser delivers it; `startParams` are the DTSTART parameters. */
  datatype Event = Event(
    uid: GoString,
    startParams: map<GoString, GoString>,
    start: Time,
    end: Time,
    duration: Option<int>,
    location: GoString,
    attendees: seq<Attendee>,
    organizer: Option<Attendee>,
    summary: GoString,
    description: GoString)

  /** One printed line of an event's block. */
  datatype Line =
    | IdLine(uid: GoString)
    | StartLine(start: Time)
    | EndLine(end: Time)
    | DurationLine(duration: int)
    | LocationLine(location: GoString)
    | AttendeesHeading
    | AttendeeLine(name: GoString)
    | MoreLine(count: int)
    | SummaryLine(summary: GoString)
    | OrganizerLine(name: GoString)
    | DescriptionLine(text: GoString)

  /** One event's outcome: the fixed-up event and its lines, or a panic in `parseTimezone`. */
  datatype Step = Printed(event: Event, lines: seq<Line>) | Panicked

  /** What the run prints, and whether it ended in a panic. */
  datatype Output = Output(lines: seq<Line>, panicked: bool)

  /** The parameter name "TZID". */
  const TZID: GoString := [84, 90, 73, 68]
  /** Attendees listed by name before the "and k more..." line. */
  const MAX_LISTED: nat := 5

  // ---------------------------------------------------------------------
  // Specification of one event

  /**
   * The TZID fix-up: start and end relabelled with the resolved zone when
   * the parameter is present and resolves; None when resolving panics.
   */
  function FixTimezone(e: Event, lookup: GoString -> Option<Location>): Option<Event>
  {
    if TZID !in e.startParams then Some(e)
    else
      match Resolve(e.startParams[TZID], lookup)
      case IndexPanic => None
      case NotFound => Some(e)
      case Found(z) => Some(e.(start := NewTime(e.start, z), end := NewTime(e.end, z)))
  }

  /** A missing duration becomes End.Sub(Start); `sub` stands for that subtraction. */
  function DefaultDuration(e: Event, sub: (Time, Time) -> int): Event
  {
    if e.duration.None? then e.(duration := Some(sub(e.end, e.start))) else e
  }

  /** `strings.ReplaceAll(d, "\\n", "\n")`: a backslash followed by n becomes a newline. */
  function ExpandNewlines(d: GoString): GoString
  {
    ReplaceAll(d, [BACKSLASH, LETTER_N], [NEWLINE])
  }

  /** The attendee lines the loop emits from index `i` on. */
  function AttendeeLines(attendees: seq<Attendee>, i: nat): seq<Line>
    requires i <= |attendees|
    decreases |attendees| - i
  {
    if i == |attendees| then []
    else if i == MAX_LISTED then [MoreLine(|attendees| - i)]
    else [AttendeeLine(attendees[i].cn)] + AttendeeLines(attendees, i + 1)
  }

  /** The lines every block starts with, up to the attendees heading. */
  function HeaderLines(e: Event): seq<Line>
    requires e.duration.Some?
  {
    [IdLine(e.uid), StartLine(e.start), EndLine(e.end), DurationLine(e.duration.value),
     LocationLine(e.location), AttendeesHeading]
  }

  /** The optional summary, organizer and description lines that close a block. */
  function TrailerLines(e: Event): seq<Line>
  {
    (if e.summary != [] then [SummaryLine(e.summary)] else [])
    + (if e.organizer.Some? then [OrganizerLine(e.organizer.value.cn)] else [])
    + (if e.description != [] then [DescriptionLine(ExpandNewlines(e.description))] else [])
  }

  /** The lines of an event's block, once its duration is set. */
  function EventLines(e: Event): seq<Line>
    requires e.duration.Some?
  {
    HeaderLines(e) + AttendeeLines(e.attendees, 0) + TrailerLines(e)
  }

  /** The specification of one pass of the loop body. */
  function Report(e: Event, lookup: GoString -> Option<Location>, sub: (Time, Time) -> int): Step
  {
    match FixTimezone(e, lookup)
    case None => Panicked
    case Some(f) =>
      var d := DefaultDuration(f, sub);
      Printed(d, EventLines(d))
  }

  /** The specification of the loop over all events; a panic ends the run. */
  function RunOutput(events: seq<Event>, lookup: GoString -> Option<Location>,
                     sub: (Time, Time) -> int): Output
    decreases |events|
  {
    if events == [] then Output([], false)
    else
      var prev := RunOutput(events[..|events| - 1], lookup, sub);
      if prev.panicked then prev
      else
        match Report(events[|events| - 1], lookup, sub)
        case Panicked => Output(prev.lines, true)
        case Printed(_, lines) => Output(prev.lines + lines, false)
  }

  // ---------------------------------------------------------------------
  // The loop body and the loop

  /** One pass of the body of the event loop of `run`. */
  method ReportEvent(e: Event, lookup: GoString -> Option<Location>, sub: (Time, Time) -> int)
    returns (r: Step)
    ensures r == Report(e, lookup, sub)
  {
    var ev := e;
    if TZID in ev.startParams {
      var rawTz := ev.startParams[TZID];
      var tz := ParseTimezone(rawTz, lookup);
      if tz.IndexPanic? {
        return Panicked;
      }
      if tz.Found? {
        ev := ev.(start := NewTime(ev.start, tz.loc), end := NewTime(ev.end, tz.loc));
      }
    }
    ghost var fixed := ev;
    assert FixTimezone(e, lookup) == Some(fixed);
    var lines := [IdLine(ev.uid), StartLine(ev.start), EndLine(ev.end)];
    if ev.duration.None? {
      ev := ev.(duration := Some(sub(ev.end, ev.start)));
    }
    assert ev == DefaultDuration(fixed, sub);
    assert lines == [IdLine(ev.uid), StartLine(ev.start), EndLine(ev.end)];
    lines := lines + [DurationLine(ev.duration.value), LocationLine(ev.location), AttendeesHeading];
    assert lines == HeaderLines(ev);
    var listed := ListAttendees(ev.attendees);
    lines := lines + listed;
    ghost var body := lines;
    if ev.summary != [] {
      lines := lines + [SummaryLine(ev.summary)];
    }
    ghost var withSummary := lines;
    assert withSummary == body + if ev.summary != [] then [SummaryLine(ev.summary)] else [];
    if ev.organizer.Some? {
      lines := lines + [OrganizerLine(ev.organizer.value.cn)];
    }
    ghost var withOrganizer := lines;
    assert withOrganizer == withSummary + if ev.organizer.Some? then [OrganizerLine(ev.organizer.value.cn)] else [];
    if ev.description != [] {
      lines := lines + [DescriptionLine(ExpandNewlines(ev.description))];
    }
    assert lines == withOrganizer + if ev.description != [] then [DescriptionLine(ExpandNewlines(ev.description))] else [];
    assert lines == body + TrailerLines(ev);
    return Printed(ev, lines);
  }

  /**
   * The attendee loop of `run`: a line per name, until index 5, where it
   * emits the "and k more..." line and breaks.
   */
  method ListAttendees(attendees: seq<Attendee>) returns (lines: seq<Line>)
    ensures lines == AttendeeLines(attendees, 0)
  {
    lines := [];
    var i := 0;
    while i < |attendees|
      invariant i <= |attendees|
      invariant lines + AttendeeLines(attendees, i) == AttendeeLines(attendees, 0)
    {
      if i == MAX_LISTED {
        lines := lines + [MoreLine(|attendees| - i)];
        assert lines == AttendeeLines(attendees, 0);
        break;
      }
      lines := lines + [AttendeeLine(attendees[i].cn)];
      i := i + 1;
    }
  }

  /** The event loop of `run`: the blocks of all events in order, up to a panic. */
  method Run(events: seq<Event>, lookup: GoString -> Option<Location>, sub: (Time, Time) -> int)
    returns (out: seq<Line>, panicked: bool)
    ensures Output(out, panicked) == RunOutput(events, lookup, sub)
  {
    out := [];
    for i := 0 to |events|
      invariant Output(out, false) == RunOutput(events[..i], lookup, sub)
    {
      var step := ReportEvent(events[i], lookup, sub);
      assert events[..i + 1][..i] == events[..i];
      if step.Panicked? {
        PanicEndsRun(events, i + 1, lookup, sub);
        return out, true;
      }
      out := out + step.lines;
    }
    assert events[..|events|] == events;
    panicked := false;
  }

  // ---------------------------------------------------------------------
  // Properties of one event

  /**
   * The fix-up panics exactly when TZID is present and resolving it panics.
   * Otherwise it changes only start and end, and only when TZID is present
   * and resolves: both then carry the resolved zone and keep their civil fields.
   */
  lemma FixTimezoneRelabels(e: Event, lookup: GoString -> Option<Location>)
    ensures FixTimezone(e, lookup).None?
        <==> TZID in e.startParams && Resolve(e.startParams[TZID], lookup).IndexPanic?
    ensures FixTimezone(e, lookup).Some? ==>
      var f := FixTimezone(e, lookup).value;
      && f == e.(start := f.start, end := f.end)
      && SameCivil(f.start, e.start) && SameCivil(f.end, e.end)
      && if TZID in e.startParams && Resolve(e.startParams[TZID], lookup).Found?
         then f.start.loc == f.end.loc == Resolve(e.startParams[TZID], lookup).loc
         else f == e
  {
  }

  /**
   * A reported event keeps an explicit duration and otherwise gets the
   * difference of its fixed-up end and start; nothing else changes.
   */
  lemma DurationDefaulted(e: Event, lookup: GoString -> Option<Location>, sub: (Time, Time) -> int)
    requires Report(e, lookup, sub).Printed?
    ensures var d := Report(e, lookup, sub).event;
      var f := FixTimezone(e, lookup).value;
      && d == f.(duration := d.duration)
      && d.duration == if e.duration.Some? then e.duration else Some(sub(f.end, f.start))
  {
  }

  lemma {:induction false} AttendeeLinesFrom(attendees: seq<Attendee>, i: nat)
    requires i <= |attendees| && i <= MAX_LISTED
    ensures var lines := AttendeeLines(attendees, i);
      var shown := if |attendees| <= MAX_LISTED then |attendees| else MAX_LISTED;
      && |lines| == shown - i + (if |attendees| > MAX_LISTED then 1 else 0)
      && (forall k :: i <= k < shown ==> lines[k - i] == AttendeeLine(attendees[k].cn))
      && (|attendees| > MAX_LISTED ==> lines[|lines| - 1] == MoreLine(|attendees| - MAX_LISTED))
    decreases |attendees| - i
  {
    if i < |attendees| && i < MAX_LISTED {
      AttendeeLinesFrom(attendees, i + 1);
    }
  }

  /**
   * For n attendees the listing is the first min(n, 5) names in order,
   * followed by one "and n-5 more..." line exactly when n > 5.
   */
  lemma AttendeeListing(attendees: seq<Attendee>)
    ensures var lines := AttendeeLines(attendees, 0);
      var n := |attendees|;
      var shown := if n <= MAX_LISTED then n else MAX_LISTED;
      && |lines| == shown + (if n > MAX_LISTED then 1 else 0)
      && (forall k :: 0 <= k < shown ==> lines[k] == AttendeeLine(attendees[k].cn))
      && (n > MAX_LISTED ==> lines[shown] == MoreLine(n - MAX_LISTED))
      && (forall k :: 0 <= k < |lines| && lines[k].MoreLine? ==> n > MAX_LISTED && k == shown)
  {
    AttendeeLinesFrom(attendees, 0);
  }

  /** A backslash directly followed by the letter n. */
  predicate HasEscapedNewline(s: GoString)
  {
    exists i :: 0 <= i < |s| - 1 && s[i] == BACKSLASH && s[i + 1] == LETTER_N
  }

  lemma ExpandNewlinesHead(s: GoString)
    requires s != []
    ensures ExpandNewlines(s) != []
    ensures ExpandNewlines(s)[0] == NEWLINE || ExpandNewlines(s)[0] == s[0]
  {
  }

  /** No backslash-n pair is left once the description is expanded. */
  lemma {:induction false} ExpandNewlinesLeavesNone(s: GoString)
    ensures !HasEscapedNewline(ExpandNewlines(s))
    decreases |s|
  {
    var pat := [BACKSLASH, LETTER_N];
    if |s| >= 2 {
      var r := ExpandNewlines(s);
      var t := if s[..2] == pat then s[2..] else s[1..];
      ExpandNewlinesLeavesNone(t);
      assert r == [r[0]] + ExpandNewlines(t);
      if s[..2] != pat && s[0] == BACKSLASH {
        assert s[1] != LETTER_N;
        ExpandNewlinesHead(t);
      }
    }
  }

  /**
   * The expanded description is the description cut at every backslash-n
   * pair and joined back with newlines.
   */
  lemma ExpandNewlinesIsJoinOfSplit(s: GoString)
    ensures ExpandNewlines(s) == Join(Split(s, [BACKSLASH, LETTER_N]), [NEWLINE])
  {
    ReplaceAllIsJoinOfSplit(s, [BACKSLASH, LETTER_N], [NEWLINE]);
  }

  /** A line that only the trailer of a block can hold. */
  predicate TrailerKind(line: Line)
  {
    line.SummaryLine? || line.OrganizerLine? || line.DescriptionLine?
  }

  /** The trailer holds each optional line exactly when its field is set. */
  lemma TrailerShape(e: Event)
    ensures (exists k :: 0 <= k < |TrailerLines(e)| && TrailerLines(e)[k].SummaryLine?) <==> e.summary != []
    ensures (exists k :: 0 <= k < |TrailerLines(e)| && TrailerLines(e)[k].OrganizerLine?) <==> e.organizer.Some?
    ensures (exists k :: 0 <= k < |TrailerLines(e)| && TrailerLines(e)[k].DescriptionLine?) <==> e.description != []
    ensures forall k :: 0 <= k < |TrailerLines(e)| && TrailerLines(e)[k].DescriptionLine? ==>
      TrailerLines(e)[k].text == ExpandNewlines(e.description)
  {
    var t := TrailerLines(e);
    var s := if e.summary != [] then 1 else 0;
    if e.summary != [] {
      assert t[0].SummaryLine?;
    }
    if e.organizer.Some? {
      assert t[s].OrganizerLine?;
    }
    if e.description != [] {
      assert t[|t| - 1].DescriptionLine?;
    }
  }

  /**
   * Summary and description lines appear exactly when the field is non-empty,
   * the organizer line exactly when there is an organizer, and a description
   * line shows no backslash-n pair.
   */
  lemma OptionalLines(e: Event)
    requires e.duration.Some?
    ensures (exists k :: 0 <= k < |EventLines(e)| && EventLines(e)[k].SummaryLine?) <==> e.summary != []
    ensures (exists k :: 0 <= k < |EventLines(e)| && EventLines(e)[k].OrganizerLine?) <==> e.organizer.Some?
    ensures (exists k :: 0 <= k < |EventLines(e)| && EventLines(e)[k].DescriptionLine?) <==> e.description != []
    ensures forall k :: 0 <= k < |EventLines(e)| && EventLines(e)[k].DescriptionLine? ==>
      !HasEscapedNewline(EventLines(e)[k].text)
  {
    var prefix := HeaderLines(e) + AttendeeLines(e.attendees, 0);
    var t := TrailerLines(e);
    AttendeeListing(e.attendees);
    assert forall k :: 0 <= k < |prefix| ==> !TrailerKind(prefix[k]);
    assert EventLines(e) == prefix + t;
    assert forall k :: 0 <= k < |t| ==> EventLines(e)[|prefix| + k] == t[k];
    TrailerShape(e);
    ExpandNewlinesLeavesNone(e.description);
  }

  // ---------------------------------------------------------------------
  // Properties of the run

  /** The identifiers printed, in order. */
  function Ids(lines: seq<Line>): seq<GoString>
  {
    if lines == [] then []
    else (if lines[0].IdLine? then [lines[0].uid] else []) + Ids(lines[1..])
  }

  lemma {:induction false} IdsAppend(a: seq<Line>, b: seq<Line>)
    ensures Ids(a + b) == Ids(a) + Ids(b)
    decreases |a|
  {
    if a != [] {
      assert (a + b)[0] == a[0] && (a + b)[1..] == a[1..] + b;
      IdsAppend(a[1..], b);
      var x := if a[0].IdLine? then [a[0].uid] else [];
      assert Ids(a + b) == x + Ids(a[1..] + b);
      assert Ids(a) == x + Ids(a[1..]);
    } else {
      assert a + b == b;
    }
  }

  lemma {:induction false} IdsNone(lines: seq<Line>)
    requires forall k :: 0 <= k < |lines| ==> !lines[k].IdLine?
    ensures Ids(lines) == []
    decreases |lines|
  {
    if lines != [] {
      IdsNone(lines[1..]);
    }
  }

  /** Every event's block carries exactly its own identifier. */
  lemma EventLinesIds(e: Event)
    requires e.duration.Some?
    ensures Ids(EventLines(e)) == [e.uid]
  {
    var lines := EventLines(e);
    AttendeeListing(e.attendees);
    var listed := AttendeeLines(e.attendees, 0);
    assert forall k :: 0 <= k < |listed| ==> listed[k].AttendeeLine? || listed[k].MoreLine?;
    assert lines == [lines[0]] + lines[1..];
    IdsNone(lines[1..]);
    IdsAppend([lines[0]], lines[1..]);
  }

  /** Once an event panics, nothing after it is reported. */
  lemma {:induction false} PanicEndsRun(events: seq<Event>, j: nat, lookup: GoString -> Option<Location>,
                                        sub: (Time, Time) -> int)
    requires 0 < j <= |events|
    requires RunOutput(events[..j], lookup, sub).panicked
    ensures RunOutput(events, lookup, sub) == RunOutput(events[..j], lookup, sub)
    decreases |events|
  {
    if j < |events| {
      var init := events[..|events| - 1];
      assert init[..j] == events[..j];
      PanicEndsRun(init, j, lookup, sub);
    } else {
      assert events[..j] == events;
    }
  }

  /** The run panics exactly when some event's TZID fix-up panics. */
  lemma {:induction false} RunPanicsIff(events: seq<Event>, lookup: GoString -> Option<Location>,
                                        sub: (Time, Time) -> int)
    ensures RunOutput(events, lookup, sub).panicked
        <==> exists k :: 0 <= k < |events| && Report(events[k], lookup, sub).Panicked?
    decreases |events|
  {
    if events != [] {
      var init := events[..|events| - 1];
      RunPanicsIff(init, lookup, sub);
      if exists k :: 0 <= k < |init| && Report(init[k], lookup, sub).Panicked? {
        var k :| 0 <= k < |init| && Report(init[k], lookup, sub).Panicked?;
        assert Report(events[k], lookup, sub).Panicked?;
      }
      if exists k :: 0 <= k < |events| && Report(events[k], lookup, sub).Panicked? {
        var k :| 0 <= k < |events| && Report(events[k], lookup, sub).Panicked?;
        if k < |init| {
          assert Report(init[k], lookup, sub).Panicked?;
        }
      }
    }
  }

  /**
   * When no event panics, the run prints one block per parsed event, in parse
   * order: the identifiers printed are exactly the events' identifiers.
   */
  lemma {:induction false} RunPrintsEveryEvent(events: seq<Event>, lookup: GoString -> Option<Location>,
                                               sub: (Time, Time) -> int)
    requires forall k :: 0 <= k < |events| ==> Report(events[k], lookup, sub).Printed?
    ensures !RunOutput(events, lookup, sub).panicked
    ensures Ids(RunOutput(events, lookup, sub).lines) == seq(|events|, k requires 0 <= k < |events| => events[k].uid)
    decreases |events|
  {
    if events != [] {
      var init := events[..|events| - 1];
      var last := events[|events| - 1];
      RunPrintsEveryEvent(init, lookup, sub);
      var step := Report(last, lookup, sub);
      EventLinesIds(step.event);
      IdsAppend(RunOutput(init, lookup, sub).lines, step.lines);
    }
  }
}
