# mutt-ics-preview, modelled in Dafny

mutt-ics-preview reads an iCalendar file and prints a text block per VEVENT.
This project models the decision logic of `main.go`: the resolver that turns a
TZID label into a zone (`parseTimezone`), the relabelling of a civil time with
that zone (`newTime`), and the body of the event loop of `run`: the TZID
fix-up, the default duration, the attendee listing capped at five names, the
optional summary, organizer and description lines, and the expansion of
backslash-n in the description.

Modules:

- `Wrappers` (wrappers.dfy): `Option`, for the values Go returns as nil or non-nil.
- `GoStrings` (gostrings.dfy): Go strings as byte sequences, with the two
  `strings` functions main.go calls, `strings.Split` and `strings.ReplaceAll`,
  and the conversion `string(b)` of a byte, all with Go's semantics.
  `strings.Join` is not called by main.go; it is there to state what `Split`
  and `ReplaceAll` compute. `Split` never returns zero
  pieces, and doubled, leading or trailing separators give empty pieces.
- `Timezone` (timezone.dfy): `Location`, `Time`, `NewTime`, the acronym and
  `ParseTimezone`. The zone database is an oracle `lookup` from a name to an
  optional location. Nothing is assumed about which names it knows.
- `Report` (report.dfy): events, output lines, one pass of the loop body
  (`ReportEvent`) and the loop over all events (`Run`). Each method is proved
  against a specification function (`Report`, `RunOutput`), and the lemmas
  state what those functions promise.

Two behaviours of main.go are easy to overlook:

- An empty label, or a label with no words, might be expected to fail
  harmlessly. In main.go, `strings.Split("", " ")` is `[""]`, so the guard on zero pieces
  can never fire. When the direct lookup fails, `word[0]` on the empty piece
  panics. The same happens for any label with a leading, trailing or doubled
  space. The model makes this panic an explicit outcome, `IndexPanic`.
  `PanicIffBadlySpaced` characterises exactly when it happens. A panic in
  `run` ends the whole run after the blocks of the earlier events
  (`PanicEndsRun`, `RunPanicsIff`).
- `string(word[0])` converts a byte to the rune U+00XX. A first byte of 0x80
  or above therefore adds two UTF-8 bytes to the acronym, not one
  (`RuneBytes`). The one-byte-per-piece property holds when every word starts
  with an ASCII byte (`LabelAcronym`).

## Model

| member | source | states |
|---|---|---|
| GoStrings.Split | main.go:26-29 | `strings.Split` always yields at least one piece, so the `len(parts) == 0` guard is unreachable |
| GoStrings.JoinSplit | main.go:26 | joining the pieces with the separator gives back the input; with `SplitPiecesFree` this makes the pieces exactly the text between the occurrences of the separator |
| GoStrings.SplitCount | main.go:26 | splitting on one byte yields one piece more than there are occurrences of that byte |
| GoStrings.SplitPiecesFree | main.go:26 | for any non-empty separator, no piece contains the separator as a contiguous run |
| GoStrings.EmptyPieceIffBadlySpaced | main.go:26-33 | some piece is empty, so `word[0]` faults, exactly when the text is empty or has a leading, trailing or doubled space |
| GoStrings.PieceStarts | main.go:26-33 | the first piece of a split on one byte starts at index 0 and every later non-empty piece just after a separator, so `word[0]` is the byte that begins a word |
| GoStrings.RuneBytes | main.go:33 | `string(word[0])` is one byte for an ASCII byte and otherwise the two-byte UTF-8 encoding that decodes back to the byte's code point |
| GoStrings.ReplaceAll | main.go:103 | `strings.ReplaceAll` for a non-empty pattern; its properties are stated by `ReplaceAllIsJoinOfSplit`, `ExpandNewlinesLeavesNone` and `ExpandNewlinesIsJoinOfSplit` |
| GoStrings.ReplaceAllIsJoinOfSplit | main.go:103 | `ReplaceAll` replaces every leftmost non-overlapping occurrence: it equals splitting on the pattern and joining with the replacement |
| Timezone.NewTime | main.go:44-48 | the result keeps year, month, day, hour, minute, second and nanosecond and carries the given zone |
| Timezone.NewTimeLastZoneWins | main.go:44-48 | relabelling twice is relabelling with the last zone, and any time with the same civil fields and that zone is the result |
| Timezone.Acronym | main.go:31-34 | the acronym the loop builds, one `string(word[0])` per piece in order, or none when a piece is empty; its properties are stated by `AcronymDefined`, `AcronymOfAsciiPieces` and `LabelAcronym` |
| Timezone.Resolve | main.go:20-42 | the result of `parseTimezone`: direct lookup, else panic on an empty piece, else the acronym's lookup, else nil; its properties are stated by `DirectLookupWins`, `PanicIffBadlySpaced`, `FallbackToAcronym`, `EmptyLabel` and `EasternStandardTime` |
| Timezone.ParseTimezone | main.go:20-42 | the loop builds the acronym of the pieces or panics on the first empty piece; the result is the direct lookup if it succeeds, else the acronym's lookup, else nil |
| Timezone.AcronymDefined | main.go:31-34 | the acronym loop completes exactly when no piece is empty |
| Timezone.AcronymOfAsciiPieces | main.go:31-34 | for non-empty pieces with ASCII first bytes, the acronym has one byte per piece, the first byte of that piece, in order |
| Timezone.LabelAcronym | main.go:26-34 | for a well-spaced label whose words start with ASCII bytes, the acronym's length is the number of spaces plus one, and byte k is the first byte of piece k |
| Timezone.DirectLookupWins | main.go:21-24 | when the database knows the label, the result is that zone whatever the database says about any other name, so the acronym is never consulted |
| Timezone.PanicIffBadlySpaced | main.go:20-42 | `parseTimezone` panics exactly when the direct lookup fails and the label is empty or has a leading, trailing or doubled space |
| Timezone.FallbackToAcronym | main.go:36-41 | when the direct lookup fails on a well-spaced label, the result is the acronym's lookup, or nil when that fails too |
| Timezone.EmptyLabel | main.go:20-33 | the empty label resolves only if the database knows "" itself, and panics otherwise |
| Timezone.EasternStandardTime | main.go:26-39 | when "Eastern Standard Time" is unknown, the result is the lookup of "EST" |
| Report.FixTimezone | main.go:67-74 | the TZID fix-up of one event, or none when resolving panics; its properties are stated by `FixTimezoneRelabels` |
| Report.DefaultDuration | main.go:78-81 | a missing duration becomes End.Sub(Start); its properties are stated by `DurationDefaulted` |
| Report.ExpandNewlines | main.go:103 | `strings.ReplaceAll(d, "\\n", "\n")`; its properties are stated by `ExpandNewlinesLeavesNone` and `ExpandNewlinesIsJoinOfSplit` |
| Report.AttendeeLines | main.go:86-92 | the lines the attendee loop emits from index i on; its closed form is stated by `AttendeeListing` |
| Report.HeaderLines | main.go:75-85 | the identifier, start, end, duration, location and attendees-heading lines, in that order; `EventLinesIds` states that only the first is an identifier line |
| Report.TrailerLines | main.go:94-104 | the optional summary, organizer and description lines, in that order; their presence is stated by `OptionalLines` |
| Report.EventLines | main.go:75-104 | an event's block: header, attendee listing, trailer; its properties are stated by `OptionalLines` and `EventLinesIds` |
| Report.Report | main.go:67-104 | one pass of the loop body: the panic, or the fixed-up event with its default duration and its block; its properties are stated by `FixTimezoneRelabels` and `DurationDefaulted` |
| Report.RunOutput | main.go:66-105 | the blocks of all events in order, up to the first panic; its properties are stated by `PanicEndsRun`, `RunPanicsIff` and `RunPrintsEveryEvent` |
| Report.ReportEvent | main.go:67-104 | one pass of the loop body yields the panic or the fixed-up event and its lines as the specification function `Report` defines |
| Report.ListAttendees | main.go:86-92 | the attendee loop with its break at index 5 emits the listing `AttendeeLines` |
| Report.Run | main.go:66-105 | the event loop prints the blocks of all events in parse order and stops at the first panic |
| Report.FixTimezoneRelabels | main.go:67-74 | the fix-up panics exactly when TZID is present and resolving it panics; otherwise it changes only start and end, relabelling both with the resolved zone and keeping their civil fields, and leaves the event unchanged when TZID is absent or does not resolve |
| Report.DurationDefaulted | main.go:78-81 | an explicit duration is kept; a missing one becomes the difference of the fixed-up end and start; no other field changes |
| Report.AttendeeListing | main.go:86-92 | n attendees give the first min(n, 5) names in order, then one "and n-5 more..." line exactly when n > 5 and nothing after it |
| Report.ExpandNewlinesLeavesNone | main.go:102-104 | no backslash-n pair remains in the expanded description |
| Report.ExpandNewlinesIsJoinOfSplit | main.go:103 | the expanded description is the description split on backslash-n and joined with newlines; with `SplitPiecesFree` the pieces are exactly the text between the backslash-n pairs |
| Report.OptionalLines | main.go:94-104 | summary and description lines appear exactly when the field is non-empty, the organizer line exactly when there is an organizer, and a description line has no backslash-n pair |
| Report.EventLinesIds | main.go:75 | every block carries exactly one identifier line, its own event's |
| Report.PanicEndsRun | main.go:66-69 | after a panic nothing more is reported |
| Report.RunPanicsIff | main.go:66-74 | the run panics exactly when the TZID fix-up of some event panics |
| Report.RunPrintsEveryEvent | main.go:66-105 | when no event panics, the identifiers printed are exactly the events' identifiers, in parse order, with none dropped, repeated or reordered |

## Left out

- `main` and the head of `run` are not modelled: the argument count check, `os.Open`, printing the error and `os.Exit` (main.go:13-18, 50-58). They are process plumbing.
- The `gocal` parser and its `SkipBounds` setting (main.go:60-64) are not modelled, because their source is not part of this model. The event sequence is an input, and every event is assumed to have a start and an end time.
- `time.LoadLocation` is the oracle `lookup`, and `End.Sub(Start)` is the oracle `sub`. Zone rules, offsets and the saturating 64-bit nanosecond arithmetic of `Sub` are not modelled.
- Timezone.NewTime: `time.Date` moves a civil time that falls into a daylight-saving gap. The model keeps the fields unchanged in every case, because zone rules are not modelled.
- The `Start` and `End` lines carry the fixed-up times. Their conversion with `In(time.Local)` and their `Format(time.UnixDate)` text are not modelled, because they depend on the host's zone and locale.
- The `Printf` layout of the lines and the text of a `time.Duration` are not modelled. The model keeps which lines appear, in which order and with which values.
- GoStrings.Split and GoStrings.ReplaceAll require a non-empty separator or pattern, because main.go calls them only with " " and "\\n". Go's own behaviour for an empty separator is not modelled.
- A panic is the outcome `IndexPanic` or `Panicked`. Go's panic message on standard error and its exit status are not modelled.
