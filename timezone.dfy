/**
 * Zone handling of main.go: `parseTimezone`, which resolves a TZID label
 * through the zone database with an acronym fallback, and `newTime`, which
 * relabels a civil time with another zone.
 *
 * The zone database (`time.LoadLocation`) is an oracle `lookup` that either
 * yields a location or fails; nothing is assumed about which names it knows.
 */
module Timezone {
  import opened Wrappers
  import opened GoStrings

  /** A loaded zone, known by the name the database gave it. */
  datatype Location = Location(name: GoString)

  /** The civil fields of a `time.Time` and the zone attached to them. */
  datatype Time = Time(year: int, month: int, day: int, hour: int, minute: int,
                       second: int, nanosecond: int, loc: Location)

  /** What `parseTimezone` ends in: a zone, nil, or an index-out-of-range panic. */
  datatype Resolution = Found(loc: Location) | NotFound | IndexPanic

  /** Two times show the same calendar date and time of day. */
  predicate SameCivil(a: Time, b: Time)
  {
    a.year == b.year && a.month == b.month && a.day == b.day && a.hour == b.hour
    && a.minute == b.minute && a.second == b.second && a.nanosecond == b.nanosecond
  }

  /**
   * `newTime(t, tz)`: the same civil fields read in zone `tz`. This is a
   * relabelling, not a conversion of the instant.
   */
  function NewTime(t: Time, tz: Location): (r: Time)
    ensures SameCivil(r, t) && r.loc == tz
  {
    Time(t.year, t.month, t.day, t.hour, t.minute, t.second, t.nanosecond, tz)
  }

  /** Only the last relabelling matters, and the result is determined by its contract. */
  lemma NewTimeLastZoneWins(t: Time, z1: Location, z2: Location, u: Time)
    ensures NewTime(NewTime(t, z1), z2) == NewTime(t, z2)
    ensures SameCivil(u, t) && u.loc == z2 ==> u == NewTime(t, z2)
  {
  }

  /**
   * The acronym the loop of `parseTimezone` builds from the pieces, one
   * `string(word[0])` per piece in order; None when some piece is empty,
   * where `word[0]` panics.
   */
  function Acronym(parts: seq<GoString>): Option<GoString>
  {
    if parts == [] then Some([])
    else
      var word := parts[|parts| - 1];
      match Acronym(parts[..|parts| - 1])
      case None => None
      case Some(a) => if word == [] then None else Some(a + RuneBytes(word[0]))
  }

  /** The result of `parseTimezone(s)`, the specification of the method below. */
  function Resolve(s: GoString, lookup: GoString -> Option<Location>): Resolution
  {
    match lookup(s)
    case Some(z) => Found(z)
    case None =>
      match Acronym(Split(s, [SPACE]))
      case None => IndexPanic
      case Some(a) => if lookup(a).Some? then Found(lookup(a).value) else NotFound
  }

  /**
   * `parseTimezone`: look the label up as given; failing that, split it on
   * single spaces, build the acronym of the pieces and look that up.
   */
  method ParseTimezone(s: GoString, lookup: GoString -> Option<Location>) returns (r: Resolution)
    ensures r == Resolve(s, lookup)
  {
    var tz := lookup(s);
    if tz.Some? {
      return Found(tz.value);
    }
    var parts := Split(s, [SPACE]);
    // The `len(parts) == 0` guard of parseTimezone can never fire.
    assert |parts| != 0;
    var newTz: GoString := [];
    for i := 0 to |parts|
      invariant Acronym(parts[..i]) == Some(newTz)
    {
      var word := parts[i];
      if |word| == 0 {
        AcronymDefined(parts);
        return IndexPanic;
      }
      assert parts[..i + 1][..i] == parts[..i];
      newTz := newTz + RuneBytes(word[0]);
    }
    assert parts[..|parts|] == parts;
    tz := lookup(newTz);
    if tz.Some? {
      return Found(tz.value);
    }
    return NotFound;
  }

  // ---------------------------------------------------------------------
  // Properties of the acronym

  lemma AcronymAppend(parts: seq<GoString>, word: GoString)
    ensures Acronym(parts + [word]) == match Acronym(parts)
      case None => None
      case Some(a) => if word == [] then None else Some(a + RuneBytes(word[0]))
  {
    assert (parts + [word])[..|parts|] == parts;
  }

  /** The acronym exists exactly when no piece is empty. */
  lemma {:induction false} AcronymDefined(parts: seq<GoString>)
    ensures Acronym(parts).None? <==> HasEmptyPiece(parts)
    decreases |parts|
  {
    if parts != [] {
      var init := parts[..|parts| - 1];
      AcronymDefined(init);
      if HasEmptyPiece(init) {
        var k :| 0 <= k < |init| && init[k] == [];
        assert parts[k] == [];
      }
      if HasEmptyPiece(parts) && parts[|parts| - 1] != [] {
        var k :| 0 <= k < |parts| && parts[k] == [];
        assert init[k] == [];
      }
    }
  }

  /**
   * When every piece is non-empty and starts with an ASCII byte, the acronym
   * is exactly the first byte of every piece, in order.
   */
  lemma {:induction false} AcronymOfAsciiPieces(parts: seq<GoString>)
    requires forall k :: 0 <= k < |parts| ==> parts[k] != [] && parts[k][0] < 128
    ensures Acronym(parts).Some?
    ensures |Acronym(parts).value| == |parts|
    ensures forall k :: 0 <= k < |parts| ==> Acronym(parts).value[k] == parts[k][0]
    decreases |parts|
  {
    if parts != [] {
      var init := parts[..|parts| - 1];
      AcronymOfAsciiPieces(init);
    }
  }

  /** Index `i` of `s` begins a space-separated word. */
  predicate WordStart(s: GoString, i: nat)
    requires i < |s|
  {
    i == 0 || s[i - 1] == SPACE
  }

  /**
   * For a well-spaced label whose words start with ASCII bytes, the acronym
   * has one byte per space-separated piece, so its length is the number of
   * spaces plus one, and byte k is the first byte of piece k.
   */
  lemma LabelAcronym(s: GoString)
    requires !BadlySpaced(s, SPACE)
    requires forall i :: 0 <= i < |s| && WordStart(s, i) ==> s[i] < 128
    ensures var parts := Split(s, [SPACE]);
      var a := Acronym(parts);
      && a.Some?
      && |parts| == Count(s, SPACE) + 1
      && |a.value| == |parts|
      && forall k :: 0 <= k < |parts| ==> parts[k] != [] && a.value[k] == parts[k][0]
  {
    var parts := Split(s, [SPACE]);
    EmptyPieceIffBadlySpaced(s, SPACE);
    PieceStarts(s, SPACE);
    SplitCount(s, SPACE);
    forall k | 0 <= k < |parts| ensures parts[k] != [] && parts[k][0] < 128 {
      assert parts[k] != [];
      var i: nat :| PieceStart(s, SPACE, parts[k], k, i);
      assert WordStart(s, i);
    }
    AcronymOfAsciiPieces(parts);
  }

  // ---------------------------------------------------------------------
  // Properties of the resolver

  /**
   * A label the database knows resolves to that zone, whatever the database
   * says about any other name: the acronym is never consulted.
   */
  lemma DirectLookupWins(s: GoString, l1: GoString -> Option<Location>, l2: GoString -> Option<Location>)
    requires l1(s).Some? && l2(s) == l1(s)
    ensures Resolve(s, l1) == Resolve(s, l2) == Found(l1(s).value)
  {
  }

  /**
   * `parseTimezone` panics exactly when the direct lookup fails and the label
   * is empty, or has a leading, trailing or doubled space.
   */
  lemma PanicIffBadlySpaced(s: GoString, lookup: GoString -> Option<Location>)
    ensures Resolve(s, lookup).IndexPanic? <==> lookup(s).None? && BadlySpaced(s, SPACE)
  {
    var parts := Split(s, [SPACE]);
    AcronymDefined(parts);
    EmptyPieceIffBadlySpaced(s, SPACE);
    if lookup(s).None? {
      assert Resolve(s, lookup).IndexPanic? <==> Acronym(parts).None?;
    }
  }

  /**
   * When the direct lookup fails on a well-spaced label, the result is the
   * lookup of the acronym, or nil: the resolver never panics then.
   */
  lemma FallbackToAcronym(s: GoString, lookup: GoString -> Option<Location>)
    requires lookup(s).None? && !BadlySpaced(s, SPACE)
    ensures Acronym(Split(s, [SPACE])).Some?
    ensures var a := Acronym(Split(s, [SPACE])).value;
      Resolve(s, lookup) == if lookup(a).Some? then Found(lookup(a).value) else NotFound
  {
    AcronymDefined(Split(s, [SPACE]));
    EmptyPieceIffBadlySpaced(s, SPACE);
  }

  /** The empty label resolves only if the database knows "" itself; otherwise `word[0]` panics. */
  lemma EmptyLabel(lookup: GoString -> Option<Location>)
    ensures Resolve([], lookup) == if lookup([]).Some? then Found(lookup([]).value) else IndexPanic
  {
    assert Split([], [SPACE]) == [[]];
  }

  // The ASCII bytes of "Eastern", "Standard", "Time" and "EST".
  const EASTERN: GoString := [69, 97, 115, 116, 101, 114, 110]
  const STANDARD: GoString := [83, 116, 97, 110, 100, 97, 114, 100]
  const TIME: GoString := [84, 105, 109, 101]
  const EST: GoString := [69, 83, 84]

  lemma EasternStandardTimePieces()
    ensures Split(EASTERN + [SPACE] + STANDARD + [SPACE] + TIME, [SPACE]) == [EASTERN, STANDARD, TIME]
  {
    assert EASTERN + [SPACE] + STANDARD + [SPACE] + TIME == EASTERN + [SPACE] + (STANDARD + [SPACE] + TIME);
    SplitAfterWord(EASTERN, SPACE, STANDARD + [SPACE] + TIME);
    SplitAfterWord(STANDARD, SPACE, TIME);
    SplitNoSeparator(TIME, SPACE);
  }

  lemma EasternStandardTimeAcronym()
    ensures Acronym([EASTERN, STANDARD, TIME]) == Some(EST)
  {
    AcronymAppend([], EASTERN);
    assert [] + [EASTERN] == [EASTERN];
    AcronymAppend([EASTERN], STANDARD);
    assert [EASTERN] + [STANDARD] == [EASTERN, STANDARD];
    AcronymAppend([EASTERN, STANDARD], TIME);
    assert [EASTERN, STANDARD] + [TIME] == [EASTERN, STANDARD, TIME];
    assert RuneBytes(EASTERN[0]) == [69] && RuneBytes(STANDARD[0]) == [83] && RuneBytes(TIME[0]) == [84];
    assert [] + [69] + [83] + [84] == EST;
  }

  /** "Eastern Standard Time" falls back to a lookup of "EST". */
  lemma EasternStandardTime(lookup: GoString -> Option<Location>)
    requires lookup(EASTERN + [SPACE] + STANDARD + [SPACE] + TIME).None?
    ensures Resolve(EASTERN + [SPACE] + STANDARD + [SPACE] + TIME, lookup)
        == if lookup(EST).Some? then Found(lookup(EST).value) else NotFound
  {
    EasternStandardTimePieces();
    EasternStandardTimeAcronym();
  }
}
