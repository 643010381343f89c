/**
 * Go strings are immutable sequences of bytes. This module models, with Go's
 * exact semantics, the two operations of the `strings` package that main.go
 * calls, `Split` and `ReplaceAll`, and the byte-to-string conversion it uses.
 * `Join` is not called by main.go: it is here to state what `Split` and
 * `ReplaceAll` compute.
 */
module GoStrings {
  newtype byte = x: int | 0 <= x < 256
  type GoString = seq<byte>

  const SPACE: byte := 32
  const NEWLINE: byte := 10
  const BACKSLASH: byte := 92
  const LETTER_N: byte := 110

  /** Number of occurrences of the byte `c` in `s`. */
  function Count(s: GoString, c: byte): nat
  {
    if s == [] then 0 else (if s[0] == c then 1 else 0) + Count(s[1..], c)
  }

  /**
   * strings.Split(s, sep) for a non-empty separator: the pieces between the
   * leftmost non-overlapping occurrences of `sep`. There is always at least
   * one piece, and an empty `s` gives the single piece "".
   */
  function Split(s: GoString, sep: GoString): (parts: seq<GoString>)
    requires |sep| > 0
    ensures |parts| >= 1
    decreases |s|
  {
    if |s| < |sep| then [s]
    else if s[..|sep|] == sep then [[]] + Split(s[|sep|..], sep)
    else
      var rest := Split(s[1..], sep);
      [[s[0]] + rest[0]] + rest[1..]
  }

  /** strings.Join: the pieces with `sep` between consecutive ones. */
  function Join(parts: seq<GoString>, sep: GoString): GoString
  {
    if |parts| == 0 then []
    else if |parts| == 1 then parts[0]
    else parts[0] + sep + Join(parts[1..], sep)
  }

  /**
   * strings.ReplaceAll(s, pat, rep) for a non-empty pattern: every leftmost
   * non-overlapping occurrence of `pat` is replaced by `rep`.
   */
  function ReplaceAll(s: GoString, pat: GoString, rep: GoString): GoString
    requires |pat| > 0
    decreases |s|
  {
    if |s| < |pat| then s
    else if s[..|pat|] == pat then rep + ReplaceAll(s[|pat|..], pat, rep)
    else [s[0]] + ReplaceAll(s[1..], pat, rep)
  }

  /**
   * `string(b)` for a byte `b`: Go reads the byte as the code point U+00b and
   * yields its UTF-8 encoding, one byte below 0x80 and two bytes above.
   */
  function RuneBytes(b: byte): (r: GoString)
    ensures b < 128 ==> r == [b]
    ensures b >= 128 ==> |r| == 2 && 0xC2 <= r[0] <= 0xC3 && 0x80 <= r[1] < 0xC0
    ensures b >= 128 ==> (r[0] as int - 0xC0) * 64 + (r[1] as int - 0x80) == b as int
  {
    if b < 128 then [b]
    else [(0xC0 + b as int / 64) as byte, (0x80 + b as int % 64) as byte]
  }

  // ---------------------------------------------------------------------
  // Split and Join

  lemma JoinPrepend(parts: seq<GoString>, sep: GoString, b: byte)
    requires |parts| >= 1
    ensures Join([[b] + parts[0]] + parts[1..], sep) == [b] + Join(parts, sep)
  {
    var ps := [[b] + parts[0]] + parts[1..];
    assert ps[1..] == parts[1..];
  }

  /** Joining the pieces of a split with the same separator gives back the input. */
  lemma {:induction false} JoinSplit(s: GoString, sep: GoString)
    requires |sep| > 0
    ensures Join(Split(s, sep), sep) == s
    decreases |s|
  {
    if |s| < |sep| {
    } else if s[..|sep|] == sep {
      var rest := Split(s[|sep|..], sep);
      JoinSplit(s[|sep|..], sep);
      assert ([[]] + rest)[1..] == rest;
      assert s == sep + s[|sep|..];
    } else {
      JoinSplit(s[1..], sep);
      JoinPrepend(Split(s[1..], sep), sep, s[0]);
      assert s == [s[0]] + s[1..];
    }
  }

  /** With a one-byte separator there is one more piece than separators. */
  lemma {:induction false} SplitCount(s: GoString, c: byte)
    ensures |Split(s, [c])| == Count(s, c) + 1
    decreases |s|
  {
    if s != [] {
      SplitCount(s[1..], c);
      assert s[..1] == [s[0]];
    }
  }

  /** `sep` occurs in `s` starting at index `i`. */
  predicate OccursAt(s: GoString, sep: GoString, i: nat)
  {
    i + |sep| <= |s| && s[i..i + |sep|] == sep
  }

  /** `sep` occurs somewhere in `s` as a contiguous run. */
  ghost predicate Contains(s: GoString, sep: GoString)
  {
    exists i: nat :: OccursAt(s, sep, i)
  }

  /** The first piece is a prefix of the input. */
  lemma {:induction false} FirstPieceIsPrefix(s: GoString, sep: GoString)
    requires |sep| > 0
    ensures Split(s, sep)[0] <= s
    decreases |s|
  {
    if |s| >= |sep| && s[..|sep|] != sep {
      FirstPieceIsPrefix(s[1..], sep);
      assert s == [s[0]] + s[1..];
    }
  }

  /**
   * No piece contains the separator: together with `JoinSplit`, the pieces
   * are exactly the text between the occurrences of the separator.
   */
  lemma {:induction false} SplitPiecesFree(s: GoString, sep: GoString)
    requires |sep| > 0
    ensures forall k :: 0 <= k < |Split(s, sep)| ==> !Contains(Split(s, sep)[k], sep)
    decreases |s|
  {
    var parts := Split(s, sep);
    if |s| < |sep| {
      forall i: nat ensures !OccursAt(s, sep, i) {
      }
    } else if s[..|sep|] == sep {
      var rest := Split(s[|sep|..], sep);
      SplitPiecesFree(s[|sep|..], sep);
      assert parts == [[]] + rest;
      forall i: nat ensures !OccursAt(parts[0], sep, i) {
      }
      forall k | 1 <= k < |parts| ensures !Contains(parts[k], sep) {
        assert parts[k] == rest[k - 1];
      }
    } else {
      var rest := Split(s[1..], sep);
      SplitPiecesFree(s[1..], sep);
      FirstPieceIsPrefix(s[1..], sep);
      var first := [s[0]] + rest[0];
      assert parts == [first] + rest[1..];
      assert first <= s;
      forall i: nat ensures !OccursAt(first, sep, i) {
        if i == 0 {
          if |sep| <= |first| {
            assert first[..|sep|] == s[..|sep|];
          }
        } else if i + |sep| <= |first| {
          assert first[i..i + |sep|] == rest[0][i - 1..i - 1 + |sep|];
          assert !OccursAt(rest[0], sep, i - 1);
        }
      }
      forall k | 1 <= k < |parts| ensures !Contains(parts[k], sep) {
        assert parts[k] == rest[k];
      }
    }
  }

  /** Piece `k` is non-empty and starts at index `i` of `s`. */
  predicate PieceStart(s: GoString, c: byte, piece: GoString, k: nat, i: nat)
  {
    i < |s| && piece != [] && s[i] == piece[0]
    && if k == 0 then i == 0 else i > 0 && s[i - 1] == c
  }

  /**
   * Where the pieces of a split on one byte start: the first at index 0 and
   * every later one just after a separator.
   */
  lemma {:induction false} PieceStarts(s: GoString, c: byte)
    ensures forall k :: 0 <= k < |Split(s, [c])| && Split(s, [c])[k] != [] ==>
      exists i: nat :: PieceStart(s, c, Split(s, [c])[k], k, i)
    decreases |s|
  {
    if s != [] {
      assert s[..1] == [s[0]];
      var t := s[1..];
      var rest := Split(t, [c]);
      var parts := Split(s, [c]);
      PieceStarts(t, c);
      forall k | 0 <= k < |parts| && parts[k] != [] ensures exists i: nat :: PieceStart(s, c, parts[k], k, i) {
        if s[0] == c {
          assert parts == [[]] + rest;
          assert parts[k] == rest[k - 1];
          var j: nat :| PieceStart(t, c, rest[k - 1], k - 1, j);
          assert PieceStart(s, c, parts[k], k, j + 1);
        } else if k == 0 {
          assert PieceStart(s, c, parts[0], 0, 0);
        } else {
          assert parts == [[s[0]] + rest[0]] + rest[1..];
          assert parts[k] == rest[k];
          var j: nat :| PieceStart(t, c, rest[k], k, j);
          assert PieceStart(s, c, parts[k], k, j + 1);
        }
      }
    }
  }

  /** A first piece free of the separator is split off on its own. */
  lemma {:induction false} SplitAfterWord(w: GoString, c: byte, t: GoString)
    requires c !in w
    ensures Split(w + [c] + t, [c]) == [w] + Split(t, [c])
    decreases |w|
  {
    var s := w + [c] + t;
    if w == [] {
      assert s[..1] == [c] && s[1..] == t;
    } else {
      assert s[..1] == [w[0]] && s[1..] == w[1..] + [c] + t;
      SplitAfterWord(w[1..], c, t);
      assert [w[0]] + w[1..] == w;
    }
  }

  /** A string without the separator is its own single piece. */
  lemma {:induction false} SplitNoSeparator(s: GoString, c: byte)
    requires c !in s
    ensures Split(s, [c]) == [s]
    decreases |s|
  {
    if s != [] {
      assert s[..1] == [s[0]];
      SplitNoSeparator(s[1..], c);
      assert [s[0]] + s[1..] == s;
    }
  }

  /**
   * The first piece is empty exactly when the input is empty or starts with
   * the separator.
   */
  lemma FirstPieceEmpty(s: GoString, c: byte)
    ensures Split(s, [c])[0] == [] <==> (s == [] || s[0] == c)
  {
    if s != [] {
      assert s[..1] == [s[0]];
    }
  }

  /** Some separator is the last byte or is directly followed by another one. */
  predicate SeparatorBeforeGap(s: GoString, c: byte)
  {
    exists i :: 0 <= i < |s| && s[i] == c && (i == |s| - 1 || s[i + 1] == c)
  }

  /** Some piece after the first is empty. */
  predicate LaterEmpty(parts: seq<GoString>)
  {
    exists k :: 1 <= k < |parts| && parts[k] == []
  }

  lemma SeparatorBeforeGapStep(s: GoString, c: byte)
    requires s != []
    ensures SeparatorBeforeGap(s, c)
        <==> (s[0] == c && (|s| == 1 || s[1] == c)) || SeparatorBeforeGap(s[1..], c)
  {
    var t := s[1..];
    if SeparatorBeforeGap(s, c) {
      var i :| 0 <= i < |s| && s[i] == c && (i == |s| - 1 || s[i + 1] == c);
      if i > 0 {
        assert t[i - 1] == c && (i - 1 == |t| - 1 || t[i] == c);
      }
    }
    if SeparatorBeforeGap(t, c) {
      var i :| 0 <= i < |t| && t[i] == c && (i == |t| - 1 || t[i + 1] == c);
      assert s[i + 1] == c && (i + 1 == |s| - 1 || s[i + 2] == c);
    }
  }

  lemma LaterEmptyAfterLeadingEmpty(rest: seq<GoString>)
    requires |rest| >= 1
    ensures LaterEmpty([[]] + rest) <==> rest[0] == [] || LaterEmpty(rest)
  {
    var ps := [[]] + rest;
    if LaterEmpty(ps) {
      var k :| 1 <= k < |ps| && ps[k] == [];
      assert rest[k - 1] == [];
    }
    if LaterEmpty(rest) {
      var k :| 1 <= k < |rest| && rest[k] == [];
      assert ps[k + 1] == [];
    }
    if rest[0] == [] {
      assert ps[1] == [];
    }
  }

  lemma LaterEmptyAfterExtendedFirst(rest: seq<GoString>, b: byte)
    requires |rest| >= 1
    ensures LaterEmpty([[b] + rest[0]] + rest[1..]) <==> LaterEmpty(rest)
  {
    var ps := [[b] + rest[0]] + rest[1..];
    if LaterEmpty(ps) {
      var k :| 1 <= k < |ps| && ps[k] == [];
      assert rest[k] == [];
    }
    if LaterEmpty(rest) {
      var k :| 1 <= k < |rest| && rest[k] == [];
      assert ps[k] == [];
    }
  }

  /**
   * A later piece is empty exactly when some separator is the last byte or
   * is directly followed by another separator.
   */
  lemma {:induction false} LaterPieceEmpty(s: GoString, c: byte)
    ensures LaterEmpty(Split(s, [c])) <==> SeparatorBeforeGap(s, c)
    decreases |s|
  {
    if s != [] {
      assert s[..1] == [s[0]];
      var rest := Split(s[1..], [c]);
      LaterPieceEmpty(s[1..], c);
      FirstPieceEmpty(s[1..], c);
      SeparatorBeforeGapStep(s, c);
      if s[0] == c {
        assert Split(s, [c]) == [[]] + rest;
        LaterEmptyAfterLeadingEmpty(rest);
      } else {
        assert Split(s, [c]) == [[s[0]] + rest[0]] + rest[1..];
        LaterEmptyAfterExtendedFirst(rest, s[0]);
      }
    }
  }

  /**
   * Badly spaced text: empty, or a separator at the start, at the end, or
   * twice in a row.
   */
  predicate BadlySpaced(s: GoString, c: byte)
  {
    s == [] || s[0] == c || s[|s| - 1] == c
    || exists i :: 0 <= i < |s| - 1 && s[i] == c && s[i + 1] == c
  }

  /** Some piece is empty. */
  predicate HasEmptyPiece(parts: seq<GoString>)
  {
    exists k :: 0 <= k < |parts| && parts[k] == []
  }

  /** Splitting on one byte yields an empty piece exactly for badly spaced text. */
  lemma EmptyPieceIffBadlySpaced(s: GoString, c: byte)
    ensures HasEmptyPiece(Split(s, [c])) <==> BadlySpaced(s, c)
  {
    FirstPieceEmpty(s, c);
    LaterPieceEmpty(s, c);
    var parts := Split(s, [c]);
    if exists k :: 0 <= k < |parts| && parts[k] == [] {
      var k :| 0 <= k < |parts| && parts[k] == [];
      if k >= 1 {
        assert LaterEmpty(parts);
        var i :| 0 <= i < |s| && s[i] == c && (i == |s| - 1 || s[i + 1] == c);
        if i < |s| - 1 {
          assert 0 <= i < |s| - 1 && s[i] == c && s[i + 1] == c;
        }
      }
    }
    if BadlySpaced(s, c) && s != [] && s[0] != c {
      if s[|s| - 1] == c {
        assert 0 <= |s| - 1 < |s| && s[|s| - 1] == c;
      } else {
        var i :| 0 <= i < |s| - 1 && s[i] == c && s[i + 1] == c;
        assert 0 <= i < |s| && s[i] == c && (i == |s| - 1 || s[i + 1] == c);
      }
      assert SeparatorBeforeGap(s, c);
      var k :| 1 <= k < |parts| && parts[k] == [];
      assert 0 <= k < |parts| && parts[k] == [];
    }
  }

  // ---------------------------------------------------------------------
  // ReplaceAll

  /** ReplaceAll is the join, with the replacement, of the split on the pattern. */
  lemma {:induction false} ReplaceAllIsJoinOfSplit(s: GoString, pat: GoString, rep: GoString)
    requires |pat| > 0
    ensures ReplaceAll(s, pat, rep) == Join(Split(s, pat), rep)
    decreases |s|
  {
    if |s| < |pat| {
    } else if s[..|pat|] == pat {
      var rest := Split(s[|pat|..], pat);
      ReplaceAllIsJoinOfSplit(s[|pat|..], pat, rep);
      assert ([[]] + rest)[1..] == rest;
    } else {
      ReplaceAllIsJoinOfSplit(s[1..], pat, rep);
      JoinPrepend(Split(s[1..], pat), rep, s[0]);
    }
  }
}
