/**
 The line reader of `ini_load`: the byte-order-mark skip, the physical-line reader
 `rw_getline` and the continuation joiner `_getline`.

 The input stream is the `string` of the file's bytes; every read returns the unread
 remainder of the stream alongside what it produced.
 */
module LineReader {
  import opened CText

  /** The most characters `rw_getline` stores per call. */
  const MaxLine: nat := 2048

  /** The size of the buffer `rw_getline` allocates as written: as many bytes as it may
      store characters, with no room left for the terminator after the last of them. */
  const AllocatedAsWritten: nat := 2048

  /** The buffer size that holds every line `rw_getline` stores together with its
      terminating NUL. */
  const Allocated: nat := MaxLine + 1

  /** The terminator written after `text` (at index `|text|`) lies inside a buffer of
      `size` bytes. */
  predicate TerminatorFits(text: string, size: nat) {
    |text| < size
  }

  /** The UTF-8 byte-order mark EF BB BF, one byte per character. */
  const Bom: string := ['\U{EF}', '\U{BB}', '\U{BF}']

  predicate StartsWithBom(s: string) {
    |s| >= 3 && s[..3] == Bom
  }

  /** The stream position after the byte-order-mark check: past the mark if the first three
      bytes are one, back at the start otherwise (also when fewer than three bytes exist). */
  function SkipBom(s: string): string {
    if StartsWithBom(s) then s[3..] else s
  }

  /** Neither a carriage return nor a line feed occurs in `s`. */
  predicate NoBreaks(s: string) {
    forall i :: 0 <= i < |s| ==> s[i] != '\r' && s[i] != '\n'
  }

  /** `s` with every carriage return removed. */
  function DropCR(s: string): string {
    if |s| == 0 then [] else (if s[0] == '\r' then [] else [s[0]]) + DropCR(s[1..])
  }

  lemma DropCRCons(c: char, s: string)
    ensures DropCR([c] + s) == (if c == '\r' then [] else [c]) + DropCR(s)
  {
    assert ([c] + s)[1..] == s;
  }

  /** What one call of `rw_getline` yields: -1 (nothing but carriage returns were left)
      or the characters it stored, together with the rest of the stream. */
  datatype PhysicalRead = EndOfInput | Physical(text: string, rest: string)

  /** The read loop of `rw_getline` once `acc` has been stored. */
  function ReadPhysicalFrom(s: string, acc: string): (r: PhysicalRead)
    requires |acc| < MaxLine && NoBreaks(acc)
    ensures r.EndOfInput? <==> acc == [] && forall i :: 0 <= i < |s| ==> s[i] == '\r'
    ensures r.Physical? ==> |r.rest| <= |s| && r.rest == s[|s| - |r.rest|..]
    ensures r.Physical? && acc == [] ==> |r.rest| < |s|
    ensures r.Physical? ==> |acc| <= |r.text| <= MaxLine && r.text[..|acc|] == acc
    ensures r.Physical? ==> NoBreaks(r.text)
    decreases |s|
  {
    if |s| == 0 then
      (if |acc| == 0 then EndOfInput else Physical(acc, s))
    else if s[0] == '\r' then
      ReadPhysicalFrom(s[1..], acc)
    else if s[0] == '\n' then
      Physical(acc, s[1..])
    else if |acc| + 1 == MaxLine then
      Physical(acc + [s[0]], s[1..])
    else
      ReadPhysicalFrom(s[1..], acc + [s[0]])
  }

  /** What a read consumed, carriage returns removed, is the stored text followed by the
      line feed that ended it; without a line feed the read stopped at the cap or at the
      end of the stream. */
  predicate Accounts(s: string, acc: string, r: PhysicalRead)
    requires r.Physical? && |r.rest| <= |s| && |acc| <= |r.text|
  {
    var used := s[..|s| - |r.rest|];
    || (DropCR(used) == r.text[|acc|..] + ['\n'] && used[|used| - 1] == '\n')
    || (DropCR(used) == r.text[|acc|..] && (|r.text| == MaxLine || r.rest == []))
  }

  lemma AccountsStep(s: string, acc: string, acc': string, r: PhysicalRead)
    requires |s| > 0 && r.Physical? && |r.rest| <= |s| - 1 && |acc'| <= |r.text|
    requires acc' == acc + (if s[0] == '\r' then [] else [s[0]])
    requires r.text[..|acc'|] == acc'
    requires Accounts(s[1..], acc', r)
    ensures Accounts(s, acc, r)
  {
    var k := |s[1..]| - |r.rest|;
    assert s[..|s| - |r.rest|] == [s[0]] + s[1..][..k];
    DropCRCons(s[0], s[1..][..k]);
    assert r.text[|acc|..] == (if s[0] == '\r' then [] else [s[0]]) + r.text[|acc'|..];
  }

  lemma {:induction false} ReadPhysicalFromConsumes(s: string, acc: string)
    requires |acc| < MaxLine && NoBreaks(acc)
    ensures ReadPhysicalFrom(s, acc).Physical? ==> Accounts(s, acc, ReadPhysicalFrom(s, acc))
    decreases |s|
  {
    var r := ReadPhysicalFrom(s, acc);
    if |s| == 0 || !r.Physical? {
    } else if s[0] == '\r' {
      ReadPhysicalFromConsumes(s[1..], acc);
      assert acc + [] == acc;
      AccountsStep(s, acc, acc, r);
    } else if s[0] == '\n' {
      assert s[..|s| - |r.rest|] == ['\n'];
      DropCRCons('\n', []);
    } else if |acc| + 1 == MaxLine {
      assert s[..|s| - |r.rest|] == [s[0]];
      DropCRCons(s[0], []);
    } else {
      assert NoBreaks(acc + [s[0]]);
      ReadPhysicalFromConsumes(s[1..], acc + [s[0]]);
      AccountsStep(s, acc, acc + [s[0]], r);
    }
  }

  /** `rw_getline`: carriage returns are dropped, a line feed ends the line and is consumed,
      and at most `MaxLine` characters are stored; the rest waits for the next call. */
  function ReadPhysical(s: string): (r: PhysicalRead)
    ensures r.EndOfInput? <==> forall i :: 0 <= i < |s| ==> s[i] == '\r'
    ensures r.Physical? ==> |r.rest| < |s| && r.rest == s[|s| - |r.rest|..]
    ensures r.Physical? ==> |r.text| <= MaxLine && NoBreaks(r.text)
  {
    ReadPhysicalFrom(s, [])
  }

  /** With room for the terminator, every line `rw_getline` stores fits its buffer. */
  lemma StoredLineFits(s: string)
    ensures ReadPhysical(s).Physical? ==> TerminatorFits(ReadPhysical(s).text, Allocated)
  {
  }

  /** Every character `rw_getline` consumed is accounted for: the stored text, the line feed
      that ended it, and carriage returns, which are dropped. */
  lemma ReadPhysicalConsumes(s: string)
    requires ReadPhysical(s).Physical?
    ensures Accounts(s, [], ReadPhysical(s))
  {
    ReadPhysicalFromConsumes(s, []);
  }

  lemma {:induction false} ReadFromTerminated(acc: string, line: string, t: string)
    requires NoBreaks(acc) && NoBreaks(line) && |acc| + |line| < MaxLine
    ensures ReadPhysicalFrom(line + ['\n'] + t, acc) == Physical(acc + line, t)
    decreases |line|
  {
    var s := line + ['\n'] + t;
    if |line| == 0 {
      assert s == ['\n'] + t && s[1..] == t;
      assert acc + line == acc;
    } else {
      assert s[0] == line[0] && s[1..] == line[1..] + ['\n'] + t;
      assert NoBreaks(acc + [line[0]]);
      ReadFromTerminated(acc + [line[0]], line[1..], t);
      assert acc + [line[0]] + line[1..] == acc + line;
    }
  }

  /** A line of fewer than `MaxLine` characters followed by a line feed is read whole, and
      reading resumes right after the line feed. */
  lemma ReadTerminatedLine(line: string, t: string)
    requires NoBreaks(line) && |line| < MaxLine
    ensures ReadPhysical(line + ['\n'] + t) == Physical(line, t)
  {
    ReadFromTerminated([], line, t);
    assert [] + line == line;
  }

  lemma {:induction false} ReadFromCapped(acc: string, line: string, t: string)
    requires NoBreaks(acc) && NoBreaks(line) && |line| > 0 && |acc| + |line| == MaxLine
    ensures ReadPhysicalFrom(line + t, acc) == Physical(acc + line, t)
    decreases |line|
  {
    var s := line + t;
    assert s[0] == line[0] && s[1..] == line[1..] + t;
    if |line| == 1 {
      assert line == [line[0]] && line[1..] + t == t;
    } else {
      assert NoBreaks(acc + [line[0]]);
      ReadFromCapped(acc + [line[0]], line[1..], t);
      assert acc + [line[0]] + line[1..] == acc + line;
    }
  }

  /** A line of `MaxLine` or more characters is cut after `MaxLine` of them; the next call
      starts on the very next byte, so when that byte is the line feed the next call yields
      an extra empty line. The terminator is then written at index `MaxLine` of the buffer
      as allocated, one past its end. */
  lemma ReadCappedLine(line: string, t: string)
    requires NoBreaks(line) && |line| == MaxLine
    ensures ReadPhysical(line + t) == Physical(line, t)
    ensures !TerminatorFits(ReadPhysical(line + t).text, AllocatedAsWritten)
    ensures ReadPhysical(line + ['\n'] + t) == Physical(line, ['\n'] + t)
    ensures ReadPhysical(['\n'] + t) == Physical([], t)
  {
    CappedLineAlone(line, t);
    CappedLineAlone(line, ['\n'] + t);
    assert line + ['\n'] + t == line + (['\n'] + t);
    EmptyTerminatedLine(t);
  }

  lemma CappedLineAlone(line: string, t: string)
    requires NoBreaks(line) && |line| == MaxLine
    ensures ReadPhysical(line + t) == Physical(line, t)
  {
    ReadFromCapped([], line, t);
    assert [] + line == line;
  }

  lemma EmptyTerminatedLine(t: string)
    ensures ReadPhysical(['\n'] + t) == Physical([], t)
  {
    ReadTerminatedLine([], t);
    assert [] + ['\n'] + t == ['\n'] + t;
  }

  /** The separator `_getline` leaves where the backslash was: nothing when the character
      before the backslash (index len-3) is whitespace, a space otherwise. For a line of
      two characters that index is -1, outside the buffer; the byte there is taken to be
      non-space. */
  function JoinSeparator(line: string): string
    requires |line| >= 2
  {
    if |line| >= 3 && IsSpace(line[|line| - 3]) then [] else [' ']
  }

  /** One join step of `_getline`: the last character is dropped, the backslash before it
      becomes `JoinSeparator`, and the next physical line minus its leading whitespace is
      appended with `strcat` (so both halves end at their first NUL). */
  function Join(line: string, next: string): (r: string)
    requires |line| >= 2
    ensures NoNul(r)
  {
    CStr(line[..|line| - 2] + JoinSeparator(line)) + CStr(LSkip(next))
  }

  lemma NoBreaksOfCStr(s: string)
    requires NoBreaks(s)
    ensures NoBreaks(CStr(s))
  {
  }

  lemma NoBreaksOfLSkip(s: string)
    requires NoBreaks(s)
    ensures NoBreaks(LSkip(s))
  {
  }

  lemma NoBreaksConcat(a: string, b: string)
    requires NoBreaks(a) && NoBreaks(b)
    ensures NoBreaks(a + b)
  {
  }

  lemma JoinKeepsNoBreaks(line: string, next: string)
    requires |line| >= 2 && NoBreaks(line) && NoBreaks(next)
    ensures NoBreaks(Join(line, next))
  {
    var a := line[..|line| - 2] + JoinSeparator(line);
    assert NoBreaks(a);
    NoBreaksOfCStr(a);
    NoBreaksOfLSkip(next);
    NoBreaksOfCStr(LSkip(next));
    NoBreaksConcat(CStr(a), CStr(LSkip(next)));
  }

  /** The continuation test of `_getline`: the character at index len-2, the second to
      last once the line feed and carriage returns are gone, is a backslash. */
  predicate Continues(line: string) {
    |line| >= 2 && line[|line| - 2] == '\\'
  }

  /** What one call of `_getline` yields: -1, or a logical line and the rest of the stream. */
  datatype LogicalRead = NoMoreLines | Logical(text: string, rest: string)

  /** The join loop of `_getline`. When the stream ends while a continuation is pending,
      the line read so far is returned as it stands (status 0). */
  function Continue(line: string, rest: string): (r: LogicalRead)
    ensures r.Logical? && |r.rest| <= |rest|
    ensures NoBreaks(line) ==> NoBreaks(r.text)
    decreases |rest|
  {
    if Continues(line) then
      match ReadPhysical(rest)
      case EndOfInput => Logical(line, [])
      case Physical(next, rest') =>
        if NoBreaks(line) then JoinKeepsNoBreaks(line, next); Continue(Join(line, next), rest')
        else Continue(Join(line, next), rest')
    else
      Logical(line, rest)
  }

  /** `_getline`. */
  function ReadLogical(s: string): (r: LogicalRead)
    ensures r.NoMoreLines? <==> forall i :: 0 <= i < |s| ==> s[i] == '\r'
    ensures r.Logical? ==> |r.rest| < |s| && NoBreaks(r.text)
  {
    match ReadPhysical(s)
    case EndOfInput => NoMoreLines
    case Physical(line, rest) => Continue(line, rest)
  }

  /** The logical lines `ini_load` receives, in order, from a stream positioned after the
      byte-order-mark check. */
  function LogicalLines(s: string): (lines: seq<string>)
    ensures forall i :: 0 <= i < |lines| ==> NoBreaks(lines[i])
    decreases |s|
  {
    match ReadLogical(s)
    case NoMoreLines => []
    case Logical(line, rest) => [line] + LogicalLines(rest)
  }

  /** A plain segment of a continued line: one or more characters, no NUL, no line break,
      no whitespace at either end, short enough to survive `rw_getline` with two more
      characters appended. */
  predicate Segment(s: string) {
    0 < |s| && |s| + 2 < MaxLine && NoNul(s) && NoBreaks(s) && !IsSpace(s[0]) && !IsSpace(s[|s| - 1])
  }

  /** Writes `segs` as continued physical lines: every segment but the last is followed by
      a backslash and the filler character `pad`, which `_getline` discards. */
  function Continued(segs: seq<string>, pad: char): string
    requires |segs| > 0
  {
    if |segs| == 1 then segs[0] + ['\n']
    else segs[0] + ['\\', pad, '\n'] + Continued(segs[1..], pad)
  }

  /** The segments joined by single spaces. */
  function Spaced(segs: seq<string>): string
    requires |segs| > 0
  {
    if |segs| == 1 then segs[0] else segs[0] + [' '] + Spaced(segs[1..])
  }

  /** The last segment must not itself look continued. */
  predicate EndsUncontinued(s: string) {
    |s| < 2 || s[|s| - 2] != '\\'
  }

  lemma JoinOfSegment(acc: string, pad: char, next: string)
    requires 0 < |acc| && NoNul(acc) && !IsSpace(acc[|acc| - 1])
    requires NoNul(next) && (next == [] || !IsSpace(next[0]))
    ensures Join(acc + ['\\', pad], next) == acc + [' '] + next
  {
    var line := acc + ['\\', pad];
    assert line[..|line| - 2] == acc;
    assert line[|line| - 3] == acc[|acc| - 1];
    assert JoinSeparator(line) == [' '];
    CStrOfNoNul(acc + [' ']);
    LSkipPadded([], next);
    assert [] + next == next;
    CStrOfNoNul(next);
  }

  /** When whitespace stands before the backslash, the backslash and the character after it
      are dropped and nothing is put in their place: the next line, minus its leading
      whitespace, follows the whitespace directly. */
  lemma JoinAfterSpace(acc: string, pad: char, next: string)
    requires 0 < |acc| && NoNul(acc) && IsSpace(acc[|acc| - 1])
    ensures Join(acc + ['\\', pad], next) == acc + CStr(LSkip(next))
  {
    var line := acc + ['\\', pad];
    assert line[..|line| - 2] == acc;
    assert line[|line| - 3] == acc[|acc| - 1];
    assert acc + [] == acc;
    CStrOfNoNul(acc);
  }

  lemma ContinueStep(line: string, rest: string, next: string, rest': string)
    requires Continues(line) && ReadPhysical(rest) == Physical(next, rest')
    ensures Continue(line, rest) == Continue(Join(line, next), rest')
  {
  }

  lemma ContinueStop(line: string, rest: string)
    requires !Continues(line)
    ensures Continue(line, rest) == Logical(line, rest)
  {
  }

  predicate Segments(segs: seq<string>) {
    && |segs| > 0
    && (forall i :: 0 <= i < |segs| ==> Segment(segs[i]))
    && EndsUncontinued(segs[|segs| - 1])
  }

  lemma SegmentsTail(segs: seq<string>)
    requires Segments(segs) && |segs| > 1
    ensures Segments(segs[1..]) && Segment(segs[0])
  {
    var tail := segs[1..];
    forall i | 0 <= i < |tail| ensures Segment(tail[i]) {
      assert tail[i] == segs[i + 1];
    }
    assert tail[|tail| - 1] == segs[|segs| - 1];
  }

  /** The first physical line of a continued line: a segment, the backslash and the pad. */
  lemma FirstOfContinued(segs: seq<string>, pad: char, t: string)
    requires Segments(segs) && |segs| > 1
    requires pad != '\r' && pad != '\n' && pad != '\0'
    ensures ReadPhysical(Continued(segs, pad) + t)
            == Physical(segs[0] + ['\\', pad], Continued(segs[1..], pad) + t)
    ensures NoNul(segs[0] + ['\\', pad])
  {
    var s0 := segs[0];
    assert Segment(s0);
    var phys := s0 + ['\\', pad];
    var rest := Continued(segs[1..], pad) + t;
    assert NoBreaks(phys);
    assert Continued(segs, pad) + t == phys + ['\n'] + rest;
    ReadTerminatedLine(phys, rest);
  }

  /** The last physical line of a continued line: a segment alone. */
  lemma LastOfContinued(segs: seq<string>, pad: char, t: string)
    requires Segments(segs) && |segs| == 1
    ensures ReadPhysical(Continued(segs, pad) + t) == Physical(segs[0], t)
  {
    assert Segment(segs[0]);
    assert Continued(segs, pad) + t == segs[0] + ['\n'] + t;
    ReadTerminatedLine(segs[0], t);
  }

  lemma ContinueLastSegment(acc: string, pad: char, segs: seq<string>, t: string)
    requires 0 < |acc| && NoNul(acc) && !IsSpace(acc[|acc| - 1])
    requires Segments(segs) && |segs| == 1
    ensures Continue(acc + ['\\', pad], Continued(segs, pad) + t)
            == Logical(acc + [' '] + Spaced(segs), t)
  {
    var line := acc + ['\\', pad];
    var s0 := segs[0];
    assert Segment(s0) && EndsUncontinued(s0) by {
      assert segs[|segs| - 1] == s0;
    }
    JoinedStops(acc, s0);
    LastOfContinued(segs, pad, t);
    ContinueStep(line, Continued(segs, pad) + t, s0, t);
    JoinOfSegment(acc, pad, s0);
    ContinueStop(acc + [' '] + s0, t);
  }

  /** Joining an uncontinued segment gives a line that is not continued either. */
  lemma JoinedStops(acc: string, s0: string)
    requires 0 < |s0| && EndsUncontinued(s0)
    ensures !Continues(acc + [' '] + s0)
  {
    var j := acc + [' '] + s0;
    if |s0| >= 2 {
      assert j[|j| - 2] == s0[|s0| - 2];
    } else {
      assert j[|j| - 2] == ' ';
    }
  }

  /** The first continued segment is joined onto the pending line with one space. */
  lemma ContinueFirstSegment(acc: string, pad: char, segs: seq<string>, t: string)
    requires 0 < |acc| && NoNul(acc) && !IsSpace(acc[|acc| - 1])
    requires Segments(segs) && |segs| > 1
    requires pad != '\r' && pad != '\n' && pad != '\0'
    ensures Continue(acc + ['\\', pad], Continued(segs, pad) + t)
            == Continue(acc + [' '] + segs[0] + ['\\', pad], Continued(segs[1..], pad) + t)
  {
    var line := acc + ['\\', pad];
    var phys := segs[0] + ['\\', pad];
    var rest := Continued(segs[1..], pad) + t;
    FirstOfContinued(segs, pad, t);
    ContinueStep(line, Continued(segs, pad) + t, phys, rest);
    JoinOfSegment(acc, pad, phys);
    assert acc + [' '] + phys == acc + [' '] + segs[0] + ['\\', pad];
  }

  /** A pending line extended by a space and a segment still ends in a non-space. */
  lemma ExtendPending(acc: string, s0: string)
    requires NoNul(acc) && Segment(s0)
    ensures var acc' := acc + [' '] + s0;
            0 < |acc'| && NoNul(acc') && !IsSpace(acc'[|acc'| - 1])
  {
    var acc' := acc + [' '] + s0;
    assert acc'[|acc'| - 1] == s0[|s0| - 1];
  }

  lemma Regroup(acc: string, s0: string, spaced: string)
    ensures acc + [' '] + s0 + [' '] + spaced == acc + [' '] + (s0 + [' '] + spaced)
  {
  }

  lemma {:induction false} ContinueSegments(acc: string, pad: char, segs: seq<string>, t: string)
    requires 0 < |acc| && NoNul(acc) && !IsSpace(acc[|acc| - 1])
    requires Segments(segs)
    requires pad != '\r' && pad != '\n' && pad != '\0'
    ensures Continue(acc + ['\\', pad], Continued(segs, pad) + t)
            == Logical(acc + [' '] + Spaced(segs), t)
    decreases |segs|
  {
    if |segs| == 1 {
      ContinueLastSegment(acc, pad, segs, t);
    } else {
      SegmentsTail(segs);
      var acc' := acc + [' '] + segs[0];
      ContinueFirstSegment(acc, pad, segs, t);
      ExtendPending(acc, segs[0]);
      ContinueSegments(acc', pad, segs[1..], t);
      assert Spaced(segs) == segs[0] + [' '] + Spaced(segs[1..]);
      Regroup(acc, segs[0], Spaced(segs[1..]));
    }
  }

  /** Physical lines joined by continuation read back as one logical line in which each
      join point is a single space, the backslash and the character after it gone. */
  lemma ContinuedLinesRoundTrip(segs: seq<string>, pad: char, t: string)
    requires Segments(segs)
    requires pad != '\r' && pad != '\n' && pad != '\0'
    ensures ReadLogical(Continued(segs, pad) + t) == Logical(Spaced(segs), t)
  {
    if |segs| == 1 {
      LastOfContinued(segs, pad, t);
      assert Segment(segs[0]);
      ContinueStop(segs[0], t);
    } else {
      SegmentsTail(segs);
      FirstOfContinued(segs, pad, t);
      ContinueSegments(segs[0], pad, segs[1..], t);
    }
  }

  /** A line whose last character is a backslash is not continued: the test looks one
      character further left. */
  lemma TrailingBackslashNotJoined(line: string, t: string)
    requires NoBreaks(line) && 2 <= |line| < MaxLine
    requires line[|line| - 1] == '\\' && line[|line| - 2] != '\\'
    ensures ReadLogical(line + ['\n'] + t) == Logical(line, t)
  {
    ReadTerminatedLine(line, t);
  }

  /** When the stream ends while a continuation is pending, the line comes back unjoined,
      backslash and last character included, and the stream is exhausted. */
  lemma ContinuationAtEndOfInput(line: string)
    requires NoBreaks(line) && |line| < MaxLine && Continues(line)
    ensures ReadLogical(line + ['\n']) == Logical(line, [])
  {
    ReadTerminatedLine(line, []);
    assert line + ['\n'] + [] == line + ['\n'];
  }

  /** A line that is exactly a backslash and one more character is continued, and the test
      for whitespace before the backslash reads index -1, before the buffer. Taking that
      byte as non-space, the joined line is a single space followed by the next line minus
      its leading whitespace. */
  lemma ShortContinuationReadsBeforeBuffer(c: char, next: string)
    requires c != '\r' && c != '\n'
    ensures Continues(['\\', c])
    ensures |['\\', c]| - 3 == -1
    ensures Join(['\\', c], next) == [' '] + CStr(LSkip(next))
  {
    var line := ['\\', c];
    assert line[..|line| - 2] == [];
    assert [] + [' '] == [' '];
    CStrOfNoNul([' ']);
  }
}
