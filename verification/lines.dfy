/**
 What reading a file line by line means, on plain byte sequences.
 */
module Lines {
  import opened Bytes

  /** What one call of next_line reports. */
  datatype Event =
    | Line(text: Text)
    | EndOfInput
    | LineTooLong
    | AssertionFailed

  /** The bytes not yet returned, or the state in which data_begin has passed data_end. */
  datatype Cursor = Unread(rest: Text) | Overrun

  /** The number of bytes before the first newline, or all of them. */
  function LineLength(s: Text): (n: nat)
    ensures n <= |s|
    ensures NEWLINE !in s[..n]
    ensures n < |s| ==> s[n] == NEWLINE
  {
    if s == [] || s[0] == NEWLINE then 0 else 1 + LineLength(s[1..])
  }

  /** Drops one trailing carriage return. */
  function StripCr(s: Text): Text {
    if s != [] && s[|s| - 1] == CARRIAGE_RETURN then s[..|s| - 1] else s
  }

  function SkipBom(s: Text): Text {
    if BOM <= s then s[3..] else s
  }

  /** One call of next_line with block length `blockLen`, when `tail` is the byte found just past
      the end of the data. */
  function Next(c: Cursor, blockLen: nat, tail: Byte): (Event, Cursor) {
    match c
    case Overrun => (AssertionFailed, c)
    case Unread(rest) =>
      if rest == [] then (EndOfInput, c)
      else
        var n := LineLength(rest);
        if n + 1 > blockLen then (LineTooLong, c)
        else (Line(StripCr(rest[..n])), AfterLine(rest, n, tail))
  }

  /** The cursor after the line of length `n` has been returned. */
  function AfterLine(rest: Text, n: nat, tail: Byte): Cursor
    requires n <= |rest|
  {
    if n < |rest| then Unread(rest[n + 1..])
    else if tail == NEWLINE then Overrun
    else Unread([])
  }

  /** The events of `k` successive calls. */
  function Events(c: Cursor, blockLen: nat, tail: Byte, k: nat): (es: seq<Event>)
    ensures |es| == k
    decreases k
  {
    if k == 0 then []
    else
      var (e, c') := Next(c, blockLen, tail);
      [e] + Events(c', blockLen, tail, k - 1)
  }

  /** The cursor after `k` calls. */
  function CursorAfter(c: Cursor, blockLen: nat, tail: Byte, k: nat): Cursor
    decreases k
  {
    if k == 0 then c else CursorAfter(Next(c, blockLen, tail).1, blockLen, tail, k - 1)
  }

  lemma {:induction false} CursorAfterNext(c: Cursor, blockLen: nat, tail: Byte, k: nat)
    ensures CursorAfter(c, blockLen, tail, k + 1) == Next(CursorAfter(c, blockLen, tail, k), blockLen, tail).1
    decreases k
  {
    if k > 0 {
      CursorAfterNext(Next(c, blockLen, tail).1, blockLen, tail, k - 1);
    }
  }

  /** Each event is that of one more call. */
  lemma {:induction false} EventAt(c: Cursor, blockLen: nat, tail: Byte, k: nat, i: nat, e: Event)
    requires i < k && e == Next(CursorAfter(c, blockLen, tail, i), blockLen, tail).0
    ensures Events(c, blockLen, tail, k)[i] == e
    decreases k
  {
    if i > 0 {
      EventAt(Next(c, blockLen, tail).1, blockLen, tail, k - 1, i - 1, e);
    }
  }

  lemma {:induction false} EventsGrow(c: Cursor, blockLen: nat, tail: Byte, k: nat, e: Event)
    requires e == Next(CursorAfter(c, blockLen, tail, k), blockLen, tail).0
    ensures Events(c, blockLen, tail, k + 1) == Events(c, blockLen, tail, k) + [e]
    decreases k
  {
    if k > 0 {
      EventsGrow(Next(c, blockLen, tail).1, blockLen, tail, k - 1, e);
    }
  }

  /** A file in which every line ends in a newline. */
  function Unlines(lines: seq<Text>): Text {
    if lines == [] then [] else lines[0] + [NEWLINE] + Unlines(lines[1..])
  }

  /** The reference split: newline-terminated lines, then what follows the last newline. */
  function Split(s: Text): (seq<Text>, Text)
    decreases |s|
  {
    var n := LineLength(s);
    if n == |s| then ([], s)
    else
      var (lines, last) := Split(s[n + 1..]);
      ([s[..n]] + lines, last)
  }

  ghost predicate NewlineFree(lines: seq<Text>) {
    forall i :: 0 <= i < |lines| ==> NEWLINE !in lines[i]
  }

  /** Nothing is lost by splitting. */
  lemma {:induction false} SplitJoins(s: Text)
    ensures Unlines(Split(s).0) + Split(s).1 == s
    decreases |s|
  {
    var n := LineLength(s);
    if n < |s| {
      var line, rest := s[..n], s[n + 1..];
      CutAt(s, n, line, rest);
      SplitJoins(rest);
      JoinStep(line, Split(rest).0, Split(rest).1, rest);
    }
  }

  lemma CutAt(s: Text, n: nat, line: Text, rest: Text)
    requires n < |s| && s[n] == NEWLINE && line == s[..n] && rest == s[n + 1..]
    ensures s == line + [NEWLINE] + rest
  {
  }

  lemma JoinStep(line: Text, lines: seq<Text>, last: Text, rest: Text)
    requires Unlines(lines) + last == rest
    ensures Unlines([line] + lines) + last == line + [NEWLINE] + rest
  {
    assert ([line] + lines)[1..] == lines;
    var head := line + [NEWLINE];
    assert (head + Unlines(lines)) + last == head + (Unlines(lines) + last);
  }

  /** No newline is left by splitting. */
  lemma {:induction false} SplitIsNewlineFree(s: Text)
    ensures NewlineFree(Split(s).0) && NEWLINE !in Split(s).1
    decreases |s|
  {
    var n := LineLength(s);
    if n < |s| {
      SplitIsNewlineFree(s[n + 1..]);
    }
  }

  /** Splitting inverts writing: the split of a file is the only one there is. */
  lemma {:induction false} SplitUnlines(lines: seq<Text>, last: Text)
    requires NewlineFree(lines) && NEWLINE !in last
    ensures Split(Unlines(lines) + last) == (lines, last)
  {
    if lines == [] {
      assert Unlines(lines) + last == last;
      LineLengthIs(last, |last|);
    } else {
      var rest := Unlines(lines[1..]) + last;
      SplitUnlines(lines[1..], last);
      JoinStep(lines[0], lines[1..], last, rest);
      assert [lines[0]] + lines[1..] == lines;
      SplitStep(lines[0], rest);
    }
  }

  lemma SplitStep(line: Text, rest: Text)
    requires NEWLINE !in line
    ensures Split(line + [NEWLINE] + rest) == ([line] + Split(rest).0, Split(rest).1)
  {
    var s := line + [NEWLINE] + rest;
    assert s[..|line|] == line && s[|line| + 1..] == rest;
    LineLengthIs(s, |line|);
  }

  lemma {:induction false} LineLengthIs(s: Text, n: nat)
    requires n <= |s| && NEWLINE !in s[..n]
    requires n < |s| ==> s[n] == NEWLINE
    ensures LineLength(s) == n
  {
    if n > 0 {
      assert s[..n] == [s[0]] + s[1..][..n - 1];
      LineLengthIs(s[1..], n - 1);
    }
  }

  lemma {:induction false} NoLineEndBefore(s: Text, m: nat)
    requires m <= |s| && NEWLINE !in s[..m]
    ensures m <= LineLength(s)
  {
    if m > 0 {
      assert s[..m] == [s[0]] + s[1..][..m - 1];
      NoLineEndBefore(s[1..], m - 1);
    }
  }

  ghost predicate AllShort(lines: seq<Text>, blockLen: nat) {
    forall i :: 0 <= i < |lines| ==> |lines[i]| < blockLen
  }

  /** Event number `i` of reading a file with these lines and this unterminated end. */
  ghost function Expected(lines: seq<Text>, last: Text, blockLen: nat, tail: Byte, i: nat): Event {
    if i < |lines| then
      if AllShort(lines[..i + 1], blockLen) then Line(StripCr(lines[i])) else LineTooLong
    else if !AllShort(lines, blockLen) || |last| >= blockLen then LineTooLong
    else if last == [] then EndOfInput
    else if i == |lines| then Line(StripCr(last))
    else if tail == NEWLINE then AssertionFailed
    else EndOfInput
  }

  /** Main result: for every file, every block length and any number of calls, reading yields the
      lines of the file in order until one is too long, and then the unterminated end, if any; after
      that the end is reported for ever, unless an unterminated end is followed by a newline that
      does not belong to the file. */
  lemma {:induction false} ReadingIsSplitting(s: Text, blockLen: nat, tail: Byte, k: nat, i: nat)
    requires 0 < blockLen && i < k
    ensures Events(Unread(s), blockLen, tail, k)[i] == Expected(Split(s).0, Split(s).1, blockLen, tail, i)
    decreases k, 1
  {
    var n := LineLength(s);
    if s == [] || n >= blockLen {
      StuckAtTheStart(s, blockLen, tail, k, i);
    } else if n < |s| {
      var line, rest := s[..n], s[n + 1..];
      CutAt(s, n, line, rest);
      LineAndReading(s, line, rest, blockLen, tail, k, i);
    } else {
      UnterminatedEnd(s, blockLen, tail, k, i);
    }
  }

  lemma {:induction false} LineAndReading(s: Text, line: Text, rest: Text, blockLen: nat, tail: Byte, k: nat, i: nat)
    requires i < k && NEWLINE !in line && |line| < blockLen && s == line + [NEWLINE] + rest
    ensures Events(Unread(s), blockLen, tail, k)[i] == Expected(Split(s).0, Split(s).1, blockLen, tail, i)
    decreases k, 0
  {
    if i > 0 {
      ReadingIsSplitting(rest, blockLen, tail, k - 1, i - 1);
    }
    LineThenRest(s, line, rest, blockLen, tail, k, i);
  }

  lemma StuckAtTheStart(s: Text, blockLen: nat, tail: Byte, k: nat, i: nat)
    requires 0 < blockLen && i < k && (s == [] || LineLength(s) >= blockLen)
    ensures Events(Unread(s), blockLen, tail, k)[i] == Expected(Split(s).0, Split(s).1, blockLen, tail, i)
  {
    Repeats(Unread(s), blockLen, tail, k, i);
    TooLongFromTheStart(s, blockLen, tail, i);
  }

  lemma LineThenRest(s: Text, line: Text, rest: Text, blockLen: nat, tail: Byte, k: nat, i: nat)
    requires i < k && NEWLINE !in line && |line| < blockLen && s == line + [NEWLINE] + rest
    requires i > 0 ==>
      Events(Unread(rest), blockLen, tail, k - 1)[i - 1]
        == Expected(Split(rest).0, Split(rest).1, blockLen, tail, i - 1)
    ensures Events(Unread(s), blockLen, tail, k)[i] == Expected(Split(s).0, Split(s).1, blockLen, tail, i)
  {
    NextOfLine(line, rest, blockLen, tail);
    SplitStep(line, rest);
    ExpectedShifts(line, Split(rest).0, Split(rest).1, blockLen, tail, i);
  }

  lemma NextOfLine(line: Text, rest: Text, blockLen: nat, tail: Byte)
    requires NEWLINE !in line && |line| < blockLen
    ensures Next(Unread(line + [NEWLINE] + rest), blockLen, tail) == (Line(StripCr(line)), Unread(rest))
  {
    var s := line + [NEWLINE] + rest;
    assert s[..|line|] == line && s[|line| + 1..] == rest;
    LineLengthIs(s, |line|);
  }

  lemma UnterminatedEnd(s: Text, blockLen: nat, tail: Byte, k: nat, i: nat)
    requires i < k && s != [] && LineLength(s) == |s| < blockLen
    ensures Events(Unread(s), blockLen, tail, k)[i] == Expected(Split(s).0, Split(s).1, blockLen, tail, i)
  {
    assert s[..|s|] == s;
    if i > 0 {
      Repeats(AfterLine(s, |s|, tail), blockLen, tail, k - 1, i - 1);
    }
  }

  /** A call that leaves the cursor alone is repeated for ever. */
  lemma {:induction false} Repeats(c: Cursor, blockLen: nat, tail: Byte, k: nat, i: nat)
    requires i < k
    requires Next(c, blockLen, tail).1 == c
    ensures Events(c, blockLen, tail, k)[i] == Next(c, blockLen, tail).0
    decreases k
  {
    if i > 0 {
      Repeats(c, blockLen, tail, k - 1, i - 1);
    }
  }

  lemma TooLongFromTheStart(s: Text, blockLen: nat, tail: Byte, i: nat)
    requires 0 < blockLen && (s == [] || LineLength(s) >= blockLen)
    ensures Expected(Split(s).0, Split(s).1, blockLen, tail, i) == if s == [] then EndOfInput else LineTooLong
  {
    var lines := Split(s).0;
    if lines != [] {
      assert |lines[0]| >= blockLen;
      if i < |lines| {
        assert lines[..i + 1][0] == lines[0];
      }
    }
  }

  /** A short first line delays what is expected of the rest by one. */
  lemma ExpectedShifts(line: Text, lines: seq<Text>, last: Text, blockLen: nat, tail: Byte, i: nat)
    requires |line| < blockLen
    ensures Expected([line] + lines, last, blockLen, tail, i)
      == if i == 0 then Line(StripCr(line)) else Expected(lines, last, blockLen, tail, i - 1)
  {
    var all := [line] + lines;
    assert AllShort(all, blockLen) <==> AllShort(lines, blockLen) by {
      assert forall j :: 0 <= j < |lines| ==> all[j + 1] == lines[j];
      assert forall j :: 0 < j < |all| ==> all[j] == lines[j - 1];
    }
    if 0 < i < |all| {
      var (x, y) := (all[..i + 1], lines[..i]);
      assert forall j :: 0 <= j < |y| ==> x[j + 1] == y[j];
      assert forall j :: 0 < j < |x| ==> x[j] == y[j - 1];
    }
  }

  /** A file whose lines all end in a newline is read to its end, whatever follows it in memory. */
  lemma TerminatedFileIsRead(lines: seq<Text>, blockLen: nat, tail: Byte, k: nat, i: nat)
    requires 0 < blockLen && i < k
    requires NewlineFree(lines) && AllShort(lines, blockLen)
    ensures Events(Unread(Unlines(lines)), blockLen, tail, k)[i]
      == if i < |lines| then Line(StripCr(lines[i])) else EndOfInput
  {
    assert Unlines(lines) + [] == Unlines(lines);
    SplitUnlines(lines, []);
    ReadingIsSplitting(Unlines(lines), blockLen, tail, k, i);
  }

  /** A file with an unterminated end is read to its end if and only if the byte after it is not a
      newline. */
  lemma UnterminatedFileIsRead(lines: seq<Text>, last: Text, blockLen: nat, tail: Byte, k: nat)
    requires NewlineFree(lines) && AllShort(lines, blockLen)
    requires NEWLINE !in last && 0 < |last| < blockLen && |lines| + 1 < k
    ensures var es := Events(Unread(Unlines(lines) + last), blockLen, tail, k);
      && es[|lines|] == Line(StripCr(last))
      && (es[|lines| + 1] == EndOfInput <==> tail != NEWLINE)
      && (es[|lines| + 1] == AssertionFailed <==> tail == NEWLINE)
  {
    SplitUnlines(lines, last);
    ReadingIsSplitting(Unlines(lines) + last, blockLen, tail, k, |lines|);
    ReadingIsSplitting(Unlines(lines) + last, blockLen, tail, k, |lines| + 1);
  }
  // ----- line endings -----

  /** The one carriage return that is dropped is the last byte of the line, and no other byte is. */
  lemma StripCrIff(s: Text, t: Text)
    ensures StripCr(s) == t <==> s == t + [13] || (s == t && (s == [] || s[|s| - 1] != 13))
  {
    if s != [] {
      assert s == s[..|s| - 1] + [s[|s| - 1]];
    }
  }

  /** A line as a writer puts it: its text, and whether a carriage return stands before the newline. */
  datatype Written = Written(text: Text, crlf: bool) {
    /** What stands before the newline. */
    function Front(): Text {
      text + if crlf then [13] else []
    }

    /** The line ends where the writer meant it to, and fits in a block. */
    predicate Clear(blockLen: nat) {
      10 !in text && |Front()| < blockLen && (!crlf && text != [] ==> text[|text| - 1] != 13)
    }
  }

  /** A file of such lines; the newline behind the last one may be left out. */
  function WrittenLines(ls: seq<Written>, open: bool): Text {
    if ls == [] then []
    else if |ls| == 1 && open then ls[0].Front()
    else ls[0].Front() + [10] + WrittenLines(ls[1..], open)
  }

  ghost predicate ClearLines(ls: seq<Written>, open: bool, blockLen: nat) {
    && (forall j :: 0 <= j < |ls| ==> ls[j].Clear(blockLen))
    && (open && ls != [] ==> ls[|ls| - 1].Front() != [])
  }

  /** The cursor before the lines that are left: behind a last line without a newline the end of the data
      has been passed if a newline stands there in memory. */
  function AtLine(ls: seq<Written>, open: bool, tail: Byte): Cursor {
    if ls == [] && open && tail == 10 then Overrun else Unread(WrittenLines(ls, open))
  }

  /** Such a line is handed out without its line ending, and nothing else of it is lost. */
  lemma WrittenLineIsRead(ls: seq<Written>, open: bool, blockLen: nat, tail: Byte)
    requires ls != [] && ClearLines(ls, open, blockLen)
    ensures Next(AtLine(ls, open, tail), blockLen, tail) == (Line(ls[0].text), AtLine(ls[1..], open, tail))
  {
    var line := ls[0].Front();
    StripCrIff(line, ls[0].text);
    if |ls| == 1 && open {
      LineLengthIs(line, |line|);
      assert line[..|line|] == line && ls[1..] == [];
    } else {
      NextOfLine(line, WrittenLines(ls[1..], open), blockLen, tail);
    }
  }

  lemma ClearRest(ls: seq<Written>, open: bool, blockLen: nat)
    requires ls != [] && ClearLines(ls, open, blockLen)
    ensures ClearLines(ls[1..], open, blockLen)
  {
  }

  /** Main result: a file of lines each of which ends in a newline, or in a carriage return and a newline, is
      read to the texts of its lines. Then comes its end, for ever, unless the newline behind the last line
      is left out and stands in memory all the same. */
  lemma {:induction false} WrittenLinesAreRead(ls: seq<Written>, open: bool, blockLen: nat, tail: Byte, k: nat, i: nat)
    requires i < k && ClearLines(ls, open, blockLen)
    ensures Events(AtLine(ls, open, tail), blockLen, tail, k)[i] ==
      if i < |ls| then Line(ls[i].text) else if open && tail == 10 then AssertionFailed else EndOfInput
    decreases k
  {
    if ls == [] {
      Repeats(AtLine(ls, open, tail), blockLen, tail, k, i);
    } else {
      WrittenLineIsRead(ls, open, blockLen, tail);
      ClearRest(ls, open, blockLen);
      if i > 0 {
        WrittenLinesAreRead(ls[1..], open, blockLen, tail, k - 1, i - 1);
      }
    }
  }

  /** A line that does not fit in a block with its newline is refused, and stays where it is. */
  lemma LongLineIsRefused(line: Text, rest: Text, blockLen: nat, tail: Byte)
    requires 10 !in line && line != [] && blockLen <= |line|
    ensures Next(Unread(line + rest), blockLen, tail) == (LineTooLong, Unread(line + rest))
  {
    assert (line + rest)[..|line|] == line;
    NoLineEndBefore(line + rest, |line|);
  }

  lemma MarkIsSkipped(s: Text)
    ensures SkipBom([239, 187, 191] + s) == s
    ensures !([239, 187, 191] <= s) ==> SkipBom(s) == s
  {
    assert ([239, 187, 191] + s)[3..] == s;
  }

  /** A byte order mark at the start of a file lies within its first line. */
  lemma MarkIsInFront(ls: seq<Written>, open: bool)
    requires ls != []
    ensures [239, 187, 191] <= WrittenLines(ls, open) <==> [239, 187, 191] <= ls[0].text
  {
    var (s, t) := (WrittenLines(ls, open), ls[0].text);
    assert t <= s && (|t| < |s| ==> s[|t|] == 10 || s[|t|] == 13);
    if [239, 187, 191] <= s {
      assert s[0] == 239 && s[1] == 187 && s[2] == 191;
    }
  }

  /** A file of such lines, with or without a byte order mark. */
  function MarkedFile(marked: bool, ls: seq<Written>, open: bool): Text {
    (if marked then [239, 187, 191] else []) + WrittenLines(ls, open)
  }

  /** The reading of it starts at its first line. */
  lemma MarkedFileStarts(marked: bool, ls: seq<Written>, open: bool, tail: Byte)
    requires ls != [] && (marked || !([239, 187, 191] <= ls[0].text))
    ensures Unread(SkipBom(MarkedFile(marked, ls, open))) == AtLine(ls, open, tail)
  {
    MarkIsSkipped(WrittenLines(ls, open));
    MarkIsInFront(ls, open);
    assert !marked ==> MarkedFile(marked, ls, open) == WrittenLines(ls, open);
  }
}
