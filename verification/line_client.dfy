/**
 Clients of the line reader: a number of calls, and the file that they show.
 */
module LineClients {
  import opened Bytes
  import opened Lines
  import opened Windows
  import opened LineReaders
  import opened Parsing

  /** An event as a client sees it: a line is a C string, which ends at its first NUL. */
  function Seen(e: Event): Event {
    if e.Line? then Line(UpToNul(e.text)) else e
  }

  /** Calls next_line, and copies the line out of the buffer. */
  method CallOnce(reader: LineReader) returns (e: Event)
    requires reader.Valid()
    modifies reader.Repr
    ensures reader.Valid()
    ensures var next := Next(old(reader.Position()), reader.blockLen, reader.file.Tail());
      e == Seen(next.0) && reader.Position() == next.1
  {
    ghost var event := Next(reader.Position(), reader.blockLen, reader.file.Tail()).0;
    var outcome := reader.NextLine();
    match outcome
    case NoLine => return EndOfInput;
    case TooLong => return LineTooLong;
    case Aborted => return AssertionFailed;
    case Got(at) =>
      HeldIsCString(reader.buffer[..], at, event.text);
      var text := ReadCString(reader.buffer, at, UpToNul(event.text));
      return Line(text);
  }

  function AllSeen(es: seq<Event>): (r: seq<Event>)
    ensures |r| == |es| && forall i :: 0 <= i < |es| ==> r[i] == Seen(es[i])
  {
    if es == [] then [] else AllSeen(es[..|es| - 1]) + [Seen(es[|es| - 1])]
  }

  /** One call more sees one event more. */
  lemma SeenGrow(start: Cursor, blockLen: nat, tail: Byte, i: nat, c: Cursor, next: (Event, Cursor))
    requires c == CursorAfter(start, blockLen, tail, i) && next == Next(c, blockLen, tail)
    ensures AllSeen(Events(start, blockLen, tail, i + 1))
      == AllSeen(Events(start, blockLen, tail, i)) + [Seen(next.0)]
    ensures CursorAfter(start, blockLen, tail, i + 1) == next.1
  {
    EventsGrow(start, blockLen, tail, i, next.0);
    CursorAfterNext(start, blockLen, tail, i);
    var es := Events(start, blockLen, tail, i);
    assert (es + [next.0])[..|es|] == es;
  }

  /** Calls next_line `k` times. */
  method CallNextLine(reader: LineReader, k: nat) returns (es: seq<Event>)
    requires reader.Valid()
    modifies reader.Repr
    ensures reader.Valid()
    ensures es == AllSeen(Events(old(reader.Position()), reader.blockLen, reader.file.Tail(), k))
  {
    ghost var (start, blockLen, tail) := (reader.Position(), reader.blockLen, reader.file.Tail());
    ghost var c := start;
    es := [];
    for i := 0 to k
      invariant reader.Valid() && reader.Position() == c
      invariant c == CursorAfter(start, blockLen, tail, i)
      invariant es == AllSeen(Events(start, blockLen, tail, i))
    {
      ghost var next := Next(c, blockLen, tail);
      SeenGrow(start, blockLen, tail, i, c, next);
      var e := CallOnce(reader);
      es := es + [e];
      c := next.1;
    }
  }

  /** What `k` calls show of a file: the lines of its split and what follows them. */
  ghost function FileSeen(data: Text, blockLen: nat, tail: Byte, k: nat): (r: seq<Event>)
    ensures |r| == k
  {
    var (lines, last) := Split(SkipBom(data));
    seq(k, i requires 0 <= i < k => Seen(Expected(lines, last, blockLen, tail, i)))
  }

  lemma FileIsSeen(data: Text, blockLen: nat, tail: Byte, k: nat)
    requires 0 < blockLen
    ensures AllSeen(Events(Unread(SkipBom(data)), blockLen, tail, k)) == FileSeen(data, blockLen, tail, k)
  {
    var (lines, last) := Split(SkipBom(data));
    forall i | 0 <= i < k
      ensures Events(Unread(SkipBom(data)), blockLen, tail, k)[i] == Expected(lines, last, blockLen, tail, i)
    {
      ReadingIsSplitting(SkipBom(data), blockLen, tail, k, i);
    }
  }

  /** A file of at least three blocks that does not end in a newline is read to its end if and only if the
      byte one block before its end is not a newline. */
  lemma LongFileIsSeen(data: Text, lines: seq<Text>, last: Text, blockLen: nat, tail: Byte, k: nat)
    requires SkipBom(data) == Unlines(lines) + last && NewlineFree(lines) && AllShort(lines, blockLen)
    requires NEWLINE !in last && 0 < |last| < blockLen && |lines| + 1 < k
    requires 3 * blockLen <= |data| && tail == data[|data| - blockLen]
    ensures var es := FileSeen(data, blockLen, tail, k);
      && es[|lines|] == Line(UpToNul(StripCr(last)))
      && es[|lines| + 1] == if data[|data| - blockLen] == NEWLINE then AssertionFailed else EndOfInput
  {
    SplitUnlines(lines, last);
  }

  /** Opens a file. */
  method OpenLines(source: StringByteSource, blockLen: nat) returns (reader: LineReader, ghost tail: Byte)
    requires 2 <= blockLen && source.position == 0
    modifies source
    ensures reader.Valid() && fresh(reader.Repr - {source})
    ensures reader.Position() == Unread(SkipBom(source.data))
    ensures reader.blockLen == blockLen && reader.file.Tail() == tail
    ensures TailFits(source.data, blockLen, tail)
  {
    reader := new LineReader(source, blockLen);
    tail := TailOf(reader.file, source.data, blockLen);
  }

  /** Main result: opening a file and calling next_line any number of times gives, through the buffer
      and whatever the worker does meanwhile, the lines of the file and what follows them. The byte after
      the data is memory that nothing is known of, or a byte of the block before the last. */
  method ReadLines(source: StringByteSource, blockLen: nat, k: nat) returns (es: seq<Event>, ghost tail: Byte)
    requires 2 <= blockLen && source.position == 0
    modifies source
    ensures es == FileSeen(source.data, blockLen, tail, k)
    ensures TailFits(source.data, blockLen, tail)
  {
    var reader;
    reader, tail := OpenLines(source, blockLen);
    FileIsSeen(source.data, blockLen, tail, k);
    es := CallNextLine(reader, k);
  }

  // ----- files that were written line by line -----

  /** A line is seen up to its first NUL. */
  lemma SeenUpToNul(text: Text, rest: Text)
    requires 0 !in text
    ensures Seen(Line(text)) == Line(text) && Seen(Line(text + [0] + rest)) == Line(text)
  {
    UpToNulWhole(text);
    var s := text + [0] + rest;
    assert s[..|text|] == text && s[|text|] == 0;
    UpToNulIs(s, |text|);
  }

  /** The texts of the lines, and then the end of the file for ever, unless the last newline is left out and a
      newline stands behind the data. */
  ghost predicate AreLines(es: seq<Event>, ls: seq<Written>, open: bool, tail: Byte) {
    forall i :: 0 <= i < |es| ==>
      es[i] == (if i < |ls| then Line(ls[i].text) else if open && tail == 10 then AssertionFailed else EndOfInput)
  }

  lemma WrittenLinesAreSeen(marked: bool, ls: seq<Written>, open: bool, blockLen: nat, tail: Byte, k: nat)
    requires 0 < blockLen && ls != [] && ClearLines(ls, open, blockLen)
    requires forall j :: 0 <= j < |ls| ==> 0 !in ls[j].text
    requires marked || !([239, 187, 191] <= ls[0].text)
    ensures AreLines(FileSeen(MarkedFile(marked, ls, open), blockLen, tail, k), ls, open, tail)
  {
    var file := MarkedFile(marked, ls, open);
    MarkedFileStarts(marked, ls, open, tail);
    FileIsSeen(file, blockLen, tail, k);
    forall i | 0 <= i < k
      ensures FileSeen(file, blockLen, tail, k)[i] ==
        if i < |ls| then Line(ls[i].text) else if open && tail == 10 then AssertionFailed else EndOfInput
    {
      WrittenLinesAreRead(ls, open, blockLen, tail, k, i);
      if i < |ls| {
        SeenUpToNul(ls[i].text, []);
      }
    }
  }

  /** Main result: lines that are written with either line ending, mixed in any way, come back through the
      buffer as they were. */
  method WriteThenReadLines(marked: bool, ls: seq<Written>, open: bool, blockLen: nat, k: nat)
    returns (es: seq<Event>, ghost tail: Byte)
    requires 2 <= blockLen && ls != [] && ClearLines(ls, open, blockLen)
    requires forall j :: 0 <= j < |ls| ==> 0 !in ls[j].text
    requires marked || !([239, 187, 191] <= ls[0].text)
    ensures |es| == k && AreLines(es, ls, open, tail)
    ensures TailFits(MarkedFile(marked, ls, open), blockLen, tail)
  {
    var source := new StringByteSource(MarkedFile(marked, ls, open));
    es, tail := ReadLines(source, blockLen, k);
    WrittenLinesAreSeen(marked, ls, open, blockLen, tail, k);
  }
}
