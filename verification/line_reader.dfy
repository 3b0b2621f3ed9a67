/**
 The line reader: a buffer of three blocks that slides over the byte source, refilled through a
 reader object. Block three is the read-ahead target, which the worker of that reader may fill at any
 time before it is waited for; lines are cut in blocks one and two.
 */
module LineReaders {
  import opened Bytes
  import opened Lines
  import opened Windows

  /** A byte source whose reads are short only at the end of the data. */
  class StringByteSource {
    const data: Text
    var position: nat

    constructor (bytes: Text)
      ensures data == bytes && position == 0
    {
      data, position := bytes, 0;
    }

    ghost predicate Valid()
      reads this
    {
      position <= |data|
    }

    method Read(buffer: array<Byte>, at: nat, desired: nat) returns (count: nat)
      requires Valid() && at + desired <= buffer.Length
      modifies this, buffer
      ensures Valid() && position == old(position) + count && count <= desired
      ensures count == if |data| - old(position) < desired then |data| - old(position) else desired
      ensures buffer[..] == Stored(old(buffer[..]), at, data, old(position), count)
    {
      count := desired;
      if |data| - position < count {
        count := |data| - position;
      }
      forall i | at <= i < at + count {
        buffer[i] := data[position - at + i];
      }
      position := position + count;
    }
  }

  /** Reads ahead. The worker does the read that was started at some time of its own, and at the latest
      when it is waited for; in the synchronous build always then. It leaves its loop after a read of zero
      bytes. Ghost state records that starts and finishes must alternate. */
  class AsynchronousReader {
    var source: StringByteSource?
    var buffer: array?<Byte>
    var at: nat
    var desired: nat
    var readCount: Option<nat>
    var exited: bool
    ghost var outstanding: bool

    constructor ()
      ensures source == null && !outstanding && !exited && readCount == None
    {
      source, buffer, at, desired, readCount := null, null, 0, 0, None;
      exited, outstanding := false, false;
    }

    method Init(s: StringByteSource)
      modifies `source
      ensures source == s
    {
      source := s;
    }

    method StartRead(b: array<Byte>, start: nat, count: nat)
      requires !outstanding
      modifies `buffer, `at, `desired, `readCount, `outstanding
      ensures buffer == b && at == start && desired == count && readCount == None && outstanding
    {
      buffer, at, desired, readCount, outstanding := b, start, count, None, true;
    }

    /** A read has been started, and its target and its source are there. */
    ghost predicate Reading()
      reads this, source
    {
      && source != null && source.Valid() && buffer != null && at + desired <= buffer.Length
      && outstanding
    }

    /** How many bytes the source yields next. */
    ghost function Yield(): nat
      requires source != null && source.Valid()
      reads this, source
    {
      if |source.data| - source.position < desired then |source.data| - source.position else desired
    }

    /** What the worker does when it gets the lock and a read is wanted. */
    method WorkerReads()
      requires Reading() && readCount == None && !exited
      modifies `readCount, `exited, source, buffer
      ensures Reading() && readCount == Some(old(Yield())) && exited == (old(Yield()) == 0)
      ensures source.position == old(source.position) + old(Yield())
      ensures buffer[..] == Stored(old(buffer[..]), at, source.data, old(source.position), old(Yield()))
    {
      var count := source.Read(buffer, at, desired);
      readCount := Some(count);
      exited := count == 0;
    }

    /** Waits for the worker, if it has not done the read yet. */
    method FinishRead() returns (count: nat)
      requires Reading() && (readCount == None ==> !exited)
      modifies `readCount, `exited, `outstanding, source, buffer
      ensures !outstanding && readCount == Some(count) && source.Valid()
      ensures if old(readCount).Some? then
          count == old(readCount).value && exited == old(exited)
        else
          count == old(Yield()) && exited == (count == 0)
      ensures source.position == old(source.position) + if old(readCount).Some? then 0 else count
      ensures buffer[..] ==
        if old(readCount).Some? then old(buffer[..])
        else Stored(old(buffer[..]), at, source.data, old(source.position), count)
    {
      if readCount.None? {
        WorkerReads();
      }
      count := readCount.value;
      outstanding := false;
    }
  }

  class LineReader {
    const blockLen: nat
    const buffer: array<Byte>
    const reader: AsynchronousReader
    var dataBegin: nat
    var dataEnd: nat
    var fileLine: nat

    ghost const file: File
    ghost const Repr: set<object>
    ghost var window: Window

    /** What never changes after construction. */
    ghost predicate Shape()
      reads this, reader
    {
      && file.Valid() && file.blockLen == blockLen && buffer.Length == 3 * blockLen
      && this in Repr && buffer in Repr && reader in Repr
      && (reader.source != null ==> reader.source in Repr)
    }

    ghost predicate Valid()
      reads this, Repr
    {
      && this in Repr && reader in Repr
      && Shape() && Matches() && Awaiting()
      && Fits(file, window) && CursorOf(file, window).Some?
    }

    /** Where the reading has come to in the file. */
    ghost function Position(): Cursor
      requires file.Valid() && CursorOf(file, window).Some?
      reads this
    {
      CursorOf(file, window).value
    }

    /** The worker has done the read that is awaited. */
    predicate Landed()
      reads this, reader
    {
      reader.source != null && reader.readCount.Some?
    }

    /** The fields agree with the window. */
    ghost predicate Matches()
      reads this, buffer, reader
    {
      && dataBegin == window.begin && dataEnd == window.end && (reader.source != null <==> window.fed)
      && (reader.exited <==> window.ended || (Landed() && reader.readCount == Some(0)))
      && Shows(file, window, Landed(), buffer[..])
    }

    /** A reader that is in use has a read under way into block three. */
    ghost predicate Awaiting()
      reads this, reader, reader.source
    {
      reader.source != null ==>
        && reader.source.Valid() && reader.source.data == file.input
        && reader.outstanding && reader.buffer == buffer
        && reader.at == 2 * blockLen && reader.desired == blockLen
        && (window.begin < window.end ==>
              ReadTo(file, window.base + window.end, reader.readCount, reader.source.position))
    }

    constructor (source: StringByteSource, blockLength: nat)
      requires 2 <= blockLength && source.position == 0
      modifies source
      ensures Valid() && fresh(Repr - {source})
      ensures blockLen == blockLength && file.input == source.data && fileLine == 0
      ensures Position() == Unread(SkipBom(source.data))
    {
      blockLen := blockLength;
      var b := new Byte[3 * blockLength];
      buffer := b;
      reader := new AsynchronousReader();
      file := File(source.data, b[..], blockLength);
      Repr := {this, b, reader, source};
      new;
      Init(source);
      InitialRepresents(file);
    }

    /** Fills blocks one and two, skips a byte order mark, and starts the read-ahead if there may be
        more data. */
    method Init(source: StringByteSource)
      requires Shape() && source in Repr && file == File(source.data, buffer[..], blockLen)
      requires reader.source == null && !reader.outstanding && !reader.exited
      requires source.position == 0
      modifies this, buffer, reader, source
      ensures Shape() && Matches() && Awaiting() && window == Initial(file) && fileLine == 0
    {
      fileLine, dataBegin := 0, 0;
      dataEnd := source.Read(buffer, 0, 2 * blockLen);
      if dataEnd >= 3 && buffer[0] == BOM[0] && buffer[1] == BOM[1] && buffer[2] == BOM[2] {
        dataBegin := 3;
      }
      window := Initial(file);
      if dataEnd == 2 * blockLen {
        reader.Init(source);
        reader.StartRead(buffer, 2 * blockLen, blockLen);
      }
    }

    /** Copies the block at `from` over the block at `to`. */
    method CopyBlock(to: nat, from: nat)
      requires to + blockLen <= from && from + blockLen <= buffer.Length
      modifies buffer
      ensures buffer[..] == Copied(old(buffer[..]), to, from, blockLen)
    {
      forall i | to <= i < to + blockLen {
        buffer[i] := buffer[i - to + from];
      }
    }

    /** Here the worker may get the lock. */
    method LetWorkerRun()
      requires Shape() && Matches() && Awaiting()
      modifies buffer, reader`readCount, reader`exited, reader.source
      ensures Matches() && Awaiting()
    {
      if * {
        if reader.source != null && reader.readCount.None? && !reader.exited {
          ghost var before, pos := buffer[..], reader.source.position;
          reader.WorkerReads();
          ShowsLanded(file, window, before, pos, reader.readCount.value);
        }
      }
    }

    /** Slides the window down by one block and tops it up. */
    method Refill()
      requires Shape() && Matches() && Awaiting() && !window.ended
      requires blockLen <= dataBegin < dataEnd
      modifies `dataBegin, `dataEnd, `window, buffer, reader, reader.source
      ensures Shape() && Matches() && Awaiting() && reader.source == old(reader.source)
      ensures old(window.base + window.end) <= |file.input| && window == Refilled(file, old(window))
    {
      ShowsSlid(file, window, Landed(), buffer[..]);
      CopyBlock(0, blockLen);
      dataBegin := dataBegin - blockLen;
      dataEnd := dataEnd - blockLen;
      window := Slid(file, window);
      if reader.source != null {
        LetWorkerRun();
        TopUp();
      }
    }

    /** Waits for the awaited block. */
    method FinishRead() returns (count: nat)
      requires Shape() && Matches() && Awaiting() && reader.source != null
      requires !window.ended && window.begin < window.end
      modifies buffer, reader`readCount, reader`exited, reader`outstanding, reader.source
      ensures window.base + window.end <= |file.input| && count == Available(file, window.base + window.end)
      ensures reader.exited == (count == 0) && !reader.outstanding
      ensures reader.source.Valid() && reader.source.position == window.base + window.end + count
      ensures Shows(file, window, true, buffer[..])
    {
      ghost var before, pos, landed := buffer[..], reader.source.position, Landed();
      count := reader.FinishRead();
      if !landed {
        ShowsLanded(file, window, before, pos, count);
      }
    }

    /** Appends the awaited block to the window and asks for the next one. */
    method TopUp()
      requires Shape() && Matches() && Awaiting() && reader.source != null
      requires !window.ended && window.begin < window.end
      modifies `dataEnd, `window, buffer, reader, reader.source
      ensures Shape() && Matches() && Awaiting() && reader.source == old(reader.source)
      ensures old(window.base + window.end) <= |file.input| && window == ToppedUp(file, old(window))
    {
      var count := FinishRead();
      dataEnd := dataEnd + count;
      ShowsToppedUp(file, window, buffer[..]);
      CopyBlock(blockLen, 2 * blockLen);
      reader.StartRead(buffer, 2 * blockLen, blockLen);
      window := ToppedUp(file, window);
    }

    /** The scan for the end of the line. The worker may run at any time; the byte that the scan looks at
        behind the data may be one that it is just writing. */
    method FindLineEnd() returns (lineEnd: nat)
      requires Shape() && Matches() && Awaiting() && dataBegin < dataEnd <= 2 * blockLen
      modifies buffer, reader`readCount, reader`exited, reader.source
      ensures Matches() && Awaiting()
      ensures lineEnd == ScanEnd(window.buf, dataBegin, dataEnd)
    {
      lineEnd := dataBegin;
      while buffer[lineEnd] != NEWLINE && lineEnd != dataEnd
        invariant Matches() && Awaiting()
        invariant dataBegin <= lineEnd <= dataEnd
        invariant ScanEnd(window.buf, dataBegin, dataEnd) == ScanEnd(window.buf, lineEnd, dataEnd)
        decreases dataEnd - lineEnd
      {
        assert buffer[lineEnd] == buffer[..2 * blockLen][lineEnd];
        lineEnd := lineEnd + 1;
        LetWorkerRun();
      }
    }

    /** Writes the NUL behind the line that ends at `lineEnd`, and one over a carriage return before it. */
    method Terminate(lineEnd: nat)
      requires dataBegin <= lineEnd < buffer.Length
      modifies `dataEnd, buffer
      ensures buffer[..] == Terminated(old(buffer[..]), dataBegin, lineEnd)
      ensures dataEnd == if old(buffer[lineEnd]) == NEWLINE then old(dataEnd) else old(dataEnd) + 1
    {
      if buffer[lineEnd] == NEWLINE {
        buffer[lineEnd] := NUL;
      } else {
        dataEnd := dataEnd + 1;
        buffer[lineEnd] := NUL;
      }
      if lineEnd != dataBegin && buffer[lineEnd - 1] == CARRIAGE_RETURN {
        buffer[lineEnd - 1] := NUL;
      }
    }

    /** Terminates the line that ends at `lineEnd`, and moves on. */
    method CutLine(lineEnd: nat) returns (at: nat)
      requires Shape() && Matches() && Awaiting() && dataBegin < dataEnd <= 2 * blockLen
      requires lineEnd == ScanEnd(window.buf, dataBegin, dataEnd) && lineEnd + 1 < 2 * blockLen
      modifies `dataBegin, `dataEnd, `window, buffer
      ensures Matches() && Awaiting() && at == old(dataBegin) && window == Cut(old(window), lineEnd)
    {
      ShowsCut(file, window, Landed(), buffer[..], lineEnd);
      assert buffer[lineEnd] == buffer[..2 * blockLen][lineEnd] == window.buf[lineEnd];
      Terminate(lineEnd);
      at := dataBegin;
      dataBegin := lineEnd + 1;
      window := Cut(window, lineEnd);
    }

    /** Cuts the line that starts in block one. */
    method Scan() returns (outcome: Outcome)
      requires Shape() && Matches() && Awaiting()
      requires dataBegin < dataEnd <= 2 * blockLen && dataBegin < blockLen
      modifies `dataBegin, `dataEnd, `window, buffer, reader`readCount, reader`exited, reader.source
      ensures Matches() && Awaiting()
      ensures (outcome, window) == Scanned(file, old(window)) && !outcome.NoLine?
    {
      var lineEnd := FindLineEnd();
      if lineEnd - dataBegin + 1 > blockLen {
        return TooLong;
      }
      var at := CutLine(lineEnd);
      return Got(at);
    }

    /** The body of next_line, on the fields. */
    method Advance() returns (outcome: Outcome)
      requires Shape() && Matches() && Awaiting() && Fits(file, window)
      requires StaysBelow(file, window)
      modifies `dataBegin, `dataEnd, `fileLine, `window, buffer, reader, reader.source
      ensures Shape() && Matches() && Awaiting() && reader.source == old(reader.source)
      ensures (outcome, window) == Step(file, old(window))
      ensures fileLine == if outcome.NoLine? then old(fileLine) else old(fileLine) + 1
    {
      LetWorkerRun();
      if dataBegin == dataEnd {
        return NoLine;
      }
      fileLine := fileLine + 1;
      if !(dataBegin < dataEnd) {
        return Aborted;
      }
      if dataBegin >= blockLen {
        Refill();
      }
      outcome := Scan();
    }

    /** The next event of the file, and a pointer to its text. */
    method NextLine() returns (outcome: Outcome)
      requires Valid()
      modifies Repr
      ensures Valid() && reader.source == old(reader.source)
      ensures var (event, after) := Next(old(Position()), blockLen, file.Tail());
        && Position() == after
        && Reports(outcome, event, buffer[..])
        && (event.Line? ==> outcome.at + |event.text| < dataBegin)
        && fileLine == if event.EndOfInput? then old(fileLine) else old(fileLine) + 1
    {
      ghost var (w, c, next) := (window, Position(), Next(Position(), blockLen, file.Tail()));
      StepStaysBelow(file, w, c);
      outcome := Advance();
      StepGoesOn(file, w, c, window, next.1);
      StepShows(file, w, c, outcome, window, Landed(), buffer[..], next.0);
    }

    /** Bytes before the unread data may be rewritten by whoever holds a pointer to a line. */
    ghost method Rewritten(before: Text)
      requires this in Repr && reader in Repr && Shape() && Awaiting()
      requires Fits(file, window) && CursorOf(file, window).Some?
      requires dataBegin == window.begin && dataEnd == window.end && (reader.source != null <==> window.fed)
      requires reader.exited <==> window.ended || (Landed() && reader.readCount == Some(0))
      requires Shows(file, window, Landed(), before)
      requires |before| == buffer.Length && forall i :: dataBegin <= i < buffer.Length ==> buffer[i] == before[i]
      modifies `window
      ensures Valid() && Position() == old(Position())
    {
      ShowsRewritten(file, window, Landed(), before, buffer[..], Position());
      window := RewrittenTo(file, window, buffer[..]);
    }
  }
}
