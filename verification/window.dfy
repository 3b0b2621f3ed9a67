/**
 The three-block window over a file, on plain sequences: what the buffer of the line reader holds
 between calls, and why sliding and topping up keep it so.
 */
module Windows {
  import opened Bytes
  import opened Lines

  /** What a line reader works on: the bytes of its source, what its fresh buffer happened to hold,
      and the length of a block. */
  datatype File = File(input: Text, memory: Text, blockLen: nat) {
    ghost predicate Valid() {
      2 <= blockLen && |memory| == 3 * blockLen
    }

    /** The byte that a scan finds just past the end of an unterminated file: memory that was never
        written, or a byte of the block that was read before the last one. */
    ghost function Tail(): Byte
      requires Valid()
    {
      if |input| < 3 * blockLen then memory[|input|] else input[|input| - blockLen]
    }
  }

  /** What is known of that byte from the file alone: if that has three blocks, it is the one a block before
      its end. */
  predicate TailFits(data: Text, blockLen: nat, tail: Byte) {
    0 < blockLen && 3 * blockLen <= |data| ==> tail == data[|data| - blockLen]
  }

  lemma TailOf(f: File, data: Text, blockLen: nat) returns (tail: Byte)
    requires f.Valid() && f.input == data && f.blockLen == blockLen
    ensures tail == f.Tail() && TailFits(data, blockLen, tail)
  {
    tail := f.Tail();
  }

  /** The buffer, where in the file it starts, the unread part of it, whether a reader fills block
      three, and whether that reader has seen a read of zero bytes. */
  datatype Window = Window(buf: Text, base: nat, begin: nat, end: nat, fed: bool, ended: bool)

  ghost predicate Loaded(f: File, w: Window)
    requires f.Valid()
  {
    && |w.buf| == 3 * f.blockLen
    && w.begin < w.end <= 2 * f.blockLen
    && w.base + w.end <= |f.input|
    && (w.base == 0 || f.blockLen <= w.base)
    && (forall i :: w.begin <= i < w.end ==> w.buf[i] == f.input[w.base + i])
    && (w.end < 2 * f.blockLen ==> w.base + w.end == |f.input| && w.buf[w.end] == f.Tail())
    && (w.end == 2 * f.blockLen ==> w.fed && ReadAhead(f, w.buf, w.base))
    && (w.ended ==> w.end <= f.blockLen)
  }

  /** Block three still holds what it held before the block now awaited. */
  ghost predicate ReadAhead(f: File, buf: Text, base: nat)
    requires f.Valid() && |buf| == 3 * f.blockLen
    requires base + 2 * f.blockLen <= |f.input|
  {
    forall i :: 2 * f.blockLen <= i < 3 * f.blockLen ==>
      buf[i] == if base < f.blockLen then f.memory[i] else f.input[base + i - f.blockLen]
  }

  /** memcpy within the buffer. */
  function Copied(buf: Text, to: nat, from: nat, n: nat): (r: Text)
    requires to + n <= from && from + n <= |buf|
    ensures |r| == |buf|
  {
    seq(|buf|, i requires 0 <= i < |buf| => if to <= i < to + n then buf[i - to + from] else buf[i])
  }

  /** `n` bytes of `data` from `pos`, written to the buffer at `at`. */
  function Stored(buf: Text, at: nat, data: Text, pos: nat, n: nat): (r: Text)
    requires at + n <= |buf| && pos + n <= |data|
    ensures |r| == |buf|
  {
    seq(|buf|, i requires 0 <= i < |buf| => if at <= i < at + n then data[pos - at + i] else buf[i])
  }

  /** How many bytes the source yields when one block is asked for at `pos`. */
  function Available(f: File, pos: nat): nat
    requires pos <= |f.input|
  {
    if |f.input| - pos < f.blockLen then |f.input| - pos else f.blockLen
  }

  /** Block two moves down to block one. */
  function Slid(f: File, w: Window): Window
    requires |w.buf| == 3 * f.blockLen && f.blockLen <= w.begin < w.end
  {
    var n := f.blockLen;
    w.(buf := Copied(w.buf, 0, n, n), base := w.base + n, begin := w.begin - n, end := w.end - n)
  }

  /** The awaited block arrives in block three and is appended from there. */
  function ToppedUp(f: File, w: Window): Window
    requires |w.buf| == 3 * f.blockLen && w.base + w.end <= |f.input|
  {
    var n := f.blockLen;
    var count := Available(f, w.base + w.end);
    var read := Stored(w.buf, 2 * n, f.input, w.base + w.end, count);
    w.(buf := Copied(read, n, 2 * n, n), end := w.end + count, ended := count == 0)
  }

  /** The window after the refill that next_line makes when the unread part starts in block two. */
  function Refilled(f: File, w: Window): Window
    requires |w.buf| == 3 * f.blockLen
    requires f.blockLen <= w.begin < w.end && w.base + w.end <= |f.input|
  {
    if w.fed then ToppedUp(f, Slid(f, w)) else Slid(f, w)
  }

  /** A window slid down by one block, byte by byte. */
  ghost predicate IsSlid(f: File, w: Window, r: Window)
    requires f.Valid() && |w.buf| == 3 * f.blockLen
  {
    && |r.buf| == 3 * f.blockLen && r.base == w.base + f.blockLen
    && w.begin == r.begin + f.blockLen && w.end == r.end + f.blockLen && r.fed == w.fed && r.ended == w.ended
    && (forall i :: 0 <= i < f.blockLen ==> r.buf[i] == w.buf[i + f.blockLen])
    && (forall i :: f.blockLen <= i < 3 * f.blockLen ==> r.buf[i] == w.buf[i])
  }

  /** A window topped up, byte by byte: the awaited block in block three and its copy in block two, both
      with what it is too short for left as block three was. */
  ghost predicate IsToppedUp(f: File, w: Window, r: Window)
    requires f.Valid() && |w.buf| == 3 * f.blockLen && w.base + w.end <= |f.input|
  {
    var (n, pos) := (f.blockLen, w.base + w.end);
    var count := Available(f, pos);
    && |r.buf| == 3 * n && r.base == w.base && r.begin == w.begin && r.end == w.end + count
    && r.fed == w.fed && r.ended == (count == 0)
    && (forall i :: 0 <= i < n ==> r.buf[i] == w.buf[i])
    && (forall i :: n <= i < 2 * n ==> r.buf[i] == if i < n + count then f.input[pos - n + i] else w.buf[i + n])
    && (forall i :: 2 * n <= i < 3 * n ==>
          r.buf[i] == if i < 2 * n + count then f.input[pos - 2 * n + i] else w.buf[i])
  }

  lemma SlidBytes(f: File, w: Window)
    requires f.Valid() && |w.buf| == 3 * f.blockLen && f.blockLen <= w.begin < w.end
    ensures IsSlid(f, w, Slid(f, w))
  {
  }

  lemma ToppedUpBytes(f: File, w: Window)
    requires f.Valid() && |w.buf| == 3 * f.blockLen && w.base + w.end <= |f.input|
    ensures IsToppedUp(f, w, ToppedUp(f, w))
  {
  }

  /** Sliding alone: all data was in the buffer. */
  lemma SlideKeeps(f: File, w: Window, r: Window)
    requires f.Valid() && Loaded(f, w) && f.blockLen <= w.begin && !w.fed
    requires IsSlid(f, w, r)
    ensures Loaded(f, r)
  {
  }

  /** The bytes of the awaited block land right after those already in the window. */
  lemma RefillAppends(f: File, w: Window, s: Window, r: Window)
    requires f.Valid() && Loaded(f, w) && f.blockLen <= w.begin
    requires IsSlid(f, w, s) && IsToppedUp(f, s, r)
    ensures forall i :: r.begin <= i < r.end ==> r.buf[i] == f.input[r.base + i]
  {
  }

  /** The byte after the data is in the buffer before the end of the data is. */
  lemma ByteAfterData(f: File, w: Window)
    requires f.Valid() && Loaded(f, w) && |f.input| < w.base + 3 * f.blockLen
    ensures w.buf[|f.input| - w.base] == f.Tail()
  {
  }

  /** A block that is not full ends the data. */
  lemma RefillEnds(f: File, w: Window, s: Window, r: Window)
    requires f.Valid() && Loaded(f, w) && f.blockLen <= w.begin
    requires IsSlid(f, w, s) && IsToppedUp(f, s, r) && r.end < 2 * f.blockLen
    ensures r.base + r.end == |f.input|
    ensures r.end < f.blockLen || f.blockLen + Available(f, s.base + s.end) <= r.end
  {
  }

  /** Where the awaited block has put nothing, the buffer has moved down by one block. */
  lemma RefillLeaves(f: File, w: Window, s: Window, r: Window, i: nat)
    requires f.Valid() && |w.buf| == 3 * f.blockLen && s.base + s.end <= |f.input|
    requires IsSlid(f, w, s) && IsToppedUp(f, s, r)
    requires i < f.blockLen || f.blockLen + Available(f, s.base + s.end) <= i < 2 * f.blockLen
    ensures r.buf[i] == w.buf[i + f.blockLen]
  {
  }

  /** A full block may be followed by another. */
  lemma RefillReadsAhead(f: File, w: Window, s: Window, r: Window)
    requires f.Valid() && Loaded(f, w) && f.blockLen <= w.begin
    requires IsSlid(f, w, s) && IsToppedUp(f, s, r) && r.end == 2 * f.blockLen
    ensures r.base + r.end <= |f.input| && ReadAhead(f, r.buf, r.base)
  {
  }

  /** And a stale byte follows it. */
  lemma StaleByteFollows(f: File, w: Window, s: Window, r: Window)
    requires f.Valid() && Loaded(f, w) && f.blockLen <= w.begin
    requires IsSlid(f, w, s) && IsToppedUp(f, s, r) && r.end < 2 * f.blockLen
    ensures r.base + r.end == |f.input| && r.buf[r.end] == f.Tail()
  {
    RefillEnds(f, w, s, r);
    RefillLeaves(f, w, s, r, r.end);
    ByteAfterData(f, w);
  }

  lemma RefilledKeeps(f: File, w: Window, s: Window, r: Window)
    requires f.Valid() && Loaded(f, w) && f.blockLen <= w.begin && w.fed
    requires IsSlid(f, w, s) && IsToppedUp(f, s, r)
    ensures Loaded(f, r)
  {
    RefillAppends(f, w, s, r);
    if r.end < 2 * f.blockLen {
      StaleByteFollows(f, w, s, r);
    } else {
      RefillReadsAhead(f, w, s, r);
    }
  }

  lemma RefillKeeps(f: File, w: Window)
    requires f.Valid() && Loaded(f, w) && f.blockLen <= w.begin
    ensures !w.ended
    ensures Loaded(f, Refilled(f, w))
  {
    var s := Slid(f, w);
    SlidBytes(f, w);
    if w.fed {
      ToppedUpBytes(f, s);
      RefilledKeeps(f, w, s, ToppedUp(f, s));
    } else {
      SlideKeeps(f, w, s);
    }
  }

  /** The unread data that the window is the front of. */
  function Rest(f: File, w: Window): Text
    requires w.base + w.begin <= |f.input|
  {
    f.input[w.base + w.begin..]
  }

  /** Where the scan for the end of a line stops: at a newline or at the end of the data. */
  function ScanEnd(buf: Text, begin: nat, end: nat): (e: nat)
    requires begin <= end < |buf|
    ensures begin <= e <= end
    ensures e < end ==> buf[e] == NEWLINE
    ensures forall i :: begin <= i < e ==> buf[i] != NEWLINE
    decreases end - begin
  {
    if begin == end || buf[begin] == NEWLINE then begin else ScanEnd(buf, begin + 1, end)
  }

  /** The buffer after the line from `begin` to `e` has been terminated in place. */
  function Terminated(buf: Text, begin: nat, e: nat): (r: Text)
    requires begin <= e < |buf|
    ensures |r| == |buf|
  {
    var cut := buf[e := NUL];
    if e != begin && cut[e - 1] == CARRIAGE_RETURN then cut[e - 1 := NUL] else cut
  }

  /** The window after the line that ends at `e` has been handed out. */
  function Cut(w: Window, e: nat): Window
    requires w.begin <= e < |w.buf|
  {
    w.(buf := Terminated(w.buf, w.begin, e), begin := e + 1,
       end := if w.buf[e] == NEWLINE then w.end else w.end + 1)
  }

  /** The buffer from `at` holds the bytes of `text` and then a NUL. */
  ghost predicate Holds(buf: Text, at: nat, text: Text) {
    at + |text| < |buf| && buf[at..at + |text|] == text && buf[at + |text|] == NUL
  }

  /** The scan of the front of `rest` stops at its first newline, if that is in the front. */
  lemma {:induction false} ScanIsLength(buf: Text, begin: nat, end: nat, rest: Text)
    requires begin <= end < |buf| && end - begin <= |rest|
    requires forall i :: begin <= i < end ==> buf[i] == rest[i - begin]
    ensures var k, n := ScanEnd(buf, begin, end) - begin, LineLength(rest);
      if k < end - begin then n == k else k <= n
    decreases end - begin
  {
    if begin < end && buf[begin] != NEWLINE {
      ScanIsLength(buf, begin + 1, end, rest[1..]);
    }
  }

  /** A line in the buffer, seen as a C string. */
  lemma HeldIsCString(buf: Text, at: nat, line: Text)
    requires Holds(buf, at, line)
    ensures IsCString(buf, at, UpToNul(line))
  {
    var text := UpToNul(line);
    assert buf[at..at + |line|][..|text|] == buf[at..at + |text|];
    if |text| < |line| {
      assert buf[at..at + |line|][|text|] == buf[at + |text|];
    }
  }

  /** The scan finds the line exactly when it is short enough, and the length test tells. */
  lemma ScanFindsLine(f: File, w: Window)
    requires f.Valid() && Loaded(f, w) && w.begin < f.blockLen
    ensures var n, e := LineLength(Rest(f, w)), ScanEnd(w.buf, w.begin, w.end);
      && (e - w.begin + 1 > f.blockLen <==> n + 1 > f.blockLen)
      && (n + 1 <= f.blockLen ==>
            && e == w.begin + n
            && w.buf[e] == (if n < |Rest(f, w)| then NEWLINE else f.Tail())
            && (n == |Rest(f, w)| ==> e == w.end))
  {
    ScanIsLength(w.buf, w.begin, w.end, Rest(f, w));
  }

  lemma WindowText(f: File, w: Window, n: nat)
    requires f.Valid() && Loaded(f, w) && w.begin + n <= w.end
    ensures w.buf[w.begin..w.begin + n] == Rest(f, w)[..n]
  {
  }

  lemma TerminatedText(buf: Text, begin: nat, e: nat, line: Text)
    requires begin <= e < |buf| && buf[begin..e] == line
    ensures Holds(Terminated(buf, begin, e), begin, StripCr(line))
  {
    var text, cut := StripCr(line), Terminated(buf, begin, e);
    assert cut[begin..begin + |text|] == text;
  }

  /** The terminated line is the one that was there, without its carriage return. */
  lemma TerminatedHolds(f: File, w: Window, n: nat)
    requires f.Valid() && Loaded(f, w) && n <= |Rest(f, w)| && w.begin + n <= w.end
    ensures Holds(Terminated(w.buf, w.begin, w.begin + n), w.begin, StripCr(Rest(f, w)[..n]))
  {
    WindowText(f, w, n);
    TerminatedText(w.buf, w.begin, w.begin + n, Rest(f, w)[..n]);
  }

  /** A window from which the line that ends at `e` has been cut: what comes later is as it was. */
  ghost predicate IsCut(w: Window, e: nat, c: Window)
    requires e < |w.buf|
  {
    && |c.buf| == |w.buf| && c.base == w.base && c.begin == e + 1
    && c.end == (if w.buf[e] == NEWLINE then w.end else w.end + 1)
    && c.fed == w.fed && c.ended == w.ended
    && (forall i :: e < i < |w.buf| ==> c.buf[i] == w.buf[i])
  }

  lemma CutBytes(w: Window, e: nat)
    requires w.begin <= e < |w.buf|
    ensures IsCut(w, e, Cut(w, e))
  {
  }

  /** What is left after a newline-terminated line is again the front of the unread data. */
  lemma CutKeeps(f: File, w: Window, e: nat, c: Window)
    requires f.Valid() && Loaded(f, w) && w.begin <= e < w.end && e < 2 * f.blockLen - 1
    requires w.buf[e] == NEWLINE && IsCut(w, e, c)
    ensures if c.begin == c.end then c.base + c.end == |f.input| else Loaded(f, c)
  {
  }

  lemma RestAfter(f: File, w: Window, e: nat, c: Window)
    requires w.base + w.begin <= w.base + e < |f.input| && w.begin <= e
    requires c.base == w.base && c.begin == e + 1
    ensures Rest(f, c) == Rest(f, w)[e - w.begin + 1..]
  {
  }

  /** The cursor that a window represents, if it represents one. */
  ghost function CursorOf(f: File, w: Window): Option<Cursor>
    requires f.Valid()
  {
    if w.begin == w.end then Some(Unread([]))
    else if w.begin == w.end + 1 then Some(Overrun)
    else if Loaded(f, w) then Some(Unread(Rest(f, w)))
    else None
  }

  /** The window is where the cursor says the reading has come to. */
  ghost predicate Represents(f: File, w: Window, c: Cursor)
    requires f.Valid()
  {
    CursorOf(f, w) == Some(c)
  }

  /** What next_line gives its caller: a pointer into the buffer, a null pointer, an exception, or a
      failed assertion. */
  datatype Outcome = Got(at: nat) | NoLine | TooLong | Aborted

  /** An outcome reports an event, and points at its text if it is a line. */
  ghost predicate Reports(o: Outcome, e: Event, buf: Text) {
    match e
    case Line(text) => o.Got? && Holds(buf, o.at, text)
    case EndOfInput => o.NoLine?
    case LineTooLong => o.TooLong?
    case AssertionFailed => o.Aborted?
  }

  /** The window fits the buffer and the file. */
  predicate Fits(f: File, w: Window) {
    && |w.buf| == 3 * f.blockLen
    && (w.begin < w.end ==> w.end <= 2 * f.blockLen && w.base + w.end <= |f.input|)
    && (f.blockLen <= w.begin < w.end ==> !w.ended)
  }

  /** The window in which a line that starts in block one or two is scanned. */
  function Readied(f: File, w: Window): (r: Window)
    requires Fits(f, w) && w.begin < w.end
    ensures r.begin < r.end < |r.buf| && r.base + r.end <= |f.input|
  {
    if f.blockLen <= w.begin then Refilled(f, w) else w
  }

  /** The scan of next_line, from a window in which the line starts in block one. */
  function Scanned(f: File, w: Window): (Outcome, Window)
    requires w.begin <= w.end < |w.buf|
  {
    var e := ScanEnd(w.buf, w.begin, w.end);
    if e - w.begin + 1 > f.blockLen then (TooLong, w) else (Got(w.begin), Cut(w, e))
  }

  /** The window after the first read, which fills blocks one and two as far as there is data. */
  function Initial(f: File): Window
    requires |f.memory| == 3 * f.blockLen
  {
    var end := if |f.input| < 2 * f.blockLen then |f.input| else 2 * f.blockLen;
    var buf := Stored(f.memory, 0, f.input, 0, end);
    var begin := if end >= 3 && buf[0] == BOM[0] && buf[1] == BOM[1] && buf[2] == BOM[2] then 3 else 0;
    Window(buf, 0, begin, end, end == 2 * f.blockLen, false)
  }

  /** A byte order mark is skipped exactly when there is one. */
  lemma InitialSkipsBom(f: File)
    requires f.Valid()
    ensures Rest(f, Initial(f)) == SkipBom(f.input)
  {
    var w := Initial(f);
    assert forall i :: 0 <= i < w.end ==> w.buf[i] == f.input[i];
    if BOM <= f.input {
      assert f.input[0] == BOM[0] && f.input[1] == BOM[1] && f.input[2] == BOM[2];
    } else if w.end >= 3 {
      assert f.input[..3] != BOM;
    }
  }

  lemma InitialRepresents(f: File)
    requires f.Valid()
    ensures Fits(f, Initial(f)) && Represents(f, Initial(f), Unread(SkipBom(f.input)))
  {
    InitialSkipsBom(f);
    var w := Initial(f);
    assert forall i :: 0 <= i < |w.buf| ==> w.buf[i] == if i < w.end then f.input[i] else f.memory[i];
  }

  /** One call of next_line, on windows. */
  function Step(f: File, w: Window): (Outcome, Window)
    requires Fits(f, w)
  {
    if w.begin == w.end then (NoLine, w)
    else if w.end < w.begin then (Aborted, w)
    else Scanned(f, Readied(f, w))
  }

  lemma ReadiedKeeps(f: File, w: Window)
    requires f.Valid() && Fits(f, w) && Loaded(f, w)
    ensures var r := Readied(f, w);
      Loaded(f, r) && r.begin < f.blockLen && Rest(f, r) == Rest(f, w)
  {
    if f.blockLen <= w.begin {
      RefillKeeps(f, w);
    }
  }

  lemma CutAtNewline(f: File, w: Window, e: nat, c: Window, rest: Text)
    requires f.Valid() && Loaded(f, w) && w.begin <= e < w.end && e < 2 * f.blockLen - 1
    requires w.buf[e] == NEWLINE && IsCut(w, e, c) && rest == Rest(f, w)[e - w.begin + 1..]
    ensures Represents(f, c, Unread(rest))
  {
    CutKeeps(f, w, e, c);
    RestAfter(f, w, e, c);
  }

  lemma CutAtEnd(f: File, w: Window, c: Window)
    requires f.Valid() && w.end < |w.buf| && IsCut(w, w.end, c)
    ensures Represents(f, c, if w.buf[w.end] == NEWLINE then Overrun else Unread([]))
  {
  }

  lemma CutRepresents(f: File, w: Window, n: nat, c: Window, after: Cursor)
    requires f.Valid() && Loaded(f, w) && w.begin < f.blockLen
    requires n == LineLength(Rest(f, w)) < f.blockLen && IsCut(w, w.begin + n, c)
    requires after == AfterLine(Rest(f, w), n, f.Tail())
    ensures Represents(f, c, after)
  {
    ScanFindsLine(f, w);
    if n < |Rest(f, w)| {
      CutAtNewline(f, w, w.begin + n, c, Rest(f, w)[n + 1..]);
    } else {
      CutAtEnd(f, w, c);
    }
  }

  /** One line, cut from a window that starts in block one, leaves the rest of the file. */
  lemma CutIsAfter(f: File, w: Window, n: nat)
    requires f.Valid() && Loaded(f, w) && w.begin < f.blockLen
    requires n == LineLength(Rest(f, w)) < f.blockLen
    ensures ScanEnd(w.buf, w.begin, w.end) == w.begin + n
    ensures Represents(f, Cut(w, w.begin + n), AfterLine(Rest(f, w), n, f.Tail()))
  {
    ScanFindsLine(f, w);
    CutBytes(w, w.begin + n);
    CutRepresents(f, w, n, Cut(w, w.begin + n), AfterLine(Rest(f, w), n, f.Tail()));
  }

  lemma ScannedShort(f: File, w: Window, n: nat)
    requires f.Valid() && Loaded(f, w) && w.begin < f.blockLen
    requires n == LineLength(Rest(f, w)) < f.blockLen
    ensures ScanEnd(w.buf, w.begin, w.end) == w.begin + n
    ensures Scanned(f, w) == (Got(w.begin), Cut(w, w.begin + n))
    ensures Holds(Cut(w, w.begin + n).buf, w.begin, StripCr(Rest(f, w)[..n]))
  {
    ScanFindsLine(f, w);
    TerminatedHolds(f, w, n);
  }

  /** The scan reports the next event of the file. */
  lemma ScannedIsNext(f: File, w: Window, next: (Event, Cursor))
    requires f.Valid() && Loaded(f, w) && w.begin < f.blockLen
    requires next == Next(Unread(Rest(f, w)), f.blockLen, f.Tail())
    ensures var ((outcome, w'), (event, after)) := (Scanned(f, w), next);
      && Represents(f, w', after)
      && Reports(outcome, event, w'.buf)
      && (event.Line? ==> outcome.at + |event.text| < w'.begin)
  {
    var n := LineLength(Rest(f, w));
    if n < f.blockLen {
      CutIsAfter(f, w, n);
      ScannedShort(f, w, n);
    } else {
      ScanFindsLine(f, w);
    }
  }

  /** Reading on the window is reading the file. */
  lemma StepIsNext(f: File, w: Window, c: Cursor)
    requires f.Valid() && Fits(f, w) && Represents(f, w, c)
    ensures var ((outcome, w'), (event, after)) := (Step(f, w), Next(c, f.blockLen, f.Tail()));
      && Represents(f, w', after)
      && Reports(outcome, event, w'.buf)
      && (event.Line? ==> outcome.at + |event.text| < w'.begin)
  {
    if w.begin < w.end {
      ReadiedKeeps(f, w);
      ScannedIsNext(f, Readied(f, w), Next(c, f.blockLen, f.Tail()));
    }
  }

  lemma HoldsToo(a: Text, b: Text, limit: nat, at: nat, text: Text)
    requires Holds(a, at, text) && at + |text| < limit <= |a| == |b|
    requires b[..limit] == a[..limit]
    ensures Holds(b, at, text)
  {
    assert b[at..at + |text|] == b[..limit][at..at + |text|];
    assert b[at + |text|] == b[..limit][at + |text|];
  }

  /** Reporting a line depends on the bytes of the line alone. */
  lemma ReportsToo(a: Text, b: Text, limit: nat, o: Outcome, e: Event)
    requires Reports(o, e, a) && (e.Line? ==> o.at + |e.text| < limit) && limit <= |a| == |b|
    requires b[..limit] == a[..limit]
    ensures Reports(o, e, b)
  {
    if e.Line? {
      HoldsToo(a, b, limit, o.at, e.text);
    }
  }

  /** The line is scanned in blocks one and two, from block one on. */
  predicate StaysBelow(f: File, w: Window)
    requires Fits(f, w)
  {
    w.begin < w.end ==> Readied(f, w).end <= 2 * f.blockLen && Readied(f, w).begin < f.blockLen
  }

  /** A call works below block three. */
  lemma StepStaysBelow(f: File, w: Window, c: Cursor)
    requires f.Valid() && Fits(f, w) && Represents(f, w, c)
    ensures StaysBelow(f, w)
    ensures Step(f, w).0.Got? ==> Step(f, w).1.begin < 2 * f.blockLen
  {
    if w.begin < w.end {
      ReadiedKeeps(f, w);
      ScanStops(f, Readied(f, w));
    }
  }

  lemma RepresentsFits(f: File, w: Window, c: Cursor)
    requires f.Valid() && Represents(f, w, c) && |w.buf| == 3 * f.blockLen
    ensures Fits(f, w)
  {
  }

  /** A call goes on to the next cursor. */
  lemma StepGoesOn(f: File, w: Window, c: Cursor, w': Window, c': Cursor)
    requires f.Valid() && Fits(f, w) && Represents(f, w, c)
    requires w' == Step(f, w).1 && c' == Next(c, f.blockLen, f.Tail()).1
    ensures Fits(f, w') && Represents(f, w', c')
  {
    StepIsNext(f, w, c);
    RepresentsFits(f, w', c');
  }

  /** What a call reports, as the buffer shows it. */
  lemma StepShows(f: File, w: Window, c: Cursor, o: Outcome, w': Window, landed: bool, buf: Text, e: Event)
    requires f.Valid() && Fits(f, w) && Represents(f, w, c)
    requires (o, w') == Step(f, w) && e == Next(c, f.blockLen, f.Tail()).0
    requires Shows(f, w', landed, buf)
    ensures Reports(o, e, buf)
    ensures e.Line? ==> o.at + |e.text| < w'.begin < 2 * f.blockLen
    ensures o.NoLine? <==> e.EndOfInput?
  {
    StepIsNext(f, w, c);
    StepStaysBelow(f, w, c);
    ReportsToo(w'.buf, buf, 2 * f.blockLen, o, e);
  }

  /** The bytes before the unread data do not matter. */
  lemma EarlierBytesFree(f: File, w: Window, buf: Text, c: Cursor)
    requires f.Valid() && Fits(f, w) && Represents(f, w, c)
    requires |buf| == |w.buf| && forall i :: w.begin <= i < |buf| ==> buf[i] == w.buf[i]
    ensures Fits(f, w.(buf := buf)) && Represents(f, w.(buf := buf), c)
  {
  }

  lemma {:induction false} ScanEndSame(a: Text, b: Text, begin: nat, end: nat)
    requires begin <= end < |a| == |b|
    requires forall i :: begin <= i < end ==> a[i] == b[i]
    ensures ScanEnd(a, begin, end) == ScanEnd(b, begin, end)
    decreases end - begin
  {
    if begin < end && a[begin] != NEWLINE {
      ScanEndSame(a, b, begin + 1, end);
    }
  }

  /** The places that the scan looks at, in the order of the source: the byte first, and then whether the
      data ends there. */
  function ScanReads(buf: Text, begin: nat, end: nat): (r: set<nat>)
    requires begin <= end < |buf|
    decreases end - begin
  {
    if buf[begin] != NEWLINE && begin != end then {begin} + ScanReads(buf, begin + 1, end) else {begin}
  }

  lemma {:induction false} ScanReadsTo(buf: Text, begin: nat, end: nat, i: nat)
    requires begin <= end < |buf|
    ensures i in ScanReads(buf, begin, end) <==> begin <= i <= ScanEnd(buf, begin, end)
    decreases end - begin
  {
    if begin < end && buf[begin] != NEWLINE {
      ScanReadsTo(buf, begin + 1, end, i);
    }
  }

  lemma ScanStops(f: File, w: Window)
    requires f.Valid() && Loaded(f, w) && w.begin < f.blockLen
    ensures var n, e := LineLength(Rest(f, w)), ScanEnd(w.buf, w.begin, w.end);
      && e <= 2 * f.blockLen
      && (e == 2 * f.blockLen <==> 2 * f.blockLen <= w.begin + n)
      && (e - w.begin + 1 <= f.blockLen ==> e + 1 < 2 * f.blockLen)
  {
    ScanIsLength(w.buf, w.begin, w.end, Rest(f, w));
  }

  /** Main result: the scan looks into block three if and only if the line does not end in blocks one and
      two. Then it looks at the first byte there, whatever that is, and the line is too long; a line that
      is short enough is found and cut below block three. */
  lemma BlockThreeReadIff(f: File, w: Window)
    requires f.Valid() && Loaded(f, w) && w.begin < f.blockLen
    ensures var seen := ScanReads(w.buf, w.begin, w.end);
      && (forall i :: i in seen ==> w.begin <= i <= 2 * f.blockLen)
      && (2 * f.blockLen in seen <==> 2 * f.blockLen <= w.begin + LineLength(Rest(f, w)))
      && (2 * f.blockLen in seen ==> Scanned(f, w) == (TooLong, w))
      && (Scanned(f, w).0.Got? ==> forall i :: i in seen ==> i + 1 < 2 * f.blockLen)
  {
    ScanStops(f, w);
    forall i
      ensures i in ScanReads(w.buf, w.begin, w.end) <==> w.begin <= i <= ScanEnd(w.buf, w.begin, w.end)
    {
      if i >= 0 {
        ScanReadsTo(w.buf, w.begin, w.end, i);
      }
    }
  }

  /** It does so at the very first call on a file whose first line fills both blocks. */
  lemma LongLineReadsBlockThree(f: File)
    requires f.Valid() && 2 * f.blockLen <= |f.input| && f.input[0] != BOM[0]
    requires NEWLINE !in f.input[..2 * f.blockLen]
    ensures Loaded(f, Initial(f)) && Initial(f).begin == 0
    ensures 2 * f.blockLen in ScanReads(Initial(f).buf, Initial(f).begin, Initial(f).end)
    ensures Step(f, Initial(f)).0 == TooLong
  {
    InitialRepresents(f);
    InitialSkipsBom(f);
    NoLineEndBefore(f.input, 2 * f.blockLen);
    BlockThreeReadIff(f, Initial(f));
  }

  /** Main result: between two refills nothing depends on what block three holds, not even when the scan
      looks at its first byte, and nothing is written there; so it does not matter what a reader has
      already put there. */
  lemma ScanIgnoresBlockThree(f: File, w: Window, buf: Text)
    requires f.Valid() && Loaded(f, w) && w.begin < f.blockLen
    requires |buf| == |w.buf| && forall i :: 0 <= i < 2 * f.blockLen ==> buf[i] == w.buf[i]
    ensures var ((o, v), (o', v')) := (Scanned(f, w), Scanned(f, w.(buf := buf)));
      && o == o' && v' == v.(buf := v'.buf)
      && (forall i :: 0 <= i < 2 * f.blockLen ==> v'.buf[i] == v.buf[i])
      && (forall i :: 2 * f.blockLen <= i < |buf| ==> v.buf[i] == w.buf[i] && v'.buf[i] == buf[i])
  {
    ScanEndSame(w.buf, buf, w.begin, w.end);
    var e := ScanEnd(w.buf, w.begin, w.end);
    if e - w.begin + 1 <= f.blockLen {
      TerminatedSame(w.buf, buf, w.begin, e, 2 * f.blockLen);
    }
  }

  /** Terminating a line below `limit` depends on nothing beyond it and changes nothing there. */
  lemma TerminatedSame(a: Text, b: Text, begin: nat, e: nat, limit: nat)
    requires begin <= e < limit <= |a| == |b| && forall i :: 0 <= i < limit ==> b[i] == a[i]
    ensures forall i :: 0 <= i < limit ==> Terminated(b, begin, e)[i] == Terminated(a, begin, e)[i]
    ensures forall i :: limit <= i < |a| ==> Terminated(a, begin, e)[i] == a[i] && Terminated(b, begin, e)[i] == b[i]
  {
  }

  /** The window when the reader has filled block three before it is asked to finish. */
  function Early(f: File, w: Window): Window
    requires |w.buf| == 3 * f.blockLen && w.base + w.end <= |f.input|
  {
    w.(buf := Stored(w.buf, 2 * f.blockLen, f.input, w.base + w.end, Available(f, w.base + w.end)))
  }

  /** Appending a block that is already there. */
  function ToppedUpEarly(f: File, w: Window): Window
    requires |w.buf| == 3 * f.blockLen && w.base + w.end <= |f.input|
  {
    var n := f.blockLen;
    var count := Available(f, w.base + w.end);
    w.(buf := Copied(w.buf, n, 2 * n, n), end := w.end + count, ended := count == 0)
  }

  /** One call of next_line whose awaited block is already there. */
  function StepEarly(f: File, w: Window): (Outcome, Window)
    requires Fits(f, w) && w.begin < w.end
  {
    Scanned(f, if f.blockLen <= w.begin then ToppedUpEarly(f, Slid(f, w)) else w)
  }

  lemma EarlyTopUp(f: File, w: Window)
    requires f.Valid() && Fits(f, w) && f.blockLen <= w.begin < w.end
    ensures ToppedUpEarly(f, Slid(f, Early(f, w))) == ToppedUp(f, Slid(f, w))
  {
    CopyAndStore(w.buf, f.blockLen, f.input, w.base + w.end, Available(f, w.base + w.end));
  }

  /** Storing into block three and copying block two down may be done in either order. */
  lemma CopyAndStore(buf: Text, n: nat, data: Text, pos: nat, count: nat)
    requires |buf| == 3 * n && count <= n && pos + count <= |data|
    ensures Copied(Stored(buf, 2 * n, data, pos, count), 0, n, n)
      == Stored(Copied(buf, 0, n, n), 2 * n, data, pos, count)
  {
  }

  /** The buffer that shows a window: the window, with the awaited block in block three if that has landed;
      what block three holds matters only while there is more to read. */
  ghost predicate Shows(f: File, w: Window, landed: bool, buf: Text) {
    && |w.buf| == |buf| == 3 * f.blockLen && buf[..2 * f.blockLen] == w.buf[..2 * f.blockLen]
    && (w.begin < w.end ==>
          w.base + w.end <= |f.input| && buf == (if landed then Early(f, w) else w).buf)
  }

  /** Where a source stands that has been read up to `pos`, and one block further if that has landed; and
      how much that was. */
  ghost predicate ReadTo(f: File, pos: nat, count: Option<nat>, position: nat) {
    pos <= |f.input| &&
    match count
    case None => position == pos
    case Some(n) => n == Available(f, pos) && position == pos + n
  }

  /** The awaited block lands. */
  lemma ShowsLanded(f: File, w: Window, buf: Text, pos: nat, count: nat)
    requires f.Valid() && Shows(f, w, false, buf) && count <= f.blockLen && pos + count <= |f.input|
    requires w.begin < w.end ==> pos == w.base + w.end && count == Available(f, pos)
    ensures Shows(f, w, true, Stored(buf, 2 * f.blockLen, f.input, pos, count))
  {
    var read := Stored(buf, 2 * f.blockLen, f.input, pos, count);
    assert read[..2 * f.blockLen] == buf[..2 * f.blockLen];
  }

  lemma ShowsSlid(f: File, w: Window, landed: bool, buf: Text)
    requires f.Valid() && Shows(f, w, landed, buf) && f.blockLen <= w.begin < w.end
    ensures Shows(f, Slid(f, w), landed, Copied(buf, 0, f.blockLen, f.blockLen))
  {
    var (n, pos) := (f.blockLen, w.base + w.end);
    CopyAndStore(w.buf, n, f.input, pos, Available(f, pos));
    assert Copied(buf, 0, n, n)[..2 * n] == Slid(f, w).buf[..2 * n];
  }

  /** Appending the awaited block, which has landed by then. */
  lemma ShowsToppedUp(f: File, w: Window, buf: Text)
    requires f.Valid() && Shows(f, w, true, buf) && w.begin < w.end
    ensures Shows(f, ToppedUp(f, w), false, Copied(buf, f.blockLen, 2 * f.blockLen, f.blockLen))
  {
  }

  /** A line cut below block three. */
  lemma ShowsCut(f: File, w: Window, landed: bool, buf: Text, e: nat)
    requires f.Valid() && Shows(f, w, landed, buf) && w.begin < w.end < |w.buf|
    requires e == ScanEnd(w.buf, w.begin, w.end) && e + 1 < 2 * f.blockLen
    ensures Shows(f, Cut(w, e), landed, Terminated(buf, w.begin, e))
  {
    var (c, cut) := (Cut(w, e), Terminated(buf, w.begin, e));
    TerminatedSame(w.buf, buf, w.begin, e, 2 * f.blockLen);
    assert cut[..2 * f.blockLen] == c.buf[..2 * f.blockLen];
    if landed && c.begin < c.end {
      EarlyStays(f, w, c, c.(buf := cut));
    }
  }

  /** The window after a client has rewritten bytes before the unread data. */
  ghost function RewrittenTo(f: File, w: Window, buf: Text): Window
    requires |w.buf| == |buf| == 3 * f.blockLen
  {
    var limit := if w.begin < 2 * f.blockLen then w.begin else 2 * f.blockLen;
    w.(buf := buf[..limit] + w.buf[limit..])
  }

  lemma RewrittenBelow(f: File, w: Window, before: Text, buf: Text)
    requires f.Valid() && |w.buf| == |buf| == |before| == 3 * f.blockLen
    requires before[..2 * f.blockLen] == w.buf[..2 * f.blockLen]
    requires forall i :: w.begin <= i < |buf| ==> buf[i] == before[i]
    ensures RewrittenTo(f, w, buf).buf[..2 * f.blockLen] == buf[..2 * f.blockLen]
  {
    var v := RewrittenTo(f, w, buf);
    forall i | 0 <= i < 2 * f.blockLen
      ensures v.buf[i] == buf[i]
    {
      assert before[..2 * f.blockLen][i] == w.buf[..2 * f.blockLen][i];
    }
  }

  lemma RewrittenAbove(f: File, w: Window, landed: bool, before: Text, buf: Text)
    requires f.Valid() && |w.buf| == |buf| == 3 * f.blockLen && w.base + w.end <= |f.input|
    requires w.begin < 2 * f.blockLen && before == (if landed then Early(f, w) else w).buf
    requires forall i :: w.begin <= i < |buf| ==> buf[i] == before[i]
    ensures var v := RewrittenTo(f, w, buf); buf == (if landed then Early(f, v) else v).buf
  {
  }

  lemma ShowsRewritten(f: File, w: Window, landed: bool, before: Text, buf: Text, c: Cursor)
    requires f.Valid() && Shows(f, w, landed, before) && Fits(f, w) && Represents(f, w, c)
    requires |buf| == |before| && forall i :: w.begin <= i < |buf| ==> buf[i] == before[i]
    ensures var v := RewrittenTo(f, w, buf); Shows(f, v, landed, buf) && Fits(f, v) && Represents(f, v, c)
  {
    EarlierBytesFree(f, w, RewrittenTo(f, w, buf).buf, c);
    RewrittenBelow(f, w, before, buf);
    if w.begin < w.end {
      RewrittenAbove(f, w, landed, before, buf);
    }
  }

  /** Main result: it makes no difference whether the reader fills block three when it is asked to
      finish or at any time before: the call reports the same, and the windows after it are the same
      but for block three while that is still awaited. */
  lemma EarlyReadIsHarmless(f: File, w: Window)
    requires f.Valid() && Fits(f, w) && Loaded(f, w) && w.fed
    ensures var ((o, v), (o', v')) := (Step(f, w), StepEarly(f, Early(f, w)));
      && o == o' && v' == v.(buf := v'.buf)
      && (f.blockLen <= w.begin ==> v'.buf == v.buf)
      && (w.begin < f.blockLen ==>
            && (forall i :: 0 <= i < 2 * f.blockLen ==> v'.buf[i] == v.buf[i])
            && (forall i :: 2 * f.blockLen <= i < 3 * f.blockLen ==> v'.buf[i] == Early(f, w).buf[i]))
      && (w.begin < f.blockLen && v.begin < v.end ==> v' == Early(f, v))
  {
    if f.blockLen <= w.begin {
      EarlyTopUp(f, w);
    } else {
      ScanIgnoresBlockThree(f, w, Early(f, w).buf);
      var (v, v') := (Scanned(f, w).1, Scanned(f, Early(f, w)).1);
      if v.begin < v.end {
        EarlyStays(f, w, v, v');
      }
    }
  }

  /** What has landed in block three stays there. */
  lemma EarlyStays(f: File, w: Window, v: Window, v': Window)
    requires f.Valid() && |w.buf| == |v.buf| == |v'.buf| == 3 * f.blockLen && w.base + w.end <= |f.input|
    requires v.base == w.base && v.end == w.end && v' == v.(buf := v'.buf)
    requires forall i :: 0 <= i < 2 * f.blockLen ==> v'.buf[i] == v.buf[i]
    requires forall i :: 2 * f.blockLen <= i < 3 * f.blockLen ==>
      v.buf[i] == w.buf[i] && v'.buf[i] == Early(f, w).buf[i]
    ensures v' == Early(f, v)
  {
    assert v'.buf == Early(f, v).buf;
  }

  // ----- runs -----

  /** The window after `k` calls. */
  function WindowAfter(f: File, k: nat): Window
    requires |f.memory| == 3 * f.blockLen
  {
    if k == 0 then Initial(f)
    else
      var w := WindowAfter(f, k - 1);
      if Fits(f, w) then Step(f, w).1 else w
  }

  /** It stands where the cursor does. */
  lemma {:induction false} WindowStands(f: File, k: nat, c: Cursor)
    requires f.Valid() && c == CursorAfter(Unread(SkipBom(f.input)), f.blockLen, f.Tail(), k)
    ensures Fits(f, WindowAfter(f, k)) && Represents(f, WindowAfter(f, k), c)
  {
    if k == 0 {
      InitialRepresents(f);
      } else {
      var c0 := CursorAfter(Unread(SkipBom(f.input)), f.blockLen, f.Tail(), k - 1);
      CursorAfterNext(Unread(SkipBom(f.input)), f.blockLen, f.Tail(), k - 1);
      WindowStands(f, k - 1, c0);
      StepGoesOn(f, WindowAfter(f, k - 1), c0, WindowAfter(f, k), c);
    }
  }

  /** Call number `i` on the window reports event number `i` of the file. */
  lemma CallReportsEvent(f: File, k: nat, i: nat)
    requires f.Valid() && i < k
    ensures Fits(f, WindowAfter(f, i))
    ensures var (o, w) := Step(f, WindowAfter(f, i));
      Reports(o, Events(Unread(SkipBom(f.input)), f.blockLen, f.Tail(), k)[i], w.buf)
  {
    var start := Unread(SkipBom(f.input));
    var c := CursorAfter(start, f.blockLen, f.Tail(), i);
    EventAt(start, f.blockLen, f.Tail(), k, i, Next(c, f.blockLen, f.Tail()).0);
    WindowStands(f, i, c);
    StepIsNext(f, WindowAfter(f, i), c);
  }

  /** A long file of empty lines with one byte after them fails whatever the buffer held before: a
      newline of an earlier block follows the end of the data, and after the line with that byte the
      assertion fails. */
  lemma StaleNewlineFails(f: File, n: nat)
    requires f.Valid() && 3 * f.blockLen <= n
    requires f.input == seq(n, _ => NEWLINE) + [65]
    ensures Events(Unread(SkipBom(f.input)), f.blockLen, f.Tail(), n + 2)[n + 1] == AssertionFailed
    ensures Fits(f, WindowAfter(f, n + 1)) && Step(f, WindowAfter(f, n + 1)).0 == Aborted
  {
    var lines := seq(n, _ => []);
    EmptyLines(n);
    assert f.input[0] != BOM[0];
    UnterminatedFileIsRead(lines, [65], f.blockLen, f.Tail(), n + 2);
    CallReportsEvent(f, n + 2, n + 1);
  }

  lemma {:induction false} EmptyLines(n: nat)
    ensures Unlines(seq(n, _ => [])) == seq(n, _ => NEWLINE)
  {
    if n > 0 {
      EmptyLines(n - 1);
      var lines: seq<Text> := seq(n, _ => []);
      assert lines[1..] == seq(n - 1, _ => []);
    }
  }
}
