/**
 The column functions that rewrite a line in its buffer and leave pointers into it.
 */
module Parsing {
  import opened Bytes
  import opened Quoting
  import opened Rows
  import opened Headers
  import opened Tables

  /** A C string stays one while the buffer changes elsewhere. */
  lemma CStringKept(a: Text, b: Text, p: nat, text: Text)
    requires |a| == |b| && IsCString(a, p, text)
    requires forall i :: p <= i <= p + |text| ==> b[i] == a[i]
    ensures IsCString(b, p, text)
  {
    assert b[p..p + |text|] == a[p..p + |text|];
  }

  // ----- find_next_column_end -----

  /** The scan for the end of a column; None stands for the exception. */
  method FindNextColumnEnd(p: QuotePolicy, buffer: array<Byte>, col: nat, ghost text: Text)
    returns (r: Option<nat>)
    requires IsCString(buffer[..], col, text)
    ensures match ColumnEnd(p, text)
      case None => r == None
      case Some(e) => r == Some(col + e) && e <= |text|
  {
    EndInRange(p, text, 0, false);
    AtIndex(buffer[..], col, text);
    if p.NoQuoteEscape? {
      var c := NextSeparator(p, buffer, col, text);
      return Some(c);
    }
    r := NextUnquotedSeparator(p, buffer, col, text);
  }

  /** Reading a C string through its pointer. */
  lemma AtIndex(s: Text, p: nat, text: Text)
    requires IsCString(s, p, text)
    ensures forall i :: p <= i < p + |text| ==> s[i] == text[i - p] && s[i] != NUL
  {
    assert forall i :: p <= i < p + |text| ==> s[i] == s[p..p + |text|][i - p];
  }

  method NextSeparator(p: QuotePolicy, buffer: array<Byte>, col: nat, ghost text: Text) returns (c: nat)
    requires p.NoQuoteEscape? && IsCString(buffer[..], col, text)
    ensures col <= c <= col + |text| && ColumnEnd(p, text) == Some(c - col)
  {
    AtIndex(buffer[..], col, text);
    c := col;
    while buffer[c] != p.sep && buffer[c] != NUL
      invariant col <= c <= col + |text|
      invariant ColumnEnd(p, text) == EndFrom(p, text, c - col, false)
      decreases col + |text| - c
    {
      c := c + 1;
    }
  }

  method NextUnquotedSeparator(p: QuotePolicy, buffer: array<Byte>, col: nat, ghost text: Text)
    returns (r: Option<nat>)
    requires p.DoubleQuoteEscape? && IsCString(buffer[..], col, text)
    ensures match ColumnEnd(p, text)
      case None => r == None
      case Some(e) => r == Some(col + e)
  {
    AtIndex(buffer[..], col, text);
    var c := col;
    while buffer[c] != p.sep && buffer[c] != NUL
      invariant col <= c <= col + |text|
      invariant ColumnEnd(p, text) == EndFrom(p, text, c - col, false)
      decreases col + |text| - c
    {
      if buffer[c] != p.quote {
        c := c + 1;
      } else {
        r := SkipQuoted(p, buffer, col, c, text);
        if r.None? {
          return;
        }
        c := r.value;
      }
    }
    r := Some(c);
  }

  /** The do-while loop over adjacent quoted stretches, from an opening quote at `start`. */
  method SkipQuoted(p: QuotePolicy, buffer: array<Byte>, col: nat, start: nat, ghost text: Text)
    returns (r: Option<nat>)
    requires p.DoubleQuoteEscape? && IsCString(buffer[..], col, text)
    requires col <= start < col + |text| && buffer[start] == p.quote != p.sep
    ensures r.None? ==> EndFrom(p, text, start - col, false) == None
    ensures r.Some? ==>
      && start < r.value <= col + |text|
      && EndFrom(p, text, start - col, false) == EndFrom(p, text, r.value - col, false)
  {
    AtIndex(buffer[..], col, text);
    var c, again := start, true;
    while again
      invariant start <= c <= col + |text|
      invariant EndFrom(p, text, start - col, false) == EndFrom(p, text, c - col, false)
      invariant again ==> c < col + |text| && buffer[c] == p.quote
      invariant !again ==> start < c
      decreases col + |text| - c, again
    {
      c := c + 1;
      while buffer[c] != p.quote
        invariant start < c <= col + |text|
        invariant EndFrom(p, text, start - col, false) == EndFrom(p, text, c - col, true)
        decreases col + |text| - c
      {
        if buffer[c] == NUL {
          return None;
        }
        c := c + 1;
      }
      c := c + 1;
      again := buffer[c] == p.quote;
    }
    r := Some(c);
  }

  // ----- trim and unescape -----

  method SkipFront(trims: set<Byte>, buffer: array<Byte>, begin: nat, end: nat) returns (b: nat)
    requires begin <= end <= buffer.Length
    ensures begin <= b <= end && buffer[b..end] == TrimStart(trims, buffer[begin..end])
  {
    b := begin;
    while b != end && buffer[b] in trims
      invariant begin <= b <= end
      invariant TrimStart(trims, buffer[begin..end]) == TrimStart(trims, buffer[b..end])
      decreases end - b
    {
      assert buffer[b..end][1..] == buffer[b + 1..end];
      b := b + 1;
    }
  }

  method SkipBack(trims: set<Byte>, buffer: array<Byte>, begin: nat, end: nat) returns (e: nat)
    requires begin <= end <= buffer.Length
    ensures begin <= e <= end && buffer[begin..e] == TrimEnd(trims, buffer[begin..end])
  {
    e := end;
    while begin != e && buffer[e - 1] in trims
      invariant begin <= e <= end
      invariant TrimEnd(trims, buffer[begin..end]) == TrimEnd(trims, buffer[begin..e])
      decreases e - begin
    {
      assert buffer[begin..e][..e - 1 - begin] == buffer[begin..e - 1];
      e := e - 1;
    }
  }

  /** Moves both ends of the column inwards over trim characters and terminates it. */
  method TrimColumn(trims: set<Byte>, buffer: array<Byte>, begin: nat, end: nat) returns (b: nat, e: nat)
    requires begin <= end < buffer.Length
    modifies buffer
    ensures begin <= b <= e <= end
    ensures buffer[..] == old(buffer[..])[e := NUL]
    ensures buffer[b..e] == Trim(trims, old(buffer[begin..end]))
  {
    b := SkipFront(trims, buffer, begin, end);
    e := SkipBack(trims, buffer, b, end);
    buffer[e] := NUL;
  }

  /** Removes the quotes of a quoted column in place; the write index never passes the read index. */
  method UnescapeColumn(p: QuotePolicy, buffer: array<Byte>, begin: nat, end: nat) returns (b: nat, e: nat)
    requires begin <= end < buffer.Length && buffer[end] == NUL
    modifies buffer
    ensures begin <= b <= e <= end
    ensures buffer[b..e] == Unescape(p, old(buffer[begin..end])) && buffer[e] == NUL
    ensures forall i :: 0 <= i < buffer.Length && !(begin <= i < end) ==> buffer[i] == old(buffer[i])
  {
    b, e := begin, end;
    if p.NoQuoteEscape? {
      return;
    }
    if end - begin >= 2 {
      if buffer[begin] == p.quote && buffer[end - 1] == p.quote {
        b, e := begin + 1, end - 1;
        assert buffer[b..e] == buffer[begin..end][1..end - begin - 1];
        e := UndoubleInPlace(p.quote, buffer, b, e);
      }
    }
  }

  method UndoubleInPlace(q: Byte, buffer: array<Byte>, begin: nat, end: nat) returns (out: nat)
    requires begin <= end < buffer.Length
    modifies buffer
    ensures begin <= out <= end
    ensures buffer[begin..out] == Undouble(q, old(buffer[begin..end])) && buffer[out] == NUL
    ensures forall i :: 0 <= i < buffer.Length && !(begin <= i <= end) ==> buffer[i] == old(buffer[i])
    ensures out < end ==> buffer[end] == old(buffer[end])
  {
    UndoubleRangeIs(q, buffer[..], begin, end);
    assert buffer[..][begin..end] == buffer[begin..end];
    ghost var done;
    out, done := UndoubleLoop(q, buffer, begin, end);
    assert buffer[begin..out] == done;
    buffer[out] := NUL;
  }

  /** The loop over the bytes between the quotes: `done` is what has been written from `begin` on. */
  method UndoubleLoop(q: Byte, buffer: array<Byte>, begin: nat, end: nat) returns (out: nat, ghost done: Text)
    requires begin <= end < buffer.Length
    modifies buffer
    ensures done == UndoubleRange(q, old(buffer[..]), begin, end) && out == begin + |done| <= end
    ensures forall k :: begin <= k < out ==> buffer[k] == done[k - begin]
    ensures forall i :: 0 <= i < buffer.Length && !(begin <= i < out) ==> buffer[i] == old(buffer[i])
  {
    ghost var s := buffer[..];
    out, done := begin, [];
    var at := begin;
    while at != end
      invariant begin <= out <= at <= end && out == begin + |done|
      invariant done + UndoubleRange(q, s, at, end) == UndoubleRange(q, s, begin, end)
      invariant forall k :: begin <= k < out ==> buffer[k] == done[k - begin]
      invariant forall i :: 0 <= i < buffer.Length && !(begin <= i < out) ==> buffer[i] == s[i]
      decreases end - at
    {
      if buffer[at] == q && at + 1 != end && buffer[at + 1] == q {
        at := at + 1;
      }
      ConcatStep(done, s[at], UndoubleRange(q, s, at + 1, end));
      done := done + [s[at]];
      buffer[out] := buffer[at];
      out := out + 1;
      at := at + 1;
    }
  }

  /** Unescaping the bytes from `k` to `end`. */
  function UndoubleRange(q: Byte, s: Text, k: nat, end: nat): Text
    requires k <= end <= |s|
    decreases end - k
  {
    if k == end then []
    else if s[k] == q && k + 1 < end && s[k + 1] == q then [s[k + 1]] + UndoubleRange(q, s, k + 2, end)
    else [s[k]] + UndoubleRange(q, s, k + 1, end)
  }

  lemma {:induction false} UndoubleRangeIs(q: Byte, s: Text, k: nat, end: nat)
    requires k <= end <= |s|
    ensures UndoubleRange(q, s, k, end) == Undouble(q, s[k..end])
    decreases end - k
  {
    if k < end {
      assert s[k..end][1..] == s[k + 1..end];
      if s[k] == q && k + 1 < end && s[k + 1] == q {
        assert s[k..end][2..] == s[k + 2..end];
        UndoubleRangeIs(q, s, k + 2, end);
      } else {
        UndoubleRangeIs(q, s, k + 1, end);
      }
    }
  }

  // ----- chop_next_column -----

  /** One column taken off the front of a line: the rest of the line, and the ends of the column.
      None stands for the exception, which leaves the line as it was. */
  method ChopNextColumn(p: QuotePolicy, buffer: array<Byte>, line: nat, ghost text: Text)
    returns (next: Option<Pointer>, colBegin: nat, colEnd: nat)
    requires IsCString(buffer[..], line, text)
    modifies buffer
    ensures match ColumnEnd(p, text)
      case None => next == None && buffer[..] == old(buffer[..])
      case Some(e) =>
        && e <= |text| && colBegin == line && colEnd == line + e
        && buffer[..] == old(buffer[..])[colEnd := NUL]
        && next == Some(if e == |text| then Null else At(colEnd + 1))
  {
    AtIndex(buffer[..], line, text);
    colBegin, colEnd := line, line;
    var r := FindNextColumnEnd(p, buffer, line, text);
    if r.None? {
      return None, colBegin, colEnd;
    }
    colEnd := r.value;
    if buffer[colEnd] == NUL {
      next := Some(Null);
    } else {
      buffer[colEnd] := NUL;
      next := Some(At(colEnd + 1));
    }
  }

  /** No byte outside `lo` to `hi` has changed. */
  ghost predicate OnlyChanged(before: Text, after: Text, lo: nat, hi: nat) {
    |before| == |after| && forall i :: 0 <= i < |before| && !(lo <= i <= hi) ==> after[i] == before[i]
  }

  // ----- one column, cleaned -----

  lemma {:induction false} UndoubleBytes(q: Byte, s: Text)
    requires NUL !in s
    ensures NUL !in Undouble(q, s)
  {
    if s != [] {
      if s[0] == q && |s| > 1 && s[1] == q {
        UndoubleBytes(q, s[2..]);
      } else {
        UndoubleBytes(q, s[1..]);
      }
    }
  }

  lemma FieldBytes(trims: set<Byte>, p: QuotePolicy, raw: Text)
    requires NUL !in raw
    ensures NUL !in Field(trims, p, raw) && |Field(trims, p, raw)| <= |raw|
  {
    TrimIsTrimmed(trims, raw);
    var t := Trim(trims, raw);
    if p.DoubleQuoteEscape? && |t| >= 2 {
      UndoubleBytes(p.quote, t[1..|t| - 1]);
    }
  }

  /** Trims and unescapes a column, and returns the pointer to its content. */
  method CleanColumn(trims: set<Byte>, p: QuotePolicy, buffer: array<Byte>, begin: nat, end: nat)
    returns (col: nat)
    requires begin <= end < buffer.Length && NUL !in buffer[begin..end]
    modifies buffer
    ensures var field := Field(trims, p, old(buffer[begin..end]));
      begin <= col && col + |field| <= end && IsCString(buffer[..], col, field)
    ensures OnlyChanged(old(buffer[..]), buffer[..], begin, end)
  {
    FieldBytes(trims, p, buffer[begin..end]);
    var b, e := TrimColumn(trims, buffer, begin, end);
    col, e := UnescapeColumn(p, buffer, b, e);
  }

  // ----- taking one column -----

  /** The column at the front of `rest` has been taken: what is left, and which bytes are untouched. */
  ghost predicate Taken(p: QuotePolicy, before: Text, after: Text, line: nat, rest: Text, next: Pointer)
    requires ColumnEnd(p, rest).Some?
  {
    var e := ColumnEnd(p, rest).value;
    && e <= |rest| && OnlyChanged(before, after, line, line + e)
    && (if e == |rest| then next == Null
        else next == At(line + e + 1) && IsCString(after, line + e + 1, rest[e + 1..]))
  }

  lemma OnlyChangedStep(buf0: Text, buf: Text, buf': Text, lo: nat, hi: nat, lo': nat, hi': nat)
    requires OnlyChanged(buf0, buf, lo, hi) && OnlyChanged(buf, buf', lo', hi') && lo <= lo' && hi' <= hi
    ensures OnlyChanged(buf0, buf', lo, hi)
  {
  }

  lemma RestKept(before: Text, after: Text, line: nat, rest: Text, e: nat)
    requires IsCString(before, line, rest) && e < |rest|
    requires OnlyChanged(before, after, line, line + e)
    ensures IsCString(after, line + e + 1, rest[e + 1..])
  {
    assert before[line + e + 1..line + |rest|] == before[line..line + |rest|][e + 1..];
    CStringKept(before, after, line + e + 1, rest[e + 1..]);
  }

  lemma TakenWhen(p: QuotePolicy, before: Text, after: Text, line: nat, rest: Text, e: nat, next: Pointer)
    requires IsCString(before, line, rest) && ColumnEnd(p, rest) == Some(e) && e <= |rest|
    requires OnlyChanged(before, after, line, line + e)
    requires next == if e == |rest| then Null else At(line + e + 1)
    ensures Taken(p, before, after, line, rest, next)
  {
    if e < |rest| {
      RestKept(before, after, line, rest, e);
    }
  }

  /** The bytes of a column that has been chopped off. */
  lemma ChoppedText(before: Text, chopped: Text, line: nat, rest: Text, e: nat)
    requires IsCString(before, line, rest) && e <= |rest| && chopped == before[line + e := NUL]
    ensures chopped[line..line + e] == rest[..e] && NUL !in rest[..e]
    ensures OnlyChanged(before, chopped, line, line + e)
  {
    assert before[line..line + |rest|][..e] == before[line..line + e] == chopped[line..line + e];
  }

  /** The pointer denotes the C string `text`, which lies between `lo` and `hi`. */
  ghost predicate PointsAt(buf: Text, ptr: Pointer, text: Text, lo: nat, hi: nat) {
    ptr.At? && lo <= ptr.index && ptr.index + |text| < hi && IsCString(buf, ptr.index, text)
  }

  /** The slot of a column that was taken points at its content, and no other slot has changed. */
  ghost predicate Filled(trims: set<Byte>, p: QuotePolicy, buf: Text, row: seq<Pointer>, row0: seq<Pointer>,
                         slot: int, line: nat, raw: Text) {
    if slot == -1 then row == row0
    else
      && 0 <= slot < |row| && |row| == |row0| && row == row0[slot := row[slot]]
      && PointsAt(buf, row[slot], Field(trims, p, raw), line, line + |raw| + 1)
  }

  /** Takes one column and, unless its slot is -1, cleans it and points its slot at it. */
  method TakeColumn(trims: set<Byte>, p: QuotePolicy, buffer: array<Byte>, line: nat,
                    row: array<Pointer>, slot: int, ghost rest: Text)
    returns (next: Option<Pointer>)
    requires IsCString(buffer[..], line, rest) && -1 <= slot < row.Length
    modifies buffer, row
    ensures next.None? <==> ColumnEnd(p, rest).None?
    ensures next.None? ==> buffer[..] == old(buffer[..]) && row[..] == old(row[..])
    ensures next.Some? ==>
      && Taken(p, old(buffer[..]), buffer[..], line, rest, next.value)
      && Filled(trims, p, buffer[..], row[..], old(row[..]), slot, line, rest[..ColumnEnd(p, rest).value])
  {
    ghost var before := buffer[..];
    var begin, end;
    next, begin, end := ChopNextColumn(p, buffer, line, rest);
    if next.Some? {
      ghost var e, chopped := end - line, buffer[..];
      ChoppedText(before, chopped, line, rest, e);
      assert buffer[begin..end] == chopped[begin..end];
      if slot != -1 {
        var col := CleanColumn(trims, p, buffer, begin, end);
        OnlyChangedStep(before, chopped, buffer[..], line, end, line, end);
        row[slot] := At(col);
      }
      TakenWhen(p, before, buffer[..], line, rest, e, next.value);
    }
  }

  /** Every slot that has been fed points at its content, inside the bytes from `lo` to `hi`; the
      others are as they were. */
  ghost predicate Delivered(buf: Text, row: seq<Pointer>, row0: seq<Pointer>, cells: map<int, Text>, lo: nat, hi: nat) {
    && |row| == |row0|
    && (forall s :: s in cells ==> 0 <= s < |row| && PointsAt(buf, row[s], cells[s], lo, hi))
    && (forall s :: 0 <= s < |row| && s !in cells ==> row[s] == row0[s])
  }

  /** Taking a further column disturbs no column delivered before. */
  lemma DeliveredStep(trims: set<Byte>, p: QuotePolicy, buf: Text, buf': Text, row0: seq<Pointer>,
                      row: seq<Pointer>, row': seq<Pointer>, cells: map<int, Text>, lo: nat, hi: nat,
                      slot: int, raw: Text)
    requires Delivered(buf, row, row0, cells, lo, hi) && lo <= hi
    requires OnlyChanged(buf, buf', hi, hi + |raw|)
    requires Filled(trims, p, buf', row', row, slot, hi, raw) && -1 <= slot
    ensures var cells' := if slot == -1 then cells else cells[slot := Field(trims, p, raw)];
      Delivered(buf', row', row0, cells', lo, hi + |raw| + 1)
  {
    forall s | s in cells && s != slot
      ensures row'[s] == row[s] && PointsAt(buf', row[s], cells[s], lo, hi)
    {
      CStringKept(buf, buf', row[s].index, cells[s]);
    }
  }

  // ----- parse_line -----

  /** What is behind the column that ends at `e`. */
  function Behind(rest: Text, e: nat): Text {
    if e < |rest| then rest[e + 1..] else []
  }

  /** The columns taken so far and those of the rest make up the columns of the line. */
  ghost predicate Accounts(p: QuotePolicy, text: Text, taken: seq<Text>, cur: Pointer, rest: Text) {
    RawColumns(p, text) ==
      if cur.Null? then Columns(taken, true)
      else Columns(taken + RawColumns(p, rest).cols, RawColumns(p, rest).closed)
  }

  lemma AccountsStep(p: QuotePolicy, text: Text, taken: seq<Text>, cur: Pointer, rest: Text, e: nat, next: Pointer)
    requires Accounts(p, text, taken, cur, rest) && cur.At? && ColumnEnd(p, rest) == Some(e) && e <= |rest|
    requires next.Null? <==> e == |rest|
    ensures Accounts(p, text, taken + [rest[..e]], next, Behind(rest, e))
  {
    EndInRange(p, rest, 0, false);
    assert rest[..|rest|] == rest;
    if e < |rest| {
      var tail := RawColumns(p, rest[e + 1..]).cols;
      assert taken + ([rest[..e]] + tail) == (taken + [rest[..e]]) + tail;
    }
  }

  /** How far parsing has come: columns taken, the cells they fed, the pointer to what is left, and
      what that denotes. */
  datatype Progress = Progress(taken: seq<Text>, cells: map<int, Text>, cur: Pointer, rest: Text)

  function Advance(trims: set<Byte>, p: QuotePolicy, g: Progress, slot: int, e: nat, next: Pointer): Progress
    requires e <= |g.rest|
  {
    var raw := g.rest[..e];
    Progress(g.taken + [raw],
             if slot == -1 then g.cells else g.cells[slot := Field(trims, p, raw)],
             next,
             Behind(g.rest, e))
  }

  /** The first index of the line that columns taken later may write. */
  ghost function Limit(line: nat, text: Text, cur: Pointer): nat {
    if cur.At? then cur.index else line + |text| + 1
  }

  /** What is left of the line is still there. */
  ghost predicate Remains(text: Text, line: nat, buf: Text, cur: Pointer, rest: Text) {
    cur.At? ==> line <= cur.index && cur.index + |rest| == line + |text| && IsCString(buf, cur.index, rest)
  }

  /** What was taken is delivered, what is left is still there, and nothing else has changed. */
  ghost predicate Reached(text: Text, line: nat, buf: Text, row: seq<Pointer>, buf0: Text, row0: seq<Pointer>,
                          g: Progress) {
    && Remains(text, line, buf, g.cur, g.rest)
    && Delivered(buf, row, row0, g.cells, line, Limit(line, text, g.cur))
    && OnlyChanged(buf0, buf, line, line + |text|)
  }

  lemma RemainsStep(trims: set<Byte>, p: QuotePolicy, text: Text, line: nat, slot: int,
                    buf: Text, buf': Text, g: Progress, e: nat, next: Pointer)
    requires g.cur.At? && Remains(text, line, buf, g.cur, g.rest)
    requires ColumnEnd(p, g.rest) == Some(e) && Taken(p, buf, buf', g.cur.index, g.rest, next)
    ensures var g' := Advance(trims, p, g, slot, e, next);
      && Remains(text, line, buf', next, g'.rest)
      && Limit(line, text, next) == g.cur.index + e + 1
  {
  }

  lemma ReachedStep(trims: set<Byte>, p: QuotePolicy, text: Text, line: nat, slot: int,
                    buf: Text, row: seq<Pointer>, buf': Text, row': seq<Pointer>,
                    buf0: Text, row0: seq<Pointer>, g: Progress, e: nat, next: Pointer)
    requires Reached(text, line, buf, row, buf0, row0, g)
    requires g.cur.At? && ColumnEnd(p, g.rest) == Some(e) && -1 <= slot
    requires Taken(p, buf, buf', g.cur.index, g.rest, next)
    requires Filled(trims, p, buf', row', row, slot, g.cur.index, g.rest[..e])
    ensures Reached(text, line, buf', row', buf0, row0, Advance(trims, p, g, slot, e, next))
  {
    RemainsStep(trims, p, text, line, slot, buf, buf', g, e, next);
    DeliveredStep(trims, p, buf, buf', row0, row, row', g.cells, line, g.cur.index, slot, g.rest[..e]);
    OnlyChangedStep(buf0, buf, buf', line, line + |text|, g.cur.index, g.cur.index + e);
  }

  lemma {:induction false} FieldsAppend(trims: set<Byte>, p: QuotePolicy, cols: seq<Text>, raw: Text)
    ensures Fields(trims, p, cols + [raw]) == Fields(trims, p, cols) + [Field(trims, p, raw)]
  {
  }

  /** The ghost record is right about the cells of the first `i` columns. */
  ghost predicate Feeds(trims: set<Byte>, p: QuotePolicy, order: seq<int>, i: nat, g: Progress) {
    && i <= |order| && |g.taken| == i
    && g.cells == Cells(order[..i], Fields(trims, p, g.taken))
  }

  lemma FeedsOneMore(trims: set<Byte>, p: QuotePolicy, order: seq<int>, slot: int, taken: seq<Text>, raw: Text)
    requires |order| == |taken|
    ensures var cells := Cells(order, Fields(trims, p, taken));
      Cells(order + [slot], Fields(trims, p, taken + [raw]))
        == if slot == -1 then cells else cells[slot := Field(trims, p, raw)]
  {
    FieldsAppend(trims, p, taken, raw);
    CellsAppend(order, Fields(trims, p, taken), slot, Field(trims, p, raw));
  }

  lemma FeedsStep(trims: set<Byte>, p: QuotePolicy, order: seq<int>, i: nat, g: Progress, e: nat, next: Pointer)
    requires i < |order| && e <= |g.rest| && Feeds(trims, p, order, i, g)
    ensures Feeds(trims, p, order, i + 1, Advance(trims, p, g, order[i], e, next))
  {
    var raw := g.rest[..e];
    FeedsOneMore(trims, p, order[..i], order[i], g.taken, raw);
    assert order[..i + 1] == order[..i] + [order[i]];
  }

  /** Parsing ends where a column is missing, unclosed or no longer wanted. */
  lemma ParsingEnds(trims: set<Byte>, p: QuotePolicy, text: Text, order: seq<int>, i: nat, g: Progress)
    requires Feeds(trims, p, order, i, g) && Accounts(p, text, g.taken, g.cur, g.rest)
    requires i == |order| || g.cur.Null? || ColumnEnd(p, g.rest).None?
    ensures g.cells == LineCells(trims, p, text, order)
    ensures LineOutcome(RawColumns(p, text), |order|) ==
      if i < |order| then (if g.cur.Null? then TooFewColumns else EscapedStringNotClosed)
      else if g.cur.Null? then Parsed else TooManyColumns
  {
    var c := RawColumns(p, text);
    assert c.cols[..i] == g.taken;
    if g.cur.At? && ColumnEnd(p, g.rest).None? {
      assert c == Columns(g.taken + [], false);
    }
    assert DeliveredCount(c, |order|) == i;
  }

  /** The first `i` columns are parsed: the record is right about the cells that they feed and about what is
      left of the line. */
  ghost predicate ParsedTo(trims: set<Byte>, p: QuotePolicy, text: Text, order: seq<int>, i: nat, g: Progress) {
    Feeds(trims, p, order, i, g) && Accounts(p, text, g.taken, g.cur, g.rest)
  }

  lemma ParsedStep(trims: set<Byte>, p: QuotePolicy, text: Text, order: seq<int>, i: nat, g: Progress,
                   e: nat, next: Pointer)
    requires i < |order| && ParsedTo(trims, p, text, order, i, g) && g.cur.At?
    requires ColumnEnd(p, g.rest) == Some(e) && e <= |g.rest| && (next.Null? <==> e == |g.rest|)
    ensures ParsedTo(trims, p, text, order, i + 1, Advance(trims, p, g, order[i], e, next))
  {
    AccountsStep(p, text, g.taken, g.cur, g.rest, e, next);
    FeedsStep(trims, p, order, i, g, e, next);
  }

  /** Parses the next column of a line. */
  method ParseColumn(trims: set<Byte>, p: QuotePolicy, buffer: array<Byte>, line: nat, cur: nat,
                     row: array<Pointer>, colOrder: seq<int>, i: nat,
                     ghost text: Text, ghost buf0: Text, ghost row0: seq<Pointer>, ghost g: Progress)
    returns (next: Option<Pointer>, ghost g': Progress)
    requires i < |colOrder| && -1 <= colOrder[i] < row.Length && g.cur == At(cur)
    requires ParsedTo(trims, p, text, colOrder, i, g)
    requires Reached(text, line, buffer[..], row[..], buf0, row0, g)
    modifies buffer, row
    ensures next.None? ==> ColumnEnd(p, g.rest).None? && g' == g
    ensures next.None? ==> Reached(text, line, buffer[..], row[..], buf0, row0, g)
    ensures next.Some? ==> g'.cur == next.value && ParsedTo(trims, p, text, colOrder, i + 1, g')
    ensures next.Some? ==> Reached(text, line, buffer[..], row[..], buf0, row0, g')
  {
    g' := g;
    ghost var before, rowBefore := buffer[..], row[..];
    next := TakeColumn(trims, p, buffer, cur, row, colOrder[i], g.rest);
    if next.Some? {
      ghost var e := ColumnEnd(p, g.rest).value;
      g' := Advance(trims, p, g, colOrder[i], e, next.value);
      ParsedStep(trims, p, text, colOrder, i, g, e, next.value);
      ReachedStep(trims, p, text, line, colOrder[i], before, rowBefore, buffer[..], row[..],
                  buf0, row0, g, e, next.value);
    }
  }

  /** Parses a line in place: slot `colOrder[i]` comes to point at the content of column `i`. */
  method ParseLine(trims: set<Byte>, p: QuotePolicy, buffer: array<Byte>, line: nat,
                   row: array<Pointer>, colOrder: seq<int>, ghost text: Text)
    returns (outcome: RowOutcome)
    requires IsCString(buffer[..], line, text)
    requires forall i :: 0 <= i < |colOrder| ==> -1 <= colOrder[i] < row.Length
    modifies buffer, row
    ensures outcome == LineOutcome(RawColumns(p, text), |colOrder|)
    ensures Delivered(buffer[..], row[..], old(row[..]), LineCells(trims, p, text, colOrder), line, line + |text| + 1)
    ensures OnlyChanged(old(buffer[..]), buffer[..], line, line + |text|)
  {
    ghost var buf0, row0 := buffer[..], row[..];
    var cur := At(line);
    ghost var g := Progress([], map[], cur, text);
    var i := 0;
    assert colOrder[..0] == [];
    while i < |colOrder|
      invariant g.cur == cur && i <= |colOrder| && ParsedTo(trims, p, text, colOrder, i, g)
      invariant Reached(text, line, buffer[..], row[..], buf0, row0, g)
      decreases |colOrder| - i
    {
      if cur.Null? {
        ParsingEnds(trims, p, text, colOrder, i, g);
        return TooFewColumns;
      }
      var next;
      next, g := ParseColumn(trims, p, buffer, line, cur.index, row, colOrder, i, text, buf0, row0, g);
      if next.None? {
        ParsingEnds(trims, p, text, colOrder, i, g);
        return EscapedStringNotClosed;
      }
      cur := next.value;
      i := i + 1;
    }
    ParsingEnds(trims, p, text, colOrder, i, g);
    outcome := if cur.At? then TooManyColumns else Parsed;
  }

  // ----- parse_header_line -----

  /** Copies a C string out of the buffer. */
  method ReadCString(buffer: array<Byte>, at: nat, ghost text: Text) returns (s: Text)
    requires IsCString(buffer[..], at, text)
    ensures s == text
  {
    AtIndex(buffer[..], at, text);
    var c := at;
    while buffer[c] != NUL
      invariant at <= c <= at + |text|
      decreases at + |text| - c
    {
      c := c + 1;
    }
    s := buffer[at..c];
    assert s == buffer[..][at..at + |text|];
  }

  /** Copies what a pointer into the buffer denotes, which may be nothing. */
  method ReadUpToNul(buffer: array<Byte>, at: nat) returns (s: Option<Text>)
    requires at <= buffer.Length
    ensures s == if NUL in buffer[at..] then Some(UpToNul(buffer[at..])) else None
  {
    var c := at;
    while c < buffer.Length && buffer[c] != NUL
      invariant at <= c <= buffer.Length && NUL !in buffer[at..c]
    {
      c := c + 1;
    }
    if c == buffer.Length {
      return None;
    }
    UpToNulIs(buffer[at..], c - at);
    assert buffer[at..][..c - at] == buffer[at..c] && buffer[at..][c - at] == NUL;
    s := Some(buffer[at..c]);
  }

  /** The loop over the requested names. */
  method FindName(names: seq<Text>, name: Text) returns (r: Option<nat>)
    ensures r == IndexOf(names, name)
  {
    var i := 0;
    while i < |names|
      invariant i <= |names| && name !in names[..i]
    {
      if names[i] == name {
        IndexOfFirst(names, i);
        return Some(i);
      }
      i := i + 1;
    }
    r := None;
  }

  /** The columns still to come. */
  function Left(p: QuotePolicy, cur: Pointer, rest: Text): Columns {
    if cur.Null? then Columns([], true) else RawColumns(p, rest)
  }

  lemma LeftStep(trims: set<Byte>, p: QuotePolicy, rest: Text, e: nat, next: Pointer)
    requires ColumnEnd(p, rest) == Some(e) && e <= |rest| && (next.Null? <==> e == |rest|)
    ensures var left := Left(p, next, Behind(rest, e));
      && RawColumns(p, rest).closed == left.closed
      && Fields(trims, p, RawColumns(p, rest).cols)
           == [Field(trims, p, rest[..e])] + Fields(trims, p, left.cols)
  {
    EndInRange(p, rest, 0, false);
    assert rest[..|rest|] == rest;
    var left := Left(p, next, Behind(rest, e));
    assert RawColumns(p, rest).cols == [rest[..e]] + left.cols;
  }

  /** The flags of the columns found say which slots are in the order. */
  ghost predicate Flags(found: seq<bool>, order: seq<int>) {
    forall i :: 0 <= i < |found| ==> (found[i] <==> i in order)
  }

  /** Takes the name of one column off a header line. */
  method TakeName(trims: set<Byte>, p: QuotePolicy, buffer: array<Byte>, line: nat, ghost rest: Text)
    returns (next: Option<Pointer>, name: Text)
    requires IsCString(buffer[..], line, rest)
    modifies buffer
    ensures next.None? <==> ColumnEnd(p, rest).None?
    ensures next.None? ==> buffer[..] == old(buffer[..])
    ensures next.Some? ==>
      && Taken(p, old(buffer[..]), buffer[..], line, rest, next.value)
      && name == Field(trims, p, rest[..ColumnEnd(p, rest).value])
  {
    ghost var before := buffer[..];
    var begin, end;
    next, begin, end := ChopNextColumn(p, buffer, line, rest);
    name := [];
    if next.Some? {
      ghost var e, chopped := end - line, buffer[..];
      ChoppedText(before, chopped, line, rest, e);
      assert buffer[begin..end] == chopped[begin..end];
      var col := CleanColumn(trims, p, buffer, begin, end);
      OnlyChangedStep(before, chopped, buffer[..], line, end, line, end);
      TakenWhen(p, before, buffer[..], line, rest, e, next.value);
      name := ReadCString(buffer, col, Field(trims, p, rest[..e]));
    }
  }

  /** Looks up one column name and extends the order, or refuses the column. */
  method RecordName(names: seq<Text>, name: Text, extraOk: bool, found: seq<bool>, order: seq<int>,
                    ghost rest: seq<Text>)
    returns (found': seq<bool>, order': seq<int>, error: Option<HeaderError>)
    requires |found| == |names| && Flags(found, order)
    ensures |found'| == |names| && Flags(found', order') && (error.Some? ==> order' == order)
    ensures Walk([name] + rest, names, extraOk, order) ==
      if error.Some? then HeaderState(order, error) else Walk(rest, names, extraOk, order')
  {
    found', order' := found, order;
    assert ([name] + rest)[1..] == rest;
    var i := FindName(names, name);
    if i.Some? {
      if found[i.value] {
        return found, order, Some(DuplicatedColumn(name));
      }
      found' := found[i.value := true];
      order' := order + [i.value];
    } else if extraOk {
      order' := order + [-1];
    } else {
      return found, order, Some(ExtraColumn(name));
    }
    error := None;
  }

  /** What is left of a header line, and what it will add to the order. */
  ghost predicate HeaderLeft(trims: set<Byte>, p: QuotePolicy, names: seq<Text>, extraOk: bool, all: Columns,
                             text: Text, line: nat, buf: Text, cur: Pointer, rest: Text, order: seq<int>) {
    && Remains(text, line, buf, cur, rest)
    && all.closed == Left(p, cur, rest).closed
    && Walk(Fields(trims, p, all.cols), names, extraOk, [])
         == Walk(Fields(trims, p, Left(p, cur, rest).cols), names, extraOk, order)
  }

  lemma RestRemains(p: QuotePolicy, text: Text, line: nat, buf: Text, buf': Text, cur: Pointer, rest: Text,
                    e: nat, next: Pointer, rest': Text)
    requires Remains(text, line, buf, cur, rest) && cur.At? && rest' == Behind(rest, e)
    requires ColumnEnd(p, rest) == Some(e) && e <= |rest| && Taken(p, buf, buf', cur.index, rest, next)
    ensures Remains(text, line, buf', next, rest')
  {
  }

  lemma HeaderLeftStep(trims: set<Byte>, p: QuotePolicy, names: seq<Text>, extraOk: bool, all: Columns,
                       text: Text, line: nat, buf: Text, buf': Text, cur: Pointer, rest: Text, order: seq<int>,
                       e: nat, next: Pointer, order': seq<int>, rest': Text, later: seq<Text>)
    requires HeaderLeft(trims, p, names, extraOk, all, text, line, buf, cur, rest, order) && cur.At?
    requires ColumnEnd(p, rest) == Some(e) && e <= |rest| && Taken(p, buf, buf', cur.index, rest, next)
    requires rest' == Behind(rest, e) && later == Fields(trims, p, Left(p, next, rest').cols)
    requires Walk([Field(trims, p, rest[..e])] + later, names, extraOk, order) == Walk(later, names, extraOk, order')
    ensures HeaderLeft(trims, p, names, extraOk, all, text, line, buf', next, rest', order')
  {
    LeftStep(trims, p, rest, e, next);
    RestRemains(p, text, line, buf, buf', cur, rest, e, next, rest');
  }

  /** The loop over the columns of a header line. */
  method ScanHeader(trims: set<Byte>, p: QuotePolicy, buffer: array<Byte>, line: nat,
                    names: seq<Text>, extraOk: bool, ghost text: Text)
    returns (found: seq<bool>, order: seq<int>, error: Option<HeaderError>)
    requires IsCString(buffer[..], line, text)
    modifies buffer
    ensures |found| == |names| && Flags(found, order)
    ensures var c := RawColumns(p, text);
      var w := Walk(Fields(trims, p, c.cols), names, extraOk, []);
      order == w.order && error == if w.error.None? && !c.closed then Some(HeaderNotClosed) else w.error
    ensures OnlyChanged(old(buffer[..]), buffer[..], line, line + |text|)
  {
    order, error := [], None;
    found := seq(|names|, _ => false);
    var cur := At(line);
    ghost var rest := text;
    ghost var all := RawColumns(p, text);
    while cur.At?
      invariant HeaderLeft(trims, p, names, extraOk, all, text, line, buffer[..], cur, rest, order)
      invariant OnlyChanged(old(buffer[..]), buffer[..], line, line + |text|)
      invariant |found| == |names| && Flags(found, order) && error.None?
      decreases if cur.At? then |rest| + 1 else 0
    {
      ghost var before := buffer[..];
      var next, name := TakeName(trims, p, buffer, cur.index, rest);
      if next.None? {
        error := Some(HeaderNotClosed);
        return;
      }
      ghost var e := ColumnEnd(p, rest).value;
      ghost var order0 := order;
      LeftStep(trims, p, rest, e, next.value);
      OnlyChangedStep(old(buffer[..]), before, buffer[..], line, line + |text|, cur.index, cur.index + e);
      ghost var later := Fields(trims, p, Left(p, next.value, Behind(rest, e)).cols);
      found, order, error := RecordName(names, name, extraOk, found, order, later);
      if error.Some? {
        return;
      }
      HeaderLeftStep(trims, p, names, extraOk, all, text, line, before, buffer[..], cur, rest, order0,
                     e, next.value, order, Behind(rest, e), later);
      cur := next.value;
      rest := Behind(rest, e);
    }
  }

  /** Parses the header line in place into a column order. */
  method ParseHeaderLine(trims: set<Byte>, p: QuotePolicy, buffer: array<Byte>, line: nat,
                         names: seq<Text>, ignore: IgnorePolicy, ghost text: Text)
    returns (order: seq<int>, error: Option<HeaderError>)
    requires IsCString(buffer[..], line, text)
    modifies buffer
    ensures var c := RawColumns(p, text);
      HeaderState(order, error) == HeaderOf(Fields(trims, p, c.cols), c.closed, names, ignore)
    ensures OnlyChanged(old(buffer[..]), buffer[..], line, line + |text|)
  {
    var found;
    found, order, error := ScanHeader(trims, p, buffer, line, names, ignore.extra, text);
    if error.None? && !ignore.missing {
      var m := CheckFound(names, found, order);
      if m.Some? {
        error := Some(MissingColumn(names[m.value]));
      }
    }
  }

  /** The loop over the flags. */
  method CheckFound(names: seq<Text>, found: seq<bool>, ghost order: seq<int>) returns (m: Option<nat>)
    requires |found| == |names| && Flags(found, order)
    ensures m == FirstMissing(names, order, 0)
    ensures m.Some? ==> m.value < |names|
  {
    var i := 0;
    while i < |names|
      invariant i <= |names|
      invariant FirstMissing(names, order, 0) == FirstMissing(names, order, i)
    {
      if !found[i] {
        return Some(i);
      }
      i := i + 1;
    }
    m := None;
  }
}
