/**
 Whole files, on plain byte sequences: what reading a header and then rows until none is left
 yields, and that it gives back every table that was written.
 */
module Tables {
  import opened Bytes
  import opened Lines
  import opened Quoting
  import opened Rows
  import opened Headers

  /** The template arguments of a reader, and how its buffer meets the end of the file. */
  datatype Config = Config(trims: set<Byte>, policy: QuotePolicy, blockLen: nat, tail: Byte)

  type Row = seq<Option<Text>>

  datatype HeaderResult =
    | HeaderRead
    | HeaderMissing
    | HeaderFailed(error: HeaderError)
    | HeaderTooLong
    | HeaderAborted

  /** What read_row does; the last is to run past the end of the buffer through a slot that an earlier
      header has left. */
  datatype RowResult =
    | RowRead(row: Row)
    | NoMoreRows
    | RowFailed(outcome: RowOutcome)
    | RowTooLong
    | RowAborted
    | RowPastBuffer

  /** How many columns are delivered before parsing a line ends. */
  function DeliveredCount(c: Columns, n: nat): nat {
    if n < |c.cols| then n else |c.cols|
  }

  /** The cells that parsing a line feeds, whether it succeeds or not. */
  function LineCells(trims: set<Byte>, p: QuotePolicy, text: Text, order: seq<int>): map<int, Text> {
    var c := RawColumns(p, text);
    var m := DeliveredCount(c, |order|);
    Cells(order[..m], Fields(trims, p, c.cols[..m]))
  }

  /** The values handed out for `n` requested columns; a slot without content leaves its value alone. */
  function RowOf(cells: map<int, Text>, n: nat): (r: Row)
    ensures |r| == n
  {
    seq(n, k => if k in cells then Some(cells[k]) else None)
  }

  /** What read_row reports for an event of the file. */
  function RowResultOf(e: Event, g: Config, order: seq<int>, n: nat): RowResult {
    match e
    case EndOfInput => NoMoreRows
    case LineTooLong => RowTooLong
    case AssertionFailed => RowAborted
    case Line(line) =>
      var text := UpToNul(line);
      var o := LineOutcome(RawColumns(g.policy, text), |order|);
      if o == Parsed then RowRead(RowOf(LineCells(g.trims, g.policy, text, order), n)) else RowFailed(o)
  }

  /** What read_header reports for an event of the file, and the column order after it. */
  function HeaderResultOf(e: Event, g: Config, names: seq<Text>, ignore: IgnorePolicy, order: seq<int>)
    : (HeaderResult, seq<int>)
  {
    match e
    case EndOfInput => (HeaderMissing, order)
    case LineTooLong => (HeaderTooLong, order)
    case AssertionFailed => (HeaderAborted, order)
    case Line(line) =>
      var c := RawColumns(g.policy, UpToNul(line));
      var h := HeaderOf(Fields(g.trims, g.policy, c.cols), c.closed, names, ignore);
      (if h.error.None? then HeaderRead else HeaderFailed(h.error.value), h.order)
  }

  /** What is left to read at a cursor, as a measure. */
  function Measure(c: Cursor): nat {
    if c.Overrun? then 0 else |c.rest| + 1
  }

  lemma LineShortens(c: Cursor, g: Config)
    ensures var (e, c') := Next(c, g.blockLen, g.tail);
      && (e.Line? ==> Measure(c') < Measure(c))
      && (!e.Line? ==> c' == c)
  {
  }

  /** The rows read from a cursor on until one is not there or cannot be read, and why it ended. */
  function RowsFrom(c: Cursor, g: Config, order: seq<int>, n: nat): (seq<Row>, RowResult)
    decreases Measure(c)
  {
    var (e, c') := Next(c, g.blockLen, g.tail);
    LineShortens(c, g);
    var r := RowResultOf(e, g, order, n);
    if r.RowRead? then
      var (rows, end) := RowsFrom(c', g, order, n);
      ([r.row] + rows, end)
    else ([], r)
  }

  // ----- what is reported -----

  /** What read_row comes to for an event of the file when `width` columns are wanted: the end of the rows at
      the end of the file and nowhere else; and for a line, the error that its separators and quotes call
      for, or a row. */
  ghost predicate RowReport(p: QuotePolicy, e: Event, width: nat, r: RowResult) {
    match e
    case EndOfInput => r == NoMoreRows
    case LineTooLong => r == RowTooLong
    case AssertionFailed => r == RowAborted
    case Line(line) =>
      var (text, columns) := (UpToNul(line), Separators(p, UpToNul(line)) + 1);
      if width < columns then r == RowFailed(TooManyColumns)
      else if Open(p, text) then r == RowFailed(EscapedStringNotClosed)
      else if columns < width then r == RowFailed(TooFewColumns)
      else r.RowRead? || r.RowPastBuffer?
  }

  lemma RowIsReported(e: Event, g: Config, order: seq<int>, n: nat)
    requires !IsQuote(g.policy, g.policy.sep)
    ensures RowReport(g.policy, e, |order|, RowResultOf(e, g, order, n))
    ensures !RowResultOf(e, g, order, n).RowPastBuffer?
  {
    if e.Line? {
      ParsesIffCountMatches(g.policy, UpToNul(e.text), |order|);
    }
  }

  /** A row that is read has in each column of the order the content of the last column of the line that feeds
      it, and nothing in the others. */
  lemma RowContents(line: Text, g: Config, order: seq<int>, n: nat, slot: int)
    requires RowResultOf(Line(line), g, order, n).RowRead? && 0 <= slot < n
    ensures var (row, cols) := (RowResultOf(Line(line), g, order, n).row, RawColumns(g.policy, UpToNul(line)).cols);
      && |row| == n && |cols| == |order|
      && (slot !in order ==> row[slot] == None)
      && forall k :: 0 <= k < |order| && order[k] == slot && slot !in order[k + 1..] ==>
           row[slot] == Some(Field(g.trims, g.policy, cols[k]))
  {
    var cols := RawColumns(g.policy, UpToNul(line)).cols;
    assert order[..|order|] == order && cols[..|cols|] == cols;
    CellsKeys(order, Fields(g.trims, g.policy, cols));
    forall k | 0 <= k < |order| && order[k] == slot && slot !in order[k + 1..]
      ensures slot in Cells(order, Fields(g.trims, g.policy, cols))
      ensures Cells(order, Fields(g.trims, g.policy, cols))[slot] == Field(g.trims, g.policy, cols[k])
    {
      assert forall j :: k < j < |order| ==> order[j] == order[k + 1..][j - k - 1];
      CellsMeaning(order, Fields(g.trims, g.policy, cols), k);
    }
  }

  /** What read_header comes to, and the column order after it: nothing changes if there is no header; and a
      line is judged as a header by the names of its columns. */
  ghost predicate HeaderReport(g: Config, e: Event, names: seq<Text>, ignore: IgnorePolicy, before: seq<int>,
                               r: HeaderResult, order: seq<int>) {
    match e
    case EndOfInput => r == HeaderMissing && order == before
    case LineTooLong => r == HeaderTooLong && order == before
    case AssertionFailed => r == HeaderAborted && order == before
    case Line(line) =>
      var text := UpToNul(line);
      var error := if r.HeaderFailed? then Some(r.error) else None;
      (r.HeaderRead? || r.HeaderFailed?) &&
      IsVerdict(Fields(g.trims, g.policy, RawColumns(g.policy, text).cols), !Open(g.policy, text), names, ignore,
                HeaderState(order, error))
  }

  lemma HeaderIsReported(e: Event, g: Config, names: seq<Text>, ignore: IgnorePolicy, before: seq<int>)
    requires !IsQuote(g.policy, g.policy.sep)
    ensures var (r, order) := HeaderResultOf(e, g, names, ignore, before);
      HeaderReport(g, e, names, ignore, before, r, order)
  {
    if e.Line? {
      var text := UpToNul(e.text);
      ColumnCount(g.policy, text);
      var c := RawColumns(g.policy, text);
      var n := HeaderIsJudged(Fields(g.trims, g.policy, c.cols), c.closed, names, ignore);
      var (r, order) := HeaderResultOf(e, g, names, ignore, before);
      assert HeaderState(order, if r.HeaderFailed? then Some(r.error) else None)
        == HeaderOf(Fields(g.trims, g.policy, c.cols), c.closed, names, ignore);
    }
  }

  /** Event number `i` from a cursor on. */
  function EventFrom(c: Cursor, g: Config, i: nat): Event {
    Next(CursorAfter(c, g.blockLen, g.tail, i), g.blockLen, g.tail).0
  }

  ghost predicate RowReportAt(c: Cursor, g: Config, width: nat, rows: seq<Row>, i: nat)
    requires i < |rows|
  {
    RowReport(g.policy, EventFrom(c, g, i), width, RowRead(rows[i]))
  }

  /** The rows are those of the lines up to the first event that gives none, and that says why they end. */
  ghost predicate RowsReport(c: Cursor, g: Config, width: nat, rows: seq<Row>, end: RowResult) {
    && (forall i :: 0 <= i < |rows| ==> RowReportAt(c, g, width, rows, i))
    && !end.RowRead? && !end.RowPastBuffer? && RowReport(g.policy, EventFrom(c, g, |rows|), width, end)
  }

  lemma {:induction false} RowsAreReported(c: Cursor, g: Config, order: seq<int>, n: nat)
    requires !IsQuote(g.policy, g.policy.sep)
    ensures RowsReport(c, g, |order|, RowsFrom(c, g, order, n).0, RowsFrom(c, g, order, n).1)
    decreases Measure(c)
  {
    var (e, c') := Next(c, g.blockLen, g.tail);
    LineShortens(c, g);
    RowIsReported(e, g, order, n);
    var r := RowResultOf(e, g, order, n);
    if r.RowRead? {
      RowsAreReported(c', g, order, n);
      ReportsShift(c, c', g, |order|, r.row, RowsFrom(c', g, order, n).0, RowsFrom(c', g, order, n).1);
    }
  }

  lemma EventShifts(c: Cursor, c': Cursor, g: Config, i: nat)
    requires c' == Next(c, g.blockLen, g.tail).1
    ensures EventFrom(c, g, i + 1) == EventFrom(c', g, i)
  {
  }

  lemma ReportShifts(c: Cursor, c': Cursor, g: Config, width: nat, row: Row, rows: seq<Row>, i: nat)
    requires c' == Next(c, g.blockLen, g.tail).1 && i < |rows| && RowReportAt(c', g, width, rows, i)
    ensures RowReportAt(c, g, width, [row] + rows, i + 1)
  {
    EventShifts(c, c', g, i);
  }

  lemma ReportsShift(c: Cursor, c': Cursor, g: Config, width: nat, row: Row, rows: seq<Row>, end: RowResult)
    requires c' == Next(c, g.blockLen, g.tail).1 && RowsReport(c', g, width, rows, end)
    requires RowReport(g.policy, EventFrom(c, g, 0), width, RowRead(row))
    ensures RowsReport(c, g, width, [row] + rows, end)
  {
    var all := [row] + rows;
    forall i | 0 <= i < |all|
      ensures RowReportAt(c, g, width, all, i)
    {
      if i > 0 {
        ReportShifts(c, c', g, width, row, rows, i - 1);
      }
    }
    EventShifts(c, c', g, |rows|);
  }

  /** The event is a line with as many columns as are wanted and no open quote. */
  ghost predicate IsRow(p: QuotePolicy, e: Event, width: nat) {
    e.Line? && !Open(p, UpToNul(e.text)) && Separators(p, UpToNul(e.text)) + 1 == width
  }

  /** Rows up to number `m`, and there the end of the file. */
  ghost predicate AllRowsUpTo(c: Cursor, g: Config, width: nat, m: nat) {
    EventFrom(c, g, m) == EndOfInput && forall i :: 0 <= i < m ==> IsRow(g.policy, EventFrom(c, g, i), width)
  }

  /** Main result: the rows end without an error if and only if every line up to the end of the file is a row;
      the first that is not ends them with its error. */
  lemma EndsWellIff(c: Cursor, g: Config, order: seq<int>, n: nat)
    requires !IsQuote(g.policy, g.policy.sep)
    ensures RowsFrom(c, g, order, n).1 == NoMoreRows <==> exists m: nat :: AllRowsUpTo(c, g, |order|, m)
  {
    var (rows, end) := RowsFrom(c, g, order, n);
    RowsAreReported(c, g, order, n);
    forall i | 0 <= i < |rows|
      ensures IsRow(g.policy, EventFrom(c, g, i), |order|)
    {
      assert RowReportAt(c, g, |order|, rows, i);
    }
    if end == NoMoreRows {
      assert AllRowsUpTo(c, g, |order|, |rows|);
    }
    forall m: nat | AllRowsUpTo(c, g, |order|, m)
      ensures end == NoMoreRows
    {
      if m < |rows| {
        assert IsRow(g.policy, EventFrom(c, g, m), |order|);
      } else if |rows| < m {
        assert IsRow(g.policy, EventFrom(c, g, |rows|), |order|);
      }
    }
  }

  // ----- writing a table -----

  /** How a row is written: each of its cells in its own way, and which line ending it has. */
  datatype Layout = Layout(spellings: seq<Spelling>, crlf: bool)

  function WrittenLine(p: QuotePolicy, cells: seq<Text>, layout: Layout): Written
    requires |layout.spellings| == |cells|
  {
    Written(WrittenRow(p, cells, layout.spellings), layout.crlf)
  }

  /** The row can be written so, on a line of a C text file that fits in a block. */
  ghost predicate Writes(trims: set<Byte>, p: QuotePolicy, blockLen: nat, cells: seq<Text>, layout: Layout) {
    && cells != [] && CanSpellAll(trims, p, cells, layout.spellings)
    && var l := WrittenLine(p, cells, layout); l.Clear(blockLen) && 0 !in l.text
  }

  lemma {:induction false} DoubleBytes(q: Byte, s: Text, b: Byte)
    requires b != q && b !in s
    ensures b !in Double(q, s)
  {
    if s != [] {
      DoubleBytes(q, s[1..], b);
    }
  }

  lemma {:induction false} JoinedBytes(sep: Byte, cells: seq<Text>, b: Byte)
    requires b != sep && forall i :: 0 <= i < |cells| ==> b !in cells[i]
    ensures b !in Join(sep, cells)
  {
    if |cells| > 1 {
      JoinedBytes(sep, cells[1..], b);
    }
  }

  /** The byte is neither in the cells and their padding nor a separator or quote. */
  ghost predicate Foreign(p: QuotePolicy, cells: seq<Text>, sps: seq<Spelling>, b: Byte)
    requires |sps| == |cells|
  {
    && b != p.sep && (p.DoubleQuoteEscape? ==> b != p.quote)
    && forall i :: 0 <= i < |cells| ==> b !in cells[i] && b !in sps[i].before && b !in sps[i].after
  }

  /** Then it is not in the written row either. */
  lemma WrittenBytes(p: QuotePolicy, cells: seq<Text>, sps: seq<Spelling>, b: Byte)
    requires |sps| == |cells| && Foreign(p, cells, sps, b)
    ensures b !in WrittenRow(p, cells, sps)
  {
    forall i | 0 <= i < |cells|
      ensures b !in SpellAll(p, cells, sps)[i]
    {
      if p.DoubleQuoteEscape? {
        DoubleBytes(p.quote, cells[i], b);
      }
    }
    JoinedBytes(p.sep, SpellAll(p, cells, sps), b);
  }

  /** So cells without NULs and newlines can be written whenever the line is short enough and does not end in
      a carriage return that was not meant as part of its ending. */
  lemma PlainCellsCanBeWritten(trims: set<Byte>, p: QuotePolicy, blockLen: nat, cells: seq<Text>, layout: Layout)
    requires cells != [] && CanSpellAll(trims, p, cells, layout.spellings)
    requires Foreign(p, cells, layout.spellings, 0) && Foreign(p, cells, layout.spellings, 10)
    requires var s := WrittenRow(p, cells, layout.spellings);
      |s| + 1 < blockLen && (!layout.crlf && s != [] ==> s[|s| - 1] != 13)
    ensures Writes(trims, p, blockLen, cells, layout)
  {
    WrittenBytes(p, cells, layout.spellings, 0);
    WrittenBytes(p, cells, layout.spellings, 10);
  }

  /** A written row is taken apart into its cells, and parsed into them. */
  lemma WrittenRowParses(g: Config, cells: seq<Text>, layout: Layout, order: seq<int>, n: nat)
    requires Writes(g.trims, g.policy, g.blockLen, cells, layout) && |order| == |cells|
    ensures RowResultOf(Line(WrittenLine(g.policy, cells, layout).text), g, order, n)
      == RowRead(RowOf(Cells(order, cells), n))
  {
    var s := WrittenLine(g.policy, cells, layout).text;
    UpToNulWhole(s);
    RowRoundTrip(g.trims, g.policy, cells, layout.spellings);
    var c := RawColumns(g.policy, s);
    assert |c.cols| == |cells|;
    assert c.cols[..|cells|] == c.cols && order[..|cells|] == order;
  }

  /** A rectangular table of such rows. */
  ghost predicate Writable(trims: set<Byte>, p: QuotePolicy, blockLen: nat, table: seq<seq<Text>>,
                           layouts: seq<Layout>, width: nat) {
    |layouts| == |table| && forall i :: 0 <= i < |table| ==>
      |table[i]| == width && Writes(trims, p, blockLen, table[i], layouts[i])
  }

  /** The lines of a table. */
  function EncodeTable(p: QuotePolicy, table: seq<seq<Text>>, layouts: seq<Layout>): (r: seq<Written>)
    requires |layouts| == |table| && forall i :: 0 <= i < |table| ==> |layouts[i].spellings| == |table[i]|
    ensures |r| == |table|
    ensures forall i :: 0 <= i < |table| ==> r[i] == WrittenLine(p, table[i], layouts[i])
  {
    if table == [] then [] else [WrittenLine(p, table[0], layouts[0])] + EncodeTable(p, table[1..], layouts[1..])
  }

  /** The newline behind the last line may be left out, if there is something before it. */
  predicate MayBeOpen(ls: seq<Written>, open: bool) {
    open && ls != [] ==> ls[|ls| - 1].Front() != []
  }

  lemma FirstAndRestClear(ls: seq<Written>, rest: seq<Written>, open: bool, blockLen: nat)
    requires ls != [] && rest == ls[1..] && ls[0].Clear(blockLen)
    requires forall j :: 0 <= j < |rest| ==> rest[j].Clear(blockLen)
    requires MayBeOpen(ls, open)
    ensures ClearLines(ls, open, blockLen)
  {
    assert forall j :: 0 < j < |ls| ==> ls[j] == rest[j - 1];
  }

  /** The rows of a table as they are read through a column order. */
  function Through(order: seq<int>, table: seq<seq<Text>>, n: nat): (r: seq<Row>)
    requires forall i :: 0 <= i < |table| ==> |table[i]| == |order|
    ensures |r| == |table|
    ensures forall i :: 0 <= i < |table| ==> r[i] == RowOf(Cells(order, table[i]), n)
  {
    if table == [] then [] else [RowOf(Cells(order, table[0]), n)] + Through(order, table[1..], n)
  }

  /** How reading ends behind the last line: well, unless the last newline is left out and stands in memory. */
  function EndOf(open: bool, tail: Byte): RowResult {
    if open && tail == 10 then RowAborted else NoMoreRows
  }

  /** One row is read, and what comes after it. */
  lemma RowThenRows(c: Cursor, g: Config, order: seq<int>, n: nat, line: Text, row: Row, c': Cursor)
    requires Next(c, g.blockLen, g.tail) == (Line(line), c') && RowResultOf(Line(line), g, order, n) == RowRead(row)
    ensures RowsFrom(c, g, order, n) == ([row] + RowsFrom(c', g, order, n).0, RowsFrom(c', g, order, n).1)
  {
    LineShortens(c, g);
  }

  lemma {:induction false} RowsRoundTrip(g: Config, table: seq<seq<Text>>, layouts: seq<Layout>, open: bool,
                                         order: seq<int>, n: nat)
    requires Writable(g.trims, g.policy, g.blockLen, table, layouts, |order|)
    requires ClearLines(EncodeTable(g.policy, table, layouts), open, g.blockLen)
    ensures forall i :: 0 <= i < |table| ==> |table[i]| == |order|
    ensures RowsFrom(AtLine(EncodeTable(g.policy, table, layouts), open, g.tail), g, order, n)
      == (Through(order, table, n), EndOf(open, g.tail))
  {
    if table != [] {
      var ls, rest := EncodeTable(g.policy, table, layouts), EncodeTable(g.policy, table[1..], layouts[1..]);
      assert ls[1..] == rest;
      WrittenLineIsRead(ls, open, g.blockLen, g.tail);
      ClearRest(ls, open, g.blockLen);
      WrittenRowParses(g, table[0], layouts[0], order, n);
      RowThenRows(AtLine(ls, open, g.tail), g, order, n, ls[0].text, RowOf(Cells(order, table[0]), n),
                  AtLine(rest, open, g.tail));
      RowsRoundTrip(g, table[1..], layouts[1..], open, order, n);
    }
  }

  /** Every requested column has the cell under the header of its name, and no value if there is
      none. */
  ghost predicate UnderHeaders(header: seq<Text>, cells: seq<Text>, names: seq<Text>, row: Row) {
    && |cells| == |header| && |row| == |names|
    && (forall j, k :: 0 <= j < |header| && 0 <= k < |names| && header[j] == names[k] ==> row[k] == Some(cells[j]))
    && (forall k :: 0 <= k < |names| && names[k] !in header ==> row[k] == None)
  }

  ghost predicate Distinct(names: seq<Text>) {
    forall k :: 0 <= k < |names| ==> names[k] !in names[..k]
  }

  lemma RowThroughHeader(header: seq<Text>, names: seq<Text>, ignore: IgnorePolicy, order: seq<int>, cells: seq<Text>)
    requires HeaderOf(header, true, names, ignore) == HeaderState(order, None)
    requires |cells| == |header| && Distinct(names)
    ensures |order| == |header|
    ensures UnderHeaders(header, cells, names, RowOf(Cells(order, cells), |names|))
  {
    HeaderMeaning(header, true, names, ignore);
    OrderIsPermutation(header, true, names, ignore);
    CellsKeys(order, cells);
    forall j, k | 0 <= j < |header| && 0 <= k < |names| && header[j] == names[k]
      ensures k in Cells(order, cells) && Cells(order, cells)[k] == cells[j]
    {
      IndexOfFirst(names, k);
      assert order[j] == k;
      CellsMeaning(order, cells, j);
    }
    forall k | 0 <= k < |names| && names[k] !in header
      ensures k !in Cells(order, cells)
    {
      FedIffPresent(header, names, order, k);
    }
  }

  datatype TableResult = TableRead(rows: seq<Row>, end: RowResult) | NoTable(why: HeaderResult)

  /** What a client gets: no table if the header was not read, and otherwise the rows behind it. */
  ghost predicate TableReport(c: Cursor, g: Config, names: seq<Text>, ignore: IgnorePolicy, t: TableResult) {
    exists order :: ReportThrough(c, g, names, ignore, order, t)
  }

  ghost predicate ReportThrough(c: Cursor, g: Config, names: seq<Text>, ignore: IgnorePolicy, order: seq<int>,
                                t: TableResult) {
    var (e, c') := Next(c, g.blockLen, g.tail);
    && HeaderReport(g, e, names, ignore, [], if t.NoTable? then t.why else HeaderRead, order)
    && (t.NoTable? ==> t.why != HeaderRead)
    && (t.TableRead? ==> RowsReport(c', g, |order|, t.rows, t.end))
  }

  lemma TableIsReported(c: Cursor, g: Config, names: seq<Text>, ignore: IgnorePolicy)
    requires !IsQuote(g.policy, g.policy.sep)
    ensures TableReport(c, g, names, ignore, TableOf(c, g, names, ignore))
  {
    var (e, c') := Next(c, g.blockLen, g.tail);
    HeaderIsReported(e, g, names, ignore, []);
    var (result, order) := HeaderResultOf(e, g, names, ignore, []);
    if result == HeaderRead {
      RowsAreReported(c', g, order, |names|);
    }
    assert ReportThrough(c, g, names, ignore, order, TableOf(c, g, names, ignore));
  }

  /** What a client gets that reads the header and then rows until it gets no more. */
  function TableOf(c: Cursor, g: Config, names: seq<Text>, ignore: IgnorePolicy): TableResult {
    var (e, c') := Next(c, g.blockLen, g.tail);
    var (result, order) := HeaderResultOf(e, g, names, ignore, []);
    if result != HeaderRead then NoTable(result)
    else
      var (rows, end) := RowsFrom(c', g, order, |names|);
      TableRead(rows, end)
  }

  /** The lines of a file that holds a header and a table. */
  function TableLines(p: QuotePolicy, header: seq<Text>, headerLayout: Layout, table: seq<seq<Text>>,
                      layouts: seq<Layout>): (r: seq<Written>)
    requires |headerLayout.spellings| == |header|
    requires |layouts| == |table| && forall i :: 0 <= i < |table| ==> |layouts[i].spellings| == |table[i]|
    ensures r != [] && r[0] == WrittenLine(p, header, headerLayout) && r[1..] == EncodeTable(p, table, layouts)
  {
    [WrittenLine(p, header, headerLayout)] + EncodeTable(p, table, layouts)
  }

  /** A header and a table that can be written to a file, with or without a byte order mark, and with or
      without the newline behind the last line. An unmarked header is not taken for a mark. */
  ghost predicate IsFile(trims: set<Byte>, p: QuotePolicy, blockLen: nat, marked: bool, open: bool,
                         header: seq<Text>, headerLayout: Layout, table: seq<seq<Text>>, layouts: seq<Layout>) {
    && Writes(trims, p, blockLen, header, headerLayout)
    && Writable(trims, p, blockLen, table, layouts, |header|)
    && MayBeOpen(TableLines(p, header, headerLayout, table, layouts), open)
    && (marked || !([239, 187, 191] <= WrittenLine(p, header, headerLayout).text))
  }

  /** The header comes first, and then the rows. */
  lemma HeaderThenRows(g: Config, marked: bool, open: bool, header: seq<Text>, headerLayout: Layout,
                       table: seq<seq<Text>>, layouts: seq<Layout>, ls: seq<Written>)
    requires IsFile(g.trims, g.policy, g.blockLen, marked, open, header, headerLayout, table, layouts)
    requires ls == TableLines(g.policy, header, headerLayout, table, layouts)
    ensures ClearLines(ls[1..], open, g.blockLen)
    ensures Next(Unread(SkipBom(MarkedFile(marked, ls, open))), g.blockLen, g.tail)
      == (Line(ls[0].text), AtLine(ls[1..], open, g.tail))
  {
    FirstAndRestClear(ls, EncodeTable(g.policy, table, layouts), open, g.blockLen);
    FirstLineIsRead(g, marked, open, ls);
  }

  lemma FirstLineIsRead(g: Config, marked: bool, open: bool, ls: seq<Written>)
    requires ls != [] && ClearLines(ls, open, g.blockLen) && (marked || !([239, 187, 191] <= ls[0].text))
    ensures ClearLines(ls[1..], open, g.blockLen)
    ensures Next(Unread(SkipBom(MarkedFile(marked, ls, open))), g.blockLen, g.tail)
      == (Line(ls[0].text), AtLine(ls[1..], open, g.tail))
  {
    MarkedFileStarts(marked, ls, open, g.tail);
    WrittenLineIsRead(ls, open, g.blockLen, g.tail);
    ClearRest(ls, open, g.blockLen);
  }

  lemma WrittenHeader(g: Config, header: seq<Text>, layout: Layout, names: seq<Text>, ignore: IgnorePolicy,
                      order: seq<int>)
    requires Writes(g.trims, g.policy, g.blockLen, header, layout) && Acceptable(header, true, names, ignore)
    ensures HeaderResultOf(Line(WrittenLine(g.policy, header, layout).text), g, names, ignore, order)
      == (HeaderRead, HeaderOf(header, true, names, ignore).order)
    ensures var h := HeaderOf(header, true, names, ignore); h.error.None? && |h.order| == |header|
  {
    UpToNulWhole(WrittenLine(g.policy, header, layout).text);
    RowRoundTrip(g.trims, g.policy, header, layout.spellings);
    HeaderMeaning(header, true, names, ignore);
  }

  /** The table has come back: each requested column of each row has the cell under the header of its name. */
  ghost predicate HoldsTable(header: seq<Text>, table: seq<seq<Text>>, names: seq<Text>, t: TableResult) {
    t.TableRead? && |t.rows| == |table| &&
    forall i :: 0 <= i < |table| ==> UnderHeaders(header, table[i], names, t.rows[i])
  }

  /** Main result: whatever table is written, each cell quoted or not and padded in any way, each line with
      either line ending, and whatever columns are requested of it in whatever order, reading the header and
      then rows until there are no more gives every row, each requested column with the cell under the header
      of its name. */
  lemma TableRoundTrip(g: Config, marked: bool, open: bool, header: seq<Text>, headerLayout: Layout,
                       table: seq<seq<Text>>, layouts: seq<Layout>, names: seq<Text>, ignore: IgnorePolicy)
    requires IsFile(g.trims, g.policy, g.blockLen, marked, open, header, headerLayout, table, layouts)
    requires Acceptable(header, true, names, ignore) && Distinct(names)
    ensures var file := MarkedFile(marked, TableLines(g.policy, header, headerLayout, table, layouts), open);
      var r := TableOf(Unread(SkipBom(file)), g, names, ignore);
      HoldsTable(header, table, names, r) && r.end == EndOf(open, g.tail)
  {
    HeaderThenRows(g, marked, open, header, headerLayout, table, layouts,
                   TableLines(g.policy, header, headerLayout, table, layouts));
    WrittenHeader(g, header, headerLayout, names, ignore, []);
    var order := HeaderOf(header, true, names, ignore).order;
    RowsRoundTrip(g, table, layouts, open, order, |names|);
    forall i | 0 <= i < |table|
      ensures UnderHeaders(header, table[i], names, Through(order, table, |names|)[i])
    {
      RowThroughHeader(header, names, ignore, order, table[i]);
    }
  }
}
