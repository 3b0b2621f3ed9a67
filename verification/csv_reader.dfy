/**
 The CSV reader: lines from a line reader, parsed in the buffer of that reader.
 */
module CsvReaders {
  import opened Bytes
  import opened Lines
  import opened Windows
  import opened LineReaders
  import opened Quoting
  import opened Rows
  import opened Headers
  import opened Tables
  import opened Parsing

  /** What a slot shows: the string that it points at. */
  function SlotText(buf: Text, slot: Pointer): Option<Text> {
    if slot.At? && slot.index <= |buf| then Some(UpToNul(buf[slot.index..])) else None
  }

  /** No string that begins where the slot points ends in the buffer. */
  predicate Overruns(buf: Text, slot: Pointer) {
    slot.At? && slot.index <= |buf| && NUL !in buf[slot.index..]
  }

  /** What read_row gives when the line demands a result: in the columns of the order the cells of the line,
      in the others what their slots still show, unless one of those runs past the buffer. */
  ghost function Given(order: seq<int>, buf: Text, row: seq<Pointer>, demanded: RowResult): RowResult
    requires demanded.RowRead? ==> |demanded.row| == |row|
  {
    if !demanded.RowRead? then demanded
    else if exists k :: 0 <= k < |row| && k !in order && Overruns(buf, row[k]) then RowPastBuffer
    else
      RowRead(seq(|row|, k requires 0 <= k < |row| =>
                    if k in order then demanded.row[k] else SlotText(buf, row[k])))
  }

  /** No slot outside the order points anywhere. */
  ghost predicate Fresh(order: seq<int>, row: seq<Pointer>) {
    forall k :: 0 <= k < |row| && k !in order ==> row[k] == Null
  }

  /** So a row is what its line demands exactly when the slots without a column are null. */
  lemma FreshIff(order: seq<int>, buf: Text, row: seq<Pointer>, demanded: RowResult)
    requires demanded.RowRead? && |demanded.row| == |row|
    requires forall k :: 0 <= k < |row| && k !in order ==> demanded.row[k] == None
    requires forall k :: 0 <= k < |row| && row[k].At? ==> row[k].index <= |buf|
    ensures Fresh(order, row) <==> Given(order, buf, row, demanded) == demanded
  {
    var r := Given(order, buf, row, demanded);
    if Fresh(order, row) {
      assert r.row == demanded.row;
    } else {
      var k :| 0 <= k < |row| && k !in order && row[k] != Null;
      assert SlotText(buf, row[k]).Some?;
      assert r.RowRead? ==> r.row[k] != demanded.row[k];
    }
  }

  class CSVReader {
    const lines: LineReader
    const row: array<Pointer>
    const trims: set<Byte>
    const policy: QuotePolicy
    var colOrder: seq<int>
    ghost const Repr: set<object>

    ghost predicate Valid()
      reads this, Repr
    {
      && this in Repr && row in Repr && lines in Repr && lines.Repr <= Repr
      && this !in lines.Repr && row !in lines.Repr
      && lines.Valid() && InRange(colOrder, row.Length)
      && forall k :: 0 <= k < row.Length && row[k].At? ==> row[k].index < lines.buffer.Length
    }

    /** Slots that the current header does not feed hold no pointer into an older line. */
    ghost predicate SlotsFresh()
      reads this, row
    {
      Fresh(colOrder, row[..])
    }

    ghost function Settings(): Config
      requires lines.file.Valid()
    {
      Config(trims, policy, lines.blockLen, lines.file.Tail())
    }

    constructor (source: StringByteSource, blockLength: nat, columnCount: nat,
                 trimChars: set<Byte>, quotePolicy: QuotePolicy)
      requires 2 <= blockLength && source.position == 0
      modifies source
      ensures Valid() && SlotsFresh() && fresh(Repr - {source})
      ensures row.Length == columnCount && trims == trimChars && policy == quotePolicy
      ensures lines.blockLen == blockLength && lines.file.input == source.data
      ensures lines.Position() == Unread(SkipBom(source.data))
      ensures |colOrder| == columnCount && forall k :: 0 <= k < columnCount ==> colOrder[k] == k
      ensures forall k :: 0 <= k < columnCount ==> row[k] == Null
    {
      trims, policy := trimChars, quotePolicy;
      var r := new Pointer[columnCount](_ => Null);
      var l := new LineReader(source, blockLength);
      lines, row := l, r;
      colOrder := seq(columnCount, i => i);
      Repr := {this, r} + l.Repr;
      new;
      assert forall k :: 0 <= k < columnCount ==> row[k] == Null;
    }

    /** Parses the next line as a header for the requested names. */
    method ReadHeader(ignore: IgnorePolicy, names: seq<Text>) returns (result: HeaderResult)
      requires Valid() && |names| == row.Length
      modifies Repr
      ensures Valid() && row[..] == old(row[..])
      ensures var (e, c) := Next(old(lines.Position()), lines.blockLen, lines.file.Tail());
        && lines.Position() == c
        && (result, colOrder) == HeaderResultOf(e, Settings(), names, ignore, old(colOrder))
        && (!IsQuote(policy, policy.sep) ==>
              HeaderReport(Settings(), e, names, ignore, old(colOrder), result, colOrder))
    {
      ghost var before := colOrder;
      ghost var e := Next(lines.Position(), lines.blockLen, lines.file.Tail()).0;
      if !IsQuote(policy, policy.sep) {
        HeaderIsReported(e, Settings(), names, ignore, before);
      }
      var outcome := lines.NextLine();
      match outcome
      case NoLine => return HeaderMissing;
      case TooLong => return HeaderTooLong;
      case Aborted => return HeaderAborted;
      case Got(at) =>
        result := TakeHeader(ignore, names, at, e.text);
    }

    method TakeHeader(ignore: IgnorePolicy, names: seq<Text>, at: nat, ghost line: Text) returns (result: HeaderResult)
      requires Valid() && |names| == row.Length
      requires Holds(lines.buffer[..], at, line) && at + |line| < lines.dataBegin
      modifies this, lines, lines.buffer
      ensures Valid() && row[..] == old(row[..]) && lines.Position() == old(lines.Position())
      ensures (result, colOrder) == HeaderResultOf(Line(line), Settings(), names, ignore, [])
    {
      HeldIsCString(lines.buffer[..], at, line);
      ghost var text, before := UpToNul(line), lines.buffer[..];
      ghost var c := RawColumns(policy, text);
      WalkInRange(Fields(trims, policy, c.cols), names, ignore.extra, []);
      var error;
      colOrder, error := ParseHeaderLine(trims, policy, lines.buffer, at, names, ignore, text);
      lines.Rewritten(before);
      result := if error.None? then HeaderRead else HeaderFailed(error.value);
    }

    /** Parses the next line as a row, and copies out the requested columns; a slot that an older header has
        left keeps its pointer, and what is there now is copied from it. */
    method ReadRow() returns (result: RowResult)
      requires Valid()
      modifies Repr
      ensures Valid() && colOrder == old(colOrder)
      ensures forall k :: 0 <= k < row.Length && k !in colOrder ==> row[k] == old(row[k])
      ensures var (e, c) := Next(old(lines.Position()), lines.blockLen, lines.file.Tail());
        var demanded := RowResultOf(e, Settings(), colOrder, row.Length);
        && lines.Position() == c
        && result == Given(colOrder, lines.buffer[..], row[..], demanded)
        && (demanded.RowRead? ==> (old(SlotsFresh()) <==> result == demanded))
        && (demanded.RowRead? ==> forall k :: 0 <= k < row.Length && k in colOrder ==> row[k].At?)
        && (!IsQuote(policy, policy.sep) ==> RowReport(policy, e, |colOrder|, result))
    {
      ghost var e := Next(lines.Position(), lines.blockLen, lines.file.Tail()).0;
      if !IsQuote(policy, policy.sep) {
        RowIsReported(e, Settings(), colOrder, row.Length);
      }
      var outcome := lines.NextLine();
      match outcome
      case NoLine => return NoMoreRows;
      case TooLong => return RowTooLong;
      case Aborted => return RowAborted;
      case Got(at) =>
        result := TakeRow(at, e.text);
    }

    /** Parses a line into the slots of the row. */
    method FillRow(at: nat, ghost line: Text) returns (outcome: RowOutcome)
      requires Valid()
      requires Holds(lines.buffer[..], at, line) && at + |line| < lines.dataBegin
      modifies row, lines, lines.buffer
      ensures Valid() && lines.Position() == old(lines.Position())
      ensures outcome == LineOutcome(RawColumns(policy, UpToNul(line)), |colOrder|)
      ensures Delivered(lines.buffer[..], row[..], old(row[..]),
                        LineCells(trims, policy, UpToNul(line), colOrder), at, at + |UpToNul(line)| + 1)
    {
      HeldIsCString(lines.buffer[..], at, line);
      ghost var before := lines.buffer[..];
      outcome := ParseLine(trims, policy, lines.buffer, at, row, colOrder, UpToNul(line));
      lines.Rewritten(before);
    }

    method TakeRow(at: nat, ghost line: Text) returns (result: RowResult)
      requires Valid()
      requires Holds(lines.buffer[..], at, line) && at + |line| < lines.dataBegin
      modifies row, lines, lines.buffer
      ensures Valid() && lines.Position() == old(lines.Position())
      ensures forall k :: 0 <= k < row.Length && k !in colOrder ==> row[k] == old(row[k])
      ensures var demanded := RowResultOf(Line(line), Settings(), colOrder, row.Length);
        && result == Given(colOrder, lines.buffer[..], row[..], demanded)
        && (demanded.RowRead? ==> (old(SlotsFresh()) <==> result == demanded))
        && (demanded.RowRead? ==> forall k :: 0 <= k < row.Length && k in colOrder ==> row[k].At?)
    {
      ghost var text, row0 := UpToNul(line), row[..];
      ghost var cells := LineCells(trims, policy, text, colOrder);
      var outcome := FillRow(at, line);
      SlotsLeft(row0, row[..], cells, text);
      if outcome != Parsed {
        return RowFailed(outcome);
      }
      result := ShowRow(row0, cells, at, at + |text| + 1);
      FreshIff(colOrder, lines.buffer[..], row[..], RowRead(RowOf(cells, row.Length)));
    }

    /** Only slots that the header feeds are written; and a row that is parsed feeds all of them. */
    lemma SlotsLeft(row0: seq<Pointer>, row1: seq<Pointer>, cells: map<int, Text>, text: Text)
      requires |row0| == |row1| && cells == LineCells(trims, policy, text, colOrder)
      requires forall k :: 0 <= k < |row0| && k !in cells ==> row1[k] == row0[k]
      ensures forall k :: 0 <= k < |row1| && k !in colOrder ==> k !in cells && row1[k] == row0[k]
      ensures LineOutcome(RawColumns(policy, text), |colOrder|) == Parsed ==>
        forall k :: 0 <= k < |row1| && k !in cells ==> k !in colOrder
    {
      var c := RawColumns(policy, text);
      var m := DeliveredCount(c, |colOrder|);
      CellsKeys(colOrder[..m], Fields(trims, policy, c.cols[..m]));
      if m == |colOrder| {
        assert colOrder[..m] == colOrder;
      }
    }

    /** Copies out a row of which some slots have just been fed. */
    method ShowRow(ghost row0: seq<Pointer>, ghost cells: map<int, Text>, ghost lo: nat, ghost hi: nat)
      returns (result: RowResult)
      requires forall k :: 0 <= k < row.Length && row[k].At? ==> row[k].index < lines.buffer.Length
      requires Delivered(lines.buffer[..], row[..], row0, cells, lo, hi)
      requires forall k :: 0 <= k < row.Length ==> (k in cells <==> k in colOrder)
      ensures result == Given(colOrder, lines.buffer[..], row[..], RowRead(RowOf(cells, row.Length)))
    {
      var copied := CopyRow();
      result := if copied.None? then RowPastBuffer else RowRead(copied.value);
      CopyGives(colOrder, lines.buffer[..], row[..], row0, cells, lo, hi, copied);
    }

    /** Copies the string that each slot points at; a null slot leaves its value alone. None if one of them
        does not end before the buffer does. */
    method CopyRow() returns (r: Option<Row>)
      requires forall k :: 0 <= k < row.Length && row[k].At? ==> row[k].index < lines.buffer.Length
      ensures r.None? <==> exists k :: 0 <= k < row.Length && Overruns(lines.buffer[..], row[k])
      ensures r.Some? ==> |r.value| == row.Length
      ensures r.Some? ==> forall k :: 0 <= k < row.Length ==> r.value[k] == SlotText(lines.buffer[..], row[k])
    {
      var copied: Row := [];
      for k := 0 to row.Length
        invariant |copied| == k
        invariant forall i :: 0 <= i < k ==> copied[i] == SlotText(lines.buffer[..], row[i])
        invariant forall i :: 0 <= i < k ==> !Overruns(lines.buffer[..], row[i])
      {
        if row[k].At? {
          var s := ReadUpToNul(lines.buffer, row[k].index);
          assert lines.buffer[..][row[k].index..] == lines.buffer[row[k].index..];
          if s.None? {
            assert Overruns(lines.buffer[..], row[k]);
            return None;
          }
          copied := copied + [s];
        } else {
          copied := copied + [None];
        }
      }
      r := Some(copied);
    }
  }

  /** Copying a row of which some slots have just been fed. */
  lemma CopyGives(order: seq<int>, buf: Text, row: seq<Pointer>, row0: seq<Pointer>, cells: map<int, Text>,
                  lo: nat, hi: nat, copied: Option<Row>)
    requires Delivered(buf, row, row0, cells, lo, hi)
    requires forall k :: 0 <= k < |row| ==> (k in cells <==> k in order)
    requires copied.None? <==> exists k :: 0 <= k < |row| && Overruns(buf, row[k])
    requires copied.Some? ==> |copied.value| == |row|
    requires copied.Some? ==> forall k :: 0 <= k < |row| ==> copied.value[k] == SlotText(buf, row[k])
    ensures Given(order, buf, row, RowRead(RowOf(cells, |row|)))
      == if copied.None? then RowPastBuffer else RowRead(copied.value)
  {
    forall k | 0 <= k < |row| && k in cells
      ensures !Overruns(buf, row[k]) && SlotText(buf, row[k]) == Some(cells[k])
    {
      CStringIsUpToNul(buf, row[k].index, cells[k]);
    }
    var given := Given(order, buf, row, RowRead(RowOf(cells, |row|)));
    if copied.Some? {
      assert given.row == copied.value;
    }
  }

  lemma CStringIsUpToNul(buf: Text, p: nat, text: Text)
    requires IsCString(buf, p, text)
    ensures NUL in buf[p..] && UpToNul(buf[p..]) == text
  {
    assert buf[p..][|text|] == NUL && buf[p..][..|text|] == text;
    UpToNulIs(buf[p..], |text|);
  }

  /** The rows already read and those still to come are the rows of the file. */
  ghost predicate SoFar(g: Config, order: seq<int>, n: nat, start: Cursor, rows: seq<Row>, c: Cursor) {
    RowsFrom(start, g, order, n) == (rows + RowsFrom(c, g, order, n).0, RowsFrom(c, g, order, n).1)
  }

  lemma RowsFromStep(g: Config, order: seq<int>, n: nat, c: Cursor)
    ensures var (e, c') := Next(c, g.blockLen, g.tail);
      var r := RowResultOf(e, g, order, n);
      if r.RowRead? then
        && Measure(c') < Measure(c)
        && RowsFrom(c, g, order, n) == ([r.row] + RowsFrom(c', g, order, n).0, RowsFrom(c', g, order, n).1)
      else RowsFrom(c, g, order, n) == ([], r)
  {
    LineShortens(c, g);
  }

  /** The order before a header does not matter to one that is read. */
  lemma FirstHeader(e: Event, g: Config, names: seq<Text>, ignore: IgnorePolicy, order: seq<int>)
    ensures var ((r, o), (r', o')) :=
        (HeaderResultOf(e, g, names, ignore, order), HeaderResultOf(e, g, names, ignore, []));
      r == r' && (r == HeaderRead ==> o == o')
  {
  }

  /** A client that reads a header and then rows until it gets no more. */
  method ReadTable(reader: CSVReader, ignore: IgnorePolicy, names: seq<Text>) returns (result: TableResult)
    requires reader.Valid() && |names| == reader.row.Length
    requires forall k :: 0 <= k < reader.row.Length ==> reader.row[k] == Null
    modifies reader.Repr
    ensures result == TableOf(old(reader.lines.Position()), reader.Settings(), names, ignore)
    ensures !IsQuote(reader.policy, reader.policy.sep) ==>
      TableReport(old(reader.lines.Position()), reader.Settings(), names, ignore, result)
  {
    if !IsQuote(reader.policy, reader.policy.sep) {
      TableIsReported(reader.lines.Position(), reader.Settings(), names, ignore);
    }
    FirstHeader(Next(reader.lines.Position(), reader.lines.blockLen, reader.lines.file.Tail()).0,
                reader.Settings(), names, ignore, reader.colOrder);
    var h := reader.ReadHeader(ignore, names);
    if h != HeaderRead {
      return NoTable(h);
    }
    var rows, r := ReadRows(reader);
    result := TableRead(rows, r);
  }

  /** The loop over the rows. */
  method ReadRows(reader: CSVReader) returns (rows: seq<Row>, end: RowResult)
    requires reader.Valid() && reader.SlotsFresh()
    modifies reader.Repr
    ensures (rows, end)
      == RowsFrom(old(reader.lines.Position()), reader.Settings(), old(reader.colOrder), reader.row.Length)
  {
    ghost var g, order, n, start := reader.Settings(), reader.colOrder, reader.row.Length, reader.lines.Position();
    rows := [];
    assert [] + RowsFrom(start, g, order, n).0 == RowsFrom(start, g, order, n).0;
    while true
      invariant reader.Valid() && reader.SlotsFresh() && reader.colOrder == order
      invariant SoFar(g, order, n, start, rows, reader.lines.Position())
      decreases Measure(reader.lines.Position())
    {
      RowsFromStep(g, order, n, reader.lines.Position());
      end := reader.ReadRow();
      if !end.RowRead? {
        assert rows + [] == rows;
        return;
      }
      ConcatStep(rows, end.row, RowsFrom(reader.lines.Position(), g, order, n).0);
      rows := rows + [end.row];
    }
  }

  /** Opens a file. */
  method OpenFile(source: StringByteSource, blockLen: nat, columnCount: nat, trims: set<Byte>, p: QuotePolicy)
    returns (reader: CSVReader, ghost tail: Byte)
    requires 2 <= blockLen && source.position == 0
    modifies source
    ensures reader.Valid() && fresh(reader.Repr - {source}) && reader.row.Length == columnCount
    ensures reader.Settings() == Config(trims, p, blockLen, tail)
    ensures reader.lines.Position() == Unread(SkipBom(source.data))
    ensures forall k :: 0 <= k < columnCount ==> reader.row[k] == Null
    ensures TailFits(source.data, blockLen, tail)
  {
    reader := new CSVReader(source, blockLen, columnCount, trims, p);
    tail := TailOf(reader.lines.file, source.data, blockLen);
  }

  /** Opens a file and reads all of it. The byte after the data is memory that nothing is known of, or a
      byte of the block before the last. */
  method ReadFile(source: StringByteSource, blockLen: nat, trims: set<Byte>, p: QuotePolicy,
                  names: seq<Text>, ignore: IgnorePolicy)
    returns (result: TableResult, ghost tail: Byte)
    requires 2 <= blockLen && source.position == 0
    modifies source
    ensures var (c, g) := (Unread(SkipBom(source.data)), Config(trims, p, blockLen, tail));
      && result == TableOf(c, g, names, ignore)
      && (!IsQuote(p, p.sep) ==> TableReport(c, g, names, ignore, result))
    ensures TailFits(source.data, blockLen, tail)
  {
    var reader;
    reader, tail := OpenFile(source, blockLen, |names|, trims, p);
    result := ReadTable(reader, ignore, names);
  }

  /** Main result: writing a table in any way it can be written and reading it back, through the buffer. */
  method WriteThenRead(trims: set<Byte>, p: QuotePolicy, blockLen: nat, marked: bool, open: bool,
                       header: seq<Text>, headerLayout: Layout, table: seq<seq<Text>>, layouts: seq<Layout>,
                       names: seq<Text>, ignore: IgnorePolicy)
    returns (result: TableResult, ghost tail: Byte)
    requires 2 <= blockLen && IsFile(trims, p, blockLen, marked, open, header, headerLayout, table, layouts)
    requires Acceptable(header, true, names, ignore) && Distinct(names)
    ensures HoldsTable(header, table, names, result)
    ensures result.end == if open && tail == 10 then RowAborted else NoMoreRows
    ensures TailFits(MarkedFile(marked, TableLines(p, header, headerLayout, table, layouts), open), blockLen, tail)
  {
    var file := MarkedFile(marked, TableLines(p, header, headerLayout, table, layouts), open);
    var source := new StringByteSource(file);
    result, tail := ReadFile(source, blockLen, trims, p, names, ignore);
    TableRoundTrip(Config(trims, p, blockLen, tail), marked, open, header, headerLayout, table, layouts,
                   names, ignore);
  }

  // ----- a second header -----

  /** A header of one column that is requested, when others may be missing. */
  lemma HeaderOfOne(name: Text, names: seq<Text>, k: nat)
    requires IndexOf(names, name) == Some(k)
    ensures HeaderOf([name], true, names, IgnorePolicy(false, true)) == HeaderState([k], None)
  {
    assert Walk([name], names, false, []) == Walk([name][1..], names, false, [] + [k]);
  }

  /** A cell that is written alone on its line, as it is. */
  const ALONE := Layout([Spelling([], false, [])], false)

  /** A cell that can be. */
  ghost predicate OnALine(trims: set<Byte>, p: QuotePolicy, blockLen: nat, cell: Text) {
    Writes(trims, p, blockLen, [cell], ALONE)
  }

  lemma AloneIsItself(p: QuotePolicy, cell: Text)
    ensures WrittenLine(p, [cell], ALONE) == Written(cell, false)
  {
    assert Spelled(p, cell, Spelling([], false, [])) == cell;
    assert SpellAll(p, [cell], ALONE.spellings) == [cell];
  }

  /** A line with one cell, read as a header and as a row. */
  lemma OneCell(g: Config, cell: Text, rest: Text, names: seq<Text>, k: nat, order: seq<int>)
    requires OnALine(g.trims, g.policy, g.blockLen, cell)
    ensures Next(Unread(cell + [NEWLINE] + rest), g.blockLen, g.tail) == (Line(cell), Unread(rest))
    ensures RowResultOf(Line(cell), g, [k], |names|) == RowRead(RowOf(Cells([k], [cell]), |names|))
    ensures IndexOf(names, cell) == Some(k) ==>
      HeaderResultOf(Line(cell), g, names, IgnorePolicy(false, true), order) == (HeaderRead, [k])
  {
    AloneIsItself(g.policy, cell);
    NextOfLine(cell, rest, g.blockLen, g.tail);
    StripCrIff(cell, cell);
    WrittenRowParses(g, [cell], ALONE, [k], |names|);
    if IndexOf(names, cell) == Some(k) {
      HeaderOfOne(cell, names, k);
      HeaderMeaning([cell], true, names, IgnorePolicy(false, true));
      WrittenHeader(g, [cell], ALONE, names, IgnorePolicy(false, true), order);
    }
  }

  /** Reads a header of one column. */
  method HeaderOnly(reader: CSVReader, names: seq<Text>, k: nat, ghost rest: Text)
    requires reader.Valid() && |names| == reader.row.Length && k < |names|
    requires IndexOf(names, names[k]) == Some(k)
    requires OnALine(reader.trims, reader.policy, reader.lines.blockLen, names[k])
    requires reader.lines.Position() == Unread(names[k] + [NEWLINE] + rest)
    modifies reader.Repr
    ensures reader.Valid() && reader.lines.Position() == Unread(rest)
    ensures reader.colOrder == [k] && reader.row[..] == old(reader.row[..])
  {
    OneCell(reader.Settings(), names[k], rest, names, k, reader.colOrder);
    var h := reader.ReadHeader(IgnorePolicy(false, true), names);
  }

  /** Reads a header of one column, and the row behind it: that is what its line demands exactly if no other
      slot was fed before. */
  method HeaderThenRow(reader: CSVReader, names: seq<Text>, k: nat, ghost cell: Text, ghost rest: Text)
    returns (result: RowResult)
    requires reader.Valid() && |names| == reader.row.Length && k < |names|
    requires IndexOf(names, names[k]) == Some(k)
    requires OnALine(reader.trims, reader.policy, reader.lines.blockLen, names[k])
    requires OnALine(reader.trims, reader.policy, reader.lines.blockLen, cell)
    requires reader.lines.Position() == Unread(names[k] + [NEWLINE] + (cell + [NEWLINE] + rest))
    modifies reader.Repr
    ensures reader.Valid() && reader.lines.Position() == Unread(rest) && reader.row[k].At?
    ensures forall j :: 0 <= j < |names| && j != k ==> reader.row[j] == old(reader.row[j])
    ensures result == RowRead(RowOf(Cells([k], [cell]), |names|))
      <==> forall j :: 0 <= j < |names| && j != k ==> old(reader.row[j]) == Null
  {
    ghost var row := reader.row[..];
    OneCell(reader.Settings(), cell, rest, names, k, []);
    HeaderOnly(reader, names, k, cell + [NEWLINE] + rest);
    result := reader.ReadRow();
    OnlySlot(row, k);
  }

  lemma OnlySlot(row: seq<Pointer>, k: int)
    ensures Fresh([k], row) <==> forall j :: 0 <= j < |row| && j != k ==> row[j] == Null
  {
    assert forall j :: j in [k] <==> j == k;
  }

  /** Reads two headers of one column each and the rows behind them. The second row is never what its line
      demands: the column of the first header still shows, or runs past the buffer. */
  method TwoHeaders(reader: CSVReader, names: seq<Text>, ghost one: Text, ghost two: Text)
    returns (result: RowResult)
    requires reader.Valid() && |names| == 2 == reader.row.Length && names[0] != names[1]
    requires OnALine(reader.trims, reader.policy, reader.lines.blockLen, names[0])
    requires OnALine(reader.trims, reader.policy, reader.lines.blockLen, names[1])
    requires OnALine(reader.trims, reader.policy, reader.lines.blockLen, one)
    requires OnALine(reader.trims, reader.policy, reader.lines.blockLen, two)
    requires reader.lines.Position() ==
      Unread(names[0] + [NEWLINE] + (one + [NEWLINE] + (names[1] + [NEWLINE] + (two + [NEWLINE] + []))))
    modifies reader.Repr
    ensures result != RowRead([None, Some(two)])
  {
    IndexOfFirst(names, 0);
    IndexOfFirst(names, 1);
    var first := HeaderThenRow(reader, names, 0, one, names[1] + [NEWLINE] + (two + [NEWLINE] + []));
    result := HeaderThenRow(reader, names, 1, two, []);
    assert RowOf(Cells([1], [two]), 2) == [None, Some(two)];
  }

  lemma ByteOnALine(b: Byte)
    requires b != NUL && b != NEWLINE && b != CARRIAGE_RETURN && b != 44
    ensures OnALine({}, NoQuoteEscape(44), 16, [b])
  {
    AloneIsItself(NoQuoteEscape(44), [b]);
  }

  lemma NoMarkIn(b: Byte, rest: Text)
    requires b != BOM[0]
    ensures SkipBom([b] + rest) == [b] + rest
  {
    assert ([b] + rest)[0] == b;
  }

  /** There is such a file. */
  method StaleColumn() returns (result: RowResult)
    ensures result != RowRead([None, Some([50])])
  {
    var later := [NEWLINE] + ([49] + [NEWLINE] + ([98] + [NEWLINE] + ([50] + [NEWLINE] + [])));
    ByteOnALine(97);
    ByteOnALine(98);
    ByteOnALine(49);
    ByteOnALine(50);
    NoMarkIn(97, later);
    assert [97] + later == [97] + [NEWLINE] + ([49] + [NEWLINE] + ([98] + [NEWLINE] + ([50] + [NEWLINE] + [])));
    var source := new StringByteSource([97] + later);
    var reader := new CSVReader(source, 16, 2, {}, NoQuoteEscape(44));
    result := TwoHeaders(reader, [[97], [98]], [49], [50]);
  }
}
