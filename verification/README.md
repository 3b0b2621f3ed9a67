# DoorSwitchSvr: verified model

This project models three parts of the door switch server and proves what they do.

**The CSV reader** of the mock stream node (`csv.h`), bottom up:

- `window.dfy` and `line_reader.dfy`: the line reader, a buffer of three blocks that slides over a byte
  source while a worker may fill the third block at any time. `lines.dfy` says what reading lines means on a
  plain byte sequence. Every call on every reachable state refines the plain split; lines that are too long, the
  byte order mark, carriage returns, unterminated files and the one failing case are all covered by one statement.
- `async_reader.dfy`: the threaded reader as a state machine over the steps of consumer and worker. Every
  interleaving gives what the synchronous reader gives; no wakeup is lost; the threads come to rest.
- `threaded_line_reader.dfy`: both together as one machine, in which either thread may take a step between any
  two steps of next_line, and the worker reads into block three of the buffer that next_line works on. In every
  interleaving the calls report the lines of the file, no call waits for a worker that is gone, and every call
  returns after a bounded number of steps.
- `line_client.dfy`: clients that call next_line any number of times.
- `quoting.dfy`, `rows.dfy`, `headers.dfy` and `parsing.dfy`: columns, rows and header lines. The first three
  say what they mean on byte sequences; the last has the loops that rewrite the line in its buffer and leave
  pointers into it.
- `tables.dfy` and `csv_reader.dfy`: the reader class, its client, and the round trip of a whole file.
- `integers.dfy`, `floats.dfy` and `cells.dfy`: the number parsers, and reading a row into typed variables.

**The door worker** (`DoorSwitchChannelController`): `door_worker.dfy` has the loop, driven by turns that say
which requests arrive when the worker can tell, `door_timing.dfy` the loop of a direct switch in time, and
`door_overlap.dfy` when the door is open if requests may end in any order.

**The handler of a switch** (`DoorSwitchHandler`): `door_handler.dfy` has the connection, its timer and the
doors that requests are handed to.

Conventions: a byte is a number below 256; a `char*` is an index into the buffer; an exception is a value of a
result type; `block_len` is a parameter, at least 2 (the code fixes it at 2^24). The buffer starts with
arbitrary bytes, as memory from `new char[]` does. A count of -1 in the threaded reader is `None`. Sleeping,
the network and the byte source are parameters. A method that rewrites a buffer or fields is proved against a
function of the state before; what the source promises is proved about that function.

Results that are not what one might expect:

- A file whose last line has no newline is not always read to its end: the scan and the test after it look at
  the byte behind the data (csv.h:458, csv.h:469). `Lines.UnterminatedFileIsRead` gives the exact condition,
  `Windows.File.Tail` says which byte that is (for a file of at least three blocks, the one a block before its
  end, as `LineClients.ReadLines` states), and `Windows.StaleNewlineFails` gives files that fail.
- A finish_read whose start came after the end of the data waits for ever
  (`AsyncReaders.FinishAfterEndHangs`; `AsyncReaders.EndCanBePassed` is a run to that point). The line reader
  never does that (`ThreadedLineReaders.CallsGoOn`), and `FinishRead` of the class requires that its worker is
  there, which every call of it is proved to meet.
- When no newline is left in blocks one and two, the scan looks at the first byte of block three while the worker
  may be writing it (csv.h:458). `Windows.BlockThreeReadIff` says exactly when; what is there does not matter.
- An expired request can leave the door open (`DoorWorkers.ExpiryLeavesDoorOpen`). `DoorWorkers.InStepIff` says
  exactly when that happens, from the tasks that arrive in each turn, `DoorTiming.FlagRightIff` from the times and
  durations of the requests, and `DoorOverlaps.OpenWhenRequestedOrLeft` gives the times at which the door is then
  open without a request: until the next one comes, or for ever.
- A reader that reads a second header keeps the pointers of the first. A column that only the first header had is
  then copied out of the buffer as it is by now, or the copy runs past the buffer (csv.h:1196-1211).
  `CsvReaders.CSVReader.ReadRow` says that a row is what its line demands if and only if no such pointer is there,
  and `CsvReaders.StaleColumn` reads a file where one is.
- A floating-point number whose exponent does not fit an int is read with the nearest int instead: another number,
  unless its digits are all zero. `Floats.DecimalRightIff` says exactly which texts are read right. Nothing behind
  such an exponent is looked at any more, so a text may be taken for a number that is none (`Floats.NotANumberIff`).
- An empty cell, or one with a sign alone, is read as the integer zero (`Integers.NoDigitsIsZero`). A number that
  is too great is reported as that even if other bytes than digits follow (`Integers.SignedMeaning`).
- A new door whose channel is less than a known one gets no working controller
  (`DoorHandlers.RoutedIffInOrder`).

## Model

| member | source | states |
|---|---|---|
| `Lines.SplitJoins` | testsuite/SeetaMockStreamNode/src/csv.h:457-483 | The reference split of a file into lines loses nothing: its lines, each with a newline, and what follows the last newline are the file. |
| `Lines.SplitIsNewlineFree` | testsuite/SeetaMockStreamNode/src/csv.h:457-483 | And no newline is left in any of its lines or behind the last one; with that the two laws pin the split down. |
| `Lines.SplitUnlines` | testsuite/SeetaMockStreamNode/src/csv.h:457-483 | Splitting inverts writing: newline-free lines and a newline-free end are the only split of the file made of them. |
| `Lines.ReadingIsSplitting` | testsuite/SeetaMockStreamNode/src/csv.h:436-485 | For every file, every block length and any number of calls: the calls of next_line report the lines of the split in order, each without one trailing carriage return, until a line is as long as a block and is reported as too long for ever; after the last line the end is reported for ever, unless an unterminated end is followed in memory by a newline, and then the assertion at line 442 fails for ever. |
| `Lines.TerminatedFileIsRead` | testsuite/SeetaMockStreamNode/src/csv.h:436-485 | A file of short newline-terminated lines is read to its end, whatever follows it in memory; `LineClients.ReadLines` carries this to the buffer. |
| `Lines.UnterminatedFileIsRead` | testsuite/SeetaMockStreamNode/src/csv.h:469-476 | A file with an unterminated last line hands that line out, and is then at its end if and only if the byte after its data is not a newline; otherwise the next call fails its assertion; `LineClients.LongFileIsSeen` and `LineClients.ReadLines` carry this to the buffer. |
| `Lines.StripCrIff` | testsuite/SeetaMockStreamNode/src/csv.h:478-480 | The line handed out for the bytes before a newline is those bytes without a last byte 13, if that is there, and otherwise all of them. |
| `Lines.WrittenLinesAreRead` | testsuite/SeetaMockStreamNode/src/csv.h:436-485 | For any texts without a byte 10, each followed by the bytes 13 10 or by the byte 10 (and then not ending in 13) and fitting in a block with it: the calls hand out exactly these texts and then report the end for ever. The last 10 may be left out; then the end is reported if and only if the byte behind the data is not a 10. |
| `Lines.LongLineIsRefused` | testsuite/SeetaMockStreamNode/src/csv.h:462-467 | A line of at least a block without a byte 10 is reported as too long, and stays unread. |
| `Windows.InitialSkipsBom` | testsuite/SeetaMockStreamNode/src/csv.h:346-352 | The first read leaves the start of the data behind a UTF-8 byte order mark exactly when the file begins with one. |
| `Windows.InitialRepresents` | testsuite/SeetaMockStreamNode/src/csv.h:343-358 | After the first read of two blocks the window is the front of the whole file, for files shorter and longer than that. |
| `Windows.RefillKeeps` | testsuite/SeetaMockStreamNode/src/csv.h:445-455 | Sliding down one block and appending the awaited block keeps the window the front of the unread data, with the right stale byte after the data and the right contents of block three; and a refill is never made after a read of zero bytes. |
| `Windows.ScanFindsLine` | testsuite/SeetaMockStreamNode/src/csv.h:457-467 | The scan stops at the end of the line exactly when the length test lets the line pass, although it sees only the window; so the end of a line is never mistaken for the end of the window. |
| `Windows.TerminatedHolds` | testsuite/SeetaMockStreamNode/src/csv.h:469-482 | The line terminated in place is the line of the file without one trailing carriage return, followed by a NUL. |
| `Windows.CutIsAfter` | testsuite/SeetaMockStreamNode/src/csv.h:457-483 | Handing a line out leaves the window in front of the rest of the file; data_begin meets data_end only when the file is exhausted, and passes it only in the stale-newline case. |
| `Windows.StepIsNext` | testsuite/SeetaMockStreamNode/src/csv.h:436-485 | One call on the three-block window reports the next event of the plain file and leaves a window for what is left of it: the sliding buffer refines the simple split. |
| `Windows.ScanIgnoresBlockThree` | testsuite/SeetaMockStreamNode/src/csv.h:445-476 | Between two refills nothing depends on what block three holds and nothing is written there, so it does not matter what a worker has put there meanwhile. |
| `Windows.BlockThreeReadIff` | testsuite/SeetaMockStreamNode/src/csv.h:457-467 | The scan, which looks at a byte before it tests for the end of the data, looks into block three if and only if the line does not end in blocks one and two; then it looks at the first byte there and no other, and the line is too long. A line that is returned was found and cut below block three. |
| `Windows.LongLineReadsBlockThree` | testsuite/SeetaMockStreamNode/src/csv.h:457-467 | That happens: at the first call on any file without a byte order mark whose first two blocks hold no newline. |
| `Windows.EarlyReadIsHarmless` | testsuite/SeetaMockStreamNode/src/csv.h:436-485 | A call of next_line reports the same and leaves the same window whether the reader fills block three when asked to finish or at any time before; while that block is still awaited and there is more to read, the window is again one whose awaited block is already there, so this may be repeated. |
| `Windows.EarlierBytesFree` | testsuite/SeetaMockStreamNode/src/csv.h:482-483 | Rewriting bytes before data_begin, as the column functions do, changes nothing that is read later. |
| `Windows.StaleNewlineFails` | testsuite/SeetaMockStreamNode/src/csv.h:458-476 | A family of concrete files (at least three blocks of empty lines, then one byte) for which the run of the window ends in the failed assertion whatever the buffer held before. |
| `Windows.CallReportsEvent` | testsuite/SeetaMockStreamNode/src/csv.h:436-485 | For every file, call number i on the window that the calls before it have left reports event number i of the file. |
| `LineReaders.StringByteSource.Read` | testsuite/SeetaMockStreamNode/src/csv.h:182-190 | Delivers the next bytes of the data into the buffer, as many as asked for or all that are left, and changes no other byte. |
| `LineReaders.AsynchronousReader.FinishRead` | testsuite/SeetaMockStreamNode/src/csv.h:247-258 | Returns the count of the read that was started, which the worker has done before or does now; in the synchronous build (lines 304-306) always now. May only be called once per start and not after the worker has left its loop, which the line reader is proved to respect. |
| `LineReaders.AsynchronousReader.WorkerReads` | testsuite/SeetaMockStreamNode/src/csv.h:221-225 | The worker does the read that was started, into its target and nowhere else, and leaves its loop after a read of zero bytes. |
| `LineReaders.LineReader.constructor` | testsuite/SeetaMockStreamNode/src/csv.h:343-358 | A new reader is at the start of its file, behind a byte order mark. |
| `LineReaders.LineReader.Init` | testsuite/SeetaMockStreamNode/src/csv.h:343-358 | The fields after construction are those of the initial window, and a read-ahead is under way exactly when two full blocks were read. |
| `LineReaders.LineReader.Refill` | testsuite/SeetaMockStreamNode/src/csv.h:445-455 | The two block copies and the read, which the worker may have done at any time before, turn the fields into those of the refilled window. |
| `LineReaders.LineReader.LetWorkerRun` | testsuite/SeetaMockStreamNode/src/csv.h:221-225 | Wherever the worker gets the lock, the fields go on to agree with the window. |
| `LineReaders.LineReader.FindLineEnd` | testsuite/SeetaMockStreamNode/src/csv.h:457-460 | The scan loop, with a worker that may run between any two of its iterations, returns the first newline or the end of the data. |
| `LineReaders.LineReader.CutLine` | testsuite/SeetaMockStreamNode/src/csv.h:469-484 | The in-place terminations and index updates turn the fields into those of the cut window. |
| `LineReaders.LineReader.NextLine` | testsuite/SeetaMockStreamNode/src/csv.h:436-485 | On every reachable state, and whenever the worker runs, the call reports the next event of the file, points at its NUL-terminated text inside the consumed part of the buffer, moves to the rest of the file, and counts the line. |
| `LineReaders.LineReader.Rewritten` | testsuite/SeetaMockStreamNode/src/csv.h:482-483 | Whoever holds a pointer to a line may rewrite the bytes before data_begin: the reader stays valid and where it was. |
| `LineClients.CallNextLine` | testsuite/SeetaMockStreamNode/src/csv.h:436-485 | Any number of calls of next_line, each line copied out of the buffer as a C string, gives the events of the file from where the reader was. |
| `LineClients.ReadLines` | testsuite/SeetaMockStreamNode/src/csv.h:343-485 | Opening a file and calling next_line any number of times gives, through the buffer, the lines of the reference split and what follows them, as `Lines.ReadingIsSplitting` says; and the byte behind the data, on which an unterminated file depends, is for a file of at least three blocks the one a block before its end. |
| `LineClients.LongFileIsSeen` | testsuite/SeetaMockStreamNode/src/csv.h:436-485 | So for a file of at least three blocks and short lines that ends without a newline, what `ReadLines` returns has the last line and then the end if and only if the byte one block before the end of the file is not a newline, and otherwise the failed assertion. |
| `LineClients.WriteThenReadLines` | testsuite/SeetaMockStreamNode/src/csv.h:343-485 | Lines written with either line ending, mixed in any way, with or without the bytes 239 187 191 in front, come back through the buffer as they were, and then the end of the file. |
| `AsyncReaders.StepKeeps` | testsuite/SeetaMockStreamNode/src/csv.h:200-286 | Every step of the consumer or the worker, every call and every spurious wakeup keeps the lock, data, thread and wakeup invariants. |
| `AsyncReaders.ThreadedRefinesSynchronous` | testsuite/SeetaMockStreamNode/src/csv.h:200-312 | In every interleaving the finishes return what the synchronous reader returns, exceptions included, and between a finish and the next start the target block holds the same bytes. |
| `AsyncReaders.WritesOnlyBetween` | testsuite/SeetaMockStreamNode/src/csv.h:221-222 | The target changes only by a read of the worker that holds the lock, between a start and its finish, while the consumer is outside the reader or blocked in it. |
| `AsyncReaders.NoLostWakeup` | testsuite/SeetaMockStreamNode/src/csv.h:212-225 | In every reachable state a thread that waits while its condition holds is about to be notified. |
| `AsyncReaders.RunsAreShort` | testsuite/SeetaMockStreamNode/src/csv.h:207-270 | Without new calls the threads come to rest: the number of steps is bounded by the work there was and the spurious wakeups. |
| `AsyncReaders.RestIsDone` | testsuite/SeetaMockStreamNode/src/csv.h:247-270 | At rest every call has returned and a destroyed reader has joined its worker; a call is still waiting if and only if it is a finish whose start came after a read had ended the worker. |
| `AsyncReaders.FinishAfterEndHangs` | testsuite/SeetaMockStreamNode/src/csv.h:221-231 | A finish whose start came after a read of zero bytes never returns, whatever the threads do. |
| `AsyncReaders.EndCanBePassed` | testsuite/SeetaMockStreamNode/src/csv.h:200-286 | There is such a run: on an empty source, a start, its finish, which returns zero, and another start lead to a state from which the row above says that the finish hangs. |
| `AsyncReaders.NoReadAfterDestroy` | testsuite/SeetaMockStreamNode/src/csv.h:211-219 | Once the destructor has asked the worker to stop, no further read is begun, not even one that was asked for before. |
| `ThreadedLineReaders.StepKeeps` | testsuite/SeetaMockStreamNode/src/csv.h:436-485 | Every step of next_line, of the destructor, of the threads in the reader and of the client that rewrites old lines keeps the line reader at its cursor, or reports the next event and moves on. |
| `ThreadedLineReaders.EveryInterleavingReadsTheFile` | testsuite/SeetaMockStreamNode/src/csv.h:436-485 | For every file and every interleaving of next_line with the consumer and worker steps of the threaded reader, which share block three, the k calls that have returned have reported the first k events of the file, each with its text in the buffer. |
| `ThreadedLineReaders.LinesStay` | testsuite/SeetaMockStreamNode/src/csv.h:220-222 | While no call is made the threads change block three only, so a pointer to a line stays good until the next call. |
| `ThreadedLineReaders.CallsGoOn` | testsuite/SeetaMockStreamNode/src/csv.h:436-485 | In every interleaving a call, the constructor or the destructor that has not returned can go on: none waits for a worker that is gone. |
| `ThreadedLineReaders.CallsAreShort` | testsuite/SeetaMockStreamNode/src/csv.h:436-485 | From every state that can be reached, while the client does nothing, the number of steps is bounded by the work there was and three for each spurious wakeup; with the row above every call returns, and so does the destructor. |
| `ThreadedLineReaders.ClosedIsQuiet` | testsuite/SeetaMockStreamNode/src/csv.h:261-270 | When the destructor has returned, a worker that was started is gone, and no step of anybody is possible any more, so nothing writes into the buffer that is then freed. |
| `Quoting.ScanIsParity` | testsuite/SeetaMockStreamNode/src/csv.h:755-771 | The column scan stops at the first separator or end of text that has an even number of quotes before it, and fails exactly when the text ends inside quotes with no such place before. |
| `Quoting.TrimIsTrimmed` | testsuite/SeetaMockStreamNode/src/csv.h:685-691 | Trimming drops trim characters only, from both ends only, and leaves none there. |
| `Quoting.TrimOfPadded` | testsuite/SeetaMockStreamNode/src/csv.h:685-691 | Conversely any padding of trim characters around a text that has none at its ends is dropped, and the text is left. |
| `Quoting.UndoubleDouble` | testsuite/SeetaMockStreamNode/src/csv.h:778-785 | Dropping one of two adjacent quotes undoes doubling them, for every text. |
| `Quoting.DoubleUndouble` | testsuite/SeetaMockStreamNode/src/csv.h:778-785 | Conversely doubling gives a text back exactly when all its quotes were in pairs. |
| `Quoting.UndoubleRun` | testsuite/SeetaMockStreamNode/src/csv.h:778-785 | Of a run of quotes half are left, rounded up. |
| `Quoting.UndoubleOther` | testsuite/SeetaMockStreamNode/src/csv.h:778-785 | And every other byte stays; with the row above that says what becomes of every text. |
| `Quoting.UnescapeQuoted` | testsuite/SeetaMockStreamNode/src/csv.h:773-789 | Unescaping the quoted form of any cell gives the cell. |
| `Quoting.UnescapeMeaning` | testsuite/SeetaMockStreamNode/src/csv.h:773-789 | A column that is not between two quotes is left as it is, under either policy; one that is loses them. |
| `Quoting.FieldOfSpelled` | testsuite/SeetaMockStreamNode/src/csv.h:859-862 | However a cell is written, between quotes or (if it holds no separator and no quote and nothing to trim) without, and padded with any trim characters, trimming and unescaping give the cell. |
| `Quoting.ColumnEndOfSpelled` | testsuite/SeetaMockStreamNode/src/csv.h:755-771 | The scan stops exactly at the end of a cell that is written so and ends the text or is followed by a separator. |
| `Rows.JoinRawColumns` | testsuite/SeetaMockStreamNode/src/csv.h:829-844 | Splitting a line into columns loses nothing: the columns joined by the separator are the line. |
| `Rows.ColumnCount` | testsuite/SeetaMockStreamNode/src/csv.h:829-867 | A line has one more column than it has separators after an even number of quotes, and its last column is closed exactly when its quotes are balanced. |
| `Rows.ParsesIffCountMatches` | testsuite/SeetaMockStreamNode/src/csv.h:846-867 | Parsing a line with balanced quotes succeeds exactly when the number of columns is the one wanted, and otherwise says too few or too many; unbalanced quotes are reported only if the columns before them do not exceed the row. |
| `Rows.CellsKeys` | testsuite/SeetaMockStreamNode/src/csv.h:858-862 | A row slot gets content exactly when the column order names it. |
| `Rows.CellsMeaning` | testsuite/SeetaMockStreamNode/src/csv.h:858-862 | A row slot holds the content of the last column that feeds it. |
| `Rows.RowRoundTrip` | testsuite/SeetaMockStreamNode/src/csv.h:846-867 | Every non-empty row, each of its cells written in any of these ways under either quote policy, reads back cell by cell, and parses for exactly its own number of columns. |
| `Headers.HeaderMeaning` | testsuite/SeetaMockStreamNode/src/csv.h:869-918 | A header is accepted if and only if its quotes are closed, it names no requested column twice, and it has extra or missing columns only where these are ignored; then each column feeds the requested column of its name. |
| `Headers.HeaderErrors` | testsuite/SeetaMockStreamNode/src/csv.h:880-917 | Which error is reported, and with which name: an extra or duplicated column if and only if that is the first column that is not requested (unless extra ones are ignored) or requested and repeated; otherwise open quotes if and only if they are open; otherwise a missing column if and only if it is the first requested one that the header lacks and missing ones are not ignored. |
| `Headers.RefusedOrder` | testsuite/SeetaMockStreamNode/src/csv.h:876-908 | A header with a refused column leaves the order of exactly the columns before it. |
| `Headers.OrderIsPermutation` | testsuite/SeetaMockStreamNode/src/csv.h:869-918 | After an accepted header no two columns feed the same slot, and unless missing columns are ignored every slot is fed by exactly one column. |
| `Headers.WalkInRange` | testsuite/SeetaMockStreamNode/src/csv.h:876-908 | Even a header that is refused half-way leaves a column order whose entries are -1 or requested columns. |
| `Parsing.FindNextColumnEnd` | testsuite/SeetaMockStreamNode/src/csv.h:740-771 | Under either quote policy the scan returns the end of the column, or fails, as the parity characterisation says. |
| `Parsing.NextUnquotedSeparator` | testsuite/SeetaMockStreamNode/src/csv.h:755-771 | With quotes, the outer scan loop returns the first separator or NUL outside quotes, or fails as the parity characterisation says. |
| `Parsing.SkipQuoted` | testsuite/SeetaMockStreamNode/src/csv.h:759-769 | The do-while loop passes over adjacent quoted stretches to a place outside quotes, or fails because the text ends inside. |
| `Parsing.TrimColumn` | testsuite/SeetaMockStreamNode/src/csv.h:685-691 | Leaves the trimmed text between the new ends, writes one NUL behind it and nothing else. |
| `Parsing.UndoubleInPlace` | testsuite/SeetaMockStreamNode/src/csv.h:778-787 | The in-place loop, whose write index never passes its read index, leaves the undoubled text and a NUL, and changes nothing outside the column. |
| `Parsing.UnescapeColumn` | testsuite/SeetaMockStreamNode/src/csv.h:773-789 | Leaves the unescaped text between the new ends, NUL-terminated, and changes nothing outside the column. |
| `Parsing.ChopNextColumn` | testsuite/SeetaMockStreamNode/src/csv.h:828-844 | Cuts one column off a line, writing only the NUL at its end; a failed scan leaves the line as it was. |
| `Parsing.CleanColumn` | testsuite/SeetaMockStreamNode/src/csv.h:859-862 | Trim and unescape leave a pointer to a C string with the content of the column, inside the column. |
| `Parsing.TakeColumn` | testsuite/SeetaMockStreamNode/src/csv.h:853-863 | One column is taken: its slot points at its content, the rest of the line is intact, no other slot and no byte outside the column has changed. |
| `Parsing.DeliveredStep` | testsuite/SeetaMockStreamNode/src/csv.h:852-864 | Taking a further column leaves every slot delivered before pointing at the same content. |
| `Parsing.ParseLine` | testsuite/SeetaMockStreamNode/src/csv.h:846-867 | Every slot that the order names points at a C string with the content of its column, inside the line; other slots and bytes outside the line are unchanged; the outcome is the one the column count demands, and on failure the columns before it are delivered. |
| `Parsing.RecordName` | testsuite/SeetaMockStreamNode/src/csv.h:887-907 | Looks a column name up and extends the order, or refuses the column as extra or duplicated. |
| `Parsing.ParseHeaderLine` | testsuite/SeetaMockStreamNode/src/csv.h:869-918 | Parses a header in place to the order or the error that the names of its columns demand, and changes no byte outside the line. |
| `Tables.RowIsReported` | testsuite/SeetaMockStreamNode/src/csv.h:1216-1245 | What read_row comes to for each event of the file: the end of the rows for the end of the file and for nothing else, and for a line the error that its separators and quotes call for, or a row. |
| `Tables.RowContents` | testsuite/SeetaMockStreamNode/src/csv.h:846-867 | A row that is read has in each requested column the content of the last column of the line that feeds it, and nothing in the others. |
| `Tables.EndsWellIff` | testsuite/SeetaMockStreamNode/src/csv.h:1216-1245 | Reading rows until none is left ends without an error if and only if every line up to the end of the file has balanced quotes and as many columns as the order. |
| `Tables.HeaderIsReported` | testsuite/SeetaMockStreamNode/src/csv.h:1130-1150 | What read_header comes to for each event of the file, and the column order after it. |
| `Tables.PlainCellsCanBeWritten` | testsuite/SeetaMockStreamNode/src/csv.h:436-485 | Cells that hold no NUL and no newline can be written whenever their line fits in a block and does not end in a carriage return of its own. |
| `Tables.RowThroughHeader` | testsuite/SeetaMockStreamNode/src/csv.h:852-918 | Through the order of an accepted header every requested column has the cell under the header of its name, and none if there is no such header. |
| `Tables.RowsRoundTrip` | testsuite/SeetaMockStreamNode/src/csv.h:1216-1245 | Reading rows until none is left gives every row that was written, through any column order, and ends well unless the newline behind the last line is left out and stands in memory. |
| `Tables.TableRoundTrip` | testsuite/SeetaMockStreamNode/src/csv.h:1130-1245 | For every table, each cell quoted or not and padded in any way in which it can be written, each line ending in 10 or in 13 10, with or without the last newline and with or without a byte order mark, under either quote policy, and for every acceptable request in any order: the header and all rows read back, each requested column with the cell under the header of its name. |
| `CsvReaders.CSVReader.constructor` | testsuite/SeetaMockStreamNode/src/csv.h:1116-1123 | A new reader has null slots and the identity as its column order. |
| `CsvReaders.CSVReader.ReadHeader` | testsuite/SeetaMockStreamNode/src/csv.h:1130-1150 | Reports what the next event of the file demands and sets the column order accordingly: which error and with which name as in `Headers.HeaderErrors`, and no change of the order if there is no header; and leaves the line reader intact although its buffer was rewritten. |
| `CsvReaders.CSVReader.ReadRow` | testsuite/SeetaMockStreamNode/src/csv.h:1216-1245 | Reports the end of the rows if and only if the file is at its end, and each error if and only if the separators and quotes of the line call for it; otherwise feeds exactly the columns of the order. A slot without a column keeps its pointer, and its value is what that pointer shows in the buffer after the line has been parsed; if a string does not end before the buffer does, the copy runs past it. So a row that parses is the row that its line demands if and only if no slot without a column has a pointer left from an earlier header. |
| `CsvReaders.CSVReader.FillRow` | testsuite/SeetaMockStreamNode/src/csv.h:1231-1232 | Parsing in the buffer of the line reader delivers the cells and keeps that reader valid. |
| `CsvReaders.CSVReader.CopyRow` | testsuite/SeetaMockStreamNode/src/csv.h:1196-1211 | Copies the string at each non-null slot, also one that an earlier header has left; a null slot leaves its value alone. It runs past the buffer if and only if some slot points at a string that does not end in it. |
| `CsvReaders.ReadTable` | testsuite/SeetaMockStreamNode/test_main.cpp:41-52 | The client loop: a header and then rows until none is left or one fails gives the rows of the file up to there, and why it ended: without an error only at the end of the file. |
| `CsvReaders.ReadFile` | testsuite/SeetaMockStreamNode/test_main.cpp:38-57 | Opening a file and reading it all gives the table of the bytes of the file, with the same report, and of the byte behind them, which for a file of at least three blocks is the one a block before its end. |
| `CsvReaders.TwoHeaders` | testsuite/SeetaMockStreamNode/src/csv.h:1130-1245 | On any file of two headers of one column each, with a row behind each, the row behind the second header is never the one its line demands. |
| `CsvReaders.StaleColumn` | testsuite/SeetaMockStreamNode/src/csv.h:1130-1245 | A concrete file of that kind, opened with a new reader. |
| `CsvReaders.WriteThenRead` | testsuite/SeetaMockStreamNode/src/csv.h:1086-1246 | The round trip through the buffer: a table written to a byte source in any of these ways and read with a new reader comes back whole. |
| `Integers.OverflowTestExact` | testsuite/SeetaMockStreamNode/src/csv.h:951-955 | The test before a digit is appended tells exactly whether the number would be too great, and no intermediate value leaves the range. |
| `Integers.UnderflowTestExact` | testsuite/SeetaMockStreamNode/src/csv.h:982-986 | The same for negative numbers, with division that truncates towards zero. |
| `Integers.FlooringIsInexact` | testsuite/SeetaMockStreamNode/src/csv.h:982-986 | With division that rounds down the test would let -129 pass for a signed char. |
| `Integers.ParseUnsignedInteger` | testsuite/SeetaMockStreamNode/src/csv.h:945-960 | For every text and policy: the digits before the first other byte decide about overflow, and only then is the other byte reported. |
| `Integers.ParseNegativeInteger` | testsuite/SeetaMockStreamNode/src/csv.h:975-991 | The same behind a minus sign, for underflow. |
| `Integers.ParseSignedInteger` | testsuite/SeetaMockStreamNode/src/csv.h:973-995 | Both together, with an optional plus sign. |
| `Integers.SignedMeaning` | testsuite/SeetaMockStreamNode/src/csv.h:973-995 | The result for every text, which is a sign, digits and a rest, under every policy: if the digits make a number that the type does not hold, the exception, the limit, or the value of the leading digits that still fit, whatever stands behind them; otherwise the number if nothing is left, and the error for another byte if something is. |
| `Integers.NoDigitsIsZero` | testsuite/SeetaMockStreamNode/src/csv.h:945-995 | A text without digits, with or without a sign, is read as zero. |
| `Integers.SignedIsExact` | testsuite/SeetaMockStreamNode/src/csv.h:973-995 | For every range with min <= -9 and max >= 9 and every optionally signed digit string: the decimal value if it lies in the range, else underflow or overflow. |
| `Integers.ResultFits` | testsuite/SeetaMockStreamNode/src/csv.h:794-824 | Under every policy a number that is returned lies in the range. |
| `Integers.PrintThenParse` | testsuite/SeetaMockStreamNode/src/csv.h:973-995 | Every number of the range is read back as it was printed. |
| `Floats.Scale` | testsuite/SeetaMockStreamNode/src/csv.h:1051-1060 | The squaring loop terminates and multiplies by the power it is asked for. |
| `Floats.ReadWhole` | testsuite/SeetaMockStreamNode/src/csv.h:1017-1023 | The first digit loop gives the value of the digits. |
| `Floats.ReadFraction` | testsuite/SeetaMockStreamNode/src/csv.h:1025-1034 | The second digit loop moves the value of all digits by the places behind the point. |
| `Floats.ReadExponent` | testsuite/SeetaMockStreamNode/src/csv.h:1036-1065 | The exponent of a text, saturated to the range of int, or the error for another byte. |
| `Floats.ParseFloat` | testsuite/SeetaMockStreamNode/src/csv.h:1009-1069 | For every text: the number that its parts denote, or the error, or that the exponent has no negation. |
| `Floats.DecimalParts` | testsuite/SeetaMockStreamNode/src/csv.h:1009-1069 | Every decimal text is taken apart into its own sign, digits and the nearest exponent that an int holds, whatever stands behind an exponent that it does not hold; if that exponent has no negation, the parser overflows there. |
| `Floats.DecimalIsExact` | testsuite/SeetaMockStreamNode/src/csv.h:1009-1069 | So a text whose exponent is an int with a negation gives sign times mantissa times the power of ten. |
| `Floats.DecimalRightIff` | testsuite/SeetaMockStreamNode/src/csv.h:1009-1069 | For every decimal text the parser returns the number that it denotes if and only if its exponent is an int with a negation, or its digits are all zero and the nearest int has a negation. |
| `Floats.NoNegationIff` | testsuite/SeetaMockStreamNode/src/csv.h:1041-1047 | The negation of the exponent overflows if and only if the least int has none and the exponent is that small. |
| `Floats.NotANumberIff` | testsuite/SeetaMockStreamNode/src/csv.h:1009-1069 | A text is refused if and only if it is neither a decimal text nor one whose exponent an int does not hold, with anything behind it. |
| `Floats.CommaNumber` | testsuite/SeetaMockStreamNode/src/csv.h:1009-1069 | The bytes of "-2,5E-1" are read as -0.25. |
| `Floats.DotNumber` | testsuite/SeetaMockStreamNode/src/csv.h:1009-1069 | The bytes of "2.5e1" are read as 25. |
| `Floats.PlacesMeaning` | testsuite/SeetaMockStreamNode/src/csv.h:1027-1033 | Moving a number by places behind the point and multiplying by that power of ten gives it back. |
| `Floats.TenToCancels` | testsuite/SeetaMockStreamNode/src/csv.h:1043-1060 | Powers of ten with opposite exponents cancel. |
| `Cells.ParseCell` | testsuite/SeetaMockStreamNode/src/csv.h:920-943 | A cell is parsed into a string, a single character, an integer or a floating-point number, or refused with the error of its kind. |
| `Cells.StandsForIsRead` | testsuite/SeetaMockStreamNode/src/csv.h:920-1069 | A text that stands for a value of its target (any text; one character; digits; a signed integer in range; a decimal text) is read as that value, under every policy. |
| `Cells.RefusedIff` | testsuite/SeetaMockStreamNode/src/csv.h:920-943 | A text is refused as a character if and only if its length is not one, and as a floating-point number if and only if `Floats.NotANumberIff` says so; a string is never refused. |
| `Cells.IntegerRefusedIff` | testsuite/SeetaMockStreamNode/src/csv.h:945-995 | And as an integer if and only if its digits make a number that the type does not hold and the policy throws, or they do not and something stands behind them. |
| `Cells.ParseCells` | testsuite/SeetaMockStreamNode/src/csv.h:1196-1211 | A row is parsed into typed variables column by column up to the first cell that is refused; variables without a cell, and those behind the refused one, are as they were. |
| `Cells.WriteThenReadValues` | testsuite/SeetaMockStreamNode/src/csv.h:1086-1246 | A table whose cells stand for values of the types of the requested variables, written in any way in which it can be written, read with a new reader through the buffer and parsed, comes back whole, each variable with the value under the header of its name. |
| `DoorWorkers.DoorSwitchChannelController.RunTurn` | src/DoorSwitchChannelController.cpp:74-125 | One turn of the loop, with arrivals at both points where the worker can tell, changes queue, flag and commands as the loop body decides. |
| `DoorWorkers.DoorSwitchChannelController.Run` | src/DoorSwitchChannelController.cpp:68-126 | The loop over any finite number of turns is the run of its turns, and for a new controller leaves what the arrivals foretell. |
| `DoorWorkers.TasksAreConserved` | src/DoorSwitchChannelController.cpp:81-125 | No request is lost, invented or overtaken: those that arrived, in order, are the ones taken and then the ones queued. |
| `DoorWorkers.RunIsForetold` | src/DoorSwitchChannelController.cpp:68-126 | For either type of switch: which tasks are served, the commands that are sent, the queue and the flag after any number of turns are told by when which tasks arrived and how long each had waited. Turn number i takes task number i and serves it if and only if it has not expired. |
| `DoorWorkers.FeasibleIff` | src/DoorSwitchChannelController.cpp:76-90 | The worker goes on exactly as long as the task of each turn has come. |
| `DoorWorkers.DirectAlternates` | src/DoorSwitchChannelController.cpp:111-124 | While no request is found expired, the commands of a direct switch strictly alternate, the door is open at the loop head exactly when the flag is set, and then the queue is not empty. |
| `DoorWorkers.InStepIff` | src/DoorSwitchChannelController.cpp:92-124 | With expired requests that holds at every loop head if and only if each request that has expired in the turn that takes it was queued before that turn exactly if its turn leaves another one queued; whether it has expired and what is queued are counted from the arrivals alone. |
| `DoorWorkers.ExpiryLeavesDoorOpen` | src/DoorSwitchChannelController.cpp:93-99 | A concrete run in which an expired request leaves the door open with an empty queue and the flag cleared. |
| `DoorWorkers.IndirectPairs` | src/DoorSwitchChannelController.cpp:104-110 | Whatever the durations and expiries, an indirect switch is sent one open and one close for each task that had not expired when it was taken, in order of arrival, and nothing for the others: twice as many commands as such tasks, alternating, and closed at the end. |
| `DoorWorkers.PairsAlternate` | src/DoorSwitchChannelController.cpp:104-110 | Such commands alternate and leave the door closed. |
| `DoorTiming.TakenInTime` | src/DoorSwitchChannelController.h:33-41 | A request that is taken in time has exactly its deadline left. |
| `DoorTiming.TickKeeps` | src/DoorSwitchChannelController.cpp:92-124 | One turn in time keeps: it is the deadline of the last request, the flag says whether the next has come, and so far the door has been open exactly when requested. |
| `DoorTiming.ExpiredIff` | src/DoorSwitchChannelController.cpp:92-100 | With positive durations, exact sleeps and no processing time a request is found expired if and only if an earlier one has a deadline that is no earlier. |
| `DoorTiming.NoneExpiresIff` | src/DoorSwitchChannelController.cpp:92-100 | So the expired branch is never taken if and only if deadlines strictly increase in queue order. |
| `DoorTiming.OpenExactlyWhenRequested` | src/DoorSwitchChannelController.cpp:111-124 | Then the door has been open at exactly those times at which some request was running; `DoorOverlaps` has the case of other deadlines. |
| `DoorTiming.OnePeriodPerChain` | src/DoorSwitchChannelController.cpp:111-124 | And the commands are one open and one close for each period, the open at its begin and the close at its end. |
| `DoorTiming.PeriodsAreChains` | src/DoorSwitchChannelController.cpp:111-124 | The periods are those of the maximal chains: the requests are cut, in order, into runs in which each comes before the deadline of the one before it and the first does not, and the period of a run is from the arrival of its first request to the deadline of its last. |
| `DoorTiming.PeriodsAreApart` | src/DoorSwitchChannelController.cpp:111-124 | No period is empty and none begins before the one before it has ended. |
| `DoorTiming.TimedIsARun` | src/DoorSwitchChannelController.cpp:68-126 | The worker in time is the run of the worker loop in which every request is queued at its own time: the queue at each loop head holds exactly the requests that have come and were not taken. |
| `DoorTiming.FlagRightIff` | src/DoorSwitchChannelController.cpp:92-124 | For requests in any order of deadlines: the flag says at every loop head whether the door is open if and only if no request has a deadline that is no later than the latest before it while the next request has not come by that time; and then the commands strictly alternate. |
| `DoorOverlaps.OpenWhenRequestedOrLeft` | src/DoorSwitchChannelController.cpp:68-126 | For positive requests in order of arrival and with any deadlines: the door is open at exactly those times at which some request is running, or a request has been found expired, all before it have ended, and the next has not come yet. |
| `DoorOverlaps.OpenAsRequestedIff` | src/DoorSwitchChannelController.cpp:92-124 | So the door is open exactly when requested if and only if no request has a deadline that is no later than the latest before it while the next request comes after that time or never. |
| `DoorHandlers.DoorSwitchHandler.Connect` | src/DoorSwitchHandler.cpp:20-27 | The first connect leaves the handler either connected or trying again after the right time, connected if and only if the attempt reached the switch; a further one keeps that if and only if it does not succeed while the timer is on. |
| `DoorHandlers.DoorSwitchHandler.OnReconnTimer` | src/DoorSwitchHandler.cpp:38-54 | An attempt that reaches the switch leaves the handler connected with the timer off; one that does not leaves it trying, with one more failed attempt, after which the interval is the one for that many. |
| `DoorHandlers.DoorSwitchHandler.HandleRWError` | src/DoorSwitchHandler.cpp:102-110 | A lost connection leaves the handler not connected and trying: anew, unless that is under way. |
| `DoorHandlers.DoorSwitchHandler.Handle` | src/DoorSwitchHandler.cpp:38-110 | After any timer events and errors the handler is connected if and only if the last of them was a success, and otherwise trying again after the right time for the attempts that have failed. |
| `DoorHandlers.DoorSwitchHandler.OpenDoor` | src/DoorSwitchHandler.cpp:68-100 | Refuses without a connection; otherwise hands the request to a known door, or sets up the controller that crbegin finds. |
| `DoorHandlers.DoorSwitchHandler.OpenDoors` | src/DoorSwitchHandler.cpp:68-100 | After any requests to a connected switch every door works if and only if new ones were asked for in the order of their channels; and then each has been given the durations that were asked of it, in order. |
| `DoorHandlers.ConnectedOrTrying` | src/DoorSwitchHandler.cpp:20-110 | Whatever happens after the first connect, the handler is connected if and only if the last thing that happened was an attempt that reached the switch. Otherwise its timer is on, and the interval after k failed attempts since the last success is two to the power of the lesser of k + 1 and 8, in seconds. |
| `DoorHandlers.PossibleIff` | src/DoorSwitchHandler.cpp:29-54 | The timer can fire whenever the last thing that happened was not a success, and only then. |
| `DoorHandlers.ConnectAgain` | src/DoorSwitchHandler.cpp:20-27 | A further connect keeps that if and only if it fails or the timer is off. |
| `DoorHandlers.RoutedIffLast` | src/DoorSwitchHandler.cpp:72-94 | A request keeps every door with its own controller if its channel is known or greater than all known ones; otherwise the new controller is never started. |
| `DoorHandlers.RequestGoesTo` | src/DoorSwitchHandler.cpp:72-94 | Which controller gets the duration of a request: that of a known door, behind what it was given before; a new one, as its first, if the door comes last; and otherwise that of the last door, which then commands the new door, whose own is left as it was constructed. No other controller changes. |
| `DoorHandlers.RoutedIffInOrder` | src/DoorSwitchHandler.cpp:72-94 | After any requests every door has its own working controller if and only if new doors were asked for in the order of their channels. |
| `DoorHandlers.EveryDoorGetsItsOwn` | src/DoorSwitchHandler.cpp:72-94 | When new doors are asked for in the order of their channels, every door is given the durations that were asked of it, in order, and nothing else. |

## Left out

- `LineReaders.LineReader.NextLine`: the worker of the class does a whole read at once, at any of the points between two iterations of the scan, before and after the copies, and between calls; that the read is done by a second thread, step by step, is the subject of `ThreadedLineReaders`, where in turn the scan is one step.
- `ThreadedLineReaders.EveryInterleavingReadsTheFile`: destroying a line reader whose construction has not ended, or while a call is under way, is not a run.
- Byte sources whose reads are short before the end of the data or fail: the line reader is modelled over a source that gives what is asked for or all that is left; `AsyncReaders` takes any script of reads, exceptions included.
- The source in `AsyncReaders` is a script of what its reads give, one entry for each read; the number of bytes asked for is not compared with it.
- After an exception from finish_read no further start is modelled: the line reader passes the exception on.
- Comment policies other than `no_comment`, `set_header`, `has_column`, column and file names in errors, and the texts of errors: no local algorithm.
- `Cells.ParseCells`: cells are parsed from their copied texts, not from the buffer; a variable whose cell is refused holds nothing that is stated.
- Rounding of floating-point numbers: `parse_float` is modelled over exact reals. A negation that has no value in int is a result of its own.
- `Integers.ParseUnsignedInteger`: numbers are unbounded, with the least and greatest value of the type as parameters; that no intermediate value leaves the range is stated by the two test lemmas.
- `DoorWorkers.DoorSwitchChannelController.Run`: an endless loop is modelled by all its finite prefixes; `close` and the shutdown of the worker are not modelled, because what the queue then does is not part of the repository.
- A failing write in `sendData`, which calls the error handler of the switch, and the replies of the relay: commands are recorded when they are sent.
- `ERR_CHANNEL_NOT_INITIALIZED`: `Init` of a controller always succeeds in the code, so that result is never given.
- `DoorTiming.OpenExactlyWhenRequested`: assumes deadlines that increase in queue order; `DoorOverlaps.OpenAsRequestedIff` does not.
- `DoorOverlaps.OpenWhenRequestedOrLeft`: whole milliseconds, exact sleeps and no processing time are assumed, as in all of `DoorTiming`.
- `DoorHandlers.ConnectedOrTrying`: handlers are atomic steps; the two flags are set separately in the code, so finer interleavings can show both or neither.
- The bytes of the open and close commands: they are the values Open and Close.
- The 30-second reply timer, MQTT, MongoDB, JSON, logging, configuration and the mock programs: library plumbing.
