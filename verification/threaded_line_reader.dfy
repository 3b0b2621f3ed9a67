/**
 The line reader together with the threaded reader that it shares its buffer with. Between any two
 steps of next_line either thread may take a step, and the worker reads into block three of the very
 buffer in which next_line copies blocks and cuts lines.
 */
module ThreadedLineReaders {
  import opened Bytes
  import opened Lines
  import opened Windows
  import AsyncReaders

  // ----- the reads of the source -----

  /** How much of the file has been read when `i` blocks have been read ahead. */
  function ReadAheadTo(f: File, i: nat): (pos: nat)
    ensures pos <= |f.input|
  {
    if i == 0 then if |f.input| < 2 * f.blockLen then |f.input| else 2 * f.blockLen
    else ReadAheadTo(f, i - 1) + Available(f, ReadAheadTo(f, i - 1))
  }

  /** Read-ahead number `i`: the next block, or what is left of the file. */
  function Chunk(f: File, i: nat): AsyncReaders.Attempt {
    AsyncReaders.Gives(f.input[ReadAheadTo(f, i)..ReadAheadTo(f, i + 1)])
  }

  function Script(f: File): seq<AsyncReaders.Attempt> {
    seq(|f.input|, i requires 0 <= i => Chunk(f, i))
  }

  lemma {:induction false} ReadsAdvance(f: File, i: nat)
    requires 0 < f.blockLen
    ensures i <= ReadAheadTo(f, i) || ReadAheadTo(f, i) == |f.input|
  {
    if i > 0 {
      ReadsAdvance(f, i - 1);
    }
  }

  lemma ScriptIsChunks(f: File, i: nat)
    requires f.Valid()
    ensures AsyncReaders.AttemptAt(Script(f), i) == Chunk(f, i)
  {
    ReadsAdvance(f, i);
  }

  // ----- the machine -----

  /** Where the consumer is in the code of the line reader: starting the first read-ahead, between two
      calls, waiting for the awaited block, about to scan once the next read is started, waiting for the
      worker in the destructor, or behind it. */
  datatype Phase = Opening | Between | Finishing | Scanning | Closing | Closed

  /** The fields of the line reader, the two threads, and what the calls have reported so far, each with
      the buffer as it was then. */
  datatype Joined = Joined(w: Window, threads: AsyncReaders.State, phase: Phase, reports: seq<(Outcome, Text)>)

  /** The client calls next_line, rewrites bytes of lines that it was given, or destroys the line reader;
      the consumer goes on in its call; a thread takes a step inside the reader, or wakes up without being
      notified. */
  datatype Move =
    | Call
    | Rewrite(front: Text)
    | Destroy
    | Proceed
    | Threads(move: AsyncReaders.Move)

  predicate ByThemselves(move: AsyncReaders.Move) {
    AsyncReaders.Internal(move) || AsyncReaders.Spurious(move)
  }

  /** The buffer with other bytes in block three. */
  function Shown(buf: Text, n: nat, block: Text): Text
    requires 2 * n <= |buf|
  {
    buf[..2 * n] + block
  }

  /** After construction has read two blocks, and if there were two it starts the read-ahead. */
  ghost function Opened(f: File): Joined
    requires f.Valid()
  {
    var (w, n) := (Initial(f), f.blockLen);
    var idle := AsyncReaders.Init(w.buf[2 * n..]);
    if w.fed then Joined(w, idle.(consumer := AsyncReaders.StartEntering(n)), Opening, [])
    else Joined(w, idle, Between, [])
  }

  function Reporting(j: Joined, o: Outcome): Joined {
    j.(phase := Between, reports := j.reports + [(o, j.w.buf)])
  }

  /** next_line up to the call of finish_read, or up to the scan if no block is awaited. */
  function CalledNext(f: File, j: Joined): Option<Joined>
    requires |j.w.buf| == 3 * f.blockLen
  {
    if j.w.begin == j.w.end then Some(Reporting(j, NoLine))
    else if j.w.end < j.w.begin then Some(Reporting(j, Aborted))
    else if j.w.begin < f.blockLen then Some(j.(phase := Scanning))
    else
      var slid := j.(w := Slid(f, j.w));
      if !j.w.fed then Some(slid.(phase := Scanning))
      else match AsyncReaders.Step(Script(f), j.threads, AsyncReaders.Finish)
        case None => None
        case Some(t) => Some(slid.(threads := t, phase := Finishing))
  }

  /** The block in block three, `count` bytes of it new, is appended to the window. */
  function Appended(f: File, w: Window, count: nat): Window
    requires |w.buf| == 3 * f.blockLen
  {
    var n := f.blockLen;
    w.(buf := Copied(w.buf, n, 2 * n, n), end := w.end + count, ended := count == 0)
  }

  /** After finish_read has returned: the block is appended and the next read is started. */
  function Finished(f: File, j: Joined): Option<Joined>
    requires |j.w.buf| == 3 * f.blockLen && j.threads.log != []
  {
    match j.threads.log[|j.threads.log| - 1]
    case Threw => None
    case Count(count) =>
      match AsyncReaders.Step(Script(f), j.threads, AsyncReaders.Start(f.blockLen))
      case None => None
      case Some(t) => Some(j.(w := Appended(f, j.w, count), threads := t, phase := Scanning))
  }

  /** The destructor of the reader, which waits for the worker if there is one. */
  function Destroyed(f: File, j: Joined): Option<Joined> {
    if !j.w.fed then Some(j.(phase := Closed))
    else match AsyncReaders.Step(Script(f), j.threads, AsyncReaders.Destroy)
      case None => None
      case Some(t) => Some(j.(threads := t, phase := Closing))
  }

  /** The call into the reader has returned. */
  predicate HasReturned(j: Joined) {
    if j.phase == Closing then j.threads.consumer.WorkerJoined? else j.threads.consumer.Idle?
  }

  /** The consumer goes on where a call into the reader has returned. */
  function Proceeded(f: File, j: Joined): Option<Joined>
    requires |j.w.buf| == 3 * f.blockLen
  {
    match j.phase
    case Between => None
    case Closed => None
    case Opening => Some(j.(phase := Between))
    case Closing => Some(j.(phase := Closed))
    case Finishing => if j.threads.log == [] then None else Finished(f, j)
    case Scanning =>
      if !(j.w.begin <= j.w.end < |j.w.buf|) then None
      else
        var (o, w) := Scanned(f, j.w);
        Some(Reporting(j.(w := w), o))
  }

  /** One step, if it is possible. The tests of sizes only make the function total: `CallsGoOn` says that
      they never stop a call. */
  function Step(f: File, j: Joined, move: Move): Option<Joined>
    requires |j.w.buf| == 3 * f.blockLen
  {
    match move
    case Call => if j.phase == Between then CalledNext(f, j) else None
    case Rewrite(front) =>
      if j.phase == Between && |front| <= j.w.begin && |front| <= 2 * f.blockLen then
        Some(j.(w := j.w.(buf := front + j.w.buf[|front|..])))
      else None
    case Destroy => if j.phase == Between then Destroyed(f, j) else None
    case Proceed => if HasReturned(j) then Proceeded(f, j) else None
    case Threads(m) =>
      if !j.w.fed || !ByThemselves(m) then None
      else match AsyncReaders.Step(Script(f), j.threads, m)
        case None => None
        case Some(t) =>
          if |t.block| != f.blockLen then None
          else Some(j.(threads := t, w := j.w.(buf := Shown(j.w.buf, f.blockLen, t.block))))
  }

  /** The state after a run, if each of its steps is possible. */
  function Run(f: File, j: Joined, moves: seq<Move>): (r: Option<Joined>)
    requires |j.w.buf| == 3 * f.blockLen
    ensures r.Some? ==> |r.value.w.buf| == 3 * f.blockLen
    decreases |moves|
  {
    if moves == [] then Some(j)
    else match Step(f, j, moves[0])
      case None => None
      case Some(j') => Run(f, j', moves[1..])
  }

  // ----- what the finishes return and leave in block three -----

  /** Block three after `k` finishes of the synchronous reader. */
  ghost function SyncBlock(f: File, k: nat): Text
    requires f.Valid()
  {
    AsyncReaders.SyncAfter(Script(f), f.memory[2 * f.blockLen..], k).block
  }

  ghost predicate ThreadsSound(f: File, s: AsyncReaders.State)
    requires f.Valid()
  {
    AsyncReaders.Inv(Script(f), f.memory[2 * f.blockLen..], s)
  }

  lemma {:induction false} SyncBlockLength(f: File, k: nat)
    requires f.Valid()
    ensures |SyncBlock(f, k)| == f.blockLen
  {
    if k > 0 {
      SyncBlockLength(f, k - 1);
      ScriptIsChunks(f, k - 1);
    }
  }

  /** Finish number `i` returns the number of bytes of read number `i`. */
  lemma FinishCounts(f: File, s: AsyncReaders.State, i: nat)
    requires f.Valid() && ThreadsSound(f, s) && i < |s.log|
    ensures s.log[i] == AsyncReaders.Count(Available(f, ReadAheadTo(f, i)))
  {
    ScriptIsChunks(f, i);
    AsyncReaders.SyncResult(Script(f), f.memory[2 * f.blockLen..], |s.log|, i,
                            AsyncReaders.ResultOf(AsyncReaders.AttemptAt(Script(f), i)));
  }

  /** No read of the file throws, so no finish does. */
  lemma NothingThrows(f: File, s: AsyncReaders.State)
    requires f.Valid() && ThreadsSound(f, s)
    ensures AsyncReaders.Threw !in s.log && !s.error
  {
    if AsyncReaders.Threw in s.log {
      var i :| 0 <= i < |s.log| && s.log[i] == AsyncReaders.Threw;
      FinishCounts(f, s, i);
    }
    if s.error {
      ScriptIsChunks(f, s.taken - 1);
    }
  }

  /** The next read puts its bytes where the synchronous read would. */
  lemma SyncBlockIsStored(f: File, buf: Text, k: nat)
    requires f.Valid() && |buf| == 3 * f.blockLen && buf[2 * f.blockLen..] == SyncBlock(f, k)
    ensures Shown(buf, f.blockLen, SyncBlock(f, k + 1))
      == Stored(buf, 2 * f.blockLen, f.input, ReadAheadTo(f, k), Available(f, ReadAheadTo(f, k)))
  {
    ScriptIsChunks(f, k);
    FillIsStored(buf, f.blockLen, f.input, ReadAheadTo(f, k), Available(f, ReadAheadTo(f, k)));
  }

  lemma FillIsStored(buf: Text, n: nat, data: Text, pos: nat, count: nat)
    requires |buf| == 3 * n && count <= n && pos + count <= |data|
    ensures Shown(buf, n, AsyncReaders.Fill(buf[2 * n..], AsyncReaders.Gives(data[pos..pos + count])))
      == Stored(buf, 2 * n, data, pos, count)
  {
  }

  // ----- where the consumer can be -----

  predicate InStart(c: AsyncReaders.Consumer) {
    c.StartEntering? || c.StartNotifying?
  }

  predicate InFinish(c: AsyncReaders.Consumer) {
    c.FinishEntering? || c.FinishChecking? || c.FinishWaiting? || c.FinishWoken?
  }

  predicate InDestroy(c: AsyncReaders.Consumer) {
    c.DestroyEntering? || c.DestroyNotifying? || c.Joining?
  }

  /** Where the consumer can be inside the reader when it has come so far in the line reader. */
  predicate At(phase: Phase, s: AsyncReaders.State) {
    match phase
    case Between => s.consumer.Idle? && s.requested
    case Finishing => if s.requested then InFinish(s.consumer) else s.consumer.Idle?
    case Closing => InDestroy(s.consumer) || s.consumer.WorkerJoined?
    case Closed => s.consumer.WorkerJoined?
    case _ => InStart(s.consumer) || (s.consumer.Idle? && s.requested)
  }

  /** What a step of the threads leaves alone: the consumer stays where it is, and the finishes return
      nothing, except in the step in which one returns. */
  lemma ThreadsStay(script: seq<AsyncReaders.Attempt>, phase: Phase, s: AsyncReaders.State,
                    move: AsyncReaders.Move, t: AsyncReaders.State)
    requires At(phase, s) && ByThemselves(move) && AsyncReaders.Step(script, s, move) == Some(t)
    requires AsyncReaders.ConsumerInv(s)
    ensures At(phase, t)
    ensures phase == Finishing && s.requested != t.requested ==> s.requested && |t.log| == |s.log| + 1
    ensures (phase == Finishing && s.requested != t.requested) || t.log == s.log
  {
  }

  // ----- what every step keeps -----

  /** The window as it would be if no read were done before its finish: block three is what the last
      finish left there. */
  ghost function Late(f: File, j: Joined): Window
    requires f.Valid() && |j.w.buf| == 3 * f.blockLen
  {
    if j.w.fed then j.w.(buf := Shown(j.w.buf, f.blockLen, SyncBlock(f, |j.threads.log|))) else j.w
  }

  /** The threads and the line reader share block three, and are at the same point of the program. */
  ghost predicate Together(f: File, j: Joined)
    requires f.Valid()
  {
    && |j.w.buf| == 3 * f.blockLen
    && (j.w.fed ==> ThreadsSound(f, j.threads) && At(j.phase, j.threads))
    && (j.w.fed ==> j.w.buf[2 * f.blockLen..] == j.threads.block)
    && (!j.w.fed ==> j.threads.consumer.Idle? && (j.phase == Between || j.phase == Scanning || j.phase == Closed))
  }

  /** The data of the window ends where the reads that were finished end. */
  ghost predicate UpTo(f: File, w: Window, k: nat) {
    w.fed && w.begin < w.end ==> w.base + w.end == ReadAheadTo(f, k)
  }

  /** The line reader knows of the end of the data when a finished read has found it. */
  ghost predicate EndSeen(f: File, w: Window, k: nat) {
    w.fed ==> (w.ended <==> k > 0 && AsyncReaders.Ends(AsyncReaders.AttemptAt(Script(f), k - 1)))
  }

  /** Between two calls, after `k` finishes. */
  ghost predicate Settled(f: File, w: Window, k: nat, c: Cursor)
    requires f.Valid()
  {
    Fits(f, w) && Represents(f, w, c) && UpTo(f, w, k) && EndSeen(f, w, k)
  }

  /** Before the scan, after `k` finishes. */
  ghost predicate Scannable(f: File, w: Window, k: nat, c: Cursor)
    requires f.Valid()
  {
    && Loaded(f, w) && w.begin < f.blockLen && c == Unread(Rest(f, w))
    && UpTo(f, w, k) && EndSeen(f, w, k)
  }

  /** A call that refills was made from window `b`. */
  ghost predicate Called(f: File, c: Cursor, b: Window)
    requires f.Valid()
  {
    Loaded(f, b) && Fits(f, b) && f.blockLen <= b.begin && b.fed && c == Unread(Rest(f, b))
  }

  /** It waits for its finish. */
  ghost predicate Waiting(f: File, w: Window, k: nat, b: Window)
    requires f.Valid() && Fits(f, b) && f.blockLen <= b.begin < b.end
  {
    b.base + b.end == ReadAheadTo(f, k) && w == Slid(f, b) && EndSeen(f, w, k)
  }

  /** Its finish has returned. */
  ghost predicate Returned(f: File, w: Window, k: nat, b: Window)
    requires f.Valid() && Fits(f, b) && f.blockLen <= b.begin < b.end
  {
    var (n, pos, slid) := (f.blockLen, b.base + b.end, Slid(f, b));
    && 0 < k && pos == ReadAheadTo(f, k - 1)
    && w == slid.(buf := Stored(slid.buf, 2 * n, f.input, pos, Available(f, pos)))
  }

  /** The line reader has come to cursor `c`; a call that is finishing was made from window `b`. */
  ghost predicate ComeTo(f: File, j: Joined, c: Cursor, b: Window)
    requires f.Valid() && |j.w.buf| == 3 * f.blockLen
  {
    var (w, k) := (Late(f, j), |j.threads.log|);
    match j.phase
    case Finishing => Called(f, c, b) && if j.threads.requested then Waiting(f, w, k, b) else Returned(f, j.w, k, b)
    case Scanning => Scannable(f, w, k, c)
    case _ => Settled(f, w, k, c)
  }

  ghost predicate Inv(f: File, j: Joined, c: Cursor, b: Window)
    requires f.Valid()
  {
    Together(f, j) && ComeTo(f, j, c, b)
  }

  lemma OpeningSound(f: File, block: Text)
    requires f.Valid() && block == f.memory[2 * f.blockLen..]
    ensures ThreadsSound(f, AsyncReaders.Init(block).(consumer := AsyncReaders.StartEntering(f.blockLen)))
  {
    AsyncReaders.InitInv(Script(f), block);
    AsyncReaders.StepKeeps(Script(f), block, AsyncReaders.Init(block), AsyncReaders.Start(f.blockLen));
  }

  lemma OpenedInv(f: File, b: Window)
    requires f.Valid()
    ensures Inv(f, Opened(f), Unread(SkipBom(f.input)), b)
  {
    InitialRepresents(f);
    var j := Opened(f);
    var block := j.w.buf[2 * f.blockLen..];
    assert block == f.memory[2 * f.blockLen..];
    OpeningSound(f, block);
    assert j.w.fed ==> Shown(j.w.buf, f.blockLen, SyncBlock(f, 0)) == j.w.buf;
  }

  /** Showing block three twice. */
  lemma ShownTwice(buf: Text, n: nat, x: Text, y: Text)
    requires |buf| == 3 * n && |x| == |y| == n
    ensures Shown(Shown(buf, n, x), n, y) == Shown(buf, n, y)
  {
  }

  /** When the finish returns, the awaited block is in block three. */
  lemma ReturnKeeps(f: File, w: Window, block: Text, k: nat, c: Cursor, b: Window)
    requires f.Valid() && |w.buf| == 3 * f.blockLen && Called(f, c, b)
    requires Waiting(f, w.(buf := Shown(w.buf, f.blockLen, SyncBlock(f, k))), k, b)
    requires block == SyncBlock(f, k + 1)
    ensures Returned(f, w.(buf := Shown(w.buf, f.blockLen, block)), k + 1, b)
  {
    var (n, buf) := (f.blockLen, Slid(f, b).buf);
    SyncBlockLength(f, k);
    SyncBlockLength(f, k + 1);
    ShownTwice(w.buf, n, SyncBlock(f, k), block);
    SyncBlockIsStored(f, buf, k);
  }

  /** A state that looks the same to the line reader has come to the same cursor. */
  lemma ComeToFrame(f: File, j: Joined, j': Joined, c: Cursor, b: Window)
    requires f.Valid() && |j.w.buf| == |j'.w.buf| == 3 * f.blockLen && ComeTo(f, j, c, b)
    requires j'.phase == j.phase && j'.threads.log == j.threads.log && j'.w == j.w.(buf := j'.w.buf)
    requires Late(f, j') == Late(f, j)
    requires j.phase == Finishing ==>
      j'.threads.requested == j.threads.requested && (!j.threads.requested ==> j'.w == j.w)
    ensures ComeTo(f, j', c, b)
  {
  }

  /** Between a finish and the next start block three is what the finish left there. */
  lemma BlockAtReturn(f: File, s: AsyncReaders.State)
    requires f.Valid() && ThreadsSound(f, s) && !s.requested
    ensures s.block == SyncBlock(f, |s.log|)
  {
  }

  lemma ThreadsTogether(f: File, j: Joined, move: AsyncReaders.Move, t: AsyncReaders.State)
    requires f.Valid() && Together(f, j) && j.w.fed
    requires ByThemselves(move) && AsyncReaders.Step(Script(f), j.threads, move) == Some(t)
    requires |t.block| == f.blockLen
    ensures Together(f, j.(threads := t, w := j.w.(buf := Shown(j.w.buf, f.blockLen, t.block))))
  {
    AsyncReaders.StepKeeps(Script(f), f.memory[2 * f.blockLen..], j.threads, move);
    ThreadsStay(Script(f), j.phase, j.threads, move, t);
  }

  lemma ThreadsComeTo(f: File, j: Joined, c: Cursor, b: Window, j': Joined)
    requires f.Valid() && Inv(f, j, c, b) && j.w.fed && Together(f, j') && j'.phase == j.phase
    requires j'.w == j.w.(buf := Shown(j.w.buf, f.blockLen, j'.threads.block)) && |j'.threads.block| == f.blockLen
    requires j.phase == Finishing && j.threads.requested != j'.threads.requested ==>
      j.threads.requested && |j'.threads.log| == |j.threads.log| + 1
    requires (j.phase == Finishing && j.threads.requested != j'.threads.requested) || j'.threads.log == j.threads.log
    ensures ComeTo(f, j', c, b)
  {
    var k := |j'.threads.log|;
    if j.phase == Finishing && j.threads.requested && !j'.threads.requested {
      BlockAtReturn(f, j'.threads);
      ReturnKeeps(f, j.w, j'.threads.block, k - 1, c, b);
    } else {
      SyncBlockLength(f, k);
      ShownTwice(j.w.buf, f.blockLen, j'.threads.block, SyncBlock(f, k));
      if !j.threads.requested && j.phase == Finishing {
        BlockAtReturn(f, j.threads);
        BlockAtReturn(f, j'.threads);
        assert j'.w.buf == j.w.buf;
      }
      ComeToFrame(f, j, j', c, b);
    }
  }

  lemma ThreadsKeep(f: File, j: Joined, c: Cursor, b: Window, move: AsyncReaders.Move)
    requires f.Valid() && Inv(f, j, c, b) && Step(f, j, Threads(move)).Some?
    ensures Inv(f, Step(f, j, Threads(move)).value, c, b)
  {
    var j' := Step(f, j, Threads(move)).value;
    ThreadsTogether(f, j, move, j'.threads);
    ThreadsStay(Script(f), j.phase, j.threads, move, j'.threads);
    ThreadsComeTo(f, j, c, b, j');
  }

  // ----- the steps of next_line -----

  /** A step reports nothing, or it reports the next event of the file and leaves what is left. */
  ghost predicate Moved(f: File, reports: seq<(Outcome, Text)>, reports': seq<(Outcome, Text)>, c: Cursor, c': Cursor)
    requires f.Valid()
  {
    || (reports' == reports && c' == c)
    || (var ((e, after), k) := (Next(c, f.blockLen, f.Tail()), |reports|);
        && |reports'| == k + 1 && reports'[..k] == reports
        && c' == after && Reports(reports'[k].0, e, reports'[k].1))
  }

  /** Sliding does not touch block three. */
  lemma SlidShown(f: File, w: Window, block: Text)
    requires f.Valid() && |w.buf| == 3 * f.blockLen && f.blockLen <= w.begin < w.end && |block| == f.blockLen
    ensures var v := w.(buf := Shown(w.buf, f.blockLen, block));
      Slid(f, v) == Slid(f, w).(buf := Shown(Slid(f, w).buf, f.blockLen, block))
    ensures Slid(f, w).buf[2 * f.blockLen..] == w.buf[2 * f.blockLen..]
  {
  }

  /** There is nothing to read, or the assertion fails. */
  lemma CallEnds(f: File, j: Joined, c: Cursor, b: Window, o: Outcome)
    requires f.Valid() && Inv(f, j, c, b) && j.phase == Between && j.w.end <= j.w.begin
    requires o == if j.w.begin == j.w.end then NoLine else Aborted
    ensures Inv(f, Reporting(j, o), c, b) && Moved(f, j.reports, Reporting(j, o).reports, c, c)
  {
  }

  lemma CallScans(f: File, j: Joined, c: Cursor, b: Window)
    requires f.Valid() && Inv(f, j, c, b) && j.phase == Between && j.w.begin < j.w.end && j.w.begin < f.blockLen
    ensures Inv(f, j.(phase := Scanning), c, b)
  {
  }

  /** All data was in the buffer. */
  lemma CallSlides(f: File, j: Joined, c: Cursor, b: Window)
    requires f.Valid() && Inv(f, j, c, b) && j.phase == Between && f.blockLen <= j.w.begin < j.w.end && !j.w.fed
    ensures Inv(f, j.(w := Slid(f, j.w), phase := Scanning), c, b)
  {
    ReadiedKeeps(f, j.w);
  }

  lemma CallRefills(f: File, j: Joined, c: Cursor, b: Window, t: AsyncReaders.State)
    requires f.Valid() && Inv(f, j, c, b) && j.phase == Between && f.blockLen <= j.w.begin < j.w.end && j.w.fed
    requires AsyncReaders.Step(Script(f), j.threads, AsyncReaders.Finish) == Some(t)
    ensures Inv(f, j.(w := Slid(f, j.w), threads := t, phase := Finishing), c, Late(f, j))
  {
    AsyncReaders.StepKeeps(Script(f), f.memory[2 * f.blockLen..], j.threads, AsyncReaders.Finish);
    SyncBlockLength(f, |j.threads.log|);
    SlidShown(f, j.w, SyncBlock(f, |j.threads.log|));
  }

  lemma AppendIsRefill(f: File, w: Window, k: nat, c: Cursor, b: Window)
    requires f.Valid() && |w.buf| == 3 * f.blockLen && Called(f, c, b) && Returned(f, w, k, b)
    ensures Appended(f, w, Available(f, b.base + b.end)) == Refilled(f, b)
    ensures Refilled(f, b).buf[2 * f.blockLen..] == w.buf[2 * f.blockLen..]
  {
    CopyLeavesBlockThree(w.buf, f.blockLen);
  }

  lemma RefillIsScannable(f: File, k: nat, c: Cursor, b: Window, r: Window)
    requires f.Valid() && Called(f, c, b) && b.base + b.end == ReadAheadTo(f, k) && r == Refilled(f, b)
    ensures Scannable(f, r, k + 1, c)
  {
    ReadiedKeeps(f, b);
    ScriptIsChunks(f, k);
  }

  lemma LateIsNow(f: File, j: Joined)
    requires f.Valid() && |j.w.buf| == 3 * f.blockLen
    requires j.w.buf[2 * f.blockLen..] == SyncBlock(f, |j.threads.log|)
    ensures Late(f, j) == j.w
  {
  }

  /** The threads after a finish has returned and the next read is being started. */
  lemma StartKeeps(f: File, s: AsyncReaders.State)
    requires f.Valid() && ThreadsSound(f, s) && At(Finishing, s) && s.consumer.Idle?
    ensures var t := AsyncReaders.Step(Script(f), s, AsyncReaders.Start(f.blockLen));
      t.Some? && ThreadsSound(f, t.value) && At(Scanning, t.value) && t.value.block == s.block && t.value.log == s.log
  {
    NothingThrows(f, s);
    AsyncReaders.StepKeeps(Script(f), f.memory[2 * f.blockLen..], s, AsyncReaders.Start(f.blockLen));
  }

  /** The next read has been started. */
  lemma StartedInv(f: File, j: Joined, c: Cursor, b: Window, r: Window, t: AsyncReaders.State)
    requires f.Valid() && r.fed && Scannable(f, r, |t.log|, c)
    requires ThreadsSound(f, t) && At(Scanning, t)
    requires r.buf[2 * f.blockLen..] == t.block == SyncBlock(f, |t.log|)
    ensures Inv(f, j.(w := r, threads := t, phase := Scanning), c, b)
  {
    LateIsNow(f, j.(w := r, threads := t, phase := Scanning));
  }

  lemma FinishedWith(f: File, j: Joined, t: AsyncReaders.State, count: nat)
    requires |j.w.buf| == 3 * f.blockLen && j.threads.log != []
    requires j.threads.log[|j.threads.log| - 1] == AsyncReaders.Count(count)
    requires AsyncReaders.Step(Script(f), j.threads, AsyncReaders.Start(f.blockLen)) == Some(t)
    ensures Finished(f, j) == Some(j.(w := Appended(f, j.w, count), threads := t, phase := Scanning))
  {
  }

  lemma FinishedIs(f: File, j: Joined, t: AsyncReaders.State, b: Window)
    requires f.Valid() && Together(f, j) && j.w.fed && j.phase == Finishing && j.threads.log != []
    requires ReadAheadTo(f, |j.threads.log| - 1) == b.base + b.end
    requires AsyncReaders.Step(Script(f), j.threads, AsyncReaders.Start(f.blockLen)) == Some(t)
    ensures Finished(f, j)
      == Some(j.(w := Appended(f, j.w, Available(f, b.base + b.end)), threads := t, phase := Scanning))
  {
    FinishCounts(f, j.threads, |j.threads.log| - 1);
    FinishedWith(f, j, t, Available(f, b.base + b.end));
  }

  lemma ReturnedNow(f: File, j: Joined, c: Cursor, b: Window)
    requires f.Valid() && Inv(f, j, c, b) && j.phase == Finishing && j.threads.consumer.Idle?
    ensures ThreadsSound(f, j.threads) && At(Finishing, j.threads) && !j.threads.requested
    ensures Called(f, c, b) && Returned(f, j.w, |j.threads.log|, b) && j.w.buf[2 * f.blockLen..] == j.threads.block
  {
  }

  /** The state after the refill is complete. */
  ghost function Restarted(f: File, j: Joined, b: Window): Joined
    requires f.Valid() && Fits(f, b) && f.blockLen <= b.begin < b.end
    requires AsyncReaders.Step(Script(f), j.threads, AsyncReaders.Start(f.blockLen)).Some?
  {
    j.(w := Refilled(f, b), threads := AsyncReaders.Step(Script(f), j.threads, AsyncReaders.Start(f.blockLen)).value,
       phase := Scanning)
  }

  lemma RestartedInv(f: File, j: Joined, c: Cursor, b: Window)
    requires f.Valid() && ThreadsSound(f, j.threads) && At(Finishing, j.threads) && !j.threads.requested
    requires Called(f, c, b) && Returned(f, j.w, |j.threads.log|, b) && j.w.buf[2 * f.blockLen..] == j.threads.block
    ensures AsyncReaders.Step(Script(f), j.threads, AsyncReaders.Start(f.blockLen)).Some?
    ensures Inv(f, Restarted(f, j, b), c, b)
  {
    var (s, k) := (j.threads, |j.threads.log|);
    StartKeeps(f, s);
    BlockAtReturn(f, s);
    AppendIsRefill(f, j.w, k, c, b);
    RefillIsScannable(f, k - 1, c, b, Refilled(f, b));
    StartedInv(f, j, c, b, Refilled(f, b), AsyncReaders.Step(Script(f), s, AsyncReaders.Start(f.blockLen)).value);
  }

  lemma FinishedKeeps(f: File, j: Joined, c: Cursor, b: Window)
    requires f.Valid() && Inv(f, j, c, b) && j.phase == Finishing && j.threads.consumer.Idle?
    ensures j.threads.log != [] && Finished(f, j).Some?
    ensures Inv(f, Finished(f, j).value, c, b) && Finished(f, j).value.reports == j.reports
  {
    ReturnedNow(f, j, c, b);
    RestartedInv(f, j, c, b);
    FinishedIs(f, j, Restarted(f, j, b).threads, b);
    AppendIsRefill(f, j.w, |j.threads.log|, c, b);
    assert Finished(f, j) == Some(Restarted(f, j, b));
  }

  lemma CopyLeavesBlockThree(buf: Text, n: nat)
    requires |buf| == 3 * n
    ensures Copied(buf, n, 2 * n, n)[2 * n..] == buf[2 * n..]
  {
  }

  /** The line that the scan finds, from the window as it would be. */
  lemma ScanSettles(f: File, w: Window, k: nat, c: Cursor)
    requires f.Valid() && Scannable(f, w, k, c)
    ensures var ((o, v), (e, after)) := (Scanned(f, w), Next(c, f.blockLen, f.Tail()));
      && Settled(f, v, k, after) && Reports(o, e, v.buf)
      && (e.Line? ==> o.at + |e.text| < 2 * f.blockLen)
  {
    ScannedIsNext(f, w, Next(c, f.blockLen, f.Tail()));
    ScanStops(f, w);
  }

  lemma SameButBlockThree(n: nat, v: Window, v': Window, block: Text)
    requires |v.buf| == |v'.buf| == 3 * n && v' == v.(buf := v'.buf) && v.buf[2 * n..] == block
    requires forall i :: 0 <= i < 2 * n ==> v'.buf[i] == v.buf[i]
    ensures v == v'.(buf := Shown(v'.buf, n, block))
  {
  }

  lemma Tails(a: Text, b: Text, n: nat)
    requires n <= |a| == |b| && forall i :: n <= i < |a| ==> a[i] == b[i]
    ensures a[n..] == b[n..]
  {
  }

  /** The scan finds the same line when the worker has read ahead. */
  lemma ScanKeeps(f: File, w: Window, buf: Text, k: nat, c: Cursor)
    requires f.Valid() && Scannable(f, w, k, c)
    requires |buf| == |w.buf| && forall i :: 0 <= i < 2 * f.blockLen ==> buf[i] == w.buf[i]
    ensures var ((o, v), (e, after)) := (Scanned(f, w.(buf := buf)), Next(c, f.blockLen, f.Tail()));
      && Settled(f, v.(buf := Shown(v.buf, f.blockLen, w.buf[2 * f.blockLen..])), k, after)
      && Reports(o, e, v.buf) && v.buf[2 * f.blockLen..] == buf[2 * f.blockLen..]
  {
    var n := f.blockLen;
    ScanIgnoresBlockThree(f, w, buf);
    ScanSettles(f, w, k, c);
    var ((o, v), v', e) := (Scanned(f, w), Scanned(f, w.(buf := buf)).1, Next(c, n, f.Tail()).0);
    Tails(v.buf, w.buf, 2 * n);
    Tails(v'.buf, buf, 2 * n);
    SameButBlockThree(n, v, v', w.buf[2 * n..]);
    ReportsToo(v.buf, v'.buf, 2 * n, o, e);
  }

  /** The line reader may change its window below block three. */
  lemma WindowChanges(f: File, j: Joined, v: Window, j': Joined)
    requires f.Valid() && Together(f, j) && j.threads.consumer.Idle? && (j.phase == Between || j.phase == Scanning)
    requires |v.buf| == 3 * f.blockLen && v.buf[2 * f.blockLen..] == j.w.buf[2 * f.blockLen..] && v.fed == j.w.fed
    requires j'.w == v && j'.threads == j.threads && j'.phase == Between
    ensures Together(f, j')
    ensures Late(f, j') == v.(buf := Shown(v.buf, f.blockLen, Late(f, j).buf[2 * f.blockLen..]))
  {
    SyncBlockLength(f, |j.threads.log|);
    assert Shown(j.w.buf, f.blockLen, SyncBlock(f, |j.threads.log|))[2 * f.blockLen..] == SyncBlock(f, |j.threads.log|);
    if !v.fed {
      assert Shown(v.buf, f.blockLen, v.buf[2 * f.blockLen..]) == v.buf;
    }
  }

  lemma SettledInv(f: File, j: Joined, w: Window, c: Cursor, b: Window)
    requires f.Valid() && Together(f, j) && j.phase == Between
    requires w == Late(f, j) && Settled(f, w, |j.threads.log|, c)
    ensures Inv(f, j, c, b)
  {
  }

  lemma LateBelow(f: File, j: Joined)
    requires f.Valid() && Together(f, j)
    ensures |Late(f, j).buf| == |j.w.buf| && Late(f, j).(buf := j.w.buf) == j.w && Late(f, j).fed == j.w.fed
    ensures forall i :: 0 <= i < 2 * f.blockLen ==> j.w.buf[i] == Late(f, j).buf[i]
  {
    SyncBlockLength(f, |j.threads.log|);
  }

  lemma ScannedInv(f: File, j: Joined, c: Cursor, b: Window, v: Window, j': Joined, after: Cursor)
    requires f.Valid() && Together(f, j) && j.phase == Scanning && j.threads.consumer.Idle?
    requires |v.buf| == 3 * f.blockLen && v.buf[2 * f.blockLen..] == j.w.buf[2 * f.blockLen..] && v.fed == j.w.fed
    requires Settled(f, v.(buf := Shown(v.buf, f.blockLen, Late(f, j).buf[2 * f.blockLen..])),
                     |j.threads.log|, after)
    requires j'.w == v && j'.threads == j.threads && j'.phase == Between
    ensures Inv(f, j', after, b)
  {
    WindowChanges(f, j, v, j');
    SettledInv(f, j', Late(f, j'), after, b);
  }

  lemma ScanReports(f: File, j: Joined, c: Cursor, b: Window)
    requires f.Valid() && Inv(f, j, c, b) && j.phase == Scanning && j.threads.consumer.Idle?
    ensures j.w.begin <= j.w.end < |j.w.buf|
    ensures var ((o, v), (e, after)) := (Scanned(f, j.w), Next(c, f.blockLen, f.Tail()));
      Reports(o, e, v.buf) && Inv(f, Reporting(j.(w := v), o), after, b)
  {
    LateBelow(f, j);
    ScanKeeps(f, Late(f, j), j.w.buf, |j.threads.log|, c);
    var ((o, v), after) := (Scanned(f, j.w), Next(c, f.blockLen, f.Tail()).1);
    ScannedInv(f, j, c, b, v, Reporting(j.(w := v), o), after);
  }

  lemma LateAlike(f: File, j: Joined, j': Joined)
    requires f.Valid() && |j.w.buf| == |j'.w.buf| == 3 * f.blockLen
    requires j'.threads == j.threads && j'.w == j.w.(buf := j'.w.buf)
    requires forall i :: j.w.begin <= i < |j.w.buf| ==> j'.w.buf[i] == j.w.buf[i]
    ensures |Late(f, j').buf| == |Late(f, j).buf| && Late(f, j') == Late(f, j).(buf := Late(f, j').buf)
    ensures forall i :: j.w.begin <= i < |Late(f, j).buf| ==> Late(f, j').buf[i] == Late(f, j).buf[i]
  {
    SyncBlockLength(f, |j.threads.log|);
  }

  /** Rewriting the bytes of lines that were handed out changes nothing that is still to be read. */
  lemma RewriteKeeps(f: File, j: Joined, c: Cursor, b: Window, v: Window)
    requires f.Valid() && Inv(f, j, c, b) && j.phase == Between
    requires |v.buf| == |j.w.buf| && v == j.w.(buf := v.buf)
    requires forall i :: 0 <= i < |v.buf| && (j.w.begin <= i || 2 * f.blockLen <= i) ==> v.buf[i] == j.w.buf[i]
    ensures Inv(f, j.(w := v), c, b)
  {
    var j' := j.(w := v);
    Tails(v.buf, j.w.buf, 2 * f.blockLen);
    WindowChanges(f, j, v, j');
    LateAlike(f, j, j');
    RewriteSettles(f, Late(f, j), Late(f, j').buf, |j.threads.log|, c);
    SettledInv(f, j', Late(f, j'), c, b);
  }

  lemma RewriteSettles(f: File, w: Window, buf: Text, k: nat, c: Cursor)
    requires f.Valid() && Settled(f, w, k, c)
    requires |buf| == |w.buf| && forall i :: w.begin <= i < |buf| ==> buf[i] == w.buf[i]
    ensures Settled(f, w.(buf := buf), k, c)
  {
    EarlierBytesFree(f, w, buf, c);
  }

  lemma CallKeeps(f: File, j: Joined, c: Cursor, b: Window) returns (b': Window)
    requires f.Valid() && Inv(f, j, c, b) && j.phase == Between && CalledNext(f, j).Some?
    ensures var j' := CalledNext(f, j).value; Inv(f, j', c, b') && Moved(f, j.reports, j'.reports, c, c)
  {
    b' := b;
    if j.w.begin == j.w.end {
      CallEnds(f, j, c, b, NoLine);
    } else if j.w.end < j.w.begin {
      CallEnds(f, j, c, b, Aborted);
    } else if j.w.begin < f.blockLen {
      CallScans(f, j, c, b);
    } else if !j.w.fed {
      CallSlides(f, j, c, b);
    } else {
      b' := Late(f, j);
      CallRefills(f, j, c, b, AsyncReaders.Step(Script(f), j.threads, AsyncReaders.Finish).value);
    }
  }

  lemma DestroyKeeps(f: File, j: Joined, c: Cursor, b: Window)
    requires f.Valid() && Inv(f, j, c, b) && j.phase == Between && Destroyed(f, j).Some?
    ensures var j' := Destroyed(f, j).value; Inv(f, j', c, b) && Moved(f, j.reports, j'.reports, c, c)
  {
    if j.w.fed {
      AsyncReaders.StepKeeps(Script(f), f.memory[2 * f.blockLen..], j.threads, AsyncReaders.Destroy);
    }
  }

  lemma ProceedKeeps(f: File, j: Joined, c: Cursor, b: Window) returns (c': Cursor)
    requires f.Valid() && Inv(f, j, c, b) && HasReturned(j) && Proceeded(f, j).Some?
    ensures var j' := Proceeded(f, j).value; Inv(f, j', c', b) && Moved(f, j.reports, j'.reports, c, c')
  {
    c' := c;
    if j.phase == Scanning {
      c' := Next(c, f.blockLen, f.Tail()).1;
      ScanReports(f, j, c, b);
    } else if j.phase == Finishing {
      FinishedKeeps(f, j, c, b);
    }
  }

  /** Every step of either thread and of the client keeps the invariant and reports the next event. */
  lemma StepKeeps(f: File, j: Joined, move: Move, c: Cursor, b: Window) returns (c': Cursor, b': Window)
    requires f.Valid() && Inv(f, j, c, b) && Step(f, j, move).Some?
    ensures var j' := Step(f, j, move).value; Inv(f, j', c', b') && Moved(f, j.reports, j'.reports, c, c')
  {
    c', b' := c, b;
    match move
    case Call => b' := CallKeeps(f, j, c, b);
    case Rewrite(front) => RewriteKeeps(f, j, c, b, j.w.(buf := front + j.w.buf[|front|..]));
    case Destroy => DestroyKeeps(f, j, c, b);
    case Threads(m) => ThreadsKeep(f, j, c, b, m);
    case Proceed => c' := ProceedKeeps(f, j, c, b);
  }

  // ----- main results -----

  /** The cursor after `k` calls on a file. */
  ghost function Reached(f: File, k: nat): Cursor
    requires f.Valid()
  {
    CursorAfter(Unread(SkipBom(f.input)), f.blockLen, f.Tail(), k)
  }

  /** The calls so far have reported the events of the file. */
  ghost predicate Reported(f: File, reports: seq<(Outcome, Text)>)
    requires f.Valid()
  {
    forall i :: 0 <= i < |reports| ==>
      Reports(reports[i].0, Next(Reached(f, i), f.blockLen, f.Tail()).0, reports[i].1)
  }

  lemma MovedReports(f: File, reports: seq<(Outcome, Text)>, reports': seq<(Outcome, Text)>, c: Cursor, c': Cursor)
    requires f.Valid() && Reported(f, reports) && c == Reached(f, |reports|)
    requires Moved(f, reports, reports', c, c')
    ensures Reported(f, reports') && c' == Reached(f, |reports'|)
  {
    if reports' != reports {
      CursorAfterNext(Unread(SkipBom(f.input)), f.blockLen, f.Tail(), |reports|);
      assert forall i :: 0 <= i < |reports| ==> reports'[i] == reports[i];
    }
  }

  lemma {:induction false} RunKeeps(f: File, j: Joined, moves: seq<Move>, c: Cursor, b: Window)
    returns (c': Cursor, b': Window)
    requires f.Valid() && Inv(f, j, c, b) && Run(f, j, moves).Some?
    requires Reported(f, j.reports) && c == Reached(f, |j.reports|)
    ensures var j' := Run(f, j, moves).value;
      Inv(f, j', c', b') && Reported(f, j'.reports) && c' == Reached(f, |j'.reports|)
    decreases |moves|
  {
    c', b' := c, b;
    if moves != [] {
      var j' := Step(f, j, moves[0]).value;
      c', b' := StepKeeps(f, j, moves[0], c, b);
      MovedReports(f, j.reports, j'.reports, c, c');
      c', b' := RunKeeps(f, j', moves[1..], c', b');
    }
  }

  /** Main result: whatever the interleaving, the calls of next_line report the events of the plain file. */
  lemma EveryInterleavingReadsTheFile(f: File, moves: seq<Move>, i: nat)
    requires f.Valid() && Run(f, Opened(f), moves).Some?
    requires i < |Run(f, Opened(f), moves).value.reports|
    ensures var rs := Run(f, Opened(f), moves).value.reports;
      Reports(rs[i].0, Events(Unread(SkipBom(f.input)), f.blockLen, f.Tail(), |rs|)[i], rs[i].1)
  {
    OpenedInv(f, Initial(f));
    var c, b := RunKeeps(f, Opened(f), moves, Unread(SkipBom(f.input)), Initial(f));
    var k := |Run(f, Opened(f), moves).value.reports|;
    EventAt(Unread(SkipBom(f.input)), f.blockLen, f.Tail(), k, i, Next(Reached(f, i), f.blockLen, f.Tail()).0);
  }

  /** Between two calls the threads leave blocks one and two alone, and with them every line that was
      returned. */
  lemma {:induction false} LinesStay(f: File, j: Joined, moves: seq<Move>)
    requires |j.w.buf| == 3 * f.blockLen && Run(f, j, moves).Some?
    requires forall i :: 0 <= i < |moves| ==> moves[i].Threads?
    ensures var j' := Run(f, j, moves).value;
      && j'.w == j.w.(buf := j'.w.buf) && j'.w.buf[..2 * f.blockLen] == j.w.buf[..2 * f.blockLen]
      && j'.phase == j.phase && j'.reports == j.reports
    decreases |moves|
  {
    if moves != [] {
      LinesStay(f, Step(f, j, moves[0]).value, moves[1..]);
    }
  }

  // ----- progress -----

  /** A call, the constructor or the destructor has not returned. */
  predicate InCall(j: Joined) {
    j.phase != Between && j.phase != Closed
  }

  /** The line reader never finishes a read that was started after the end of the data was found. */
  lemma WaitsForData(f: File, w: Window, k: nat, c: Cursor, b: Window)
    requires f.Valid() && Called(f, c, b) && Waiting(f, w, k, b) && w.fed && 0 < k
    ensures !AsyncReaders.Ends(AsyncReaders.AttemptAt(Script(f), k - 1))
  {
  }

  lemma WaitsInFinish(phase: Phase, s: AsyncReaders.State)
    requires At(phase, s) && s.consumer.FinishWaiting?
    ensures phase == Finishing && s.requested
  {
  }

  lemma NeverHangs(f: File, j: Joined, c: Cursor, b: Window)
    requires f.Valid() && |j.w.buf| == 3 * f.blockLen && ComeTo(f, j, c, b)
    requires At(j.phase, j.threads) && j.w.fed && j.threads.consumer.FinishWaiting?
    ensures !AsyncReaders.Ended(Script(f), j.threads)
  {
    WaitsInFinish(j.phase, j.threads);
    if j.threads.log != [] {
      WaitsForData(f, Late(f, j), |j.threads.log|, c, b);
    }
  }

  lemma ThreadStepPossible(f: File, j: Joined, c: Cursor, b: Window, move: AsyncReaders.Move)
    requires f.Valid() && Inv(f, j, c, b) && j.w.fed && AsyncReaders.Internal(move)
    requires AsyncReaders.Step(Script(f), j.threads, move).Some?
    ensures Step(f, j, Threads(move)).Some?
  {
    AsyncReaders.StepKeeps(Script(f), f.memory[2 * f.blockLen..], j.threads, move);
    var t := AsyncReaders.Step(Script(f), j.threads, move).value;
    SyncBlockLength(f, t.taken);
  }

  lemma ProceedPossible(f: File, j: Joined, c: Cursor, b: Window)
    requires f.Valid() && Inv(f, j, c, b) && InCall(j) && HasReturned(j)
    ensures |j.w.buf| == 3 * f.blockLen && Proceeded(f, j).Some?
  {
    if j.phase == Scanning {
      ScanReports(f, j, c, b);
    } else if j.phase == Finishing {
      FinishedKeeps(f, j, c, b);
    }
  }

  lemma NotStuck(f: File, j: Joined, c: Cursor, b: Window)
    requires f.Valid() && Inv(f, j, c, b) && InCall(j)
    ensures Step(f, j, Proceed).Some? || Step(f, j, Threads(AsyncReaders.ConsumerRuns)).Some?
      || Step(f, j, Threads(AsyncReaders.WorkerRuns)).Some?
  {
    if HasReturned(j) {
      ProceedPossible(f, j, c, b);
    } else {
      ThreadsNotAtRest(f, j, c, b);
      if AsyncReaders.ConsumerStep(j.threads).Some? {
        ThreadStepPossible(f, j, c, b, AsyncReaders.ConsumerRuns);
      } else {
        ThreadStepPossible(f, j, c, b, AsyncReaders.WorkerRuns);
      }
    }
  }

  lemma ThreadsNotAtRest(f: File, j: Joined, c: Cursor, b: Window)
    requires f.Valid() && Inv(f, j, c, b) && InCall(j) && !HasReturned(j)
    ensures j.w.fed && !AsyncReaders.AtRest(Script(f), j.threads)
  {
    if AsyncReaders.AtRest(Script(f), j.threads) {
      AsyncReaders.RestIsDone(Script(f), f.memory[2 * f.blockLen..], j.threads);
      NeverHangs(f, j, c, b);
    }
  }

  /** Main result: in every interleaving a call that has not returned can go on, in the consumer, in the
      worker or in the line reader: no call ever waits for a worker that is gone. */
  lemma CallsGoOn(f: File, moves: seq<Move>)
    requires f.Valid() && Run(f, Opened(f), moves).Some?
    ensures var j := Run(f, Opened(f), moves).value;
      InCall(j) ==>
        Step(f, j, Proceed).Some? || Step(f, j, Threads(AsyncReaders.ConsumerRuns)).Some?
        || Step(f, j, Threads(AsyncReaders.WorkerRuns)).Some?
  {
    OpenedInv(f, Initial(f));
    var c, b := RunKeeps(f, Opened(f), moves, Unread(SkipBom(f.input)), Initial(f));
    if InCall(Run(f, Opened(f), moves).value) {
      NotStuck(f, Run(f, Opened(f), moves).value, c, b);
    }
  }

  /** What is left to do before the call returns and the worker rests. */
  function Work(j: Joined): nat {
    (match j.phase
     case Between => 0
     case Closed => 0
     case Finishing => 16
     case _ => 1) + if j.w.fed then AsyncReaders.Work(j.threads) else 0
  }

  predicate Spurious(move: Move) {
    move.Threads? && AsyncReaders.Spurious(move.move)
  }

  function CountSpurious(moves: seq<Move>): nat {
    if moves == [] then 0 else (if Spurious(moves[0]) then 1 else 0) + CountSpurious(moves[1..])
  }

  lemma FinishedWorks(f: File, j: Joined)
    requires |j.w.buf| == 3 * f.blockLen && j.threads.log != [] && Finished(f, j).Some?
    requires j.phase == Finishing && j.threads.consumer.Idle?
    ensures Work(Finished(f, j).value) < Work(j)
  {
    StartAddsWork(f, j.threads);
  }

  lemma ProceedWorks(f: File, j: Joined)
    requires |j.w.buf| == 3 * f.blockLen && HasReturned(j) && Proceeded(f, j).Some?
    ensures Work(Proceeded(f, j).value) < Work(j)
  {
    if j.phase == Finishing {
      FinishedWorks(f, j);
    }
  }

  lemma StepWorks(f: File, j: Joined, move: Move, c: Cursor, b: Window)
    requires f.Valid() && Inv(f, j, c, b) && Step(f, j, move).Some? && (move.Proceed? || move.Threads?)
    ensures Work(Step(f, j, move).value) < Work(j) + if Spurious(move) then 3 else 0
  {
    match move
    case Threads(m) => AsyncReaders.StepWorks(Script(f), f.memory[2 * f.blockLen..], j.threads, m);
    case Proceed => ProceedWorks(f, j);
  }

  lemma StartAddsWork(f: File, s: AsyncReaders.State)
    requires s.consumer.Idle?
    ensures var t := AsyncReaders.Step(Script(f), s, AsyncReaders.Start(f.blockLen));
      t.Some? ==> AsyncReaders.Work(t.value) == AsyncReaders.Work(s) + 14
  {
  }

  lemma {:induction false} WorkIsDone(f: File, j: Joined, moves: seq<Move>, c: Cursor, b: Window)
    requires f.Valid() && Inv(f, j, c, b) && Run(f, j, moves).Some?
    requires forall i :: 0 <= i < |moves| ==> moves[i].Proceed? || moves[i].Threads?
    ensures |moves| <= Work(j) + 3 * CountSpurious(moves)
    decreases |moves|
  {
    if moves != [] {
      StepWorks(f, j, moves[0], c, b);
      var c', b' := StepKeeps(f, j, moves[0], c, b);
      WorkIsDone(f, Step(f, j, moves[0]).value, moves[1..], c', b');
    }
  }

  /** Main result: a call returns after a bounded number of steps: from every state that can be reached, a
      run in which the client does nothing is no longer than the work there was and three steps for every
      spurious wakeup in it. */
  lemma CallsAreShort(f: File, moves: seq<Move>, more: seq<Move>)
    requires f.Valid() && Run(f, Opened(f), moves).Some?
    requires Run(f, Run(f, Opened(f), moves).value, more).Some?
    requires forall i :: 0 <= i < |more| ==> more[i].Proceed? || more[i].Threads?
    ensures |more| <= Work(Run(f, Opened(f), moves).value) + 3 * CountSpurious(more)
  {
    OpenedInv(f, Initial(f));
    var c, b := RunKeeps(f, Opened(f), moves, Unread(SkipBom(f.input)), Initial(f));
    WorkIsDone(f, Run(f, Opened(f), moves).value, more, c, b);
  }

  lemma WorkerGone(f: File, j: Joined, c: Cursor, b: Window)
    requires f.Valid() && Inv(f, j, c, b) && j.phase == Closed
    ensures j.w.fed ==> j.threads.worker == AsyncReaders.Exited && j.threads.consumer == AsyncReaders.WorkerJoined
  {
  }

  lemma GoneIsQuiet(f: File, j: Joined, move: Move)
    requires f.Valid() && |j.w.buf| == 3 * f.blockLen && j.phase == Closed
    requires j.w.fed ==> j.threads.worker == AsyncReaders.Exited && j.threads.consumer == AsyncReaders.WorkerJoined
    ensures Step(f, j, move).None?
  {
  }

  /** Main result: when the line reader has been destroyed its worker is gone, and nothing writes into the
      buffer any more. */
  lemma ClosedIsQuiet(f: File, moves: seq<Move>, move: Move)
    requires f.Valid() && Run(f, Opened(f), moves).Some?
    requires Run(f, Opened(f), moves).value.phase == Closed
    ensures var j := Run(f, Opened(f), moves).value;
      (j.w.fed ==> j.threads.worker == AsyncReaders.Exited) && Step(f, j, move).None?
  {
    OpenedInv(f, Initial(f));
    var c, b := RunKeeps(f, Opened(f), moves, Unread(SkipBom(f.input)), Initial(f));
    var j := Run(f, Opened(f), moves).value;
    WorkerGone(f, j, c, b);
    GoneIsQuiet(f, j, move);
  }
}
