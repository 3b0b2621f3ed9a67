/**
 The threaded reader: a consumer and a worker that share a few fields under one mutex and wake each
 other through two condition variables. A step is what one thread does between two points at which
 the other can see it; every interleaving of steps is a run.
 */
module AsyncReaders {
  import opened Bytes

  /** What one read of the byte source does. */
  datatype Attempt = Gives(data: Text) | Throws

  /** What finish_read gives its caller. */
  datatype Result = Count(n: nat) | Threw

  /** Number `i` of the reads that the source will be asked for; past the script there is no data. */
  function AttemptAt(script: seq<Attempt>, i: nat): Attempt {
    if i < |script| then script[i] else Gives([])
  }

  function ResultOf(a: Attempt): Result {
    match a
    case Gives(data) => Count(|data|)
    case Throws => Threw
  }

  /** A read after which the worker leaves its loop. */
  predicate Ends(a: Attempt) {
    a.Throws? || a.data == []
  }

  /** The target of the reads after one of them. */
  function Fill(block: Text, a: Attempt): Text {
    if a.Gives? && |a.data| <= |block| then a.data + block[|a.data|..] else block
  }

  // ----- the synchronous reader -----

  /** The synchronous reader: reads done, their target, and what its finishes returned. */
  datatype Sync = Sync(taken: nat, block: Text, log: seq<Result>)

  function SyncFinish(script: seq<Attempt>, s: Sync): Sync {
    var a := AttemptAt(script, s.taken);
    Sync(s.taken + 1, Fill(s.block, a), s.log + [ResultOf(a)])
  }

  /** The synchronous reader after `k` starts, each with its finish. */
  function SyncAfter(script: seq<Attempt>, block: Text, k: nat): (s: Sync)
    ensures s.taken == k && |s.log| == k
  {
    if k == 0 then Sync(0, block, []) else SyncFinish(script, SyncAfter(script, block, k - 1))
  }

  /** Each finish returns the result of its own read. */
  lemma {:induction false} SyncResult(script: seq<Attempt>, block: Text, k: nat, i: nat, r: Result)
    requires i < k && r == ResultOf(AttemptAt(script, i))
    ensures SyncAfter(script, block, k).log[i] == r
  {
    if i < k - 1 {
      SyncResult(script, block, k - 1, i, r);
    }
  }

  // ----- the threaded reader -----

  datatype Lock = Free | HeldByConsumer | HeldByWorker

  datatype Consumer =
    | Idle
    | StartEntering(count: nat)
    | StartNotifying
    | FinishEntering
    | FinishChecking
    | FinishWaiting
    | FinishWoken
    | DestroyEntering
    | DestroyNotifying
    | Joining
    | WorkerJoined

  datatype Worker =
    | Entering
    | Checking
    | Waiting
    | Reading
    | Notifying(last: bool)
    | Exited

  /** The shared fields, the two threads, and, for the record, whether a start awaits its finish, how
      many reads the source has done, and what the finishes have returned. A count of -1 in the source
      is None here. */
  datatype State = State(
    lock: Lock, consumer: Consumer, worker: Worker,
    desired: Option<nat>, readCount: Option<nat>, error: bool, terminate: bool,
    block: Text, requested: bool, taken: nat, log: seq<Result>)

  function Init(block: Text): State {
    State(Free, Idle, Entering, None, None, false, false, block, false, 0, [])
  }

  /** Which thread takes a step, or what the client asks of the consumer, or a spurious wakeup. */
  datatype Move =
    | Start(count: nat)
    | Finish
    | Destroy
    | ConsumerRuns
    | WorkerRuns
    | ConsumerWakes
    | WorkerWakes

  function NotifyWorker(w: Worker): Worker {
    if w == Waiting then Entering else w
  }

  function NotifyConsumer(c: Consumer): Consumer {
    if c == FinishWaiting then FinishWoken else c
  }

  /** The condition that finish_read waits for. */
  predicate Served(s: State) {
    s.readCount.Some? || s.error
  }

  /** The condition that the worker waits for. */
  predicate Wanted(s: State) {
    s.desired.Some? || s.terminate
  }

  function ConsumerStep(s: State): Option<State> {
    match s.consumer
    case StartEntering(n) =>
      if s.lock != Free then None
      else Some(s.(lock := HeldByConsumer, consumer := StartNotifying, requested := true,
                   desired := Some(n), readCount := None))
    case StartNotifying =>
      Some(s.(lock := Free, consumer := Idle, worker := NotifyWorker(s.worker)))
    case FinishEntering =>
      if s.lock != Free then None else Some(s.(lock := HeldByConsumer, consumer := FinishChecking))
    case FinishWoken =>
      if s.lock != Free then None else Some(s.(lock := HeldByConsumer, consumer := FinishChecking))
    case FinishChecking =>
      if !Served(s) then Some(s.(lock := Free, consumer := FinishWaiting))
      else
        var r := if s.error then Threw else Count(s.readCount.value);
        Some(s.(lock := Free, consumer := Idle, requested := false, log := s.log + [r]))
    case DestroyEntering =>
      if s.lock != Free then None else Some(s.(consumer := DestroyNotifying, terminate := true))
    case DestroyNotifying =>
      Some(s.(consumer := Joining, worker := NotifyWorker(s.worker)))
    case Joining =>
      if s.worker == Exited then Some(s.(consumer := WorkerJoined)) else None
    case _ => None
  }

  function WorkerStep(script: seq<Attempt>, s: State): Option<State> {
    match s.worker
    case Entering =>
      if s.lock != Free then None else Some(s.(lock := HeldByWorker, worker := Checking))
    case Checking =>
      if !Wanted(s) then Some(s.(lock := Free, worker := Waiting))
      else if s.terminate then Some(s.(lock := Free, worker := Exited))
      else Some(s.(worker := Reading))
    case Reading =>
      var a := AttemptAt(script, s.taken);
      var done := s.(taken := s.taken + 1, block := Fill(s.block, a), worker := Notifying(Ends(a)));
      var after := match a
        case Gives(data) => done.(readCount := Some(|data|), desired := None)
        case Throws => done.(error := true);
      Some(after)
    case Notifying(last) =>
      var told := s.(consumer := NotifyConsumer(s.consumer));
      Some(if last then told.(lock := Free, worker := Exited) else told.(worker := Checking))
    case _ => None
  }

  /** One step, if it is possible. The client starts no read before the last one is finished, finishes
      none that it has not started, and starts none after an exception. */
  function Step(script: seq<Attempt>, s: State, move: Move): Option<State> {
    match move
    case Start(n) =>
      if s.consumer == Idle && !s.requested && Threw !in s.log then Some(s.(consumer := StartEntering(n)))
      else None
    case Finish =>
      if s.consumer == Idle && s.requested then Some(s.(consumer := FinishEntering)) else None
    case Destroy =>
      if s.consumer == Idle then Some(s.(consumer := DestroyEntering)) else None
    case ConsumerRuns => ConsumerStep(s)
    case WorkerRuns => WorkerStep(script, s)
    case ConsumerWakes =>
      if s.consumer == FinishWaiting then Some(s.(consumer := FinishWoken)) else None
    case WorkerWakes =>
      if s.worker == Waiting then Some(s.(worker := Entering)) else None
  }

  /** The state after a run, if each of its steps is possible. */
  function Run(script: seq<Attempt>, s: State, moves: seq<Move>): Option<State>
    decreases |moves|
  {
    if moves == [] then Some(s)
    else match Step(script, s, moves[0])
      case None => None
      case Some(s') => Run(script, s', moves[1..])
  }

  /** Steps that the threads take by themselves, apart from spurious wakeups. */
  predicate Internal(move: Move) {
    move in {ConsumerRuns, WorkerRuns}
  }

  predicate Spurious(move: Move) {
    move in {ConsumerWakes, WorkerWakes}
  }

  // ----- what every step keeps -----

  ghost predicate LockInv(s: State) {
    && (s.lock == HeldByConsumer <==> s.consumer in {StartNotifying, FinishChecking})
    && (s.lock == HeldByWorker <==> s.worker in {Checking, Reading} || s.worker.Notifying?)
  }

  /** The reads done so far are those of the synchronous reader; the results handed out are its
      results, and a read that was done and not yet handed out is the next one. */
  ghost predicate DataInv(script: seq<Attempt>, block: Text, s: State) {
    && |s.log| <= s.taken <= |s.log| + 1
    && s.log == SyncAfter(script, block, |s.log|).log
    && s.block == SyncAfter(script, block, s.taken).block
    && (s.taken == |s.log| + 1 <==> s.requested && Served(s))
    && (s.requested && Served(s) ==>
          ResultOf(AttemptAt(script, |s.log|)) == if s.error then Threw else Count(s.readCount.value))
    && (s.error ==> s.taken > 0 && AttemptAt(script, s.taken - 1) == Throws)
    && (s.requested && !Served(s) ==> s.desired.Some?)
    && (s.desired.Some? && !s.error ==> s.requested && s.readCount.None?)
    && (s.readCount.None? && !s.error ==> s.requested || s.taken == 0)
  }

  /** Where the consumer is. */
  ghost predicate ConsumerInv(s: State) {
    && (s.consumer.StartEntering? ==> !s.requested && !s.error)
    && (s.consumer in {StartNotifying, FinishEntering, FinishChecking, FinishWaiting, FinishWoken} ==> s.requested)
    && (s.terminate <==> s.consumer in {DestroyNotifying, Joining, WorkerJoined})
    && (s.consumer == WorkerJoined ==> s.worker == Exited)
  }

  /** Where the worker is. */
  ghost predicate WorkerInv(script: seq<Attempt>, s: State) {
    && (s.worker == Reading ==> s.desired.Some? && !s.error && !s.terminate)
    && (s.worker.Notifying? ==> s.taken > 0 && s.worker.last == Ends(AttemptAt(script, s.taken - 1)))
    && (s.worker.Notifying? && !s.terminate ==> s.requested && Served(s))
  }

  /** The worker leaves its loop after the last read, or when it is told to, and only then. */
  ghost predicate ExitInv(script: seq<Attempt>, s: State) {
    && (s.taken > 0 && Ends(AttemptAt(script, s.taken - 1)) ==> s.worker == Exited || s.worker == Notifying(true))
    && (s.worker == Exited ==> s.terminate || (s.taken > 0 && Ends(AttemptAt(script, s.taken - 1))))
    && (s.taken >= 2 ==> !Ends(AttemptAt(script, s.taken - 2)))
  }

  /** A thread that waits while its condition holds is about to be notified. */
  ghost predicate WakeupInv(s: State) {
    && (s.worker == Waiting && Wanted(s) ==> s.consumer in {StartNotifying, DestroyNotifying})
    && (s.consumer == FinishWaiting && Served(s) ==> s.worker.Notifying?)
  }

  ghost predicate Inv(script: seq<Attempt>, block: Text, s: State) {
    && LockInv(s) && DataInv(script, block, s)
    && ConsumerInv(s) && WorkerInv(script, s) && ExitInv(script, s) && WakeupInv(s)
  }

  lemma InitInv(script: seq<Attempt>, block: Text)
    ensures Inv(script, block, Init(block))
  {
  }

  /** Where the threads are does not matter to the data. */
  lemma DataFrame(script: seq<Attempt>, block: Text, s: State, t: State)
    requires DataInv(script, block, s)
    requires t == s.(lock := t.lock, consumer := t.consumer, worker := t.worker, terminate := t.terminate)
    ensures DataInv(script, block, t)
  {
  }

  lemma CheckKeepsData(script: seq<Attempt>, block: Text, s: State)
    requires DataInv(script, block, s) && ConsumerInv(s) && s.consumer == FinishChecking
    ensures DataInv(script, block, ConsumerStep(s).value)
  {
  }

  lemma ConsumerKeepsData(script: seq<Attempt>, block: Text, s: State)
    requires DataInv(script, block, s) && ConsumerInv(s) && ConsumerStep(s).Some? && s.consumer != FinishChecking
    ensures DataInv(script, block, ConsumerStep(s).value)
  {
  }

  lemma ConsumerKeepsConsumer(script: seq<Attempt>, block: Text, s: State)
    requires ConsumerInv(s) && ConsumerStep(s).Some?
    ensures ConsumerInv(ConsumerStep(s).value)
  {
  }

  lemma ConsumerKeepsWorker(script: seq<Attempt>, block: Text, s: State)
    requires LockInv(s) && WorkerInv(script, s) && ConsumerInv(s) && ConsumerStep(s).Some?
    ensures WorkerInv(script, ConsumerStep(s).value)
  {
  }

  lemma ConsumerKeepsExit(script: seq<Attempt>, block: Text, s: State)
    requires ExitInv(script, s) && ConsumerStep(s).Some?
    ensures ExitInv(script, ConsumerStep(s).value)
  {
  }

  lemma ConsumerKeepsLock(script: seq<Attempt>, block: Text, s: State)
    requires LockInv(s) && ConsumerStep(s).Some?
    ensures LockInv(ConsumerStep(s).value)
  {
  }

  lemma ConsumerKeepsWakeups(script: seq<Attempt>, block: Text, s: State)
    requires LockInv(s) && WakeupInv(s) && ConsumerStep(s).Some?
    ensures WakeupInv(ConsumerStep(s).value)
  {
  }

  lemma ConsumerKeeps(script: seq<Attempt>, block: Text, s: State)
    requires Inv(script, block, s) && ConsumerStep(s).Some?
    ensures Inv(script, block, ConsumerStep(s).value)
  {
    if s.consumer == FinishChecking {
      CheckKeepsData(script, block, s);
    } else {
      ConsumerKeepsData(script, block, s);
    }
    ConsumerKeepsConsumer(script, block, s);
    ConsumerKeepsWorker(script, block, s);
    ConsumerKeepsExit(script, block, s);
    ConsumerKeepsLock(script, block, s);
    ConsumerKeepsWakeups(script, block, s);
  }

  lemma ReadKeepsData(script: seq<Attempt>, block: Text, s: State)
    requires DataInv(script, block, s) && WorkerInv(script, s) && s.worker == Reading
    ensures DataInv(script, block, WorkerStep(script, s).value)
  {
  }

  lemma WorkerKeepsData(script: seq<Attempt>, block: Text, s: State)
    requires DataInv(script, block, s) && WorkerStep(script, s).Some? && s.worker != Reading
    ensures DataInv(script, block, WorkerStep(script, s).value)
  {
    DataFrame(script, block, s, WorkerStep(script, s).value);
  }

  lemma WorkerKeepsConsumer(script: seq<Attempt>, block: Text, s: State)
    requires DataInv(script, block, s) && ConsumerInv(s) && WorkerInv(script, s) && WorkerStep(script, s).Some?
    ensures ConsumerInv(WorkerStep(script, s).value)
  {
  }

  lemma WorkerKeepsWorker(script: seq<Attempt>, block: Text, s: State)
    requires DataInv(script, block, s) && WorkerInv(script, s) && ExitInv(script, s) && WorkerStep(script, s).Some?
    ensures WorkerInv(script, WorkerStep(script, s).value)
  {
  }

  lemma WorkerKeepsExit(script: seq<Attempt>, block: Text, s: State)
    requires WorkerInv(script, s) && ExitInv(script, s) && WorkerStep(script, s).Some?
    ensures ExitInv(script, WorkerStep(script, s).value)
  {
  }

  lemma WorkerKeepsLock(script: seq<Attempt>, block: Text, s: State)
    requires LockInv(s) && WorkerStep(script, s).Some?
    ensures LockInv(WorkerStep(script, s).value)
  {
  }

  lemma WorkerKeepsWakeups(script: seq<Attempt>, block: Text, s: State)
    requires Inv(script, block, s) && WorkerStep(script, s).Some?
    ensures WakeupInv(WorkerStep(script, s).value)
  {
  }

  lemma WorkerKeeps(script: seq<Attempt>, block: Text, s: State)
    requires Inv(script, block, s) && WorkerStep(script, s).Some?
    ensures Inv(script, block, WorkerStep(script, s).value)
  {
    if s.worker == Reading {
      ReadKeepsData(script, block, s);
    } else {
      WorkerKeepsData(script, block, s);
    }
    WorkerKeepsConsumer(script, block, s);
    WorkerKeepsWorker(script, block, s);
    WorkerKeepsExit(script, block, s);
    WorkerKeepsLock(script, block, s);
    WorkerKeepsWakeups(script, block, s);
  }

  lemma ClientKeepsThreads(script: seq<Attempt>, s: State, move: Move, t: State)
    requires LockInv(s) && ConsumerInv(s) && WorkerInv(script, s) && ExitInv(script, s) && WakeupInv(s)
    requires Threw !in s.log ==> !s.error || s.requested
    requires Step(script, s, move) == Some(t) && !Internal(move)
    ensures LockInv(t) && ConsumerInv(t) && WorkerInv(script, t) && ExitInv(script, t) && WakeupInv(t)
  {
  }

  lemma ClientKeeps(script: seq<Attempt>, block: Text, s: State, move: Move)
    requires Inv(script, block, s) && Step(script, s, move).Some? && !Internal(move)
    ensures Inv(script, block, Step(script, s, move).value)
  {
    var t := Step(script, s, move).value;
    DataFrame(script, block, s, t);
    ClientKeepsThreads(script, s, move, t);
  }

  /** The invariant is kept by every step of either thread, every call and every spurious wakeup. */
  lemma StepKeeps(script: seq<Attempt>, block: Text, s: State, move: Move)
    requires Inv(script, block, s) && Step(script, s, move).Some?
    ensures Inv(script, block, Step(script, s, move).value)
  {
    match move
    case ConsumerRuns => ConsumerKeeps(script, block, s);
    case WorkerRuns => WorkerKeeps(script, block, s);
    case _ => ClientKeeps(script, block, s, move);
  }

  lemma {:induction false} RunKeeps(script: seq<Attempt>, block: Text, s: State, moves: seq<Move>)
    requires Inv(script, block, s) && Run(script, s, moves).Some?
    ensures Inv(script, block, Run(script, s, moves).value)
    decreases |moves|
  {
    if moves != [] {
      StepKeeps(script, block, s, moves[0]);
      RunKeeps(script, block, Step(script, s, moves[0]).value, moves[1..]);
    }
  }

  // ----- main results -----

  /** Main result: in every interleaving the finishes return what the synchronous reader returns, and
      between a finish and the next start the target holds the same bytes as there. */
  lemma ThreadedRefinesSynchronous(script: seq<Attempt>, block: Text, moves: seq<Move>)
    requires Run(script, Init(block), moves).Some?
    ensures var s := Run(script, Init(block), moves).value;
      var sync := SyncAfter(script, block, |s.log|);
      s.log == sync.log && (!s.requested ==> s.block == sync.block && s.taken == sync.taken)
  {
    InitInv(script, block);
    RunKeeps(script, block, Init(block), moves);
  }

  /** Main result: the target changes only by a read of the worker, under the lock, between a start
      and its finish, while the consumer is outside the reader or blocked in it. */
  lemma WritesOnlyBetween(script: seq<Attempt>, block: Text, s: State, move: Move)
    requires Inv(script, block, s) && Step(script, s, move).Some?
    requires Step(script, s, move).value.block != s.block
    ensures move == WorkerRuns && s.lock == HeldByWorker && s.requested && !Served(s)
    ensures s.consumer in {Idle, FinishEntering, FinishWaiting, FinishWoken, DestroyEntering}
  {
  }

  /** Main result: no wakeup is lost. In every reachable state a thread that waits while its condition
      holds is about to be notified by the other. */
  lemma NoLostWakeup(script: seq<Attempt>, block: Text, moves: seq<Move>)
    requires Run(script, Init(block), moves).Some?
    ensures WakeupInv(Run(script, Init(block), moves).value)
  {
    InitInv(script, block);
    RunKeeps(script, block, Init(block), moves);
  }

  // ----- progress -----

  function ConsumerWeight(c: Consumer): nat {
    match c
    case StartEntering(_) => 14
    case StartNotifying => 3
    case DestroyEntering => 5
    case DestroyNotifying => 4
    case FinishEntering => 2
    case FinishWoken => 2
    case FinishChecking => 1
    case Joining => 1
    case _ => 0
  }

  function WorkerWeight(w: Worker): nat {
    match w
    case Entering => 2
    case Checking => 1
    case Notifying(_) => 4
    case _ => 0
  }

  /** What is still to be done without the client. */
  function Work(s: State): nat {
    ConsumerWeight(s.consumer) + WorkerWeight(s.worker) + if s.desired.Some? && !s.error then 10 else 0
  }

  lemma ConsumerWorks(s: State)
    requires ConsumerStep(s).Some?
    ensures Work(ConsumerStep(s).value) < Work(s)
  {
  }

  lemma WorkerWorks(script: seq<Attempt>, s: State)
    requires WorkerInv(script, s) && WorkerStep(script, s).Some?
    ensures Work(WorkerStep(script, s).value) < Work(s)
  {
  }

  /** Every internal step does some of the work; a spurious wakeup adds a little. */
  lemma StepWorks(script: seq<Attempt>, block: Text, s: State, move: Move)
    requires Inv(script, block, s) && Step(script, s, move).Some?
    ensures Internal(move) ==> Work(Step(script, s, move).value) < Work(s)
    ensures Spurious(move) ==> Work(Step(script, s, move).value) <= Work(s) + 2
  {
    match move
    case ConsumerRuns => ConsumerWorks(s);
    case WorkerRuns => WorkerWorks(script, s);
    case _ =>
  }

  function CountSpurious(moves: seq<Move>): nat {
    if moves == [] then 0 else (if Spurious(moves[0]) then 1 else 0) + CountSpurious(moves[1..])
  }

  /** Main result: without the client the threads come to rest: a run of internal steps is no longer
      than the work there was and three steps for every spurious wakeup in it. */
  lemma {:induction false} RunsAreShort(script: seq<Attempt>, block: Text, s: State, moves: seq<Move>)
    requires Inv(script, block, s) && Run(script, s, moves).Some?
    requires forall i :: 0 <= i < |moves| ==> Internal(moves[i]) || Spurious(moves[i])
    ensures |moves| <= Work(s) + 3 * CountSpurious(moves)
    decreases |moves|
  {
    if moves != [] {
      StepWorks(script, block, s, moves[0]);
      StepKeeps(script, block, s, moves[0]);
      RunsAreShort(script, block, Step(script, s, moves[0]).value, moves[1..]);
    }
  }

  /** No thread can take a step by itself. */
  predicate AtRest(script: seq<Attempt>, s: State) {
    ConsumerStep(s).None? && WorkerStep(script, s).None?
  }

  /** The reader has reported the end of the data, or an error, and its worker is gone. */
  predicate Ended(script: seq<Attempt>, s: State) {
    s.log != [] && Ends(AttemptAt(script, |s.log| - 1))
  }

  /** A call of the consumer that has not returned. */
  predicate InCall(s: State) {
    s.consumer !in {Idle, WorkerJoined}
  }

  /** Main result: when the threads come to rest, every call has returned and a destroyed reader has
      joined its worker, except that a finish waits for ever if and only if its start came after a
      read of no bytes had ended the worker. */
  lemma RestIsDone(script: seq<Attempt>, block: Text, s: State)
    requires Inv(script, block, s) && AtRest(script, s)
    ensures InCall(s) <==> s.consumer == FinishWaiting && Ended(script, s)
    ensures s.consumer == WorkerJoined ==> s.worker == Exited
  {
  }

  /** Nothing that the threads do, not even a spurious wakeup, ends a finish that waits for a worker
      that is gone. */
  lemma {:induction false} FinishAfterEndHangs(script: seq<Attempt>, block: Text, s: State, moves: seq<Move>)
    requires Inv(script, block, s) && Ended(script, s) && s.requested && Run(script, s, moves).Some?
    requires Threw !in s.log
    ensures var t := Run(script, s, moves).value; t.requested && t.log == s.log && t.taken == s.taken
    decreases |moves|
  {
    if moves != [] {
      StepKeeps(script, block, s, moves[0]);
      StepAfterEnd(script, block, s, moves[0]);
      FinishAfterEndHangs(script, block, Step(script, s, moves[0]).value, moves[1..]);
    }
  }

  lemma StepAfterEnd(script: seq<Attempt>, block: Text, s: State, move: Move)
    requires Inv(script, block, s) && Ended(script, s) && s.requested && Threw !in s.log
    requires Step(script, s, move).Some?
    ensures var t := Step(script, s, move).value; t.requested && t.log == s.log && t.taken == s.taken
  {
    NotServedAfterEnd(script, block, s);
  }

  lemma NotServedAfterEnd(script: seq<Attempt>, block: Text, s: State)
    requires Inv(script, block, s) && Ended(script, s) && s.requested && Threw !in s.log
    ensures !Served(s) && s.worker !in {Reading, Checking}
  {
  }

  /** Main result: when the destructor has asked the worker to stop, no further read is begun, not even one
      that was asked for before; a read that is under way is done. */
  lemma {:induction false} NoReadAfterDestroy(script: seq<Attempt>, s: State, moves: seq<Move>)
    requires s.terminate && s.worker != Reading && Run(script, s, moves).Some?
    ensures var t := Run(script, s, moves).value;
      t.terminate && t.worker != Reading && t.taken == s.taken && t.block == s.block
    decreases |moves|
  {
    if moves != [] {
      NoReadAfterDestroy(script, Step(script, s, moves[0]).value, moves[1..]);
    }
  }

  // ----- a run past the end -----

  lemma {:induction false} RunConcat(script: seq<Attempt>, s: State, a: seq<Move>, b: seq<Move>, t: State)
    requires Run(script, s, a) == Some(t)
    ensures Run(script, s, a + b) == Run(script, t, b)
    decreases |a|
  {
    if a == [] {
      assert a + b == b;
    } else {
      assert (a + b)[1..] == a[1..] + b;
      RunConcat(script, Step(script, s, a[0]).value, a[1..], b, t);
    }
  }

  lemma OneStep(script: seq<Attempt>, s: State, a: Move)
    ensures Run(script, s, [a]) == Step(script, s, a)
  {
    assert [a][0] == a && [a][1..] == [];
  }

  lemma TwoSteps(script: seq<Attempt>, s: State, a: Move, b: Move, t: State)
    requires Step(script, s, a).Some? && Step(script, Step(script, s, a).value, b) == Some(t)
    ensures Run(script, s, [a, b]) == Some(t)
  {
    var next := Step(script, s, a).value;
    OneStep(script, s, a);
    OneStep(script, next, b);
    assert [a] + [b] == [a, b];
    RunConcat(script, s, [a], [b], next);
  }

  /** The source is empty, and the consumer has started a read. */
  function Started(): State {
    State(HeldByConsumer, StartNotifying, Entering, Some(1), None, false, false, [], true, 0, [])
  }

  /** The worker has found the end and is gone. */
  function Over(): State {
    State(Free, Idle, Exited, None, Some(0), false, false, [], true, 1, [])
  }

  /** The finish has returned zero. */
  function Told(): State {
    Over().(requested := false, log := [Count(0)])
  }

  /** And another read has been started. */
  function StartedAgain(): State {
    Told().(lock := HeldByConsumer, consumer := StartNotifying, requested := true, desired := Some(1),
            readCount := None)
  }

  lemma WorkerFindsEnd()
    ensures Run([], Started(), [ConsumerRuns, WorkerRuns] + [WorkerRuns, WorkerRuns] + [WorkerRuns]) == Some(Over())
  {
    var s := Started();
    var reading := s.(lock := HeldByWorker, consumer := Idle, worker := Reading);
    var checking := s.(lock := HeldByWorker, consumer := Idle, worker := Checking);
    var found := State(HeldByWorker, Idle, Notifying(true), None, Some(0), false, false, [], true, 1, []);
    TwoSteps([], s, ConsumerRuns, WorkerRuns, checking);
    assert Step([], checking, WorkerRuns) == Some(reading);
    assert Fill([], Gives([])) == [];
    TwoSteps([], checking, WorkerRuns, WorkerRuns, found);
    RunConcat([], s, [ConsumerRuns, WorkerRuns], [WorkerRuns, WorkerRuns], checking);
    RunConcat([], s, [ConsumerRuns, WorkerRuns] + [WorkerRuns, WorkerRuns], [WorkerRuns], found);
    OneStep([], found, WorkerRuns);
  }

  lemma FinishReturnsZero()
    ensures Run([], Over(), [Finish, ConsumerRuns] + [ConsumerRuns]) == Some(Told())
  {
    var checking := Over().(lock := HeldByConsumer, consumer := FinishChecking);
    TwoSteps([], Over(), Finish, ConsumerRuns, checking);
    RunConcat([], Over(), [Finish, ConsumerRuns], [ConsumerRuns], checking);
    OneStep([], checking, ConsumerRuns);
    assert [] + [Count(0)] == [Count(0)];
  }

  /** A finish can come to wait for a worker that is gone: there is a run of an empty source in which a read
      is started after a finish has returned zero. */
  lemma EndCanBePassed() returns (moves: seq<Move>)
    ensures Run([], Init([]), moves) == Some(StartedAgain())
    ensures Inv([], [], StartedAgain()) && Ended([], StartedAgain())
    ensures StartedAgain().requested && Threw !in StartedAgain().log
  {
    var (a, b) := ([Start(1), ConsumerRuns], [ConsumerRuns, WorkerRuns] + [WorkerRuns, WorkerRuns] + [WorkerRuns]);
    var c, d := [Finish, ConsumerRuns] + [ConsumerRuns], [Start(1), ConsumerRuns];
    TwoSteps([], Init([]), Start(1), ConsumerRuns, Started());
    WorkerFindsEnd();
    FinishReturnsZero();
    TwoSteps([], Told(), Start(1), ConsumerRuns, StartedAgain());
    RunConcat([], Init([]), a, b, Started());
    RunConcat([], Init([]), a + b, c, Over());
    RunConcat([], Init([]), a + b + c, d, Told());
    moves := a + b + c + d;
    InitInv([], []);
    RunKeeps([], [], Init([]), moves);
  }
}
