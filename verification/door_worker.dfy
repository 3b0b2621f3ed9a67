/**
 The worker loop of one door. Producers add tasks at any time; the worker takes them one by one and
 sends open and close commands to the relay. A run is described by turns of the loop, each with the
 tasks that arrive at the two points where the worker can tell.
 */
module DoorWorkers {
  /** A request, with the time in milliseconds after which the door is to close. */
  datatype Task = Task(id: nat, closeAfter: int)

  datatype Command = Open | Close

  datatype SwitchType = Direct | Indirect

  /** One turn of the loop: which tasks arrive before the worker takes one, how long that one has
      waited by then, and which tasks arrive before the worker looks at the queue again. */
  datatype Turn = Turn(before: seq<Task>, elapsed: int, during: seq<Task>)

  /** What the loop body decides: whether to open first, whether to sleep, whether to close after the
      sleep, and what to carry into the next turn. */
  datatype Effect = Effect(open: bool, sleep: bool, close: bool, notiInQ: bool)

  /** The loop body, from the time that its task has left, the carried flag, and whether tasks are
      queued when the worker looks again. */
  function Body(kind: SwitchType, realWait: int, notiInQ: bool, queued: bool): Effect {
    if realWait <= 0 then Effect(false, false, false, queued)
    else if kind == Indirect then Effect(true, true, true, false)
    else Effect(!notiInQ, true, !queued, queued)
  }

  /** The worker at the head of its loop: the queue, the carried flag, the commands sent, and which
      tasks were taken so far, each with whether it was served. */
  datatype Worker = Worker(queue: seq<Task>, notiInQ: bool, sent: seq<Command>, taken: seq<(Task, bool)>)

  function Commands(e: Effect): seq<Command> {
    (if e.open then [Open] else []) + (if e.close then [Close] else [])
  }

  /** The worker gets a task in this turn. */
  predicate CanTake(w: Worker, turn: Turn) {
    w.queue + turn.before != []
  }

  function EffectOf(kind: SwitchType, w: Worker, turn: Turn): Effect
    requires CanTake(w, turn)
  {
    var q := w.queue + turn.before;
    Body(kind, q[0].closeAfter - turn.elapsed, w.notiInQ, q[1..] + turn.during != [])
  }

  function TurnOf(kind: SwitchType, w: Worker, turn: Turn): Worker
    requires CanTake(w, turn)
  {
    var q := w.queue + turn.before;
    var e := EffectOf(kind, w, turn);
    Worker(q[1..] + turn.during, e.notiInQ, w.sent + Commands(e), w.taken + [(q[0], e.sleep)])
  }

  /** The worker waits for a task in every turn until there is one. */
  predicate Feasible(kind: SwitchType, w: Worker, turns: seq<Turn>)
    decreases |turns|
  {
    turns == [] || (CanTake(w, turns[0]) && Feasible(kind, TurnOf(kind, w, turns[0]), turns[1..]))
  }

  function RunOf(kind: SwitchType, w: Worker, turns: seq<Turn>): Worker
    requires Feasible(kind, w, turns)
    decreases |turns|
  {
    if turns == [] then w else RunOf(kind, TurnOf(kind, w, turns[0]), turns[1..])
  }

  /** A run may be continued by one more turn. */
  lemma {:induction false} RunOneMore(kind: SwitchType, w: Worker, turns: seq<Turn>, turn: Turn)
    requires Feasible(kind, w, turns) && CanTake(RunOf(kind, w, turns), turn)
    ensures Feasible(kind, w, turns + [turn])
    ensures RunOf(kind, w, turns + [turn]) == TurnOf(kind, RunOf(kind, w, turns), turn)
    decreases |turns|
  {
    if turns == [] {
      assert turns + [turn] == [turn] && [turn][1..] == [];
    } else {
      assert (turns + [turn])[1..] == turns[1..] + [turn];
      RunOneMore(kind, TurnOf(kind, w, turns[0]), turns[1..], turn);
    }
  }

  const START := Worker([], false, [], [])

  class DoorSwitchChannelController {
    const kind: SwitchType
    var queue: seq<Task>
    var sent: seq<Command>
    ghost var taken: seq<(Task, bool)>

    constructor (switchType: SwitchType)
      ensures kind == switchType && queue == [] && sent == [] && taken == []
    {
      kind, queue, sent, taken := switchType, [], [], [];
    }

    method AddTask(task: Task)
      modifies `queue
      ensures queue == old(queue) + [task]
    {
      queue := queue + [task];
    }

    /** Producers add tasks while the worker waits or sleeps. */
    method AddTasks(tasks: seq<Task>)
      modifies `queue
      ensures queue == old(queue) + tasks
    {
      for i := 0 to |tasks|
        invariant queue == old(queue) + tasks[..i]
      {
        AddTask(tasks[i]);
      }
    }

    method SendData(command: Command)
      modifies `sent
      ensures sent == old(sent) + [command]
    {
      sent := sent + [command];
    }

    /** The loop over a finite number of turns, from its first one. */
    method Run(turns: seq<Turn>) returns (notiInQ: bool)
      requires taken == []
      requires Feasible(kind, Worker(queue, false, sent, []), turns)
      modifies this
      ensures Worker(queue, notiInQ, sent, taken)
        == RunOf(kind, Worker(old(queue), false, old(sent), []), turns)
      ensures old(queue) == [] && old(sent) == [] ==>
        && |turns| <= Arrived(turns, |turns|) <= |Arrivals(turns)|
        && Worker(queue, notiInQ, sent, taken) == Foretold(kind, turns, |turns|)
    {
      notiInQ := false;
      ghost var w0 := Worker(queue, false, sent, []);
      for i := 0 to |turns|
        invariant Feasible(kind, Worker(queue, notiInQ, sent, taken), turns[i..])
        invariant RunOf(kind, Worker(queue, notiInQ, sent, taken), turns[i..]) == RunOf(kind, w0, turns)
      {
        assert turns[i..][1..] == turns[i + 1..];
        notiInQ := RunTurn(turns[i], notiInQ);
      }
      if w0 == START {
        RunIsForetold(kind, turns);
      }
    }

    method RunTurn(turn: Turn, noti: bool) returns (notiInQ: bool)
      requires CanTake(Worker(queue, noti, sent, taken), turn)
      modifies this
      ensures Worker(queue, notiInQ, sent, taken)
        == TurnOf(kind, Worker(old(queue), noti, old(sent), old(taken)), turn)
    {
      notiInQ := noti;
      AddTasks(turn.before);
      var task := queue[0];
      queue := queue[1..];
      var realWait := task.closeAfter - turn.elapsed;
      if realWait <= 0 {
        AddTasks(turn.during);
        notiInQ := queue != [];
        taken := taken + [(task, false)];
        return;
      }
      if kind == Indirect {
        SendData(Open);
        AddTasks(turn.during);
        SendData(Close);
        notiInQ := false;
      } else {
        if !notiInQ {
          SendData(Open);
        }
        AddTasks(turn.during);
        notiInQ := queue != [];
        if !notiInQ {
          SendData(Close);
        }
      }
      taken := taken + [(task, true)];
    }
  }

  // ----- tasks -----

  function Arrivals(turns: seq<Turn>): seq<Task> {
    if turns == [] then [] else turns[0].before + turns[0].during + Arrivals(turns[1..])
  }

  function Tasks(taken: seq<(Task, bool)>): (r: seq<Task>)
    ensures |r| == |taken|
  {
    if taken == [] then [] else Tasks(taken[..|taken| - 1]) + [taken[|taken| - 1].0]
  }

  /** Main result: no task is lost, invented or overtaken: those that were there and those that
      arrived, in order, are the ones taken and then the ones still queued. */
  lemma {:induction false} TasksAreConserved(kind: SwitchType, w: Worker, turns: seq<Turn>)
    requires Feasible(kind, w, turns)
    ensures var r := RunOf(kind, w, turns);
      Tasks(w.taken) + w.queue + Arrivals(turns) == Tasks(r.taken) + r.queue
    decreases |turns|
  {
    if turns != [] {
      var turn, next := turns[0], TurnOf(kind, w, turns[0]);
      TasksAreConserved(kind, next, turns[1..]);
      TurnConserves(kind, w, turn);
      var (t, q, b, d, rest) := (Tasks(w.taken), w.queue, turn.before, turn.during, Arrivals(turns[1..]));
      assert t + q + (b + d + rest) == (t + q + b + d) + rest;
    }
  }

  lemma TurnConserves(kind: SwitchType, w: Worker, turn: Turn)
    requires CanTake(w, turn)
    ensures var next := TurnOf(kind, w, turn);
      Tasks(next.taken) + next.queue == Tasks(w.taken) + w.queue + turn.before + turn.during
  {
    var q, next := w.queue + turn.before, TurnOf(kind, w, turn);
    assert next.taken[..|next.taken| - 1] == w.taken;
    assert q == [q[0]] + q[1..];
  }

  // ----- direct switches -----

  /** Commands that open, close, open, and so on. */
  ghost predicate Alternates(sent: seq<Command>) {
    forall i :: 0 <= i < |sent| ==> sent[i] == if i % 2 == 0 then Open else Close
  }

  /** The last command, if any, was to open. */
  predicate DoorOpen(sent: seq<Command>) {
    sent != [] && sent[|sent| - 1] == Open
  }

  /** No task that the worker takes is found expired. */
  ghost predicate NoneExpires(kind: SwitchType, w: Worker, turns: seq<Turn>)
    requires Feasible(kind, w, turns)
    decreases |turns|
  {
    turns != [] ==>
      EffectOf(kind, w, turns[0]).sleep && NoneExpires(kind, TurnOf(kind, w, turns[0]), turns[1..])
  }

  /** The carried flag says whether the door is open. */
  predicate Agrees(w: Worker) {
    w.notiInQ <==> DoorOpen(w.sent)
  }

  /** The flag is right, the commands alternate, and an open door has a task waiting for it. */
  ghost predicate InStep(w: Worker) {
    Agrees(w) && Alternates(w.sent) && (w.notiInQ ==> w.queue != [])
  }

  /** After an alternating trace the opposite command may follow. */
  lemma AlternatesOn(sent: seq<Command>, c: Command)
    requires Alternates(sent) && (c == Open <==> !DoorOpen(sent))
    ensures Alternates(sent + [c]) && (DoorOpen(sent + [c]) <==> c == Open)
  {
  }

  /** What one turn of the loop does to the flag and the commands: serving keeps them right, and so does an
      expiry that leaves the flag as it was. */
  lemma FlagStep(noti: bool, sent: seq<Command>, wait: int, queued: bool, e: Effect)
    requires e == Body(Direct, wait, noti, queued) && (wait <= 0 ==> noti == queued)
    requires (noti <==> DoorOpen(sent)) && Alternates(sent)
    ensures (e.notiInQ <==> DoorOpen(sent + Commands(e))) && Alternates(sent + Commands(e))
  {
    var begun := sent + if e.open then [Open] else [];
    if e.open {
      AlternatesOn(sent, Open);
    } else {
      assert begun == sent;
    }
    if e.close {
      AlternatesOn(begun, Close);
    }
    assert sent + Commands(e) == if e.close then begun + [Close] else begun;
  }

  lemma ServingKeepsStep(w: Worker, turn: Turn)
    requires CanTake(w, turn) && InStep(w) && EffectOf(Direct, w, turn).sleep
    ensures InStep(TurnOf(Direct, w, turn))
  {
    var q := w.queue + turn.before;
    FlagStep(w.notiInQ, w.sent, q[0].closeAfter - turn.elapsed, q[1..] + turn.during != [], EffectOf(Direct, w, turn));
  }

  /** Main result: a direct switch whose tasks do not expire gets commands that strictly alternate; at
      the head of the loop the door is open exactly when the flag says so, and then a task is queued,
      so the worker never waits with the door open. */
  lemma {:induction false} DirectAlternates(w: Worker, turns: seq<Turn>)
    requires Feasible(Direct, w, turns) && NoneExpires(Direct, w, turns) && InStep(w)
    ensures InStep(RunOf(Direct, w, turns))
    decreases |turns|
  {
    if turns != [] {
      ServingKeepsStep(w, turns[0]);
      DirectAlternates(TurnOf(Direct, w, turns[0]), turns[1..]);
    }
  }

  /** Every expired task finds a queue that is empty exactly when the flag says so. */
  ghost predicate ExpiriesAreHarmless(w: Worker, turns: seq<Turn>)
    requires Feasible(Direct, w, turns)
    decreases |turns|
  {
    turns != [] ==>
      var next := TurnOf(Direct, w, turns[0]);
      && (!EffectOf(Direct, w, turns[0]).sleep ==> (w.notiInQ <==> next.queue != []))
      && ExpiriesAreHarmless(next, turns[1..])
  }

  /** The worker is in step at every head of the loop. */
  ghost predicate AlwaysInStep(w: Worker, turns: seq<Turn>)
    requires Feasible(Direct, w, turns)
    decreases |turns|
  {
    InStep(w) && (turns != [] ==> AlwaysInStep(TurnOf(Direct, w, turns[0]), turns[1..]))
  }

  /** With expired tasks a direct switch stays in step if and only if none of them makes the expired
      branch change the flag. */
  lemma {:induction false} InStepIffHarmless(w: Worker, turns: seq<Turn>)
    requires Feasible(Direct, w, turns) && InStep(w)
    ensures AlwaysInStep(w, turns) <==> ExpiriesAreHarmless(w, turns)
    decreases |turns|
  {
    if turns != [] {
      var next := TurnOf(Direct, w, turns[0]);
      if EffectOf(Direct, w, turns[0]).sleep {
        ServingKeepsStep(w, turns[0]);
      } else {
        assert next.sent == w.sent;
      }
      if InStep(next) {
        InStepIffHarmless(next, turns[1..]);
      }
    }
  }

  /** The worker after the first `i` turns. */
  function WorkerAt(kind: SwitchType, turns: seq<Turn>, i: nat): (w: Worker)
    requires Feasible(kind, START, turns) && i <= |turns|
    ensures |w.taken| == i && Feasible(kind, w, turns[i..])
  {
    if i == 0 then START
    else
      assert turns[i - 1..][1..] == turns[i..];
      TurnOf(kind, WorkerAt(kind, turns, i - 1), turns[i - 1])
  }

  /** How many tasks arrive in the first `i` turns. */
  function Arrived(turns: seq<Turn>, i: nat): nat
    requires i <= |turns|
  {
    if i == 0 then 0 else Arrived(turns, i - 1) + |turns[i - 1].before| + |turns[i - 1].during|
  }

  /** The tasks of the first `i` turns are all there are. */
  lemma {:induction false} ArrivedCounts(turns: seq<Turn>, i: nat)
    requires i <= |turns|
    ensures |Arrivals(turns)| == Arrived(turns, i) + |Arrivals(turns[i..])|
  {
    if i > 0 {
      ArrivedCounts(turns, i - 1);
      assert turns[i - 1..][1..] == turns[i..];
    }
  }

  /** Task number `i` has expired when turn number `i` takes it. */
  predicate Expired(turns: seq<Turn>, i: nat)
    requires i < |turns| && i < |Arrivals(turns)|
  {
    Arrivals(turns)[i].closeAfter <= turns[i].elapsed
  }

  /** More tasks have come than turns have gone by. */
  predicate TasksLeft(turns: seq<Turn>, i: nat)
    requires i <= |turns|
  {
    i < Arrived(turns, i)
  }

  /** Turn number `i` takes task number `i`, and those that have come and were not taken are queued. */
  lemma {:induction false} QueueAt(kind: SwitchType, turns: seq<Turn>, i: nat)
    requires Feasible(kind, START, turns) && i <= |turns|
    ensures var w := WorkerAt(kind, turns, i);
      && i <= |Arrivals(turns)| && w.queue + Arrivals(turns[i..]) == Arrivals(turns)[i..]
      && |w.queue| == Arrived(turns, i) - i
    decreases i
  {
    if i > 0 {
      QueueAt(kind, turns, i - 1);
      assert turns[i - 1..][1..] == turns[i..];
      QueueMoves(WorkerAt(kind, turns, i - 1).queue, turns[i - 1], Arrivals(turns[i..]), Arrivals(turns), i);
    }
  }

  lemma QueueMoves(queue: seq<Task>, turn: Turn, later: seq<Task>, all: seq<Task>, i: nat)
    requires 0 < i <= |all| + 1 && queue + turn.before != []
    requires queue + (turn.before + turn.during + later) == all[i - 1..]
    ensures i <= |all| && (queue + turn.before)[0] == all[i - 1]
    ensures (queue + turn.before)[1..] + turn.during + later == all[i..]
  {
    var q := queue + turn.before;
    assert q + turn.during + later == all[i - 1..];
    assert all[i - 1..][1..] == all[i..];
    assert (q + turn.during + later)[1..] == q[1..] + turn.during + later;
    assert all[i - 1..][0] == q[0];
  }

  /** What an expiry in turn number `i` does to the flag can be told from the arrivals: the flag is set
      before it if the turn before left a task, and after it if this turn does. */
  predicate HarmlessAt(turns: seq<Turn>, i: nat)
    requires i < |turns| && i < |Arrivals(turns)|
  {
    Expired(turns, i) ==> (0 < i && TasksLeft(turns, i) <==> TasksLeft(turns, i + 1))
  }

  /** Main result: a direct switch is in step at every loop head if and only if every task that has
      expired when it is taken was queued before that turn exactly if it leaves another one queued. */
  lemma InStepIff(turns: seq<Turn>)
    requires Feasible(Direct, START, turns)
    ensures |turns| <= |Arrivals(turns)|
    ensures AlwaysInStep(START, turns) <==> forall i :: 0 <= i < |turns| ==> HarmlessAt(turns, i)
  {
    QueueAt(Direct, turns, |turns|);
    InStepIffHarmless(START, turns);
    assert turns[0..] == turns;
    HarmlessFrom(turns, 0);
  }

  lemma {:induction false} HarmlessFrom(turns: seq<Turn>, i: nat)
    requires Feasible(Direct, START, turns) && i <= |turns| <= |Arrivals(turns)|
    ensures ExpiriesAreHarmless(WorkerAt(Direct, turns, i), turns[i..])
      <==> forall j :: i <= j < |turns| ==> HarmlessAt(turns, j)
    decreases |turns| - i
  {
    if i < |turns| {
      HarmlessFrom(turns, i + 1);
      HarmlessNow(turns, i);
      assert turns[i..][1..] == turns[i + 1..] && turns[i..][0] == turns[i];
      assert (forall j :: i <= j < |turns| ==> HarmlessAt(turns, j))
        <==> HarmlessAt(turns, i) && forall j :: i + 1 <= j < |turns| ==> HarmlessAt(turns, j);
    }
  }

  lemma HarmlessNow(turns: seq<Turn>, i: nat)
    requires Feasible(Direct, START, turns) && i < |turns| <= |Arrivals(turns)|
    ensures var (w, next) := (WorkerAt(Direct, turns, i), WorkerAt(Direct, turns, i + 1));
      && CanTake(w, turns[i])
      && (HarmlessAt(turns, i) <==>
            (!EffectOf(Direct, w, turns[i]).sleep ==> (w.notiInQ <==> next.queue != [])))
  {
    QueueAt(Direct, turns, i);
    assert turns[i..][0] == turns[i];
    TakenIs(turns, i, WorkerAt(Direct, turns, i).queue);
    QueueAt(Direct, turns, i + 1);
    FlagAt(turns, i);
  }

  /** The task of turn number `i`, when the tasks that have come and were not taken are queued. */
  lemma TakenIs(turns: seq<Turn>, i: nat, queue: seq<Task>)
    requires i < |turns| && i < |Arrivals(turns)| && queue + turns[i].before != []
    requires queue + Arrivals(turns[i..]) == Arrivals(turns)[i..]
    ensures (queue + turns[i].before)[0] == Arrivals(turns)[i]
  {
    assert turns[i..][0] == turns[i];
    QueueMoves(queue, turns[i], Arrivals(turns[i..][1..]), Arrivals(turns), i + 1);
  }

  /** The flag says whether a task is queued, from the first turn on. */
  lemma FlagAt(turns: seq<Turn>, i: nat)
    requires Feasible(Direct, START, turns) && i <= |turns|
    ensures WorkerAt(Direct, turns, i).notiInQ <==> 0 < i && WorkerAt(Direct, turns, i).queue != []
  {
    if i > 0 {
      FlagAfterTurn(WorkerAt(Direct, turns, i - 1), turns[i - 1], WorkerAt(Direct, turns, i));
    }
  }

  lemma FlagAfterTurn(w: Worker, turn: Turn, next: Worker)
    requires CanTake(w, turn) && next == TurnOf(Direct, w, turn)
    ensures next.notiInQ <==> next.queue != []
  {
  }

  /** A task that expires behind another leaves the door open with nobody waiting: the flag is false,
      the queue is empty, and the next task opens an open door. */
  lemma ExpiryLeavesDoorOpen()
    ensures var turns := [Turn([Task(0, 10)], 0, [Task(1, 5)]), Turn([], 10, [])];
      && Feasible(Direct, START, turns)
      && RunOf(Direct, START, turns).sent == [Open]
      && RunOf(Direct, START, turns).queue == [] && !RunOf(Direct, START, turns).notiInQ
  {
    var t0, t1 := Turn([Task(0, 10)], 0, [Task(1, 5)]), Turn([], 10, []);
    var w1 := TurnOf(Direct, START, t0);
    assert w1 == Worker([Task(1, 5)], true, [Open], [(Task(0, 10), true)]);
    var w2 := TurnOf(Direct, w1, t1);
    assert w2 == Worker([], false, [Open], [(Task(0, 10), true), (Task(1, 5), false)]);
    assert [t0, t1][1..] == [t1] && [t1][1..] == [];
    assert Feasible(Direct, w2, []) && Feasible(Direct, w1, [t1]);
    assert RunOf(Direct, w1, [t1]) == w2;
  }

  // ----- what a run does, from the arrivals alone -----

  /** When turn number `i` takes its task, another one was left by the turn before. */
  predicate Follows(turns: seq<Turn>, i: nat)
    requires i <= |turns|
  {
    0 < i && TasksLeft(turns, i)
  }

  /** The commands for a task: none if it has expired. An indirect switch is opened and closed; a direct one
      is opened unless the task follows another, and closed unless another follows it. */
  function CommandsFor(kind: SwitchType, expired: bool, follows: bool, followed: bool): seq<Command> {
    if expired then []
    else if kind == Indirect then [Open, Close]
    else (if follows then [] else [Open]) + (if followed then [] else [Close])
  }

  /** Those of turn number `i`. */
  function CommandsAt(kind: SwitchType, turns: seq<Turn>, i: nat): seq<Command>
    requires i < |turns| && i < |Arrivals(turns)|
  {
    CommandsFor(kind, Expired(turns, i), Follows(turns, i), Follows(turns, i + 1))
  }

  /** Those of the first `k` turns, in order. */
  function CommandsUpTo(kind: SwitchType, turns: seq<Turn>, k: nat): seq<Command>
    requires k <= |turns| && k <= |Arrivals(turns)|
  {
    if k == 0 then [] else CommandsUpTo(kind, turns, k - 1) + CommandsAt(kind, turns, k - 1)
  }

  /** The flag that turn number `i` leaves for the next: whether a task follows, but not when an indirect
      switch has served its own. */
  predicate FlagLeft(kind: SwitchType, turns: seq<Turn>, i: nat)
    requires i <= |turns| && i <= |Arrivals(turns)|
  {
    Follows(turns, i) && (kind == Direct || Expired(turns, i - 1))
  }

  /** The first `i` tasks in order, and those of them served that had not expired. */
  function TakenUpTo(turns: seq<Turn>, i: nat): seq<(Task, bool)>
    requires i <= |turns| && i <= |Arrivals(turns)|
  {
    seq(i, j requires 0 <= j < i => (Arrivals(turns)[j], !Expired(turns, j)))
  }

  /** The worker after `i` turns, told from the arrivals and the waiting times. */
  function Foretold(kind: SwitchType, turns: seq<Turn>, i: nat): Worker
    requires i <= |turns| && i <= Arrived(turns, i) <= |Arrivals(turns)|
  {
    Worker(Arrivals(turns)[i..Arrived(turns, i)], FlagLeft(kind, turns, i), CommandsUpTo(kind, turns, i),
           TakenUpTo(turns, i))
  }

  lemma QueueIs(kind: SwitchType, turns: seq<Turn>, i: nat)
    requires Feasible(kind, START, turns) && i <= |turns|
    ensures i <= Arrived(turns, i) <= |Arrivals(turns)|
    ensures WorkerAt(kind, turns, i).queue == Arrivals(turns)[i..Arrived(turns, i)]
  {
    QueueAt(kind, turns, i);
    ArrivedCounts(turns, i);
    FrontOf(WorkerAt(kind, turns, i).queue, Arrivals(turns[i..]), Arrivals(turns), i, Arrived(turns, i));
  }

  lemma FrontOf(q: seq<Task>, later: seq<Task>, all: seq<Task>, i: nat, n: nat)
    requires i <= n <= |all| && q + later == all[i..] && |q| == n - i
    ensures q == all[i..n]
  {
    assert q == (q + later)[..|q|];
    assert all[i..][..|q|] == all[i..n];
  }

  /** One turn, once it is known which task it takes and whether it leaves one. */
  lemma TurnDoes(kind: SwitchType, w: Worker, turn: Turn, next: Worker, task: Task, expired: bool, left: bool)
    requires CanTake(w, turn) && next == TurnOf(kind, w, turn)
    requires (w.queue + turn.before)[0] == task && (expired <==> task.closeAfter <= turn.elapsed)
    requires left == (next.queue != [])
    ensures next.taken == w.taken + [(task, !expired)]
    ensures next.notiInQ == (left && (kind == Direct || expired))
    ensures next.sent == w.sent + CommandsFor(kind, expired, w.notiInQ, left)
  {
  }

  lemma TakenStep(turns: seq<Turn>, i: nat, served: (Task, bool))
    requires i < |turns| && i < |Arrivals(turns)| && served == (Arrivals(turns)[i], !Expired(turns, i))
    ensures TakenUpTo(turns, i + 1) == TakenUpTo(turns, i) + [served]
  {
  }

  lemma CommandsStep(kind: SwitchType, turns: seq<Turn>, i: nat, expired: bool, noti: bool, left: bool)
    requires i < |turns| && i < |Arrivals(turns)|
    requires expired == Expired(turns, i) && noti == FlagLeft(kind, turns, i) && left == Follows(turns, i + 1)
    ensures CommandsUpTo(kind, turns, i + 1)
      == CommandsUpTo(kind, turns, i) + CommandsFor(kind, expired, noti, left)
  {
  }

  lemma ForetoldStep(kind: SwitchType, turns: seq<Turn>, i: nat, w: Worker, next: Worker, task: Task,
                     expired: bool, left: bool)
    requires i < |turns| && i < |Arrivals(turns)| && i <= Arrived(turns, i) <= |Arrivals(turns)|
    requires w == Foretold(kind, turns, i)
    requires i + 1 <= Arrived(turns, i + 1) <= |Arrivals(turns)|
    requires next.queue == Arrivals(turns)[i + 1..Arrived(turns, i + 1)]
    requires task == Arrivals(turns)[i] && expired == Expired(turns, i) && left == Follows(turns, i + 1)
    requires next.taken == w.taken + [(task, !expired)]
    requires next.notiInQ == (left && (kind == Direct || expired))
    requires next.sent == w.sent + CommandsFor(kind, expired, w.notiInQ, left)
    ensures next == Foretold(kind, turns, i + 1)
  {
    TakenStep(turns, i, (task, !expired));
    CommandsStep(kind, turns, i, expired, w.notiInQ, left);
  }

  lemma WorkerTurns(kind: SwitchType, turns: seq<Turn>, i: nat, w: Worker, next: Worker)
    requires Feasible(kind, START, turns) && i < |turns| && i <= Arrived(turns, i) <= |Arrivals(turns)|
    requires w == WorkerAt(kind, turns, i) == Foretold(kind, turns, i) && next == WorkerAt(kind, turns, i + 1)
    ensures i + 1 <= Arrived(turns, i + 1) <= |Arrivals(turns)| && next == Foretold(kind, turns, i + 1)
  {
    QueueIs(kind, turns, i + 1);
    QueueAt(kind, turns, i);
    assert turns[i..][0] == turns[i];
    TakenIs(turns, i, w.queue);
    var task, expired, left := Arrivals(turns)[i], Expired(turns, i), Follows(turns, i + 1);
    TurnDoes(kind, w, turns[i], next, task, expired, left);
    ForetoldStep(kind, turns, i, w, next, task, expired, left);
  }

  lemma {:induction false} WorkerIsForetold(kind: SwitchType, turns: seq<Turn>, i: nat, w: Worker)
    requires Feasible(kind, START, turns) && i <= |turns| && w == WorkerAt(kind, turns, i)
    ensures i <= Arrived(turns, i) <= |Arrivals(turns)| && w == Foretold(kind, turns, i)
  {
    if i > 0 {
      var before := WorkerAt(kind, turns, i - 1);
      WorkerIsForetold(kind, turns, i - 1, before);
      WorkerTurns(kind, turns, i - 1, before, w);
    }
  }

  lemma {:induction false} RunIsWorkerAt(kind: SwitchType, turns: seq<Turn>, i: nat)
    requires Feasible(kind, START, turns) && i <= |turns|
    ensures RunOf(kind, WorkerAt(kind, turns, i), turns[i..]) == RunOf(kind, START, turns)
    decreases i
  {
    if i == 0 {
      assert turns[0..] == turns;
    } else {
      assert turns[i - 1..][1..] == turns[i..] && turns[i - 1..][0] == turns[i - 1];
      RunIsWorkerAt(kind, turns, i - 1);
    }
  }

  /** Main result: what a worker has sent, taken and left queued after any number of turns, and the flag that
      it carries, are told by when which tasks arrived and how long they had waited: the task of each turn is
      served exactly if it has not expired, and only then are commands sent for it. */
  lemma RunIsForetold(kind: SwitchType, turns: seq<Turn>)
    requires Feasible(kind, START, turns)
    ensures |turns| <= Arrived(turns, |turns|) <= |Arrivals(turns)|
    ensures RunOf(kind, START, turns) == Foretold(kind, turns, |turns|)
  {
    var w := WorkerAt(kind, turns, |turns|);
    WorkerIsForetold(kind, turns, |turns|, w);
    RunIsWorkerAt(kind, turns, |turns|);
    assert turns[|turns|..] == [];
  }

  /** A turn is possible exactly if its task has come by then. */
  lemma {:induction false} FeasibleIff(kind: SwitchType, turns: seq<Turn>)
    ensures Feasible(kind, START, turns) <==>
      forall i :: 0 <= i < |turns| ==> i < Arrived(turns, i) + |turns[i].before|
  {
    FeasibleFrom(kind, START, turns, turns, 0);
  }

  lemma {:induction false} FeasibleFrom(kind: SwitchType, w: Worker, turns: seq<Turn>, rest: seq<Turn>, i: nat)
    requires i <= |turns| && rest == turns[i..] && |w.queue| == Arrived(turns, i) - i
    ensures Feasible(kind, w, rest) <==>
      forall j :: i <= j < |turns| ==> j < Arrived(turns, j) + |turns[j].before|
    decreases |turns| - i
  {
    if i < |turns| {
      assert rest[1..] == turns[i + 1..];
      if CanTake(w, turns[i]) {
        FeasibleFrom(kind, TurnOf(kind, w, turns[i]), turns, rest[1..], i + 1);
      }
      assert CanTake(w, turns[i]) <==> i < Arrived(turns, i) + |turns[i].before|;
    }
  }

  // ----- indirect switches -----

  /** Open and close once for each task that was served, and nothing for the others. */
  function Pairs(taken: seq<(Task, bool)>): seq<Command> {
    if taken == [] then []
    else Pairs(taken[..|taken| - 1]) + if taken[|taken| - 1].1 then [Open, Close] else []
  }

  /** How many of the first `k` tasks had not expired when they were taken. */
  function ServedUpTo(turns: seq<Turn>, k: nat): nat
    requires k <= |turns| && k <= |Arrivals(turns)|
  {
    if k == 0 then 0 else ServedUpTo(turns, k - 1) + if Expired(turns, k - 1) then 0 else 1
  }

  lemma {:induction false} TwoForEach(turns: seq<Turn>, k: nat)
    requires k <= |turns| && k <= |Arrivals(turns)|
    ensures |CommandsUpTo(Indirect, turns, k)| == 2 * ServedUpTo(turns, k)
  {
    if k > 0 {
      TwoForEach(turns, k - 1);
    }
  }

  lemma {:induction false} PairsFollow(w: Worker, turns: seq<Turn>)
    requires Feasible(Indirect, w, turns) && w.sent == Pairs(w.taken)
    ensures RunOf(Indirect, w, turns).sent == Pairs(RunOf(Indirect, w, turns).taken)
    decreases |turns|
  {
    if turns != [] {
      var next := TurnOf(Indirect, w, turns[0]);
      assert next.taken[..|next.taken| - 1] == w.taken;
      PairsFollow(next, turns[1..]);
    }
  }

  /** Main result: whatever the durations and expiries, an indirect switch gets one pair of commands for
      each task that had not expired when it was taken, in the order of arrival, and nothing for the
      others; and is closed at every head of the loop. */
  lemma IndirectPairs(turns: seq<Turn>)
    requires Feasible(Indirect, START, turns)
    ensures var r := RunOf(Indirect, START, turns);
      && |turns| == |r.taken| <= |Arrivals(turns)|
      && (forall i :: 0 <= i < |turns| ==> r.taken[i] == (Arrivals(turns)[i], !Expired(turns, i)))
      && r.sent == Pairs(r.taken) && Alternates(r.sent) && !DoorOpen(r.sent)
      && |r.sent| == 2 * ServedUpTo(turns, |turns|)
  {
    RunIsForetold(Indirect, turns);
    TwoForEach(turns, |turns|);
    PairsFollow(START, turns);
    PairsAlternate(RunOf(Indirect, START, turns).taken);
  }

  lemma {:induction false} PairsAlternate(taken: seq<(Task, bool)>)
    ensures Alternates(Pairs(taken)) && !DoorOpen(Pairs(taken)) && |Pairs(taken)| % 2 == 0
  {
    if taken != [] {
      PairsAlternate(taken[..|taken| - 1]);
    }
  }
}
