/**
 The worker of a direct switch in time, with exact sleeps and no processing time. Times are in
 milliseconds.
 */
module DoorTiming {
  import opened DoorWorkers

  /** A request that is queued at time `at`; `wins` tells whether, when that is the very moment at which
      the worker wakes and looks at the queue, the request is there first. */
  datatype Request = Request(at: int, closeAfter: int, wins: bool) {
    function Deadline(): int {
      at + closeAfter
    }
  }

  /** A command and the time at which it is sent. */
  datatype Sent = Sent(time: int, command: Command)

  /** The worker at the head of its loop: the time, the requests taken, the carried flag, the commands. */
  datatype Clocked = Clocked(now: int, taken: nat, notiInQ: bool, sent: seq<Sent>)

  function Max(a: int, b: int): int {
    if a < b then b else a
  }

  /** A request is queued when the worker looks at time `t`. */
  predicate Queued(rs: seq<Request>, taken: nat, t: int) {
    taken < |rs| && (rs[taken].at < t || (rs[taken].at == t && rs[taken].wins))
  }

  /** When the worker takes the next request, and the time that is then left of it. */
  function TakenAt(rs: seq<Request>, w: Clocked): int
    requires w.taken < |rs|
  {
    Max(w.now, rs[w.taken].at)
  }

  function RealWait(rs: seq<Request>, w: Clocked): int
    requires w.taken < |rs|
  {
    rs[w.taken].closeAfter - (TakenAt(rs, w) - rs[w.taken].at)
  }

  function With(sent: seq<Sent>, sends: bool, s: Sent): seq<Sent> {
    if sends then sent + [s] else sent
  }

  /** When the worker looks at the queue again. */
  function WakeAt(rs: seq<Request>, w: Clocked): int
    requires w.taken < |rs|
  {
    if RealWait(rs, w) <= 0 then TakenAt(rs, w) else TakenAt(rs, w) + RealWait(rs, w)
  }

  function TickEffect(rs: seq<Request>, w: Clocked): Effect
    requires w.taken < |rs|
  {
    Body(Direct, RealWait(rs, w), w.notiInQ, Queued(rs, w.taken + 1, WakeAt(rs, w)))
  }

  /** One turn of the loop of a direct switch. */
  function Tick(rs: seq<Request>, w: Clocked): Clocked
    requires w.taken < |rs|
  {
    var (start, wake, e) := (TakenAt(rs, w), WakeAt(rs, w), TickEffect(rs, w));
    Clocked(wake, w.taken + 1, e.notiInQ,
            With(With(w.sent, e.open, Sent(start, Open)), e.close, Sent(wake, Close)))
  }

  /** The worker after it has taken `k` requests. */
  function ClockAfter(rs: seq<Request>, begin: int, k: nat): (w: Clocked)
    requires k <= |rs|
    ensures w.taken == k
  {
    if k == 0 then Clocked(begin, 0, false, []) else Tick(rs, ClockAfter(rs, begin, k - 1))
  }

  /** Requests that come in order, none before the worker is there, each for some time and each to end
      later than the one before. */
  ghost predicate Orderly(rs: seq<Request>, begin: int) {
    && (forall i :: 0 <= i < |rs| ==> begin <= rs[i].at && 0 < rs[i].closeAfter)
    && (forall i, j :: 0 <= i < j < |rs| ==> rs[i].at <= rs[j].at && rs[i].Deadline() < rs[j].Deadline())
  }

  /** Somebody's request is running at time `t`, among the first `k`. */
  ghost predicate Requested(rs: seq<Request>, k: nat, t: int)
    requires k <= |rs|
  {
    exists i :: 0 <= i < k && rs[i].at <= t < rs[i].Deadline()
  }

  /** The door after the commands sent up to time `t`. */
  predicate OpenAt(sent: seq<Sent>, t: int) {
    sent != [] &&
    var last := sent[|sent| - 1];
    if last.time <= t then last.command == Open else OpenAt(sent[..|sent| - 1], t)
  }

  /** The time up to which the first `k` requests keep the door open. */
  function Until(rs: seq<Request>, begin: int, k: nat): int
    requires k <= |rs|
  {
    if k == 0 then begin else rs[k - 1].Deadline()
  }

  /** What holds at the head of the loop: it is the deadline of the last request; the flag says whether
      the door is open, which is so exactly when the next request has come; and so far the door has
      been open exactly when requested. */
  ghost predicate OnTime(rs: seq<Request>, begin: int, w: Clocked)
    requires w.taken <= |rs|
  {
    && w.now == Until(rs, begin, w.taken)
    && (forall i :: 0 <= i < |w.sent| ==> w.sent[i].time <= w.now)
    && (w.notiInQ <==> w.sent != [] && w.sent[|w.sent| - 1].command == Open)
    && (w.notiInQ ==> 0 < w.taken < |rs| && rs[w.taken].at <= w.now)
    && (!w.notiInQ && w.taken < |rs| ==> w.now <= rs[w.taken].at)
    && (forall t :: t < w.now ==> (OpenAt(w.sent, t) <==> Requested(rs, w.taken, t)))
  }

  /** A request that is taken in time has exactly its deadline left. */
  lemma TakenInTime(rs: seq<Request>, begin: int, w: Clocked)
    requires Orderly(rs, begin) && w.taken < |rs| && OnTime(rs, begin, w)
    ensures 0 < RealWait(rs, w) && TakenAt(rs, w) + RealWait(rs, w) == rs[w.taken].Deadline()
    ensures TakenAt(rs, w) == if w.notiInQ then w.now else rs[w.taken].at
    ensures w.now < rs[w.taken].Deadline()
  {
    if w.taken > 0 {
      assert rs[w.taken - 1].Deadline() < rs[w.taken].Deadline();
    }
  }

  /** Later commands do not change what was. */
  lemma OpenBefore(sent: seq<Sent>, next: Sent, t: int)
    ensures OpenAt(sent + [next], t) <==> if next.time <= t then next.command == Open else OpenAt(sent, t)
  {
    assert (sent + [next])[..|sent|] == sent;
  }

  /** At and after the last command the door is as that left it. */
  lemma OpenSince(sent: seq<Sent>, now: int, t: int)
    requires (forall i :: 0 <= i < |sent| ==> sent[i].time <= now) && now <= t
    ensures OpenAt(sent, t) <==> sent != [] && sent[|sent| - 1].command == Open
  {
  }

  /** The next request adds its own time to what was requested, and that begins where the time before
      ends if the door is open, and not before that if it is closed. */
  lemma RequestedNext(rs: seq<Request>, begin: int, w: Clocked, t: int)
    requires Orderly(rs, begin) && w.taken < |rs| && OnTime(rs, begin, w)
    ensures Requested(rs, w.taken + 1, t) <==>
      if t < w.now then Requested(rs, w.taken, t) else TakenAt(rs, w) <= t < rs[w.taken].Deadline()
  {
    var k := w.taken;
    assert Requested(rs, k + 1, t) <==> Requested(rs, k, t) || rs[k].at <= t < rs[k].Deadline();
    if k > 0 {
      forall i | 0 <= i < k
        ensures rs[i].Deadline() <= w.now
      {
        assert i < k - 1 ==> rs[i].Deadline() < rs[k - 1].Deadline();
      }
      if rs[k].at <= t < w.now {
        assert rs[k - 1].at <= rs[k].at;
      }
    }
  }

  /** The commands of a tick that is in time: open unless the door is, and close unless a request came. */
  ghost predicate TickSent(rs: seq<Request>, w: Clocked, next: Clocked)
    requires w.taken < |rs|
  {
    var begun := if w.notiInQ then w.sent else w.sent + [Sent(rs[w.taken].at, Open)];
    && next.sent == (if next.notiInQ then begun else begun + [Sent(rs[w.taken].Deadline(), Close)])
    && (next.notiInQ <==> Queued(rs, w.taken + 1, rs[w.taken].Deadline()))
  }

  lemma TickSends(rs: seq<Request>, begin: int, w: Clocked, next: Clocked)
    requires Orderly(rs, begin) && w.taken < |rs| && OnTime(rs, begin, w) && next == Tick(rs, w)
    ensures TickSent(rs, w, next)
  {
    TakenInTime(rs, begin, w);
  }

  lemma TickOpens(rs: seq<Request>, begin: int, w: Clocked, next: Clocked, t: int)
    requires Orderly(rs, begin) && w.taken < |rs| && OnTime(rs, begin, w) && next == Tick(rs, w)
    requires t < rs[w.taken].Deadline()
    ensures OpenAt(next.sent, t) <==> if t < w.now then OpenAt(w.sent, t) else TakenAt(rs, w) <= t
  {
    TakenInTime(rs, begin, w);
    TickSends(rs, begin, w, next);
    var open, close := Sent(rs[w.taken].at, Open), Sent(rs[w.taken].Deadline(), Close);
    var begun := if w.notiInQ then w.sent else w.sent + [open];
    if w.now <= t {
      OpenSince(w.sent, w.now, t);
    }
    OpenBefore(w.sent, open, t);
    OpenBefore(begun, close, t);
  }

  lemma TickDoor(rs: seq<Request>, begin: int, w: Clocked, next: Clocked, t: int)
    requires Orderly(rs, begin) && w.taken < |rs| && OnTime(rs, begin, w) && next == Tick(rs, w)
    requires t < rs[w.taken].Deadline()
    ensures OpenAt(next.sent, t) <==> Requested(rs, w.taken + 1, t)
  {
    TickOpens(rs, begin, w, next, t);
    RequestedNext(rs, begin, w, t);
  }

  lemma TickHead(rs: seq<Request>, begin: int, w: Clocked, next: Clocked)
    requires Orderly(rs, begin) && w.taken < |rs| && OnTime(rs, begin, w) && next == Tick(rs, w)
    ensures next.taken == w.taken + 1 && next.now == rs[w.taken].Deadline()
    ensures forall i :: 0 <= i < |next.sent| ==> next.sent[i].time <= next.now
    ensures next.notiInQ <==> next.sent != [] && next.sent[|next.sent| - 1].command == Open
    ensures next.notiInQ <==> Queued(rs, next.taken, next.now)
  {
    TakenInTime(rs, begin, w);
    TickSends(rs, begin, w, next);
  }

  lemma TickKeeps(rs: seq<Request>, begin: int, w: Clocked, next: Clocked)
    requires Orderly(rs, begin) && w.taken < |rs| && OnTime(rs, begin, w) && next == Tick(rs, w)
    ensures OnTime(rs, begin, next)
  {
    TickHead(rs, begin, w, next);
    forall t | t < next.now
      ensures OpenAt(next.sent, t) <==> Requested(rs, next.taken, t)
    {
      TickDoor(rs, begin, w, next, t);
    }
  }

  lemma {:induction false} AlwaysOnTime(rs: seq<Request>, begin: int, k: nat, w: Clocked)
    requires Orderly(rs, begin) && k <= |rs| && w == ClockAfter(rs, begin, k)
    ensures OnTime(rs, begin, w)
  {
    if k > 0 {
      var earlier := ClockAfter(rs, begin, k - 1);
      AlwaysOnTime(rs, begin, k - 1, earlier);
      TickKeeps(rs, begin, earlier, w);
    }
  }

  // ----- expiry -----

  /** Requests for some time, none before the worker is there. */
  ghost predicate Positive(rs: seq<Request>, begin: int) {
    forall i :: 0 <= i < |rs| ==> begin <= rs[i].at && 0 < rs[i].closeAfter
  }

  /** The latest deadline of the first `k` requests. */
  function Latest(rs: seq<Request>, begin: int, k: nat): int
    requires k <= |rs|
  {
    if k == 0 then begin else Max(Latest(rs, begin, k - 1), rs[k - 1].Deadline())
  }

  /** The worker sleeps until the latest deadline so far; an expired request does not hold it up. */
  lemma {:induction false} NowIsLatest(rs: seq<Request>, begin: int, k: nat)
    requires Positive(rs, begin) && k <= |rs|
    ensures ClockAfter(rs, begin, k).now == Latest(rs, begin, k)
  {
    if k > 0 {
      NowIsLatest(rs, begin, k - 1);
    }
  }

  lemma {:induction false} LatestMeaning(rs: seq<Request>, begin: int, k: nat, d: int)
    requires k <= |rs| && begin < d
    ensures d <= Latest(rs, begin, k) <==> exists i :: 0 <= i < k && d <= rs[i].Deadline()
  {
    if k > 0 {
      LatestMeaning(rs, begin, k - 1, d);
    }
  }

  /** Main result: a request is found expired if and only if an earlier one has a deadline that is no
      earlier, in whatever order they came. */
  lemma ExpiredIff(rs: seq<Request>, begin: int, k: nat)
    requires Positive(rs, begin) && k < |rs|
    ensures RealWait(rs, ClockAfter(rs, begin, k)) <= 0
      <==> exists i :: 0 <= i < k && rs[k].Deadline() <= rs[i].Deadline()
  {
    NowIsLatest(rs, begin, k);
    LatestMeaning(rs, begin, k, rs[k].Deadline());
  }

  ghost predicate Increasing(rs: seq<Request>) {
    forall i, j :: 0 <= i < j < |rs| ==> rs[i].Deadline() < rs[j].Deadline()
  }

  predicate Expires(rs: seq<Request>, begin: int, k: nat)
    requires k < |rs|
  {
    RealWait(rs, ClockAfter(rs, begin, k)) <= 0
  }

  /** So the expired branch is never taken if and only if deadlines strictly increase. */
  lemma NoneExpiresIff(rs: seq<Request>, begin: int)
    requires Positive(rs, begin)
    ensures (forall k :: 0 <= k < |rs| ==> !Expires(rs, begin, k)) <==> Increasing(rs)
  {
    if Increasing(rs) {
      forall k | 0 <= k < |rs|
        ensures !Expires(rs, begin, k)
      {
        ExpiredIff(rs, begin, k);
      }
    } else {
      var i, j :| 0 <= i < j < |rs| && rs[j].Deadline() <= rs[i].Deadline();
      ExpiredIff(rs, begin, j);
      assert Expires(rs, begin, j);
    }
  }

  // ----- when the door is open -----

  /** Main result: when all requests have been served, the door has been open at exactly those times at
      which somebody's request was running, whatever the overlaps. */
  lemma OpenExactlyWhenRequested(rs: seq<Request>, begin: int, t: int)
    requires Orderly(rs, begin)
    ensures OpenAt(ClockAfter(rs, begin, |rs|).sent, t) <==> Requested(rs, |rs|, t)
  {
    AlwaysOnTime(rs, begin, |rs|, ClockAfter(rs, begin, |rs|));
    ClosedAtTheEnd(rs, begin, ClockAfter(rs, begin, |rs|), t);
  }

  lemma ClosedAtTheEnd(rs: seq<Request>, begin: int, w: Clocked, t: int)
    requires Orderly(rs, begin) && w.taken == |rs| && OnTime(rs, begin, w)
    ensures w.now <= t ==> !OpenAt(w.sent, t) && !Requested(rs, |rs|, t)
  {
    if w.now <= t {
      OpenSince(w.sent, w.now, t);
      assert forall i :: 0 <= i < |rs| - 1 ==> rs[i].Deadline() < rs[|rs| - 1].Deadline();
    }
  }

  // ----- open periods -----

  /** Request `i` comes while the door is still open for the one before it, or just when it would close and
      is seen in time. */
  predicate Follows(rs: seq<Request>, i: nat)
    requires i < |rs|
  {
    0 < i && if rs[i].wins then rs[i].at <= rs[i - 1].Deadline() else rs[i].at < rs[i - 1].Deadline()
  }

  /** One period for each maximal chain of requests that follow each other: from the arrival of its
      first to the deadline of its last. */
  function Periods(rs: seq<Request>, k: nat): (r: seq<(int, int)>)
    requires k <= |rs|
    ensures 0 < k ==> r != []
  {
    if k == 0 then []
    else
      var p, r := Periods(rs, k - 1), rs[k - 1];
      if Follows(rs, k - 1) then p[|p| - 1 := (p[|p| - 1].0, r.Deadline())] else p + [(r.at, r.Deadline())]
  }

  /** The requests from `i` up to `j` follow each other and the first follows nobody; the period is from the
      arrival of the first to the deadline of the last. */
  ghost predicate IsChain(rs: seq<Request>, i: nat, j: nat, period: (int, int)) {
    && i < j <= |rs| && period == (rs[i].at, rs[j - 1].Deadline())
    && !Follows(rs, i) && forall m :: i < m < j ==> Follows(rs, m)
  }

  /** The first `k` requests are cut into chains, one for each period. */
  ghost predicate CutIntoChains(rs: seq<Request>, k: nat, periods: seq<(int, int)>, cuts: seq<nat>) {
    && |cuts| == |periods| + 1 && cuts[0] == 0 && cuts[|periods|] == k
    && forall n :: 0 <= n < |periods| ==> IsChain(rs, cuts[n], cuts[n + 1], periods[n])
  }

  /** The periods are those of the maximal chains: each chain ends where the next request does not follow,
      and with that all requests are accounted for, in order. */
  lemma {:induction false} PeriodsAreChains(rs: seq<Request>, k: nat) returns (cuts: seq<nat>)
    requires k <= |rs|
    ensures CutIntoChains(rs, k, Periods(rs, k), cuts)
  {
    cuts := [0];
    if k > 0 {
      var earlier := PeriodsAreChains(rs, k - 1);
      var p, p' := Periods(rs, k - 1), Periods(rs, k);
      if Follows(rs, k - 1) {
        cuts := earlier[|p| := k];
      } else {
        cuts := earlier + [k];
      }
    }
  }

  /** Periods do not overlap and follow each other in time. */
  lemma PeriodsAreApart(rs: seq<Request>, begin: int)
    requires Orderly(rs, begin)
    ensures var p := Periods(rs, |rs|);
      && (forall n :: 0 <= n < |p| ==> p[n].0 < p[n].1)
      && (forall n :: 0 <= n < |p| - 1 ==> p[n].1 <= p[n + 1].0)
  {
    var p := Periods(rs, |rs|);
    var cuts := PeriodsAreChains(rs, |rs|);
    forall n | 0 <= n < |p|
      ensures p[n].0 < p[n].1 && (n + 1 < |p| ==> p[n].1 <= p[n + 1].0)
    {
      assert IsChain(rs, cuts[n], cuts[n + 1], p[n]);
      assert n + 1 < |p| ==> IsChain(rs, cuts[n + 1], cuts[n + 2], p[n + 1]);
    }
  }

  function Bracketed(periods: seq<(int, int)>): seq<Sent> {
    if periods == [] then []
    else
      var last := periods[|periods| - 1];
      Bracketed(periods[..|periods| - 1]) + [Sent(last.0, Open), Sent(last.1, Close)]
  }

  /** The commands for some periods, the last of which may not be over yet. */
  function Begun(periods: seq<(int, int)>, running: bool): seq<Sent> {
    if periods != [] && running then
      Bracketed(periods[..|periods| - 1]) + [Sent(periods[|periods| - 1].0, Open)]
    else Bracketed(periods)
  }

  lemma BegunEnds(periods: seq<(int, int)>)
    requires periods != []
    ensures Bracketed(periods) == Begun(periods, true) + [Sent(periods[|periods| - 1].1, Close)]
  {
  }

  /** A further request begins a period, unless it follows, and then it goes on with the last one. */
  lemma BegunStep(rs: seq<Request>, k: nat)
    requires 0 < k <= |rs|
    ensures Begun(Periods(rs, k), true) ==
      if Follows(rs, k - 1) then Begun(Periods(rs, k - 1), true)
      else Bracketed(Periods(rs, k - 1)) + [Sent(rs[k - 1].at, Open)]
    ensures var p := Periods(rs, k); p[|p| - 1].1 == rs[k - 1].Deadline()
  {
    var p, p' := Periods(rs, k - 1), Periods(rs, k);
    assert p'[..|p'| - 1] == if Follows(rs, k - 1) then p[..|p| - 1] else p;
  }

  /** The commands and the flag when `k` requests have been taken: those of the periods so far, the last of
      which is running exactly when the next request follows. */
  function SoFar(rs: seq<Request>, k: nat): (seq<Sent>, bool)
    requires k <= |rs|
  {
    var running := 0 < k < |rs| && Follows(rs, k);
    (Begun(Periods(rs, k), running), running)
  }

  /** The commands up to the time at which the worker wakes. */
  lemma BegunNext(rs: seq<Request>, k: nat, running: bool, sent: seq<Sent>)
    requires k < |rs| && sent == Begun(Periods(rs, k), running) && (running <==> Follows(rs, k))
    ensures (if running then sent else sent + [Sent(rs[k].at, Open)]) == Begun(Periods(rs, k + 1), true)
  {
    BegunStep(rs, k + 1);
  }

  lemma SoFarStep(rs: seq<Request>, w: Clocked, next: Clocked)
    requires w.taken < |rs| && (w.sent, w.notiInQ) == SoFar(rs, w.taken)
    requires next.taken == w.taken + 1 && TickSent(rs, w, next)
    ensures (next.sent, next.notiInQ) == SoFar(rs, next.taken)
  {
    var begun := if w.notiInQ then w.sent else w.sent + [Sent(rs[w.taken].at, Open)];
    BegunNext(rs, w.taken, w.notiInQ, w.sent);
    SoFarNext(rs, w.taken + 1, begun, next.sent, next.notiInQ);
  }

  lemma SoFarNext(rs: seq<Request>, k: nat, begun: seq<Sent>, sent: seq<Sent>, running: bool)
    requires 0 < k <= |rs| && begun == Begun(Periods(rs, k), true)
    requires sent == if running then begun else begun + [Sent(rs[k - 1].Deadline(), Close)]
    requires running <==> Queued(rs, k, rs[k - 1].Deadline())
    ensures (sent, running) == SoFar(rs, k)
  {
    BegunStep(rs, k);
    BegunEnds(Periods(rs, k));
  }

  ghost predicate TickSentAt(rs: seq<Request>, begin: int, k: nat)
    requires k < |rs|
  {
    TickSent(rs, ClockAfter(rs, begin, k), ClockAfter(rs, begin, k + 1))
  }

  lemma EveryTickSends(rs: seq<Request>, begin: int)
    requires Orderly(rs, begin)
    ensures forall k :: 0 <= k < |rs| ==> TickSentAt(rs, begin, k)
  {
    forall k | 0 <= k < |rs|
      ensures TickSentAt(rs, begin, k)
    {
      var w := ClockAfter(rs, begin, k);
      AlwaysOnTime(rs, begin, k, w);
      TickSends(rs, begin, w, ClockAfter(rs, begin, k + 1));
    }
  }

  lemma {:induction false} SoFarFromTicks(rs: seq<Request>, begin: int, k: nat, w: Clocked)
    requires k <= |rs| && w == ClockAfter(rs, begin, k)
    requires forall i :: 0 <= i < |rs| ==> TickSentAt(rs, begin, i)
    ensures (w.sent, w.notiInQ) == SoFar(rs, k)
  {
    if k > 0 {
      var earlier := ClockAfter(rs, begin, k - 1);
      SoFarFromTicks(rs, begin, k - 1, earlier);
      assert TickSentAt(rs, begin, k - 1);
      SoFarStep(rs, earlier, w);
    }
  }

  /** Main result: the commands are one open and one close for each maximal chain of overlapping
      requests, the close exactly at the deadline of its last request. */
  lemma OnePeriodPerChain(rs: seq<Request>, begin: int)
    requires Orderly(rs, begin)
    ensures ClockAfter(rs, begin, |rs|).sent == Bracketed(Periods(rs, |rs|))
  {
    EveryTickSends(rs, begin);
    SoFarFromTicks(rs, begin, |rs|, ClockAfter(rs, begin, |rs|));
  }

  // ----- the timed worker is the worker -----

  function TaskOf(rs: seq<Request>, i: nat): Task
    requires i < |rs|
  {
    Task(i, rs[i].closeAfter)
  }

  function AllTasks(rs: seq<Request>): seq<Task> {
    seq(|rs|, i requires 0 <= i < |rs| => TaskOf(rs, i))
  }

  /** How many requests are queued at time `t`, if those before number `from` are. */
  function QueuedBy(rs: seq<Request>, from: nat, t: int): (n: nat)
    requires from <= |rs|
    ensures from <= n <= |rs| && !Queued(rs, n, t)
    ensures forall i :: from <= i < n ==> Queued(rs, i, t)
    decreases |rs| - from
  {
    if Queued(rs, from, t) then QueuedBy(rs, from + 1, t) else from
  }

  /** How many requests have been queued when the worker has taken `k` and is at the head of its loop: all
      whose time has come, and at least those that were taken. */
  function QueuedAt(rs: seq<Request>, begin: int, k: nat): (n: nat)
    requires k <= |rs|
    ensures k <= n <= |rs|
  {
    if k == 0 then 0
    else
      var n := QueuedAt(rs, begin, k - 1);
      QueuedBy(rs, if n < k then k else n, ClockAfter(rs, begin, k).now)
  }

  /** How many requests have come when the worker has one to take. */
  function WithNext(w: Clocked, queued: nat): nat {
    if queued == w.taken then queued + 1 else queued
  }

  /** The turn that a tick is: the worker waits for its request unless that was queued before; and every
      request whose time comes before the worker looks again is queued meanwhile. */
  function TurnAt(rs: seq<Request>, w: Clocked, queued: nat): Turn
    requires w.taken < |rs| && w.taken <= queued <= |rs|
  {
    var n := WithNext(w, queued);
    Turn(if queued == w.taken then [TaskOf(rs, w.taken)] else [],
         TakenAt(rs, w) - rs[w.taken].at,
         AllTasks(rs)[n..QueuedBy(rs, n, WakeAt(rs, w))])
  }

  function Untimed(sent: seq<Sent>): seq<Command> {
    if sent == [] then [] else Untimed(sent[..|sent| - 1]) + [sent[|sent| - 1].command]
  }

  lemma UntimedWith(sent: seq<Sent>, sends: bool, s: Sent)
    ensures Untimed(With(sent, sends, s)) == Untimed(sent) + if sends then [s.command] else []
  {
    if sends {
      assert (sent + [s])[..|sent|] == sent;
    }
  }

  /** The worker and the worker in time are at the same point: the queue holds the requests that have come
      and were not taken, and all of those have come. */
  ghost predicate SamePoint(rs: seq<Request>, v: Worker, w: Clocked, queued: nat) {
    && v.notiInQ == w.notiInQ && v.sent == Untimed(w.sent)
    && w.taken <= queued <= |rs| && v.queue == AllTasks(rs)[w.taken..queued]
    && (w.notiInQ <==> w.taken < queued)
    && (forall i :: w.taken <= i < queued ==> Queued(rs, i, w.now))
  }

  /** Neighbouring stretches of all tasks. */
  lemma Stretches(all: seq<Task>, i: nat, j: nat, k: nat)
    requires i <= j <= k <= |all|
    ensures all[i..j] + all[j..k] == all[i..k]
  {
  }

  lemma StretchHead(all: seq<Task>, i: nat, j: nat)
    requires i < j <= |all|
    ensures all[i..j][0] == all[i] && all[i..j][1..] == all[i + 1..j]
  {
  }

  /** What the worker finds in the queue in a turn. */
  lemma TurnQueue(rs: seq<Request>, v: Worker, w: Clocked, queued: nat)
    requires w.taken < |rs| && SamePoint(rs, v, w, queued)
    ensures v.queue + TurnAt(rs, w, queued).before == AllTasks(rs)[w.taken..WithNext(w, queued)]
  {
    var (all, turn) := (AllTasks(rs), TurnAt(rs, w, queued));
    if queued == w.taken {
      assert v.queue == [] && turn.before == [all[w.taken]] == all[w.taken..w.taken + 1];
    } else {
      assert turn.before == [];
    }
  }

  /** What it leaves there. */
  lemma QueueAfter(all: seq<Task>, q: seq<Task>, i: nat, n: nat, m: nat)
    requires i < n <= m <= |all| && q == all[i..n]
    ensures q[0] == all[i] && q[1..] + all[n..m] == all[i + 1..m]
  {
    StretchHead(all, i, n);
    Stretches(all, i + 1, n, m);
  }

  /** The worker sees a task in the queue exactly if the next request has come. */
  lemma QueueSeen(rs: seq<Request>, w: Clocked, n: nat)
    requires w.taken < n <= |rs| && forall i :: w.taken < i < n ==> Queued(rs, i, w.now)
    ensures w.taken + 1 < QueuedBy(rs, n, WakeAt(rs, w)) <==> Queued(rs, w.taken + 1, WakeAt(rs, w))
    ensures forall i :: w.taken < i < QueuedBy(rs, n, WakeAt(rs, w)) ==> Queued(rs, i, WakeAt(rs, w))
  {
    forall i | w.taken < i < n
      ensures Queued(rs, i, WakeAt(rs, w))
    {
      assert Queued(rs, i, w.now) && w.now <= WakeAt(rs, w);
    }
  }

  lemma TickCommands(rs: seq<Request>, w: Clocked)
    requires w.taken < |rs|
    ensures Untimed(Tick(rs, w).sent) == Untimed(w.sent) + Commands(TickEffect(rs, w))
  {
    UntimedEffect(w.sent, TickEffect(rs, w), TakenAt(rs, w), WakeAt(rs, w));
  }

  lemma UntimedEffect(sent: seq<Sent>, e: Effect, start: int, wake: int)
    ensures Untimed(With(With(sent, e.open, Sent(start, Open)), e.close, Sent(wake, Close)))
      == Untimed(sent) + Commands(e)
  {
    var first := With(sent, e.open, Sent(start, Open));
    UntimedWith(sent, e.open, Sent(start, Open));
    UntimedWith(first, e.close, Sent(wake, Close));
    var (a, b) := (if e.open then [Open] else [], if e.close then [Close] else []);
    assert Untimed(sent) + a + b == Untimed(sent) + (a + b);
  }

  /** The worker after a turn that finds `q` in the queue and leaves `left` there. */
  lemma TurnFields(v: Worker, turn: Turn, q: seq<Task>, left: seq<Task>, v': Worker, e: Effect)
    requires q == v.queue + turn.before != [] && left == q[1..] + turn.during && v' == TurnOf(Direct, v, turn)
    requires e == Body(Direct, q[0].closeAfter - turn.elapsed, v.notiInQ, left != [])
    ensures v'.queue == left && v'.notiInQ == e.notiInQ && v'.sent == v.sent + Commands(e)
  {
  }

  /** The worker in time after the same turn. */
  lemma TickFields(rs: seq<Request>, w: Clocked, next: Clocked, e: Effect)
    requires w.taken < |rs| && next == Tick(rs, w) && e == TickEffect(rs, w)
    ensures next.taken == w.taken + 1 && next.now == WakeAt(rs, w)
    ensures next.notiInQ == Queued(rs, w.taken + 1, WakeAt(rs, w)) == e.notiInQ
    ensures Untimed(next.sent) == Untimed(w.sent) + Commands(e)
  {
    TickCommands(rs, w);
  }

  lemma TickIsTurn(rs: seq<Request>, v: Worker, w: Clocked, queued: nat, v': Worker, next: Clocked, queued': nat)
    requires w.taken < |rs| && SamePoint(rs, v, w, queued) && CanTake(v, TurnAt(rs, w, queued))
    requires v' == TurnOf(Direct, v, TurnAt(rs, w, queued)) && next == Tick(rs, w)
    requires queued' == QueuedBy(rs, WithNext(w, queued), WakeAt(rs, w))
    ensures SamePoint(rs, v', next, queued')
  {
    var (turn, n, e) := (TurnAt(rs, w, queued), WithNext(w, queued), TickEffect(rs, w));
    var q, left := v.queue + turn.before, AllTasks(rs)[w.taken + 1..queued'];
    TurnQueue(rs, v, w, queued);
    QueueAfter(AllTasks(rs), q, w.taken, n, queued');
    QueueSeen(rs, w, n);
    SameEffect(rs, w, turn.elapsed, q[0], v.notiInQ, left != []);
    TurnFields(v, turn, q, left, v', e);
    TickFields(rs, w, next, e);
  }

  /** Both decide the same. */
  lemma SameEffect(rs: seq<Request>, w: Clocked, elapsed: int, task: Task, noti: bool, queued: bool)
    requires w.taken < |rs| && task == TaskOf(rs, w.taken) && elapsed == TakenAt(rs, w) - rs[w.taken].at
    requires noti == w.notiInQ && queued == Queued(rs, w.taken + 1, WakeAt(rs, w))
    ensures Body(Direct, task.closeAfter - elapsed, noti, queued) == TickEffect(rs, w)
  {
  }

  lemma TurnTakes(rs: seq<Request>, v: Worker, w: Clocked, queued: nat)
    requires w.taken < |rs| && SamePoint(rs, v, w, queued)
    ensures CanTake(v, TurnAt(rs, w, queued))
  {
    TurnQueue(rs, v, w, queued);
  }

  /** Main result: the worker in time is the run of the worker loop in which every request is queued at its
      own time, so what is proved of the times holds of the commands that the loop sends. */
  lemma {:induction false} TimedIsARun(rs: seq<Request>, begin: int, k: nat) returns (turns: seq<Turn>)
    requires k <= |rs|
    ensures |turns| == k && Feasible(Direct, START, turns)
    ensures SamePoint(rs, RunOf(Direct, START, turns), ClockAfter(rs, begin, k), QueuedAt(rs, begin, k))
    ensures 0 < k ==> !Queued(rs, QueuedAt(rs, begin, k), ClockAfter(rs, begin, k).now)
  {
    turns := [];
    if k > 0 {
      var earlier := TimedIsARun(rs, begin, k - 1);
      var (w, n) := (ClockAfter(rs, begin, k - 1), QueuedAt(rs, begin, k - 1));
      turns := OneTurnMore(rs, earlier, w, n, ClockAfter(rs, begin, k), QueuedAt(rs, begin, k));
    }
  }

  lemma OneTurnMore(rs: seq<Request>, earlier: seq<Turn>, w: Clocked, queued: nat, next: Clocked, queued': nat)
    returns (turns: seq<Turn>)
    requires Feasible(Direct, START, earlier) && w.taken < |rs|
    requires SamePoint(rs, RunOf(Direct, START, earlier), w, queued)
    requires next == Tick(rs, w) && queued' == QueuedBy(rs, WithNext(w, queued), WakeAt(rs, w))
    ensures |turns| == |earlier| + 1 && Feasible(Direct, START, turns)
    ensures SamePoint(rs, RunOf(Direct, START, turns), next, queued')
  {
    var v, turn := RunOf(Direct, START, earlier), TurnAt(rs, w, queued);
    TurnTakes(rs, v, w, queued);
    RunOneMore(Direct, START, earlier, turn);
    turns := earlier + [turn];
    TickIsTurn(rs, v, w, queued, RunOf(Direct, START, turns), next, queued');
  }

  // ----- the flag and the door -----

  /** The flag says whether the last command was to open. */
  ghost predicate FlagRight(w: Clocked) {
    w.notiInQ <==> DoorOpen(Untimed(w.sent))
  }

  /** It does so when `k` requests have been taken. */
  ghost predicate FlagRightAt(rs: seq<Request>, begin: int, k: nat)
    requires k <= |rs|
  {
    FlagRight(ClockAfter(rs, begin, k))
  }

  /** Request `k` is found expired, and no further one has come by then. */
  ghost predicate LeavesDoorOpen(rs: seq<Request>, begin: int, k: nat)
    requires k < |rs|
  {
    rs[k].Deadline() <= Latest(rs, begin, k) && !Queued(rs, k + 1, Latest(rs, begin, k))
  }

  lemma FlagIsQueued(rs: seq<Request>, begin: int, k: nat)
    requires k <= |rs|
    ensures ClockAfter(rs, begin, k).notiInQ <==> 0 < k && Queued(rs, k, ClockAfter(rs, begin, k).now)
  {
  }

  /** A request that is found expired had been queued, so the flag was set; it is passed over at once. */
  lemma ExpiredWasQueued(rs: seq<Request>, begin: int, k: nat)
    requires Positive(rs, begin) && k < |rs|
    ensures var w := ClockAfter(rs, begin, k);
      && (RealWait(rs, w) <= 0 <==> rs[k].Deadline() <= Latest(rs, begin, k))
      && (RealWait(rs, w) <= 0 ==> w.notiInQ && WakeAt(rs, w) == Latest(rs, begin, k))
  {
    NowIsLatest(rs, begin, k);
    FlagIsQueued(rs, begin, k);
  }

  /** An expired request sends nothing and looks at the queue again. */
  lemma ExpiryMovesFlag(rs: seq<Request>, w: Clocked)
    requires w.taken < |rs| && RealWait(rs, w) <= 0
    ensures Tick(rs, w).sent == w.sent
    ensures Tick(rs, w).notiInQ <==> Queued(rs, w.taken + 1, WakeAt(rs, w))
  {
  }

  /** If request `k` is found expired, the flag stays as it was. */
  ghost predicate FlagKept(rs: seq<Request>, begin: int, k: nat)
    requires k < |rs|
  {
    var w := ClockAfter(rs, begin, k);
    RealWait(rs, w) <= 0 ==> w.notiInQ == Queued(rs, k + 1, WakeAt(rs, w))
  }

  lemma FlagIsKept(rs: seq<Request>, begin: int, k: nat)
    requires Positive(rs, begin) && k < |rs| && !LeavesDoorOpen(rs, begin, k)
    ensures FlagKept(rs, begin, k)
  {
    ExpiredWasQueued(rs, begin, k);
  }

  lemma {:induction false} FlagRightUpTo(rs: seq<Request>, begin: int, k: nat, w: Clocked)
    requires k <= |rs| && w == ClockAfter(rs, begin, k)
    requires forall i :: 0 <= i < |rs| ==> FlagKept(rs, begin, i)
    ensures FlagRight(w) && Alternates(Untimed(w.sent))
  {
    if k > 0 {
      var before := ClockAfter(rs, begin, k - 1);
      FlagRightUpTo(rs, begin, k - 1, before);
      assert FlagKept(rs, begin, k - 1);
      TickCommands(rs, before);
      FlagStep(before.notiInQ, Untimed(before.sent), RealWait(rs, before),
               Queued(rs, k, WakeAt(rs, before)), TickEffect(rs, before));
    }
  }

  lemma FlagWrongAfter(rs: seq<Request>, begin: int, k: nat)
    requires Positive(rs, begin) && k < |rs| && LeavesDoorOpen(rs, begin, k)
    requires FlagRight(ClockAfter(rs, begin, k))
    ensures !FlagRight(ClockAfter(rs, begin, k + 1))
  {
    ExpiredWasQueued(rs, begin, k);
    ExpiryMovesFlag(rs, ClockAfter(rs, begin, k));
  }

  /** Main result: the flag of a direct switch says at every loop head whether the door is open if and
      only if no request is found expired with nobody behind it, which can be told from the requests: its
      deadline is no later than an earlier one, and the next has not come by the latest of those. Then
      the commands strictly alternate. */
  lemma FlagRightIff(rs: seq<Request>, begin: int)
    requires Positive(rs, begin)
    ensures (forall k :: 0 <= k <= |rs| ==> FlagRightAt(rs, begin, k))
      <==> (forall k :: 0 <= k < |rs| ==> !LeavesDoorOpen(rs, begin, k))
    ensures (forall k :: 0 <= k < |rs| ==> !LeavesDoorOpen(rs, begin, k)) ==>
      forall k :: 0 <= k <= |rs| ==> Alternates(Untimed(ClockAfter(rs, begin, k).sent))
  {
    if forall k :: 0 <= k < |rs| ==> !LeavesDoorOpen(rs, begin, k) {
      forall k | 0 <= k < |rs|
        ensures FlagKept(rs, begin, k)
      {
        FlagIsKept(rs, begin, k);
      }
      forall k | 0 <= k <= |rs|
        ensures FlagRightAt(rs, begin, k) && Alternates(Untimed(ClockAfter(rs, begin, k).sent))
      {
        FlagRightUpTo(rs, begin, k, ClockAfter(rs, begin, k));
      }
    } else {
      var k :| 0 <= k < |rs| && LeavesDoorOpen(rs, begin, k);
      if FlagRightAt(rs, begin, k) {
        FlagWrongAfter(rs, begin, k);
        assert !FlagRightAt(rs, begin, k + 1);
      }
    }
  }
}
