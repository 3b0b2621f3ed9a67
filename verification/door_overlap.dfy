/**
 When the door of a direct switch is open if requests come in order but may end in any order: a request
 can then be found expired, and the door can stay open when nobody wants it.
 */
module DoorOverlaps {
  import opened DoorWorkers
  import opened DoorTiming

  /** Requests for some time that come in order, none before the worker is there. */
  ghost predicate Arriving(rs: seq<Request>, begin: int) {
    Positive(rs, begin) && forall i, j :: 0 <= i < j < |rs| ==> rs[i].at <= rs[j].at
  }

  /** Request `k` is found expired, and when all before it have ended the next is still to come. */
  predicate LeavesOpen(rs: seq<Request>, begin: int, k: nat)
    requires k < |rs|
  {
    rs[k].Deadline() <= Latest(rs, begin, k) && (k + 1 < |rs| ==> Latest(rs, begin, k) < rs[k + 1].at)
  }

  /** From then until the next request comes, or for ever. */
  predicate Holds(rs: seq<Request>, begin: int, k: nat, t: int)
    requires k < |rs|
  {
    LeavesOpen(rs, begin, k) && Latest(rs, begin, k) <= t && (k + 1 < |rs| ==> t < rs[k + 1].at)
  }

  /** Time `t` is such a time for one of the first `k` requests. */
  ghost predicate HeldOpen(rs: seq<Request>, begin: int, k: nat, t: int)
    requires k <= |rs|
  {
    exists i :: 0 <= i < k && Holds(rs, begin, i, t)
  }

  predicate LastOpens(sent: seq<Sent>) {
    sent != [] && sent[|sent| - 1].command == Open
  }

  /** The last request that was taken is one that leaves the door open. */
  predicate Left(rs: seq<Request>, begin: int, k: nat)
    requires k <= |rs|
  {
    0 < k && LeavesOpen(rs, begin, k - 1)
  }

  /** What holds at the head of the loop: it is the latest deadline; the door is open if the flag is set or
      the last request left it so, and then only for the next request or in the second case; and so far the
      door has been open when requested and when left open. */
  ghost predicate Accounted(rs: seq<Request>, begin: int, w: Clocked)
    requires w.taken <= |rs|
  {
    && w.now == Latest(rs, begin, w.taken)
    && (forall i :: 0 <= i < |w.sent| ==> w.sent[i].time <= w.now)
    && (w.notiInQ || Left(rs, begin, w.taken) ==> LastOpens(w.sent))
    && (LastOpens(w.sent) ==> Left(rs, begin, w.taken) || (w.taken < |rs| && rs[w.taken].at <= w.now))
    && (w.notiInQ ==> w.taken < |rs| && rs[w.taken].at <= w.now)
    && (forall t :: RightAt(rs, begin, w, t))
  }

  ghost predicate RightAt(rs: seq<Request>, begin: int, w: Clocked, t: int)
    requires w.taken <= |rs|
  {
    t < w.now ==> (OpenAt(w.sent, t) <==> ShouldBeOpen(rs, begin, w.taken, t))
  }

  ghost predicate ShouldBeOpen(rs: seq<Request>, begin: int, k: nat, t: int)
    requires k <= |rs|
  {
    Requested(rs, k, t) || HeldOpen(rs, begin, k, t)
  }

  // ----- latest deadlines -----

  lemma {:induction false} NoneIsLater(rs: seq<Request>, begin: int, k: nat, i: nat)
    requires i < k <= |rs|
    ensures rs[i].Deadline() <= Latest(rs, begin, k) && Latest(rs, begin, i) <= Latest(rs, begin, k)
  {
    if i < k - 1 {
      NoneIsLater(rs, begin, k - 1, i);
    }
  }

  /** Before the latest deadline one of the requests that came is running. */
  lemma RequestedSoFar(rs: seq<Request>, begin: int, k: nat, t: int)
    requires Arriving(rs, begin) && k < |rs| && t < Latest(rs, begin, k)
    ensures Requested(rs, k + 1, t) <==> Requested(rs, k, t)
  {
    if rs[k].at <= t {
      LatestMeaning(rs, begin, k, t + 1);
      var i :| 0 <= i < k && t + 1 <= rs[i].Deadline();
      assert rs[i].at <= rs[k].at;
    }
  }

  lemma RequestedAfter(rs: seq<Request>, begin: int, k: nat, t: int)
    requires k <= |rs| && Latest(rs, begin, k) <= t
    ensures !Requested(rs, k, t)
  {
    forall i | 0 <= i < k
      ensures rs[i].Deadline() <= t
    {
      NoneIsLater(rs, begin, k, i);
    }
  }

  lemma RequestedThen(rs: seq<Request>, begin: int, k: nat, t: int)
    requires k < |rs| && Latest(rs, begin, k) <= t
    ensures Requested(rs, k + 1, t) <==> rs[k].at <= t < rs[k].Deadline()
  {
    RequestedAfter(rs, begin, k, t);
  }

  /** After the latest deadline the door can only have been left open by the last request. */
  lemma HeldAfter(rs: seq<Request>, begin: int, k: nat, t: int)
    requires Positive(rs, begin) && k <= |rs| && Latest(rs, begin, k) <= t
    ensures HeldOpen(rs, begin, k, t) <==> Left(rs, begin, k) && (k < |rs| ==> t < rs[k].at)
  {
    forall i | 0 <= i < k - 1
      ensures !Holds(rs, begin, i, t)
    {
      NoneIsLater(rs, begin, k, i + 1);
    }
    if Left(rs, begin, k) && (k < |rs| ==> t < rs[k].at) {
      assert Holds(rs, begin, k - 1, t);
    }
  }

  /** A request can leave the door open only from the latest deadline on, and only if it has expired. */
  lemma HeldNext(rs: seq<Request>, begin: int, k: nat, t: int)
    requires k < |rs| && (t < Latest(rs, begin, k) || Latest(rs, begin, k) < rs[k].Deadline())
    ensures HeldOpen(rs, begin, k + 1, t) <==> HeldOpen(rs, begin, k, t)
  {
    assert !Holds(rs, begin, k, t);
  }

  lemma SameSoFar(rs: seq<Request>, begin: int, k: nat, t: int)
    requires Arriving(rs, begin) && k < |rs| && t < Latest(rs, begin, k)
    ensures ShouldBeOpen(rs, begin, k + 1, t) <==> ShouldBeOpen(rs, begin, k, t)
  {
    RequestedSoFar(rs, begin, k, t);
    HeldNext(rs, begin, k, t);
  }

  lemma ServedThen(rs: seq<Request>, begin: int, k: nat, t: int)
    requires Positive(rs, begin) && k < |rs| && Latest(rs, begin, k) <= t < rs[k].Deadline()
    ensures ShouldBeOpen(rs, begin, k + 1, t) <==> rs[k].at <= t || Left(rs, begin, k)
  {
    RequestedThen(rs, begin, k, t);
    HeldNext(rs, begin, k, t);
    HeldAfter(rs, begin, k, t);
  }

  // ----- one tick -----

  /** An expired request was queued; it sends nothing. */
  ghost predicate PassedOver(rs: seq<Request>, begin: int, w: Clocked, next: Clocked)
    requires w.taken < |rs|
  {
    && rs[w.taken].Deadline() <= Latest(rs, begin, w.taken) && w.notiInQ
    && next == w.(taken := w.taken + 1, notiInQ := Queued(rs, w.taken + 1, w.now))
  }

  lemma ExpiredTick(rs: seq<Request>, begin: int, k: nat, w: Clocked, next: Clocked)
    requires Positive(rs, begin) && k < |rs| && w == ClockAfter(rs, begin, k) && next == Tick(rs, w)
    requires rs[k].Deadline() <= Latest(rs, begin, k)
    ensures PassedOver(rs, begin, w, next)
  {
    NowIsLatest(rs, begin, k);
    ExpiredWasQueued(rs, begin, k);
    ExpiryMovesFlag(rs, w);
  }

  lemma ExpiredKeeps(rs: seq<Request>, begin: int, w: Clocked, next: Clocked)
    requires Arriving(rs, begin) && w.taken < |rs| && PassedOver(rs, begin, w, next)
    requires Accounted(rs, begin, w)
    ensures Accounted(rs, begin, next)
  {
    forall t
      ensures RightAt(rs, begin, next, t)
    {
      assert RightAt(rs, begin, w, t);
      if t < w.now {
        SameSoFar(rs, begin, w.taken, t);
      }
    }
  }

  /** A request that is served: the door is opened unless the flag is set, and closed at its deadline unless
      a request is queued. */
  lemma ServedTick(rs: seq<Request>, w: Clocked, next: Clocked, begun: seq<Sent>)
    requires w.taken < |rs| && next == Tick(rs, w) && w.now < rs[w.taken].Deadline() && 0 < rs[w.taken].closeAfter
    requires begun == With(w.sent, !w.notiInQ, Sent(TakenAt(rs, w), Open))
    ensures next.now == rs[w.taken].Deadline()
    ensures next.sent == With(begun, !next.notiInQ, Sent(next.now, Close))
    ensures next.notiInQ <==> Queued(rs, w.taken + 1, next.now)
  {
  }

  /** The door while the request is served. */
  lemma ServedOpens(rs: seq<Request>, begin: int, w: Clocked, next: Clocked, t: int)
    requires w.taken < |rs| && next == Tick(rs, w) && w.now < rs[w.taken].Deadline() && 0 < rs[w.taken].closeAfter
    requires Accounted(rs, begin, w) && t < next.now
    ensures OpenAt(next.sent, t) <==>
      if t < w.now then OpenAt(w.sent, t) else rs[w.taken].at <= t || LastOpens(w.sent)
  {
    var open := Sent(TakenAt(rs, w), Open);
    var begun := With(w.sent, !w.notiInQ, open);
    ServedTick(rs, w, next, begun);
    if w.now <= t {
      OpenSince(w.sent, w.now, t);
    }
    OpenBefore(w.sent, open, t);
    OpenBefore(begun, Sent(next.now, Close), t);
  }

  /** The door when it has been served. */
  lemma ServedHead(rs: seq<Request>, begin: int, w: Clocked, next: Clocked)
    requires w.taken < |rs| && next == Tick(rs, w) && w.now < rs[w.taken].Deadline() && 0 < rs[w.taken].closeAfter
    requires Accounted(rs, begin, w)
    ensures next.now == Latest(rs, begin, w.taken + 1) && !Left(rs, begin, w.taken + 1)
    ensures next.notiInQ <==> Queued(rs, w.taken + 1, next.now)
    ensures LastOpens(next.sent) <==> next.notiInQ
    ensures forall i :: 0 <= i < |next.sent| ==> next.sent[i].time <= next.now
  {
    var begun := With(w.sent, !w.notiInQ, Sent(TakenAt(rs, w), Open));
    ServedTick(rs, w, next, begun);
    assert LastOpens(begun);
  }

  lemma ServedKeeps(rs: seq<Request>, begin: int, w: Clocked, next: Clocked)
    requires Arriving(rs, begin) && w.taken < |rs| && next == Tick(rs, w) && w.now < rs[w.taken].Deadline()
    requires Accounted(rs, begin, w)
    ensures Accounted(rs, begin, next)
  {
    ServedHead(rs, begin, w, next);
    forall t
      ensures RightAt(rs, begin, next, t)
    {
      assert RightAt(rs, begin, w, t);
      if t < next.now {
        ServedOpens(rs, begin, w, next, t);
        if t < w.now {
          SameSoFar(rs, begin, w.taken, t);
        } else {
          ServedThen(rs, begin, w.taken, t);
        }
      }
    }
  }

  lemma TickAccounted(rs: seq<Request>, begin: int, k: nat, w: Clocked, next: Clocked)
    requires Arriving(rs, begin) && k < |rs| && w == ClockAfter(rs, begin, k) && next == Tick(rs, w)
    requires Accounted(rs, begin, w)
    ensures Accounted(rs, begin, next)
  {
    if rs[k].Deadline() <= w.now {
      ExpiredTick(rs, begin, k, w, next);
      ExpiredKeeps(rs, begin, w, next);
    } else {
      ServedKeeps(rs, begin, w, next);
    }
  }

  lemma {:induction false} AlwaysAccounted(rs: seq<Request>, begin: int, k: nat, w: Clocked)
    requires Arriving(rs, begin) && k <= |rs| && w == ClockAfter(rs, begin, k)
    ensures Accounted(rs, begin, w)
  {
    if k > 0 {
      var earlier := ClockAfter(rs, begin, k - 1);
      AlwaysAccounted(rs, begin, k - 1, earlier);
      TickAccounted(rs, begin, k - 1, earlier, w);
    }
  }

  // ----- main results -----

  /** Main result: whatever the overlaps and the deadlines, the door is open at exactly those times at which
      a request is running or an expired one has left it open. */
  lemma OpenWhenRequestedOrLeft(rs: seq<Request>, begin: int, t: int)
    requires Arriving(rs, begin)
    ensures OpenAt(ClockAfter(rs, begin, |rs|).sent, t) <==>
      Requested(rs, |rs|, t) || HeldOpen(rs, begin, |rs|, t)
  {
    var w := ClockAfter(rs, begin, |rs|);
    AlwaysAccounted(rs, begin, |rs|, w);
    if t < w.now {
      assert RightAt(rs, begin, w, t);
    } else {
      OpenSince(w.sent, w.now, t);
      RequestedAfter(rs, begin, |rs|, t);
      HeldAfter(rs, begin, |rs|, t);
    }
  }

  /** When the door is left open nobody wants it open. */
  lemma LeftUnrequested(rs: seq<Request>, begin: int, k: nat, t: int)
    requires Arriving(rs, begin) && k < |rs| && Holds(rs, begin, k, t)
    ensures !Requested(rs, |rs|, t)
  {
    RequestedAfter(rs, begin, k + 1, t);
    assert forall i :: k + 1 < i < |rs| ==> rs[k + 1].at <= rs[i].at;
  }

  /** The door is open when it should be, and only then. */
  ghost predicate OpenAsRequested(rs: seq<Request>, begin: int, t: int) {
    OpenAt(ClockAfter(rs, begin, |rs|).sent, t) <==> Requested(rs, |rs|, t)
  }

  /** Main result: so the door is open exactly when requested if and only if no request is found expired with
      nobody behind it, which can be told from the requests: its deadline is no later than an earlier one,
      and the next request comes after the latest of those, or never. */
  lemma OpenAsRequestedIff(rs: seq<Request>, begin: int)
    requires Arriving(rs, begin)
    ensures (forall t :: OpenAsRequested(rs, begin, t)) <==>
      (forall k :: 0 <= k < |rs| ==> !LeavesOpen(rs, begin, k))
  {
    if forall k :: 0 <= k < |rs| ==> !LeavesOpen(rs, begin, k) {
      forall t
        ensures OpenAsRequested(rs, begin, t)
      {
        OpenWhenRequestedOrLeft(rs, begin, t);
      }
    } else {
      var k :| 0 <= k < |rs| && LeavesOpen(rs, begin, k);
      var t := Latest(rs, begin, k);
      assert Holds(rs, begin, k, t);
      LeftUnrequested(rs, begin, k, t);
      OpenWhenRequestedOrLeft(rs, begin, t);
      assert !OpenAsRequested(rs, begin, t);
    }
  }
}
