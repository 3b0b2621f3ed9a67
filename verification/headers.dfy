/**
 Header lines, on plain sequences: which column of the file feeds which requested column.
 */
module Headers {
  import opened Bytes

  /** The two flags of ignore_column. */
  datatype IgnorePolicy = IgnorePolicy(extra: bool, missing: bool)

  datatype HeaderError =
    | HeaderNotClosed
    | DuplicatedColumn(name: Text)
    | ExtraColumn(name: Text)
    | MissingColumn(name: Text)

  /** The column order built so far, and what went wrong. */
  datatype HeaderState = HeaderState(order: seq<int>, error: Option<HeaderError>)

  /** The first requested column of this name. */
  function IndexOf(names: seq<Text>, name: Text): (r: Option<nat>)
    ensures r.Some? ==> r.value < |names| && names[r.value] == name && name !in names[..r.value]
    ensures r.None? ==> name !in names
  {
    if names == [] then None
    else if names[0] == name then Some(0)
    else match IndexOf(names[1..], name)
      case None => None
      case Some(i) =>
        assert names[..i + 1] == [names[0]] + names[1..][..i];
        Some(i + 1)
  }

  /** The entry that a column of this name gets. */
  function Entry(names: seq<Text>, name: Text): (r: int)
    ensures -1 <= r < |names|
  {
    match IndexOf(names, name)
    case None => -1
    case Some(i) => i
  }

  /** The columns of a header are taken one by one until one is refused. */
  function Walk(fields: seq<Text>, names: seq<Text>, extraOk: bool, order: seq<int>): HeaderState {
    if fields == [] then HeaderState(order, None)
    else
      var i := Entry(names, fields[0]);
      if i == -1 && !extraOk then HeaderState(order, Some(ExtraColumn(fields[0])))
      else if i != -1 && i in order then HeaderState(order, Some(DuplicatedColumn(fields[0])))
      else Walk(fields[1..], names, extraOk, order + [i])
  }

  /** The first requested column, from number `i`, that no column of the file feeds. */
  function FirstMissing(names: seq<Text>, order: seq<int>, i: nat): Option<nat>
    requires i <= |names|
    decreases |names| - i
  {
    if i == |names| then None else if i !in order then Some(i) else FirstMissing(names, order, i + 1)
  }

  /** The result of parsing a header whose columns have these contents. */
  function HeaderOf(fields: seq<Text>, closed: bool, names: seq<Text>, ignore: IgnorePolicy): HeaderState {
    var w := Walk(fields, names, ignore.extra, []);
    if w.error.Some? then w
    else if !closed then w.(error := Some(HeaderNotClosed))
    else if ignore.missing then w
    else match FirstMissing(names, w.order, 0)
      case None => w
      case Some(i) => if i < |names| then w.(error := Some(MissingColumn(names[i]))) else w
  }

  ghost predicate InRange(order: seq<int>, n: nat) {
    forall k :: 0 <= k < |order| ==> -1 <= order[k] < n
  }

  /** Even a header that is refused half-way leaves an order that stays within the requested columns. */
  lemma {:induction false} WalkInRange(fields: seq<Text>, names: seq<Text>, extraOk: bool, order: seq<int>)
    requires InRange(order, |names|)
    ensures InRange(Walk(fields, names, extraOk, order).order, |names|)
    decreases |fields|
  {
    if fields != [] {
      WalkInRange(fields[1..], names, extraOk, order + [Entry(names, fields[0])]);
    }
  }

  /** The order that maps every column of the file to the requested column of its name. */
  ghost predicate IsOrder(fields: seq<Text>, names: seq<Text>, order: seq<int>) {
    |order| == |fields| && forall k :: 0 <= k < |fields| ==> order[k] == Entry(names, fields[k])
  }

  /** No two entries other than -1 are equal. */
  ghost predicate DistinctSlots(order: seq<int>) {
    forall j, k :: 0 <= j < k < |order| && order[j] != -1 ==> order[j] != order[k]
  }

  /** Each of `n` slots has exactly one entry. */
  ghost predicate IsPermutation(order: seq<int>, n: nat) {
    && (forall i :: 0 <= i < n ==> i in order)
    && (forall j, k :: 0 <= j < k < |order| && order[j] == order[k] ==> order[j] == -1)
    && (forall k :: 0 <= k < |order| ==> -1 <= order[k] < n)
  }

  /** The file names no requested column twice. */
  ghost predicate NoDuplicates(fields: seq<Text>, names: seq<Text>) {
    forall j, k :: 0 <= j < k < |fields| && fields[j] in names ==> fields[j] != fields[k]
  }

  lemma EntryIsName(names: seq<Text>, a: Text, b: Text)
    ensures Entry(names, a) == -1 <==> a !in names
    ensures a in names && Entry(names, a) == Entry(names, b) ==> a == b
  {
  }

  /** Column `k` of the header is refused: it is not requested, and extra columns are not ignored, or it is
      requested and has come before. */
  predicate Refused(fields: seq<Text>, names: seq<Text>, extraOk: bool, k: nat)
    requires k < |fields|
  {
    if fields[k] in names then fields[k] in fields[..k] else !extraOk
  }

  /** It is the first one that is. */
  ghost predicate FirstRefused(fields: seq<Text>, names: seq<Text>, extraOk: bool, k: nat)
  {
    k < |fields| && Refused(fields, names, extraOk, k) && forall j :: 0 <= j < k ==> !Refused(fields, names, extraOk, j)
  }

  ghost predicate NoneRefused(fields: seq<Text>, names: seq<Text>, extraOk: bool) {
    forall k :: 0 <= k < |fields| ==> !Refused(fields, names, extraOk, k)
  }

  /** An entry is in the order of some columns if and only if its column is among them. */
  lemma EntryTaken(done: seq<Text>, names: seq<Text>, order: seq<int>, f: Text)
    requires IsOrder(done, names, order) && f in names
    ensures Entry(names, f) in order <==> f in done
  {
    if Entry(names, f) in order {
      var j :| 0 <= j < |order| && order[j] == Entry(names, f);
      EntryIsName(names, f, done[j]);
    }
    if f in done {
      var j :| 0 <= j < |done| && done[j] == f;
      assert order[j] == Entry(names, f);
    }
  }

  /** Taking the columns from number `k` on stops at the first that is refused. */
  lemma {:induction false} WalkStops(fields: seq<Text>, names: seq<Text>, extraOk: bool, k: nat, order: seq<int>)
    returns (n: nat)
    requires k <= |fields| && IsOrder(fields[..k], names, order)
    requires forall j :: 0 <= j < k ==> !Refused(fields, names, extraOk, j)
    ensures var w := Walk(fields[k..], names, extraOk, order);
      && n <= |fields| && IsOrder(fields[..n], names, w.order)
      && (w.error.None? ==> n == |fields| && NoneRefused(fields, names, extraOk))
      && (w.error.Some? ==>
            FirstRefused(fields, names, extraOk, n) &&
            w.error.value == if fields[n] in names then DuplicatedColumn(fields[n]) else ExtraColumn(fields[n]))
    decreases |fields| - k
  {
    n := k;
    if k < |fields| {
      var f := fields[k];
      EntryIsName(names, f, f);
      if f in names {
        EntryTaken(fields[..k], names, order, f);
      }
      if !Refused(fields, names, extraOk, k) {
        assert fields[k..][1..] == fields[k + 1..];
        n := WalkStops(fields, names, extraOk, k + 1, order + [Entry(names, f)]);
      }
    }
  }

  lemma {:induction false} FirstMissingMeaning(names: seq<Text>, order: seq<int>, i: nat)
    requires i <= |names|
    ensures match FirstMissing(names, order, i)
      case None => forall j :: i <= j < |names| ==> j in order
      case Some(m) => i <= m < |names| && m !in order && forall j :: i <= j < m ==> j in order
    decreases |names| - i
  {
    if i < |names| {
      FirstMissingMeaning(names, order, i + 1);
    }
  }

  /** Requested column `i` occurs in the file, and under no earlier number in the request. */
  ghost predicate Present(fields: seq<Text>, names: seq<Text>, i: nat)
    requires i < |names|
  {
    names[i] in fields && names[i] !in names[..i]
  }

  lemma {:induction false} IndexOfFirst(names: seq<Text>, i: nat)
    requires i < |names| && names[i] !in names[..i]
    ensures IndexOf(names, names[i]) == Some(i)
  {
    if i > 0 {
      assert names[..i] == [names[0]] + names[1..][..i - 1];
      IndexOfFirst(names[1..], i - 1);
    }
  }

  lemma FedIffPresent(fields: seq<Text>, names: seq<Text>, order: seq<int>, i: nat)
    requires i < |names| && IsOrder(fields, names, order)
    ensures i in order <==> Present(fields, names, i)
  {
    if i in order {
      var k :| 0 <= k < |order| && order[k] == i;
      assert fields[k] == names[i];
    }
    if Present(fields, names, i) {
      var k :| 0 <= k < |fields| && fields[k] == names[i];
      IndexOfFirst(names, i);
      assert order[k] == i;
    }
  }

  /** What a header must be like to be accepted. */
  ghost predicate Acceptable(fields: seq<Text>, closed: bool, names: seq<Text>, ignore: IgnorePolicy) {
    && closed && NoDuplicates(fields, names)
    && (ignore.extra || forall k :: 0 <= k < |fields| ==> fields[k] in names)
    && (ignore.missing || forall i :: 0 <= i < |names| ==> Present(fields, names, i))
  }

  /** Requested column `i` is the first that is not in the file. */
  ghost predicate FirstAbsent(fields: seq<Text>, names: seq<Text>, i: nat) {
    i < |names| && !Present(fields, names, i) && forall j :: 0 <= j < i ==> Present(fields, names, j)
  }

  /** What parsing a header comes to: the first column that is refused, open quotes, or the first column that
      is missing, in this order of precedence; and the order of the columns up to there. */
  ghost predicate Judged(fields: seq<Text>, closed: bool, names: seq<Text>, ignore: IgnorePolicy, n: nat,
                         h: HeaderState) {
    && n <= |fields| && IsOrder(fields[..n], names, h.order)
    && (n < |fields| ==>
          FirstRefused(fields, names, ignore.extra, n) &&
          h.error == Some(if fields[n] in names then DuplicatedColumn(fields[n]) else ExtraColumn(fields[n])))
    && (n == |fields| ==>
          NoneRefused(fields, names, ignore.extra) &&
          (!closed ==> h.error == Some(HeaderNotClosed)) &&
          (closed && h.error.Some? ==>
             !ignore.missing &&
             exists i: nat :: FirstAbsent(fields, names, i) && h.error.value == MissingColumn(names[i])) &&
          (closed && h.error.None? ==>
             ignore.missing || forall i :: 0 <= i < |names| ==> Present(fields, names, i)))
  }

  ghost predicate IsVerdict(fields: seq<Text>, closed: bool, names: seq<Text>, ignore: IgnorePolicy, h: HeaderState) {
    exists n: nat :: Judged(fields, closed, names, ignore, n, h)
  }

  lemma HeaderIsJudged(fields: seq<Text>, closed: bool, names: seq<Text>, ignore: IgnorePolicy) returns (n: nat)
    ensures Judged(fields, closed, names, ignore, n, HeaderOf(fields, closed, names, ignore))
  {
    assert fields[0..] == fields && fields[..0] == [] && fields[..|fields|] == fields;
    n := WalkStops(fields, names, ignore.extra, 0, []);
    var w := Walk(fields, names, ignore.extra, []);
    if w.error.None? {
      FirstMissingMeaning(names, w.order, 0);
      forall i | 0 <= i < |names|
        ensures i in w.order <==> Present(fields, names, i)
      {
        FedIffPresent(fields, names, w.order, i);
      }
      var m := FirstMissing(names, w.order, 0);
      if closed && !ignore.missing && m.Some? {
        assert FirstAbsent(fields, names, m.value);
      }
    }
  }

  /** A column is refused if and only if the header repeats a requested column or has an extra one. */
  lemma NoneRefusedIff(fields: seq<Text>, names: seq<Text>, extraOk: bool)
    ensures NoneRefused(fields, names, extraOk) <==>
      NoDuplicates(fields, names) && (extraOk || forall k :: 0 <= k < |fields| ==> fields[k] in names)
  {
    if NoneRefused(fields, names, extraOk) {
      forall j, k | 0 <= j < k < |fields| && fields[j] in names
        ensures fields[j] != fields[k]
      {
        assert !Refused(fields, names, extraOk, k) && fields[j] == fields[..k][j];
      }
      forall k | 0 <= k < |fields| && !extraOk
        ensures fields[k] in names
      {
        assert !Refused(fields, names, extraOk, k);
      }
    } else {
      var k :| 0 <= k < |fields| && Refused(fields, names, extraOk, k);
      if fields[k] in names {
        var j :| 0 <= j < k && fields[j] == fields[k];
      }
    }
  }

  /** Main result: a header is accepted exactly when its quotes are closed, it names no requested
      column twice, and it has extra or missing columns only where they are ignored; and then each
      column feeds the requested column of its name. */
  lemma HeaderMeaning(fields: seq<Text>, closed: bool, names: seq<Text>, ignore: IgnorePolicy)
    ensures var h := HeaderOf(fields, closed, names, ignore);
      && (h.error.None? <==> Acceptable(fields, closed, names, ignore))
      && (h.error.None? ==> IsOrder(fields, names, h.order))
  {
    var n := HeaderIsJudged(fields, closed, names, ignore);
    NoneRefusedIff(fields, names, ignore.extra);
    assert fields[..|fields|] == fields;
  }

  /** Main result: which error is reported, and for which name. The first column that is refused decides,
      whatever comes behind it; then quotes that are left open; then the first requested column that the
      file does not have, unless missing columns are ignored. */
  lemma HeaderErrors(fields: seq<Text>, closed: bool, names: seq<Text>, ignore: IgnorePolicy, f: Text)
    ensures var e := HeaderOf(fields, closed, names, ignore).error;
      && (e == Some(ExtraColumn(f)) <==>
            exists k: nat :: FirstRefused(fields, names, ignore.extra, k) && fields[k] == f && f !in names)
      && (e == Some(DuplicatedColumn(f)) <==>
            exists k: nat :: FirstRefused(fields, names, ignore.extra, k) && fields[k] == f && f in names)
      && (e == Some(HeaderNotClosed) <==> NoneRefused(fields, names, ignore.extra) && !closed)
      && (e == Some(MissingColumn(f)) <==>
            && NoneRefused(fields, names, ignore.extra) && closed && !ignore.missing
            && exists i: nat :: FirstAbsent(fields, names, i) && names[i] == f)
  {
    var n := HeaderIsJudged(fields, closed, names, ignore);
    var e := HeaderOf(fields, closed, names, ignore).error;
    forall k: nat | FirstRefused(fields, names, ignore.extra, k)
      ensures k == n < |fields|
    {
      FirstIsFirst(fields, names, ignore.extra, k, n);
    }
    forall i: nat, j: nat | FirstAbsent(fields, names, i) && FirstAbsent(fields, names, j)
      ensures i == j
    {
    }
  }

  lemma FirstIsFirst(fields: seq<Text>, names: seq<Text>, extraOk: bool, k: nat, n: nat)
    requires FirstRefused(fields, names, extraOk, k)
    requires if n == |fields| then NoneRefused(fields, names, extraOk) else FirstRefused(fields, names, extraOk, n)
    ensures k == n < |fields|
  {
  }

  /** Even a header that is refused leaves the order of the columns before the one that was. */
  lemma RefusedOrder(fields: seq<Text>, closed: bool, names: seq<Text>, ignore: IgnorePolicy, k: nat)
    requires FirstRefused(fields, names, ignore.extra, k)
    ensures IsOrder(fields[..k], names, HeaderOf(fields, closed, names, ignore).order)
  {
    var n := HeaderIsJudged(fields, closed, names, ignore);
    FirstIsFirst(fields, names, ignore.extra, k, n);
  }

  /** Main result: after an accepted header no two columns feed the same slot, and unless missing
      columns are ignored every slot is fed exactly once. */
  lemma OrderIsPermutation(fields: seq<Text>, closed: bool, names: seq<Text>, ignore: IgnorePolicy)
    requires HeaderOf(fields, closed, names, ignore).error.None?
    ensures var order := HeaderOf(fields, closed, names, ignore).order;
      && DistinctSlots(order)
      && (forall k :: 0 <= k < |order| ==> -1 <= order[k] < |names|)
      && (!ignore.missing ==> IsPermutation(order, |names|))
  {
    HeaderMeaning(fields, closed, names, ignore);
    var order := HeaderOf(fields, closed, names, ignore).order;
    forall j, k | 0 <= j < k < |order| && order[j] != -1
      ensures order[j] != order[k]
    {
      EntryIsName(names, fields[j], fields[k]);
    }
    forall i | 0 <= i < |names| && !ignore.missing
      ensures i in order
    {
      FedIffPresent(fields, names, order, i);
    }
  }
}
