/** The booking counters of getStatisticsCommon over a creation-date range. */
module Statistics {
  import opened Wrappers
  import opened Bookings
  import opened Lifecycle

  datatype Range = Range(startDate: Option<int>, endDate: Option<int>)

  predicate InRange(b: Booking, range: Range) {
    && (range.startDate.Some? ==> b.createdAt.ms >= range.startDate.value)
    && (range.endDate.Some? ==> b.createdAt.ms <= range.endDate.value)
  }

  datatype Counter =
    | BookingPending | BookingConfirmed | BookingAutoReject | BabysitterReject | ParentReject
    | ParentCancelled | BabysitterCancelled | BookingCompleted

  /** The CASE of each counter; SQL's null is None, which equals neither true nor false. */
  predicate Matches(b: Booking, c: Counter) {
    match c
    case BookingPending => b.status == Pending
    case BookingConfirmed => b.status == Confirmed
    case BookingAutoReject => b.status == BabysitterCancel && b.isReject == None
    case BabysitterReject => b.status == BabysitterCancel && b.isReject == Some(true)
    case ParentReject => b.status == ParentCancel && b.isReject == Some(true)
    case ParentCancelled => b.status == ParentCancel && b.isReject == Some(false)
    case BabysitterCancelled => b.status == BabysitterCancel && b.isReject == Some(false)
    case BookingCompleted => b.status == Completed
  }

  function Total(rows: seq<Booking>, range: Range, c: Counter): nat {
    if rows == [] then 0
    else
      var b := rows[|rows| - 1];
      Total(rows[..|rows| - 1], range, c) + Counts(b, range, c)
  }

  function Counts(b: Booking, range: Range, c: Counter): nat { if InRange(b, range) && Matches(b, c) then 1 else 0 }

  function NonDraft(rows: seq<Booking>, range: Range): nat {
    if rows == [] then 0
    else
      var b := rows[|rows| - 1];
      NonDraft(rows[..|rows| - 1], range) + if InRange(b, range) && b.status != Draft then 1 else 0
  }

  function SumOfCounters(rows: seq<Booking>, range: Range): nat {
    Total(rows, range, BookingPending) + Total(rows, range, BookingConfirmed) + Total(rows, range, BookingAutoReject)
    + Total(rows, range, BabysitterReject) + Total(rows, range, ParentReject) + Total(rows, range, ParentCancelled)
    + Total(rows, range, BabysitterCancelled) + Total(rows, range, BookingCompleted)
  }

  /** The rows no counter sees: cancelled by the parent with no reject flag. */
  function Unseen(rows: seq<Booking>, range: Range): nat {
    if rows == [] then 0
    else
      var b := rows[|rows| - 1];
      Unseen(rows[..|rows| - 1], range)
      + if InRange(b, range) && b.status == ParentCancel && b.isReject == None then 1 else 0
  }

  lemma RowCountedOnce(b: Booking, range: Range)
    ensures Counts(b, range, BookingPending) + Counts(b, range, BookingConfirmed) + Counts(b, range, BookingAutoReject)
            + Counts(b, range, BabysitterReject) + Counts(b, range, ParentReject) + Counts(b, range, ParentCancelled)
            + Counts(b, range, BabysitterCancelled) + Counts(b, range, BookingCompleted)
            == if InRange(b, range) && b.status != Draft && !(b.status == ParentCancel && b.isReject == None)
               then 1 else 0
  {
    match b.isReject
    case None =>
    case Some(flag) =>
  }

  /** For any table, reachable or not, the counters miss exactly the parent-cancelled rows without a reject flag. */
  lemma {:induction false} CountersMissUnseen(rows: seq<Booking>, range: Range)
    ensures SumOfCounters(rows, range) + Unseen(rows, range) == NonDraft(rows, range)
  {
    if rows != [] {
      CountersMissUnseen(rows[..|rows| - 1], range);
      RowCountedOnce(rows[|rows| - 1], range);
    }
  }

  lemma {:induction false} NothingUnseen(rows: seq<Booking>, range: Range)
    requires forall i :: 0 <= i < |rows| ==> (rows[i].status == ParentCancel ==> rows[i].isReject.Some?)
    ensures Unseen(rows, range) == 0
  {
    if rows != [] {
      NothingUnseen(rows[..|rows| - 1], range);
    }
  }

  lemma {:induction false} NoAutoReject(rows: seq<Booking>, range: Range)
    requires forall i :: 0 <= i < |rows| ==> (rows[i].status == BabysitterCancel ==> rows[i].isReject.Some?)
    ensures Total(rows, range, BookingAutoReject) == 0
  {
    if rows != [] {
      NoAutoReject(rows[..|rows| - 1], range);
    }
  }

  predicate CancelledBy(m: Mark, babysitter: bool) {
    m.Cancellation? && (m.canceledBy == BabysitterRole <==> babysitter)
  }

  /** What each counter means: the booking's history, by who cancelled it and whether it had been confirmed. */
  predicate Means(c: Counter, b: Booking, h: seq<Mark>) {
    match c
    case BookingPending => b.status == Pending && h == []
    case BookingConfirmed => |h| == 1 && h[0].Confirmation?
    case BookingAutoReject => false
    case BabysitterReject => |h| == 1 && CancelledBy(h[0], true)
    case ParentReject => |h| == 1 && CancelledBy(h[0], false)
    case ParentCancelled => |h| == 2 && h[0].Confirmation? && CancelledBy(h[1], false)
    case BabysitterCancelled => h == [Expiry] || (|h| == 2 && h[0].Confirmation? && CancelledBy(h[1], true))
    case BookingCompleted =>
      b.status == Completed && (h == [] || (|h| == 2 && h[0].Confirmation? && h[1] == Completion))
  }

  /** In every reachable table a counter counts a booking exactly when its history says so. */
  lemma CountersTellHistory(w: World, live: set<string>, es: seq<Event>, i: nat, c: Counter)
    requires i < |Run(w, Empty(live), es).rows|
    ensures var b := Run(w, Empty(live), es).rows[i];
            Matches(b, c) <==> Means(c, b, History(w, Empty(live), es, i))
  {
    FieldsTellHistory(w, live, es, i);
    var b, h := Run(w, Empty(live), es).rows[i], History(w, Empty(live), es, i);
    match b.status
    case Draft =>
    case Pending =>
    case Confirmed =>
    case Completed =>
    case ParentCancel =>
    case BabysitterCancel =>
  }

  /** The rows of a table that a test picks. */
  function Picked(rows: seq<Booking>, test: Booking -> bool): set<nat> { set i: nat | i < |rows| && test(rows[i]) }

  lemma PickedSnoc(rows: seq<Booking>, test: Booking -> bool)
    requires rows != []
    ensures var last := |rows| - 1;
            |Picked(rows, test)| == |Picked(rows[..last], test)| + if test(rows[last]) then 1 else 0
  {
    var last := |rows| - 1;
    var before := Picked(rows[..last], test);
    assert Picked(rows, test) == if test(rows[last]) then before + {last} else before;
  }

  /** A total is the number of bookings created in the range that the counter matches. */
  lemma {:induction false} TotalIsNumber(rows: seq<Booking>, range: Range, c: Counter)
    ensures Total(rows, range, c) == |set i: nat | i < |rows| && InRange(rows[i], range) && Matches(rows[i], c)|
  {
    var test := (b: Booking) => InRange(b, range) && Matches(b, c);
    assert Picked(rows, test) == set i: nat | i < |rows| && InRange(rows[i], range) && Matches(rows[i], c);
    if rows != [] {
      var init := rows[..|rows| - 1];
      TotalIsNumber(init, range, c);
      assert Picked(init, test) == set i: nat | i < |init| && InRange(init[i], range) && Matches(init[i], c);
      PickedSnoc(rows, test);
    }
  }

  lemma {:induction false} NonDraftIsNumber(rows: seq<Booking>, range: Range)
    ensures NonDraft(rows, range) == |set i: nat | i < |rows| && InRange(rows[i], range) && rows[i].status != Draft|
  {
    var test := (b: Booking) => InRange(b, range) && b.status != Draft;
    assert Picked(rows, test) == set i: nat | i < |rows| && InRange(rows[i], range) && rows[i].status != Draft;
    if rows != [] {
      var init := rows[..|rows| - 1];
      NonDraftIsNumber(init, range);
      assert Picked(init, test) == set i: nat | i < |init| && InRange(init[i], range) && init[i].status != Draft;
      PickedSnoc(rows, test);
    }
  }

  /** Created at or after the start and at or before the end, where these are given. */
  predicate CreatedBetween(b: Booking, startDate: Option<int>, endDate: Option<int>) {
    match (startDate, endDate)
    case (None, None) => true
    case (Some(start), None) => start <= b.createdAt.ms
    case (None, Some(end)) => b.createdAt.ms <= end
    case (Some(start), Some(end)) => start <= b.createdAt.ms <= end
  }

  /** The bookings of a run created between the dates whose history is the one the counter stands for. */
  function Meant(
      w: World, live: set<string>, es: seq<Event>, startDate: Option<int>, endDate: Option<int>, c: Counter): set<nat>
  {
    var rows := Run(w, Empty(live), es).rows;
    set i: nat | i < |rows| && CreatedBetween(rows[i], startDate, endDate)
                 && Means(c, rows[i], History(w, Empty(live), es, i))
  }

  /** In every reachable table each of the eight totals is the number of those bookings. */
  lemma TotalsTellHistory(
      w: World, live: set<string>, es: seq<Event>, startDate: Option<int>, endDate: Option<int>, c: Counter)
    ensures Total(Run(w, Empty(live), es).rows, Range(startDate, endDate), c)
            == |Meant(w, live, es, startDate, endDate, c)|
  {
    var rows, range := Run(w, Empty(live), es).rows, Range(startDate, endDate);
    TotalIsNumber(rows, range, c);
    var counted := set i: nat | i < |rows| && InRange(rows[i], range) && Matches(rows[i], c);
    forall i: nat
      ensures i in counted <==> i in Meant(w, live, es, startDate, endDate, c)
    {
      if i < |rows| { CountersTellHistory(w, live, es, i, c); }
    }
    assert counted == Meant(w, live, es, startDate, endDate, c);
  }

  /**
   In every reachable table the eight counters partition the non-draft bookings of the range, every booking matches
   at most one counter, and the automatic-reject counter is always zero: expired bookings are counted as
   cancellations by the babysitter.
   */
  lemma CountersPartition(w: World, live: set<string>, es: seq<Event>, range: Range)
    ensures var rows := Run(w, Empty(live), es).rows;
            && SumOfCounters(rows, range) == NonDraft(rows, range)
            && Total(rows, range, BookingAutoReject) == 0
            && forall i, c, d :: 0 <= i < |rows| && Matches(rows[i], c) && Matches(rows[i], d) ==> c == d
  {
    var rows := Run(w, Empty(live), es).rows;
    forall i | 0 <= i < |rows|
      ensures rows[i].status == ParentCancel || rows[i].status == BabysitterCancel ==> rows[i].isReject.Some?
    {
      FieldsTellHistory(w, live, es, i);
    }
    CountersMissUnseen(rows, range);
    NothingUnseen(rows, range);
    NoAutoReject(rows, range);
  }
}
