/** countConfirmedBookingCancellations, and what it counts over a run. */
module Cancellations {
  import opened Wrappers
  import opened Bookings

  /** The where clause of the count: sitter, babysitter_cancel, isReject = false. */
  predicate Counted(b: Booking, sitter: string) {
    b.babysitterId == sitter && b.status == BabysitterCancel && b.isReject == Some(false)
  }

  function CountCancellations(rows: seq<Booking>, sitter: string): nat {
    if rows == [] then 0
    else CountCancellations(rows[..|rows| - 1], sitter) + if Counted(rows[|rows| - 1], sitter) then 1 else 0
  }

  /** The pending rows of the sitter, among the first n, that an expiry update with these ids turns over. */
  function ExpiriesOf(rows: seq<Booking>, ids: seq<nat>, sitter: string): nat {
    if rows == [] then 0
    else
      var last := |rows| - 1;
      ExpiriesOf(rows[..last], ids, sitter)
      + if last in ids && rows[last].status == Pending && rows[last].babysitterId == sitter then 1 else 0
  }

  /** How often one step makes the sitter withdraw from a confirmed booking, or let one expire. */
  function WithdrawalsOfStep(db: Db, e: Event, sitter: string): nat {
    match e
    case Cancel(id, canceledBy, _, _) =>
      if id < |db.rows| && db.rows[id].status == Confirmed && canceledBy == BabysitterRole
         && db.rows[id].babysitterId == sitter
      then 1 else 0
    case UpdateExpired(job) => if job in db.jobs then ExpiriesOf(db.rows, db.jobs[job].ids, sitter) else 0
    case Create(_, _) => 0
    case Confirm(_, _) => 0
    case SelectExpired(_, _) => 0
    case Complete(_) => 0
    case UserChange(_, _) => 0
  }

  function Withdrawals(w: World, db: Db, es: seq<Event>, sitter: string): nat
    decreases |es|
  {
    if es == [] then 0 else WithdrawalsOfStep(db, es[0], sitter) + Withdrawals(w, Step(w, db, es[0]), es[1..], sitter)
  }

  lemma {:induction false} CountOfUpdate(rows: seq<Booking>, i: nat, b: Booking, sitter: string)
    requires i < |rows|
    ensures CountCancellations(rows[i := b], sitter) + (if Counted(rows[i], sitter) then 1 else 0)
            == CountCancellations(rows, sitter) + (if Counted(b, sitter) then 1 else 0)
  {
    var last := |rows| - 1;
    if i == last {
      assert rows[i := b][..last] == rows[..last];
    } else {
      assert rows[i := b][..last] == rows[..last][i := b];
      CountOfUpdate(rows[..last], i, b, sitter);
    }
  }

  lemma {:induction false} CountOfExpired(rows: seq<Booking>, ids: seq<nat>, sitter: string)
    ensures CountCancellations(Expired(rows, ids), sitter)
            == CountCancellations(rows, sitter) + ExpiriesOf(rows, ids, sitter)
  {
    if rows != [] {
      var last := |rows| - 1;
      assert Expired(rows, ids)[..last] == Expired(rows[..last], ids);
      CountOfExpired(rows[..last], ids, sitter);
    }
  }

  lemma {:induction false} CountOfCompleted(rows: seq<Booking>, ids: seq<nat>, sitter: string)
    requires forall i :: 0 <= i < |rows| && i in ids ==> rows[i].status == Confirmed
    ensures CountCancellations(MarkCompleted(rows, ids), sitter) == CountCancellations(rows, sitter)
  {
    if rows != [] {
      var last := |rows| - 1;
      assert MarkCompleted(rows, ids)[..last] == MarkCompleted(rows[..last], ids);
      CountOfCompleted(rows[..last], ids, sitter);
    }
  }

  lemma CountOfStep(w: World, db: Db, e: Event, sitter: string)
    ensures CountCancellations(Step(w, db, e).rows, sitter)
            == CountCancellations(db.rows, sitter) + WithdrawalsOfStep(db, e, sitter)
  {
    var rows := Step(w, db, e).rows;
    match e
    case Create(_, _) => if |rows| > |db.rows| { assert rows[..|db.rows|] == db.rows; }
    case Confirm(id, now) => if id < |db.rows| { CountOfUpdate(db.rows, id, ConfirmRow(db.rows[id], now), sitter); }
    case Cancel(id, c, reason, now) =>
      if id < |db.rows| { CountOfUpdate(db.rows, id, CancelRow(db.rows[id], c, reason, now), sitter); }
    case UpdateExpired(job) => if job in db.jobs { CountOfExpired(db.rows, db.jobs[job].ids, sitter); }
    case Complete(now) => CountOfCompleted(db.rows, FinishedConfirmed(db.rows, now), sitter);
    case SelectExpired(_, _) =>
    case UserChange(_, _) =>
  }

  /**
   Over every run the count grows by exactly the sitter's cancellations of confirmed bookings plus the sitter's
   bookings that expired: an expired request weighs like a withdrawal.
   */
  lemma {:induction false} CountIsWithdrawals(w: World, db: Db, es: seq<Event>, sitter: string)
    ensures CountCancellations(Run(w, db, es).rows, sitter)
            == CountCancellations(db.rows, sitter) + Withdrawals(w, db, es, sitter)
    decreases |es|
  {
    if es != [] {
      CountOfStep(w, db, es[0], sitter);
      CountIsWithdrawals(w, Step(w, db, es[0]), es[1..], sitter);
    }
  }
}
