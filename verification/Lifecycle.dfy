/** What every run of booking steps keeps: closed rows stay closed, and the fields of a row tell its history. */
module Lifecycle {
  import opened Wrappers
  import opened Pricing
  import opened Bookings

  // ---------------------------------------------------------------- closed rows

  /** Drafts never advance; cancelled and completed bookings are final. */
  predicate Closed(b: Booking) { b.status != Pending && b.status != Confirmed }

  lemma ClosedStep(w: World, db: Db, e: Event, i: nat)
    requires i < |db.rows| && Closed(db.rows[i])
    ensures Step(w, db, e).rows[i] == db.rows[i]
  {}

  /** Over every run a closed row is never changed again, in any column. */
  lemma {:induction false} ClosedForever(w: World, db: Db, es: seq<Event>, i: nat)
    requires i < |db.rows| && db.rows[i].status in {Draft, BabysitterCancel, ParentCancel, Completed}
    ensures i < |Run(w, db, es).rows| && Run(w, db, es).rows[i] == db.rows[i]
    decreases |es|
  {
    if es != [] {
      ClosedStep(w, db, es[0], i);
      StepKeepsRows(w, db, es[0]);
      ClosedForever(w, Step(w, db, es[0]), es[1..], i);
    }
  }

  // ---------------------------------------------------------------- history

  /** A step that took effect on a row. */
  datatype Mark = Confirmation(at: int) | Cancellation(canceledBy: Role, reason: string, at: int) | Expiry | Completion

  function MarksOfStep(db: Db, e: Event, i: nat): seq<Mark> {
    if i >= |db.rows| then []
    else
      match e
      case Confirm(id, now) => if id == i && db.rows[i].status == Pending then [Confirmation(now)] else []
      case Cancel(id, canceledBy, reason, now) =>
        if id == i && CanCancel(db.rows[i]) then [Cancellation(canceledBy, reason, now)] else []
      case UpdateExpired(job) =>
        if job in db.jobs && i in db.jobs[job].ids && db.rows[i].status == Pending then [Expiry] else []
      case Complete(now) => if db.rows[i].status == Confirmed && Finished(db.rows[i], now) then [Completion] else []
      case Create(_, _) => []
      case SelectExpired(_, _) => []
      case UserChange(_, _) => []
  }

  function History(w: World, db: Db, es: seq<Event>, i: nat): seq<Mark>
    decreases |es|
  {
    if es == [] then [] else MarksOfStep(db, es[0], i) + History(w, Step(w, db, es[0]), es[1..], i)
  }

  predicate WasConfirmed(b: Booking, m: Mark) { m.Confirmation? && b.confirmedAt == Some(m.at) }

  predicate WasCancelled(b: Booking, m: Mark) {
    && m.Cancellation? && b.canceledAt == Some(m.at) && b.reasonCancel == m.reason
    && b.status == if m.canceledBy == BabysitterRole then BabysitterCancel else ParentCancel
  }

  predicate NotCancelled(b: Booking) { b.canceledAt == None && b.reasonCancel == "" }

  /** The complete reading of a row's columns as the list of steps that took effect on it. */
  predicate Tells(b: Booking, h: seq<Mark>) {
    match b.status
    case Draft => h == [] && b.confirmedAt == None && b.isReject == None && NotCancelled(b)
    case Pending => h == [] && b.confirmedAt == None && b.isReject == None && NotCancelled(b)
    case Confirmed => |h| == 1 && WasConfirmed(b, h[0]) && b.isReject == None && NotCancelled(b)
    case Completed =>
      && b.isReject == None && NotCancelled(b)
      && if b.confirmedAt == None then h == [] else |h| == 2 && WasConfirmed(b, h[0]) && h[1] == Completion
    case ParentCancel => TellsCancel(b, h)
    case BabysitterCancel =>
      if b.canceledAt == None
      then h == [Expiry] && b.confirmedAt == None && b.isReject == Some(false) && NotCancelled(b)
      else TellsCancel(b, h)
  }

  /** A cancel step: a reject when it hit a pending row, otherwise a cancellation after a confirmation. */
  predicate TellsCancel(b: Booking, h: seq<Mark>) {
    && b.isReject.Some?
    && if b.isReject.value
       then |h| == 1 && WasCancelled(b, h[0]) && b.confirmedAt == None
       else |h| == 2 && WasConfirmed(b, h[0]) && WasCancelled(b, h[1])
  }

  lemma TellsStep(w: World, db: Db, e: Event, i: nat, h: seq<Mark>)
    requires i < |db.rows| && Tells(db.rows[i], h)
    ensures Tells(Step(w, db, e).rows[i], h + MarksOfStep(db, e, i))
  {
    var m := MarksOfStep(db, e, i);
    if m == [] {
      assert h + m == h;
      assert Step(w, db, e).rows[i] == db.rows[i];
    }
  }

  lemma NewRowTells(w: World, db: Db, e: Event)
    requires |Step(w, db, e).rows| > |db.rows|
    ensures Tells(Step(w, db, e).rows[|db.rows|], [])
  {}

  /** The reading of row i so far, or no marks while there is no row i. */
  predicate TellsAt(db: Db, i: nat, h: seq<Mark>) { if i < |db.rows| then Tells(db.rows[i], h) else h == [] }

  lemma TellsAtStep(w: World, db: Db, e: Event, i: nat, h: seq<Mark>)
    requires TellsAt(db, i, h)
    ensures TellsAt(Step(w, db, e), i, h + MarksOfStep(db, e, i))
  {
    StepKeepsRows(w, db, e);
    if i < |db.rows| {
      TellsStep(w, db, e, i, h);
    } else if i < |Step(w, db, e).rows| {
      NewRowTells(w, db, e);
    }
  }

  lemma Regroup(a: seq<Mark>, b: seq<Mark>, c: seq<Mark>)
    ensures a + (b + c) == a + b + c
  {}

  lemma {:induction false} TellsRun(w: World, db: Db, es: seq<Event>, i: nat, h: seq<Mark>)
    requires TellsAt(db, i, h)
    ensures TellsAt(Run(w, db, es), i, h + History(w, db, es, i))
    decreases |es|
  {
    if es == [] {
      assert h + History(w, db, es, i) == h;
    } else {
      var next, m := Step(w, db, es[0]), MarksOfStep(db, es[0], i);
      TellsAtStep(w, db, es[0], i, h);
      TellsRun(w, next, es[1..], i, h + m);
      Regroup(h, m, History(w, next, es[1..], i));
    }
  }

  /** In every reachable table the columns of every row are exactly its history. */
  lemma FieldsTellHistory(w: World, live: set<string>, es: seq<Event>, i: nat)
    requires i < |Run(w, Empty(live), es).rows|
    ensures Tells(Run(w, Empty(live), es).rows[i], History(w, Empty(live), es, i))
  {
    TellsRun(w, Empty(live), es, i, []);
    assert [] + History(w, Empty(live), es, i) == History(w, Empty(live), es, i);
  }

  predicate HasConfirmation(h: seq<Mark>) { exists k :: 0 <= k < |h| && h[k].Confirmation? }
  predicate HasCancellation(h: seq<Mark>) { exists k :: 0 <= k < |h| && h[k].Cancellation? }

  lemma MarksFromColumns(b: Booking, h: seq<Mark>)
    requires Tells(b, h)
    ensures HasConfirmation(h) <==> b.confirmedAt.Some?
    ensures HasCancellation(h) <==> b.canceledAt.Some?
    ensures Expiry in h <==> b.status == BabysitterCancel && b.canceledAt == None
    ensures b.isReject == Some(true) ==> !HasConfirmation(h)
    ensures b.isReject == Some(false) && b.canceledAt.Some? ==> HasConfirmation(h)
  {
    if |h| > 0 { assert h[0].Confirmation? || h[0].Cancellation? || h[0] == Expiry; }
    if |h| > 1 { assert h[1].Cancellation? || h[1] == Completion; }
  }

  /**
   Whether a booking was ever confirmed, cancelled or expired can be read off its columns, in every reachable table:
   a reject was never confirmed, and a dated non-reject cancellation always was.
   */
  lemma HistoryFromColumns(w: World, live: set<string>, es: seq<Event>, i: nat)
    requires i < |Run(w, Empty(live), es).rows|
    ensures var b, h := Run(w, Empty(live), es).rows[i], History(w, Empty(live), es, i);
            && (HasConfirmation(h) <==> b.confirmedAt.Some?)
            && (HasCancellation(h) <==> b.canceledAt.Some?)
            && (Expiry in h <==> b.status == BabysitterCancel && b.canceledAt == None)
            && (b.isReject == Some(true) ==> !HasConfirmation(h))
            && (b.isReject == Some(false) && b.canceledAt.Some? ==> HasConfirmation(h))
  {
    FieldsTellHistory(w, live, es, i);
    MarksFromColumns(Run(w, Empty(live), es).rows[i], History(w, Empty(live), es, i));
  }

  // ---------------------------------------------------------------- the completion job, if it were not atomic

  /** The completion job split in two, with other steps between its select and its unguarded update. */
  function SplitCompletion(w: World, db: Db, now: int, between: seq<Event>): seq<Booking> {
    MarkCompleted(Run(w, db, between).rows, FinishedConfirmed(db.rows, now))
  }

  predicate Selected(db: Db, now: int, i: nat) {
    i < |db.rows| && db.rows[i].status == Confirmed && Finished(db.rows[i], now)
  }

  lemma HistoryCons(a: Mark, h: seq<Mark>)
    ensures HasCancellation([a] + h) <==> a.Cancellation? || HasCancellation(h)
  {
    if k :| 0 <= k < |h| && h[k].Cancellation? { assert ([a] + h)[k + 1].Cancellation?; }
    if a.Cancellation? { assert ([a] + h)[0].Cancellation?; }
  }

  /** A confirmed or completed booking stays one of the two exactly while no cancel takes effect on it. */
  lemma {:induction false} StaysUnlessCancelled(w: World, db: Db, es: seq<Event>, i: nat)
    requires i < |db.rows| && (db.rows[i].status == Confirmed || db.rows[i].status == Completed)
    ensures i < |Run(w, db, es).rows|
    ensures var after := Run(w, db, es).rows[i];
            !HasCancellation(History(w, db, es, i)) <==> after.status == Confirmed || after.status == Completed
    ensures Closed(Run(w, db, es).rows[i]) <==> Run(w, db, es).rows[i].status != Confirmed
    decreases |es|
  {
    if es != [] {
      var next, m := Step(w, db, es[0]), MarksOfStep(db, es[0], i);
      StepKeepsRows(w, db, es[0]);
      var rest := History(w, next, es[1..], i);
      if m == [] {
        assert m + rest == rest;
      } else {
        HistoryCons(m[0], rest);
        assert m == [m[0]];
      }
      if m != [] && m[0].Cancellation? {
        ClosedForever(w, next, es[1..], i);
      } else {
        StaysUnlessCancelled(w, next, es[1..], i);
      }
    }
  }

  /**
   The split job respects closed rows exactly when no cancel took effect, between its select and its update, on a
   booking it had selected.
   */
  lemma SplitCompletionSafeIff(w: World, db: Db, now: int, between: seq<Event>)
    ensures var mid := Run(w, db, between).rows;
            (forall i :: 0 <= i < |mid| && Closed(mid[i]) ==> SplitCompletion(w, db, now, between)[i] == mid[i])
            <==> (forall i: nat :: Selected(db, now, i) ==> !HasCancellation(History(w, db, between, i)))
  {
    RunKeepsRows(w, db, between);
    var mid, after := Run(w, db, between).rows, SplitCompletion(w, db, now, between);
    forall i: nat | i < |mid|
      ensures Closed(mid[i]) && after[i] != mid[i]
              <==> Selected(db, now, i) && HasCancellation(History(w, db, between, i))
    {
      if Selected(db, now, i) { StaysUnlessCancelled(w, db, between, i); }
    }
  }

  /**
   It does fail: whoever requested and confirmed a booking whose only slot has ended, a cancel that comes between the
   select and the update is overwritten by completed.
   */
  lemma SplitCompletionOverwritesCancel(
      w: World, live: set<string>, request: Request, clock: Clock,
      slot: Slot, confirmedAt: int, now: int, cancel: Event)
    requires Acceptable(w, live, request) && request.initial == AsPending && request.slots == Some([slot])
    requires slot.end <= now && cancel.Cancel? && cancel.id == 0
    ensures var db := Run(w, Empty(live), [Create(request, clock), Confirm(0, confirmedAt)]);
            var mid := Run(w, db, [cancel]).rows;
            && |mid| == 1 && (mid[0].status == BabysitterCancel || mid[0].status == ParentCancel)
            && SplitCompletion(w, db, now, [cancel])[0].status == Completed
  {
    var es := [Create(request, clock), Confirm(0, confirmedAt)];
    var created := Step(w, Empty(live), es[0]);
    assert created.rows == [Candidate(w, [], request, clock)];
    assert es[1..] == [es[1]] && es[1..][1..] == [] && [cancel][1..] == [];
    var db := Step(w, created, es[1]);
    assert Run(w, created, es[1..]) == Run(w, db, []);
    assert Run(w, Empty(live), es) == db;
    assert db.rows[0].status == Confirmed && db.rows[0].slots == [slot];
    assert Run(w, db, [cancel]) == Run(w, Step(w, db, cancel), []);
    assert Selected(db, now, 0);
  }
}
