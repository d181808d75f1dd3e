/**
 The 48-hour expiry job as two steps, a select and a guarded update, with any other steps in between:
 it is safe and prompt.
 */
module Expiry {
  import opened Wrappers
  import opened Bookings
  import opened Deadlines
  import Lifecycle

  // ---------------------------------------------------------------- safety

  /** Every row a job holds has slots and was past its deadline when the job selected it. */
  predicate JobSound(rows: seq<Booking>, job: Job) {
    forall i :: i in job.ids ==> i < |rows| && rows[i].slots != [] && job.selectedAt >= Deadline(rows[i])
  }

  predicate JobsSound(db: Db) { forall job :: job in db.jobs ==> JobSound(db.rows, db.jobs[job]) }

  lemma SelectionSound(rows: seq<Booking>, live: set<string>, now: int)
    ensures JobSound(rows, Job(now, GetReminderBooking(rows, live, 0, EXPIRY_ROLES, now)))
  {
    forall i | i in GetReminderBooking(rows, live, 0, EXPIRY_ROLES, now)
      ensures i < |rows| && rows[i].slots != [] && now >= Deadline(rows[i])
    {
      ExpiryDueIff(rows[i], live, now);
    }
  }

  lemma JobStaysSound(rows: seq<Booking>, next: seq<Booking>, job: Job)
    requires JobSound(rows, job) && |rows| <= |next|
    requires forall i :: 0 <= i < |rows| ==> SameIdentity(rows[i], next[i])
    ensures JobSound(next, job)
  {
    forall i | i in job.ids
      ensures i < |next| && next[i].slots != [] && job.selectedAt >= Deadline(next[i])
    {
      assert SameIdentity(rows[i], next[i]);
    }
  }

  lemma JobsSoundStep(w: World, db: Db, e: Event)
    requires JobsSound(db)
    ensures JobsSound(Step(w, db, e))
  {
    StepKeepsRows(w, db, e);
    var next, jobs := Step(w, db, e).rows, JobsAfter(db, e);
    if e.SelectExpired? { SelectionSound(db.rows, db.live, e.now); }
    forall job | job in jobs ensures JobSound(next, jobs[job]) {
      if e.SelectExpired? && job == e.job {
      } else {
        assert job in db.jobs && jobs[job] == db.jobs[job];
        JobStaysSound(db.rows, next, jobs[job]);
      }
    }
  }

  lemma {:induction false} JobsSoundRun(w: World, db: Db, es: seq<Event>)
    requires JobsSound(db)
    ensures JobsSound(Run(w, db, es))
    decreases |es|
  {
    if es != [] {
      JobsSoundStep(w, db, es[0]);
      JobsSoundRun(w, Step(w, db, es[0]), es[1..]);
    }
  }

  /**
   In every reachable table, an expiry update changes only rows that are still pending, have slots, and were past
   their deadline at the job's select; it changes nothing in them but the status and the reject flag.
   */
  lemma ExpiryIsSafe(w: World, live: set<string>, es: seq<Event>, job: nat, i: nat)
    requires i < |Run(w, Empty(live), es).rows|
    ensures var db := Run(w, Empty(live), es);
            var after := Step(w, db, UpdateExpired(job)).rows;
            after[i] != db.rows[i] ==>
              && db.rows[i].status == Pending
              && db.rows[i].slots != []
              && job in db.jobs && db.jobs[job].selectedAt >= Deadline(db.rows[i])
              && after[i] == db.rows[i].(status := BabysitterCancel, isReject := Some(false))
  {
    JobsSoundRun(w, Empty(live), es);
    var db := Run(w, Empty(live), es);
    if job in db.jobs { assert JobSound(db.rows, db.jobs[job]); }
  }

  // ---------------------------------------------------------------- untouched bookings

  /** The steps that leave booking i to the expiry job: no confirm or cancel of it. */
  predicate LeavesAlone(e: Event, i: nat) { !(e.Confirm? && e.id == i) && !(e.Cancel? && e.id == i) }

  predicate UsesJob(e: Event, job: nat) {
    (e.SelectExpired? && e.job == job) || (e.UpdateExpired? && e.job == job)
  }

  predicate IsExpired(b: Booking) { b.status == BabysitterCancel && b.isReject == Some(false) && b.canceledAt == None }

  /** A pending row that was never cancelled. */
  predicate Waiting(b: Booking) { b.status == Pending && b.canceledAt == None }

  lemma AloneStep(w: World, db: Db, e: Event, i: nat)
    requires i < |db.rows| && LeavesAlone(e, i) && (Waiting(db.rows[i]) || IsExpired(db.rows[i]))
    ensures i < |Step(w, db, e).rows|
    ensures Waiting(Step(w, db, e).rows[i]) || IsExpired(Step(w, db, e).rows[i])
  {}

  lemma JobKept(w: World, db: Db, e: Event, job: nat)
    requires !UsesJob(e, job) && job in db.jobs
    ensures job in Step(w, db, e).jobs && Step(w, db, e).jobs[job] == db.jobs[job]
  {}

  lemma {:induction false} AloneRun(w: World, db: Db, es: seq<Event>, i: nat, job: nat)
    requires i < |db.rows| && (Waiting(db.rows[i]) || IsExpired(db.rows[i]))
    requires forall e :: e in es ==> LeavesAlone(e, i) && !UsesJob(e, job)
    ensures i < |Run(w, db, es).rows|
    ensures Waiting(Run(w, db, es).rows[i]) || IsExpired(Run(w, db, es).rows[i])
    ensures job in db.jobs ==> job in Run(w, db, es).jobs && Run(w, db, es).jobs[job] == db.jobs[job]
    decreases |es|
  {
    if es != [] {
      assert LeavesAlone(es[0], i) && !UsesJob(es[0], job);
      StepKeepsRows(w, db, es[0]);
      AloneStep(w, db, es[0], i);
      if job in db.jobs { JobKept(w, db, es[0], job); }
      AloneRun(w, Step(w, db, es[0]), es[1..], i, job);
    }
  }

  /**
   Promptness: a job that selects at or past the deadline of an untouched pending booking expires it by its update,
   whatever other bookings, jobs and users do in between.
   */
  lemma ExpiryIsPrompt(w: World, db: Db, job: nat, now: int, between: seq<Event>, i: nat)
    requires i < |db.rows| && Waiting(db.rows[i]) && Joined(db.rows[i], db.live, EXPIRY_ROLES)
    requires now >= Deadline(db.rows[i])
    requires forall e :: e in between ==> LeavesAlone(e, i) && !UsesJob(e, job)
    ensures var es := [SelectExpired(job, now)] + between + [UpdateExpired(job)];
            i < |Run(w, db, es).rows| && IsExpired(Run(w, db, es).rows[i])
  {
    var first, last := [SelectExpired(job, now)], [UpdateExpired(job)];
    ExpiryDueIff(db.rows[i], db.live, now);
    var selected := Step(w, db, first[0]);
    assert first[1..] == [] && last[1..] == [];
    AloneRun(w, selected, between, i, job);
    var mid := Run(w, selected, between);
    assert Run(w, mid, last) == Step(w, mid, last[0]);
    RunConcat(w, db, first + between, last);
    RunConcat(w, db, first, between);
  }

  /** No job holds booking i, and no job of the run selects at or past its deadline. */
  lemma {:induction false} NotBeforeDeadline(w: World, db: Db, es: seq<Event>, i: nat)
    requires i < |db.rows| && db.rows[i].status == Pending
    requires forall job :: job in db.jobs ==> i !in db.jobs[job].ids
    requires forall e :: e in es ==> LeavesAlone(e, i) && (e.SelectExpired? ==> e.now < Deadline(db.rows[i]))
    ensures i < |Run(w, db, es).rows| && Run(w, db, es).rows[i] == db.rows[i]
    decreases |es|
  {
    if es != [] {
      if es[0].SelectExpired? { ExpiryDueIff(db.rows[i], db.live, es[0].now); }
      StepKeepsRows(w, db, es[0]);
      NotBeforeDeadline(w, Step(w, db, es[0]), es[1..], i);
    }
  }

  /** A pending booking without slots is never expired: the job's inner join drops it. */
  lemma {:induction false} NoSlotsNeverExpires(w: World, db: Db, es: seq<Event>, i: nat)
    requires i < |db.rows| && db.rows[i].status == Pending && db.rows[i].slots == [] && JobsSound(db)
    requires forall e :: e in es ==> LeavesAlone(e, i)
    ensures i < |Run(w, db, es).rows| && Run(w, db, es).rows[i] == db.rows[i]
    decreases |es|
  {
    if es != [] {
      assert LeavesAlone(es[0], i);
      if es[0].UpdateExpired? && es[0].job in db.jobs { assert JobSound(db.rows, db.jobs[es[0].job]); }
      JobsSoundStep(w, db, es[0]);
      StepKeepsRows(w, db, es[0]);
      NoSlotsNeverExpires(w, Step(w, db, es[0]), es[1..], i);
    }
  }

  // ---------------------------------------------------------------- exactly which runs expire a booking

  /** The k-th step selects booking i for the job: both users live, and the deadline has come. */
  predicate SelectsAt(w: World, db: Db, es: seq<Event>, i: nat, job: nat, k: nat)
    requires i < |db.rows| && k < |es|
  {
    && es[k].SelectExpired? && es[k].job == job && es[k].now >= Deadline(db.rows[i])
    && Joined(db.rows[i], Run(w, db, es[..k]).live, EXPIRY_ROLES)
  }

  predicate Untouched(es: seq<Event>, job: nat, k: nat) { forall m :: k < m < |es| ==> !UsesJob(es[m], job) }

  /** The job selected booking i and has not been used since. */
  predicate Holds(w: World, db: Db, es: seq<Event>, i: nat, job: nat)
    requires i < |db.rows|
  {
    exists k :: 0 <= k < |es| && SelectsAt(w, db, es, i, job, k) && Untouched(es, job, k)
  }

  /** The k-th step is the update of a job that holds booking i. */
  predicate DeliversAt(w: World, db: Db, es: seq<Event>, i: nat, k: nat)
    requires i < |db.rows| && k < |es|
  {
    es[k].UpdateExpired? && Holds(w, db, es[..k], i, es[k].job)
  }

  predicate Delivered(w: World, db: Db, es: seq<Event>, i: nat)
    requires i < |db.rows|
  {
    exists k :: 0 <= k < |es| && DeliversAt(w, db, es, i, k)
  }

  lemma HoldsSnoc(w: World, db: Db, es: seq<Event>, e: Event, i: nat, job: nat)
    requires i < |db.rows|
    ensures Holds(w, db, es + [e], i, job)
            <==> (e.SelectExpired? && e.job == job && e.now >= Deadline(db.rows[i])
                  && Joined(db.rows[i], Run(w, db, es).live, EXPIRY_ROLES))
                 || (Holds(w, db, es, i, job) && !UsesJob(e, job))
  {
    var all, n := es + [e], |es|;
    assert all[..n] == es;
    forall k | 0 <= k < n
      ensures SelectsAt(w, db, all, i, job, k) <==> SelectsAt(w, db, es, i, job, k)
      ensures Untouched(all, job, k) <==> Untouched(es, job, k) && !UsesJob(e, job)
    {
      assert all[..k] == es[..k];
      UntouchedSnoc(es, e, job, k);
    }
    if SelectsAt(w, db, all, i, job, n) { assert Untouched(all, job, n); }
  }

  lemma UntouchedSnoc(es: seq<Event>, e: Event, job: nat, k: nat)
    requires k < |es|
    ensures Untouched(es + [e], job, k) <==> Untouched(es, job, k) && !UsesJob(e, job)
  {
    var all := es + [e];
    if Untouched(all, job, k) {
      assert !UsesJob(all[|es|], job);
      forall m | k < m < |es| ensures !UsesJob(es[m], job) { assert !UsesJob(all[m], job); }
    }
  }

  lemma DeliveredSnoc(w: World, db: Db, es: seq<Event>, e: Event, i: nat)
    requires i < |db.rows|
    ensures Delivered(w, db, es + [e], i)
            <==> Delivered(w, db, es, i) || (e.UpdateExpired? && Holds(w, db, es, i, e.job))
  {
    var all, n := es + [e], |es|;
    assert all[..n] == es;
    forall k | 0 <= k < n ensures DeliversAt(w, db, all, i, k) <==> DeliversAt(w, db, es, i, k) {
      assert all[..k] == es[..k];
    }
    if e.UpdateExpired? && Holds(w, db, es, i, e.job) { assert DeliversAt(w, db, all, i, n); }
  }

  lemma RunSnoc(w: World, db: Db, es: seq<Event>, e: Event)
    ensures Run(w, db, es + [e]) == Step(w, Run(w, db, es), e)
  {
    RunConcat(w, db, es, [e]);
    assert [e][1..] == [];
    assert Run(w, Run(w, db, es), [e]) == Run(w, Step(w, Run(w, db, es), e), []);
  }

  /** Whether a job's update would now turn booking i over. */
  predicate InJob(db: Db, i: nat, job: nat) { job in db.jobs && i in db.jobs[job].ids }

  /** One more step, seen from a row that is still waiting. */
  lemma JobAfterStep(w: World, db: Db, e: Event, i: nat, job: nat)
    requires i < |db.rows| && db.rows[i].status == Pending
    ensures InJob(Step(w, db, e), i, job)
            <==> (e.SelectExpired? && e.job == job && e.now >= Deadline(db.rows[i])
                  && Joined(db.rows[i], db.live, EXPIRY_ROLES))
                 || (InJob(db, i, job) && !UsesJob(e, job))
  {
    if e.SelectExpired? { ExpiryDueIff(db.rows[i], db.live, e.now); }
  }

  lemma RowAfterStep(w: World, db: Db, e: Event, i: nat)
    requires i < |db.rows| && Waiting(db.rows[i]) && LeavesAlone(e, i)
    ensures i < |Step(w, db, e).rows|
    ensures Step(w, db, e).rows[i]
            == if e.UpdateExpired? && InJob(db, i, e.job) then ExpireRow(db.rows[i]) else db.rows[i]
  {
    StepKeepsRows(w, db, e);
  }

  lemma WaitingOrExpired(w: World, db: Db, es: seq<Event>, e: Event, i: nat)
    requires i < |db.rows| && Waiting(db.rows[i]) && LeavesAlone(e, i)
    requires i < |Run(w, db, es).rows|
    requires Run(w, db, es).rows[i] == if Delivered(w, db, es, i) then ExpireRow(db.rows[i]) else db.rows[i]
    requires !Delivered(w, db, es, i) ==>
               forall job :: InJob(Run(w, db, es), i, job) <==> Holds(w, db, es, i, job)
    ensures var all := es + [e];
            && i < |Run(w, db, all).rows|
            && Run(w, db, all).rows[i] == (if Delivered(w, db, all, i) then ExpireRow(db.rows[i]) else db.rows[i])
            && (!Delivered(w, db, all, i) ==>
                  forall job :: InJob(Run(w, db, all), i, job) <==> Holds(w, db, all, i, job))
  {
    var mid := Run(w, db, es);
    RunSnoc(w, db, es, e);
    DeliveredSnoc(w, db, es, e, i);
    if Delivered(w, db, es, i) {
      Lifecycle.ClosedStep(w, mid, e, i);
      StepKeepsRows(w, mid, e);
    } else {
      RowAfterStep(w, mid, e, i);
      forall job ensures InJob(Step(w, mid, e), i, job) <==> Holds(w, db, es + [e], i, job) {
        JobAfterStep(w, mid, e, i, job);
        HoldsSnoc(w, db, es, e, i, job);
      }
    }
  }

  lemma {:induction false} ExpiryAlongRun(w: World, db: Db, es: seq<Event>, i: nat)
    requires i < |db.rows| && Waiting(db.rows[i])
    requires forall job :: !InJob(db, i, job)
    requires forall e :: e in es ==> LeavesAlone(e, i)
    ensures i < |Run(w, db, es).rows|
    ensures Run(w, db, es).rows[i] == if Delivered(w, db, es, i) then ExpireRow(db.rows[i]) else db.rows[i]
    ensures !Delivered(w, db, es, i) ==>
              forall job :: InJob(Run(w, db, es), i, job) <==> Holds(w, db, es, i, job)
    decreases |es|
  {
    if es != [] {
      var init, e := es[..|es| - 1], es[|es| - 1];
      assert es == init + [e];
      ExpiryAlongRun(w, db, init, i);
      WaitingOrExpired(w, db, init, e, i);
    }
  }

  /**
   Over any run that neither confirms nor cancels it, with other steps and other jobs anywhere, a waiting booking that
   no job holds is expired exactly when some job selects it, with both users live and at or past its deadline, and that
   job's next use is its update; otherwise the row is unchanged.
   */
  lemma ExpiredIffDelivered(w: World, db: Db, es: seq<Event>, i: nat)
    requires i < |db.rows| && Waiting(db.rows[i])
    requires forall job :: job in db.jobs ==> i !in db.jobs[job].ids
    requires forall e :: e in es ==> LeavesAlone(e, i)
    ensures i < |Run(w, db, es).rows|
    ensures Run(w, db, es).rows[i] == if Delivered(w, db, es, i) then ExpireRow(db.rows[i]) else db.rows[i]
  {
    ExpiryAlongRun(w, db, es, i);
  }

  /** A booking requested in any reachable table starts waiting, and no job under way holds it. */
  lemma NewBookingWaits(w: World, live: set<string>, es: seq<Event>, request: Request, clock: Clock)
    requires request.initial == AsPending
    requires var db := Run(w, Empty(live), es); NewBooking(w, db.rows, db.live, request, clock).Ok?
    ensures var db := Run(w, Empty(live), es);
            var next, n := Step(w, db, Create(request, clock)), |db.rows|;
            n < |next.rows| && Waiting(next.rows[n]) && forall job :: job in next.jobs ==> n !in next.jobs[job].ids
  {
    JobsSoundRun(w, Empty(live), es);
    var db := Run(w, Empty(live), es);
    var next, n := Step(w, db, Create(request, clock)), |db.rows|;
    forall job | job in next.jobs ensures n !in next.jobs[job].ids { assert JobSound(db.rows, db.jobs[job]); }
  }

  // ---------------------------------------------------------------- a schedule of ticks

  /** One uninterrupted job at each tick. */
  function Jobs(ticks: seq<int>): seq<Event> {
    if ticks == [] then [] else [SelectExpired(0, ticks[0]), UpdateExpired(0)] + Jobs(ticks[1..])
  }

  /**
   Over any schedule, hourly or with ticks missing, a pending booking whose users stay live is expired exactly when
   some tick comes at or past its deadline.
   */
  lemma {:induction false} ExpiredIffTicked(w: World, db: Db, ticks: seq<int>, i: nat)
    requires i < |db.rows| && Waiting(db.rows[i]) && Joined(db.rows[i], db.live, EXPIRY_ROLES)
    ensures i < |Run(w, db, Jobs(ticks)).rows|
    ensures var late := exists k :: 0 <= k < |ticks| && ticks[k] >= Deadline(db.rows[i]);
            Run(w, db, Jobs(ticks)).rows[i] == if late then ExpireRow(db.rows[i]) else db.rows[i]
    decreases |ticks|
  {
    if ticks != [] {
      var job := [SelectExpired(0, ticks[0]), UpdateExpired(0)];
      RunConcat(w, db, job, Jobs(ticks[1..]));
      var next := Run(w, db, job);
      OneJob(w, db, ticks[0], i);
      if ticks[0] >= Deadline(db.rows[i]) {
        Lifecycle.ClosedForever(w, next, Jobs(ticks[1..]), i);
      } else {
        assert next.rows[i] == db.rows[i];
        ExpiredIffTicked(w, next, ticks[1..], i);
        if k :| 0 <= k < |ticks| && ticks[k] >= Deadline(db.rows[i]) { assert ticks[1..][k - 1] == ticks[k]; }
      }
    }
  }

  /** One uninterrupted job expires the row exactly when its deadline has come. */
  lemma OneJob(w: World, db: Db, now: int, i: nat)
    requires i < |db.rows| && Waiting(db.rows[i]) && Joined(db.rows[i], db.live, EXPIRY_ROLES)
    ensures var next := Run(w, db, [SelectExpired(0, now), UpdateExpired(0)]);
            && next.live == db.live && i < |next.rows|
            && next.rows[i] == if now >= Deadline(db.rows[i]) then ExpireRow(db.rows[i]) else db.rows[i]
  {
    ExpiryDueIff(db.rows[i], db.live, now);
    RunOfTwo(w, db, SelectExpired(0, now), UpdateExpired(0));
  }

  lemma RunOfTwo(w: World, db: Db, a: Event, b: Event)
    ensures Run(w, db, [a, b]) == Step(w, Step(w, db, a), b)
  {
    assert [a, b][1..] == [b] && [b][1..] == [];
    assert Run(w, Step(w, db, a), [b]) == Run(w, Step(w, Step(w, db, a), b), []);
  }
}
