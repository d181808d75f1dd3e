/** When the hourly jobs pick a pending booking: the deadline behind countDown, and the reminder windows. */
module Deadlines {
  import opened Wrappers
  import opened Pricing
  import opened Bookings

  const TICK_MS := 3_600_000

  /** The first millisecond at which the remaining time is 0. */
  function Deadline(b: Booking): int { b.createdAt.ms + 1000 * EffectiveSeconds(b) }

  /** 48 hours after creation, or the first start if that is sooner: the deadline without whole-second rounding. */
  function ExactDeadline(b: Booking): int {
    var limit := b.createdAt.ms + 172_800_000;
    if b.slots == [] then limit
    else
      var start := EarliestOf(b.slots[0], b.slots[1..]).start;
      if start < limit then start else limit
  }

  /** The expiry job selects exactly the pending, joined rows whose deadline has come. */
  lemma ExpiryDueIff(b: Booking, live: set<string>, now: int)
    ensures Due(b, live, 0, EXPIRY_ROLES, now)
            <==> b.status == Pending && Joined(b, live, EXPIRY_ROLES) && now >= Deadline(b)
  {
    var elapsed := now - b.createdAt.ms;
    assert elapsed / 1000 >= EffectiveSeconds(b) <==> elapsed >= 1000 * EffectiveSeconds(b);
  }

  /** Rounding down to whole seconds brings the deadline forward by less than a second. */
  lemma DeadlineRounding(b: Booking)
    ensures ExactDeadline(b) - 1000 < Deadline(b) <= ExactDeadline(b)
    ensures Deadline(b) == ExactDeadline(b) <==> (ExactDeadline(b) - b.createdAt.ms) % 1000 == 0
  {}

  /** Expiry never fires before the exact deadline just when that is a whole number of seconds after creation. */
  lemma NeverEarlyIff(b: Booking, live: set<string>)
    requires b.status == Pending && Joined(b, live, EXPIRY_ROLES)
    ensures (forall now :: Due(b, live, 0, EXPIRY_ROLES, now) ==> now >= ExactDeadline(b))
            <==> (ExactDeadline(b) - b.createdAt.ms) % 1000 == 0
  {
    DeadlineRounding(b);
    forall now
      ensures Due(b, live, 0, EXPIRY_ROLES, now) ==> now >= Deadline(b)
    {
      ExpiryDueIff(b, live, now);
    }
    ExpiryDueIff(b, live, Deadline(b));
  }

  /** A valid slot an hour and a half ahead, plus half a second. */
  function LateSlot(now: int): Slot { Slot(now + 5_400_500, now + 5_400_500 + MINIMUM_WORKING_HOURS * HOUR_MS, false) }

  /**
   Whoever requests such a slot in an empty table gets a pending booking that, with both users live, is due for
   expiry half a second before it starts.
   */
  lemma ExpiryCanBeEarly(w: World, live: set<string>, request: Request, clock: Clock)
    requires Acceptable(w, live, request) && request.initial == AsPending
    requires request.slots == Some([LateSlot(clock.ms)])
    requires request.parentId.Some? && request.parentId.value in live
    ensures LongEnough(LateSlot(clock.ms)) && LateSlot(clock.ms).start - clock.ms >= HOUR_MS
    ensures var rows := Step(w, Empty(live), Create(request, clock)).rows;
            |rows| == 1 && rows[0].slots == [LateSlot(clock.ms)]
            && Due(rows[0], live, 0, EXPIRY_ROLES, LateSlot(clock.ms).start - 500)
  {
    var b := Candidate(w, [], request, clock);
    var slot := LateSlot(clock.ms);
    assert b.slots == [slot] && EarliestOf(slot, b.slots[1..]) == slot;
    assert slot.start - clock.ms == 5_400_500 && EffectiveSeconds(b) == 5_400;
    ExpiryDueIff(b, live, slot.start - 500);
  }

  // ---------------------------------------------------------------- reminders

  const REMINDER_ROLES := {BabysitterRole}

  /** How often a list names i. */
  function Times(ids: seq<nat>, i: nat): nat { multiset(ids)[i] }

  /** How often each of the ticks first, first + 1 h, ... reminds of booking i, given the table each tick sees. */
  function Notices(seen: seq<Db>, i: nat, hours: int, first: int): seq<nat> {
    seq(|seen|, k requires 0 <= k < |seen| =>
      Times(GetReminderBooking(seen[k].rows, seen[k].live, hours, REMINDER_ROLES, first + k * TICK_MS), i))
  }

  function Sum(counts: seq<nat>): nat { if counts == [] then 0 else Sum(counts[..|counts| - 1]) + counts[|counts| - 1] }

  function Reminders(seen: seq<Db>, i: nat, hours: int, first: int): nat { Sum(Notices(seen, i, hours, first)) }

  lemma {:induction false} ListedOnce(ids: seq<nat>, i: nat)
    requires Increasing(ids)
    ensures Times(ids, i) == if i in ids then 1 else 0
  {
    if ids != [] {
      var last := |ids| - 1;
      assert ids == ids[..last] + [ids[last]];
      ListedOnce(ids[..last], i);
    }
  }

  /** The reminders select pending bookings with a slot and a live sitter, whatever became of the parent. */
  lemma RemindedIff(b: Booking, live: set<string>, hours: int, now: int)
    ensures Due(b, live, hours, REMINDER_ROLES, now)
            <==> b.status == Pending && b.slots != [] && b.babysitterId in live
                 && (hours - 1) * 3600 < RemainingSeconds(b, now) <= hours * 3600
  {}

  /** A booking whose sitter or parent is deleted, or that has no slot, is not expired while that is so. */
  lemma SelectedForExpiryIff(b: Booking, live: set<string>, now: int)
    ensures Due(b, live, 0, EXPIRY_ROLES, now)
            <==> b.status == Pending && b.slots != [] && b.babysitterId in live
                 && b.parentId.Some? && b.parentId.value in live && now >= Deadline(b)
  {
    ExpiryDueIff(b, live, now);
  }

  /** Booking i is still the pending row b, with its sitter live, at every tick. */
  predicate StaysPending(seen: seq<Db>, i: nat, b: Booking) {
    && b.status == Pending
    && forall k :: 0 <= k < |seen| ==>
         i < |seen[k].rows| && seen[k].rows[i] == b && Joined(b, seen[k].live, REMINDER_ROLES)
  }

  lemma RemainingAfterTicks(b: Booking, first: int, k: nat)
    ensures var r := RemainingSeconds(b, first);
            RemainingSeconds(b, first + k * TICK_MS) == if r > 3600 * k then r - 3600 * k else 0
  {
    var elapsed := first - b.createdAt.ms;
    assert (elapsed + k * TICK_MS) / 1000 == elapsed / 1000 + 3600 * k;
  }

  /**
   With hourly ticks a booking that stays pending is reminded exactly once in the window of w hours if more than
   w - 1 hours remain at the first tick, at the tick that many hours later, and never otherwise.
   */
  lemma RemindedExactlyOnce(seen: seq<Db>, i: nat, b: Booking, hours: int, first: int)
    requires hours >= 1 && StaysPending(seen, i, b)
    ensures var spare := RemainingSeconds(b, first) - (hours - 1) * 3600;
            Reminders(seen, i, hours, first) == if spare > 0 && (spare - 1) / 3600 < |seen| then 1 else 0
  {
    var tick, counts := ReminderTick(b, hours, first), Notices(seen, i, hours, first);
    forall k | 0 <= k < |seen| ensures counts[k] == if k == tick then 1 else 0 {
      RemindedAtTick(seen[k], i, b, hours, first, k);
    }
    SumOfOne(counts, tick);
  }

  lemma {:induction false} SumOfOne(counts: seq<nat>, tick: int)
    requires forall k :: 0 <= k < |counts| ==> counts[k] == if k == tick then 1 else 0
    ensures Sum(counts) == if 0 <= tick < |counts| then 1 else 0
  {
    if counts != [] { SumOfOne(counts[..|counts| - 1], tick); }
  }

  /** The one tick that reminds, or -1. */
  function ReminderTick(b: Booking, hours: int, first: int): (t: int)
    ensures t >= -1
  {
    var spare := RemainingSeconds(b, first) - (hours - 1) * 3600;
    if spare > 0 then (spare - 1) / 3600 else -1
  }

  /** What one tick contributes. */
  lemma RemindedAtTick(db: Db, i: nat, b: Booking, hours: int, first: int, k: nat)
    requires hours >= 1 && b.status == Pending
    requires i < |db.rows| && db.rows[i] == b && Joined(b, db.live, REMINDER_ROLES)
    ensures Times(GetReminderBooking(db.rows, db.live, hours, REMINDER_ROLES, first + k * TICK_MS), i)
            == if k == ReminderTick(b, hours, first) then 1 else 0
  {
    RemainingAfterTicks(b, first, k);
    ListedOnce(GetReminderBooking(db.rows, db.live, hours, REMINDER_ROLES, first + k * TICK_MS), i);
    var spare := RemainingSeconds(b, first) - (hours - 1) * 3600;
    assert Due(b, db.live, hours, REMINDER_ROLES, first + k * TICK_MS) <==> 3600 * k < spare <= 3600 * k + 3600;
    assert 3600 * k < spare <= 3600 * k + 3600 <==> spare > 0 && (spare - 1) / 3600 == k;
  }
}
