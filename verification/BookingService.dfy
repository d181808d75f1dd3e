/** The booking service and the hourly jobs, as methods that update the booking table in place. */
module BookingService {
  import opened Wrappers
  import opened Pricing
  import opened Bookings
  import opened Deadlines

  /** A booking loaded by the ORM: countDown runs after every load. */
  class LoadedBooking {
    const row: Booking
    var remainingTime: Option<nat>

    constructor (row: Booking)
      ensures this.row == row && remainingTime == None
    {
      this.row := row;
      remainingTime := None;
    }

    /** The remaining time is the time to the deadline in seconds, rounded up, and 0 from the deadline on. */
    method CountDown(now: int)
      modifies this`remainingTime
      ensures row.status != Pending ==> remainingTime == old(remainingTime)
      ensures row.status == Pending ==> remainingTime == Some(RemainingSeconds(row, now))
      ensures row.status == Pending ==>
                var left := remainingTime.value;
                (left == 0 <==> now >= Deadline(row))
                && (left > 0 ==> 1000 * (left - 1) < Deadline(row) - now <= 1000 * left)
    {
      if row.status != Pending {
        return;
      }
      var effective := CONFIRM_SECONDS;
      if row.slots != [] {
        var earliest := row.slots[0];
        var k := 1;
        while k < |row.slots|
          invariant 1 <= k <= |row.slots|
          invariant EarliestOf(earliest, row.slots[k..]) == EarliestOf(row.slots[0], row.slots[1..])
        {
          if row.slots[k].start < earliest.start { earliest := row.slots[k]; }
          k := k + 1;
        }
        var untilStart := earliest.start - row.createdAt.ms;
        if untilStart < CONFIRM_SECONDS * 1000 { effective := untilStart / 1000; }
      }
      var left := effective - (now - row.createdAt.ms) / 1000;
      remainingTime := Some(if left > 0 then left else 0);
    }
  }

  class BookingTable {
    const world: World
    var rows: seq<Booking>
    var live: set<string>

    constructor (world: World, live: set<string>)
      ensures this.world == world && this.live == live && rows == []
    {
      this.world := world;
      this.live := live;
      rows := [];
    }

    /** The table and its users as the value the run theorems speak of, with the given jobs under way. */
    function View(jobs: map<nat, Job>): Db
      reads this
    {
      Db(rows, live, jobs)
    }

    method CreateBooking(request: Request, clock: Clock) returns (r: Result<Booking>)
      modifies this`rows
      ensures r == NewBooking(world, old(rows), live, request, clock)
      ensures rows == if r.Ok? then old(rows) + [r.value] else old(rows)
      ensures View(map[]) == Step(world, old(View(map[])), Create(request, clock))
    {
      if request.babysitterId !in world.babysitters || request.babysitterId !in live {
        return Err(BadRequest);
      }
      var babysitter := world.babysitters[request.babysitterId];
      var cityId := if request.cityId.Some? then request.cityId.value else babysitter.cityId;
      if !request.countryExists || cityId !in world.cities {
        return Err(BadRequest);
      }
      var number := BookingCode.CurrentNumber(CodesInMonth(rows, cityId, clock));
      var code := BookingCode.GenerateBookingCode(number, world.cities[cityId], clock.year, clock.month);
      if HasCode(rows, code) {
        return Err(DuplicateKey);
      }
      var slots, prices := [], 0;
      if request.slots.Some? {
        slots := request.slots.value;
        prices := CalculateSalary(babysitter.salary, slots);
      }
      var booking := Booking(
        code, request.babysitterId, request.parentId, cityId, InitialStatus(request.initial), slots, prices,
        clock, None, None, "", None);
      rows := rows + [booking];
      return Ok(booking);
    }

    method ConfirmBooking(id: nat, now: int) returns (r: Result<Booking>)
      modifies this`rows
      ensures View(map[]) == Step(world, old(View(map[])), Confirm(id, now))
      ensures r == if id >= |old(rows)| then Err(NotFound)
                   else if old(rows)[id].status != Pending then Err(NotPending)
                   else Ok(rows[id])
      ensures rows == if r.Ok? then old(rows)[id := old(rows)[id].(status := Confirmed, confirmedAt := Some(now))]
                      else old(rows)
    {
      if id >= |rows| {
        return Err(NotFound);
      }
      var booking := rows[id];
      if booking.status == Pending {
        booking := booking.(status := Confirmed);
      } else {
        return Err(NotPending);
      }
      booking := booking.(confirmedAt := Some(now));
      rows := rows[id := booking];
      return Ok(booking);
    }

    method CancelBooking(id: nat, canceledBy: Role, reason: string, now: int) returns (r: Result<Booking>)
      modifies this`rows
      ensures View(map[]) == Step(world, old(View(map[])), Cancel(id, canceledBy, reason, now))
      ensures r == if id >= |old(rows)| then Err(NotFound)
                   else if old(rows)[id].status !in {Pending, Confirmed} then Err(CannotBeCancelled)
                   else Ok(rows[id])
      ensures r.Err? ==> rows == old(rows)
      ensures r.Ok? ==>
                rows == old(rows)[id := old(rows)[id].(
                  status := if canceledBy == BabysitterRole then BabysitterCancel else ParentCancel,
                  isReject := Some(old(rows)[id].status == Pending), reasonCancel := reason, canceledAt := Some(now))]
    {
      if id >= |rows| {
        return Err(NotFound);
      }
      var booking := rows[id];
      if booking.status != Pending && booking.status != Confirmed {
        return Err(CannotBeCancelled);
      }
      booking := booking.(isReject := Some(booking.status == Pending));
      if canceledBy == BabysitterRole {
        booking := booking.(status := BabysitterCancel);
      } else {
        booking := booking.(status := ParentCancel);
      }
      booking := booking.(reasonCancel := reason);
      booking := booking.(canceledAt := Some(now));
      rows := rows[id := booking];
      return Ok(booking);
    }

    /** The guarded update: only rows still pending are turned over. */
    method UpdateBookingRejectAfter48Hours(ids: seq<nat>)
      modifies this`rows
      ensures |rows| == |old(rows)|
      ensures forall i :: 0 <= i < |rows| ==>
                rows[i] == if i in ids && old(rows)[i].status == Pending
                           then old(rows)[i].(status := BabysitterCancel, isReject := Some(false))
                           else old(rows)[i]
    {
      rows := Expired(rows, ids);
    }

    /** One uninterrupted expiry job expires exactly the pending, joined rows at or past their deadline. */
    method RejectedBookingAfter48Hours(now: int) returns (notified: seq<nat>)
      modifies this`rows
      ensures |rows| == |old(rows)|
      ensures forall i: nat :: i in notified <==>
                && i < |rows| && old(rows)[i].status == Pending && old(rows)[i].slots != []
                && old(rows)[i].babysitterId in live
                && old(rows)[i].parentId.Some? && old(rows)[i].parentId.value in live
                && now >= Deadline(old(rows)[i])
      ensures Increasing(notified)
      ensures forall i :: 0 <= i < |rows| ==>
                rows[i] == if i in notified then ExpireRow(old(rows)[i]) else old(rows)[i]
    {
      notified := GetReminderBooking(rows, live, 0, EXPIRY_ROLES, now);
      forall i | 0 <= i < |rows|
        ensures Due(rows[i], live, 0, EXPIRY_ROLES, now)
                <==> rows[i].status == Pending && Joined(rows[i], live, EXPIRY_ROLES) && now >= Deadline(rows[i])
      {
        ExpiryDueIff(rows[i], live, now);
      }
      UpdateBookingRejectAfter48Hours(notified);
    }

    method UpdateStatusBookingComplete(now: int)
      modifies this`rows
      ensures View(map[]) == Step(world, old(View(map[])), Complete(now))
      ensures forall i :: 0 <= i < |rows| && i < |old(rows)| ==>
                rows[i] == if old(rows)[i].status == Confirmed && !(exists s :: s in old(rows)[i].slots && s.end > now)
                           then old(rows)[i].(status := Completed)
                           else old(rows)[i]
    {
      var bookingIds := FinishedConfirmed(rows, now);
      rows := MarkCompleted(rows, bookingIds);
    }
  }
}
