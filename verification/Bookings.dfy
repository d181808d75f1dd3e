/**
 The booking table and every step that changes it, as functions on values.
 A booking's id is its position in the table. Clock readings are milliseconds; a reading used to create a
 booking also carries its local calendar year and month.
 */
module Bookings {
  import opened Wrappers
  import opened Pricing
  import BookingCode

  datatype Status = Draft | Pending | Confirmed | BabysitterCancel | ParentCancel | Completed
  datatype Role = BabysitterRole | ParentRole | ManagerRole | AdminRole

  type Year = y: nat | 1000 <= y <= 9999 witness 2024
  datatype Clock = Clock(ms: int, year: Year, month: nat)

  datatype Booking = Booking(
    bookCode: string,
    babysitterId: string,
    parentId: Option<string>,
    cityId: string,
    status: Status,
    slots: seq<Slot>,
    prices: int,
    createdAt: Clock,
    confirmedAt: Option<int>,
    canceledAt: Option<int>,
    reasonCancel: string,
    isReject: Option<bool>)

  /** What createBooking looks up outside the booking table. */
  datatype Profile = Profile(cityId: string, salary: real)
  datatype World = World(cities: map<string, nat>, babysitters: map<string, Profile>)

  /** The statuses a booking can be created in. */
  datatype Initial = AsDraft | AsPending | AsCompleted
  datatype Request = Request(
    babysitterId: string,
    parentId: Option<string>,
    cityId: Option<string>,
    countryExists: bool,
    initial: Initial,
    slots: Option<seq<Slot>>)

  // ---------------------------------------------------------------- countdown

  const CONFIRM_SECONDS := 48 * 3600

  function EarliestOf(earliest: Slot, rest: seq<Slot>): (s: Slot)
    ensures s.start <= earliest.start && forall i :: 0 <= i < |rest| ==> s.start <= rest[i].start
    ensures s == earliest || s in rest
    decreases |rest|
  {
    if rest == [] then earliest
    else EarliestOf(if rest[0].start < earliest.start then rest[0] else earliest, rest[1..])
  }

  /** Whole seconds a booking may wait: 48 hours, or less when the first slot starts sooner. */
  function EffectiveSeconds(b: Booking): int {
    if b.slots == [] then CONFIRM_SECONDS
    else
      var untilStart := EarliestOf(b.slots[0], b.slots[1..]).start - b.createdAt.ms;
      if untilStart < CONFIRM_SECONDS * 1000 then untilStart / 1000 else CONFIRM_SECONDS
  }

  function RemainingSeconds(b: Booking, now: int): nat {
    var left := EffectiveSeconds(b) - (now - b.createdAt.ms) / 1000;
    if left > 0 then left else 0
  }

  // ---------------------------------------------------------------- selecting rows for the hourly jobs

  /** The inner joins of the query: a slot, and a live user for each notified role. */
  predicate Joined(b: Booking, live: set<string>, roles: set<Role>) {
    && b.slots != []
    && (BabysitterRole in roles ==> b.babysitterId in live)
    && (ParentRole in roles ==> b.parentId.Some? && b.parentId.value in live)
  }

  predicate Due(b: Booking, live: set<string>, hours: int, roles: set<Role>, now: int) {
    && b.status == Pending
    && Joined(b, live, roles)
    && (hours - 1) * 3600 < RemainingSeconds(b, now) <= hours * 3600
  }

  predicate Increasing(ids: seq<nat>) { forall j, k :: 0 <= j < k < |ids| ==> ids[j] < ids[k] }

  /** getReminderBooking: the ids, each once and in table order, of the pending rows in the window. */
  function GetReminderBooking(
      rows: seq<Booking>, live: set<string>, hours: int, roles: set<Role>, now: int): (ids: seq<nat>)
    ensures forall i: nat :: i in ids <==> i < |rows| && Due(rows[i], live, hours, roles, now)
    ensures Increasing(ids)
  {
    if rows == [] then []
    else
      var last := |rows| - 1;
      var before := GetReminderBooking(rows[..last], live, hours, roles, now);
      assert forall i: nat :: i in before ==> i < last;
      assert forall j :: 0 <= j < |before| ==> before[j] in before && before[j] < last;
      before + if Due(rows[last], live, hours, roles, now) then [last] else []
  }

  // ---------------------------------------------------------------- row updates

  function ConfirmRow(b: Booking, now: int): Booking { b.(status := Confirmed, confirmedAt := Some(now)) }

  function CancelRow(b: Booking, canceledBy: Role, reason: string, now: int): Booking {
    b.(isReject := Some(b.status == Pending),
       status := if canceledBy == BabysitterRole then BabysitterCancel else ParentCancel,
       reasonCancel := reason,
       canceledAt := Some(now))
  }

  function ExpireRow(b: Booking): Booking { b.(status := BabysitterCancel, isReject := Some(false)) }

  /** NOT EXISTS (a slot that ends after now). */
  predicate Finished(b: Booking, now: int) { forall s :: s in b.slots ==> s.end <= now }

  predicate CanCancel(b: Booking) { b.status == Pending || b.status == Confirmed }

  function Expired(rows: seq<Booking>, ids: seq<nat>): (r: seq<Booking>)
    ensures |r| == |rows|
  {
    seq(|rows|, i requires 0 <= i < |rows| =>
      if i in ids && rows[i].status == Pending then ExpireRow(rows[i]) else rows[i])
  }

  /** The update of the completion job: no status guard. */
  function MarkCompleted(rows: seq<Booking>, ids: seq<nat>): (r: seq<Booking>)
    ensures |r| == |rows|
  {
    seq(|rows|, i requires 0 <= i < |rows| => if i in ids then rows[i].(status := Completed) else rows[i])
  }

  function FinishedConfirmed(rows: seq<Booking>, now: int): (ids: seq<nat>)
    ensures forall i: nat :: i in ids <==> i < |rows| && rows[i].status == Confirmed && Finished(rows[i], now)
    ensures Increasing(ids)
  {
    if rows == [] then []
    else
      var last := |rows| - 1;
      var before := FinishedConfirmed(rows[..last], now);
      assert forall i: nat :: i in before ==> i < last;
      assert forall j :: 0 <= j < |before| ==> before[j] in before && before[j] < last;
      before + if rows[last].status == Confirmed && Finished(rows[last], now) then [last] else []
  }

  // ---------------------------------------------------------------- createBooking

  predicate SameMonth(b: Booking, cityId: string, now: Clock) {
    b.cityId == cityId && b.createdAt.year == now.year && b.createdAt.month == now.month
  }

  /** The codes matched by getCurrentBookingCode's query. */
  function CodesInMonth(rows: seq<Booking>, cityId: string, now: Clock): seq<string> {
    if rows == [] then []
    else
      var last := |rows| - 1;
      CodesInMonth(rows[..last], cityId, now)
      + if SameMonth(rows[last], cityId, now) then [rows[last].bookCode] else []
  }

  function NextCode(rows: seq<Booking>, cityId: string, cityCode: nat, now: Clock): string {
    BookingCode.GenerateBookingCode(
      BookingCode.CurrentNumber(CodesInMonth(rows, cityId, now)), cityCode, now.year, now.month)
  }

  predicate HasCode(rows: seq<Booking>, code: string) { exists i :: 0 <= i < |rows| && rows[i].bookCode == code }

  function InitialStatus(i: Initial): Status {
    match i
    case AsDraft => Draft
    case AsPending => Pending
    case AsCompleted => Completed
  }

  function CityOf(w: World, request: Request): string
    requires request.babysitterId in w.babysitters
  {
    if request.cityId.Some? then request.cityId.value else w.babysitters[request.babysitterId].cityId
  }

  /** The lookups of createBooking succeed: a live babysitter, a country and a city. */
  predicate Acceptable(w: World, live: set<string>, request: Request) {
    && request.babysitterId in w.babysitters && request.babysitterId in live
    && request.countryExists && CityOf(w, request) in w.cities
  }

  /** The row createBooking hands to the database, with the code it allocated. */
  function Candidate(w: World, rows: seq<Booking>, request: Request, now: Clock): Booking
    requires request.babysitterId in w.babysitters && CityOf(w, request) in w.cities
  {
    var city, slots := CityOf(w, request), request.slots;
    Booking(
      NextCode(rows, city, w.cities[city], now), request.babysitterId, request.parentId, city,
      InitialStatus(request.initial),
      if slots.Some? then slots.value else [],
      if slots.Some? then CalculateSalary(w.babysitters[request.babysitterId].salary, slots.value) else 0,
      now, None, None, "", None)
  }

  /** The row createBooking inserts, or why it does not: bookCode is a unique column. */
  function NewBooking(w: World, rows: seq<Booking>, live: set<string>, request: Request, now: Clock): Result<Booking> {
    if !Acceptable(w, live, request) then Err(BadRequest)
    else
      var b := Candidate(w, rows, request, now);
      if HasCode(rows, b.bookCode) then Err(DuplicateKey) else Ok(b)
  }

  /**
   What a new booking holds: the status asked for, the request's users and slots, its city or else the sitter's, the
   sitter's rate for the paid time of the slots, rounded once, and no trace of a later step.
   */
  lemma NewBookingHolds(w: World, rows: seq<Booking>, live: set<string>, request: Request, now: Clock)
    requires NewBooking(w, rows, live, request, now).Ok?
    ensures var b := NewBooking(w, rows, live, request, now).value;
            && (match request.initial
                case AsDraft => b.status == Draft
                case AsPending => b.status == Pending
                case AsCompleted => b.status == Completed)
            && b.babysitterId == request.babysitterId && b.parentId == request.parentId && b.createdAt == now
            && request.babysitterId in w.babysitters
            && (match request.cityId
                case Some(city) => b.cityId == city
                case None => b.cityId == w.babysitters[request.babysitterId].cityId)
            && (match request.slots
                case Some(slots) =>
                  && b.slots == slots
                  && b.prices == Round(Pay(PaidMsOf(slots), w.babysitters[request.babysitterId].salary))
                case None => b.slots == [] && b.prices == 0)
            && b.confirmedAt == None && b.canceledAt == None && b.isReject == None && b.reasonCancel == ""
  {
    if request.slots.Some? { PriceOfPaidTime(w.babysitters[request.babysitterId].salary, request.slots.value); }
  }

  /** createBooking refuses a request exactly for a missing or deleted sitter, country or city, or for a code in use. */
  lemma NewBookingRefusedIff(w: World, rows: seq<Booking>, live: set<string>, request: Request, now: Clock)
    ensures var r, sitter := NewBooking(w, rows, live, request, now), request.babysitterId;
            && (r == Err(BadRequest)
                <==> sitter !in w.babysitters || sitter !in live || !request.countryExists
                     || (if request.cityId.Some? then request.cityId.value else w.babysitters[sitter].cityId)
                          !in w.cities)
            && (r.Err? ==> r.error == BadRequest || r.error == DuplicateKey)
            && (r.Ok? ==> forall i :: 0 <= i < |rows| ==> rows[i].bookCode != r.value.bookCode)
  {}

  // ---------------------------------------------------------------- steps and runs

  /** An expiry job that has selected its rows and not yet updated them. */
  datatype Job = Job(selectedAt: int, ids: seq<nat>)

  datatype Db = Db(rows: seq<Booking>, live: set<string>, jobs: map<nat, Job>)

  datatype Event =
    | Create(request: Request, clock: Clock)
    | Confirm(id: nat, now: int)
    | Cancel(id: nat, canceledBy: Role, reason: string, now: int)
    | SelectExpired(job: nat, now: int)
    | UpdateExpired(job: nat)
    | Complete(now: int)
    | UserChange(user: string, isLive: bool)

  const EXPIRY_ROLES := {BabysitterRole, ParentRole}

  function RowsAfter(w: World, db: Db, e: Event): seq<Booking> {
    match e
    case Create(request, clock) =>
      var r := NewBooking(w, db.rows, db.live, request, clock);
      if r.Ok? then db.rows + [r.value] else db.rows
    case Confirm(id, now) =>
      if id < |db.rows| && db.rows[id].status == Pending then db.rows[id := ConfirmRow(db.rows[id], now)] else db.rows
    case Cancel(id, canceledBy, reason, now) =>
      if id < |db.rows| && CanCancel(db.rows[id]) then db.rows[id := CancelRow(db.rows[id], canceledBy, reason, now)]
      else db.rows
    case UpdateExpired(job) => if job in db.jobs then Expired(db.rows, db.jobs[job].ids) else db.rows
    case Complete(now) => MarkCompleted(db.rows, FinishedConfirmed(db.rows, now))
    case SelectExpired(_, _) => db.rows
    case UserChange(_, _) => db.rows
  }

  function JobsAfter(db: Db, e: Event): map<nat, Job> {
    match e
    case SelectExpired(job, now) =>
      db.jobs[job := Job(now, GetReminderBooking(db.rows, db.live, 0, EXPIRY_ROLES, now))]
    case UpdateExpired(job) => db.jobs - {job}
    case Create(_, _) => db.jobs
    case Confirm(_, _) => db.jobs
    case Cancel(_, _, _, _) => db.jobs
    case Complete(_) => db.jobs
    case UserChange(_, _) => db.jobs
  }

  function Step(w: World, db: Db, e: Event): Db {
    Db(RowsAfter(w, db, e),
       if e.UserChange? then (if e.isLive then db.live + {e.user} else db.live - {e.user}) else db.live,
       JobsAfter(db, e))
  }

  function Run(w: World, db: Db, es: seq<Event>): Db
    decreases |es|
  {
    if es == [] then db else Run(w, Step(w, db, es[0]), es[1..])
  }

  function Empty(live: set<string>): Db { Db([], live, map[]) }

  lemma {:induction false} RunConcat(w: World, db: Db, a: seq<Event>, b: seq<Event>)
    ensures Run(w, db, a + b) == Run(w, Run(w, db, a), b)
    decreases |a|
  {
    if a == [] {
      assert a + b == b;
    } else {
      RunConcat(w, Step(w, db, a[0]), a[1..], b);
      assert (a + b)[1..] == a[1..] + b;
    }
  }

  /** Which users are live: the last change of a user decides. */
  lemma {:induction false} LiveAfterRun(w: World, db: Db, es: seq<Event>, user: string)
    ensures user in Run(w, db, es).live <==> LastSays(es, user, user in db.live)
    decreases |es|
  {
    if es != [] { LiveAfterRun(w, Step(w, db, es[0]), es[1..], user); }
  }

  predicate LastSays(es: seq<Event>, user: string, otherwise: bool)
    decreases |es|
  {
    if es == [] then otherwise
    else LastSays(es[1..], user, if es[0].UserChange? && es[0].user == user then es[0].isLive else otherwise)
  }

  /** What no step changes in a row that exists. */
  predicate SameIdentity(a: Booking, b: Booking) {
    && a.bookCode == b.bookCode && a.babysitterId == b.babysitterId && a.parentId == b.parentId && a.cityId == b.cityId
    && a.slots == b.slots && a.prices == b.prices && a.createdAt == b.createdAt
  }

  lemma StepKeepsRows(w: World, db: Db, e: Event)
    ensures |db.rows| <= |Step(w, db, e).rows| <= |db.rows| + 1
    ensures |Step(w, db, e).rows| > |db.rows| ==> e.Create?
    ensures forall i :: 0 <= i < |db.rows| ==> SameIdentity(db.rows[i], Step(w, db, e).rows[i])
  {}

  /** Rows are never removed, and keep their identity columns over every run. */
  lemma {:induction false} RunKeepsRows(w: World, db: Db, es: seq<Event>)
    ensures |db.rows| <= |Run(w, db, es).rows|
    ensures forall i :: 0 <= i < |db.rows| ==> SameIdentity(db.rows[i], Run(w, db, es).rows[i])
    decreases |es|
  {
    if es != [] {
      StepKeepsRows(w, db, es[0]);
      RunKeepsRows(w, Step(w, db, es[0]), es[1..]);
    }
  }
}
