/** The points ledger of babysitters: a running total, a log, and daily caps. Amounts are in tenths of a point. */
module Points {
  import opened Wrappers

  datatype Kind = Login | Comment | Post | Rating

  datatype Point = Point(sitter: string, total: int)
  datatype Log = Log(pointId: nat, kind: Kind, added: int, after: int, day: int)
  datatype Ledger = Ledger(points: seq<Point>, logs: seq<Log>)

  /** A call of addPoint on a calendar day; the rating, in tenths, matters for Rating only. */
  datatype Event = Event(sitter: string, kind: Kind, rating: int, day: int)

  const MAX_PER_DAY := 5

  function Cap(kind: Kind): nat
    requires kind != Rating
  {
    if kind == Login then 1 else MAX_PER_DAY
  }

  function Amount(e: Event): int {
    match e.kind
    case Login => 1
    case Comment => 2
    case Post => 5
    case Rating => e.rating
  }

  predicate ValidRating(rating: int) { 10 <= rating <= 50 }

  /** findOne by babysitter: the row's position. */
  function FindPoint(points: seq<Point>, sitter: string): (r: Option<nat>)
    ensures r.Some? ==> r.value < |points| && points[r.value].sitter == sitter
    ensures r.None? ==> forall i :: 0 <= i < |points| ==> points[i].sitter != sitter
  {
    if points == [] then None
    else
      var last := |points| - 1;
      var r := FindPoint(points[..last], sitter);
      if r.Some? then r else if points[last].sitter == sitter then Some(last) else None
  }

  /** Logs of a kind on a day, joined to the sitter's point row. */
  function CountLogs(points: seq<Point>, logs: seq<Log>, sitter: string, kind: Kind, day: int): nat {
    if logs == [] then 0
    else
      var l := logs[|logs| - 1];
      CountLogs(points, logs[..|logs| - 1], sitter, kind, day)
      + if l.pointId < |points| && points[l.pointId].sitter == sitter && l.kind == kind && l.day == day then 1 else 0
  }

  function Upserted(points: seq<Point>, sitter: string, added: int): seq<Point> {
    match FindPoint(points, sitter)
    case Some(p) => points[p := Point(sitter, points[p].total + added)]
    case None => points + [Point(sitter, added)]
  }

  function PointId(points: seq<Point>, sitter: string): nat {
    match FindPoint(points, sitter)
    case Some(p) => p
    case None => |points|
  }

  function Award(ledger: Ledger, e: Event): Ledger {
    var points, id := Upserted(ledger.points, e.sitter, Amount(e)), PointId(ledger.points, e.sitter);
    Ledger(points, ledger.logs + [Log(id, e.kind, Amount(e), points[id].total, e.day)])
  }

  predicate Refused(ledger: Ledger, e: Event) {
    if e.kind == Rating then !ValidRating(e.rating)
    else CountLogs(ledger.points, ledger.logs, e.sitter, e.kind, e.day) >= Cap(e.kind)
  }

  function AddPoint(ledger: Ledger, e: Event): Ledger { if Refused(ledger, e) then ledger else Award(ledger, e) }

  function Run(es: seq<Event>): Ledger {
    if es == [] then Ledger([], []) else AddPoint(Run(es[..|es| - 1]), es[|es| - 1])
  }

  // ---------------------------------------------------------------- the ledger invariant

  function SumOf(logs: seq<Log>, pointId: nat): int {
    if logs == [] then 0
    else SumOf(logs[..|logs| - 1], pointId) + if logs[|logs| - 1].pointId == pointId then logs[|logs| - 1].added else 0
  }

  /** One row per sitter, each total the sum of its log, each log's pointAfter the prefix sum up to it. */
  predicate Balanced(ledger: Ledger) {
    && (forall p, q :: 0 <= p < q < |ledger.points| ==> ledger.points[p].sitter != ledger.points[q].sitter)
    && (forall p :: 0 <= p < |ledger.points| ==> ledger.points[p].total == SumOf(ledger.logs, p))
    && (forall k :: 0 <= k < |ledger.logs| ==>
          && ledger.logs[k].pointId < |ledger.points|
          && ledger.logs[k].after == SumOf(ledger.logs[..k + 1], ledger.logs[k].pointId))
  }

  lemma {:induction false} NoLogsNoSum(logs: seq<Log>, p: nat)
    requires forall k :: 0 <= k < |logs| ==> logs[k].pointId < p
    ensures SumOf(logs, p) == 0
  {
    if logs != [] { NoLogsNoSum(logs[..|logs| - 1], p); }
  }

  lemma PrefixSumsKept(ledger: Ledger, next: Ledger, k: nat)
    requires Balanced(ledger) && |ledger.points| <= |next.points| && ledger.logs <= next.logs && k < |ledger.logs|
    ensures next.logs[k].pointId < |next.points|
    ensures next.logs[k].after == SumOf(next.logs[..k + 1], next.logs[k].pointId)
  {
    assert next.logs[..k + 1] == ledger.logs[..k + 1];
  }

  lemma SumsAfterAward(ledger: Ledger, e: Event, p: nat)
    requires Balanced(ledger) && p < |Award(ledger, e).points|
    ensures Award(ledger, e).points[p].total == SumOf(Award(ledger, e).logs, p)
  {
    var next := Award(ledger, e);
    assert next.logs[..|ledger.logs|] == ledger.logs;
    NoLogsNoSum(ledger.logs, |ledger.points|);
  }

  lemma AwardKeepsBalance(ledger: Ledger, e: Event)
    requires Balanced(ledger)
    ensures Balanced(Award(ledger, e))
  {
    var next, last := Award(ledger, e), |ledger.logs|;
    forall p | 0 <= p < |next.points| ensures next.points[p].total == SumOf(next.logs, p) {
      SumsAfterAward(ledger, e, p);
    }
    forall k | 0 <= k < |next.logs|
      ensures next.logs[k].pointId < |next.points|
      ensures next.logs[k].after == SumOf(next.logs[..k + 1], next.logs[k].pointId)
    {
      if k < last { PrefixSumsKept(ledger, next, k); } else { assert next.logs[..k + 1] == next.logs; }
    }
  }

  /** After any interleaving of events for any sitters the ledger is balanced. */
  lemma {:induction false} RunIsBalanced(es: seq<Event>)
    ensures Balanced(Run(es))
  {
    if es != [] {
      RunIsBalanced(es[..|es| - 1]);
      var before, e := Run(es[..|es| - 1]), es[|es| - 1];
      if !Refused(before, e) { AwardKeepsBalance(before, e); }
    }
  }

  // ---------------------------------------------------------------- daily caps

  /** How often a sitter earned for a kind on a day, capped or not. */
  function CountEvents(es: seq<Event>, sitter: string, kind: Kind, day: int): nat {
    if es == [] then 0
    else
      var e := es[|es| - 1];
      CountEvents(es[..|es| - 1], sitter, kind, day)
      + if e.sitter == sitter && e.kind == kind && e.day == day then 1 else 0
  }

  function Min(a: nat, b: nat): nat { if a < b then a else b }

  lemma {:induction false} CountLogsFrame(
      points: seq<Point>, more: seq<Point>, logs: seq<Log>, sitter: string, kind: Kind, day: int)
    requires |points| <= |more| && forall p :: 0 <= p < |points| ==> points[p].sitter == more[p].sitter
    requires forall k :: 0 <= k < |logs| ==> logs[k].pointId < |points|
    ensures CountLogs(more, logs, sitter, kind, day) == CountLogs(points, logs, sitter, kind, day)
  {
    if logs != [] { CountLogsFrame(points, more, logs[..|logs| - 1], sitter, kind, day); }
  }

  lemma CountAfterAward(ledger: Ledger, e: Event, sitter: string, kind: Kind, day: int)
    requires Balanced(ledger)
    ensures var next := Award(ledger, e);
            CountLogs(next.points, next.logs, sitter, kind, day)
            == CountLogs(ledger.points, ledger.logs, sitter, kind, day)
               + if e.sitter == sitter && e.kind == kind && e.day == day then 1 else 0
  {
    var next := Award(ledger, e);
    assert next.logs[..|ledger.logs|] == ledger.logs;
    CountLogsFrame(ledger.points, next.points, ledger.logs, sitter, kind, day);
  }

  /** Every day a sitter is paid for the first login, five comments and five posts, and for nothing beyond. */
  lemma {:induction false} CapsAreExact(es: seq<Event>, sitter: string, kind: Kind, day: int)
    requires kind != Rating
    ensures CountLogs(Run(es).points, Run(es).logs, sitter, kind, day)
            == Min(Cap(kind), CountEvents(es, sitter, kind, day))
  {
    if es != [] {
      var before, e := Run(es[..|es| - 1]), es[|es| - 1];
      CapsAreExact(es[..|es| - 1], sitter, kind, day);
      RunIsBalanced(es[..|es| - 1]);
      CountAfterAward(before, e, sitter, kind, day);
    }
  }

  /** The limits in numbers: one login, five comments and five posts a day. */
  lemma DailyLimits(es: seq<Event>, sitter: string, day: int)
    ensures var ledger := Run(es);
            && CountLogs(ledger.points, ledger.logs, sitter, Login, day) <= 1
            && CountLogs(ledger.points, ledger.logs, sitter, Comment, day) <= 5
            && CountLogs(ledger.points, ledger.logs, sitter, Post, day) <= 5
    ensures CountEvents(es, sitter, Login, day) >= 1 ==>
              CountLogs(Run(es).points, Run(es).logs, sitter, Login, day) == 1
    ensures CountEvents(es, sitter, Comment, day) >= 5 ==>
              CountLogs(Run(es).points, Run(es).logs, sitter, Comment, day) == 5
    ensures CountEvents(es, sitter, Post, day) >= 5 ==>
              CountLogs(Run(es).points, Run(es).logs, sitter, Post, day) == 5
  {
    CapsAreExact(es, sitter, Login, day);
    CapsAreExact(es, sitter, Comment, day);
    CapsAreExact(es, sitter, Post, day);
  }

  // ---------------------------------------------------------------- what a sitter's total is

  /** The ratings of a run that count: between 1 and 5. */
  function RatingsOf(es: seq<Event>, sitter: string): int {
    if es == [] then 0
    else
      var e := es[|es| - 1];
      RatingsOf(es[..|es| - 1], sitter)
      + if e.sitter == sitter && e.kind == Rating && 10 <= e.rating <= 50 then e.rating else 0
  }

  /** The capped daily earnings of a day. */
  function DayPay(es: seq<Event>, sitter: string, day: int): nat {
    Min(1, CountEvents(es, sitter, Login, day))
    + 2 * Min(5, CountEvents(es, sitter, Comment, day))
    + 5 * Min(5, CountEvents(es, sitter, Post, day))
  }

  function DaysPay(es: seq<Event>, sitter: string, first: int, days: nat): nat {
    if days == 0 then 0 else DaysPay(es, sitter, first, days - 1) + DayPay(es, sitter, first + days - 1)
  }

  function TotalOf(ledger: Ledger, sitter: string): int {
    match FindPoint(ledger.points, sitter)
    case Some(p) => ledger.points[p].total
    case None => 0
  }

  lemma TotalAfterAward(ledger: Ledger, e: Event, sitter: string)
    requires Balanced(ledger)
    ensures TotalOf(Award(ledger, e), sitter) == TotalOf(ledger, sitter) + if e.sitter == sitter then Amount(e) else 0
  {
    AwardKeepsBalance(ledger, e);
    var next := Award(ledger, e).points;
    var f, g := FindPoint(ledger.points, sitter), FindPoint(next, sitter);
    if f.Some? {
      assert next[f.value].sitter == sitter;
    } else if e.sitter == sitter {
      assert next[|ledger.points|].sitter == sitter;
    }
  }

  lemma {:induction false} PayOfOtherDays(es: seq<Event>, more: seq<Event>, sitter: string, first: int, days: nat)
    requires forall day, kind :: first <= day < first + days && kind != Rating ==>
               CountEvents(es, sitter, kind, day) == CountEvents(more, sitter, kind, day)
    ensures DaysPay(es, sitter, first, days) == DaysPay(more, sitter, first, days)
  {
    if days > 0 { PayOfOtherDays(es, more, sitter, first, days - 1); }
  }

  /** One more event changes the pay of its own day only. */
  lemma {:induction false} PayAfterEvent(es: seq<Event>, e: Event, sitter: string, first: int, days: nat)
    requires first <= e.day < first + days
    ensures DaysPay(es + [e], sitter, first, days)
            == DaysPay(es, sitter, first, days) + DayPay(es + [e], sitter, e.day) - DayPay(es, sitter, e.day)
  {
    assert (es + [e])[..|es|] == es;
    if e.day == first + days - 1 {
      PayOfOtherDays(es, es + [e], sitter, first, days - 1);
    } else {
      PayAfterEvent(es, e, sitter, first, days - 1);
    }
  }

  /**
   Over any run whose events fall into a range of days, a sitter's total is exactly the capped pay of those days plus
   the valid ratings received.
   */
  lemma {:induction false} TotalIsPayPlusRatings(es: seq<Event>, sitter: string, first: int, days: nat)
    requires forall k :: 0 <= k < |es| ==> first <= es[k].day < first + days
    ensures TotalOf(Run(es), sitter) == DaysPay(es, sitter, first, days) + RatingsOf(es, sitter)
  {
    if es == [] {
      NoPayWithoutEvents(sitter, first, days);
    } else {
      var init, e := es[..|es| - 1], es[|es| - 1];
      assert es == init + [e];
      TotalIsPayPlusRatings(init, sitter, first, days);
      RunIsBalanced(init);
      PayAfterEvent(init, e, sitter, first, days);
      PayOfEvent(init, e, sitter);
      if !Refused(Run(init), e) { TotalAfterAward(Run(init), e, sitter); }
    }
  }

  /** An event raises its day's pay by what the ledger awards for it, ratings apart. */
  lemma PayOfEvent(es: seq<Event>, e: Event, sitter: string)
    ensures DayPay(es + [e], sitter, e.day) - DayPay(es, sitter, e.day)
            == if e.sitter == sitter && e.kind != Rating && !Refused(Run(es), e) then Amount(e) else 0
  {
    assert (es + [e])[..|es|] == es;
    if e.kind != Rating { CapsAreExact(es, e.sitter, e.kind, e.day); }
  }

  lemma {:induction false} NoPayWithoutEvents(sitter: string, first: int, days: nat)
    ensures DaysPay([], sitter, first, days) == 0
  {
    if days > 0 { NoPayWithoutEvents(sitter, first, days - 1); }
  }

  lemma {:induction false} DaysPayBound(es: seq<Event>, sitter: string, first: int, days: nat)
    ensures DaysPay(es, sitter, first, days) <= 36 * days
  {
    if days > 0 { DaysPayBound(es, sitter, first, days - 1); }
  }

  /** After D days a total is at most 3.6 points a day plus the ratings received. */
  lemma TotalBound(es: seq<Event>, sitter: string, first: int, days: nat)
    requires forall k :: 0 <= k < |es| ==> first <= es[k].day < first + days
    ensures TotalOf(Run(es), sitter) <= 36 * days + RatingsOf(es, sitter)
  {
    TotalIsPayPlusRatings(es, sitter, first, days);
    DaysPayBound(es, sitter, first, days);
  }

  // ---------------------------------------------------------------- the service

  class PointService {
    var points: seq<Point>
    var logs: seq<Log>

    function View(): Ledger
      reads this
    {
      Ledger(points, logs)
    }

    /** Adds to the sitter's row, or inserts it. */
    method UpsertPoint(sitter: string, added: int) returns (id: nat)
      modifies this`points
      ensures points == Upserted(old(points), sitter, added)
      ensures id == PointId(old(points), sitter) && id < |points|
    {
      match FindPoint(points, sitter)
      case Some(p) =>
        points := points[p := Point(sitter, points[p].total + added)];
        return p;
      case None =>
        points := points + [Point(sitter, added)];
        return |points| - 1;
    }

    method SaveAward(e: Event)
      modifies this
      ensures View() == Award(old(View()), e)
    {
      var id := UpsertPoint(e.sitter, Amount(e));
      logs := logs + [Log(id, e.kind, Amount(e), points[id].total, e.day)];
    }

    method TypeLogin(e: Event)
      requires e.kind == Login
      modifies this
      ensures View() == AddPoint(old(View()), e)
    {
      var isExist := CountLogs(points, logs, e.sitter, Login, e.day) > 0;
      if isExist {
        return;
      }
      SaveAward(e);
    }

    /** typeComment and typePost, which share the cap. */
    method TypeCapped(e: Event)
      requires e.kind == Comment || e.kind == Post
      modifies this
      ensures View() == AddPoint(old(View()), e)
    {
      var count := CountLogs(points, logs, e.sitter, e.kind, e.day);
      if count >= MAX_PER_DAY {
        return;
      }
      SaveAward(e);
    }

    method TypeRating(e: Event) returns (r: Result<bool>)
      requires e.kind == Rating
      modifies this
      ensures View() == AddPoint(old(View()), e)
      ensures r == if 10 <= e.rating <= 50 then Ok(true) else Err(RatingNotValid)
    {
      if e.rating < 10 || e.rating > 50 {
        return Err(RatingNotValid);
      }
      SaveAward(e);
      return Ok(true);
    }

    method AddPointEvent(e: Event) returns (r: Result<bool>)
      modifies this
      ensures View() == AddPoint(old(View()), e)
      ensures r == if e.kind == Rating && !(10 <= e.rating <= 50) then Err(RatingNotValid) else Ok(true)
    {
      match e.kind
      case Login =>
        TypeLogin(e);
        return Ok(true);
      case Comment =>
        TypeCapped(e);
        return Ok(true);
      case Post =>
        TypeCapped(e);
        return Ok(true);
      case Rating =>
        r := TypeRating(e);
    }
  }
}
