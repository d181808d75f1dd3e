/** Booking codes over whole runs: the i-th code of a city's month prints i, until the padding runs out. */
module UniqueCodes {
  import opened Wrappers
  import opened Text
  import opened BookingCode
  import opened Bookings

  /** One past the padding width: the allocator's last fresh number. */
  const LAST_NUMBER := LAST_PADDED + 1

  /** cities.code is generated: two cities never share it. */
  predicate DistinctCities(w: World) {
    forall a, b :: a in w.cities && b in w.cities && w.cities[a] == w.cities[b] ==> a == b
  }

  function MonthCount(rows: seq<Booking>, cityId: string, now: Clock): nat { |CodesInMonth(rows, cityId, now)| }

  /** The place of row i among the bookings of its city and month, from 1. */
  function Ordinal(rows: seq<Booking>, i: nat): nat
    requires i < |rows|
  {
    MonthCount(rows[..i], rows[i].cityId, rows[i].createdAt) + 1
  }

  predicate Prints(w: World, b: Booking, n: nat) {
    b.cityId in w.cities && b.bookCode == CodeText(w.cities[b.cityId], b.createdAt.year, b.createdAt.month, n)
  }

  predicate PrintsOrdinals(w: World, rows: seq<Booking>) {
    forall i :: 0 <= i < |rows| ==> Prints(w, rows[i], Ordinal(rows, i)) && Ordinal(rows, i) <= LAST_NUMBER
  }

  // ---------------------------------------------------------------- the codes of one month

  /** The k-th code of a city's month belongs to the row whose place in it is k, counting from 1. */
  lemma {:induction false} RowAt(rows: seq<Booking>, cityId: string, now: Clock, k: nat) returns (i: nat)
    requires k < MonthCount(rows, cityId, now)
    ensures i < |rows| && SameMonth(rows[i], cityId, now) && Ordinal(rows, i) == k + 1
    ensures CodesInMonth(rows, cityId, now)[k] == rows[i].bookCode
  {
    var last := |rows| - 1;
    if k < MonthCount(rows[..last], cityId, now) {
      i := RowAt(rows[..last], cityId, now, k);
      assert rows[..last][..i] == rows[..i];
    } else {
      SameMonthSameCodes(rows[..last], cityId, now, rows[last].createdAt);
      i := last;
    }
  }

  lemma CodeAt(w: World, rows: seq<Booking>, cityId: string, now: Clock, k: nat)
    requires PrintsOrdinals(w, rows) && k < MonthCount(rows, cityId, now)
    ensures cityId in w.cities && k < LAST_NUMBER
    ensures CodesInMonth(rows, cityId, now)[k] == CodeText(w.cities[cityId], now.year, now.month, k + 1)
  {
    var i := RowAt(rows, cityId, now, k);
    assert Prints(w, rows[i], Ordinal(rows, i));
  }

  lemma CodesInOrder(w: World, rows: seq<Booking>, cityId: string, now: Clock)
    requires PrintsOrdinals(w, rows)
    ensures var codes := CodesInMonth(rows, cityId, now);
            && (codes != [] ==> cityId in w.cities)
            && |codes| <= LAST_NUMBER
            && forall k :: 0 <= k < |codes| ==> codes[k] == CodeText(w.cities[cityId], now.year, now.month, k + 1)
  {
    var codes := CodesInMonth(rows, cityId, now);
    if codes != [] { CodeAt(w, rows, cityId, now, |codes| - 1); }
    forall k | 0 <= k < |codes|
      ensures codes[k] == CodeText(w.cities[cityId], now.year, now.month, k + 1)
    {
      CodeAt(w, rows, cityId, now, k);
    }
  }

  lemma {:induction false} SameMonthSameCodes(rows: seq<Booking>, cityId: string, a: Clock, b: Clock)
    requires a.year == b.year && a.month == b.month
    ensures CodesInMonth(rows, cityId, a) == CodesInMonth(rows, cityId, b)
  {
    if rows != [] { SameMonthSameCodes(rows[..|rows| - 1], cityId, a, b); }
  }

  /** getCurrentBookingCode reads the number of bookings in the month, stuck at the last padded number. */
  lemma CurrentIsCount(cityCode: nat, year: nat, month: nat, codes: seq<string>)
    requires |codes| <= LAST_NUMBER
    requires forall k :: 0 <= k < |codes| ==> codes[k] == CodeText(cityCode, year, month, k + 1)
    ensures CurrentNumber(codes) == Some(if |codes| <= LAST_PADDED then |codes| else LAST_PADDED)
  {
    if codes != [] {
      var top := if |codes| <= LAST_PADDED then |codes| else LAST_PADDED;
      var m := CodeText(cityCode, year, month, top);
      assert codes[top - 1] == m;
      forall k | 0 <= k < |codes|
        ensures LexLeq(codes[k], m)
      {
        if k < LAST_PADDED {
          OrderOfCodes(cityCode, year, month, k + 1, top);
        } else {
          OverflowSortsBelow(cityCode, year, month);
        }
      }
      MaxTextIs(codes, m);
      CurrentIsTop(cityCode, year, month, codes, top);
    }
  }

  lemma NextPrints(w: World, rows: seq<Booking>, cityId: string, now: Clock)
    requires PrintsOrdinals(w, rows) && cityId in w.cities
    ensures var k := MonthCount(rows, cityId, now);
            && k <= LAST_NUMBER
            && NextCode(rows, cityId, w.cities[cityId], now)
               == CodeText(w.cities[cityId], now.year, now.month, if k <= LAST_PADDED then k + 1 else LAST_NUMBER)
  {
    CodesInOrder(w, rows, cityId, now);
    CurrentIsCount(w.cities[cityId], now.year, now.month, CodesInMonth(rows, cityId, now));
  }

  // ---------------------------------------------------------------- freshness

  lemma {:induction false} OrdinalWithinCount(rows: seq<Booking>, i: nat, now: Clock)
    requires i < |rows| && SameMonth(rows[i], rows[i].cityId, now)
    ensures Ordinal(rows, i) <= MonthCount(rows, rows[i].cityId, now)
  {
    var last := |rows| - 1;
    if i == last {
      SameMonthSameCodes(rows[..last], rows[i].cityId, now, rows[i].createdAt);
    } else {
      assert rows[..last][..i] == rows[..i];
      OrdinalWithinCount(rows[..last], i, now);
    }
  }

  lemma {:induction false} CodesComeFromRows(rows: seq<Booking>, cityId: string, now: Clock, code: string)
    requires code in CodesInMonth(rows, cityId, now)
    ensures HasCode(rows, code)
  {
    var last := |rows| - 1;
    if SameMonth(rows[last], cityId, now) && rows[last].bookCode == code {
    } else {
      CodesComeFromRows(rows[..last], cityId, now, code);
      var i :| 0 <= i < last && rows[..last][i].bookCode == code;
      assert rows[i].bookCode == code;
    }
  }

  /** A printed code of the month is in the table only under its own number. */
  lemma NumberNotPrinted(w: World, rows: seq<Booking>, cityId: string, now: Clock, i: nat)
    requires DistinctCities(w) && PrintsOrdinals(w, rows) && cityId in w.cities && i < |rows|
    ensures rows[i].bookCode != CodeText(w.cities[cityId], now.year, now.month, MonthCount(rows, cityId, now) + 1)
  {
    var b, k := rows[i], MonthCount(rows, cityId, now);
    assert Prints(w, b, Ordinal(rows, i));
    if b.bookCode == CodeText(w.cities[cityId], now.year, now.month, k + 1) {
      CodeTextInjective(w.cities[b.cityId], b.createdAt.year, b.createdAt.month, Ordinal(rows, i),
                        w.cities[cityId], now.year, now.month, k + 1);
      OrdinalWithinCount(rows, i, now);
    }
  }

  lemma NumberNotInTable(w: World, rows: seq<Booking>, cityId: string, now: Clock, code: string)
    requires DistinctCities(w) && PrintsOrdinals(w, rows) && cityId in w.cities
    requires code == CodeText(w.cities[cityId], now.year, now.month, MonthCount(rows, cityId, now) + 1)
    ensures !HasCode(rows, code)
  {
    forall i | 0 <= i < |rows| ensures rows[i].bookCode != code {
      NumberNotPrinted(w, rows, cityId, now, i);
    }
  }

  lemma LastNumberInTable(w: World, rows: seq<Booking>, cityId: string, now: Clock, code: string)
    requires PrintsOrdinals(w, rows) && MonthCount(rows, cityId, now) == LAST_NUMBER && cityId in w.cities
    requires code == CodeText(w.cities[cityId], now.year, now.month, LAST_NUMBER)
    ensures HasCode(rows, code)
  {
    CodeAt(w, rows, cityId, now, LAST_NUMBER - 1);
    CodesComeFromRows(rows, cityId, now, code);
  }

  /** The allocated code is new exactly while the city's month holds fewer than ten million bookings. */
  lemma FreshIff(w: World, rows: seq<Booking>, cityId: string, now: Clock)
    requires DistinctCities(w) && PrintsOrdinals(w, rows) && cityId in w.cities
    ensures !HasCode(rows, NextCode(rows, cityId, w.cities[cityId], now))
            <==> MonthCount(rows, cityId, now) < LAST_NUMBER
  {
    NextPrints(w, rows, cityId, now);
    if MonthCount(rows, cityId, now) < LAST_NUMBER {
      NumberNotInTable(w, rows, cityId, now, NextCode(rows, cityId, w.cities[cityId], now));
    } else {
      LastNumberInTable(w, rows, cityId, now, NextCode(rows, cityId, w.cities[cityId], now));
    }
  }

  // ---------------------------------------------------------------- runs

  lemma {:induction false} SameIdentitySameCodes(a: seq<Booking>, b: seq<Booking>, cityId: string, now: Clock)
    requires |a| == |b| && forall i :: 0 <= i < |a| ==> SameIdentity(a[i], b[i])
    ensures CodesInMonth(a, cityId, now) == CodesInMonth(b, cityId, now)
  {
    if a != [] { SameIdentitySameCodes(a[..|a| - 1], b[..|b| - 1], cityId, now); }
  }

  lemma SameIdentityPrints(w: World, a: seq<Booking>, b: seq<Booking>)
    requires |a| <= |b| && forall i :: 0 <= i < |a| ==> SameIdentity(a[i], b[i])
    requires PrintsOrdinals(w, a)
    ensures PrintsOrdinals(w, b[..|a|])
  {
    var c := b[..|a|];
    forall i | 0 <= i < |c|
      ensures Prints(w, c[i], Ordinal(c, i)) && Ordinal(c, i) <= LAST_NUMBER
    {
      assert SameIdentity(a[i], c[i]) && Prints(w, a[i], Ordinal(a, i));
      SameIdentitySameCodes(a[..i], c[..i], c[i].cityId, c[i].createdAt);
    }
  }

  lemma AppendPrintsOrdinals(w: World, rows: seq<Booking>, b: Booking)
    requires PrintsOrdinals(w, rows) && MonthCount(rows, b.cityId, b.createdAt) < LAST_NUMBER
    requires Prints(w, b, MonthCount(rows, b.cityId, b.createdAt) + 1)
    ensures PrintsOrdinals(w, rows + [b])
  {
    var next, n := rows + [b], |rows|;
    forall i | 0 <= i < |next|
      ensures Prints(w, next[i], Ordinal(next, i)) && Ordinal(next, i) <= LAST_NUMBER
    {
      if i < n {
        assert next[..i] == rows[..i];
        assert Prints(w, rows[i], Ordinal(rows, i));
      } else {
        assert next[..i] == rows;
      }
    }
  }

  lemma NewBookingColumns(w: World, rows: seq<Booking>, live: set<string>, request: Request, now: Clock)
    requires NewBooking(w, rows, live, request, now).Ok?
    ensures Acceptable(w, live, request)
    ensures var b, city := NewBooking(w, rows, live, request, now).value, CityOf(w, request);
            b.cityId == city && b.createdAt == now
            && b.bookCode == NextCode(rows, city, w.cities[city], now) && !HasCode(rows, b.bookCode)
  {}

  lemma NextPrintsOrdinal(w: World, rows: seq<Booking>, b: Booking)
    requires DistinctCities(w) && PrintsOrdinals(w, rows) && b.cityId in w.cities
    requires b.bookCode == NextCode(rows, b.cityId, w.cities[b.cityId], b.createdAt) && !HasCode(rows, b.bookCode)
    ensures PrintsOrdinals(w, rows + [b])
  {
    FreshIff(w, rows, b.cityId, b.createdAt);
    NextPrints(w, rows, b.cityId, b.createdAt);
    AppendPrintsOrdinals(w, rows, b);
  }

  lemma CreatePrintsOrdinals(w: World, db: Db, request: Request, now: Clock)
    requires DistinctCities(w) && PrintsOrdinals(w, db.rows)
    ensures PrintsOrdinals(w, Step(w, db, Create(request, now)).rows)
  {
    var r := NewBooking(w, db.rows, db.live, request, now);
    if r.Ok? {
      NewBookingColumns(w, db.rows, db.live, request, now);
      NextPrintsOrdinal(w, db.rows, r.value);
    }
  }

  lemma PrintsOrdinalsStep(w: World, db: Db, e: Event)
    requires DistinctCities(w) && PrintsOrdinals(w, db.rows)
    ensures PrintsOrdinals(w, Step(w, db, e).rows)
  {
    if e.Create? {
      CreatePrintsOrdinals(w, db, e.request, e.clock);
    } else {
      var rows := Step(w, db, e).rows;
      StepKeepsRows(w, db, e);
      SameIdentityPrints(w, db.rows, rows);
      assert rows[..|db.rows|] == rows;
    }
  }

  lemma {:induction false} PrintsOrdinalsRun(w: World, db: Db, es: seq<Event>)
    requires DistinctCities(w) && PrintsOrdinals(w, db.rows)
    ensures PrintsOrdinals(w, Run(w, db, es).rows)
    decreases |es|
  {
    if es != [] {
      PrintsOrdinalsStep(w, db, es[0]);
      PrintsOrdinalsRun(w, Step(w, db, es[0]), es[1..]);
    }
  }

  predicate DistinctCodes(rows: seq<Booking>) {
    forall i, j :: 0 <= i < j < |rows| ==> rows[i].bookCode != rows[j].bookCode
  }

  lemma PrintedAreDistinct(w: World, rows: seq<Booking>)
    requires DistinctCities(w) && PrintsOrdinals(w, rows)
    ensures DistinctCodes(rows)
  {
    forall i, j | 0 <= i < j < |rows| ensures rows[i].bookCode != rows[j].bookCode {
      PrintedApart(w, rows, i, j);
    }
  }

  lemma PrintedApart(w: World, rows: seq<Booking>, i: nat, j: nat)
    requires DistinctCities(w) && PrintsOrdinals(w, rows) && i < j < |rows|
    ensures rows[i].bookCode != rows[j].bookCode
  {
    var a, b := rows[i], rows[j];
    assert Prints(w, a, Ordinal(rows, i)) && Prints(w, b, Ordinal(rows, j));
    if a.bookCode == b.bookCode {
      CodeTextInjective(w.cities[a.cityId], a.createdAt.year, a.createdAt.month, Ordinal(rows, i),
                        w.cities[b.cityId], b.createdAt.year, b.createdAt.month, Ordinal(rows, j));
      assert rows[..j][..i] == rows[..i];
      OrdinalWithinCount(rows[..j], i, b.createdAt);
    }
  }

  /**
   In every reachable table, an acceptable request succeeds exactly while its city's month holds fewer than ten
   million bookings, and then its code prints its place in the month; from then on the unique column refuses it.
   */
  lemma CreateSucceedsIff(w: World, live: set<string>, es: seq<Event>, request: Request, now: Clock)
    requires DistinctCities(w)
    requires var db := Run(w, Empty(live), es); Acceptable(w, db.live, request)
    ensures var db := Run(w, Empty(live), es);
            var city := CityOf(w, request);
            var k := MonthCount(db.rows, city, now);
            match NewBooking(w, db.rows, db.live, request, now)
            case Ok(b) => k < LAST_NUMBER && b.bookCode == CodeText(w.cities[city], now.year, now.month, k + 1)
            case Err(error) => k == LAST_NUMBER && error == DuplicateKey
  {
    PrintsOrdinalsRun(w, Empty(live), es);
    var db := Run(w, Empty(live), es);
    NextPrints(w, db.rows, CityOf(w, request), now);
    FreshIff(w, db.rows, CityOf(w, request), now);
  }

  // ---------------------------------------------------------------- the allocator without the unique column

  /** A step on a table whose codes are not a unique column: every acceptable request is inserted. */
  function UncheckedStep(w: World, db: Db, e: Event): Db {
    if !e.Create? then Step(w, db, e)
    else if Acceptable(w, db.live, e.request) then db.(rows := db.rows + [Candidate(w, db.rows, e.request, e.clock)])
    else db
  }

  function UncheckedRun(w: World, db: Db, es: seq<Event>): Db
    decreases |es|
  {
    if es == [] then db else UncheckedRun(w, UncheckedStep(w, db, es[0]), es[1..])
  }

  /** No booking is past the ten-millionth of its city's month. */
  predicate MonthsFit(rows: seq<Booking>) { forall i :: 0 <= i < |rows| ==> Ordinal(rows, i) <= LAST_NUMBER }

  /** What the allocator alone guarantees. */
  predicate PrintsOrRepeats(w: World, rows: seq<Booking>) {
    if MonthsFit(rows) then PrintsOrdinals(w, rows) else !DistinctCodes(rows)
  }

  lemma OrdinalsOfAppend(rows: seq<Booking>, b: Booking)
    ensures Ordinal(rows + [b], |rows|) == MonthCount(rows, b.cityId, b.createdAt) + 1
    ensures forall i :: 0 <= i < |rows| ==> Ordinal(rows + [b], i) == Ordinal(rows, i)
    ensures MonthsFit(rows + [b]) <==> MonthsFit(rows) && MonthCount(rows, b.cityId, b.createdAt) < LAST_NUMBER
  {
    var next := rows + [b];
    assert next[..|rows|] == rows;
    forall i | 0 <= i < |rows| ensures Ordinal(next, i) == Ordinal(rows, i) { assert next[..i] == rows[..i]; }
    if MonthsFit(next) {
      forall i | 0 <= i < |rows| ensures Ordinal(rows, i) <= LAST_NUMBER { assert Ordinal(next, i) <= LAST_NUMBER; }
    }
  }

  lemma SameIdentityFits(a: seq<Booking>, b: seq<Booking>)
    requires |a| == |b| && forall i :: 0 <= i < |a| ==> SameIdentity(a[i], b[i])
    ensures forall i :: 0 <= i < |a| ==> Ordinal(b, i) == Ordinal(a, i)
    ensures MonthsFit(b) <==> MonthsFit(a)
    ensures DistinctCodes(b) <==> DistinctCodes(a)
  {
    forall i | 0 <= i < |a| ensures Ordinal(b, i) == Ordinal(a, i) && b[i].bookCode == a[i].bookCode {
      assert SameIdentity(a[i], b[i]);
      SameIdentitySameCodes(a[..i], b[..i], a[i].cityId, a[i].createdAt);
    }
  }

  lemma AppendPrintsOrRepeats(w: World, rows: seq<Booking>, b: Booking)
    requires DistinctCities(w) && PrintsOrRepeats(w, rows) && b.cityId in w.cities
    requires b.bookCode == NextCode(rows, b.cityId, w.cities[b.cityId], b.createdAt)
    ensures PrintsOrRepeats(w, rows + [b])
  {
    var next := rows + [b];
    OrdinalsOfAppend(rows, b);
    if MonthsFit(rows) {
      NextPrints(w, rows, b.cityId, b.createdAt);
      if MonthCount(rows, b.cityId, b.createdAt) < LAST_NUMBER {
        AppendPrintsOrdinals(w, rows, b);
      } else {
        LastNumberInTable(w, rows, b.cityId, b.createdAt, b.bookCode);
        var i :| 0 <= i < |rows| && rows[i].bookCode == b.bookCode;
        assert next[i].bookCode == next[|rows|].bookCode;
      }
    } else {
      var i, j :| 0 <= i < j < |rows| && rows[i].bookCode == rows[j].bookCode;
      assert next[i].bookCode == next[j].bookCode;
    }
  }

  lemma UncheckedStepPrints(w: World, db: Db, e: Event)
    requires DistinctCities(w) && PrintsOrRepeats(w, db.rows)
    ensures PrintsOrRepeats(w, UncheckedStep(w, db, e).rows)
    ensures MonthsFit(UncheckedStep(w, db, e).rows) ==> MonthsFit(db.rows) && UncheckedStep(w, db, e) == Step(w, db, e)
  {
    var next := UncheckedStep(w, db, e).rows;
    if !e.Create? {
      StepKeepsRows(w, db, e);
      SameIdentityFits(db.rows, next);
      if MonthsFit(db.rows) {
        SameIdentityPrints(w, db.rows, next);
        assert next[..|db.rows|] == next;
      }
    } else if Acceptable(w, db.live, e.request) {
      var b := Candidate(w, db.rows, e.request, e.clock);
      AppendPrintsOrRepeats(w, db.rows, b);
      OrdinalsOfAppend(db.rows, b);
      if MonthsFit(next) { FreshIff(w, db.rows, b.cityId, b.createdAt); }
    }
  }

  lemma {:induction false} UncheckedRunPrints(w: World, db: Db, es: seq<Event>)
    requires DistinctCities(w) && PrintsOrRepeats(w, db.rows)
    ensures PrintsOrRepeats(w, UncheckedRun(w, db, es).rows)
    ensures MonthsFit(UncheckedRun(w, db, es).rows) ==> MonthsFit(db.rows) && UncheckedRun(w, db, es) == Run(w, db, es)
    decreases |es|
  {
    if es != [] {
      UncheckedStepPrints(w, db, es[0]);
      UncheckedRunPrints(w, UncheckedStep(w, db, es[0]), es[1..]);
    }
  }

  /**
   The allocator alone, without the unique column, keeps all codes distinct over all cities, months and steps exactly
   as long as no city's month has more than ten million bookings.
   */
  lemma AllocatorDistinctIff(w: World, live: set<string>, es: seq<Event>)
    requires DistinctCities(w)
    ensures var rows := UncheckedRun(w, Empty(live), es).rows;
            DistinctCodes(rows) <==> MonthsFit(rows)
  {
    UncheckedRunPrints(w, Empty(live), es);
    var rows := UncheckedRun(w, Empty(live), es).rows;
    if MonthsFit(rows) { PrintedAreDistinct(w, rows); }
  }

  /** So the unique column changes nothing in a run exactly when every month of it fits. */
  lemma ColumnIdleIff(w: World, live: set<string>, es: seq<Event>)
    requires DistinctCities(w)
    ensures Run(w, Empty(live), es) == UncheckedRun(w, Empty(live), es)
            <==> MonthsFit(UncheckedRun(w, Empty(live), es).rows)
  {
    UncheckedRunPrints(w, Empty(live), es);
    PrintsOrdinalsRun(w, Empty(live), es);
    PrintedAreDistinct(w, Run(w, Empty(live), es).rows);
  }

  // ---------------------------------------------------------------- tables with gaps

  /** The row's code is a printed one. */
  ghost predicate Printed(w: World, b: Booking) { exists n: nat :: Prints(w, b, n) }

  /** The row's code is a printed one whose number fits the padding. */
  predicate Padded(w: World, b: Booking) { exists n: nat :: n <= LAST_PADDED && Prints(w, b, n) }

  ghost predicate AllPrinted(w: World, rows: seq<Booking>) { forall i :: 0 <= i < |rows| ==> Printed(w, rows[i]) }

  predicate MonthPadded(w: World, rows: seq<Booking>, cityId: string, now: Clock) {
    forall i :: 0 <= i < |rows| && SameMonth(rows[i], cityId, now) ==> Padded(w, rows[i])
  }

  /**
   Over any table of printed codes, in any order and with any gaps, whose numbers of the month fit the padding, the
   allocated code is a printed one and new.
   */
  lemma FreshWithGaps(w: World, rows: seq<Booking>, cityId: string, now: Clock) returns (n: nat)
    requires DistinctCities(w) && cityId in w.cities
    requires AllPrinted(w, rows) && MonthPadded(w, rows, cityId, now)
    ensures NextCode(rows, cityId, w.cities[cityId], now) == CodeText(w.cities[cityId], now.year, now.month, n)
    ensures !HasCode(rows, NextCode(rows, cityId, w.cities[cityId], now))
  {
    var codes := CodesInMonth(rows, cityId, now);
    var top := 0;
    if codes != [] {
      top := NumberInMonth(w, rows, cityId, now, MaxText(codes).value);
    }
    CurrentIsTop(w.cities[cityId], now.year, now.month, codes, top);
    n := top + 1;
    NoneAboveTop(w, rows, cityId, now, top);
  }

  lemma NoneAboveTop(w: World, rows: seq<Booking>, cityId: string, now: Clock, top: nat)
    requires DistinctCities(w) && cityId in w.cities && AllPrinted(w, rows)
    requires MonthPadded(w, rows, cityId, now) && top <= LAST_PADDED
    requires var m := MaxText(CodesInMonth(rows, cityId, now));
             m.Some? ==> m.value == CodeText(w.cities[cityId], now.year, now.month, top)
    ensures !HasCode(rows, CodeText(w.cities[cityId], now.year, now.month, top + 1))
  {
    forall i | 0 <= i < |rows|
      ensures rows[i].bookCode != CodeText(w.cities[cityId], now.year, now.month, top + 1)
    {
      NotAboveTop(w, rows, cityId, now, top, i);
    }
  }

  lemma CurrentIsTop(cityCode: nat, year: nat, month: nat, codes: seq<string>, top: nat)
    requires if codes == [] then top == 0 else MaxText(codes).value == CodeText(cityCode, year, month, top)
    ensures CurrentNumber(codes) == Some(top)
  {
    ReadBack(cityCode, year, month, top);
    assert |CodeText(cityCode, year, month, top)| >= |CodePrefix(cityCode, year, month)| >= 1;
  }

  /** A printed row of another city or month does not carry a code of this one. */
  lemma PrintedElsewhere(w: World, b: Booking, cityId: string, now: Clock, n: nat)
    requires DistinctCities(w) && cityId in w.cities && Printed(w, b)
    requires b.bookCode == CodeText(w.cities[cityId], now.year, now.month, n)
    ensures SameMonth(b, cityId, now) && forall k: nat :: Prints(w, b, k) ==> k == n
  {
    forall k: nat | Prints(w, b, k)
      ensures k == n && SameMonth(b, cityId, now)
    {
      CodeTextInjective(w.cities[b.cityId], b.createdAt.year, b.createdAt.month, k,
                        w.cities[cityId], now.year, now.month, n);
    }
  }

  lemma NotAboveTop(w: World, rows: seq<Booking>, cityId: string, now: Clock, top: nat, i: nat)
    requires DistinctCities(w) && cityId in w.cities && i < |rows| && Printed(w, rows[i])
    requires MonthPadded(w, rows, cityId, now) && top <= LAST_PADDED
    requires var m := MaxText(CodesInMonth(rows, cityId, now));
             m.Some? ==> m.value == CodeText(w.cities[cityId], now.year, now.month, top)
    ensures rows[i].bookCode != CodeText(w.cities[cityId], now.year, now.month, top + 1)
  {
    if rows[i].bookCode == CodeText(w.cities[cityId], now.year, now.month, top + 1) {
      PrintedElsewhere(w, rows[i], cityId, now, top + 1);
      assert Padded(w, rows[i]);
      var k := RowInMonth(rows, cityId, now, i);
      MaxTextIsGreatest(CodesInMonth(rows, cityId, now), k);
      OrderOfCodes(w.cities[cityId], now.year, now.month, top + 1, top);
    }
  }

  lemma {:induction false} NumberInMonth(w: World, rows: seq<Booking>, cityId: string, now: Clock, code: string)
    returns (n: nat)
    requires cityId in w.cities && code in CodesInMonth(rows, cityId, now)
    requires MonthPadded(w, rows, cityId, now)
    ensures n <= LAST_PADDED && code == CodeText(w.cities[cityId], now.year, now.month, n)
  {
    var last := |rows| - 1;
    if SameMonth(rows[last], cityId, now) && rows[last].bookCode == code {
      assert Padded(w, rows[last]);
      n :| n <= LAST_PADDED && Prints(w, rows[last], n);
    } else {
      n := NumberInMonth(w, rows[..last], cityId, now, code);
    }
  }

  lemma {:induction false} RowInMonth(rows: seq<Booking>, cityId: string, now: Clock, i: nat) returns (k: nat)
    requires i < |rows| && SameMonth(rows[i], cityId, now)
    ensures k < MonthCount(rows, cityId, now) && CodesInMonth(rows, cityId, now)[k] == rows[i].bookCode
  {
    var last := |rows| - 1;
    if i == last {
      k := |CodesInMonth(rows[..last], cityId, now)|;
    } else {
      k := RowInMonth(rows[..last], cityId, now, i);
    }
  }

  // ---------------------------------------------------------------- runs that remove rows

  /** What changes which codes are in the table: a request, or users deleted for good, with all their bookings. */
  datatype Change = Insert(live: set<string>, request: Request, clock: Clock) | Purge(users: set<string>)

  predicate Involves(b: Booking, users: set<string>) {
    b.babysitterId in users || (b.parentId.Some? && b.parentId.value in users)
  }

  function Survivors(rows: seq<Booking>, users: set<string>): seq<Booking> {
    if rows == [] then []
    else
      var last := |rows| - 1;
      Survivors(rows[..last], users) + if Involves(rows[last], users) then [] else [rows[last]]
  }

  function Changed(w: World, rows: seq<Booking>, c: Change): seq<Booking> {
    match c
    case Insert(live, request, clock) =>
      if Acceptable(w, live, request) then rows + [Candidate(w, rows, request, clock)] else rows
    case Purge(users) => Survivors(rows, users)
  }

  function ChangedBy(w: World, rows: seq<Booking>, cs: seq<Change>): seq<Booking>
    decreases |cs|
  {
    if cs == [] then rows else ChangedBy(w, Changed(w, rows, cs[0]), cs[1..])
  }

  /** Every request finds only codes that fit the padding in its city's month. */
  predicate FindsRoom(w: World, rows: seq<Booking>, cs: seq<Change>)
    decreases |cs|
  {
    cs == [] ||
    (&& (cs[0].Insert? && Acceptable(w, cs[0].live, cs[0].request) ==>
           MonthPadded(w, rows, CityOf(w, cs[0].request), cs[0].clock))
     && FindsRoom(w, Changed(w, rows, cs[0]), cs[1..]))
  }

  lemma {:induction false} SurvivorsAre(rows: seq<Booking>, users: set<string>, b: Booking)
    ensures b in Survivors(rows, users)
            <==> b in rows && b.babysitterId !in users && (b.parentId.Some? ==> b.parentId.value !in users)
  {
    if rows != [] {
      var last := |rows| - 1;
      SurvivorsAre(rows[..last], users, b);
      assert rows == rows[..last] + [rows[last]];
    }
  }

  lemma {:induction false} SurvivorsStayDistinct(rows: seq<Booking>, users: set<string>)
    requires DistinctCodes(rows)
    ensures DistinctCodes(Survivors(rows, users))
  {
    if rows != [] {
      var last := |rows| - 1;
      SurvivorsStayDistinct(rows[..last], users);
      var kept := Survivors(rows[..last], users);
      forall i | 0 <= i < |kept| ensures kept[i].bookCode != rows[last].bookCode {
        SurvivorsAre(rows[..last], users, kept[i]);
      }
    }
  }

  lemma ChangeKeepsDistinct(w: World, rows: seq<Booking>, c: Change)
    requires DistinctCities(w) && AllPrinted(w, rows) && DistinctCodes(rows) && FindsRoom(w, rows, [c])
    ensures AllPrinted(w, Changed(w, rows, c)) && DistinctCodes(Changed(w, rows, c))
  {
    match c
    case Purge(users) =>
      SurvivorsStayDistinct(rows, users);
      var kept := Survivors(rows, users);
      forall i | 0 <= i < |kept| ensures Printed(w, kept[i]) { SurvivorsAre(rows, users, kept[i]); }
    case Insert(live, request, clock) =>
      if Acceptable(w, live, request) {
        var b := Candidate(w, rows, request, clock);
        var n := FreshWithGaps(w, rows, b.cityId, clock);
        assert Prints(w, b, n);
        forall i | 0 <= i < |rows| ensures rows[i].bookCode != b.bookCode {}
      }
  }

  /**
   Deleting users for good does not endanger the codes: over any run of requests and such deletions, without the
   unique column, codes stay distinct while each request's month holds no code past the padding.
   */
  lemma {:induction false} PurgesKeepDistinct(w: World, rows: seq<Booking>, cs: seq<Change>)
    requires DistinctCities(w) && AllPrinted(w, rows) && DistinctCodes(rows) && FindsRoom(w, rows, cs)
    ensures AllPrinted(w, ChangedBy(w, rows, cs)) && DistinctCodes(ChangedBy(w, rows, cs))
    decreases |cs|
  {
    if cs != [] {
      assert FindsRoom(w, rows, [cs[0]]);
      ChangeKeepsDistinct(w, rows, cs[0]);
      PurgesKeepDistinct(w, Changed(w, rows, cs[0]), cs[1..]);
    }
  }
}
