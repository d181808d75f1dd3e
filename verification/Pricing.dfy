/** The price of a booking: calculateSalary over exact rationals, rounded once at the end. */
module Pricing {
  const HOUR_MS := 3_600_000
  const MINIMUM_WORKING_HOURS := 6

  /** A requested time slot, in milliseconds. */
  datatype Slot = Slot(start: int, end: int, hasBreak: bool)

  function WorkedHours(slot: Slot): real {
    (slot.end - slot.start) as real / 3_600_000.0 - (if slot.hasBreak then 1.0 else 0.0)
  }

  /** The reduce callback, from an accumulated total. */
  function AddSlots(total: real, baseSalary: real, slots: seq<Slot>): real
    decreases |slots|
  {
    if slots == [] then total else AddSlots(total + WorkedHours(slots[0]) * baseSalary, baseSalary, slots[1..])
  }

  /** Math.round: half rounds up, also for negative numbers. */
  function Round(x: real): (r: int)
    ensures x - 0.5 < r as real <= x + 0.5
  {
    (x + 0.5).Floor
  }

  function CalculateSalary(baseSalary: real, slots: seq<Slot>): int {
    Round(AddSlots(0.0, baseSalary, slots))
  }

  /** The slots a booking request passes validation with, when it is not a draft. */
  predicate LongEnough(slot: Slot) { slot.end - slot.start >= MINIMUM_WORKING_HOURS * HOUR_MS }

  /** Paid time in milliseconds: a break costs one hour. */
  function PaidMs(slot: Slot): int { slot.end - slot.start - (if slot.hasBreak then HOUR_MS else 0) }

  function PaidMsOf(slots: seq<Slot>): int {
    if slots == [] then 0 else PaidMs(slots[0]) + PaidMsOf(slots[1..])
  }

  function Pay(ms: int, baseSalary: real): real { ms as real / 3_600_000.0 * baseSalary }

  lemma PayOfSum(x: int, y: int, baseSalary: real)
    ensures Pay(x + y, baseSalary) == Pay(x, baseSalary) + Pay(y, baseSalary)
  {}

  lemma PayOfSlot(slot: Slot, baseSalary: real)
    ensures WorkedHours(slot) * baseSalary == Pay(PaidMs(slot), baseSalary)
  {
    assert WorkedHours(slot) == PaidMs(slot) as real / 3_600_000.0;
  }

  lemma {:induction false} TotalIsPay(total: real, baseSalary: real, slots: seq<Slot>)
    ensures AddSlots(total, baseSalary, slots) == total + Pay(PaidMsOf(slots), baseSalary)
    decreases |slots|
  {
    if slots != [] {
      PayOfSlot(slots[0], baseSalary);
      PayOfSum(PaidMs(slots[0]), PaidMsOf(slots[1..]), baseSalary);
      TotalIsPay(total + WorkedHours(slots[0]) * baseSalary, baseSalary, slots[1..]);
    }
  }

  /** The price depends on the slots only through their paid time. */
  lemma PriceOfPaidTime(baseSalary: real, slots: seq<Slot>)
    ensures CalculateSalary(baseSalary, slots) == Round(Pay(PaidMsOf(slots), baseSalary))
  {
    TotalIsPay(0.0, baseSalary, slots);
  }

  /** One slot: its hours, less one for a break, times the rate. */
  lemma PriceOfOneSlot(baseSalary: real, slot: Slot)
    ensures var ms := slot.end - slot.start - (if slot.hasBreak then 3_600_000 else 0);
            CalculateSalary(baseSalary, [slot]) == Round(ms as real / 3_600_000.0 * baseSalary)
  {
    PriceOfPaidTime(baseSalary, [slot]);
    assert PaidMsOf([slot]) == PaidMs(slot) + PaidMsOf([]);
  }

  lemma {:induction false} PaidMsOfConcat(a: seq<Slot>, b: seq<Slot>)
    ensures PaidMsOf(a + b) == PaidMsOf(a) + PaidMsOf(b)
  {
    if a == [] {
      assert a + b == b;
    } else {
      PaidMsOfConcat(a[1..], b);
      assert (a + b)[1..] == a[1..] + b;
    }
  }

  function Without(b: seq<Slot>, k: nat): seq<Slot>
    requires k < |b|
  {
    b[..k] + b[k + 1..]
  }

  lemma WithoutIsRemoval(b: seq<Slot>, k: nat)
    requires k < |b|
    ensures multiset(Without(b, k)) == multiset(b) - multiset{b[k]}
  {
    assert b == b[..k] + [b[k]] + b[k + 1..];
  }

  lemma PaidMsOfWithout(b: seq<Slot>, k: nat)
    requires k < |b|
    ensures PaidMsOf(b) == PaidMs(b[k]) + PaidMsOf(Without(b, k))
  {
    assert b == b[..k] + b[k..];
    PaidMsOfConcat(b[..k], b[k..]);
    PaidMsOfConcat(b[..k], b[k + 1..]);
  }

  lemma {:induction false} PaidMsOfPermutation(a: seq<Slot>, b: seq<Slot>)
    requires multiset(a) == multiset(b)
    ensures PaidMsOf(a) == PaidMsOf(b)
    decreases |a|
  {
    if a == [] {
      assert |b| == |multiset(b)| == |multiset(a)|;
    } else {
      assert a[0] in multiset(b);
      var k :| 0 <= k < |b| && b[k] == a[0];
      WithoutIsRemoval(a, 0);
      WithoutIsRemoval(b, k);
      PaidMsOfPermutation(Without(a, 0), Without(b, k));
      PaidMsOfWithout(a, 0);
      PaidMsOfWithout(b, k);
    }
  }

  /** The order of the slots does not change the price. */
  lemma PriceIgnoresOrder(baseSalary: real, a: seq<Slot>, b: seq<Slot>)
    requires multiset(a) == multiset(b)
    ensures CalculateSalary(baseSalary, a) == CalculateSalary(baseSalary, b)
  {
    PriceOfPaidTime(baseSalary, a);
    PriceOfPaidTime(baseSalary, b);
    PaidMsOfPermutation(a, b);
  }

  /** Cutting a slot anywhere keeps the price when its break, if any, goes to one of the parts. */
  lemma PriceIgnoresCut(baseSalary: real, a: seq<Slot>, slot: Slot, at: int, breakFirst: bool, b: seq<Slot>)
    ensures var first := Slot(slot.start, at, slot.hasBreak && breakFirst);
            var second := Slot(at, slot.end, slot.hasBreak && !breakFirst);
            CalculateSalary(baseSalary, a + [slot] + b) == CalculateSalary(baseSalary, a + [first, second] + b)
  {
    var parts := [Slot(slot.start, at, slot.hasBreak && breakFirst), Slot(at, slot.end, slot.hasBreak && !breakFirst)];
    assert PaidMsOf(parts[1..]) == PaidMs(parts[1]);
    PaidMsOfConcat(a, [slot]);
    PaidMsOfConcat(a + [slot], b);
    PaidMsOfConcat(a, parts);
    PaidMsOfConcat(a + parts, b);
    PriceOfPaidTime(baseSalary, a + [slot] + b);
    PriceOfPaidTime(baseSalary, a + parts + b);
  }

  /** Rounding once or twice differs by at most one unit. */
  lemma PricingApart(baseSalary: real, a: seq<Slot>, b: seq<Slot>)
    ensures -1 <= CalculateSalary(baseSalary, a + b)
                  - CalculateSalary(baseSalary, a) - CalculateSalary(baseSalary, b) <= 1
  {
    PriceOfPaidTime(baseSalary, a);
    PriceOfPaidTime(baseSalary, b);
    PriceOfPaidTime(baseSalary, a + b);
    PaidMsOfConcat(a, b);
    PayOfSum(PaidMsOf(a), PaidMsOf(b), baseSalary);
  }

  lemma {:induction false} PaidMsOfValidated(slots: seq<Slot>)
    requires forall i :: 0 <= i < |slots| ==> LongEnough(slots[i])
    ensures PaidMsOf(slots) >= 5 * HOUR_MS * |slots|
  {
    if slots != [] {
      PaidMsOfValidated(slots[1..]);
      assert LongEnough(slots[0]);
    }
  }

  /** Validated slots are paid at least five hours each: six, less a break. */
  lemma PriceFloor(baseSalary: real, slots: seq<Slot>)
    requires baseSalary >= 0.0
    requires forall i :: 0 <= i < |slots| ==> slots[i].end - slots[i].start >= 6 * 3_600_000
    ensures CalculateSalary(baseSalary, slots) >= Round((5 * |slots|) as real * baseSalary)
  {
    PaidMsOfValidated(slots);
    PriceOfPaidTime(baseSalary, slots);
    PayForHours(5 * |slots|, PaidMsOf(slots), baseSalary);
  }

  lemma PayForHours(hours: nat, ms: int, baseSalary: real)
    requires ms >= hours * HOUR_MS && baseSalary >= 0.0
    ensures hours as real * baseSalary <= Pay(ms, baseSalary)
  {
    assert hours as real <= ms as real / 3_600_000.0;
  }
}
