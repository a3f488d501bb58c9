/**
 * Withholding under section 194J of the Income-tax Act, 1961, with its annual threshold
 * (packages/shared/src/billing-money-rules.ts).
 *
 * Figures come in as exact numbers of paise and leave as whole paise.
 */
module Tds194j {

  import opened Common

  /** A figure floored at zero. */
  function Positive(x: real): real { if x >= 0.0 then x else 0.0 }

  /** To whole paise, half away from zero. */
  function RoundMoney(x: real): int
  {
    if x >= 0.0 then (x + 0.5).Floor else -((0.5 - x).Floor)
  }

  datatype Basis = NoThreshold | BelowThreshold | Crossed | Above

  datatype Outcome = Outcome(tds: int, basis: Basis, fyGrossIncluding: int)

  /** A raw figure as whole paise, never negative. */
  function Cleaned(x: real): (n: int)
    ensures n >= 0
  {
    RoundMoney(Positive(x))
  }

  /** The exact tax on any fees. */
  type Tax = int -> real

  function AtRate(ratePct: real): Tax
  {
    var rate := Positive(ratePct) / 100.0;
    (fees: int) => fees as real * rate
  }

  /** One payable's deduction, given the year before it. */
  function Deduction(fee: real, ratePct: real, threshold: real, fyGrossBefore: real, fyTdsBefore: real): Outcome
  {
    DeductionAt(fee, AtRate(ratePct), threshold, fyGrossBefore, fyTdsBefore)
  }

  function DeductionAt(fee: real, tax: Tax, threshold: real, fyGrossBefore: real, fyTdsBefore: real): Outcome
  {
    Withhold(Cleaned(fee), tax, Positive(threshold), Cleaned(fyGrossBefore), Cleaned(fyTdsBefore))
  }

  function Withhold(gross: nat, tax: Tax, threshold: real, before: nat, withheld: nat): Outcome
  {
    var including := RoundMoney((before + gross) as real);
    if threshold <= 0.0 then
      Outcome(RoundMoney(tax(gross)), NoThreshold, including)
    else if including as real <= threshold then
      Outcome(0, BelowThreshold, including)
    else
      Outcome(Settle(gross, tax(including), withheld), if before as real > threshold then Above else Crossed, including)
  }

  /** What is still due of the year's tax, no less than nothing and no more than this payable's fee. */
  function Settle(gross: nat, tax: real, withheld: nat): int
  {
    var due := RoundMoney(tax - withheld as real);
    RoundMoney(Min(gross, Max(0, due)) as real)
  }

  // ---- Rounding ----

  lemma RoundWhole(n: int)
    ensures RoundMoney(n as real) == n
  {
  }

  /** The nearest whole paisa, the half going up; and the same on both sides of zero. */
  lemma RoundExactly(x: real, n: int)
    ensures x >= 0.0 ==> (RoundMoney(x) == n <==> n as real - 0.5 <= x < n as real + 0.5)
    ensures RoundMoney(-x) == -RoundMoney(x)
  {
  }

  /** A raw figure counts for nothing if it is negative, and otherwise to the nearest paisa. */
  lemma CleanedExactly(x: real, n: int)
    ensures x <= 0.0 ==> Cleaned(x) == 0
    ensures x >= 0.0 ==> (Cleaned(x) == n <==> n as real - 0.5 <= x < n as real + 0.5)
  {
    RoundExactly(x, n);
  }

  lemma RoundMonotone(x: real, y: real)
    requires x <= y
    ensures RoundMoney(x) <= RoundMoney(y)
  {
  }

  lemma RoundShift(x: real, n: nat)
    requires x >= 0.0
    ensures RoundMoney(x + n as real) == RoundMoney(x) + n
  {
    assert (x + n as real + 0.5).Floor == (x + 0.5).Floor + n;
  }

  /** Subtracting what is already withheld before or after rounding is the same, floored at zero. */
  lemma RoundDifference(x: real, w: nat)
    requires x >= 0.0
    ensures Max(0, RoundMoney(x - w as real)) == Max(0, RoundMoney(x) - w)
  {
    if x >= w as real {
      RoundShift(x - w as real, w);
      assert x - w as real + w as real == x;
    } else {
      assert (x + 0.5).Floor <= w;
    }
  }

  // ---- The tax on a year ----

  /** The tax on whole-paise fees, rounded. */
  function Rounded(tax: Tax, fees: int): int { RoundMoney(tax(fees)) }

  function TaxOn(fees: int, ratePct: real): int { Rounded(AtRate(ratePct), fees) }

  /** More fees never mean less tax. */
  ghost predicate Grows(tax: Tax)
  {
    && (forall a: nat :: tax(a) >= 0.0)
    && (forall a: nat, b: nat :: a <= b ==> 0 <= Rounded(tax, a) <= Rounded(tax, b))
  }

  /** More fees are at most as much more tax. */
  ghost predicate GrowsSlowly(tax: Tax)
  {
    forall a: nat, b: nat :: a <= b ==> Rounded(tax, b) <= Rounded(tax, a) + (b - a)
  }

  /** The tax takes all of the fees. */
  ghost predicate Covers(tax: Tax)
  {
    forall a: nat :: Rounded(tax, a) >= a
  }

  lemma TimesMonotone(x: real, y: real, r: real)
    requires x <= y && r >= 0.0
    ensures x * r <= y * r
  {
  }

  lemma TimesPositive(x: real, r: real)
    requires x >= 0.0 && r >= 0.0
    ensures x * r >= 0.0
  {
  }

  /** A product grows by no more than its factor does when the rate is at most one. */
  lemma TimesSlow(x: real, y: real, r: real)
    requires 0.0 <= x <= y && 0.0 <= r <= 1.0
    ensures y * r <= x * r + (y - x)
  {
    TimesMonotone(r, 1.0, y - x);
    Distribute(y, x, r);
  }

  lemma Distribute(y: real, x: real, r: real)
    ensures (y - x) * r == y * r - x * r
    ensures r * (y - x) == (y - x) * r
  {
  }

  lemma TimesCover(x: real, r: real)
    requires x >= 0.0 && r >= 1.0
    ensures x <= x * r
  {
    TimesMonotone(1.0, r, x);
  }

  lemma RateGrows(ratePct: real)
    ensures Grows(AtRate(ratePct))
  {
    var tax, r := AtRate(ratePct), Positive(ratePct) / 100.0;
    forall a: nat ensures tax(a) >= 0.0 {
      TimesPositive(a as real, r);
    }
    forall a: nat, b: nat | a <= b ensures 0 <= Rounded(tax, a) <= Rounded(tax, b) {
      TimesMonotone(a as real, b as real, r);
      RoundMonotone(tax(a), tax(b));
    }
  }

  lemma RateGrowsSlowly(ratePct: real)
    requires ratePct <= 100.0
    ensures GrowsSlowly(AtRate(ratePct))
  {
    var tax, r := AtRate(ratePct), Positive(ratePct) / 100.0;
    RateGrows(ratePct);
    forall a: nat, b: nat | a <= b ensures Rounded(tax, b) <= Rounded(tax, a) + (b - a) {
      TimesSlow(a as real, b as real, r);
      var d: nat := b - a;
      assert b as real - a as real == d as real;
      RoundMonotone(tax(b), tax(a) + d as real);
      RoundShift(tax(a), d);
    }
  }

  lemma RateCovers(ratePct: real)
    requires ratePct >= 100.0
    ensures Covers(AtRate(ratePct))
  {
    var tax, r := AtRate(ratePct), Positive(ratePct) / 100.0;
    forall a: nat ensures Rounded(tax, a) >= a {
      TimesCover(a as real, r);
      RoundMonotone(a as real, tax(a));
      RoundWhole(a);
    }
  }

  // ---- One deduction, in whole paise ----

  lemma SettleValue(gross: nat, tax: real, withheld: nat)
    requires tax >= 0.0
    ensures Settle(gross, tax, withheld) == Min(gross, Max(0, RoundMoney(tax) - withheld))
  {
    RoundDifference(tax, withheld);
    RoundWhole(Min(gross, Max(0, RoundMoney(tax - withheld as real))));
  }

  lemma WithholdValue(gross: nat, tax: Tax, threshold: real, before: nat, withheld: nat)
    requires threshold > 0.0 && tax(before + gross) >= 0.0
    ensures var o, year := Withhold(gross, tax, threshold, before, withheld), before + gross;
      && o.fyGrossIncluding == year
      && (year as real <= threshold ==> o == Outcome(0, BelowThreshold, year))
      && (year as real > threshold ==>
            && o.tds == Min(gross, Max(0, RoundMoney(tax(year)) - withheld))
            && o.basis == (if before as real > threshold then Above else Crossed))
  {
    RoundWhole(before + gross);
    SettleValue(gross, tax(before + gross), withheld);
  }

  lemma CleanedWhole(n: nat)
    ensures Cleaned(n as real) == n
  {
  }

  /** What one deduction comes to once the year's figures are whole paise. */
  lemma DeductionValue(fee: real, tax: Tax, threshold: real, before: nat, withheld: nat)
    requires threshold > 0.0 && Grows(tax)
    ensures var o, year := DeductionAt(fee, tax, threshold, before as real, withheld as real), before + Cleaned(fee);
      && o.fyGrossIncluding == year
      && (year as real <= threshold ==> o == Outcome(0, BelowThreshold, year))
      && (year as real > threshold ==>
            && o.tds == Min(Cleaned(fee), Max(0, Rounded(tax, year) - withheld))
            && o.basis == (if before as real > threshold then Above else Crossed))
  {
    CleanedWhole(before);
    CleanedWhole(withheld);
    WithholdValue(Cleaned(fee), tax, threshold, before, withheld);
  }

  /** The same for figures as they come: negative ones count for nothing, others to the nearest paisa. */
  lemma DeductionOfAnyFigures(fee: real, ratePct: real, threshold: real, before: real, withheld: real)
    requires threshold > 0.0
    ensures var o, year := Deduction(fee, ratePct, threshold, before, withheld), Cleaned(before) + Cleaned(fee);
      && o.fyGrossIncluding == year
      && (year as real <= threshold ==> o.tds == 0 && o.basis == BelowThreshold)
      && (year as real > threshold ==>
            && o.tds == Min(Cleaned(fee), Max(0, TaxOn(year, ratePct) - Cleaned(withheld)))
            && o.basis == (if Cleaned(before) as real > threshold then Above else Crossed))
  {
    RateGrows(ratePct);
    CleanedWhole(Cleaned(before));
    CleanedWhole(Cleaned(withheld));
    DeductionValue(fee, AtRate(ratePct), threshold, Cleaned(before), Cleaned(withheld));
  }

  /** With no threshold the rate applies to the payable alone, and at 100% or less stays within it. */
  lemma NoThresholdValue(fee: real, ratePct: real, threshold: real, before: real, withheld: real)
    requires threshold <= 0.0
    ensures var o := Deduction(fee, ratePct, threshold, before, withheld);
      && o.basis == NoThreshold && o.tds == TaxOn(Cleaned(fee), ratePct)
      && o.fyGrossIncluding == Cleaned(before) + Cleaned(fee)
      && (ratePct <= 100.0 ==> 0 <= o.tds <= Cleaned(fee))
  {
    RateGrows(ratePct);
    if ratePct <= 100.0 {
      RateGrowsSlowly(ratePct);
      assert AtRate(ratePct)(0) == 0.0;
      assert Rounded(AtRate(ratePct), 0) == 0;
    }
  }

  // ---- A year of payables at one rate ----

  /** The year's fees. */
  function Booked(fees: seq<real>): nat
  {
    if fees == [] then 0 else Booked(fees[..|fees| - 1]) + Cleaned(fees[|fees| - 1])
  }

  function Withheld(outcomes: seq<Outcome>): int
  {
    if outcomes == [] then 0 else Withheld(outcomes[..|outcomes| - 1]) + outcomes[|outcomes| - 1].tds
  }

  /** How many payables carry a label. */
  function Labelled(outcomes: seq<Outcome>, basis: Basis): nat
  {
    if outcomes == [] then 0
    else Labelled(outcomes[..|outcomes| - 1], basis) + if outcomes[|outcomes| - 1].basis == basis then 1 else 0
  }

  /** Each payable in turn, deducted on against all those before it. */
  function Year(fees: seq<real>, tax: Tax, threshold: real): (outcomes: seq<Outcome>)
  {
    if fees == [] then []
    else
      var n := |fees| - 1;
      var earlier := Year(fees[..n], tax, threshold);
      earlier + [DeductionAt(fees[n], tax, threshold, Booked(fees[..n]) as real, Withheld(earlier) as real)]
  }

  /** The fees booked since the year passed the threshold, the crossing payable included. */
  function SinceCrossing(fees: seq<real>, threshold: real): nat
  {
    if fees == [] || Booked(fees) as real <= threshold then 0
    else SinceCrossing(fees[..|fees| - 1], threshold) + Cleaned(fees[|fees| - 1])
  }

  lemma {:induction false} SinceAtMostBooked(fees: seq<real>, threshold: real)
    ensures SinceCrossing(fees, threshold) <= Booked(fees)
  {
    if fees != [] {
      SinceAtMostBooked(fees[..|fees| - 1], threshold);
    }
  }

  /** The arithmetic of one more payable past the threshold. */
  lemma NextTotal(since: nat, booked: nat, gross: nat, tax: Tax)
    requires since <= booked && Grows(tax) && (GrowsSlowly(tax) || Covers(tax))
    ensures var t := Min(since, Rounded(tax, booked));
      t + Min(gross, Max(0, Rounded(tax, booked + gross) - t)) == Min(since + gross, Rounded(tax, booked + gross))
  {
  }

  /** What a year withholds, in closed form. */
  function YearTotal(fees: seq<real>, tax: Tax, threshold: real): int
  {
    if Booked(fees) as real <= threshold then 0
    else Min(SinceCrossing(fees, threshold), Rounded(tax, Booked(fees)))
  }

  /** One payable takes the total from the closed form before it to the closed form after it. */
  lemma NextPayable(fees: seq<real>, tax: Tax, threshold: real)
    requires threshold > 0.0 && fees != [] && Grows(tax) && (GrowsSlowly(tax) || Covers(tax))
    ensures var n := |fees| - 1;
      var t := YearTotal(fees[..n], tax, threshold);
      && t >= 0
      && t + DeductionAt(fees[n], tax, threshold, Booked(fees[..n]) as real, t as real).tds
         == YearTotal(fees, tax, threshold)
  {
    var n := |fees| - 1;
    var before, gross, since := Booked(fees[..n]), Cleaned(fees[n]), SinceCrossing(fees[..n], threshold);
    var t := YearTotal(fees[..n], tax, threshold);
    assert Rounded(tax, before) >= 0 && Rounded(tax, before + gross) >= 0;
    DeductionValue(fees[n], tax, threshold, before, t);
    SinceAtMostBooked(fees[..n], threshold);
    NextTotal(since, before, gross, tax);
  }

  lemma {:induction false} YearClosedFormFor(fees: seq<real>, tax: Tax, threshold: real)
    requires threshold > 0.0 && Grows(tax) && (GrowsSlowly(tax) || Covers(tax))
    ensures var outcomes := Year(fees, tax, threshold);
      && Withheld(outcomes) == YearTotal(fees, tax, threshold)
      && Labelled(outcomes, Crossed) == (if Booked(fees) as real > threshold then 1 else 0)
  {
    if fees != [] {
      var n := |fees| - 1;
      YearClosedFormFor(fees[..n], tax, threshold);
      NextPayable(fees, tax, threshold);
      var earlier, outcomes := Year(fees[..n], tax, threshold), Year(fees, tax, threshold);
      assert outcomes[..|outcomes| - 1] == earlier;
      DeductionValue(fees[n], tax, threshold, Booked(fees[..n]), Withheld(earlier));
    }
  }

  /**
   * A year at one rate and one positive threshold: nothing is withheld until the year's fees pass
   * the threshold, and from then on the total withheld is the lesser of the fees booked since the
   * crossing and the rounded tax on the whole year. Exactly one payable is the crossing one. No
   * bound on the rate is needed.
   */
  lemma {:induction false} YearClosedForm(fees: seq<real>, ratePct: real, threshold: real)
    requires threshold > 0.0
    ensures var outcomes := Year(fees, AtRate(ratePct), threshold);
      && Withheld(outcomes) ==
           (if Booked(fees) as real <= threshold then 0
            else Min(SinceCrossing(fees, threshold), TaxOn(Booked(fees), ratePct)))
      && Labelled(outcomes, Crossed) == (if Booked(fees) as real > threshold then 1 else 0)
  {
    RateGrows(ratePct);
    if ratePct <= 100.0 {
      RateGrowsSlowly(ratePct);
    } else {
      RateCovers(ratePct);
    }
    YearClosedFormFor(fees, AtRate(ratePct), threshold);
  }

  /** The tax on a year's fees is the nearest paisa to the rate, in hundredths, of the fees. */
  lemma TaxExactly(fees: nat, ratePct: real, n: int)
    ensures ratePct >= 0.0 ==>
      (TaxOn(fees, ratePct) == n <==> n as real - 0.5 <= fees as real * (ratePct / 100.0) < n as real + 0.5)
    ensures ratePct <= 0.0 ==> TaxOn(fees, ratePct) == 0
  {
    RateGrows(ratePct);
    RoundExactly(AtRate(ratePct)(fees), n);
  }

  /** n is the nearest paisa to an exact figure. */
  predicate Nearest(n: int, exact: real) { n as real - 0.5 <= exact < n as real + 0.5 }

  /** w is the nearest paisa to an exact figure, or all there is if that is less. */
  predicate NearestUpTo(w: int, cap: int, exact: real)
  {
    w <= cap && w as real - 0.5 <= exact && (w < cap ==> Nearest(w, exact))
  }

  lemma CappedNearest(cap: int, n: int, exact: real)
    requires Nearest(n, exact)
    ensures NearestUpTo(Min(cap, n), cap, exact)
  {
  }

  lemma TaxIsNearest(fees: nat, ratePct: real)
    requires ratePct >= 0.0
    ensures Nearest(TaxOn(fees, ratePct), fees as real * (ratePct / 100.0))
  {
    TaxExactly(fees, ratePct, TaxOn(fees, ratePct));
  }

  lemma {:induction false} YearNearest(fees: seq<real>, ratePct: real, threshold: real, exact: real)
    requires threshold > 0.0 && Booked(fees) as real > threshold && Nearest(TaxOn(Booked(fees), ratePct), exact)
    ensures NearestUpTo(Withheld(Year(fees, AtRate(ratePct), threshold)), SinceCrossing(fees, threshold), exact)
  {
    YearClosedForm(fees, ratePct, threshold);
    CappedNearest(SinceCrossing(fees, threshold), TaxOn(Booked(fees), ratePct), exact);
  }

  /**
   * Past the threshold, what a year withholds is within half a paisa of the rate on the year's fees,
   * unless the fees booked since the crossing are less than that and all of them go.
   */
  lemma {:induction false} YearWithinHalfAPaisa(fees: seq<real>, ratePct: real, threshold: real)
    requires threshold > 0.0 && ratePct >= 0.0 && Booked(fees) as real > threshold
    ensures NearestUpTo(Withheld(Year(fees, AtRate(ratePct), threshold)), SinceCrossing(fees, threshold),
                        Booked(fees) as real * (ratePct / 100.0))
  {
    TaxIsNearest(Booked(fees), ratePct);
    YearNearest(fees, ratePct, threshold, Booked(fees) as real * (ratePct / 100.0));
  }

  /** Fees of 1,000.05 rupees at 10%, in a year long past its threshold and withheld on to date: 100.01 rupees. */
  lemma HalfAPaisaGoesUp()
    ensures Deduction(100005.0, 10.0, 5000000.0, 6000000.0, 600000.0).tds == 10001
  {
    var tax := AtRate(10.0);
    RateGrows(10.0);
    CleanedExactly(100005.0, 100005);
    DeductionValue(100005.0, tax, 5000000.0, 6000000, 600000);
    TaxExactly(6100005, 10.0, 610001);
  }

  // ---- Bookings, voids and rate changes ----

  datatype Payable = Payable(gross: nat, tds: int, live: bool)

  datatype Event =
    | Book(fee: real, ratePct: real, threshold: real)
    | Void(index: nat)

  function LiveFees(ledger: seq<Payable>): nat
  {
    if ledger == [] then 0
    else LiveFees(ledger[..|ledger| - 1]) + if ledger[|ledger| - 1].live then ledger[|ledger| - 1].gross else 0
  }

  function LiveTds(ledger: seq<Payable>): int
  {
    if ledger == [] then 0
    else LiveTds(ledger[..|ledger| - 1]) + if ledger[|ledger| - 1].live then ledger[|ledger| - 1].tds else 0
  }

  function BookAt(ledger: seq<Payable>, fee: real, tax: Tax, threshold: real): seq<Payable>
  {
    var o := DeductionAt(fee, tax, threshold, LiveFees(ledger) as real, LiveTds(ledger) as real);
    ledger + [Payable(Cleaned(fee), o.tds, true)]
  }

  /** A booking deducts against the live rows; a void takes a row out of the live ones. */
  function Apply(ledger: seq<Payable>, event: Event): seq<Payable>
  {
    match event
    case Book(fee, ratePct, threshold) =>
      BookAt(ledger, fee, AtRate(ratePct), threshold)
    case Void(index) =>
      if index < |ledger| then ledger[index := ledger[index].(live := false)] else ledger
  }

  function History(events: seq<Event>): seq<Payable>
  {
    if events == [] then [] else Apply(History(events[..|events| - 1]), events[|events| - 1])
  }

  /** Every booking is made under a positive threshold, at whatever rate. */
  ghost predicate UnderThreshold(events: seq<Event>)
  {
    forall e <- events :: e.Book? ==> e.threshold > 0.0
  }

  ghost predicate Sane(ledger: seq<Payable>)
  {
    forall p <- ledger :: 0 <= p.tds <= p.gross
  }

  lemma {:induction false} SaneTotals(ledger: seq<Payable>)
    requires Sane(ledger)
    ensures 0 <= LiveTds(ledger) <= LiveFees(ledger)
  {
    if ledger != [] {
      SaneTotals(ledger[..|ledger| - 1]);
      assert ledger[|ledger| - 1] in ledger;
    }
  }

  lemma {:induction false} SnocTotals(ledger: seq<Payable>, p: Payable)
    ensures LiveTds(ledger + [p]) == LiveTds(ledger) + if p.live then p.tds else 0
    ensures LiveFees(ledger + [p]) == LiveFees(ledger) + if p.live then p.gross else 0
  {
    assert (ledger + [p])[..|ledger|] == ledger;
  }

  lemma CappedAdd(was: int, gross: nat, due: int)
    ensures was + Min(gross, Max(0, due - was)) == Max(was, Min(was + gross, due))
    ensures 0 <= Min(gross, Max(0, due - was)) <= gross
  {
  }

  /** What a booking past the threshold makes of the live total, whatever came before it. */
  lemma {:induction false} BookingTotal(ledger: seq<Payable>, fee: real, tax: Tax, threshold: real)
    requires Sane(ledger) && threshold > 0.0 && Grows(tax)
    ensures var after := BookAt(ledger, fee, tax, threshold);
      var was, due := LiveTds(ledger), Rounded(tax, LiveFees(after));
      && LiveFees(after) == LiveFees(ledger) + Cleaned(fee)
      && LiveTds(after) ==
           (if LiveFees(after) as real <= threshold then was else Max(was, Min(was + Cleaned(fee), due)))
      && Sane(after)
  {
    SaneTotals(ledger);
    var before, withheld := LiveFees(ledger), LiveTds(ledger);
    DeductionValue(fee, tax, threshold, before, withheld);
    var gross, o := Cleaned(fee), DeductionAt(fee, tax, threshold, before as real, withheld as real);
    CappedAdd(withheld, gross, Rounded(tax, before + gross));
    assert 0 <= o.tds <= gross;
    SnocTotals(ledger, Payable(gross, o.tds, true));
  }

  lemma {:induction false} BookingBounded(ledger: seq<Payable>, fee: real, tax: Tax, threshold: real)
    requires Sane(ledger) && threshold > 0.0 && Grows(tax)
    ensures var after := BookAt(ledger, fee, tax, threshold);
      LiveTds(ledger) <= LiveTds(after) <= Max(LiveTds(ledger), Rounded(tax, LiveFees(after)))
  {
    BookingTotal(ledger, fee, tax, threshold);
  }

  /**
   * Over any history of bookings, voids and rate changes: every deduction lies between nothing and
   * the payable's own fee, so live TDS never exceeds live fees.
   */
  lemma {:induction false} HistoryIsSane(events: seq<Event>)
    requires UnderThreshold(events)
    ensures Sane(History(events))
    ensures 0 <= LiveTds(History(events)) <= LiveFees(History(events))
  {
    if events != [] {
      var n := |events| - 1;
      HistoryIsSane(events[..n]);
      var ledger, e := History(events[..n]), events[n];
      assert e in events;
      match e {
        case Book(fee, ratePct, threshold) =>
          RateGrows(ratePct);
          BookingTotal(ledger, fee, AtRate(ratePct), threshold);
        case Void(index) =>
          VoidIsSane(ledger, index);
      }
    }
    SaneTotals(History(events));
  }

  lemma VoidIsSane(ledger: seq<Payable>, index: nat)
    requires Sane(ledger)
    ensures Sane(Apply(ledger, Void(index)))
  {
  }

  /**
   * A booking never takes the live withholding above the larger of what was already withheld and
   * the tax due on the live year at its rate, and never below what was already withheld.
   */
  lemma {:induction false} BookingNeverOverWithholds(events: seq<Event>, fee: real, ratePct: real, threshold: real)
    requires UnderThreshold(events) && threshold > 0.0
    ensures var ledger := History(events);
      var after := Apply(ledger, Book(fee, ratePct, threshold));
      LiveTds(ledger) <= LiveTds(after) <= Max(LiveTds(ledger), TaxOn(LiveFees(after), ratePct))
  {
    HistoryIsSane(events);
    RateGrows(ratePct);
    BookingBounded(History(events), fee, AtRate(ratePct), threshold);
  }
}
