/** `computeScenarios` (dev/js/main.js:784-820): the round recomputed at three
    pre-money valuations, a quarter below, at and a quarter above the one
    entered (`scenarioBoundary`, dev/js/main.js:3), one summary record each.

    The source's loop pushes a record per scenario and lets an error thrown by
    `aggregateCalculations` escape, so the first scenario that fails decides
    the error and no records are returned. */
module Scenarios {

  import opened Basics
  import opened RoundCalculations

  /** How far the outer scenarios move the valuation, as a fraction. */
  const ScenarioBoundary: real := 0.25

  datatype ScenarioName = Pessimistic | Base | Optimistic

  /** The scenarios in the order the source lists and reports them. */
  const Names: seq<ScenarioName> := [Pessimistic, Base, Optimistic]

  /** The factor each scenario applies to the entered valuation. */
  function Factor(name: ScenarioName): (f: real)
    ensures f > 0.0
    ensures f == 1.0 <==> name == Base
  {
    match name
    case Pessimistic => 1.0 - ScenarioBoundary
    case Base => 1.0
    case Optimistic => 1.0 + ScenarioBoundary
  }

  /** A scenario's valuation; a missing valuation stays missing (in the
      source it becomes NaN, which the price stage rejects just the same). */
  function ScenarioValuation(pre: Option<real>, name: ScenarioName): (r: Option<real>)
    ensures r.Some? <==> pre.Some?
    ensures Absent(r) <==> Absent(pre)
  {
    match pre
    case None => None
    case Some(p) => Some(p * Factor(name))
  }

  /** One row of the scenario table. */
  datatype ScenarioRecord = ScenarioRecord(
    name: ScenarioName,
    preMoneyValuation: real,
    initialNumberOfShares: real,
    founderOwnershipBefore: real,
    amountRaised: real,
    newSharesIssued: int,
    pricePerShare: real,
    warrantAmount: Option<real>,
    warrantsIssued: real,
    warrantExercisePrice: real,
    postMoneyValuation: real,
    dilutionFromFundraising: real,
    dilutionFromWarrants: real,
    founderOwnershipAfter: real)

  /** The row the loop pushes for one scenario, given the inputs with that
      scenario's valuation and their aggregate. `warrantAmount` is the
      entered warrant amount (possibly absent), not the computed cash flow. */
  function Row(name: ScenarioName, inputs: RoundInputs, c: RoundResult): ScenarioRecord {
    ScenarioRecord(
      name, c.preMoneyValuation, c.initialShares, c.originalFounderOwnership, c.amountRaised,
      c.newSharesIssued, c.pricePerShare, inputs.amountOfWarrants, c.numberOfWarrantShares,
      c.exercisePrice, c.postMoneyValuation, c.dilutionFromFundraising, c.dilutionFromWarrants,
      c.founderOwnershipAfter)
  }

  /** The inputs one scenario runs on: everything as entered but the valuation. */
  function ScenarioInputs(v: RoundInputs, name: ScenarioName): (r: RoundInputs)
    ensures r.preMoneyValuation == ScenarioValuation(v.preMoneyValuation, name)
    ensures r.(preMoneyValuation := v.preMoneyValuation) == v
  {
    v.(preMoneyValuation := ScenarioValuation(v.preMoneyValuation, name))
  }

  /** What one scenario yields: its row, or the error its aggregate throws.
      The row is labelled with the scenario, carries the scenario's valuation
      and passes the entered warrant amount through. */
  function Outcome(v: RoundInputs, name: ScenarioName): (r: Result<ScenarioRecord>)
    ensures r.Ok? <==> AggregateCalculations(ScenarioInputs(v, name)).Ok?
    ensures r.Err? ==> r.error == AggregateCalculations(ScenarioInputs(v, name)).error
    ensures r.Ok? ==>
      && r.value.name == name
      && Some(r.value.preMoneyValuation) == ScenarioValuation(v.preMoneyValuation, name)
      && r.value.warrantAmount == v.amountOfWarrants
  {
    match AggregateCalculations(ScenarioInputs(v, name))
    case Err(e) => Err(e)
    case Ok(c) => Ok(Row(name, ScenarioInputs(v, name), c))
  }

  /** `computeScenarios`: the scenario loop. On success the rows are the three
      outcomes in order; otherwise the error is that of the first scenario
      that fails, every earlier one having succeeded. */
  method ComputeScenarios(v: RoundInputs) returns (r: Result<seq<ScenarioRecord>>)
    ensures r.Ok? <==> forall name :: Outcome(v, name).Ok?
    ensures r.Ok? ==> |r.value| == |Names| && forall k :: 0 <= k < |Names| ==> Outcome(v, Names[k]) == Ok(r.value[k])
    ensures r.Err? ==>
      exists k :: 0 <= k < |Names| && Outcome(v, Names[k]) == Err(r.error)
                  && forall j :: 0 <= j < k ==> Outcome(v, Names[j]).Ok?
  {
    var scenarios := [
      (Pessimistic, ScenarioValuation(v.preMoneyValuation, Pessimistic)),
      (Base, ScenarioValuation(v.preMoneyValuation, Base)),
      (Optimistic, ScenarioValuation(v.preMoneyValuation, Optimistic))
    ];
    var results: seq<ScenarioRecord> := [];
    for k := 0 to |scenarios|
      invariant |results| == k
      invariant forall j :: 0 <= j < k ==> Outcome(v, Names[j]) == Ok(results[j])
    {
      var (name, pre) := scenarios[k];
      var inputs := v.(preMoneyValuation := pre);
      var calculations := AggregateCalculations(inputs);
      if calculations.Err? {
        assert Outcome(v, Names[k]) == Err(calculations.error);
        return Err(calculations.error);
      }
      results := results + [Row(name, inputs, calculations.value)];
    }
    assert forall name :: Outcome(v, name).Ok? by {
      forall name ensures Outcome(v, name).Ok? {
        assert name == Names[0] || name == Names[1] || name == Names[2];
      }
    }
    return Ok(results);
  }

  // ---------------------------------------------------------------------------
  // What the scenario table promises
  // ---------------------------------------------------------------------------

  /** A row is the one built from its scenario's successful aggregate. */
  lemma RowOfAggregate(v: RoundInputs, name: ScenarioName, row: ScenarioRecord) returns (c: RoundResult)
    requires Outcome(v, name) == Ok(row)
    ensures AggregateCalculations(ScenarioInputs(v, name)) == Ok(c)
    ensures row == Row(name, ScenarioInputs(v, name), c)
  {
    c := AggregateCalculations(ScenarioInputs(v, name)).value;
  }

  /** A row reports its scenario's name and valuation (the entered one times
      0.75, 1 or 1.25) and, unchanged, the entered share count, ownership,
      raise and warrant amount. */
  lemma RowReportsInputs(v: RoundInputs, name: ScenarioName, row: ScenarioRecord)
    requires Outcome(v, name) == Ok(row)
    ensures && row.name == name
            && row.preMoneyValuation == v.preMoneyValuation.value * Factor(name)
            && row.initialNumberOfShares == v.numberOfShares.value
            && row.founderOwnershipBefore == v.currentOwnership.value
            && row.amountRaised == v.amountToRaise.value
            && row.warrantAmount == v.amountOfWarrants
            && Worth(row.pricePerShare, row.initialNumberOfShares, row.preMoneyValuation)
            && row.founderOwnershipAfter
               == row.founderOwnershipBefore - row.dilutionFromFundraising - row.dilutionFromWarrants
  {
    RowCarriesInputs(v, name, row);
    RowFigures(v, name, row);
  }

  lemma RowCarriesInputs(v: RoundInputs, name: ScenarioName, row: ScenarioRecord)
    requires Outcome(v, name) == Ok(row)
    ensures && row.name == name
            && Some(row.preMoneyValuation) == ScenarioValuation(v.preMoneyValuation, name)
            && row.initialNumberOfShares == v.numberOfShares.value
            && row.founderOwnershipBefore == v.currentOwnership.value
            && row.amountRaised == v.amountToRaise.value
            && row.warrantAmount == v.amountOfWarrants
  {
    var c := RowOfAggregate(v, name, row);
  }

  lemma RowFigures(v: RoundInputs, name: ScenarioName, row: ScenarioRecord)
    requires Outcome(v, name) == Ok(row)
    ensures Worth(row.pricePerShare, row.initialNumberOfShares, row.preMoneyValuation)
    ensures row.founderOwnershipAfter
            == row.founderOwnershipBefore - row.dilutionFromFundraising - row.dilutionFromWarrants
  {
    var c := RowOfAggregate(v, name, row);
    AggregateFigures(ScenarioInputs(v, name), c);
  }

  /** At `price` apiece, `shares` shares are worth `total`. */
  predicate Worth(price: real, shares: real, total: real) {
    price * shares == total
  }

  /** `count` is `amount` bought at `price`, to the nearest share. */
  predicate NearestCount(amount: real, price: real, count: int) {
    price != 0.0 && amount / price - 0.5 < count as real <= amount / price + 0.5
  }

  /** The aggregate's price and new-share figures, each stated as one fact. */
  lemma AggregateFigures(w: RoundInputs, c: RoundResult)
    requires AggregateCalculations(w) == Ok(c)
    ensures Worth(c.pricePerShare, c.initialShares, c.preMoneyValuation)
    ensures NearestCount(c.amountRaised, c.pricePerShare, c.newSharesIssued)
  {
    AggregatePricing(w, c);
  }

  /** The base scenario is the round as entered: it fails exactly when the
      plain aggregate does, with the same error, and otherwise reports the
      same figures. */
  lemma BaseScenarioIsTheRound(v: RoundInputs)
    ensures Outcome(v, Base).Err? <==> AggregateCalculations(v).Err?
    ensures Outcome(v, Base).Err? ==> Outcome(v, Base).error == AggregateCalculations(v).error
    ensures Outcome(v, Base).Ok? ==> Outcome(v, Base).value == Row(Base, v, AggregateCalculations(v).value)
  {
    assert ScenarioInputs(v, Base) == v;
  }

  /** A missing valuation, share count, raise, exercise price, discount or
      warrant quantity does not depend on the valuation: when one scenario
      fails for such a reason, every scenario fails for it. */
  lemma MissingFieldFailsEveryScenario(v: RoundInputs, name: ScenarioName, other: ScenarioName)
    requires Outcome(v, name).Err?
    requires Outcome(v, name).error in
      {MissingValuationOrShares, MissingAmountToRaise, MissingExercisePrice, MissingDiscountPrice, MissingWarrantQuantity}
    ensures Outcome(v, other) == Outcome(v, name)
  {
    var a := ScenarioInputs(v, name);
    var b := ScenarioInputs(v, other);
    AggregateErrors(a);
    AggregateErrors(b);
    var e := Outcome(v, name).error;
    if e == MissingValuationOrShares {
      assert Absent(v.preMoneyValuation) || Absent(v.numberOfShares);
    } else if e == MissingAmountToRaise {
      assert Absent(v.amountToRaise);
    } else if e == MissingExercisePrice || e == MissingDiscountPrice {
      assert if v.warrantType == Fixed then Absent(v.exercisePrice) else Absent(v.discountPrice);
    } else {
      assert Absent(v.numberOfWarrants) && Absent(v.amountOfWarrants);
    }
  }

  /** The price per share in each row of the table: the scenario's factor
      times the price `q` at the entered valuation. */
  lemma RowPrice(v: RoundInputs, name: ScenarioName, row: ScenarioRecord, q: real)
    requires Outcome(v, name) == Ok(row)
    requires v.preMoneyValuation.Some? && v.numberOfShares.Some? && v.numberOfShares.value > 0.0
    requires q == v.preMoneyValuation.value / v.numberOfShares.value
    ensures PricedAt(row.pricePerShare, Factor(name), q)
  {
    RowCarriesInputs(v, name, row);
    RowFigures(v, name, row);
    PriceIsScaled(
      row.pricePerShare, row.initialNumberOfShares, row.preMoneyValuation,
      v.preMoneyValuation, v.numberOfShares.value, name, q);
  }

  /** A row's price is `f` times the price `q`. */
  predicate PricedAt(price: real, f: real, q: real) {
    price == f * q
  }

  /** A price `x` at which `n` shares are worth a scenario's valuation is
      the scenario's factor times the price `q` at the entered valuation. */
  lemma PriceIsScaled(x: real, n: real, total: real, pre: Option<real>, shares: real, name: ScenarioName, q: real)
    requires n == shares && shares > 0.0 && pre.Some?
    requires Worth(x, n, total) && Some(total) == ScenarioValuation(pre, name) && q == pre.value / shares
    ensures PricedAt(x, Factor(name), q)
  {
    assert x * shares == (Factor(name) * q) * shares;
  }

  /** With a positive valuation and share count, the price per share in the
      table rises strictly from the pessimistic to the optimistic row. */
  lemma ScenarioPricesOrdered(v: RoundInputs, rows: seq<ScenarioRecord>)
    requires |rows| == |Names| && forall k :: 0 <= k < |Names| ==> Outcome(v, Names[k]) == Ok(rows[k])
    requires v.preMoneyValuation.Some? && v.numberOfShares.Some?
    requires v.preMoneyValuation.value > 0.0 && v.numberOfShares.value > 0.0
    ensures 0.0 < rows[0].pricePerShare < rows[1].pricePerShare < rows[2].pricePerShare
  {
    PricesOrdered(v, rows[0], rows[1], rows[2]);
  }

  lemma PricesOrdered(v: RoundInputs, p: ScenarioRecord, b: ScenarioRecord, o: ScenarioRecord)
    requires Outcome(v, Pessimistic) == Ok(p) && Outcome(v, Base) == Ok(b) && Outcome(v, Optimistic) == Ok(o)
    requires v.preMoneyValuation.Some? && v.numberOfShares.Some?
    requires v.preMoneyValuation.value > 0.0 && v.numberOfShares.value > 0.0
    ensures 0.0 < p.pricePerShare < b.pricePerShare < o.pricePerShare
  {
    var q := EnteredPrice(v.preMoneyValuation.value, v.numberOfShares.value);
    RowPrice(v, Pessimistic, p, q);
    RowPrice(v, Base, b, q);
    RowPrice(v, Optimistic, o, q);
    FactorsOrdered(q, p, b, o);
  }

  /** The price per share at the entered valuation. */
  lemma EnteredPrice(pre: real, shares: real) returns (q: real)
    requires pre > 0.0 && shares > 0.0
    ensures q == pre / shares && q > 0.0
  {
    q := pre / shares;
  }

  /** Rows priced at 0.75, 1 and 1.25 times a positive price are in that order. */
  lemma FactorsOrdered(q: real, p: ScenarioRecord, b: ScenarioRecord, o: ScenarioRecord)
    requires q > 0.0
    requires PricedAt(p.pricePerShare, Factor(Pessimistic), q) && PricedAt(b.pricePerShare, Factor(Base), q)
    requires PricedAt(o.pricePerShare, Factor(Optimistic), q)
    ensures 0.0 < p.pricePerShare < b.pricePerShare < o.pricePerShare
  {
  }

  /** A row's new shares are its raise bought at its price, to the nearest share. */
  lemma RowNewShares(v: RoundInputs, name: ScenarioName, row: ScenarioRecord)
    requires Outcome(v, name) == Ok(row)
    ensures row.amountRaised == v.amountToRaise.value
    ensures NearestCount(row.amountRaised, row.pricePerShare, row.newSharesIssued)
  {
    var c := RowOfAggregate(v, name, row);
    AggregateFigures(ScenarioInputs(v, name), c);
  }

  /** With a positive valuation, share count and raise, a higher row of the
      table never issues more new shares than a lower one. */
  lemma ScenarioNewSharesOrdered(v: RoundInputs, rows: seq<ScenarioRecord>)
    requires |rows| == |Names| && forall k :: 0 <= k < |Names| ==> Outcome(v, Names[k]) == Ok(rows[k])
    requires v.preMoneyValuation.Some? && v.numberOfShares.Some? && v.amountToRaise.Some?
    requires v.preMoneyValuation.value > 0.0 && v.numberOfShares.value > 0.0 && v.amountToRaise.value > 0.0
    ensures rows[0].newSharesIssued >= rows[1].newSharesIssued >= rows[2].newSharesIssued
  {
    NewSharesOrdered(v, rows[0], rows[1], rows[2]);
  }

  lemma NewSharesOrdered(v: RoundInputs, p: ScenarioRecord, b: ScenarioRecord, o: ScenarioRecord)
    requires Outcome(v, Pessimistic) == Ok(p) && Outcome(v, Base) == Ok(b) && Outcome(v, Optimistic) == Ok(o)
    requires v.preMoneyValuation.Some? && v.numberOfShares.Some? && v.amountToRaise.Some?
    requires v.preMoneyValuation.value > 0.0 && v.numberOfShares.value > 0.0 && v.amountToRaise.value > 0.0
    ensures p.newSharesIssued >= b.newSharesIssued >= o.newSharesIssued
  {
    PricesOrdered(v, p, b, o);
    RowNewShares(v, Pessimistic, p);
    RowNewShares(v, Base, b);
    RowNewShares(v, Optimistic, o);
    var raise := v.amountToRaise.value;
    NewSharesFollowPrice(raise, p.pricePerShare, b.pricePerShare, p.newSharesIssued, b.newSharesIssued);
    NewSharesFollowPrice(raise, b.pricePerShare, o.pricePerShare, b.newSharesIssued, o.newSharesIssued);
  }

  /** Buying a positive raise at a lower price rounds to at least as many shares. */
  lemma NewSharesFollowPrice(raise: real, lower: real, higher: real, more: int, fewer: int)
    requires raise > 0.0 && 0.0 < lower < higher
    requires NearestCount(raise, lower, more) && NearestCount(raise, higher, fewer)
    ensures more >= fewer
  {
    DivisionAntitone(raise, lower, higher);
    RoundHalfUpUnique(raise / lower, more);
    RoundHalfUpUnique(raise / higher, fewer);
    RoundHalfUpMonotone(raise / higher, raise / lower);
  }
}
