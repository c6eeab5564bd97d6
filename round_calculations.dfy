/** The calculator's round pipeline (dev/js/main.js:635-782): price per share,
    new shares issued, warrant exercise price and count, the two-stage
    dilution of the founder, post-money valuation, and the aggregation that
    chains them for one valuation assumption.

    Arithmetic is over exact reals; `Math.round` is `RoundHalfUp`. A field of
    the value record is an `Option<real>`, `None` standing for a key that is
    absent (`undefined`). Every thrown `Error` becomes a `CalcError`. */
module RoundCalculations {

  import opened Basics

  datatype WarrantType = Fixed | FloorCap

  /** The value record the form produces (keys as in the source, camel-cased). */
  datatype RoundInputs = RoundInputs(
    warrantType: WarrantType,
    preMoneyValuation: Option<real>,
    numberOfShares: Option<real>,
    currentOwnership: Option<real>,
    amountToRaise: Option<real>,
    exercisePrice: Option<real>,
    discountPrice: Option<real>,
    floorPrice: Option<real>,
    capPrice: Option<real>,
    numberOfWarrants: Option<real>,
    amountOfWarrants: Option<real>)

  /** One variant per `throw new Error(...)` of the pipeline, plus
      `DivisionByZero` where JavaScript would quietly produce Infinity or NaN. */
  datatype CalcError =
    | MissingValuationOrShares
    | MissingAmountToRaise
    | MissingExercisePrice
    | MissingDiscountPrice
    | MissingWarrantQuantity
    | MissingOwnershipOrShares
    | MissingValuationOrRaise
    | DivisionByZero

  datatype Result<+T> = Ok(value: T) | Err(error: CalcError) {
    predicate IsFailure() {
      Err?
    }

    function PropagateFailure<U>(): Result<U>
      requires Err?
    {
      Err(error)
    }

    function Extract(): T
      requires Ok?
    {
      value
    }
  }

  /** What the source's `!x` test treats as missing: an absent key or zero. */
  predicate Absent(x: Option<real>) {
    x.None? || x.value == 0.0
  }

  /** `Math.round`: the nearest integer, halves rounded up. */
  function RoundHalfUp(x: real): (n: int)
    ensures x - 0.5 < n as real <= x + 0.5
  {
    (x + 0.5).Floor
  }

  /** `Math.round` picks the only integer in the half-open window around `x`. */
  lemma RoundHalfUpUnique(x: real, n: int)
    requires x - 0.5 < n as real <= x + 0.5
    ensures RoundHalfUp(x) == n
  {
  }

  lemma RoundHalfUpMonotone(x: real, y: real)
    requires x <= y
    ensures RoundHalfUp(x) <= RoundHalfUp(y)
  {
  }

  // ---------------------------------------------------------------------------
  // Price per share and new shares (dev/js/main.js:635-649)
  // ---------------------------------------------------------------------------

  /** `calculatePricePerShare`: pre-money valuation spread over the shares. */
  function PricePerShare(v: RoundInputs): (r: Result<real>)
    ensures r.Ok? <==> !Absent(v.preMoneyValuation) && !Absent(v.numberOfShares)
    ensures r.Err? ==> r.error == MissingValuationOrShares
    ensures r.Ok? ==> r.value * v.numberOfShares.value == v.preMoneyValuation.value && r.value != 0.0
  {
    if Absent(v.preMoneyValuation) || Absent(v.numberOfShares) then Err(MissingValuationOrShares)
    else Ok(v.preMoneyValuation.value / v.numberOfShares.value)
  }

  /** `calculateNewSharesIssued`: the amount raised bought at the round's
      price, rounded to whole shares. */
  function NewSharesIssued(v: RoundInputs, pricePerShare: real): (r: Result<int>)
    ensures r.Ok? <==> !Absent(v.amountToRaise) && pricePerShare != 0.0
    ensures Absent(v.amountToRaise) ==> r == Err(MissingAmountToRaise)
    ensures r.Ok? ==>
      var bought := v.amountToRaise.value / pricePerShare;
      bought - 0.5 < r.value as real <= bought + 0.5
  {
    if Absent(v.amountToRaise) then Err(MissingAmountToRaise)
    else if pricePerShare == 0.0 then Err(DivisionByZero)
    else Ok(RoundHalfUp(v.amountToRaise.value / pricePerShare))
  }

  // ---------------------------------------------------------------------------
  // Warrants (dev/js/main.js:651-706)
  // ---------------------------------------------------------------------------

  /** The floor/cap clamp of the discounted exercise price: both bounds,
      only a floor, only a cap, or none. */
  function ClampExercisePrice(raw: real, floor: Option<real>, cap: Option<real>): (r: real)
    ensures floor.Some? ==> r >= floor.value
    ensures cap.Some? && (floor.None? || floor.value <= cap.value) ==> r <= cap.value
    ensures (floor.None? || floor.value <= raw) && (cap.None? || raw <= cap.value) ==> r == raw
    ensures r == raw || (floor.Some? && r == floor.value) || (cap.Some? && r == cap.value)
    ensures floor.Some? && raw < floor.value ==> r == floor.value
    ensures cap.Some? && (floor.None? || floor.value <= cap.value) && raw > cap.value ==> r == cap.value
    ensures floor.Some? && cap.Some? && floor.value > cap.value ==> r == floor.value
  {
    match (floor, cap)
    case (Some(f), Some(c)) => Max(f, Min(raw, c))
    case (Some(f), None) => Max(f, raw)
    case (None, Some(c)) => Min(raw, c)
    case (None, None) => raw
  }

  function Max(a: real, b: real): real {
    if a >= b then a else b
  }

  function Min(a: real, b: real): real {
    if a <= b then a else b
  }

  /** The exercise price by warrant type: the given fixed price, or the round
      price less the discount, clamped by the optional floor and cap. Only a
      missing fixed price or a missing discount can stop it; a floor/cap price
      lies within the bounds whenever floor <= cap, whatever the discount. */
  function ExercisePrice(v: RoundInputs, pricePerShare: real): (r: Result<real>)
    ensures r.Err? <==> if v.warrantType == Fixed then Absent(v.exercisePrice) else Absent(v.discountPrice)
    ensures r.Err? ==> r.error == if v.warrantType == Fixed then MissingExercisePrice else MissingDiscountPrice
    ensures v.warrantType == Fixed && r.Ok? ==> r.value == v.exercisePrice.value
    ensures v.warrantType == FloorCap && r.Ok? && v.floorPrice.Some? ==> v.floorPrice.value <= r.value
    ensures && v.warrantType == FloorCap && r.Ok? && v.capPrice.Some?
            && (v.floorPrice.None? || v.floorPrice.value <= v.capPrice.value) ==>
      r.value <= v.capPrice.value
  {
    match v.warrantType
    case Fixed =>
      if Absent(v.exercisePrice) then Err(MissingExercisePrice) else Ok(v.exercisePrice.value)
    case FloorCap =>
      if Absent(v.discountPrice) then Err(MissingDiscountPrice)
      else Ok(ClampExercisePrice(pricePerShare * (1.0 - v.discountPrice.value), v.floorPrice, v.capPrice))
  }

  /** The number of warrant shares: the count when one is given (nonzero),
      otherwise the cash amount converted at the exercise price. */
  function WarrantQuantity(v: RoundInputs, exercisePrice: real): (r: Result<real>)
    ensures !Absent(v.numberOfWarrants) ==> r == Ok(v.numberOfWarrants.value)
    ensures Absent(v.numberOfWarrants) && !Absent(v.amountOfWarrants) && exercisePrice != 0.0 ==>
      r.Ok? && r.value * exercisePrice == v.amountOfWarrants.value
    ensures r.Err? <==> Absent(v.numberOfWarrants) && (Absent(v.amountOfWarrants) || exercisePrice == 0.0)
    ensures Absent(v.numberOfWarrants) && Absent(v.amountOfWarrants) ==> r == Err(MissingWarrantQuantity)
  {
    if !Absent(v.numberOfWarrants) then Ok(v.numberOfWarrants.value)
    else if !Absent(v.amountOfWarrants) then
      if exercisePrice == 0.0 then Err(DivisionByZero) else Ok(v.amountOfWarrants.value / exercisePrice)
    else Err(MissingWarrantQuantity)
  }

  datatype WarrantTerms = WarrantTerms(exercisePrice: real, numberOfWarrantShares: real)

  /** `calculateWarrantShares`: the exercise price, then the count given or
      the count the given amount buys at that price. */
  function WarrantShares(v: RoundInputs, pricePerShare: real): (r: Result<WarrantTerms>)
    ensures r.Ok? <==>
      ExercisePrice(v, pricePerShare).Ok? && WarrantQuantity(v, ExercisePrice(v, pricePerShare).value).Ok?
    ensures r.Err? && ExercisePrice(v, pricePerShare).Err? ==> r.error == ExercisePrice(v, pricePerShare).error
    ensures r.Ok? ==> ExercisePrice(v, pricePerShare) == Ok(r.value.exercisePrice)
    ensures r.Ok? ==> WarrantQuantity(v, r.value.exercisePrice) == Ok(r.value.numberOfWarrantShares)
    ensures r.Ok? && !Absent(v.numberOfWarrants) ==> r.value.numberOfWarrantShares == v.numberOfWarrants.value
  {
    var exercisePrice :- ExercisePrice(v, pricePerShare);
    var count :- WarrantQuantity(v, exercisePrice);
    Ok(WarrantTerms(exercisePrice, count))
  }

  /** `calculateCashFlowImpact`: what the warrant holders pay on exercise. */
  function CashFlowImpact(exercisePrice: real, numberOfWarrantShares: real): real {
    exercisePrice * numberOfWarrantShares
  }

  /** Paying for the count an amount buys at a nonzero exercise price costs
      exactly that amount: the cash flow undoes the conversion. */
  lemma CashFlowRepaysAmount(exercisePrice: real, amount: real)
    requires exercisePrice != 0.0
    ensures CashFlowImpact(exercisePrice, amount / exercisePrice) == amount
  {
  }

  /** The floor/cap price: the raw discounted price clamped to the given
      bounds, the floor winning when it lies above the cap. */
  lemma ExercisePriceResolution(v: RoundInputs, pricePerShare: real)
    requires v.warrantType == FloorCap && !Absent(v.discountPrice)
    ensures var raw := pricePerShare * (1.0 - v.discountPrice.value);
      && (v.floorPrice.Some? && raw < v.floorPrice.value ==> ExercisePrice(v, pricePerShare) == Ok(v.floorPrice.value))
      && (v.capPrice.Some? && (v.floorPrice.None? || v.floorPrice.value <= v.capPrice.value) && raw > v.capPrice.value ==>
          ExercisePrice(v, pricePerShare) == Ok(v.capPrice.value))
      && ((v.floorPrice.None? || v.floorPrice.value <= raw) && (v.capPrice.None? || raw <= v.capPrice.value) ==>
          ExercisePrice(v, pricePerShare) == Ok(raw))
      && (v.floorPrice.Some? && v.capPrice.Some? && v.floorPrice.value > v.capPrice.value ==>
          ExercisePrice(v, pricePerShare) == Ok(v.floorPrice.value))
  {
    var raw := pricePerShare * (1.0 - v.discountPrice.value);
    assert ExercisePrice(v, pricePerShare).Ok?;
    assert ExercisePrice(v, pricePerShare).value == ClampExercisePrice(raw, v.floorPrice, v.capPrice);
  }

  /** Warrants given as a count of `n` cost `n` times the exercise price. */
  lemma WarrantAmountFromCount(v: RoundInputs, pricePerShare: real)
    requires !Absent(v.numberOfWarrants) && ExercisePrice(v, pricePerShare).Ok?
    ensures WarrantShares(v, pricePerShare).Ok?
    ensures var t := WarrantShares(v, pricePerShare).value;
      && t.numberOfWarrantShares == v.numberOfWarrants.value
      && CashFlowImpact(t.exercisePrice, t.numberOfWarrantShares)
         == v.numberOfWarrants.value * ExercisePrice(v, pricePerShare).value
  {
  }

  /** Warrants given only as a cash amount of `n` times the exercise price
      come to `n` shares: the count and the amount are two views of one
      quantity, converted at the exercise price. */
  lemma WarrantCountFromAmount(v: RoundInputs, pricePerShare: real, n: real)
    requires Absent(v.numberOfWarrants)
    requires ExercisePrice(v, pricePerShare).Ok? && ExercisePrice(v, pricePerShare).value != 0.0
    requires n != 0.0 && v.amountOfWarrants == Some(n * ExercisePrice(v, pricePerShare).value)
    ensures WarrantShares(v, pricePerShare).Ok?
    ensures WarrantShares(v, pricePerShare).value.numberOfWarrantShares == n
    ensures var t := WarrantShares(v, pricePerShare).value;
      CashFlowImpact(t.exercisePrice, t.numberOfWarrantShares) == v.amountOfWarrants.value
  {
    var e := ExercisePrice(v, pricePerShare).value;
    assert n * e / e == n;
  }

  /** With neither a count nor an amount the warrant stage fails, once the
      exercise price is known. */
  lemma MissingQuantityFails(v: RoundInputs, pricePerShare: real)
    requires Absent(v.numberOfWarrants) && Absent(v.amountOfWarrants)
    requires ExercisePrice(v, pricePerShare).Ok?
    ensures WarrantShares(v, pricePerShare) == Err(MissingWarrantQuantity)
  {
  }

  // ---------------------------------------------------------------------------
  // Dilution (dev/js/main.js:708-738)
  // ---------------------------------------------------------------------------

  datatype Dilution = Dilution(founderOwnershipAfter: real, dilutionFromFundraising: real, dilutionFromWarrants: real)

  /** The founder's shares: the ownership fraction of the share count, rounded. */
  function FounderShares(numberOfShares: real, ownership: real): int {
    RoundHalfUp(numberOfShares * ownership)
  }

  /** `calculateDilutionImpact`: the founder's ownership after the round and
      after the warrants are exercised, and the loss each stage causes. */
  function DilutionImpact(v: RoundInputs, newSharesIssued: int, warrantShares: real): (r: Result<Dilution>)
    ensures r.Err? <==>
      || v.currentOwnership.None? || v.numberOfShares.None?
      || RoundHalfUp(v.numberOfShares.value + newSharesIssued as real) == 0
      || RoundHalfUp(v.numberOfShares.value + newSharesIssued as real + warrantShares) == 0
    ensures v.currentOwnership.None? || v.numberOfShares.None? ==> r == Err(MissingOwnershipOrShares)
    ensures v.currentOwnership.Some? && v.numberOfShares.Some? && r.Err? ==> r == Err(DivisionByZero)
    ensures r.Ok? ==>
      r.value.founderOwnershipAfter ==
      v.currentOwnership.value - r.value.dilutionFromFundraising - r.value.dilutionFromWarrants
    ensures r.Ok? ==>
      var founder := FounderShares(v.numberOfShares.value, v.currentOwnership.value) as real;
      && r.value.founderOwnershipAfter
         * RoundHalfUp(v.numberOfShares.value + newSharesIssued as real + warrantShares) as real == founder
      && (v.currentOwnership.value - r.value.dilutionFromFundraising)
         * RoundHalfUp(v.numberOfShares.value + newSharesIssued as real) as real == founder
  {
    if v.currentOwnership.None? || v.numberOfShares.None? then Err(MissingOwnershipOrShares)
    else
      var shares := v.numberOfShares.value;
      var ownership := v.currentOwnership.value;
      var originalFounderShares := FounderShares(shares, ownership);
      var totalSharesAfterFundraising := RoundHalfUp(shares + newSharesIssued as real);
      var totalSharesAfterAll := RoundHalfUp(shares + newSharesIssued as real + warrantShares);
      if totalSharesAfterFundraising == 0 || totalSharesAfterAll == 0 then Err(DivisionByZero)
      else
        var ownershipAfterFundraising := originalFounderShares as real / totalSharesAfterFundraising as real;
        var ownershipAfter := originalFounderShares as real / totalSharesAfterAll as real;
        Ok(Dilution(ownershipAfter, ownership - ownershipAfterFundraising, ownershipAfterFundraising - ownershipAfter))
  }

  /** Exercising warrants never increases the founder's ownership: with a
      non-negative warrant count, a non-negative founder stake and a positive
      share total after the round, the warrant dilution is non-negative. */
  lemma DilutionFromWarrantsNonNegative(v: RoundInputs, newSharesIssued: int, warrantShares: real)
    requires v.currentOwnership.Some? && v.numberOfShares.Some?
    requires warrantShares >= 0.0
    requires FounderShares(v.numberOfShares.value, v.currentOwnership.value) >= 0
    requires RoundHalfUp(v.numberOfShares.value + newSharesIssued as real) > 0
    ensures DilutionImpact(v, newSharesIssued, warrantShares).Ok?
    ensures DilutionImpact(v, newSharesIssued, warrantShares).value.dilutionFromWarrants >= 0.0
  {
    var shares := v.numberOfShares.value;
    var founder := FounderShares(shares, v.currentOwnership.value) as real;
    var afterRound := RoundHalfUp(shares + newSharesIssued as real) as real;
    var afterAll := RoundHalfUp(shares + newSharesIssued as real + warrantShares) as real;
    RoundHalfUpMonotone(shares + newSharesIssued as real, shares + newSharesIssued as real + warrantShares);
    assert 0.0 < afterRound <= afterAll;
    DivisionAntitone(founder, afterRound, afterAll);
  }

  /** Dividing a non-negative amount by a larger positive number gives less. */
  lemma DivisionAntitone(a: real, b: real, c: real)
    requires a >= 0.0 && 0.0 < b <= c
    ensures a / c <= a / b
  {
    assert a / c * c == a;
    assert a / b * b == a;
    assert a / b * c >= a / b * b;
  }

  /** The founder's stake is the ownership fraction of the share count to
      within half a share. */
  lemma FounderSharesNearest(numberOfShares: real, ownership: real)
    ensures numberOfShares * ownership - 0.5 < FounderShares(numberOfShares, ownership) as real
    ensures FounderShares(numberOfShares, ownership) as real <= numberOfShares * ownership + 0.5
  {
  }

  // ---------------------------------------------------------------------------
  // Post-money valuation and the aggregate (dev/js/main.js:740-782)
  // ---------------------------------------------------------------------------

  /** `calculatePostMoneyValuation`: the valuation after the round and the
      warrant exercise. Only an absent key is an error here, not a zero. */
  function PostMoneyValuation(v: RoundInputs, warrantAmount: real): (r: Result<real>)
    ensures r.Ok? <==> v.preMoneyValuation.Some? && v.amountToRaise.Some?
    ensures r.Err? ==> r.error == MissingValuationOrRaise
    ensures r.Ok? ==> r.value - v.preMoneyValuation.value - v.amountToRaise.value == warrantAmount
  {
    if v.preMoneyValuation.None? || v.amountToRaise.None? then Err(MissingValuationOrRaise)
    else Ok(v.preMoneyValuation.value + v.amountToRaise.value + warrantAmount)
  }

  /** The record `aggregateCalculations` returns. */
  datatype RoundResult = RoundResult(
    pricePerShare: real,
    newSharesIssued: int,
    exercisePrice: real,
    numberOfWarrantShares: real,
    warrantAmount: real,
    founderOwnershipAfter: real,
    dilutionFromFundraising: real,
    dilutionFromWarrants: real,
    postMoneyValuation: real,
    originalFounderOwnership: real,
    preMoneyValuation: real,
    amountRaised: real,
    initialShares: real)

  /** `aggregateCalculations`: the stages in the source's order, the first
      error aborting the rest. */
  function AggregateCalculations(v: RoundInputs): (r: Result<RoundResult>)
    ensures r.Ok? ==>
      && !Absent(v.preMoneyValuation) && !Absent(v.numberOfShares) && !Absent(v.amountToRaise)
      && v.currentOwnership.Some?
      && r.value.preMoneyValuation == v.preMoneyValuation.value
      && r.value.initialShares == v.numberOfShares.value
      && r.value.amountRaised == v.amountToRaise.value
      && r.value.originalFounderOwnership == v.currentOwnership.value
    ensures r.Ok? <==>
      && PricePerShare(v).Ok?
      && NewSharesIssued(v, PricePerShare(v).value).Ok?
      && WarrantShares(v, PricePerShare(v).value).Ok?
      && DilutionImpact(v, NewSharesIssued(v, PricePerShare(v).value).value,
                        WarrantShares(v, PricePerShare(v).value).value.numberOfWarrantShares).Ok?
    ensures r.Ok? ==>
      && PricePerShare(v) == Ok(r.value.pricePerShare)
      && NewSharesIssued(v, r.value.pricePerShare) == Ok(r.value.newSharesIssued)
      && WarrantShares(v, r.value.pricePerShare) == Ok(WarrantTerms(r.value.exercisePrice, r.value.numberOfWarrantShares))
      && DilutionImpact(v, r.value.newSharesIssued, r.value.numberOfWarrantShares)
         == Ok(Dilution(r.value.founderOwnershipAfter, r.value.dilutionFromFundraising, r.value.dilutionFromWarrants))
    ensures r.Ok? ==> r.value.warrantAmount == r.value.exercisePrice * r.value.numberOfWarrantShares
    ensures r.Ok? ==>
      r.value.postMoneyValuation == r.value.preMoneyValuation + r.value.amountRaised + r.value.warrantAmount
    ensures r.Ok? ==>
      r.value.originalFounderOwnership - r.value.dilutionFromFundraising - r.value.dilutionFromWarrants
      == r.value.founderOwnershipAfter
  {
    var pricePerShare :- PricePerShare(v);
    var newSharesIssued :- NewSharesIssued(v, pricePerShare);
    var warrant :- WarrantShares(v, pricePerShare);
    var warrantAmount := CashFlowImpact(warrant.exercisePrice, warrant.numberOfWarrantShares);
    var dilution :- DilutionImpact(v, newSharesIssued, warrant.numberOfWarrantShares);
    match PostMoneyValuation(v, warrantAmount)
    case Err(e) => Err(e)
    case Ok(postMoneyValuation) =>
      Ok(RoundResult(
        pricePerShare, newSharesIssued, warrant.exercisePrice, warrant.numberOfWarrantShares, warrantAmount,
        dilution.founderOwnershipAfter, dilution.dilutionFromFundraising, dilution.dilutionFromWarrants,
        postMoneyValuation,
        v.currentOwnership.value, v.preMoneyValuation.value, v.amountToRaise.value, v.numberOfShares.value))
  }

  /** A successful aggregate prices the company's shares at the valuation
      and issues the whole number of shares nearest to what the raise buys. */
  lemma AggregatePricing(v: RoundInputs, c: RoundResult)
    requires AggregateCalculations(v) == Ok(c)
    ensures c.pricePerShare * c.initialShares == c.preMoneyValuation
    ensures c.amountRaised / c.pricePerShare - 0.5 < c.newSharesIssued as real <= c.amountRaised / c.pricePerShare + 0.5
  {
    StagePricing(v, c.pricePerShare, c.newSharesIssued, c.initialShares, c.preMoneyValuation, c.amountRaised);
  }

  /** The price and new-share stages' figures, stated over the reported inputs. */
  lemma StagePricing(v: RoundInputs, price: real, count: int, shares: real, pre: real, raise: real)
    requires PricePerShare(v) == Ok(price) && NewSharesIssued(v, price) == Ok(count)
    requires v.numberOfShares == Some(shares) && v.preMoneyValuation == Some(pre) && v.amountToRaise == Some(raise)
    ensures price * shares == pre
    ensures raise / price - 0.5 < count as real <= raise / price + 0.5
  {
  }

  /** Which error `aggregateCalculations` reports: the first stage whose
      required field is missing, in the order price, raise, exercise price or
      discount, warrant quantity, ownership. The post-money guard can never
      fire, as the first two stages have already demanded its fields. */
  lemma AggregateErrors(v: RoundInputs)
    ensures Absent(v.preMoneyValuation) || Absent(v.numberOfShares) ==>
      AggregateCalculations(v) == Err(MissingValuationOrShares)
    ensures !Absent(v.preMoneyValuation) && !Absent(v.numberOfShares) && Absent(v.amountToRaise) ==>
      AggregateCalculations(v) == Err(MissingAmountToRaise)
    ensures && !Absent(v.preMoneyValuation) && !Absent(v.numberOfShares) && !Absent(v.amountToRaise)
            && (if v.warrantType == Fixed then Absent(v.exercisePrice) else Absent(v.discountPrice)) ==>
      AggregateCalculations(v) == Err(if v.warrantType == Fixed then MissingExercisePrice else MissingDiscountPrice)
    ensures && !Absent(v.preMoneyValuation) && !Absent(v.numberOfShares) && !Absent(v.amountToRaise)
            && (if v.warrantType == Fixed then !Absent(v.exercisePrice) else !Absent(v.discountPrice))
            && Absent(v.numberOfWarrants) && Absent(v.amountOfWarrants) ==>
      AggregateCalculations(v) == Err(MissingWarrantQuantity)
    ensures && !Absent(v.preMoneyValuation) && !Absent(v.numberOfShares) && !Absent(v.amountToRaise)
            && (if v.warrantType == Fixed then !Absent(v.exercisePrice) else !Absent(v.discountPrice))
            && WarrantShares(v, PricePerShare(v).value).Ok? && v.currentOwnership.None? ==>
      AggregateCalculations(v) == Err(MissingOwnershipOrShares)
    ensures AggregateCalculations(v) != Err(MissingValuationOrRaise)
  {
  }
}
