/** Concrete instances: the field texts the app starts with
    (dev/js/main.js:1122-1141) read by the parser, and the round and the
    scenario table those defaults produce. */
module WorkedExamples {

  import opened Basics
  import opened NumericParser
  import opened RoundCalculations
  import opened Scenarios

  const Plain := Options(false, false, NoSuffix)
  const InThousands := Options(false, false, Thousands)
  const InMillions := Options(false, false, Millions)
  const AsPercentage := Options(false, true, NoSuffix)

  /** The value of one or two digits. */
  lemma SmallDigits(a: char, b: char)
    requires IsDigit(a) && IsDigit(b)
    ensures DigitsValue([a]) == DigitValue(a)
    ensures DigitsValue([a, b]) == 10 * DigitValue(a) + DigitValue(b)
  {
    assert [a, b][..1] == [a];
    assert [a][..0] == [];
  }

  /** `"20m"` in a millions field is twenty million, as is `"20"`. */
  lemma TwentyMillion()
    ensures Parse("20m", InMillions) == Value(20000000.0)
    ensures Parse("20", InMillions) == Value(20000000.0)
  {
    var l := Literal(false, "20", false, "");
    assert Render(l) == "20";
    assert Render(l) + ['m'] == "20m";
    SmallDigits('2', '0');
    assert Magnitude(l) == 20.0;
    assert Scale(20.0, InMillions) == 20000000.0;
    SuffixLetterIsOptional(l, InMillions, 'm');
  }

  /** `"100k"` in a thousands field is a hundred thousand; so is `"100K"`. */
  lemma HundredThousand()
    ensures Parse("100k", InThousands) == Value(100000.0)
    ensures Parse("100K", InThousands) == Value(100000.0)
  {
    var m := Literal(false, "100", false, "");
    assert Render(m) + ['k'] == "100k";
    assert Render(m) + ['K'] == "100K";
    assert "100"[..2] == "10";
    SmallDigits('1', '0');
    assert Magnitude(m) == 100.0;
    assert Scale(100.0, InThousands) == 100000.0;
    SuffixLetterIsOptional(m, InThousands, 'k');
    SuffixLetterIsOptional(m, InThousands, 'K');
  }

  /** `"40%"` in a percentage field is 0.4: the percent sign is dropped and
      the number divided by a hundred. */
  lemma FortyPercent()
    ensures Parse("40%", AsPercentage) == Value(0.4)
  {
    var l := Literal(false, "40", false, "");
    assert Render(l) + "%" == "40%";
    SmallDigits('4', '0');
    assert Magnitude(l) == 40.0;
    assert Scale(40.0, AsPercentage) == 0.4;
    PercentSignIsOptional(l, AsPercentage);
  }

  /** `"2.00"` in a plain field is 2. */
  lemma TwoPointZeroZero()
    ensures Parse("2.00", Plain) == Value(2.0)
  {
    var l := Literal(false, "2", true, "00");
    assert Render(l) == "2.00";
    SmallDigits('0', '0');
    assert Magnitude(l) == 2.0;
    assert Scale(2.0, Plain) == 2.0;
    LiteralParses(l, Plain);
  }

  /** The defaults as the form hands them over, fixed-price warrants selected. */
  const Defaults := RoundInputs(
    Fixed, Some(20000000.0), Some(100000.0), Some(0.4), Some(5000000.0),
    Some(2.0), Some(0.2), Some(1.5), Some(3.0), Some(10000.0), Some(20000.0))

  /** The default round: a price of 200, 25,000 new shares, 10,000 warrant
      shares at 2.00 paying 20,000, and the founder's 40% falling to 32%
      after the round and to 8/27 after the warrants. */
  lemma DefaultRound()
    ensures AggregateCalculations(Defaults) == Ok(RoundResult(
      200.0, 25000, 2.0, 10000.0, 20000.0, 8.0 / 27.0, 0.08, 16.0 / 675.0, 25020000.0,
      0.4, 20000000.0, 5000000.0, 100000.0))
  {
    RoundHalfUpUnique(5000000.0 / 200.0, 25000);
    RoundHalfUpUnique(100000.0 * 0.4, 40000);
    RoundHalfUpUnique(100000.0 + 25000.0, 125000);
    RoundHalfUpUnique(100000.0 + 25000.0 + 10000.0, 135000);
  }

  /** Floor/cap warrants on the defaults: 200 less 20% is 160, which the cap
      brings down to 3.00, so the 10,000 warrants pay 30,000. */
  lemma DefaultFloorCapRound()
    ensures ExercisePrice(Defaults.(warrantType := FloorCap), 200.0) == Ok(3.0)
    ensures WarrantShares(Defaults.(warrantType := FloorCap), 200.0) == Ok(WarrantTerms(3.0, 10000.0))
  {
  }

  /** Without a warrant count or amount every scenario fails, so the table
      is not produced. */
  lemma NoWarrantQuantityNoTable(name: ScenarioName)
    ensures Outcome(Defaults.(numberOfWarrants := None, amountOfWarrants := None), name)
            == Err(MissingWarrantQuantity)
  {
    AggregateErrors(ScenarioInputs(Defaults.(numberOfWarrants := None, amountOfWarrants := None), name));
  }

  /** The default scenario table, row by row: the base row is the default
      round at a price of 200; the pessimistic row values the company at 15
      million, a price of 150 and 33,333 new shares; the optimistic row at 25
      million, a price of 250 and 20,000 new shares. */
  lemma DefaultBaseScenario()
    ensures Outcome(Defaults, Base).Ok?
    ensures Outcome(Defaults, Base).value.pricePerShare == 200.0
    ensures Outcome(Defaults, Base).value.newSharesIssued == 25000
  {
    BaseScenarioIsTheRound(Defaults);
    DefaultRound();
  }

  lemma DefaultPessimisticScenario()
    ensures Outcome(Defaults, Pessimistic).Ok?
    ensures Outcome(Defaults, Pessimistic).value.preMoneyValuation == 15000000.0
    ensures Outcome(Defaults, Pessimistic).value.pricePerShare == 150.0
    ensures Outcome(Defaults, Pessimistic).value.newSharesIssued == 33333
  {
    DefaultScenario(Pessimistic, 15000000.0, 150.0, 33333);
  }

  lemma DefaultOptimisticScenario()
    ensures Outcome(Defaults, Optimistic).Ok?
    ensures Outcome(Defaults, Optimistic).value.preMoneyValuation == 25000000.0
    ensures Outcome(Defaults, Optimistic).value.pricePerShare == 250.0
    ensures Outcome(Defaults, Optimistic).value.newSharesIssued == 20000
  {
    DefaultScenario(Optimistic, 25000000.0, 250.0, 20000);
  }

  lemma DefaultScenario(name: ScenarioName, pre: real, price: real, newShares: int)
    requires name != Base && pre == 20000000.0 * Factor(name) && price == pre / 100000.0
    requires 5000000.0 / price - 0.5 < newShares as real <= 5000000.0 / price + 0.5
    ensures Outcome(Defaults, name).Ok?
    ensures Outcome(Defaults, name).value.pricePerShare == price
    ensures Outcome(Defaults, name).value.preMoneyValuation == pre
    ensures Outcome(Defaults, name).value.newSharesIssued == newShares
  {
    assert ScenarioInputs(Defaults, name) == Defaults.(preMoneyValuation := Some(pre));
    DefaultsAtValuation(pre, price, newShares);
  }

  /** The default round at another positive valuation. */
  lemma DefaultsAtValuation(pre: real, price: real, newShares: int)
    requires pre > 0.0 && price == pre / 100000.0
    requires 5000000.0 / price - 0.5 < newShares as real <= 5000000.0 / price + 0.5
    ensures var c := AggregateCalculations(Defaults.(preMoneyValuation := Some(pre)));
      && c.Ok? && c.value.pricePerShare == price && c.value.preMoneyValuation == pre
      && c.value.newSharesIssued == newShares
  {
    var inputs := Defaults.(preMoneyValuation := Some(pre));
    RoundHalfUpUnique(5000000.0 / price, newShares);
    RoundHalfUpUnique(100000.0 * 0.4, 40000);
    assert NewSharesIssued(inputs, price) == Ok(newShares);
    RoundHalfUpUnique(100000.0 + newShares as real, 100000 + newShares);
    RoundHalfUpUnique(100000.0 + newShares as real + 10000.0, 110000 + newShares);
  }
}
