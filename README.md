# Warrant simulator: the cap-table engine in Dafny

A Dafny model of the calculation core of the warrant simulator. The simulator is a form-driven calculator. It works out what a funding round followed by a warrant exercise does to a founder's stake, the share count and the company's valuation. The model covers four parts of `dev/js/main.js`:

- **`NumericParser`** models the field parser `parseNumericInput`. A raw field text becomes `Empty` (the source's `null`, "not provided"), `Invalid` (the source's `NaN`) or `Value(x)`. The steps are:
  1. trim the text;
  2. drop commas and whitespace;
  3. drop a trailing `k`/`m` suffix letter;
  4. drop the first `%`;
  5. check the remainder against `^-?\d*\.?\d*$`;
  6. read it as an exact decimal;
  7. scale it by the field's multiplier, then by 1/100 for percentages.

  The regular expression's language is defined as the set of texts of well-formed `Literal`s. `Scan` is the match, proved sound and complete against that definition.
- **`InputSanitiser`** models the keystroke clean-up in `handleInputChange` as a string function. It removes the typed suffix or `%`, stray dashes, characters other than digits, `.` and `-`, and every point after the first. It then re-appends the suffix or `%`.
- **`RoundCalculations`** models the round pipeline, `calculatePricePerShare` through `aggregateCalculations`.
  - Every `throw` of the source is a `CalcError` in a `Result`.
  - An input field is an `Option<real>`, and `None` is an absent key.
  - The source's truthiness test `!x` is `Absent(x)`: absent or zero.
  - `Math.round` is `RoundHalfUp(x) = Floor(x + 1/2)`.
- **`Scenarios`** models `computeScenarios`, a loop that reruns the pipeline at 0.75, 1 and 1.25 times the entered pre-money valuation. It is a method with loop invariants, proved against the function `Outcome` that gives one scenario's row or error.

`WorkedExamples` states what the parser and the pipeline give on the page's default field texts.

All arithmetic is over Dafny's exact `real`. Identities that the JavaScript meets only up to floating-point error hold exactly here. Examples are additivity of the two dilutions and `postMoney = pre + raise + warrantAmount`.

## Model

| member | source | states |
|---|---|---|
| NumericParser.Trim | dev/js/main.js:26 | the result is the infix of the input between a whitespace-only prefix and a whitespace-only suffix (ECMAScript whitespace and line terminators), and it starts and ends with non-whitespace; it is empty exactly when the input is blank |
| NumericParser.StripSeparators | dev/js/main.js:36 | every comma and whitespace character goes, and every other character stays exactly as often as it occurred |
| NumericParser.StripSeparatorsConcat | dev/js/main.js:36 | stripping works character by character, so the characters that stay keep their order |
| NumericParser.StripSuffix | dev/js/main.js:39-41 | a final `k`/`K`/KELVIN SIGN (thousands) or `m`/`M` (millions) is removed, and nothing else is |
| NumericParser.RemoveFirst | dev/js/main.js:44-46 | `replace('%', '')` with a string pattern: only the first `%` is deleted, everything before and after it stays in place, and text without `%` is unchanged |
| NumericParser.ScanSound | dev/js/main.js:49-52 | whatever the pattern match accepts is the text of a well-formed literal (sign only where negatives are allowed, digits, at most one point) |
| NumericParser.ScanComplete | dev/js/main.js:49-52 | the text of every well-formed literal is accepted and read back as that literal |
| NumericParser.ScanMatchesPattern | dev/js/main.js:49-52 | the match succeeds if and only if the text is the rendering of some well-formed literal |
| NumericParser.LiteralValue | dev/js/main.js:55-59 | reading a matched literal succeeds exactly when it has a digit (`""`, `"."`, `"-"` are NaN); the value is the number its digits spell, divided by 10 to the number of digits after the point, negated after a dash |
| NumericParser.Parse | dev/js/main.js:24-31 | a field reads as "not provided" exactly when it is blank or whitespace-only, never for `0` |
| NumericParser.ParseValueIff | dev/js/main.js:24-73 | the parser yields `x` if and only if the field is not blank and its stripped remainder is a literal with a digit whose scaled value is `x` |
| NumericParser.ParseInvalidIff | dev/js/main.js:49-59 | the parser yields Invalid if and only if the field is not blank and no literal with a digit renders as its stripped remainder |
| NumericParser.LiteralParses | dev/js/main.js:24-73 | the text of any well-formed literal with a digit parses to that literal's value, scaled by the field's options |
| NumericParser.SuffixLetterIsOptional | dev/js/main.js:38-65 | in a `k`/`m` field a literal reads the same with or without a typed suffix letter of either case (`"5"` and `"5K"` both give 5000) |
| NumericParser.SuffixOptionMultiplies | dev/js/main.js:38-65 | when no suffix letter was typed, the suffix option multiplies the suffix-less reading by 1e3 or 1e6 |
| NumericParser.PercentSignIsOptional | dev/js/main.js:43-70 | in a percentage field a literal reads the same with or without a trailing `%` |
| NumericParser.PercentOptionDivides | dev/js/main.js:43-70 | without a `%` in the text, percentage mode divides the plain reading, suffix multiplier included, by 100 |
| NumericParser.ParseScaling | dev/js/main.js:60-70 | options that strip a field identically and differ by a constant factor give readings that differ by that factor; Empty and Invalid are unaffected |
| InputSanitiser.DropInnerDashes | dev/js/main.js:243-245 | the first character stays first; a dash stays only if it stood first; every other character stays exactly as often as it occurred |
| InputSanitiser.DropInnerDashesConcat | dev/js/main.js:243-245 | the characters kept keep their order: after a non-empty start, every later dash goes and everything else stays in place |
| InputSanitiser.KeepLiteralChars | dev/js/main.js:246 | every digit, point and dash stays exactly as often as it occurred and every other character goes; a dash that stood only first still does |
| InputSanitiser.KeepLiteralCharsConcat | dev/js/main.js:246 | the characters kept keep their order: cleaning a concatenation cleans each part |
| InputSanitiser.KeepFirstPoint | dev/js/main.js:248-252 | text without a point is unchanged; otherwise everything up to and including the first point stays as it stands, exactly one point remains, and every other character stays exactly as often as it occurred |
| InputSanitiser.KeepFirstPointAt | dev/js/main.js:248-252 | the result is the text before the first point, that point, and the rest of the text with its points removed, in order (`parts[0] + '.' + parts.slice(1).join('')`) |
| InputSanitiser.SanitisedValueShape | dev/js/main.js:232-252 | the cleaned value holds only digits, points and dashes, at most one point, a dash only first where negatives are allowed, and no dash if the text had none |
| InputSanitiser.SanitisedValue | dev/js/main.js:232-252 | every digit of the field text survives the clean-up, as often as it occurred |
| InputSanitiser.DropTypedSuffix | dev/js/main.js:235-237 | the option's own lower-case suffix letter is cut off when it ends the text; otherwise the text is unchanged |
| InputSanitiser.DropTypedPercent | dev/js/main.js:239-241 | in a percentage field a final `%` is cut off; otherwise the text is unchanged |
| InputSanitiser.Sanitise | dev/js/main.js:255-262 | the written-back text is the cleaned value plus one character: the suffix letter in a `k`/`m` field, else `%` in a percentage field, else nothing; the suffix and `%` steps strip exactly that character again, leaving the cleaned value |
| InputSanitiser.SanitiseIdempotent | dev/js/main.js:232-264 | sanitising the text the handler wrote back changes nothing |
| InputSanitiser.SanitisedValueMatchesPattern | dev/js/main.js:232-252 | when the text has no dash, or both the sanitiser's and the parser's options allow negatives, the cleaned value always passes the parser's pattern check |
| RoundCalculations.RoundHalfUp | dev/js/main.js:648 | `Math.round` returns the integer within half a unit of `x`, halves going up |
| RoundCalculations.RoundHalfUpMonotone | dev/js/main.js:713-719 | rounding never reverses the order of two numbers |
| RoundCalculations.PricePerShare | dev/js/main.js:635-641 | fails with the valuation-or-shares error exactly when either is missing or zero; otherwise price times shares is the pre-money valuation, and the price is nonzero |
| RoundCalculations.NewSharesIssued | dev/js/main.js:643-649 | a missing or zero raise is an error; otherwise the result is the whole number of shares nearest to raise divided by price |
| RoundCalculations.ClampExercisePrice | dev/js/main.js:676-686 | a price below a given floor becomes the floor; a price above a given cap becomes the cap when there is no floor or floor <= cap; with floor > cap the floor wins; a price within the given bounds is kept; the result is never below a given floor |
| RoundCalculations.ExercisePrice | dev/js/main.js:651-686 | fails exactly when the fixed price (fixed type) or the discount (floor/cap type) is missing or zero, with that stage's error; a fixed price is used as given; a floor/cap price is at least the floor and at most the cap when floor <= cap |
| RoundCalculations.ExercisePriceResolution | dev/js/main.js:669-686 | for floor/cap warrants, the price `pps * (1 - discount)` is raised to the floor when below it, lowered to the cap when above it (floor <= cap), and kept when within the given bounds, in particular when there are none; with floor > cap the floor is the price |
| RoundCalculations.WarrantQuantity | dev/js/main.js:662-668 | a nonzero count is used as is; otherwise a nonzero amount gives the count whose cost at the exercise price is that amount; fails exactly when neither is usable, with the missing-quantity error when both are missing |
| RoundCalculations.WarrantShares | dev/js/main.js:651-704 | succeeds exactly when the exercise price and the quantity do, an exercise-price error passing through; reports that exercise price; the count is the one given, or else one whose cost at the exercise price is the given amount |
| RoundCalculations.CashFlowRepaysAmount | dev/js/main.js:751-753 | paying for the count an amount buys at a nonzero exercise price costs exactly that amount |
| RoundCalculations.WarrantAmountFromCount | dev/js/main.js:688-695 | given a count `n`, the warrant stage succeeds with `n` shares costing `n` times the exercise price |
| RoundCalculations.WarrantCountFromAmount | dev/js/main.js:688-695 | given only an amount of `n` times the exercise price, the warrant stage yields `n` shares, whose cost is that amount |
| RoundCalculations.MissingQuantityFails | dev/js/main.js:688-695 | with neither count nor amount, the warrant stage fails with the missing-quantity error |
| RoundCalculations.DilutionImpact | dev/js/main.js:706-739 | fails exactly when ownership or share count is absent, with the missing-ownership error, or when a rounded share total is 0, with the division error; otherwise the founder's stake after each stage times that stage's total is the founder's rounded shares, and the two dilutions add up to the loss of ownership |
| RoundCalculations.DilutionFromWarrantsNonNegative | dev/js/main.js:706-731 | with ownership and shares given, non-negative warrant shares and founder shares and a positive total after the round, the dilution step succeeds and warrants never raise the founder's ownership |
| RoundCalculations.FounderSharesNearest | dev/js/main.js:713 | the founder's shares are the ownership fraction of the share count to within half a share |
| RoundCalculations.PostMoneyValuation | dev/js/main.js:741-749 | fails only when the valuation or the raise is absent (not when zero); otherwise post-money exceeds pre-money plus raise by exactly the warrant amount |
| RoundCalculations.AggregateCalculations | dev/js/main.js:755-782 | succeeds exactly when the price, new-share, warrant and dilution stages all do; then reports those stages' own price, new shares, exercise price, warrant count and three ownership figures, the inputs unchanged, warrant amount = exercise price times count, post-money = pre + raise + warrant amount, and ownership before minus both dilutions = ownership after |
| RoundCalculations.AggregatePricing | dev/js/main.js:755-757 | in a successful aggregate, price times shares is the valuation and new shares are the whole number nearest to raise over price |
| RoundCalculations.AggregateErrors | dev/js/main.js:755-765 | the reported error is that of the first stage with a missing field, in the order valuation/shares, raise, exercise price or discount, warrant quantity, then ownership once the warrant stage has succeeded (warrants given by count or by amount); the post-money guard never fires |
| Scenarios.Factor | dev/js/main.js:786-788 | each scenario's multiplier is positive, and it is 1 only for the base scenario |
| Scenarios.ScenarioValuation | dev/js/main.js:786-794 | a scenario valuation is present, and is missing-or-zero, exactly when the entered one is |
| Scenarios.ScenarioInputs | dev/js/main.js:799 | a scenario's inputs differ from the entered ones in the pre-money valuation only |
| Scenarios.Outcome | dev/js/main.js:798-816 | a scenario fails exactly when its aggregate does, with that error; its row is labelled with the scenario, carries the scenario's valuation and passes the entered warrant amount through |
| Scenarios.ComputeScenarios | dev/js/main.js:784-820 | succeeds exactly when all three scenarios do, returning their three rows in the order Pessimistic, Base, Optimistic; otherwise returns the error of the first failing scenario, every earlier one having succeeded |
| Scenarios.RowReportsInputs | dev/js/main.js:801-816 | a row carries its name and the valuation times 0.75, 1 or 1.25; it carries the entered shares, ownership and raise unchanged; its warrant amount is the entered `amount_of_warrants`, not the computed one |
| Scenarios.BaseScenarioIsTheRound | dev/js/main.js:787-800 | the base scenario fails exactly when the plain aggregate does, with the same error, and otherwise reports the plain aggregate's figures |
| Scenarios.MissingFieldFailsEveryScenario | dev/js/main.js:798-800 | a missing valuation, shares, raise, exercise price, discount or warrant quantity fails every scenario with the same error, so no table is produced |
| Scenarios.RowPrice | dev/js/main.js:786-800 | a row's price per share is its scenario's factor (0.75, 1 or 1.25) times the price at the entered valuation |
| Scenarios.ScenarioPricesOrdered | dev/js/main.js:786-800 | in the three rows of a successful table, with a positive valuation and share count, the price per share strictly rises from Pessimistic to Base to Optimistic |
| Scenarios.ScenarioNewSharesOrdered | dev/js/main.js:786-800 | in the same rows, with a positive raise as well, a higher-valued scenario never issues more new shares than a lower one |
| WorkedExamples.TwentyMillion | dev/js/main.js:1128-1129 | the default `"20m"` in a millions field is 20,000,000, and so is `"20"` |
| WorkedExamples.HundredThousand | dev/js/main.js:1124-1125 | the default `"100k"` in a thousands field is 100,000, and so is `"100K"` |
| WorkedExamples.FortyPercent | dev/js/main.js:1122-1123 | the default `"40%"` in a percentage field is 0.4 |
| WorkedExamples.TwoPointZeroZero | dev/js/main.js:1130-1131 | the default `"2.00"` is 2 |
| WorkedExamples.DefaultRound | dev/js/main.js:1122-1141 | the defaults give price 200, 25,000 new shares, 10,000 warrants paying 20,000, post-money 25,020,000, and ownership falling from 40% to 32% to 8/27 |
| WorkedExamples.DefaultFloorCapRound | dev/js/main.js:669-695 | floor/cap warrants on the defaults: 200 less 20% is 160, capped to 3.00, so 10,000 warrants at 3.00 |
| WorkedExamples.NoWarrantQuantityNoTable | dev/js/main.js:784-820 | the defaults without count or amount fail every scenario with the missing-quantity error |
| WorkedExamples.DefaultBaseScenario | dev/js/main.js:784-820 | the default table's base row has price 200 and 25,000 new shares |
| WorkedExamples.DefaultPessimisticScenario | dev/js/main.js:784-820 | the default table's pessimistic row has valuation 15,000,000, price 150 and 33,333 new shares |
| WorkedExamples.DefaultOptimisticScenario | dev/js/main.js:784-820 | the default table's optimistic row has valuation 25,000,000, price 250 and 20,000 new shares |

## Left out

- DOM wiring, focus and blur handlers, cursor placement, `handleInterdependentInputs`, formatting with `toLocaleString`/`toFixed`, the chart helpers and all Plotly and grid rendering are not modelled. They are I/O or presentation.
- Form validation in `captureValues` and `isInputValid` is not part of this model. It is where the discount is kept inside (0, 1) and a floor above the cap is refused; the calculation functions themselves do not check either. The `requiredFields` list there is never consulted.
- `None` models an absent key (`undefined`). The page itself stores `null` for an empty field. `null` passes the `=== undefined` guards of the dilution, post-money and floor/cap steps and counts as 0 in arithmetic and comparisons. In the running page an empty cap field with a positive floor therefore fails the floor-above-cap test of `captureValues` (dev/js/main.js:407), which throws `'Input error.'`, and nothing is computed. With the floor empty or 0 as well, the clamp gives `Math.max(floor, Math.min(raw, null))`, which is 0 for a non-negative price. An empty floor with a cap present counts as a floor of 0. That coercion is not reproduced.
- IEEE-754 doubles are not modelled. Values are exact reals, so no rounding error arises. Where the source would divide by zero and carry on with `Infinity` or `NaN` (a zero exercise price with a warrant amount, a rounded share total of 0), the model stops with the error `DivisionByZero` instead.
- Characters are Unicode scalar values, not UTF-16 code units. `toLowerCase` is modelled only as far as the suffix test needs it: the characters whose lower case is `k` or `m`.
- The `'Invalid warrant type'` error cannot arise, because the warrant type is a two-valued datatype.
- `newSharesIssued` is kept as an integer, because `Math.round` returns one. Share counts and warrant counts otherwise stay reals, as the source does not round them.
- The exercise-price warning in `updateResults` reads `baseScenario.exercisePrice`, a key that scenario rows do not have (they carry `warrantExercisePrice`), so it never shows. It is presentation logic and is not modelled.
- Rounding follows the code's `Math.round` (halves up), not round-half-to-even. The total after the round is rounded, as the code does.
- The page cleans the `k` fields with negatives allowed but parses them with negatives allowed only for `cash_burn`, so in the other `k` fields a typed dash survives the clean-up and the field then reads as Invalid. `SanitisedValueMatchesPattern` therefore takes the parser's negative flag apart from the sanitiser's options and promises a match only when the text has no dash or both allow negatives.
- `CashFlowImpact` carries no contract of its own. Its property, that the exercise cost of the count bought by an amount is that amount, is stated by `CashFlowRepaysAmount`.
