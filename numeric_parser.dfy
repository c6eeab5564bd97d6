/** The calculator's field parser, `parseNumericInput` (dev/js/main.js:24-73).

    A raw field string is turned into one of three outcomes: the field was not
    provided (`Empty`, the source's `null`), it is not a number (`Invalid`, the
    source's `NaN`), or it denotes a decimal value. The parser is a pipeline of
    string rewrites:

      Trim -> StripSeparators -> StripSuffix -> StripPercent -> Scan -> LiteralValue -> Scale

    The decimal literal is read into an exact `real` (no floating-point rounding). */
module NumericParser {

  import opened Basics

  /** The magnitude suffix a field is configured with: none, `k` or `m`. */
  datatype Suffix = NoSuffix | Thousands | Millions

  /** The per-field options `allowNegative`, `isPercentage` and `suffix`. */
  datatype Options = Options(allowNegative: bool, isPercentage: bool, suffix: Suffix)

  datatype Parsed = Empty | Invalid | Value(v: real)

  // ---------------------------------------------------------------------------
  // Characters
  // ---------------------------------------------------------------------------

  /** The characters that JavaScript's `trim` and the regex class `\s` remove:
      the WhiteSpace and LineTerminator code points of ECMAScript. */
  predicate IsWhitespace(c: char) {
    c in {'\t', '\n', '\U{000B}', '\U{000C}', '\r', ' ', '\U{00A0}', '\U{1680}',
          '\U{2000}', '\U{2001}', '\U{2002}', '\U{2003}', '\U{2004}', '\U{2005}',
          '\U{2006}', '\U{2007}', '\U{2008}', '\U{2009}', '\U{200A}', '\U{2028}',
          '\U{2029}', '\U{202F}', '\U{205F}', '\U{3000}', '\U{FEFF}'}
  }

  /** Characters removed before validation: thousands separators and whitespace. */
  predicate IsSeparator(c: char) {
    c == ',' || IsWhitespace(c)
  }

  /** `\d` in a JavaScript regex: the ASCII digits only. */
  predicate IsDigit(c: char) {
    '0' <= c <= '9'
  }

  predicate AllDigits(s: string) {
    forall i :: 0 <= i < |s| ==> IsDigit(s[i])
  }

  predicate Blank(s: string) {
    forall i :: 0 <= i < |s| ==> IsWhitespace(s[i])
  }

  // ---------------------------------------------------------------------------
  // Trimming and stripping
  // ---------------------------------------------------------------------------

  /** Drops leading whitespace. */
  function TrimStart(s: string): (r: string)
    ensures |r| <= |s| && r == s[|s| - |r|..]
    ensures r == [] || !IsWhitespace(r[0])
    ensures forall i :: 0 <= i < |s| - |r| ==> IsWhitespace(s[i])
  {
    if s != [] && IsWhitespace(s[0]) then TrimStart(s[1..]) else s
  }

  /** Drops trailing whitespace. */
  function TrimEnd(s: string): (r: string)
    ensures |r| <= |s| && r == s[..|r|]
    ensures r == [] || !IsWhitespace(r[|r| - 1])
    ensures forall i :: |r| <= i < |s| ==> IsWhitespace(s[i])
  {
    if s != [] && IsWhitespace(s[|s| - 1]) then TrimEnd(s[..|s| - 1]) else s
  }

  /** `String.prototype.trim`: the longest infix that neither starts nor ends
      with whitespace, everything cut away being whitespace. */
  function Trim(s: string): (r: string)
    ensures |r| <= |s|
    ensures r == [] || (!IsWhitespace(r[0]) && !IsWhitespace(r[|r| - 1]))
    ensures r == [] <==> Blank(s)
    ensures forall c :: c in r ==> c in s
    ensures exists i, j :: 0 <= i <= j <= |s| && r == s[i..j] && Blank(s[..i]) && Blank(s[j..])
  {
    var t := TrimStart(s);
    var r := TrimEnd(t);
    TrimPieces(s, t, r);
    TrimmedCuts(s, t, r);
    r
  }

  /** What trimming cuts off at either end is whitespace, and what it keeps
      is the infix between the two cuts. */
  lemma TrimmedCuts(s: string, t: string, r: string)
    requires |t| <= |s| && t == s[|s| - |t|..]
    requires forall k :: 0 <= k < |s| - |t| ==> IsWhitespace(s[k])
    requires |r| <= |t| && r == t[..|r|]
    requires forall k :: |r| <= k < |t| ==> IsWhitespace(t[k])
    ensures exists i, j :: 0 <= i <= j <= |s| && r == s[i..j] && Blank(s[..i]) && Blank(s[j..])
  {
    var i := |s| - |t|;
    var tail := s[i + |r|..];
    assert tail == t[|r|..];
    forall k | 0 <= k < |tail| ensures IsWhitespace(tail[k]) {
      assert tail[k] == t[|r| + k];
    }
    InfixBetweenBlanks(s, r, i, i + |r|);
  }

  lemma InfixBetweenBlanks(s: string, r: string, i: int, j: int)
    requires 0 <= i <= j <= |s| && r == s[i..j] && Blank(s[..i]) && Blank(s[j..])
    ensures exists i, j :: 0 <= i <= j <= |s| && r == s[i..j] && Blank(s[..i]) && Blank(s[j..])
  {
  }

  lemma TrimPieces(s: string, t: string, r: string)
    requires t == TrimStart(s) && r == TrimEnd(t)
    ensures r == [] || !IsWhitespace(r[0])
    ensures r == [] <==> Blank(s)
    ensures forall c :: c in r ==> c in s
  {
    TrimmedIsInfix(s, t, r);
    if r == [] {
      AllTrimmedAway(s, t);
    } else {
      assert r[0] == t[0];
    }
  }

  /** Every character of the trimmed text is a character of the input. */
  lemma TrimmedIsInfix(s: string, t: string, r: string)
    requires |t| <= |s| && t == s[|s| - |t|..]
    requires |r| <= |t| && r == t[..|r|]
    ensures forall c :: c in r ==> c in s
  {
    forall i | 0 <= i < |r| ensures r[i] in s {
      assert r[i] == s[|s| - |t| + i];
    }
  }

  /** When trimming the end leaves nothing, trimming the start left nothing
      either, so the whole input was whitespace. */
  lemma AllTrimmedAway(s: string, t: string)
    requires t == TrimStart(s) && TrimEnd(t) == []
    ensures Blank(s)
  {
    assert t == [];
  }

  /** `.replace(/,/g, '').replace(/\s+/g, '')`: every comma and whitespace character removed. */
  function StripSeparators(s: string): (r: string)
    ensures |r| <= |s|
    ensures forall c :: c in r <==> c in s && !IsSeparator(c)
    ensures forall c :: multiset(r)[c] == if IsSeparator(c) then 0 else multiset(s)[c]
  {
    if s == [] then []
    else
      assert s == [s[0]] + s[1..];
      if IsSeparator(s[0]) then StripSeparators(s[1..])
      else [s[0]] + StripSeparators(s[1..])
  }

  /** Stripping works character by character, so the characters that stay
      keep their order: stripping a concatenation strips each part. */
  lemma {:induction false} StripSeparatorsConcat(a: string, b: string)
    ensures StripSeparators(a + b) == StripSeparators(a) + StripSeparators(b)
  {
    if a == [] {
      assert a + b == b;
    } else {
      assert (a + b)[1..] == a[1..] + b;
      StripSeparatorsConcat(a[1..], b);
    }
  }

  /** The last characters that `value.toLowerCase().endsWith(suffix)` accepts:
      `toLowerCase` maps `K` and the KELVIN SIGN (U+212A) to `k`, and `M` to `m`. */
  function SuffixChars(sfx: Suffix): set<char> {
    match sfx
    case NoSuffix => {}
    case Thousands => {'k', 'K', '\U{212A}'}
    case Millions => {'m', 'M'}
  }

  predicate EndsWithSuffix(s: string, sfx: Suffix) {
    |s| > 0 && s[|s| - 1] in SuffixChars(sfx)
  }

  /** Removes one trailing suffix letter, in either case, if the field has a suffix. */
  function StripSuffix(s: string, sfx: Suffix): (r: string)
    ensures EndsWithSuffix(s, sfx) ==> r + [s[|s| - 1]] == s
    ensures !EndsWithSuffix(s, sfx) ==> r == s
  {
    if EndsWithSuffix(s, sfx) then s[..|s| - 1] else s
  }

  /** The position of the first `c` in `s`, or `|s|` when there is none. */
  function IndexOf(s: string, c: char): (i: nat)
    ensures i <= |s| && c !in s[..i]
    ensures i < |s| ==> s[i] == c
  {
    if s == [] then 0
    else if s[0] == c then 0
    else
      var j := IndexOf(s[1..], c);
      assert s[..j + 1] == [s[0]] + s[1..][..j];
      j + 1
  }

  /** `s.replace(c, '')` with a string pattern: only the FIRST occurrence of `c` goes. */
  function RemoveFirst(s: string, c: char): (r: string)
    ensures c !in s ==> r == s
    ensures c in s ==>
      var i := IndexOf(s, c);
      && |r| == |s| - 1 && s[i] == c && c !in s[..i]
      && r[..i] == s[..i] && r[i..] == s[i + 1..]
    ensures c in s ==> multiset(r) + multiset{c} == multiset(s)
  {
    var i := IndexOf(s, c);
    if i == |s| then
      assert s[..i] == s;
      s
    else
      assert s == s[..i] + [s[i]] + s[i + 1..];
      s[..i] + s[i + 1..]
  }

  /** In percentage mode the first `%` sign is removed, wherever it stands. */
  function StripPercent(s: string, isPercentage: bool): string {
    if isPercentage then RemoveFirst(s, '%') else s
  }

  /** What is left of a trimmed, non-empty field once separators, the suffix
      letter and the percent sign are gone; this is what the regex must match. */
  function Remainder(trimmed: string, o: Options): string {
    StripPercent(StripSuffix(StripSeparators(trimmed), o.suffix), o.isPercentage)
  }

  // ---------------------------------------------------------------------------
  // The literal pattern `^-?\d*\.?\d*$` (or `^\d*\.?\d*$` without negatives)
  // ---------------------------------------------------------------------------

  /** The parts of a string matching the pattern: an optional sign, the digits
      before the point, whether there is a point, the digits after it. */
  datatype Literal = Literal(negative: bool, whole: string, point: bool, fraction: string)

  /** A literal the pattern admits; without a point all digits are `whole`,
      which makes the reading of a matching string unique. */
  predicate WellFormed(l: Literal, allowNegative: bool) {
    && (l.negative ==> allowNegative)
    && AllDigits(l.whole)
    && AllDigits(l.fraction)
    && (!l.point ==> l.fraction == [])
  }

  /** The text of a literal. The strings the pattern matches are exactly the
      texts of well-formed literals. */
  function Render(l: Literal): string {
    (if l.negative then "-" else "") + l.whole + (if l.point then "." else "") + l.fraction
  }

  /** The longest run of digits at the start of `s`. */
  function LeadingDigits(s: string): (r: string)
    ensures |r| <= |s| && r == s[..|r|] && AllDigits(r)
    ensures |r| < |s| ==> !IsDigit(s[|r|])
  {
    if s != [] && IsDigit(s[0]) then [s[0]] + LeadingDigits(s[1..]) else []
  }

  /** `regex.test(value)`, returning the matched parts. */
  function Scan(s: string, allowNegative: bool): Option<Literal> {
    var negative := allowNegative && |s| > 0 && s[0] == '-';
    ScanUnsigned(negative, if negative then s[1..] else s)
  }

  /** The pattern after its optional dash: digits, then optionally a point
      and more digits, then the end. */
  function ScanUnsigned(negative: bool, body: string): Option<Literal> {
    var whole := LeadingDigits(body);
    var after := body[|whole|..];
    if after == [] then Some(Literal(negative, whole, false, []))
    else if after[0] == '.' && AllDigits(after[1..]) then Some(Literal(negative, whole, true, after[1..]))
    else None
  }

  lemma ScanSound(s: string, allowNegative: bool)
    requires Scan(s, allowNegative).Some?
    ensures WellFormed(Scan(s, allowNegative).value, allowNegative)
    ensures Render(Scan(s, allowNegative).value) == s
  {
    var negative := allowNegative && |s| > 0 && s[0] == '-';
    var body := if negative then s[1..] else s;
    SignSplit(s, negative);
    ScanUnsignedSound(negative, body);
    RenderOfParts(Scan(s, allowNegative).value, body);
  }

  /** A string is its leading dash, if it has one, followed by the rest. */
  lemma SignSplit(s: string, negative: bool)
    requires negative ==> |s| > 0 && s[0] == '-'
    ensures s == (if negative then "-" else "") + (if negative then s[1..] else s)
  {
    if negative {
      assert s == [s[0]] + s[1..];
    }
  }

  /** What `ScanUnsigned` matches is the unsigned text of the literal it returns. */
  lemma ScanUnsignedSound(negative: bool, body: string)
    requires ScanUnsigned(negative, body).Some?
    ensures var l := ScanUnsigned(negative, body).value;
      && l.negative == negative && AllDigits(l.whole) && AllDigits(l.fraction)
      && (!l.point ==> l.fraction == [])
      && body == l.whole + ((if l.point then "." else "") + l.fraction)
  {
    var whole := LeadingDigits(body);
    var after := body[|whole|..];
    assert body == whole + after;
    if after != [] {
      assert after == "." + after[1..];
    }
  }

  lemma RenderOfParts(l: Literal, body: string)
    requires body == l.whole + ((if l.point then "." else "") + l.fraction)
    ensures Render(l) == (if l.negative then "-" else "") + body
  {
  }

  lemma {:induction false} LeadingDigitsOfLiteral(digits: string, tail: string)
    requires AllDigits(digits)
    requires tail == [] || !IsDigit(tail[0])
    ensures LeadingDigits(digits + tail) == digits
  {
    if digits != [] {
      assert (digits + tail)[1..] == digits[1..] + tail;
      LeadingDigitsOfLiteral(digits[1..], tail);
    } else {
      assert digits + tail == tail;
    }
  }

  lemma ScanComplete(l: Literal, allowNegative: bool)
    requires WellFormed(l, allowNegative)
    ensures Scan(Render(l), allowNegative) == Some(l)
  {
    var tail := (if l.point then "." else "") + l.fraction;
    RenderSign(l, allowNegative);
    BodyScan(l);
    if l.point {
      assert tail[0] == '.' && tail[1..] == l.fraction;
    } else {
      assert tail == [];
    }
  }

  /** The pattern's optional dash is found exactly when the literal is negative,
      and what follows it is the literal's digits and point. */
  lemma RenderSign(l: Literal, allowNegative: bool)
    requires WellFormed(l, allowNegative)
    ensures var s := Render(l);
      && (allowNegative && |s| > 0 && s[0] == '-') == l.negative
      && (if l.negative then s[1..] else s) == l.whole + ((if l.point then "." else "") + l.fraction)
  {
    var body := l.whole + ((if l.point then "." else "") + l.fraction);
    var s := Render(l);
    assert s == (if l.negative then "-" else "") + body;
    if l.negative {
      assert s[1..] == body;
    } else {
      assert s == body;
      assert !(|s| > 0 && s[0] == '-') by {
        if |s| > 0 {
          if l.whole != [] { assert s[0] == l.whole[0]; }
          else if l.point { assert s[0] == '.'; }
        }
      }
    }
  }

  /** The leading digit run of a literal's unsigned text is its whole part. */
  lemma BodyScan(l: Literal)
    requires AllDigits(l.whole) && (!l.point ==> l.fraction == [])
    ensures var body := l.whole + ((if l.point then "." else "") + l.fraction);
      && LeadingDigits(body) == l.whole
      && body[|l.whole|..] == (if l.point then "." else "") + l.fraction
  {
    var tail := (if l.point then "." else "") + l.fraction;
    assert tail == [] || !IsDigit(tail[0]);
    LeadingDigitsOfLiteral(l.whole, tail);
    assert (l.whole + tail)[|l.whole|..] == tail;
  }

  /** The pattern matches `s` exactly when `Scan` succeeds. */
  lemma ScanMatchesPattern(s: string, allowNegative: bool)
    ensures Scan(s, allowNegative).Some? <==> exists l :: WellFormed(l, allowNegative) && Render(l) == s
  {
    if Scan(s, allowNegative).Some? {
      ScanSound(s, allowNegative);
    }
    if l :| WellFormed(l, allowNegative) && Render(l) == s {
      ScanComplete(l, allowNegative);
    }
  }

  // ---------------------------------------------------------------------------
  // Reading the literal (`parseFloat`) and scaling it
  // ---------------------------------------------------------------------------

  function DigitValue(c: char): nat
    requires IsDigit(c)
  {
    (c as int - '0' as int) as nat
  }

  /** The integer a string of decimal digits denotes (0 for no digits). */
  function DigitsValue(s: string): nat
    requires AllDigits(s)
  {
    if s == [] then 0 else DigitsValue(s[..|s| - 1]) * 10 + DigitValue(s[|s| - 1])
  }

  function Pow10(n: nat): (r: nat)
    ensures r > 0
  {
    if n == 0 then 1 else 10 * Pow10(n - 1)
  }

  predicate HasDigit(l: Literal) {
    l.whole != [] || l.fraction != []
  }

  /** The number `parseFloat` reads from a matched literal, or `None` (NaN)
      when the literal has no digit at all (`""`, `"."`, `"-"`, `"-."`). */
  function LiteralValue(l: Literal): (r: Option<real>)
    requires AllDigits(l.whole) && AllDigits(l.fraction)
    ensures r.Some? <==> HasDigit(l)
    ensures r.Some? ==> (if l.negative then r.value <= 0.0 else r.value >= 0.0)
    ensures r.Some? ==>
      && AllDigits(l.whole + l.fraction)
      && var decimal := DigitsValue(l.whole + l.fraction) as real / Pow10(|l.fraction|) as real;
         r.value == if l.negative then -decimal else decimal
  {
    if !HasDigit(l) then None
    else
      var magnitude := DigitsValue(l.whole) as real + DigitsValue(l.fraction) as real / Pow10(|l.fraction|) as real;
      DigitsShifted(l.whole, l.fraction);
      Some(if l.negative then -magnitude else magnitude)
  }

  /** The digits of `a` followed by those of `b` denote `a`'s number shifted
      left by `|b|` places, plus `b`'s number. */
  lemma {:induction false} DigitsValueConcat(a: string, b: string)
    requires AllDigits(a) && AllDigits(b)
    ensures AllDigits(a + b)
    ensures DigitsValue(a + b) == DigitsValue(a) * Pow10(|b|) + DigitsValue(b)
  {
    if b == [] {
      assert a + b == a;
    } else {
      var b' := b[..|b| - 1];
      assert (a + b)[..|a + b| - 1] == a + b';
      assert (a + b)[|a + b| - 1] == b[|b| - 1];
      DigitsValueConcat(a, b');
      ShiftStep(DigitsValue(a), Pow10(|b'|), Pow10(|b|), DigitsValue(b'), DigitValue(b[|b| - 1]));
    }
  }

  /** Appending a digit `d` to `x` followed by `y` shifts both by one place. */
  lemma ShiftStep(x: int, p: int, q: int, y: int, d: int)
    requires q == 10 * p
    ensures (x * p + y) * 10 + d == x * q + (y * 10 + d)
  {
  }

  /** Placing the point `|f|` digits from the end divides the digit string's
      number by `10^|f|`: whole part plus fraction. */
  lemma DigitsShifted(w: string, f: string)
    requires AllDigits(w) && AllDigits(f)
    ensures AllDigits(w + f)
    ensures DigitsValue(w + f) as real / Pow10(|f|) as real
            == DigitsValue(w) as real + DigitsValue(f) as real / Pow10(|f|) as real
  {
    DigitsValueConcat(w, f);
    ShiftedValue(DigitsValue(w + f), DigitsValue(w), DigitsValue(f), Pow10(|f|));
  }

  /** `n = a * q + b` read as a fraction of `q`. */
  lemma ShiftedValue(n: nat, a: nat, b: nat, q: nat)
    requires q > 0 && n == a * q + b
    ensures n as real / q as real == a as real + b as real / q as real
  {
    ProductAsReal(a, q);
    DivideShifted(a as real, b as real, q as real);
  }

  lemma DivideShifted(x: real, y: real, p: real)
    requires p > 0.0
    ensures (x * p + y) / p == x + y / p
  {
    assert (x + y / p) * p == x * p + y;
  }

  lemma ProductAsReal(a: int, b: int)
    ensures (a * b) as real == a as real * b as real
  {
  }

  function SuffixMultiplier(sfx: Suffix): real {
    match sfx
    case NoSuffix => 1.0
    case Thousands => 1000.0
    case Millions => 1000000.0
  }

  /** Applies the option's multiplier, then the percentage division. */
  function Scale(x: real, o: Options): real {
    var scaled := x * SuffixMultiplier(o.suffix);
    if o.isPercentage then scaled / 100.0 else scaled
  }

  // ---------------------------------------------------------------------------
  // The parser
  // ---------------------------------------------------------------------------

  /** The reading of a field before the suffix and percentage scaling: the
      validation and `parseFloat` steps of `parseNumericInput`. */
  function Read(raw: string, o: Options): Parsed {
    var value := Trim(raw);
    if value == [] then Empty
    else
      match Scan(Remainder(value, o), o.allowNegative)
      case None => Invalid
      case Some(l) =>
        ScanSound(Remainder(value, o), o.allowNegative);
        match LiteralValue(l)
        case None => Invalid
        case Some(x) => Value(x)
  }

  /** Applies the option's scaling to a reading; Empty and Invalid pass through. */
  function ScaleReading(p: Parsed, o: Options): Parsed {
    match p
    case Value(x) => Value(Scale(x, o))
    case other => other
  }

  /** `parseNumericInput(raw, o)`. A blank or whitespace-only field is "not
      provided", and nothing else is; `0` is a value. */
  function Parse(raw: string, o: Options): (r: Parsed)
    ensures r == Empty <==> Blank(raw)
  {
    ScaleReading(Read(raw, o), o)
  }

  // ---------------------------------------------------------------------------
  // What the parser promises
  // ---------------------------------------------------------------------------

  /** The value a well-formed literal with at least one digit denotes. */
  function Magnitude(l: Literal): real
    requires AllDigits(l.whole) && AllDigits(l.fraction) && HasDigit(l)
  {
    LiteralValue(l).value
  }

  /** The parser yields `x` exactly when the field is not blank and what is
      left after stripping is the text of a literal with a digit that denotes
      `x` before scaling. */
  lemma ParseValueIff(raw: string, o: Options, x: real)
    ensures Parse(raw, o) == Value(x) <==>
      && !Blank(raw)
      && exists l :: && WellFormed(l, o.allowNegative) && HasDigit(l)
                     && Render(l) == Remainder(Trim(raw), o)
                     && x == Scale(Magnitude(l), o)
  {
    if Parse(raw, o) == Value(x) {
      var l := ParseValueWitness(raw, o, x);
    }
    if !Blank(raw) && exists l :: && WellFormed(l, o.allowNegative) && HasDigit(l)
                                 && Render(l) == Remainder(Trim(raw), o) && x == Scale(Magnitude(l), o) {
      var l :| && WellFormed(l, o.allowNegative) && HasDigit(l)
               && Render(l) == Remainder(Trim(raw), o) && x == Scale(Magnitude(l), o);
      ParseOfLiteralRemainder(raw, o, l);
    }
  }

  /** A value comes from the literal the pattern matched in the remainder. */
  lemma ParseValueWitness(raw: string, o: Options, x: real) returns (l: Literal)
    requires Parse(raw, o) == Value(x)
    ensures !Blank(raw)
    ensures WellFormed(l, o.allowNegative) && HasDigit(l)
    ensures Render(l) == Remainder(Trim(raw), o) && x == Scale(Magnitude(l), o)
  {
    var rem := Remainder(Trim(raw), o);
    ScanSound(rem, o.allowNegative);
    l := Scan(rem, o.allowNegative).value;
  }

  /** A non-blank field is Invalid exactly when its remainder does not match
      the pattern, or matches it without a single digit (`""`, `"."`, `"-"`). */
  lemma ParseInvalidIff(raw: string, o: Options)
    ensures Parse(raw, o) == Invalid <==>
      && !Blank(raw)
      && forall l :: WellFormed(l, o.allowNegative) && Render(l) == Remainder(Trim(raw), o) ==> !HasDigit(l)
  {
    if Parse(raw, o) == Invalid {
      InvalidHasNoDigitReading(raw, o);
    }
    if !Blank(raw) && forall l :: WellFormed(l, o.allowNegative) && Render(l) == Remainder(Trim(raw), o) ==> !HasDigit(l) {
      NoDigitReadingIsInvalid(raw, o);
    }
  }

  /** An Invalid field has no literal with a digit behind its remainder. */
  lemma InvalidHasNoDigitReading(raw: string, o: Options)
    requires Parse(raw, o) == Invalid
    ensures !Blank(raw)
    ensures forall l :: WellFormed(l, o.allowNegative) && Render(l) == Remainder(Trim(raw), o) ==> !HasDigit(l)
  {
    var rem := Remainder(Trim(raw), o);
    forall l | WellFormed(l, o.allowNegative) && Render(l) == rem
      ensures !HasDigit(l)
    {
      ScanComplete(l, o.allowNegative);
    }
  }

  /** A non-blank field with no literal with a digit behind its remainder is Invalid. */
  lemma NoDigitReadingIsInvalid(raw: string, o: Options)
    requires !Blank(raw)
    requires forall l :: WellFormed(l, o.allowNegative) && Render(l) == Remainder(Trim(raw), o) ==> !HasDigit(l)
    ensures Parse(raw, o) == Invalid
  {
    var rem := Remainder(Trim(raw), o);
    if Scan(rem, o.allowNegative).Some? {
      ScanSound(rem, o.allowNegative);
    }
  }

  // ---------------------------------------------------------------------------
  // Scaling: the multiplier comes from the option, not from the typed letter
  // ---------------------------------------------------------------------------

  /** Multiplies a parsed value; Empty and Invalid stay as they are. */
  function ScaledBy(p: Parsed, f: real): Parsed {
    match p
    case Value(x) => Value(x * f)
    case _ => p
  }

  /** Characters that can occur in the text of a literal. */
  predicate IsLiteralChar(c: char) {
    IsDigit(c) || c == '-' || c == '.'
  }

  lemma RenderChars(l: Literal, allowNegative: bool)
    requires WellFormed(l, allowNegative)
    ensures forall i :: 0 <= i < |Render(l)| ==> IsLiteralChar(Render(l)[i])
  {
    var sign: string := if l.negative then "-" else "";
    var point: string := if l.point then "." else "";
    assert Render(l) == sign + l.whole + point + l.fraction;
    forall i | 0 <= i < |Render(l)| ensures IsLiteralChar(Render(l)[i]) {
      if i < |sign| {
      } else if i < |sign| + |l.whole| {
        assert Render(l)[i] == l.whole[i - |sign|];
      } else if i < |sign| + |l.whole| + |point| {
      } else {
        assert Render(l)[i] == l.fraction[i - |sign| - |l.whole| - |point|];
      }
    }
  }

  lemma {:induction false} StripSeparatorsKeeps(s: string)
    requires forall i :: 0 <= i < |s| ==> !IsSeparator(s[i])
    ensures StripSeparators(s) == s
  {
    if s != [] {
      StripSeparatorsKeeps(s[1..]);
    }
  }

  predicate PlainText(s: string) {
    forall i :: 0 <= i < |s| ==> IsLiteralChar(s[i])
  }

  lemma RemoveFirstAbsent(s: string, c: char)
    requires c !in s
    ensures RemoveFirst(s, c) == s
  {
  }

  lemma LiteralCharIsPlain(c: char)
    requires IsLiteralChar(c)
    ensures !IsSeparator(c) && c != '%'
    ensures c !in SuffixChars(Thousands) && c !in SuffixChars(Millions)
  {
  }

  /** Text that neither starts nor ends with whitespace is its own trim. */
  lemma TrimUnchanged(t: string)
    requires t != [] && !IsWhitespace(t[0]) && !IsWhitespace(t[|t| - 1])
    ensures Trim(t) == t
  {
  }

  /** Literal text, optionally followed by one suffix letter, is left alone by
      trimming and every stripping step except the suffix one. */
  lemma PlainRemainder(s: string, tail: string, o: Options)
    requires PlainText(s) && s != []
    requires tail == [] || (|tail| == 1 && tail[0] in SuffixChars(o.suffix))
    ensures Trim(s + tail) == s + tail
    ensures Remainder(s + tail, o) == s
  {
    LiteralCharIsPlain(s[0]);
    LiteralCharIsPlain(s[|s| - 1]);
    PlainTrimmed(s, tail, o.suffix);
    PlainStripped(s, tail, o);
  }

  /** Separator, suffix and percent stripping leave literal text as it is,
      once its suffix letter is gone. */
  lemma PlainStripped(s: string, tail: string, o: Options)
    requires PlainText(s) && s != []
    requires tail == [] || (|tail| == 1 && tail[0] in SuffixChars(o.suffix))
    ensures Remainder(s + tail, o) == s
  {
    PlainTextHasNoMarks(s);
    LiteralCharIsPlain(s[|s| - 1]);
    NoSeparatorsWithSuffix(s, tail, o.suffix);
    StripSeparatorsKeeps(s + tail);
    SuffixStripped(s, tail, o.suffix);
    RemoveFirstAbsent(s, '%');
    assert StripSuffix(StripSeparators(s + tail), o.suffix) == s;
  }

  lemma PlainTrimmed(s: string, tail: string, sfx: Suffix)
    requires s != [] && !IsWhitespace(s[0]) && !IsWhitespace(s[|s| - 1])
    requires tail == [] || (|tail| == 1 && tail[0] in SuffixChars(sfx))
    ensures Trim(s + tail) == s + tail
  {
    assert (s + tail)[0] == s[0];
    TrimUnchanged(s + tail);
  }

  lemma SuffixStripped(s: string, tail: string, sfx: Suffix)
    requires s != [] && s[|s| - 1] !in SuffixChars(sfx)
    requires tail == [] || (|tail| == 1 && tail[0] in SuffixChars(sfx))
    ensures StripSuffix(s + tail, sfx) == s
  {
    if tail != [] {
      assert (s + tail)[..|s|] == s;
    } else {
      assert s + tail == s;
    }
  }

  /** Literal text holds no separator and no `%`. */
  lemma PlainTextHasNoMarks(s: string)
    requires PlainText(s)
    ensures forall i :: 0 <= i < |s| ==> !IsSeparator(s[i])
    ensures '%' !in s
  {
    forall i | 0 <= i < |s| ensures !IsSeparator(s[i]) && s[i] != '%' {
      LiteralCharIsPlain(s[i]);
    }
  }

  /** Nor does it with one suffix letter after it. */
  lemma NoSeparatorsWithSuffix(s: string, tail: string, sfx: Suffix)
    requires forall i :: 0 <= i < |s| ==> !IsSeparator(s[i])
    requires tail == [] || (|tail| == 1 && tail[0] in SuffixChars(sfx))
    ensures forall i :: 0 <= i < |s + tail| ==> !IsSeparator((s + tail)[i])
  {
    forall i | 0 <= i < |s + tail| ensures !IsSeparator((s + tail)[i]) {
      if i < |s| {
        assert (s + tail)[i] == s[i];
      }
    }
  }

  /** The text of a well-formed literal with a digit parses to its value, scaled
      by the field's options. */
  lemma LiteralParses(l: Literal, o: Options)
    requires WellFormed(l, o.allowNegative) && HasDigit(l)
    ensures Parse(Render(l), o) == Value(Scale(Magnitude(l), o))
  {
    var s := Render(l);
    RenderChars(l, o.allowNegative);
    RenderNonEmpty(l);
    PlainRemainder(s, [], o);
    assert s + [] == s;
    ParseOfLiteralRemainder(s, o, l);
  }

  /** Reading a non-blank field whose remainder is the text of a literal with a digit. */
  lemma ParseOfLiteralRemainder(raw: string, o: Options, l: Literal)
    requires Trim(raw) != []
    requires WellFormed(l, o.allowNegative) && HasDigit(l)
    requires Remainder(Trim(raw), o) == Render(l)
    ensures Parse(raw, o) == Value(Scale(Magnitude(l), o))
  {
    ScanComplete(l, o.allowNegative);
  }

  /** Two option sets that strip a field to the same remainder and differ only
      in a constant scale factor give readings that differ by that factor. */
  lemma ParseScaling(raw: string, o1: Options, o2: Options, f: real)
    requires o1.allowNegative == o2.allowNegative
    requires Remainder(Trim(raw), o1) == Remainder(Trim(raw), o2)
    requires forall x :: Scale(x, o1) == Scale(x, o2) * f
    ensures Parse(raw, o1) == ScaledBy(Parse(raw, o2), f)
  {
    assert Read(raw, o1) == Read(raw, o2);
    ReadingScaling(Read(raw, o1), o1, o2, f);
  }

  lemma ReadingScaling(p: Parsed, o1: Options, o2: Options, f: real)
    requires forall x :: Scale(x, o1) == Scale(x, o2) * f
    ensures ScaleReading(p, o1) == ScaledBy(ScaleReading(p, o2), f)
  {
  }

  /** A field whose text is a literal, with or without a trailing suffix letter
      of either case, parses to the literal's value times the option's
      multiplier: "5" and "5K" both give 5000 in a `k` field. */
  lemma SuffixLetterIsOptional(l: Literal, o: Options, c: char)
    requires WellFormed(l, o.allowNegative) && HasDigit(l)
    requires c in SuffixChars(o.suffix)
    ensures Parse(Render(l), o) == Value(Scale(Magnitude(l), o))
    ensures Parse(Render(l) + [c], o) == Value(Scale(Magnitude(l), o))
  {
    var s := Render(l);
    LiteralParses(l, o);
    RenderChars(l, o.allowNegative);
    RenderNonEmpty(l);
    PlainRemainder(s, [c], o);
    ParseOfLiteralRemainder(s + [c], o, l);
  }

  /** The text of a literal with a digit is never empty. */
  lemma RenderNonEmpty(l: Literal)
    requires HasDigit(l)
    ensures Render(l) != []
  {
    var s := Render(l);
    if l.whole != [] {
      assert s[|s| - 1 - |l.fraction| - (if l.point then 1 else 0)] == l.whole[|l.whole| - 1];
    } else {
      assert |s| >= |l.fraction| > 0;
    }
  }

  /** In a percentage field a literal reads the same with or without a
      trailing `%`: "40" and "40%" both give 0.4. */
  lemma PercentSignIsOptional(l: Literal, o: Options)
    requires o.isPercentage && WellFormed(l, o.allowNegative) && HasDigit(l)
    ensures Parse(Render(l) + "%", o) == Value(Scale(Magnitude(l), o))
  {
    RenderChars(l, o.allowNegative);
    RenderNonEmpty(l);
    PercentRemainder(Render(l), o);
    ParseOfLiteralRemainder(Render(l) + "%", o, l);
  }

  /** Literal text followed by `%` is left alone by trimming, and in a
      percentage field the stripping steps take off just the `%`. */
  lemma PercentRemainder(s: string, o: Options)
    requires PlainText(s) && s != [] && o.isPercentage
    ensures Trim(s + "%") == s + "%"
    ensures Remainder(s + "%", o) == s
  {
    var t := s + "%";
    LiteralCharIsPlain(s[0]);
    assert t[0] == s[0];
    TrimUnchanged(t);
    forall i | 0 <= i < |t| ensures !IsSeparator(t[i]) {
      if i < |s| {
        assert t[i] == s[i];
        LiteralCharIsPlain(s[i]);
      }
    }
    StripSeparatorsKeeps(t);
    PercentIsNoSuffix(t, o.suffix);
    assert '%' !in s by {
      forall i | 0 <= i < |s| ensures s[i] != '%' {
        LiteralCharIsPlain(s[i]);
      }
    }
    FirstPercentAtEnd(s);
  }

  lemma PercentIsNoSuffix(t: string, sfx: Suffix)
    requires t != [] && t[|t| - 1] == '%'
    ensures StripSuffix(t, sfx) == t
  {
  }

  lemma FirstPercentAtEnd(s: string)
    requires '%' !in s
    ensures RemoveFirst(s + "%", '%') == s
  {
    var t := s + "%";
    assert t[..|s|] == s;
    IndexOfFirst(t, '%', |s|);
  }

  /** The first occurrence is where `IndexOf` points. */
  lemma {:induction false} IndexOfFirst(s: string, c: char, i: nat)
    requires i < |s| && s[i] == c && c !in s[..i]
    ensures IndexOf(s, c) == i
  {
    if i > 0 {
      assert s[0] in s[..i];
      assert s[1..][..i - 1] == s[..i][1..];
      IndexOfFirst(s[1..], c, i - 1);
    }
  }

  /** When the stripped field does not end in a suffix letter, a field with
      suffix `k` or `m` yields the suffix-less reading times 1e3 or 1e6. */
  lemma SuffixOptionMultiplies(raw: string, o: Options)
    requires !EndsWithSuffix(StripSeparators(Trim(raw)), o.suffix)
    ensures Parse(raw, o) == ScaledBy(Parse(raw, o.(suffix := NoSuffix)), SuffixMultiplier(o.suffix))
  {
    var plain := o.(suffix := NoSuffix);
    assert Remainder(Trim(raw), o) == Remainder(Trim(raw), plain);
    forall x ensures Scale(x, o) == Scale(x, plain) * SuffixMultiplier(o.suffix) {
      if o.isPercentage {
        calc {
          Scale(x, o);
          x * SuffixMultiplier(o.suffix) / 100.0;
          (x * 1.0 / 100.0) * SuffixMultiplier(o.suffix);
        }
      }
    }
    ParseScaling(raw, o, plain, SuffixMultiplier(o.suffix));
  }

  /** Without a `%` in the field, percentage mode divides the plain reading by
      100, after the suffix multiplier has been applied. */
  lemma PercentOptionDivides(raw: string, o: Options)
    requires '%' !in raw
    ensures Parse(raw, o.(isPercentage := true)) == ScaledBy(Parse(raw, o.(isPercentage := false)), 1.0 / 100.0)
  {
    var pct := o.(isPercentage := true);
    var plain := o.(isPercentage := false);
    var stripped := StripSuffix(StripSeparators(Trim(raw)), o.suffix);
    PercentFreeStripped(raw, o.suffix);
    RemoveFirstAbsent(stripped, '%');
    assert Remainder(Trim(raw), pct) == Remainder(Trim(raw), plain);
    forall x ensures Scale(x, pct) == Scale(x, plain) * (1.0 / 100.0) {
    }
    ParseScaling(raw, pct, plain, 1.0 / 100.0);
  }

  /** No stripping step introduces a `%`. */
  lemma PercentFreeStripped(raw: string, sfx: Suffix)
    requires '%' !in raw
    ensures '%' !in StripSuffix(StripSeparators(Trim(raw)), sfx)
  {
    var t := StripSeparators(Trim(raw));
    assert '%' !in t;
    if EndsWithSuffix(t, sfx) {
      var r := StripSuffix(t, sfx);
      assert r == t[..|t| - 1];
      forall i | 0 <= i < |r| ensures r[i] != '%' {
        assert r[i] == t[i];
      }
    }
  }
}
