/** The keystroke sanitiser inside `handleInputChange` (dev/js/main.js:232-266),
    lifted out of its DOM handler into a string function.

    On every edit the field text loses its displayed suffix letter or `%`,
    every `-` that is not the first character (only where negatives are
    allowed), every character other than digits, `.` and `-`, and every `.`
    after the first; then the suffix letter or `%` is put back. */
module InputSanitiser {

  import opened NumericParser

  /** The letter `handleInputChange` compares against and re-appends: the
      option's own lower-case `k` or `m` (its `endsWith` test is case-sensitive). */
  function SuffixLetter(sfx: Suffix): string {
    match sfx
    case NoSuffix => ""
    case Thousands => "k"
    case Millions => "m"
  }

  /** What the handler appends after the value: the suffix letter, else `%`
      for a percentage field, else nothing. */
  function Decoration(o: Options): string {
    if o.suffix != NoSuffix then SuffixLetter(o.suffix)
    else if o.isPercentage then "%"
    else ""
  }

  /** Every `c` removed. */
  function RemoveAll(s: string, c: char): (r: string)
    ensures |r| <= |s|
    ensures forall d :: d in r <==> d in s && d != c
    ensures forall d :: multiset(r)[d] == if d == c then 0 else multiset(s)[d]
  {
    if s == [] then []
    else
      assert s == [s[0]] + s[1..];
      if s[0] == c then RemoveAll(s[1..], c)
      else [s[0]] + RemoveAll(s[1..], c)
  }

  /** Removal works character by character: the characters that stay keep
      their order. */
  lemma {:induction false} RemoveAllConcat(a: string, b: string, c: char)
    ensures RemoveAll(a + b, c) == RemoveAll(a, c) + RemoveAll(b, c)
  {
    if a == [] {
      assert a + b == b;
    } else {
      assert (a + b)[1..] == a[1..] + b;
      RemoveAllConcat(a[1..], b, c);
    }
  }

  /** Removes the option's suffix letter when the text ends with it. */
  function DropTypedSuffix(s: string, sfx: Suffix): (r: string)
    ensures sfx != NoSuffix && |s| > 0 && s[|s| - 1] == SuffixLetter(sfx)[0] ==> r + SuffixLetter(sfx) == s
    ensures !(sfx != NoSuffix && |s| > 0 && s[|s| - 1] == SuffixLetter(sfx)[0]) ==> r == s
  {
    var letter := SuffixLetter(sfx);
    if letter != "" && |s| > 0 && s[|s| - 1] == letter[0] then s[..|s| - 1] else s
  }

  /** Removes a trailing `%` in a percentage field. */
  function DropTypedPercent(s: string, isPercentage: bool): (r: string)
    ensures isPercentage && |s| > 0 && s[|s| - 1] == '%' ==> r + "%" == s
    ensures !(isPercentage && |s| > 0 && s[|s| - 1] == '%') ==> r == s
  {
    if isPercentage && |s| > 0 && s[|s| - 1] == '%' then s[..|s| - 1] else s
  }

  /** `.replace(/(?!^-)-/g, '')`: every `-` except one standing first. */
  function DropInnerDashes(s: string): (r: string)
    ensures r == [] || '-' !in r[1..]
    ensures forall c :: c in r ==> c in s
    ensures s != [] ==> r != [] && r[0] == s[0]
    ensures forall c :: c != '-' ==> multiset(r)[c] == multiset(s)[c]
    ensures multiset(r)['-'] == if s != [] && s[0] == '-' then 1 else 0
  {
    if s == [] then [] else
      var rest := RemoveAll(s[1..], '-');
      assert ([s[0]] + rest)[1..] == rest;
      assert s == [s[0]] + s[1..];
      [s[0]] + rest
  }

  /** Dashes after the first character go one by one: the characters that
      stay keep their order. */
  lemma DropInnerDashesConcat(a: string, b: string)
    requires a != []
    ensures DropInnerDashes(a + b) == DropInnerDashes(a) + RemoveAll(b, '-')
  {
    assert (a + b)[0] == a[0];
    assert (a + b)[1..] == a[1..] + b;
    RemoveAllConcat(a[1..], b, '-');
  }

  /** `.replace(/[^0-9.\-]/g, '')`: only digits, points and dashes remain,
      in their order. A `-` that stood only first still stands only first. */
  function KeepLiteralChars(s: string): (r: string)
    ensures forall i :: 0 <= i < |r| ==> IsLiteralChar(r[i])
    ensures forall c :: c in r ==> c in s
    ensures (s == [] || '-' !in s[1..]) ==> (r == [] || '-' !in r[1..])
    ensures forall c :: multiset(r)[c] == if IsLiteralChar(c) then multiset(s)[c] else 0
  {
    if s == [] then []
    else
      assert s == [s[0]] + s[1..];
      if IsLiteralChar(s[0]) then
        var rest := KeepLiteralChars(s[1..]);
        assert ([s[0]] + rest)[1..] == rest;
        [s[0]] + rest
      else
        KeepLiteralChars(s[1..])
  }

  /** The characters kept keep their order. */
  lemma {:induction false} KeepLiteralCharsConcat(a: string, b: string)
    ensures KeepLiteralChars(a + b) == KeepLiteralChars(a) + KeepLiteralChars(b)
  {
    if a == [] {
      assert a + b == b;
    } else {
      assert (a + b)[1..] == a[1..] + b;
      KeepLiteralCharsConcat(a[1..], b);
    }
  }

  /** No two points. */
  predicate AtMostOnePoint(s: string) {
    forall i, j :: 0 <= i < j < |s| && s[i] == '.' ==> s[j] != '.'
  }

  /** The `split('.')` / `join('')` step: the first `.` stays, later ones go.
      Everything up to and including the first point is kept as it stands,
      and every other character stays, as often as it occurred. */
  function KeepFirstPoint(s: string): (r: string)
    ensures AtMostOnePoint(r)
    ensures forall c :: c in r ==> c in s
    ensures r != [] ==> s != [] && r[0] == s[0] && forall c :: c in r[1..] ==> c in s[1..]
    ensures '.' !in s ==> r == s
    ensures '.' in s ==> IndexOf(s, '.') < |r| && r[..IndexOf(s, '.') + 1] == s[..IndexOf(s, '.') + 1]
    ensures forall c :: c != '.' ==> multiset(r)[c] == multiset(s)[c]
    ensures multiset(r)['.'] == if '.' in s then 1 else 0
  {
    if s == [] then []
    else if s[0] == '.' then
      var rest := RemoveAll(s[1..], '.');
      FirstPointHere(s, rest, [s[0]] + rest);
      FirstPointHereCounts(s, rest, [s[0]] + rest);
      [s[0]] + rest
    else
      var rest := KeepFirstPoint(s[1..]);
      FirstPointLater(s, rest, [s[0]] + rest);
      FirstPointLaterPrefix(s, rest, [s[0]] + rest);
      FirstPointLaterCounts(s, rest, [s[0]] + rest);
      [s[0]] + rest
  }

  /** A text that starts with its point keeps that point and drops the later
      ones. */
  lemma FirstPointHere(s: string, rest: string, r: string)
    requires s != [] && s[0] == '.' && rest == RemoveAll(s[1..], '.') && r == [s[0]] + rest
    ensures AtMostOnePoint(r)
    ensures forall c :: c in r ==> c in s
    ensures r[0] == s[0] && forall c :: c in r[1..] ==> c in s[1..]
    ensures IndexOf(s, '.') == 0 && r[..1] == s[..1]
  {
    assert r[1..] == rest;
    assert forall j :: 0 < j < |r| ==> r[j] == rest[j - 1];
    assert forall j :: 0 <= j < |rest| ==> rest[j] != '.' by {
      forall j | 0 <= j < |rest| ensures rest[j] != '.' {
        assert rest[j] in rest;
      }
    }
  }

  lemma FirstPointHereCounts(s: string, rest: string, r: string)
    requires s != [] && s[0] == '.' && rest == RemoveAll(s[1..], '.') && r == [s[0]] + rest
    ensures forall c :: c != '.' ==> multiset(r)[c] == multiset(s)[c]
    ensures multiset(r)['.'] == 1
  {
    assert s == [s[0]] + s[1..];
  }

  /** A first character other than a point is kept in front of what the rest
      of the text keeps. */
  lemma FirstPointLater(s: string, rest: string, r: string)
    requires s != [] && s[0] != '.' && r == [s[0]] + rest
    requires AtMostOnePoint(rest)
    requires forall c :: c in rest ==> c in s[1..]
    ensures AtMostOnePoint(r)
    ensures forall c :: c in r ==> c in s
    ensures r[0] == s[0] && forall c :: c in r[1..] ==> c in s[1..]
  {
    assert r[1..] == rest;
    assert forall j :: 0 < j < |r| ==> r[j] == rest[j - 1];
  }

  lemma FirstPointLaterPrefix(s: string, rest: string, r: string)
    requires s != [] && s[0] != '.' && r == [s[0]] + rest
    requires '.' !in s[1..] ==> rest == s[1..]
    requires '.' in s[1..] ==>
      IndexOf(s[1..], '.') < |rest| && rest[..IndexOf(s[1..], '.') + 1] == s[1..][..IndexOf(s[1..], '.') + 1]
    ensures '.' !in s ==> r == s
    ensures '.' in s ==> IndexOf(s, '.') < |r| && r[..IndexOf(s, '.') + 1] == s[..IndexOf(s, '.') + 1]
  {
    assert s == [s[0]] + s[1..];
    assert '.' in s <==> '.' in s[1..];
    if '.' in s {
      var j := IndexOf(s[1..], '.');
      assert IndexOf(s, '.') == j + 1;
      assert r[..j + 2] == [s[0]] + rest[..j + 1];
      assert s[..j + 2] == [s[0]] + s[1..][..j + 1];
    }
  }

  /** The characters kept keep their order: the text before the first point,
      that point, then the rest of the text without its points. */
  lemma {:induction false} KeepFirstPointAt(s: string, i: nat)
    requires i < |s| && s[i] == '.' && '.' !in s[..i]
    ensures KeepFirstPoint(s) == s[..i] + ['.'] + RemoveAll(s[i + 1..], '.')
  {
    if i == 0 {
      PointFirstUnfold(s, KeepFirstPoint(s));
      JoinAtFirst(s, RemoveAll(s[1..], '.'), KeepFirstPoint(s));
    } else {
      var t := s[1..];
      assert s[0] in s[..i];
      assert t[..i - 1] == s[1..i];
      assert forall c :: c in s[1..i] ==> c in s[..i];
      KeepFirstPointAt(t, i - 1);
      PointLaterUnfold(s, KeepFirstPoint(t), KeepFirstPoint(s));
      JoinLater(s, t, i, RemoveAll(t[i..], '.'), KeepFirstPoint(t), KeepFirstPoint(s));
    }
  }

  /** A text that starts with its point keeps it and drops the later ones. */
  lemma PointFirstUnfold(s: string, r: string)
    requires s != [] && s[0] == '.' && r == KeepFirstPoint(s)
    ensures r == [s[0]] + RemoveAll(s[1..], '.')
  {
  }

  /** A first character other than a point is kept in front. */
  lemma PointLaterUnfold(s: string, rest: string, r: string)
    requires s != [] && s[0] != '.' && rest == KeepFirstPoint(s[1..]) && r == KeepFirstPoint(s)
    ensures r == [s[0]] + rest
  {
  }

  /** A point in first place is the point of the split, with nothing before it. */
  lemma JoinAtFirst(s: string, tail: string, r: string)
    requires s != [] && s[0] == '.' && r == [s[0]] + tail
    ensures r == s[..0] + ['.'] + tail
  {
  }

  /** A character put in front of a split text lengthens the part before the
      point by one. */
  lemma JoinLater(s: string, t: string, i: nat, tail: string, rest: string, r: string)
    requires s != [] && t == s[1..] && 0 < i < |s|
    requires rest == t[..i - 1] + ['.'] + tail && r == [s[0]] + rest
    ensures r == s[..i] + ['.'] + tail && s[i + 1..] == t[i..]
  {
    assert s[..i] == [s[0]] + t[..i - 1];
  }

  lemma FirstPointLaterCounts(s: string, rest: string, r: string)
    requires s != [] && s[0] != '.' && r == [s[0]] + rest
    requires forall c :: c != '.' ==> multiset(rest)[c] == multiset(s[1..])[c]
    requires multiset(rest)['.'] == if '.' in s[1..] then 1 else 0
    ensures forall c :: c != '.' ==> multiset(r)[c] == multiset(s)[c]
    ensures multiset(r)['.'] == if '.' in s then 1 else 0
  {
    assert s == [s[0]] + s[1..];
    assert '.' in s <==> '.' in s[1..];
  }

  /** The cleaned value before the suffix letter or `%` is put back. Every
      digit of the text survives: the sanitiser removes marks, not figures. */
  function SanitisedValue(text: string, o: Options): (r: string)
    ensures forall c :: IsDigit(c) ==> multiset(r)[c] == multiset(text)[c]
  {
    var unsuffixed := DropTypedPercent(DropTypedSuffix(text, o.suffix), o.isPercentage);
    var undashed := if o.allowNegative then DropInnerDashes(unsuffixed) else unsuffixed;
    DigitsKept(text, o, unsuffixed, undashed);
    KeepFirstPoint(KeepLiteralChars(undashed))
  }

  /** No step of the clean-up removes a digit. */
  lemma DigitsKept(text: string, o: Options, unsuffixed: string, undashed: string)
    requires unsuffixed == DropTypedPercent(DropTypedSuffix(text, o.suffix), o.isPercentage)
    requires undashed == if o.allowNegative then DropInnerDashes(unsuffixed) else unsuffixed
    ensures forall c :: IsDigit(c) ==> multiset(KeepFirstPoint(KeepLiteralChars(undashed)))[c] == multiset(text)[c]
  {
    var lettered := DropTypedSuffix(text, o.suffix);
    if lettered != text {
      assert text == lettered + SuffixLetter(o.suffix);
    }
    if unsuffixed != lettered {
      assert lettered == unsuffixed + "%";
    }
  }

  /** The new field text `handleInputChange` writes back. The suffix letter
      or `%` it appends is exactly what the next edit strips again. */
  function Sanitise(text: string, o: Options): (r: string)
    ensures DropTypedPercent(DropTypedSuffix(r, o.suffix), o.isPercentage) == SanitisedValue(text, o)
    ensures |r| == |SanitisedValue(text, o)| + (if o.suffix != NoSuffix || o.isPercentage then 1 else 0)
    ensures o.suffix != NoSuffix ==> r[|r| - 1] == SuffixLetter(o.suffix)[0]
    ensures o.suffix == NoSuffix && o.isPercentage ==> r[|r| - 1] == '%'
  {
    SanitisedValueShape(text, o);
    DecorationStripped(SanitisedValue(text, o), o);
    SanitisedValue(text, o) + Decoration(o)
  }

  /** The decoration appended to a cleaned value is removed by the suffix and
      `%` steps, and nothing of the value with it. */
  lemma DecorationStripped(v: string, o: Options)
    requires PlainText(v)
    ensures DropTypedPercent(DropTypedSuffix(v + Decoration(o), o.suffix), o.isPercentage) == v
  {
    var t := v + Decoration(o);
    if o.suffix != NoSuffix {
      assert DropTypedSuffix(t, o.suffix) == v by {
        assert t[..|t| - 1] == v;
      }
      if v != [] {
        assert IsLiteralChar(v[|v| - 1]);
      }
    } else if o.isPercentage {
      assert DropTypedSuffix(t, o.suffix) == t;
      assert t[..|t| - 1] == v;
    } else {
      assert t == v;
    }
  }

  // ---------------------------------------------------------------------------
  // What the sanitiser guarantees
  // ---------------------------------------------------------------------------

  /** The cleaned value holds only digits, points and dashes, at most one
      point, and, where negatives are allowed, a dash only in first place. */
  lemma SanitisedValueShape(text: string, o: Options)
    ensures PlainText(SanitisedValue(text, o))
    ensures AtMostOnePoint(SanitisedValue(text, o))
    ensures o.allowNegative ==> SanitisedValue(text, o) == [] || '-' !in SanitisedValue(text, o)[1..]
    ensures '-' !in text ==> '-' !in SanitisedValue(text, o)
  {
    var unsuffixed := DropTypedPercent(DropTypedSuffix(text, o.suffix), o.isPercentage);
    var undashed := if o.allowNegative then DropInnerDashes(unsuffixed) else unsuffixed;
    var kept := KeepLiteralChars(undashed);
    var r := KeepFirstPoint(kept);
    forall i | 0 <= i < |r| ensures IsLiteralChar(r[i]) {
      assert r[i] in kept;
    }
    if '-' !in text {
      assert '-' !in DropTypedSuffix(text, o.suffix);
    }
  }

  lemma {:induction false} RemoveAllAbsent(s: string, c: char)
    requires c !in s
    ensures RemoveAll(s, c) == s
  {
    if s != [] {
      RemoveAllAbsent(s[1..], c);
    }
  }

  lemma {:induction false} KeepLiteralCharsKeeps(s: string)
    requires PlainText(s)
    ensures KeepLiteralChars(s) == s
  {
    if s != [] {
      KeepLiteralCharsKeeps(s[1..]);
    }
  }

  lemma {:induction false} KeepFirstPointKeeps(s: string)
    requires AtMostOnePoint(s)
    ensures KeepFirstPoint(s) == s
  {
    if s != [] {
      if s[0] == '.' {
        assert '.' !in s[1..] by {
          forall j | 0 <= j < |s[1..]| ensures s[1..][j] != '.' {
            assert s[j + 1] != '.';
          }
        }
        RemoveAllAbsent(s[1..], '.');
      } else {
        KeepFirstPointKeeps(s[1..]);
      }
    }
  }

  /** Sanitising what the sanitiser wrote changes nothing more. */
  lemma SanitiseIdempotent(text: string, o: Options)
    ensures Sanitise(Sanitise(text, o), o) == Sanitise(text, o)
  {
    var v := SanitisedValue(text, o);
    SanitisedValueShape(text, o);
    CleanValueIsFixed(v, o);
    assert SanitisedValue(Sanitise(text, o), o) == v;
  }

  /** A value already in shape passes the dash, character and point steps
      unchanged. */
  lemma CleanValueIsFixed(v: string, o: Options)
    requires PlainText(v) && AtMostOnePoint(v)
    requires o.allowNegative ==> v == [] || '-' !in v[1..]
    ensures KeepFirstPoint(KeepLiteralChars(if o.allowNegative then DropInnerDashes(v) else v)) == v
  {
    if o.allowNegative {
      DashesInPlace(v);
    }
    KeepLiteralCharsKeeps(v);
    KeepFirstPointKeeps(v);
  }

  /** A text whose only dash stands first keeps every dash. */
  lemma DashesInPlace(v: string)
    requires v == [] || '-' !in v[1..]
    ensures DropInnerDashes(v) == v
  {
    if v != [] {
      RemoveAllAbsent(v[1..], '-');
      assert [v[0]] + v[1..] == v;
    }
  }

  /** Digits with at most one point split at that point into two digit runs. */
  lemma SplitAtPoint(body: string)
    requires PlainText(body) && AtMostOnePoint(body) && '-' !in body
    ensures AllDigits(body[..IndexOf(body, '.')])
    ensures IndexOf(body, '.') < |body| ==> AllDigits(body[IndexOf(body, '.') + 1..])
  {
    var i := IndexOf(body, '.');
    forall k | 0 <= k < i ensures IsDigit(body[k]) {
      assert body[k] in body;
      assert body[k] in body[..i];
    }
    if i < |body| {
      forall k | i < k < |body| ensures IsDigit(body[k]) {
        assert body[k] in body;
      }
    }
  }

  /** Text of digits and points with at most one point, optionally behind a
      leading dash where negatives are allowed, matches the parser's pattern. */
  lemma ShapedTextMatchesPattern(s: string, allowNegative: bool)
    requires PlainText(s) && AtMostOnePoint(s)
    requires s == [] || '-' !in s[1..]
    requires allowNegative || '-' !in s
    ensures Scan(s, allowNegative).Some?
  {
    var negative := allowNegative && |s| > 0 && s[0] == '-';
    if !negative && s != [] {
      assert s == [s[0]] + s[1..];
    }
    UnsignedPart(s, negative);
    DigitsAndPointMatch(negative, if negative then s[1..] else s);
  }

  /** Behind its leading dash, shaped text has no dash left. */
  lemma UnsignedPart(s: string, negative: bool)
    requires PlainText(s) && AtMostOnePoint(s)
    requires negative ==> |s| > 0 && s[0] == '-' && '-' !in s[1..]
    requires !negative ==> '-' !in s
    ensures var body := if negative then s[1..] else s;
      PlainText(body) && AtMostOnePoint(body) && '-' !in body
  {
    if negative {
      var body := s[1..];
      assert forall k :: 0 <= k < |body| ==> body[k] == s[k + 1];
    }
  }

  /** Digits with at most one point and no dash are what the pattern accepts
      after its optional dash. */
  lemma DigitsAndPointMatch(negative: bool, body: string)
    requires PlainText(body) && AtMostOnePoint(body) && '-' !in body
    ensures ScanUnsigned(negative, body).Some?
  {
    SplitAtPoint(body);
    var i := IndexOf(body, '.');
    assert body == body[..i] + body[i..];
    LeadingDigitsOfLiteral(body[..i], body[i..]);
    if i < |body| {
      assert body[i..][1..] == body[i + 1..];
    }
  }

  /** The cleaned value passes the parser's pattern check whenever the text
      has no dash, or both the sanitiser and the parser allow negatives. The
      page sanitises and parses a field under option sets that can differ (a
      thousands field is sanitised allowing negatives but parsed without them,
      except `cash_burn`), so the parser's flag is a separate parameter. The
      value may still hold no digit (`"."`, `"-"`), which the parser reads as
      Invalid. */
  lemma SanitisedValueMatchesPattern(text: string, o: Options, allowNegative: bool)
    requires (o.allowNegative && allowNegative) || '-' !in text
    ensures Scan(SanitisedValue(text, o), allowNegative).Some?
  {
    SanitisedValueShape(text, o);
    ShapedTextMatchesPattern(SanitisedValue(text, o), allowNegative);
  }
}
