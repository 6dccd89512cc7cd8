/**
 * The `HijriDate` value type: a Hijri calendar date accepted as text in the form
 * `1yyy-MM-dd`, stored as the single `int` `yyyyMMdd`, written back out with
 * `String.valueOf` and handed, as `yyyyMMdd` digit groups, to the JDK's Hijrah
 * chronology for conversion to a Gregorian date.
 */
module Hijri {
  import opened Wrappers
  import opened Decimal

  /** The input pattern, as the Java regular expression it is written in. */
  const INPUT_REGEX: string := "([1]\\d{3})-(0[1-9]|1[0-2])-(0[1-9]|[12]\\d|30)"

  /** The `IllegalArgumentException` that rejects an input, with its message. */
  datatype IllegalArgumentError = IllegalArgumentError(message: string)

  /** The message names the rejected input after a fixed prefix and ends with the pattern. */
  function InvalidInput(s: string): (e: IllegalArgumentError)
    ensures |e.message| == 20 + |s| + 18 + |INPUT_REGEX|
    ensures e.message[..20] == "invalid hijri date, "
    ensures e.message[20..20 + |s|] == s
    ensures e.message[20 + |s|..38 + |s|] == " does not matches "
    ensures e.message[|e.message| - |INPUT_REGEX|..] == INPUT_REGEX
  {
    IllegalArgumentError("invalid hijri date, " + s + " does not matches " + INPUT_REGEX)
  }

  /** A Hijri year, month and day: the three digit groups of a date. */
  datatype YearMonthDay = YearMonthDay(year: int, month: int, day: int) {

    /** The ranges the input pattern admits: a year 1000..1999, a month 1..12, a day 1..30. */
    predicate Valid() {
      1000 <= year <= 1999 && 1 <= month <= 12 && 1 <= day <= 30
    }

    /** Calendar order: by year, then month, then day. */
    predicate Before(other: YearMonthDay) {
      year < other.year
      || (year == other.year && month < other.month)
      || (year == other.year && month == other.month && day < other.day)
    }
  }

  // ---------------------------------------------------------------------------
  // The input grammar
  // ---------------------------------------------------------------------------

  /** `(0[1-9]|1[0-2])` */
  predicate MonthGroup(a: char, b: char) {
    (a == '0' && '1' <= b <= '9') || (a == '1' && '0' <= b <= '2')
  }

  /** `(0[1-9]|[12]\d|30)` */
  predicate DayGroup(a: char, b: char) {
    (a == '0' && '1' <= b <= '9') || ((a == '1' || a == '2') && IsDigit(b)) || (a == '3' && b == '0')
  }

  /**
   * `s.matches(INPUT_REGEX)`: the whole string must match; `\d` is an ASCII digit.
   * `MatchesIffSpelling` characterises it as the spellings of the dates in range.
   */
  predicate MatchesInputRegex(s: string)
    ensures MatchesInputRegex(s) ==> |s| == 10 && s[4] == '-' && s[7] == '-' && s[0] == '1'
  {
    |s| == 10
    && s[0] == '1' && IsDigit(s[1]) && IsDigit(s[2]) && IsDigit(s[3])
    && s[4] == '-'
    && MonthGroup(s[5], s[6])
    && s[7] == '-'
    && DayGroup(s[8], s[9])
  }

  /** The hyphenated spelling `yyyy-MM-dd` of a date, every group zero-padded. */
  function Spell(t: YearMonthDay): (s: string)
    requires t.Valid()
    ensures |s| == 10 && s[4] == '-' && s[7] == '-'
  {
    ZeroPadded(t.year, 4) + "-" + ZeroPadded(t.month, 2) + "-" + ZeroPadded(t.day, 2)
  }

  /** The compact spelling `yyyyMMdd` of a date, the form the database value is read in. */
  function Compact(t: YearMonthDay): (s: string)
    requires t.Valid()
    ensures |s| == 8 && AllDigits(s)
  {
    ZeroPadded(t.year, 4) + ZeroPadded(t.month, 2) + ZeroPadded(t.day, 2)
  }

  /** The groups of a date's spellings sit at fixed positions. */
  lemma SpellingGroups(t: YearMonthDay)
    requires t.Valid()
    ensures Spell(t)[..4] == ZeroPadded(t.year, 4) && Compact(t)[..4] == ZeroPadded(t.year, 4)
    ensures Spell(t)[5..7] == ZeroPadded(t.month, 2) && Compact(t)[4..6] == ZeroPadded(t.month, 2)
    ensures Spell(t)[8..] == ZeroPadded(t.day, 2) && Compact(t)[6..] == ZeroPadded(t.day, 2)
  {
  }

  /** The year, month and day groups of an input that matches the pattern. */
  function Fields(s: string): YearMonthDay
    requires MatchesInputRegex(s)
  {
    YearMonthDay(ValueOf(s[..4]), ValueOf(s[5..7]), ValueOf(s[8..]))
  }

  lemma ValueOfPair(s: string)
    requires |s| == 2 && AllDigits(s)
    ensures ValueOf(s) == DigitValue(s[0]) * 10 + DigitValue(s[1])
  {
    assert s[..1][..0] == [];
  }

  lemma ValueOfQuad(s: string)
    requires |s| == 4 && AllDigits(s)
    ensures ValueOf(s) == DigitValue(s[0]) * 1000 + ValueOf(s[1..]) && ValueOf(s[1..]) < 1000
  {
    assert s == [s[0]] + s[1..];
    ValueOfConcat([s[0]], s[1..]);
    assert [s[0]][..0] == [];
    assert Pow10(3) == 1000;
  }

  /** `(0[1-9]|1[0-2])` admits exactly the two-digit spellings of 1..12. */
  lemma MonthGroupIff(g: string)
    requires |g| == 2 && AllDigits(g)
    ensures MonthGroup(g[0], g[1]) <==> 1 <= ValueOf(g) <= 12
  {
    ValueOfPair(g);
  }

  /** `(0[1-9]|[12]\d|30)` admits exactly the two-digit spellings of 1..30. */
  lemma DayGroupIff(g: string)
    requires |g| == 2 && AllDigits(g)
    ensures DayGroup(g[0], g[1]) <==> 1 <= ValueOf(g) <= 30
  {
    ValueOfPair(g);
  }

  /** `[1]\d{3}` admits exactly the four-digit spellings of 1000..1999. */
  lemma YearGroupIff(g: string)
    requires |g| == 4 && AllDigits(g)
    ensures g[0] == '1' <==> 1000 <= ValueOf(g) <= 1999
  {
    ValueOfQuad(g);
  }

  /** The groups of an accepted input are a date in range. */
  lemma FieldsValid(s: string)
    requires MatchesInputRegex(s)
    ensures AllDigits(s[..4]) && AllDigits(s[5..7]) && AllDigits(s[8..])
    ensures Fields(s).Valid()
  {
    var y, m, d := s[..4], s[5..7], s[8..];
    assert y[0] == s[0] && m[0] == s[5] && m[1] == s[6] && d[0] == s[8] && d[1] == s[9];
    YearGroupIff(y);
    MonthGroupIff(m);
    DayGroupIff(d);
  }

  /** Every string the pattern accepts is the spelling of a date in range. */
  lemma MatchedIsSpelling(s: string)
    requires MatchesInputRegex(s)
    ensures Fields(s).Valid() && Spell(Fields(s)) == s
  {
    FieldsValid(s);
    var y, m, d := s[..4], s[5..7], s[8..];
    ZeroPaddedOfValue(y);
    ZeroPaddedOfValue(m);
    ZeroPaddedOfValue(d);
    assert s == y + "-" + m + "-" + d;
  }

  /** The spelling of every date in range is accepted by the pattern, and its groups read back as that date. */
  lemma SpellMatches(t: YearMonthDay)
    requires t.Valid()
    ensures MatchesInputRegex(Spell(t)) && Fields(Spell(t)) == t
  {
    var s := Spell(t);
    var y, m, d := ZeroPadded(t.year, 4), ZeroPadded(t.month, 2), ZeroPadded(t.day, 2);
    assert Pow10(2) == 100 && Pow10(4) == 10000;
    ValueOfZeroPadded(t.year, 4);
    ValueOfZeroPadded(t.month, 2);
    ValueOfZeroPadded(t.day, 2);
    YearGroupIff(y);
    MonthGroupIff(m);
    DayGroupIff(d);
    SpellingGroups(t);
    assert s[0] == y[0] && s[5] == m[0] && s[6] == m[1] && s[8] == d[0] && s[9] == d[1];
    assert IsDigit(s[1]) && IsDigit(s[2]) && IsDigit(s[3]) by {
      assert s[1] == y[1] && s[2] == y[2] && s[3] == y[3];
    }
  }

  /** `INPUT_REGEX` accepts exactly the hyphenated spellings of the dates in range. */
  lemma MatchesIffSpelling(s: string)
    ensures MatchesInputRegex(s) <==> exists t: YearMonthDay :: t.Valid() && Spell(t) == s
  {
    if MatchesInputRegex(s) {
      MatchedIsSpelling(s);
    }
    if t: YearMonthDay :| t.Valid() && Spell(t) == s {
      SpellMatches(t);
    }
  }

  // ---------------------------------------------------------------------------
  // Hyphen stripping and the integer encoding
  // ---------------------------------------------------------------------------

  /** `s.replaceAll("-", "")` */
  function RemoveHyphens(s: string): (r: string)
    ensures |r| <= |s|
    ensures forall i :: 0 <= i < |r| ==> r[i] != '-'
  {
    if s == [] then [] else (if s[0] == '-' then [] else [s[0]]) + RemoveHyphens(s[1..])
  }

  lemma {:induction false} RemoveHyphensConcat(a: string, b: string)
    ensures RemoveHyphens(a + b) == RemoveHyphens(a) + RemoveHyphens(b)
  {
    if a != [] {
      var head := if a[0] == '-' then [] else [a[0]];
      assert (a + b)[0] == a[0] && (a + b)[1..] == a[1..] + b;
      RemoveHyphensConcat(a[1..], b);
      calc {
        RemoveHyphens(a + b);
        head + RemoveHyphens(a[1..] + b);
        head + (RemoveHyphens(a[1..]) + RemoveHyphens(b));
        (head + RemoveHyphens(a[1..])) + RemoveHyphens(b);
        RemoveHyphens(a) + RemoveHyphens(b);
      }
    } else {
      assert a + b == b;
    }
  }

  lemma {:induction false} RemoveHyphensNone(s: string)
    requires forall i :: 0 <= i < |s| ==> s[i] != '-'
    ensures RemoveHyphens(s) == s
  {
    if s != [] {
      RemoveHyphensNone(s[1..]);
    }
  }

  lemma RemoveHyphensAround(x: string, y: string)
    ensures RemoveHyphens(x + "-" + y) == RemoveHyphens(x) + RemoveHyphens(y)
  {
    var h := "-";
    assert RemoveHyphens(h) == [] by {
      assert h[0] == '-' && h[1..] == [];
    }
    RemoveHyphensConcat(x + h, y);
    RemoveHyphensConcat(x, h);
  }

  /** Removing the two separators from a date's spelling leaves its compact spelling. */
  lemma RemoveHyphensOfSpell(t: YearMonthDay)
    requires t.Valid()
    ensures RemoveHyphens(Spell(t)) == Compact(t)
  {
    var y, m, d := ZeroPadded(t.year, 4), ZeroPadded(t.month, 2), ZeroPadded(t.day, 2);
    RemoveHyphensAround(y, m);
    RemoveHyphensAround(y + "-" + m, d);
    RemoveHyphensNone(y);
    RemoveHyphensNone(m);
    RemoveHyphensNone(d);
  }

  /** The canonical `yyyyMMdd` integer of a date. */
  function Encode(t: YearMonthDay): int {
    t.year * 10000 + t.month * 100 + t.day
  }

  /** The digit groups of an integer read as `yyyyMMdd`. */
  function Decode(v: int): YearMonthDay {
    YearMonthDay(v / 10000, (v / 100) % 100, v % 100)
  }

  /** The values `of` can store: 10000101..19991230, month group 1..12, day group 1..30. */
  predicate InRange(v: int) {
    10000101 <= v <= 19991230 && 1 <= (v / 100) % 100 <= 12 && 1 <= v % 100 <= 30
  }

  /** Decoding inverts encoding on dates in range, and every encoding is in range. */
  lemma DecodeEncode(t: YearMonthDay)
    requires t.Valid()
    ensures Decode(Encode(t)) == t
    ensures InRange(Encode(t))
  {
    var v := Encode(t);
    DivMod10000(v, t.year, t.month * 100 + t.day);
    DivMod100(v, t.year * 100 + t.month, t.day);
    DivMod100(t.year * 100 + t.month, t.year, t.month);
  }

  /** Every value in range is the encoding of exactly the date its digit groups spell. */
  lemma EncodeDecode(v: int)
    requires InRange(v)
    ensures Decode(v).Valid() && Encode(Decode(v)) == v
  {
    DivMod100(v / 100, v / 10000, (v / 100) % 100);
    assert v / 100 / 100 == v / 10000;
  }

  lemma DivMod100(v: int, q: int, r: int)
    requires 0 <= r < 100 && v == q * 100 + r
    ensures v / 100 == q && v % 100 == r
  {
  }

  lemma DivMod10000(v: int, q: int, r: int)
    requires 0 <= r < 10000 && v == q * 10000 + r
    ensures v / 10000 == q && v % 10000 == r
  {
  }

  /** On dates in range the encoding is injective and its numeric order is calendar order. */
  lemma EncodeOrder(t1: YearMonthDay, t2: YearMonthDay)
    requires t1.Valid() && t2.Valid()
    ensures Encode(t1) < Encode(t2) <==> t1.Before(t2)
    ensures Encode(t1) == Encode(t2) <==> t1 == t2
  {
  }

  /** The compact spelling of a date spells its encoding. */
  lemma ValueOfCompact(t: YearMonthDay)
    requires t.Valid()
    ensures ValueOf(Compact(t)) == Encode(t)
  {
    var y, m, d := ZeroPadded(t.year, 4), ZeroPadded(t.month, 2), ZeroPadded(t.day, 2);
    assert Pow10(2) == 100 && Pow10(4) == 10000;
    ValueOfZeroPadded(t.year, 4);
    ValueOfZeroPadded(t.month, 2);
    ValueOfZeroPadded(t.day, 2);
    ValueOfConcat(y, m);
    assert ValueOf(y + m) == t.year * 100 + t.month;
    ValueOfConcat(y + m, d);
    assert Compact(t) == (y + m) + d;
  }

  /** `String.valueOf` of a date's encoding is its compact spelling: eight digits, the first a '1'. */
  lemma DecimalStringOfEncoding(t: YearMonthDay)
    requires t.Valid()
    ensures DecimalString(Encode(t) as int32) == Compact(t)
    ensures Compact(t)[0] == '1'
  {
    SpellMatches(t);
    SpellingGroups(t);
    ValueOfCompact(t);
    DigitsOfValue(Compact(t));
  }

  // ---------------------------------------------------------------------------
  // `of` as a function of its input
  // ---------------------------------------------------------------------------

  /** `Integer.parseInt` succeeds on an accepted input with its hyphens removed, yielding the date's encoding. */
  lemma StrippedInputParses(s: string)
    requires MatchesInputRegex(s)
    ensures ParseInt(RemoveHyphens(s)).Ok?
    ensures ParseInt(RemoveHyphens(s)).value as int == Encode(Fields(s))
  {
    var t := Fields(s);
    MatchedIsSpelling(s);
    RemoveHyphensOfSpell(t);
    DecimalStringOfEncoding(t);
  }

  /** What `of` stores for an input, or the exception it throws. */
  function ParseHijri(s: string): (r: Result<int32, IllegalArgumentError>)
    ensures r.Ok? <==> MatchesInputRegex(s)
    ensures r.Err? ==> r.error == InvalidInput(s)
  {
    if !MatchesInputRegex(s) then Err(InvalidInput(s))
    else
      StrippedInputParses(s);
      Ok(ParseInt(RemoveHyphens(s)).value)
  }

  /** An accepted input is stored as year * 10000 + month * 100 + day, a value in range. */
  lemma ParseHijriValue(s: string)
    requires MatchesInputRegex(s)
    ensures Fields(s).Valid()
    ensures RemoveHyphens(s) == Compact(Fields(s))
    ensures ParseHijri(s).value as int == Encode(Fields(s))
    ensures ParseHijri(s).value as int == ValueOf(RemoveHyphens(s))
    ensures InRange(ParseHijri(s).value as int)
  {
    var t := Fields(s);
    MatchedIsSpelling(s);
    RemoveHyphensOfSpell(t);
    ValueOfCompact(t);
    StrippedInputParses(s);
    DecodeEncode(t);
  }

  /** For an accepted input, `of(s).toString()` is `s` without its hyphens: eight digits starting with '1'. */
  lemma ToStringOfParsed(s: string)
    requires MatchesInputRegex(s)
    ensures DecimalString(ParseHijri(s).value) == RemoveHyphens(s)
    ensures |RemoveHyphens(s)| == 8 && AllDigits(RemoveHyphens(s)) && RemoveHyphens(s)[0] == '1'
  {
    var t := Fields(s);
    ParseHijriValue(s);
    RemoveHyphensOfSpell(t);
    DecimalStringOfEncoding(t);
  }

  /** Puts the separators back into an eight-character `yyyyMMdd` string. */
  function Hyphenate(c: string): (s: string)
    requires |c| == 8
    ensures |s| == 10 && s[4] == '-' && s[7] == '-'
  {
    c[..4] + "-" + c[4..6] + "-" + c[6..]
  }

  /** Removing the hyphens undoes `Hyphenate` on a string that has none of its own. */
  lemma RemoveHyphensOfHyphenate(c: string)
    requires |c| == 8 && forall i :: 0 <= i < |c| ==> c[i] != '-'
    ensures RemoveHyphens(Hyphenate(c)) == c
  {
    RemoveHyphensAround(c[..4], c[4..6]);
    RemoveHyphensAround(c[..4] + "-" + c[4..6], c[6..]);
    RemoveHyphensNone(c[..4]);
    RemoveHyphensNone(c[4..6]);
    RemoveHyphensNone(c[6..]);
    assert c == c[..4] + c[4..6] + c[6..];
  }

  /** Re-inserting the hyphens into `of(s).toString()` gives back `s`, so parsing again stores the same value. */
  lemma ReparseIdempotent(s: string)
    requires MatchesInputRegex(s)
    ensures |DecimalString(ParseHijri(s).value)| == 8
    ensures Hyphenate(DecimalString(ParseHijri(s).value)) == s
    ensures ParseHijri(Hyphenate(DecimalString(ParseHijri(s).value))) == ParseHijri(s)
  {
    var t := Fields(s);
    ToStringOfParsed(s);
    MatchedIsSpelling(s);
    RemoveHyphensOfSpell(t);
    SpellingGroups(t);
  }

  /** For values built by `of`, numeric order of the stored ints is the calendar order of the inputs. */
  lemma ParsedOrder(s1: string, s2: string)
    requires MatchesInputRegex(s1) && MatchesInputRegex(s2)
    ensures ParseHijri(s1).value < ParseHijri(s2).value <==> Fields(s1).Before(Fields(s2))
    ensures ParseHijri(s1) == ParseHijri(s2) <==> s1 == s2
  {
    ParseHijriValue(s1);
    ParseHijriValue(s2);
    EncodeOrder(Fields(s1), Fields(s2));
    MatchedIsSpelling(s1);
    MatchedIsSpelling(s2);
  }

  /** Parsing the spelling of a date in range stores the date's encoding. */
  lemma ParseOfSpelling(t: YearMonthDay)
    requires t.Valid()
    ensures ParseHijri(Spell(t)) == Ok(Encode(t) as int32)
  {
    SpellMatches(t);
    ParseHijriValue(Spell(t));
  }

  /** Inputs the pattern turns away: month 13, day 31, a leading 2, and the unhyphenated and empty forms. */
  lemma RejectedInputs()
    ensures ParseHijri("1439-13-01").Err? && ParseHijri("1438-02-31").Err? && ParseHijri("2023-01-01").Err?
    ensures ParseHijri("14440116").Err? && ParseHijri("").Err?
  {
    assert !MatchesInputRegex("1439-13-01");
    assert !MatchesInputRegex("1438-02-31");
    assert !MatchesInputRegex("2023-01-01");
    assert !MatchesInputRegex("14440116");
  }

  // ---------------------------------------------------------------------------
  // What `asLocalDate` hands to the `yyyyMMdd` formatter
  // ---------------------------------------------------------------------------

  /**
   * The year, month and day groups of a string read with the pattern `yyyyMMdd`
   * (`DB_DATE_FORMAT`): four, two and two digits.
   * Any other string has no such groups (the formatter throws).
   */
  function DbDigitGroups(c: string): (g: Option<YearMonthDay>)
    ensures g.Some? <==> |c| == 8 && AllDigits(c)
    ensures g.Some? ==> Encode(g.value) == ValueOf(c)
    ensures g.Some? ==> g.value == Decode(ValueOf(c))
  {
    if |c| == 8 && AllDigits(c) then
      assert Pow10(2) == 100 && Pow10(4) == 10000;
      assert c == c[..4] + c[4..6] + c[6..];
      ValueOfConcat(c[..4], c[4..6]);
      ValueOfConcat(c[..4] + c[4..6], c[6..]);
      var y, m, d := ValueOf(c[..4]), ValueOf(c[4..6]), ValueOf(c[6..]);
      DivMod100(ValueOf(c), y * 100 + m, d);
      DivMod100(y * 100 + m, y, m);
      DivMod10000(ValueOf(c), y, m * 100 + d);
      Some(YearMonthDay(y, m, d))
    else None
  }

  /** The formatter reads back from a compact spelling exactly the date it spells. */
  lemma DbDigitGroupsOfCompact(t: YearMonthDay)
    requires t.Valid()
    ensures DbDigitGroups(Compact(t)) == Some(t)
  {
    var c := Compact(t);
    assert Pow10(2) == 100 && Pow10(4) == 10000;
    SpellingGroups(t);
    ValueOfZeroPadded(t.year, 4);
    ValueOfZeroPadded(t.month, 2);
    ValueOfZeroPadded(t.day, 2);
  }

  // ---------------------------------------------------------------------------
  // The embeddable class
  // ---------------------------------------------------------------------------

  class HijriDate {
    /** The stored `yyyyMMdd` integer (the database column). */
    var hijriDate: int32

    /** The invariant that only `of` establishes: the stored value encodes a date in range. */
    predicate Valid()
      reads this
    {
      InRange(hijriDate as int)
    }

    /** The public no-argument constructor JPA uses: no validation, the field keeps Java's default 0. */
    constructor ()
      ensures hijriDate == 0
      ensures !Valid()
    {
      hijriDate := 0;
    }

    /** `HijriDate.of`: validate, strip the hyphens, parse, store. */
    static method Of(s: string) returns (r: Result<HijriDate, IllegalArgumentError>)
      ensures r.Ok? <==> MatchesInputRegex(s)
      ensures r.Err? ==> r.error == InvalidInput(s)
      ensures r.Ok? ==> fresh(r.value) && r.value.Valid() && ParseHijri(s) == Ok(r.value.hijriDate)
    {
      if !MatchesInputRegex(s) {
        return Err(InvalidInput(s));
      }
      var digits := RemoveHyphens(s);
      var hd := new HijriDate();
      StrippedInputParses(s);
      hd.hijriDate := ParseInt(digits).value;
      ParseHijriValue(s);
      return Ok(hd);
    }

    /** `toString()`: `String.valueOf` of the stored value. */
    function ToString(): (c: string)
      reads this
      ensures ParseInt(c) == Ok(hijriDate)
      ensures Valid() ==> |c| == 8 && AllDigits(c) && c[0] == '1' && c == Compact(Decode(hijriDate as int))
      ensures hijriDate == 0 ==> c == "0"
    {
      if Valid() then
        EncodeDecode(hijriDate as int);
        DecimalStringOfEncoding(Decode(hijriDate as int));
        DecimalString(hijriDate)
      else DecimalString(hijriDate)
    }

    /**
     * The year, month and day groups `asLocalDate` hands to the Hijrah chronology:
     * `toString()` read with the pattern `yyyyMMdd`.
     */
    function LocalDateFields(): (g: Option<YearMonthDay>)
      reads this
      ensures Valid() ==> g == Some(Decode(hijriDate as int)) && g.value.Valid()
      ensures hijriDate == 0 ==> g == None
    {
      if Valid() then
        EncodeDecode(hijriDate as int);
        DbDigitGroupsOfCompact(Decode(hijriDate as int));
        DbDigitGroups(ToString())
      else DbDigitGroups(ToString())
    }
  }
}
