# HijriDate: a verified model of the Hijri date value type

The demo application stores `User` records whose birth date is a `HijriDate`, a JPA
embeddable value holding one `int`. `HijriDate.of` accepts a Hijri date written
`1yyy-MM-dd` (year 1000..1999, month 01..12, day 01..30), rejects any other non-null
string with an `IllegalArgumentException`, strips the hyphens and stores `Integer.parseInt` of the
remaining eight digits, the `yyyyMMdd` integer kept in the database column. `toString`
writes that integer back with `String.valueOf`, and `asLocalDate` reads the result with
the pattern `yyyyMMdd` in the JDK's Hijrah chronology. A public no-argument constructor,
used by JPA, leaves the integer at 0 with no validation.

The model has three modules:

- `Wrappers` (`wrappers.dfy`): `Option` and `Result`; a Java exception becomes an `Err`.
- `Decimal` (`decimal.dfy`): Java's `int` as the newtype `int32`, digit strings and their
  values, `Integer.parseInt` (`ParseInt`, with its `NumberFormatException` path) and
  `String.valueOf(int)` (`DecimalString`), with the round trip between them.
- `Hijri` (`hijri_date.dfy`): the input pattern as the predicate `MatchesInputRegex`, the
  hyphen stripping `RemoveHyphens`, the date triple `YearMonthDay` with its encoding
  `Encode`/`Decode`, `ParseHijri` (what `of` stores or throws, as a function), the digit
  groups handed to the `yyyyMMdd` formatter, and the class `HijriDate` with its field
  `hijriDate`, the no-argument constructor, the factory `Of`, `ToString` and
  `LocalDateFields`.

The pattern is given an independent reference definition: `Spell` writes a date in range
as `yyyy-MM-dd` with zero-padded groups, and `MatchesIffSpelling` proves that the pattern
accepts exactly those spellings. The rest follows from there: the stored value is
`year * 10000 + month * 100 + day`, it lies in `10000101..19991230` with month and day
groups in range, `toString` of it is the input without hyphens, re-inserting the hyphens
gives the input back, and numeric order is calendar order.

`of` accepts only the hyphenated form (`DemoApplication.java:49`); the eight-digit form
`"14440116"` is rejected (`RejectedInputs`).

## Model

| member | source | states |
|---|---|---|
| `Decimal.ValueOf` | src/main/java/com/example/demo/DemoApplication.java:61 | the number a digit string spells (as `parseInt` reads it) is below 10 to the power of its length |
| `Decimal.ValueOfConcat` | src/main/java/com/example/demo/DemoApplication.java:61 | reading a concatenation of digit strings shifts the left part by the width of the right part |
| `Decimal.Digits` | src/main/java/com/example/demo/DemoApplication.java:75 | `String.valueOf` of a non-negative number is a non-empty digit string that reads back as the number and starts with '0' only for 0 |
| `Decimal.DigitsOfValue` | src/main/java/com/example/demo/DemoApplication.java:75 | every digit string without a redundant leading zero is exactly what `String.valueOf` writes for its value |
| `Decimal.ValueOfZeroPadded` | src/main/java/com/example/demo/DemoApplication.java:49 | a number below 10^w written in w zero-padded digits reads back as itself |
| `Decimal.ZeroPaddedOfValue` | src/main/java/com/example/demo/DemoApplication.java:49 | every digit string is the zero-padded spelling of its own value at its own width |
| `Decimal.ParseInt` | src/main/java/com/example/demo/DemoApplication.java:61 | `Integer.parseInt` succeeds only on a non-empty input; a leading '-' gives a non-positive value; an unsigned success is all digits and yields their value |
| `Decimal.ParseIntShortDigits` | src/main/java/com/example/demo/DemoApplication.java:61 | `parseInt` cannot overflow on a plain digit string of one to nine digits and returns its value |
| `Decimal.DecimalString` | src/main/java/com/example/demo/DemoApplication.java:74-76 | `String.valueOf(int)` is all digits exactly for non-negative values, has no redundant leading zero (only 0 starts with '0'; a negative value is '-' then a nonzero digit), and `parseInt` of it gives the same `int` back, for every `int` |
| `Hijri.MatchesInputRegex` | src/main/java/com/example/demo/DemoApplication.java:55 | the whole-string match of the pattern; an accepted input has ten characters, a leading '1' and hyphens at positions 4 and 7; `MatchesIffSpelling` characterises it exactly |
| `Hijri.InvalidInput` | src/main/java/com/example/demo/DemoApplication.java:56 | the exception message is the prefix "invalid hijri date, ", then the input, then " does not matches " and the pattern |
| `Hijri.YearGroupIff` | src/main/java/com/example/demo/DemoApplication.java:49 | the year group of the pattern admits exactly the four-digit spellings of 1000..1999 |
| `Hijri.MonthGroupIff` | src/main/java/com/example/demo/DemoApplication.java:49 | the month group of the pattern admits exactly the two-digit spellings of 1..12 |
| `Hijri.DayGroupIff` | src/main/java/com/example/demo/DemoApplication.java:49 | the day group of the pattern admits exactly the two-digit spellings of 1..30 |
| `Hijri.FieldsValid` | src/main/java/com/example/demo/DemoApplication.java:49 | the year, month and day groups of every accepted input are a date in range |
| `Hijri.MatchedIsSpelling` | src/main/java/com/example/demo/DemoApplication.java:49 | every accepted input is the zero-padded `yyyy-MM-dd` spelling of its own date, which is in range |
| `Hijri.SpellMatches` | src/main/java/com/example/demo/DemoApplication.java:49 | the spelling of every date in range is accepted and its groups read back as that date |
| `Hijri.MatchesIffSpelling` | src/main/java/com/example/demo/DemoApplication.java:49 | the pattern accepts a string if and only if it spells some date with year 1000..1999, month 1..12, day 1..30 |
| `Hijri.RemoveHyphens` | src/main/java/com/example/demo/DemoApplication.java:59 | `replaceAll("-", "")` leaves no hyphen and never lengthens the string |
| `Hijri.RemoveHyphensConcat` | src/main/java/com/example/demo/DemoApplication.java:59 | removing hyphens distributes over concatenation |
| `Hijri.RemoveHyphensNone` | src/main/java/com/example/demo/DemoApplication.java:59 | a string without hyphens is left unchanged |
| `Hijri.RemoveHyphensOfSpell` | src/main/java/com/example/demo/DemoApplication.java:59 | stripping the hyphens of a date's spelling leaves its `yyyyMMdd` spelling |
| `Hijri.DecodeEncode` | src/main/java/com/example/demo/DemoApplication.java:51 | the digit groups of a date's encoding are that date, and the encoding is in range |
| `Hijri.EncodeDecode` | src/main/java/com/example/demo/DemoApplication.java:51 | every value in range (10000101..19991230, month group 1..12, day group 1..30) is the encoding of the date its groups spell |
| `Hijri.EncodeOrder` | src/main/java/com/example/demo/DemoApplication.java:51 | on dates in range the encoding is injective and numeric order equals year-month-day order |
| `Hijri.ValueOfCompact` | src/main/java/com/example/demo/DemoApplication.java:59-61 | the `yyyyMMdd` spelling of a date reads as year * 10000 + month * 100 + day |
| `Hijri.DecimalStringOfEncoding` | src/main/java/com/example/demo/DemoApplication.java:74-76 | `String.valueOf` of a date's encoding is its `yyyyMMdd` spelling, whose first digit is '1' |
| `Hijri.StrippedInputParses` | src/main/java/com/example/demo/DemoApplication.java:59-61 | `parseInt` of an accepted input without its hyphens never throws and yields the date's encoding |
| `Hijri.ParseHijri` | src/main/java/com/example/demo/DemoApplication.java:53-63 | `of` succeeds exactly on inputs the pattern accepts; every other non-null input throws with the message naming the input and the pattern |
| `Hijri.ParseHijriValue` | src/main/java/com/example/demo/DemoApplication.java:59-61 | an accepted input is stored as year * 10000 + month * 100 + day, the number its eight digits spell, a value in range |
| `Hijri.ParseOfSpelling` | src/main/java/com/example/demo/DemoApplication.java:53-63 | parsing the spelling of any date in range stores that date's encoding |
| `Hijri.ToStringOfParsed` | src/main/java/com/example/demo/DemoApplication.java:74-76 | `of(s).toString()` is `s` without its hyphens: eight digits beginning with '1' |
| `Hijri.RemoveHyphensOfHyphenate` | src/main/java/com/example/demo/DemoApplication.java:59 | re-inserting hyphens after positions 4 and 6 and stripping them again gives the digits back |
| `Hijri.ReparseIdempotent` | src/main/java/com/example/demo/DemoApplication.java:53-76 | re-inserting the hyphens into `of(s).toString()` gives `s` back, so calling `of` again stores the same value |
| `Hijri.ParsedOrder` | src/main/java/com/example/demo/DemoApplication.java:59-61 | for values built by `of`, stored order is calendar order and equal values come from equal inputs |
| `Hijri.RejectedInputs` | src/main/java/com/example/demo/DemoApplication.java:55-57 | month 13, day 31, a leading 2, the hyphen-free form and the empty string are all rejected |
| `Hijri.DbDigitGroups` | src/main/java/com/example/demo/DemoApplication.java:69-71 | reading with `yyyyMMdd` yields groups exactly for eight-digit strings; the groups are the first four, next two and last two digits, i.e. `Decode` of the number the digits spell, and they recompose to that number |
| `Hijri.DbDigitGroupsOfCompact` | src/main/java/com/example/demo/DemoApplication.java:69-71 | the `yyyyMMdd` reading of a date's compact spelling is that date |
| `Hijri.HijriDate.constructor` | src/main/java/com/example/demo/DemoApplication.java:65-66 | the no-argument constructor stores 0 without validation, a value outside the range `of` guarantees |
| `Hijri.HijriDate.Of` | src/main/java/com/example/demo/DemoApplication.java:53-63 | `of` returns a fresh object exactly when the input is accepted, storing what `ParseHijri` computes (in range); otherwise it throws with the input in the message and builds nothing |
| `Hijri.HijriDate.ToString` | src/main/java/com/example/demo/DemoApplication.java:74-76 | `toString` reads back through `parseInt` as the stored value; in range it is the eight-digit `yyyyMMdd` spelling of the stored date; for 0 it is "0" |
| `Hijri.HijriDate.LocalDateFields` | src/main/java/com/example/demo/DemoApplication.java:68-72 | for a value built by `of`, the formatter receives exactly the stored date's year, month and day groups; for the constructor's 0 it receives none |

## Left out

- The Hijri-to-Gregorian conversion in `asLocalDate` (`DemoApplication.java:68-72`): it calls the JDK's `HijrahChronology` (Umm al-Qura month-length tables) and `LocalDate.from`, which are not part of this model; only the `yyyyMMdd` digit groups handed to them are modelled, so calendar validity of a day 30 and the Gregorian result are not stated.
- Hijri.DbDigitGroups: weaker than the JDK formatter: it yields no groups for any string that is not eight ASCII digits (the formatter throws for the constructor's "0"; its handling of signed or longer strings is not modelled) and it does not check month or day ranges, which the chronology does.
- Decimal.ParseInt: models only ASCII digits; `Integer.parseInt` also accepts other Unicode decimal digits through `Character.digit`, which cannot reach it here because the pattern admits only ASCII digits.
- The general Java regular-expression engine: only the one pattern `INPUT_REGEX` with `String.matches` (whole-string match) is modelled.
- JPA loading a stored column into `hijriDate` by reflection: no method models the write; the field is any `int32`, and `Decimal.DecimalString` and `Hijri.HijriDate.ToString` are stated for every `int` value.
- Application startup, the `CommandLineRunner` that saves five users and prints them (`DemoApplication.java:21-37`), `UserRepository` (`:41-43`) and the `User` entity (`:79-119`): bootstrap, console output and ORM field storage with no logic of their own.
- A null input to `of` throws `NullPointerException` at `DemoApplication.java:55`; the model's `string` has no null, so that case is not represented.
- `INPUT_REGEX` is kept as a string constant because the exception message quotes it; its meaning is given by `MatchesInputRegex`. `DB_DATE_FORMAT` is not kept as a constant; its reading is `DbDigitGroups`.
