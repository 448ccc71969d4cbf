# TimeUtils: formatting and parsing durations

A Dafny model of SkyHanni's `TimeUtils` object and the `TimeUnit` table beside it. The model has two halves.

- **`formatDuration`** turns a count of milliseconds into text such as `"2h 3m 4s"` or `"1 Hour 1 Minute 1 Second"`:
  - it rounds up to whole seconds by adding 999;
  - it fills an insertion-ordered map from unit to value, dividing by each unit's factor in turn, from the biggest unit requested down to seconds;
  - it then prints the entries from the first non-zero one (or seconds), stopping after `maxUnits` groups when that is set.
- **`getMillis`** turns such text back into milliseconds:
  - it lower-cases and trims the text;
  - it matches the text against a regular expression of five optional components (years, days, hours, minutes, seconds), and adds the components up in `Long` arithmetic;
  - when the pattern does not match, it falls back to the clock form `h:m:s`, `m:s` or `s`, read with `Int` arithmetic.

Modules, in the order the program is built:

| file | module | what it holds |
|---|---|---|
| `units.dfy` | `Units` | the five units, their factors, short and long names, and their declaration order |
| `numbers.dfy` | `Numbers` | decimal digits, `Int`/`Long` two's-complement wrap-around |
| `text.dfy`, `text_props.dfy` | `Text`, `TextProperties` | `lowercase`, `trim`, `split(":")`, `toInt`, `toLong`, and their properties |
| `pattern.dfy`, `pattern_props.dfy`, `pattern_sound.dfy` | `DurationPattern`, `PatternProperties`, `PatternSoundness` | the regular expression as a backtracking matcher with Java's order of alternatives, and the language it accepts: sound in general, complete for component texts written in unit order with or without spaces between them |
| `parser.dfy`, `parser_props.dfy`, `parser_examples.dfy` | `Parser`, `ParserProperties`, `ParserExamples` | `getMillis` and `tryAlternativeFormat`, their properties, and worked inputs |
| `formatter.dfy`, `formatter_props.dfy` | `Formatter`, `FormatterProperties` | `formatDuration` as two loops, proved against specification functions, and their properties |
| `roundtrip.dfy` | `RoundTrip` | formatting and then parsing gives back the rounded-up milliseconds |

The formatter is imperative in the source, so it is a `method` with its two loops. `FillValues` is the map-filling loop and `BuildText` is the builder loop. Each is proved against the functions `Entries`, `Rest`, `FirstShown`, `StopAt` and `GroupsText`. The parser is straight-line code, so it is a function (`ParseDuration`), with the `millis +=` sequence kept as a method (`AddUp`).

The regular expression is modelled by a matcher written for this one pattern: `Components`, `Present`, `TryDigits`, `AfterDigits`, `UnitLetter`, `Suffix` and `TryWord`.
- It tries alternatives in the order Java's backtracking engine does: greedy quantifiers longest first, and an optional group's present branch before its absent branch.
- It returns the captures of the first whole-text match.
- `\d` and `\w` are ASCII classes, which is Java's default.

### Behaviour the code has that a reader might not expect

The model follows the code in each of these cases, and a lemma states each one.

- `formatDuration(0)` is `"0s"`, not `"1s"`, because `(0 + 999) / 1000 == 0`; 1 to 1000 ms are `"1s"` and 1001 ms is `"2s"` (`FormatterProperties.RoundUpFromYearsExamples`, with the default arguments; `FormatterProperties.RoundUpFromYears` for every duration under a minute).
- When `maxUnits` cuts the output before the seconds, the result ends in a space: `formatDuration(60_000, maxUnits = 1)` is `"1m "` (`FormatterProperties.MinuteCutExample`, `FormatterProperties.EndsWithSpaceIffCut`).
- The empty text and blank texts parse as 0, since every component of the pattern is optional (`ParserProperties.BlankIsZero`).
- `"1h30m"` is one hour. The `\w*` after `h` swallows `30m`, so the minutes are never read (`ParserExamples.HoursSwallowMinutes`). `"1h 30m"` is 5_400_000 (`ParserExamples.HoursThenMinutes`).
- The clock form reads the original text, neither trimmed nor lower-cased, so `" 1:30"` throws (`ParserExamples.ClockNotTrimmed`).
- The clock form wraps around in 32 bits: `"600:00:00"` is -2_134_967_296 (`ParserExamples.ClockWraps`).
- The clock form accepts signs, so `"-1:30"` is -30_000 (`ParserExamples.NegativeMinutes`).

## Model

The source path is `src/main/java/at/hannibal2/skyhanni/utils/TimeUtils.kt` throughout.

| member | source | states |
|---|---|---|
| Units.Ordinal | src/main/java/at/hannibal2/skyhanni/utils/TimeUtils.kt:111-117 | a unit's ordinal is its position in the declaration order YEAR, DAY, HOUR, MINUTE, SECOND |
| Units.OrdinalOfIndex | src/main/java/at/hannibal2/skyhanni/utils/TimeUtils.kt:111-117 | ordinal and position are inverse to each other |
| Units.Factor | src/main/java/at/hannibal2/skyhanni/utils/TimeUtils.kt:105-116 | every factor is a whole number of seconds, between one second and one year |
| Units.Capacity | src/main/java/at/hannibal2/skyhanni/utils/TimeUtils.kt:105-109 | the fewest next-smaller units that cover one unit: 60, 60, 24, and 366 days for a year of 365.25 |
| Units.NextSmaller | src/main/java/at/hannibal2/skyhanni/utils/TimeUtils.kt:111-117 | the next unit in declaration order |
| Units.FactorsDecrease | src/main/java/at/hannibal2/skyhanni/utils/TimeUtils.kt:105-116 | factors strictly decrease in declaration order |
| Units.ShortNameIsInitial | src/main/java/at/hannibal2/skyhanni/utils/TimeUtils.kt:112-116 | each short name is the long name's initial, lower-cased |
| Numbers.NatToStringDigits | src/main/java/at/hannibal2/skyhanni/utils/TimeUtils.kt:31 | the appended value is a non-empty run of decimal digits whose value is the number |
| Numbers.Int32 | src/main/java/at/hannibal2/skyhanni/utils/TimeUtils.kt:82-95 | `Int` arithmetic lands in the 32-bit range, and is exact inside it |
| Numbers.Int64 | src/main/java/at/hannibal2/skyhanni/utils/TimeUtils.kt:68-73 | `Long` arithmetic lands in the 64-bit range, and is exact inside it |
| Numbers.Int32Add | src/main/java/at/hannibal2/skyhanni/utils/TimeUtils.kt:85 | wrapping an intermediate sum does not change the wrapped total |
| Numbers.Int32Mul | src/main/java/at/hannibal2/skyhanni/utils/TimeUtils.kt:82-84 | wrapping an intermediate product does not change the wrapped result |
| Numbers.Int64Add | src/main/java/at/hannibal2/skyhanni/utils/TimeUtils.kt:73 | the same for `Long` sums |
| Numbers.Int64Mul | src/main/java/at/hannibal2/skyhanni/utils/TimeUtils.kt:70-72 | the same for `Long` products |
| Numbers.Int64Step | src/main/java/at/hannibal2/skyhanni/utils/TimeUtils.kt:69-72 | one `millis +=` step keeps the running total equal to the wrapped exact sum |
| Text.Lower | src/main/java/at/hannibal2/skyhanni/utils/TimeUtils.kt:59 | `lowercase` maps each character on its own, keeping the length |
| Text.TrimStart | src/main/java/at/hannibal2/skyhanni/utils/TimeUtils.kt:59 | trimming the front never lengthens the text |
| Text.TrimEnd | src/main/java/at/hannibal2/skyhanni/utils/TimeUtils.kt:59 | trimming the back never lengthens the text |
| Text.SplitColon | src/main/java/at/hannibal2/skyhanni/utils/TimeUtils.kt:79 | `split(":")` always yields at least one part |
| Text.IndexOfColon | src/main/java/at/hannibal2/skyhanni/utils/TimeUtils.kt:79 | the position of the first colon |
| Text.ParseInt | src/main/java/at/hannibal2/skyhanni/utils/TimeUtils.kt:82-95 | `toInt` yields only values in the `Int` range |
| TextProperties.ParseLongOfDecimal | src/main/java/at/hannibal2/skyhanni/utils/TimeUtils.kt:62-66 | `toLong` reads the decimal text of every number up to `Long.MAX_VALUE` back as that number, and throws for every larger one |
| TextProperties.ParseLongLeadingZeros | src/main/java/at/hannibal2/skyhanni/utils/TimeUtils.kt:62-66 | leading zeros do not change what `toLong` reads: `"007"` is 7 |
| TextProperties.LowerIgnoresCase | src/main/java/at/hannibal2/skyhanni/utils/TimeUtils.kt:59 | lower-casing forgets case and is idempotent |
| TextProperties.TrimStartShape | src/main/java/at/hannibal2/skyhanni/utils/TimeUtils.kt:59 | the front trim removes a whitespace prefix and stops at a non-whitespace character |
| TextProperties.TrimEndShape | src/main/java/at/hannibal2/skyhanni/utils/TimeUtils.kt:59 | the back trim removes a whitespace suffix and stops at a non-whitespace character |
| TextProperties.TrimShape | src/main/java/at/hannibal2/skyhanni/utils/TimeUtils.kt:59 | `trim` yields a slice of the text with only whitespace around it, and with no whitespace at either end |
| TextProperties.TrimStartPadded | src/main/java/at/hannibal2/skyhanni/utils/TimeUtils.kt:59 | leading whitespace does not change the front trim |
| TextProperties.TrimStartAppend | src/main/java/at/hannibal2/skyhanni/utils/TimeUtils.kt:59 | front-trimming a concatenation |
| TextProperties.TrimEndPadded | src/main/java/at/hannibal2/skyhanni/utils/TimeUtils.kt:59 | trailing whitespace does not change the back trim |
| TextProperties.TrimPadded | src/main/java/at/hannibal2/skyhanni/utils/TimeUtils.kt:59 | whitespace on either side does not change `trim` |
| TextProperties.TrimTrailing | src/main/java/at/hannibal2/skyhanni/utils/TimeUtils.kt:59 | trailing whitespace does not change `trim` |
| TextProperties.TrimIdempotent | src/main/java/at/hannibal2/skyhanni/utils/TimeUtils.kt:59 | trimming twice is trimming once |
| TextProperties.SplitCount | src/main/java/at/hannibal2/skyhanni/utils/TimeUtils.kt:79-80 | the number of parts is one more than the number of colons |
| TextProperties.SplitPartsHaveNoColon | src/main/java/at/hannibal2/skyhanni/utils/TimeUtils.kt:79 | no part contains a colon |
| TextProperties.SplitJoin | src/main/java/at/hannibal2/skyhanni/utils/TimeUtils.kt:79 | joining the parts with colons gives back the text, empty parts included |
| TextProperties.SplitNoColon | src/main/java/at/hannibal2/skyhanni/utils/TimeUtils.kt:79 | a text without a colon is its own single part |
| TextProperties.SplitAfter | src/main/java/at/hannibal2/skyhanni/utils/TimeUtils.kt:79 | splitting at the first colon |
| TextProperties.ParseIntOfDecimal | src/main/java/at/hannibal2/skyhanni/utils/TimeUtils.kt:82-95 | `toInt` reads a decimal numeral, with or without `+`, back as its value |
| TextProperties.ParseIntOfNegative | src/main/java/at/hannibal2/skyhanni/utils/TimeUtils.kt:82-95 | `toInt` reads `-` and a numeral as the negated value, down to `Int.MIN_VALUE` |
| TextProperties.ParseIntOutOfRange | src/main/java/at/hannibal2/skyhanni/utils/TimeUtils.kt:82-95 | `toInt` throws for values outside the `Int` range |
| TextProperties.ParseIntRejects | src/main/java/at/hannibal2/skyhanni/utils/TimeUtils.kt:82-95 | `toInt` throws for the empty text, a lone sign, and surrounding spaces |
| DurationPattern.DigitRun | src/main/java/at/hannibal2/skyhanni/utils/TimeUtils.kt:8 | the longest run of digits at the front, which `\d+` tries first: every character before it is a digit and the one after it is not |
| DurationPattern.WordRun | src/main/java/at/hannibal2/skyhanni/utils/TimeUtils.kt:8 | the longest run of word characters at the front, which `\w*` tries first: every character before it is a word character and the one after it is not |
| DurationPattern.Match | src/main/java/at/hannibal2/skyhanni/utils/TimeUtils.kt:7-8 | a whole-text match yields five captures, each absent or a digit run |
| PatternSoundness.MatchSound | src/main/java/at/hannibal2/skyhanni/utils/TimeUtils.kt:7-8 | every text the pattern matches is a run of components in unit order, each digits, an optional space, the unit letter, word characters and an optional space; the captures are exactly those components' digits, absent for the units not written |
| PatternSoundness.ComponentsSound | src/main/java/at/hannibal2/skyhanni/utils/TimeUtils.kt:7-8 | the same from any component on: the segments behind each successful match of the later components |
| PatternSoundness.MatchComplete | src/main/java/at/hannibal2/skyhanni/utils/TimeUtils.kt:7-8 | the converse: every run of components in unit order is accepted, with or without spaces between the components |
| PatternSoundness.ComponentsComplete | src/main/java/at/hannibal2/skyhanni/utils/TimeUtils.kt:7-8 | the same from any component on |
| PatternSoundness.SuffixComplete | src/main/java/at/hannibal2/skyhanni/utils/TimeUtils.kt:8 | `(?:\w* ?)?` succeeds on a word and an optional space before text that the later components accept |
| PatternSoundness.TryWordGrows | src/main/java/at/hannibal2/skyhanni/utils/TimeUtils.kt:8 | backtracking over `\w*` succeeds from the longest run if it succeeds from any shorter one |
| PatternSoundness.ComponentsUp | src/main/java/at/hannibal2/skyhanni/utils/TimeUtils.kt:7-8 | components left out in front are skipped: acceptance from component `k` carries over to any earlier start |
| PatternSoundness.GluedCaptures | src/main/java/at/hannibal2/skyhanni/utils/TimeUtils.kt:7-8 | with nothing between components, the captures need not be the components' digits: `"1d2h"` captures only the days, since `\w*` takes `"2h"` |
| PatternProperties.EmptyMatches | src/main/java/at/hannibal2/skyhanni/utils/TimeUtils.kt:7-8 | the empty text matches with every component absent |
| PatternProperties.SkipAbsent | src/main/java/at/hannibal2/skyhanni/utils/TimeUtils.kt:7-8 | components that cannot be present are skipped as absent |
| PatternProperties.DigitRunOf | src/main/java/at/hannibal2/skyhanni/utils/TimeUtils.kt:8 | the digit run of digits followed by a non-digit |
| PatternProperties.WordRunOf | src/main/java/at/hannibal2/skyhanni/utils/TimeUtils.kt:8 | the word run of word characters followed by a non-word character |
| PatternProperties.LettersDistinct | src/main/java/at/hannibal2/skyhanni/utils/TimeUtils.kt:8 | the five unit letters are distinct word characters, neither digits nor spaces |
| PatternProperties.DigitsAllFail | src/main/java/at/hannibal2/skyhanni/utils/TimeUtils.kt:8 | backtracking over `\d+` fails when every shorter run fails |
| PatternProperties.PresentFails | src/main/java/at/hannibal2/skyhanni/utils/TimeUtils.kt:8 | digits followed by a letter other than the component's own cannot be that component |
| PatternProperties.PresentWhenSuffix | src/main/java/at/hannibal2/skyhanni/utils/TimeUtils.kt:8 | digits, an optional space and the component's letter start the component |
| PatternProperties.SuffixLast | src/main/java/at/hannibal2/skyhanni/utils/TimeUtils.kt:8 | word characters after the letter end the match, with the later components absent |
| PatternProperties.SuffixThen | src/main/java/at/hannibal2/skyhanni/utils/TimeUtils.kt:8 | a word and a space after the letter hand the rest to the later components |
| PatternProperties.ComponentLast | src/main/java/at/hannibal2/skyhanni/utils/TimeUtils.kt:8 | one component written out is captured as that component alone |
| PatternProperties.ComponentThen | src/main/java/at/hannibal2/skyhanni/utils/TimeUtils.kt:8 | one component followed by a space and matching later components is captured with theirs |
| PatternProperties.PresentAt | src/main/java/at/hannibal2/skyhanni/utils/TimeUtils.kt:7-8 | the captures start at the first component that can be present |
| PatternProperties.EarlierFail | src/main/java/at/hannibal2/skyhanni/utils/TimeUtils.kt:8 | a component's letter rules out the earlier components |
| PatternProperties.ComponentsLast | src/main/java/at/hannibal2/skyhanni/utils/TimeUtils.kt:7-8 | a text of one component matches with only that capture present |
| PatternProperties.ComponentsThen | src/main/java/at/hannibal2/skyhanni/utils/TimeUtils.kt:7-8 | a component before a matching rest adds its capture in its place |
| PatternProperties.CapsOfNone | src/main/java/at/hannibal2/skyhanni/utils/TimeUtils.kt:62-66 | with no pieces every capture is absent |
| PatternProperties.CapsOfSkip | src/main/java/at/hannibal2/skyhanni/utils/TimeUtils.kt:62-66 | the captures of pieces: absent up to the first piece, then its digits |
| PatternProperties.RenderMatches | src/main/java/at/hannibal2/skyhanni/utils/TimeUtils.kt:7-8 | components written in unit order, each as digits, optional space, letter and word, and separated by single spaces, match with exactly their digits captured |
| PatternProperties.ColonNoMatch | src/main/java/at/hannibal2/skyhanni/utils/TimeUtils.kt:60 | digits followed by a colon never match, so the clock form is tried |
| PatternProperties.NoDigitNoMatch | src/main/java/at/hannibal2/skyhanni/utils/TimeUtils.kt:60 | a non-empty text that does not start with a digit never matches |
| PatternProperties.DigitsOnlyNoMatch | src/main/java/at/hannibal2/skyhanni/utils/TimeUtils.kt:60 | bare digits never match: a unit letter is required |
| PatternProperties.OtherCharNoMatch | src/main/java/at/hannibal2/skyhanni/utils/TimeUtils.kt:60 | digits followed by a character other than a space or a unit letter never match |
| ParserProperties.CaptureValueOfDecimal | src/main/java/at/hannibal2/skyhanni/utils/TimeUtils.kt:62-66 | an absent component is 0. A component written as a decimal number is that number when it fits a `Long`, and an error otherwise |
| ParserProperties.CaptureValuesOfDecimals | src/main/java/at/hannibal2/skyhanni/utils/TimeUtils.kt:62-66 | the five components written as decimal numbers give their values, 0 for the absent ones, exactly when every present one fits a `Long`; otherwise an error |
| Parser.ParseInts | src/main/java/at/hannibal2/skyhanni/utils/TimeUtils.kt:82-95 | one `toInt` value per part |
| Parser.ParseIntsAt | src/main/java/at/hannibal2/skyhanni/utils/TimeUtils.kt:82-95 | every part is read exactly when each `toInt` succeeds, and each value is that part's |
| Parser.TryAlternativeFormat | src/main/java/at/hannibal2/skyhanni/utils/TimeUtils.kt:78-102 | with one to three parts that all parse as `Int`, the result is the clock value in seconds times 1000, wrapped to 32 bits. Otherwise it is the error, carrying the text |
| Parser.ThreePartMillis | src/main/java/at/hannibal2/skyhanni/utils/TimeUtils.kt:81-86 | `h:m:s` in step-by-step `Int` arithmetic is ((h·60 + m)·60 + s)·1000, wrapped |
| Parser.TwoPartMillis | src/main/java/at/hannibal2/skyhanni/utils/TimeUtils.kt:88-92 | `m:s` in step-by-step `Int` arithmetic is (m·60 + s)·1000, wrapped |
| Parser.OnePartMillis | src/main/java/at/hannibal2/skyhanni/utils/TimeUtils.kt:94-96 | `s` is s·1000, wrapped |
| Parser.ClockThree | src/main/java/at/hannibal2/skyhanni/utils/TimeUtils.kt:82-85 | the three wrapped products and sums equal the wrapped exact value |
| Parser.ClockTwo | src/main/java/at/hannibal2/skyhanni/utils/TimeUtils.kt:89-91 | the two wrapped products and their sum equal the wrapped exact value |
| Parser.GetMillis | src/main/java/at/hannibal2/skyhanni/utils/TimeUtils.kt:58-76 | getMillis returns `ParseDuration` of its argument |
| Parser.AddUp | src/main/java/at/hannibal2/skyhanni/utils/TimeUtils.kt:68-75 | the `millis +=` lines, each product wrapped as it is computed, give the exact weighted sum wrapped to 64 bits |
| Parser.MinutesTerm | src/main/java/at/hannibal2/skyhanni/utils/TimeUtils.kt:70 | `minutes * 60 * 1000` in `Long` arithmetic is minutes · 60 000, wrapped |
| Parser.HoursTerm | src/main/java/at/hannibal2/skyhanni/utils/TimeUtils.kt:71 | `hours * 60 * 60 * 1000` in `Long` arithmetic is hours · 3 600 000, wrapped |
| Parser.DaysTerm | src/main/java/at/hannibal2/skyhanni/utils/TimeUtils.kt:72 | `days * 24 * 60 * 60 * 1000` in `Long` arithmetic is days · 86 400 000, wrapped |
| ParserProperties.NormalizeIgnoresCaseAndPadding | src/main/java/at/hannibal2/skyhanni/utils/TimeUtils.kt:59 | the text the pattern sees is the same for any surrounding whitespace and any letter case |
| ParserProperties.PrimaryIgnoresCaseAndPadding | src/main/java/at/hannibal2/skyhanni/utils/TimeUtils.kt:58-66 | when the pattern matches, padding and upper case leave the result unchanged, and an error names the text given |
| ParserProperties.BlankIsZero | src/main/java/at/hannibal2/skyhanni/utils/TimeUtils.kt:58-75 | the empty text, and any all-whitespace text, is 0 milliseconds |
| ParserProperties.WeightedOfPieces | src/main/java/at/hannibal2/skyhanni/utils/TimeUtils.kt:62-73 | the weighted sum of the captures is the sum of the pieces' values times their factors |
| ParserProperties.SumOfCaptures | src/main/java/at/hannibal2/skyhanni/utils/TimeUtils.kt:62-73 | the primary form's exact sum is the weighted sum of the captures |
| ParserProperties.CapsFit | src/main/java/at/hannibal2/skyhanni/utils/TimeUtils.kt:62-66 | pieces that fit give captures whose `toLong` succeeds |
| ParserProperties.RenderLower | src/main/java/at/hannibal2/skyhanni/utils/TimeUtils.kt:59 | written components in lower case render in lower case |
| ParserProperties.RenderEnds | src/main/java/at/hannibal2/skyhanni/utils/TimeUtils.kt:59 | written components start with a digit and end with a word character, so `trim` keeps them whole |
| ParserProperties.ReadBackMatch | src/main/java/at/hannibal2/skyhanni/utils/TimeUtils.kt:59-60 | components written in order, in lower case, match with their digits captured |
| ParserProperties.ReadBackValue | src/main/java/at/hannibal2/skyhanni/utils/TimeUtils.kt:62-75 | matched components that fit give the weighted sum, in `Long` arithmetic |
| ParserProperties.ReadBack | src/main/java/at/hannibal2/skyhanni/utils/TimeUtils.kt:58-75 | components written in order parse as the sum of each value times its unit's factor |
| ParserExamples.HoursSwallowMinutes | src/main/java/at/hannibal2/skyhanni/utils/TimeUtils.kt:7-8 | `"1h30m"` is 3_600_000: the hour's trailing word swallows `30m` |
| ParserExamples.HoursThenMinutes | src/main/java/at/hannibal2/skyhanni/utils/TimeUtils.kt:58-75 | `"1h 30m"` is 5_400_000 |
| ParserExamples.ClockHoursMinutes | src/main/java/at/hannibal2/skyhanni/utils/TimeUtils.kt:78-86 | `"01:30:00"` is 5_400_000 |
| ParserExamples.BareSeconds | src/main/java/at/hannibal2/skyhanni/utils/TimeUtils.kt:94-96 | `"90"` is 90 000 |
| ParserExamples.NotADuration | src/main/java/at/hannibal2/skyhanni/utils/TimeUtils.kt:94-95 | `"not-a-duration"` throws |
| ParserExamples.FourParts | src/main/java/at/hannibal2/skyhanni/utils/TimeUtils.kt:98-100 | `"1:2:3:4"` throws "Invalid format" |
| ParserExamples.ClockWraps | src/main/java/at/hannibal2/skyhanni/utils/TimeUtils.kt:81-86 | `"600:00:00"` wraps around the 32-bit range to -2_134_967_296 |
| ParserExamples.ClockNotTrimmed | src/main/java/at/hannibal2/skyhanni/utils/TimeUtils.kt:78-92 | `" 1:30"` throws, because the clock form reads the untrimmed text |
| ParserExamples.MinutesSeconds | src/main/java/at/hannibal2/skyhanni/utils/TimeUtils.kt:88-92 | `"1:30"` is 90 000 |
| ParserExamples.NegativeMinutes | src/main/java/at/hannibal2/skyhanni/utils/TimeUtils.kt:88-92 | `"-1:30"` is -30 000 |
| Formatter.Entries | src/main/java/at/hannibal2/skyhanni/utils/TimeUtils.kt:17-25 | the map holds one entry per unit from the biggest one requested down to seconds, in declaration order |
| Formatter.Rest | src/main/java/at/hannibal2/skyhanni/utils/TimeUtils.kt:17-25 | what is left after a unit is less than that unit's factor |
| Formatter.FirstShown | src/main/java/at/hannibal2/skyhanni/utils/TimeUtils.kt:29-30 | printing starts at the first entry that is non-zero or is seconds, and nothing before it is shown |
| Formatter.StopAt | src/main/java/at/hannibal2/skyhanni/utils/TimeUtils.kt:49-52 | printing stops after at most `maxUnits` groups, and at least one is printed. It cuts before the end exactly when `maxUnits` is positive and smaller than the number of entries left |
| Formatter.GroupText | src/main/java/at/hannibal2/skyhanni/utils/TimeUtils.kt:31-47 | every printed group is non-empty |
| Formatter.FormatDuration | src/main/java/at/hannibal2/skyhanni/utils/TimeUtils.kt:10-56 | formatDuration returns `DurationText`: the printed slice of the entries for `millis + 999`, group after group |
| Formatter.FillValues | src/main/java/at/hannibal2/skyhanni/utils/TimeUtils.kt:17-25 | the first loop leaves the map equal to `Entries` and the remainder equal to `Rest` |
| Formatter.FillStep | src/main/java/at/hannibal2/skyhanni/utils/TimeUtils.kt:19-24 | one iteration of the first loop appends the quotient and keeps the remainder, and only for units at or below the biggest |
| Formatter.QuotientBound | src/main/java/at/hannibal2/skyhanni/utils/TimeUtils.kt:22 | below one year, every quotient fits an `Int`, so `toInt()` is exact for the smaller units |
| Formatter.BuildText | src/main/java/at/hannibal2/skyhanni/utils/TimeUtils.kt:27-55 | the second loop prints exactly the entries from `FirstShown` up to `StopAt`, in order |
| Formatter.AppendGroup | src/main/java/at/hannibal2/skyhanni/utils/TimeUtils.kt:31-47 | one group appended to the builder |
| Formatter.GroupsTextSnoc | src/main/java/at/hannibal2/skyhanni/utils/TimeUtils.kt:29-54 | the builder's text grows by one group per printed entry |
| FormatterProperties.DecompositionSum | src/main/java/at/hannibal2/skyhanni/utils/TimeUtils.kt:17-25 | the values times their factors, plus the remainder, give back the milliseconds |
| FormatterProperties.EntryAt | src/main/java/at/hannibal2/skyhanni/utils/TimeUtils.kt:19-24 | each entry's value is the running remainder divided by its factor |
| FormatterProperties.ValueBound | src/main/java/at/hannibal2/skyhanni/utils/TimeUtils.kt:19-24 | every value after the first is below the capacity of the unit above it (under 60 seconds, 60 minutes, 24 hours, 366 days) |
| FormatterProperties.RestKeepsSubSecond | src/main/java/at/hannibal2/skyhanni/utils/TimeUtils.kt:19-24 | dividing out whole units never changes the milliseconds below a second |
| FormatterProperties.FinalRemainder | src/main/java/at/hannibal2/skyhanni/utils/TimeUtils.kt:38-43 | the remainder after seconds is `(millis + 999) % 1000`, so the fractional part is one digit 0 to 9 |
| FormatterProperties.RoundUpToSeconds | src/main/java/at/hannibal2/skyhanni/utils/TimeUtils.kt:17 | in seconds only, the text is the milliseconds rounded up to whole seconds, followed by `s` |
| FormatterProperties.RoundUpExamples | src/main/java/at/hannibal2/skyhanni/utils/TimeUtils.kt:17 | in seconds only, 0 ms is `"0s"`, 1 and 1000 ms are `"1s"`, and 1001 ms is `"2s"` |
| FormatterProperties.RoundUpFromYears | src/main/java/at/hannibal2/skyhanni/utils/TimeUtils.kt:10-17 | from the default biggest unit, YEAR, every duration that rounds up to under a minute prints as its whole seconds and `s` alone |
| FormatterProperties.RoundUpFromYearsExamples | src/main/java/at/hannibal2/skyhanni/utils/TimeUtils.kt:10-17 | with the default arguments, 0 ms is `"0s"`, 1 and 1000 ms are `"1s"`, and 1001 ms is `"2s"` |
| FormatterProperties.EntriesUnderAMinute | src/main/java/at/hannibal2/skyhanni/utils/TimeUtils.kt:19-24 | under a minute, every entry above SECOND is zero |
| FormatterProperties.LeadingZeroUnits | src/main/java/at/hannibal2/skyhanni/utils/TimeUtils.kt:29-30 | after four zero entries, seconds is the first group printed |
| FormatterProperties.GroupEnd | src/main/java/at/hannibal2/skyhanni/utils/TimeUtils.kt:38-47 | a group ends in a space exactly when it is not the seconds group |
| FormatterProperties.GroupsEnd | src/main/java/at/hannibal2/skyhanni/utils/TimeUtils.kt:29-54 | printed groups end in a space exactly when the last one is not seconds |
| FormatterProperties.EndsWithSpaceIffCut | src/main/java/at/hannibal2/skyhanni/utils/TimeUtils.kt:29-54 | the text is never empty, and it ends in a space exactly when `maxUnits` cut it before the seconds |
| FormatterProperties.SliceEnds | src/main/java/at/hannibal2/skyhanni/utils/TimeUtils.kt:29-54 | a printed slice ends in a space exactly when it stops before the seconds entry |
| FormatterProperties.MinuteCutExample | src/main/java/at/hannibal2/skyhanni/utils/TimeUtils.kt:49-52 | one minute with `maxUnits = 1` is `"1m "`, trailing space included |
| FormatterProperties.RestSteps | src/main/java/at/hannibal2/skyhanni/utils/TimeUtils.kt:23 | the remainder is reduced modulo each factor in turn |
| FormatterProperties.FullEntries | src/main/java/at/hannibal2/skyhanni/utils/TimeUtils.kt:19-24 | from years down, the five entries are the successive quotients |
| FormatterProperties.EntriesOf7384999 | src/main/java/at/hannibal2/skyhanni/utils/TimeUtils.kt:17-25 | 7 384 999 ms decompose into 0 years, 0 days, 2 hours, 3 minutes and 4 seconds |
| FormatterProperties.EntriesOf3661999 | src/main/java/at/hannibal2/skyhanni/utils/TimeUtils.kt:17-25 | 3 661 999 ms decompose into 1 hour, 1 minute and 1 second |
| FormatterProperties.ShortFormExample | src/main/java/at/hannibal2/skyhanni/utils/TimeUtils.kt:10-56 | 7 384 000 ms is `"2h 3m 4s"` |
| FormatterProperties.LongFormExample | src/main/java/at/hannibal2/skyhanni/utils/TimeUtils.kt:32-36 | 3 661 000 ms in long names is `"1 Hour 1 Minute 1 Second"` |
| FormatterProperties.SingularGroups | src/main/java/at/hannibal2/skyhanni/utils/TimeUtils.kt:32-36 | a value of 1 has no plural `s`, and neither has a value of 0: `"0 Second"` |
| FormatterProperties.ThreeGroupText | src/main/java/at/hannibal2/skyhanni/utils/TimeUtils.kt:29-54 | with no years or days and some hours, the text is the hours, minutes and seconds groups |
| RoundTrip.PiecesOrdered | src/main/java/at/hannibal2/skyhanni/utils/TimeUtils.kt:31-47 | printed groups are pattern components in unit order, with lower-case trailing words |
| RoundTrip.PiecesSumIsSum | src/main/java/at/hannibal2/skyhanni/utils/TimeUtils.kt:62-73 | the components read back stand for the printed entries' milliseconds |
| RoundTrip.PiecesFit | src/main/java/at/hannibal2/skyhanni/utils/TimeUtils.kt:62-73 | below 2^53 ms every printed value fits a `Long`, and the years stay exact |
| RoundTrip.GroupsLower | src/main/java/at/hannibal2/skyhanni/utils/TimeUtils.kt:29-59 | lower-cased printed groups are the rendered components, plus a space unless seconds end them |
| RoundTrip.GroupsReadBack | src/main/java/at/hannibal2/skyhanni/utils/TimeUtils.kt:29-75 | consecutive printed groups parse back as their milliseconds |
| RoundTrip.PrintedConsecutive | src/main/java/at/hannibal2/skyhanni/utils/TimeUtils.kt:29-52 | the printed entries are consecutive units, none missing in between |
| RoundTrip.PrintedSum | src/main/java/at/hannibal2/skyhanni/utils/TimeUtils.kt:17-54 | the printed entries stand for at most `millis + 999` ms, and for all of the whole units when nothing is cut |
| RoundTrip.PrintedReadsBack | src/main/java/at/hannibal2/skyhanni/utils/TimeUtils.kt:10-76 | getMillis of formatDuration's text is the milliseconds of the groups it printed |
| RoundTrip.FormatThenParse | src/main/java/at/hannibal2/skyhanni/utils/TimeUtils.kt:10-76 | without `maxUnits` or fractions, getMillis of formatDuration(millis) is millis rounded up to whole seconds, in short form and in long form |

## Left out

- Formatter.FormatDuration: requires `millis >= 0`. The source accepts negative values, but its rounding then differs and the printing logic is not meant for them.
- Formatter.FormatDuration: requires `millis + 999` to fit a `Long`, and the biggest unit's count to fit an `Int`. The source's `Long` overflow and truncating `toInt()` beyond those bounds are not modelled. The smaller units' counts always fit (`Formatter.QuotientBound`).
- Formatter.FillValues: has the same bound on the biggest unit's count.
- Formatter.FormatDuration: the default arguments (`YEAR`, `false`, `false`, `-1`) are ordinary parameters here.
- Parser.GetMillis: the years term goes through `Double` (`years * 365.25 * …`, then `toLong()`). The model covers every text except those whose five components all fit a `Long` and whose years count reaches beyond 2^53 ms, where that product would no longer be exact (`Parser.InModel`). A text where some `toLong` throws is covered whatever its years count. Rounding of larger `Double` values is not modelled.
- Parser.GetMillis: `lowercase()` and the `toInt`/`toLong` digit classes are modelled on ASCII. Kotlin's Unicode case mapping and its non-ASCII decimal digits are not part of this model. `trim()` uses the JVM whitespace set.
- Parser.GetMillis: the `NumberFormatException` and the "Invalid format" `RuntimeException` become one `FormatError` that carries the input. Exception classes and messages are not distinguished.
- DurationPattern.Match: general regular expressions are not modelled. This one pattern is written as a matcher that follows Java's backtracking order.
- RoundTrip.FormatThenParse: stated only for `showMilliSeconds = false` and `maxUnits <= 0`. The `.d` fraction does not match the pattern, and a cut drops the smaller units (`RoundTrip.PrintedReadsBack` covers cuts).
