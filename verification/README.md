# German date and time labels of the staff planning UI

The staff planning UI shows dates and working hours through two small
formatters in `src/lib/utils/format.ts`:

- `formatDateGerman` turns an ISO calendar date such as `2024-05-21` into a
  German label such as `21. Mai '24`. Empty or absent input gives the empty
  string, and any text that is not of the shape `DDDD-DD-DD` passes through
  unchanged.
- `floatToTime` turns a fractional hour count such as `7.5` into `7:30`.
  After the hour and minutes have been rounded, it rolls a minute count of 60
  over into the next hour. It then prints the hour unpadded and the minutes
  padded to two digits.

The project has three modules:

- `Wrappers` (`wrappers.dfy`) holds the `Option` type. It stands for
  JavaScript's `null`/`undefined` and for a lookup that falls off an array.
- `JsText` (`js_text.dfy`) models the JavaScript built-ins the formatters
  use, on the inputs they get:
  - `Number` on digit strings;
  - `String` on integers;
  - `split` on one separator character;
  - `slice(-k)` and `padStart`.

  It proves the round trips between them, such as `Number(String(n)) == n`,
  `String(Number(s)) == s` for canonical numerals, and split/join.
- `Format` (`format.dfy`) models the two formatters as pure functions.
  - `FormatIsoDate` follows the code step by step: split, `Number`, month
    lookup, `String(year).slice(-2)`. Its contract ties the result to an
    independent positional reading of the ten input characters (`DayText`,
    `MonthOf`, `ShortYearText`).
  - The date lemmas build on that contract. They cover the unpadded day, the
    short year with the year's leading zeros dropped, the `undefined` month
    for months 00 and 13 to 99, and idempotence.
  - `TimeText` is `floatToTime` from the rounded hour and minutes on.
    `TimeTextRoundTrip` proves that reading the label back gives the hour and
    minutes after rollover, so the label keeps the total number of minutes.

The month table is kept exactly as stored, and the third entry is
mis-encoded. The intended name is "März", but line 17 holds the UTF-8 bytes
of "März" read back as Latin-1: `M`, U+00C3, U+00A4, `r`, `z`. The model
keeps these characters, so the labels for March carry them too.

## Model

| member | source | states |
|---|---|---|
| Format.FormatDateGerman | src/lib/utils/format.ts:1-31 | absent input or `""` gives `""`; text that fails the ISO shape test comes back unchanged; an ISO date gives the label of `FormatIsoDate` |
| Format.IsIsoDate | src/lib/utils/format.ts:5 | the test `/^\d{4}-\d{2}-\d{2}$/`: ten characters, `-` at positions 4 and 7, ASCII digits everywhere else (a definition; IsoLabelNotIso and the examples state what it admits and rejects) |
| Format.MonthAt | src/lib/utils/format.ts:14-30 | `months[i]` on the twelve-entry table as stored, `undefined` (None) outside 0..11 (a definition; WellFormedDate and OutOfRangeMonth state both cases in the label) |
| Format.Interpolate | src/lib/utils/format.ts:30 | `${x}` in the template: a string as it is, `undefined` as that word (a definition; OutOfRangeMonth and MonthTextNoHyphen state its use) |
| Format.FormatIsoDate | src/lib/utils/format.ts:9-30 | split, `Number`, month lookup and `String(year).slice(-2)` give exactly day text + `". "` + month text + `" '"` + short year, each read positionally from the input |
| Format.IsoDateSplit | src/lib/utils/format.ts:9 | `split('-')` on an ISO date gives exactly its three digit groups |
| Format.IsoDateNumbers | src/lib/utils/format.ts:10-12 | `Number` on each digit group equals the positional value of year, month and day |
| Format.DayPrinted | src/lib/utils/format.ts:12 | `String(Number(dd))` is the day digits with a leading zero dropped |
| Format.YearPrinted | src/lib/utils/format.ts:29 | `String(year).slice(-2)` is the last two year digits, or only the last one when the three before it are zeros |
| Format.YearField | src/lib/utils/format.ts:9-29 | the year group after split, `Number`, `String` and slice is the short year |
| Format.MonthField | src/lib/utils/format.ts:9-11 | the month group after split and `Number` is the month number |
| Format.DayField | src/lib/utils/format.ts:9-12 | the day group after split, `Number` and `String` is the unpadded day |
| Format.WellFormedDate | src/lib/utils/format.ts:14-30 | with month 1 to 12 the label holds table entry `month - 1` between the day and the short year |
| Format.OutOfRangeMonth | src/lib/utils/format.ts:5-30 | months 00 and 13 to 99 pass the shape test and the label carries the word `undefined` as month |
| Format.DayUnpadded | src/lib/utils/format.ts:12-30 | the label starts with the day and `". "`; the day is one character below ten and two from ten on |
| Format.TemplateEnds | src/lib/utils/format.ts:30 | the template's first piece is day + `". "` and its last piece is `" '"` + short year, whatever the month text |
| Format.ShortYearValue | src/lib/utils/format.ts:10-29 | the short year is digits only, one character for years below ten and two otherwise, and worth the year modulo 100 |
| Format.ShortYearEndsLabel | src/lib/utils/format.ts:29-30 | the label ends with `" '"` and the short year |
| Format.MonthTextNoHyphen | src/lib/utils/format.ts:14-30 | no month text, `undefined` included, contains a hyphen |
| Format.IsoLabelNotIso | src/lib/utils/format.ts:5-30 | a label made from an ISO date never passes the ISO shape test itself |
| Format.FormatIdempotent | src/lib/utils/format.ts:1-31 | formatting a label again returns it unchanged |
| Format.ExampleIsoDate | src/lib/utils/format.ts:9-30 | `2024-03-21` gives `21. ` + the stored March name + ` '24` |
| Format.ExampleMay | src/lib/utils/format.ts:9-30 | `2024-05-21` gives `21. Mai '24` |
| Format.ExampleUnpaddedDay | src/lib/utils/format.ts:12-30 | `2024-03-05` gives a label starting with `5. ` |
| Format.ExampleSmallYear | src/lib/utils/format.ts:10-30 | `0005-01-07` gives `7. Januar '5` |
| Format.ExampleMonthThirteen | src/lib/utils/format.ts:5-30 | `2024-13-01` gives `1. undefined '24` |
| Format.ExamplePassThrough | src/lib/utils/format.ts:2-7 | a label that is already German passes through; absent input gives `""` |
| Format.Rollover | src/lib/utils/format.ts:40-44 | after rollover the minutes lie in 0..59 and hour * 60 + minutes is unchanged |
| Format.RolloverCases | src/lib/utils/format.ts:40-44 | the hour goes up by one exactly when the minutes are 60, and those minutes become 0; below 60 nothing changes |
| Format.MinuteText | src/lib/utils/format.ts:47 | `String(minutes).padStart(2, '0')` is at least two digits worth the minute count, and equals `String(minutes)` from ten on |
| Format.MinuteTextOneDigit | src/lib/utils/format.ts:47 | a single-digit minute count gets one `0` in front |
| Format.MinuteTextTwoDigits | src/lib/utils/format.ts:47 | a two-digit minute count is printed as it is |
| Format.MinuteTextDigits | src/lib/utils/format.ts:47 | below 100 the padded minutes are exactly the tens digit and the units digit |
| Format.MinuteTextValue | src/lib/utils/format.ts:47 | below 100 the padded minutes are two digits worth the minute count |
| Format.HourTextNoColon | src/lib/utils/format.ts:46 | the printed hour never contains a colon |
| Format.TimeText | src/lib/utils/format.ts:40-49 | `floatToTime` from the rounded hour and minutes on: the label is `String` of the hour after rollover, `:`, and the tens and units digits of the minutes after rollover |
| Format.TimeTextShape | src/lib/utils/format.ts:46-49 | the label starts with the hour as `String` prints it, never zero-padded and with a leading zero only for hour 0, and has exactly three characters after it |
| Format.ParseTimeParts | src/lib/utils/format.ts:49 | a label `h:mm` made from a colon-free hour and two digits is read back field by field |
| Format.TimeTextRoundTrip | src/lib/utils/format.ts:40-49 | reading the label back gives the rolled-over hour and minutes, which denote the same total number of minutes as the input |
| Format.ExampleHalfPast | src/lib/utils/format.ts:40-49 | 7 hours 30 minutes print as `7:30` |
| Format.ExampleRollover | src/lib/utils/format.ts:39-49 | 13 hours 60 minutes print as `14:00`, the same label as 14 hours 0 minutes |
| Format.ExampleMidnight | src/lib/utils/format.ts:40-49 | 0 hours 0 minutes print as `0:00` |
| JsText.DigitValue | src/lib/utils/format.ts:10-12 | an ASCII digit is worth 0 to 9 |
| JsText.DigitChar | src/lib/utils/format.ts:46-47 | the digit character for 0 to 9 is an ASCII digit worth that number |
| JsText.DigitCharOfValue | src/lib/utils/format.ts:10-12 | a digit's character is recovered from its value |
| JsText.LeadingZero | src/lib/utils/format.ts:47 | a leading zero does not change what `Number` reads |
| JsText.DigitsValue | src/lib/utils/format.ts:10-12 | `Number` on a string of ASCII digits, read as a decimal numeral (a definition; NatToStringRoundTrip, DigitsValueRoundTrip, LeadingZero, TwoDigitsValue and FourDigitsValue state what it computes) |
| JsText.TwoDigitsValue | src/lib/utils/format.ts:11-12 | `Number` on two digits is ten times the first plus the second |
| JsText.FourDigitsValue | src/lib/utils/format.ts:10 | `Number` on four digits is their positional value |
| JsText.NatToString | src/lib/utils/format.ts:29 | `String(n)` is digits only, with no leading zero except for 0 itself |
| JsText.NatToStringLast | src/lib/utils/format.ts:29 | the last character of `String(n)` is the units digit |
| JsText.NatToStringLastTwo | src/lib/utils/format.ts:29 | from ten on, the last two characters of `String(n)` are the tens and units digits |
| JsText.NatToStringRoundTrip | src/lib/utils/format.ts:10-12 | `Number(String(n)) == n` |
| JsText.DigitsValueRoundTrip | src/lib/utils/format.ts:10-12 | `String(Number(s)) == s` for every canonical numeral |
| JsText.IntToString | src/lib/utils/format.ts:46 | `String(i)` is canonical digits for `i >= 0`, and a minus sign before canonical nonzero digits for `i < 0` |
| JsText.IntToStringRoundTrip | src/lib/utils/format.ts:46 | reading `String(i)` back as a signed integer gives `i` |
| JsText.Split | src/lib/utils/format.ts:9 | `split` gives at least one piece and no piece holds the separator |
| JsText.JoinSplit | src/lib/utils/format.ts:9 | joining the pieces of a split with the separator gives back the string |
| JsText.SplitNoSeparator | src/lib/utils/format.ts:9 | a string without the separator splits into itself alone |
| JsText.SplitAtFirst | src/lib/utils/format.ts:9 | splitting at the first separator gives the piece before it, then the split of the rest |
| JsText.SplitJoin | src/lib/utils/format.ts:9 | splitting separator-free pieces that were joined gives back the pieces |
| JsText.SliceFromEnd | src/lib/utils/format.ts:29 | `slice(-k)` is a suffix of length `k`, or the whole string when it is shorter |
| JsText.Repeat | src/lib/utils/format.ts:47 | `k` copies of the fill character |
| JsText.PadStart | src/lib/utils/format.ts:47 | `padStart(n, c)` ends with the input, is `n` long when the input is shorter and the input otherwise, and holds only `c` in front |

## Left out

- The floating-point front half of `floatToTime` (src/lib/utils/format.ts:33-37) is not modelled. This covers the `null`/NaN test, `Math.floor` and `Math.round` on doubles, and infinities. The model starts from the rounded integer hour and a minute count in 0..60, the range `Math.round` gives there.
- Format.Rollover: requires the minutes to lie in 0..60, because that is the only range the rounding step can produce.
- JsText.IntToString: is exact only for hours below 2^53 in magnitude. The hour is a double in the source. From 2^53 on, the model prints the exact decimal, while `String` prints the shortest digits that identify the double, padded with zeros: `String(2**64)` is `18446744073709552000`, but the model gives `18446744073709551616`. So the labels for such hours differ. From 10^21 on, `String` also switches to exponential notation, which is not modelled. JavaScript's negative zero prints as `0`, the same as the integer 0 here.
- JsText.DigitsValue: models `Number` only on strings of ASCII digits, the only strings the ISO shape test lets through. It is exact for these, since at most four digits are read.
- JsText.Split: models only a one-character separator, as used here.
- JsText.PadStart: models only a one-character fill string, as used here.
- `Format.ParseTime`, `JsText.ParseInt` and `JsText.Join` are not part of the source, which never parses a label, parses a signed integer or calls `join`. They exist only to state the round trips of `floatToTime`'s label, of `String` and of `split`.
- src/lib/types.ts holds interfaces only, and src/lib/sampleData.ts holds fixture constants. Neither has behaviour to model.
- src/lib/server/diffs.ts and src/lib/server/recommendations.ts are not modelled. They are HTTP fetches to a fixed URL, logging and unchecked JSON casts.
- The request handlers under src/routes/api are not modelled. They forward request and response bodies verbatim.
