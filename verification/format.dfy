/** The two display formatters of the scheduling UI: a German date label
    built from an ISO calendar date, and the hour-and-minute label built from
    an already rounded hour and minute count. */
module Format {
  import opened Wrappers
  import opened JsText

  // ---------------------------------------------------------------------------
  // formatDateGerman

  /** The month table as stored in the source. The third entry is the
      mis-encoded "März": the two characters U+00C3 and U+00A4 stand where
      the umlaut should be. */
  const Months: seq<string> := [
    "Januar", "Februar", "M\U{C3}\U{A4}rz", "April", "Mai", "Juni",
    "Juli", "August", "September", "Oktober", "November", "Dezember"
  ]

  /** `months[i]`: JavaScript array indexing, `undefined` outside the table. */
  function MonthAt(i: int): Option<string> {
    if 0 <= i < |Months| then Some(Months[i]) else None
  }

  /** `${x}` inside a template literal: `undefined` prints as that word. */
  function Interpolate(x: Option<string>): string {
    match x
    case Some(s) => s
    case None => "undefined"
  }

  /** The test `/^\d{4}-\d{2}-\d{2}$/`: ten characters, hyphens at positions
      4 and 7 and ASCII digits everywhere else. */
  predicate IsIsoDate(s: string) {
    |s| == 10 && s[4] == '-' && s[7] == '-' &&
    AllDigits(s[..4]) && AllDigits(s[5..7]) && AllDigits(s[8..])
  }

  /** The year, month and day of an ISO date, read digit by digit. */
  function YearOf(s: string): nat
    requires IsIsoDate(s)
  {
    assert IsDigit(s[..4][0]) && IsDigit(s[..4][1]) && IsDigit(s[..4][2]) && IsDigit(s[..4][3]);
    1000 * DigitValue(s[0]) + 100 * DigitValue(s[1]) + 10 * DigitValue(s[2]) + DigitValue(s[3])
  }

  function MonthOf(s: string): nat
    requires IsIsoDate(s)
  {
    assert IsDigit(s[5..7][0]) && IsDigit(s[5..7][1]);
    10 * DigitValue(s[5]) + DigitValue(s[6])
  }

  function DayOf(s: string): nat
    requires IsIsoDate(s)
  {
    assert IsDigit(s[8..][0]) && IsDigit(s[8..][1]);
    10 * DigitValue(s[8]) + DigitValue(s[9])
  }

  /** The day as printed: the two day digits with a leading zero dropped. */
  function DayText(s: string): string
    requires IsIsoDate(s)
  {
    if s[8] == '0' then [s[9]] else s[8..10]
  }

  /** The short year as printed: the last two year digits, or only the last
      one when the three before it are zeros. */
  function ShortYearText(s: string): string
    requires IsIsoDate(s)
  {
    if s[0] == '0' && s[1] == '0' && s[2] == '0' then [s[3]] else s[2..4]
  }

  /** Splitting an ISO date on `-` gives exactly its three digit groups. */
  lemma IsoDateSplit(s: string)
    requires IsIsoDate(s)
    ensures Split(s, '-') == [s[..4], s[5..7], s[8..]]
  {
    var parts := [s[..4], s[5..7], s[8..]];
    assert parts[1..][1..] == [s[8..]];
    assert Join(parts[1..], '-') == s[5..7] + "-" + s[8..];
    assert s == s[..4] + "-" + s[5..7] + "-" + s[8..];
    assert Join(parts, '-') == s;
    forall k | 0 <= k < 3 ensures '-' !in parts[k] {
      assert AllDigits(parts[k]);
    }
    SplitJoin(parts, '-');
  }

  /** `Number` on each digit group gives the positional value. */
  lemma IsoDateNumbers(s: string)
    requires IsIsoDate(s)
    ensures DigitsValue(s[..4]) == YearOf(s)
    ensures DigitsValue(s[5..7]) == MonthOf(s)
    ensures DigitsValue(s[8..]) == DayOf(s)
  {
    FourDigitsValue(s[..4]);
    TwoDigitsValue(s[5..7]);
    TwoDigitsValue(s[8..]);
  }

  /** `String` of the day number is the day without zero padding. */
  lemma DayPrinted(s: string)
    requires IsIsoDate(s)
    ensures NatToString(DayOf(s)) == DayText(s)
  {
    assert IsDigit(s[8..][0]) && IsDigit(s[8..][1]);
    DigitCharOfValue(s[8]);
    DigitCharOfValue(s[9]);
    var n := DayOf(s);
    if s[8] != '0' {
      assert n / 10 == DigitValue(s[8]) && n % 10 == DigitValue(s[9]);
      assert NatToString(n / 10) == [s[8]];
    }
  }

  /** Division by ten of a number written as tens and a units digit. */
  lemma DivModTen(q: nat, d: nat)
    requires d < 10
    ensures (10 * q + d) / 10 == q && (10 * q + d) % 10 == d
  {
  }

  /** The last two decimal digits of a four-digit number, and when it has
      at least two. */
  lemma FourDigitArith(a: nat, b: nat, c: nat, d: nat)
    requires a < 10 && b < 10 && c < 10 && d < 10
    ensures var y := 1000 * a + 100 * b + 10 * c + d;
      y % 10 == d && y / 10 % 10 == c && (a != 0 || b != 0 || c != 0 ==> y >= 10)
  {
    var q := 100 * a + 10 * b + c;
    assert 1000 * a + 100 * b + 10 * c + d == 10 * q + d;
    DivModTen(q, d);
    DivModTen(10 * a + b, c);
  }

  /** `String(year).slice(-2)` on the year number is the short year. */
  lemma YearPrinted(s: string)
    requires IsIsoDate(s)
    ensures SliceFromEnd(NatToString(YearOf(s)), 2) == ShortYearText(s)
  {
    assert IsDigit(s[..4][0]) && IsDigit(s[..4][1]) && IsDigit(s[..4][2]) && IsDigit(s[..4][3]);
    DigitCharOfValue(s[2]);
    DigitCharOfValue(s[3]);
    var a, b, c, d := DigitValue(s[0]), DigitValue(s[1]), DigitValue(s[2]), DigitValue(s[3]);
    var y := YearOf(s);
    assert y == 1000 * a + 100 * b + 10 * c + d;
    FourDigitArith(a, b, c, d);
    if s[0] == '0' && s[1] == '0' && s[2] == '0' {
      assert y == d;
      assert NatToString(y) == [s[3]];
    } else {
      assert a != 0 || b != 0 || c != 0;
      NatToStringLastTwo(y);
      var r := NatToString(y);
      assert r[|r| - 2..] == [s[2], s[3]] == s[2..4];
    }
  }

  /** `Number` on the year group, re-printed and sliced, is the short year. */
  lemma YearField(s: string)
    requires IsIsoDate(s)
    ensures var parts := Split(s, '-');
      |parts| == 3 && AllDigits(parts[0]) &&
      SliceFromEnd(NatToString(DigitsValue(parts[0])), 2) == ShortYearText(s)
  {
    IsoDateSplit(s);
    IsoDateNumbers(s);
    YearPrinted(s);
  }

  /** `Number` on the month group is the month. */
  lemma MonthField(s: string)
    requires IsIsoDate(s)
    ensures var parts := Split(s, '-');
      |parts| == 3 && AllDigits(parts[1]) && DigitsValue(parts[1]) == MonthOf(s)
  {
    IsoDateSplit(s);
    IsoDateNumbers(s);
  }

  /** `Number` on the day group, re-printed, is the day without padding. */
  lemma DayField(s: string)
    requires IsIsoDate(s)
    ensures var parts := Split(s, '-');
      |parts| == 3 && AllDigits(parts[2]) && NatToString(DigitsValue(parts[2])) == DayText(s)
  {
    IsoDateSplit(s);
    IsoDateNumbers(s);
    DayPrinted(s);
  }

  /** The ISO branch of formatDateGerman: split on `-`, `Number` on each
      group, and the template "{day}. {months[month - 1]} '{short year}". */
  function FormatIsoDate(s: string): (r: string)
    requires IsIsoDate(s)
    ensures r == DayText(s) + ". " + Interpolate(MonthAt(MonthOf(s) - 1)) + " '" + ShortYearText(s)
  {
    IsoDateSplit(s);
    var parts := Split(s, '-');
    assert AllDigits(parts[0]) && AllDigits(parts[1]) && AllDigits(parts[2]);
    var year := DigitsValue(parts[0]);
    var month := DigitsValue(parts[1]);
    var day := DigitsValue(parts[2]);
    var dayText := NatToString(day);
    var monthText := Interpolate(MonthAt(month - 1));
    var shortYear := SliceFromEnd(NatToString(year), 2);
    assert dayText == DayText(s) by { DayField(s); }
    assert month - 1 == MonthOf(s) - 1 by { MonthField(s); }
    assert shortYear == ShortYearText(s) by { YearField(s); }
    dayText + ". " + monthText + " '" + shortYear
  }

  /** formatDateGerman: empty or absent input gives the empty string, input
      that is not an ISO date passes through unchanged, and an ISO date
      becomes "{day}. {month name} '{short year}". */
  function FormatDateGerman(dateStr: Option<string>): (r: string)
    ensures dateStr == None || dateStr == Some("") ==> r == ""
    ensures dateStr.Some? && !IsIsoDate(dateStr.value) ==> r == dateStr.value
    ensures dateStr.Some? && IsIsoDate(dateStr.value) ==> r == FormatIsoDate(dateStr.value)
  {
    if dateStr.None? || dateStr.value == [] then ""
    else if !IsIsoDate(dateStr.value) then dateStr.value
    else FormatIsoDate(dateStr.value)
  }

  /** An ISO date whose month is 1 to 12 prints the month's table entry. */
  lemma WellFormedDate(s: string)
    requires IsIsoDate(s) && 1 <= MonthOf(s) <= 12
    ensures FormatDateGerman(Some(s)) == DayText(s) + ". " + Months[MonthOf(s) - 1] + " '" + ShortYearText(s)
  {
    assert FormatDateGerman(Some(s)) == FormatIsoDate(s);
    assert Interpolate(MonthAt(MonthOf(s) - 1)) == Months[MonthOf(s) - 1];
  }

  /** The pattern admits months 00 and 13 to 99; the lookup then falls off
      the table and the label carries the word "undefined". */
  lemma OutOfRangeMonth(s: string)
    requires IsIsoDate(s) && (MonthOf(s) == 0 || MonthOf(s) > 12)
    ensures FormatDateGerman(Some(s)) == DayText(s) + ". " + "undefined" + " '" + ShortYearText(s)
  {
    assert MonthAt(MonthOf(s) - 1) == None;
  }

  /** The label starts with the day number as `String(Number(dd))` prints it:
      no zero padding, so one character when the day is below ten. */
  lemma DayUnpadded(s: string)
    requires IsIsoDate(s)
    ensures var d := DayText(s);
      d == NatToString(DayOf(s)) && |d| == (if DayOf(s) < 10 then 1 else 2) &&
      FormatDateGerman(Some(s))[..|d| + 2] == d + ". "
  {
    DayPrinted(s);
    assert IsDigit(s[8..][0]);
    TemplateEnds(DayText(s), Interpolate(MonthAt(MonthOf(s) - 1)), ShortYearText(s));
  }

  /** The label's first and last pieces, for any day, month and year text. */
  lemma TemplateEnds(d: string, m: string, y: string)
    ensures var r := d + ". " + m + " '" + y;
      r[..|d| + 2] == d + ". " && r[|r| - |y| - 2..] == " '" + y
  {
    var a1 := d + ". ";
    var a2 := a1 + m;
    var a3 := a2 + " '";
    assert a2[..|a1|] == a1;
    assert a3[..|a1|] == a1;
    assert (a3 + y)[|a2|..] == " '" + y;
  }

  /** The short year is the tail of the year number re-printed as a decimal,
      so leading zeros of the input are gone: it has one character below ten
      and two from ten on, and its value is the year modulo 100. */
  lemma ShortYearValue(s: string)
    requires IsIsoDate(s)
    ensures var y := ShortYearText(s);
      |y| == (if YearOf(s) < 10 then 1 else 2) && AllDigits(y) && DigitsValue(y) == YearOf(s) % 100
  {
    assert IsDigit(s[..4][0]) && IsDigit(s[..4][1]) && IsDigit(s[..4][2]) && IsDigit(s[..4][3]);
    var y := ShortYearText(s);
    var a, b, c, d := DigitValue(s[0]), DigitValue(s[1]), DigitValue(s[2]), DigitValue(s[3]);
    assert YearOf(s) == 100 * (10 * a + b) + (10 * c + d);
    assert YearOf(s) % 100 == 10 * c + d by {
      ModHundred(10 * a + b, 10 * c + d);
    }
    if s[0] == '0' && s[1] == '0' && s[2] == '0' {
      assert y == [s[3]] && y[..0] == [];
    } else {
      assert a != 0 || b != 0 || c != 0;
      assert y == s[2..4];
      TwoDigitsValue(y);
    }
  }

  /** The remainder modulo 100 of a number written as hundreds and a
      two-digit rest. */
  lemma ModHundred(h: nat, l: nat)
    requires l < 100
    ensures (100 * h + l) % 100 == l
  {
  }

  /** The label ends with an apostrophe and the short year. */
  lemma ShortYearEndsLabel(s: string)
    requires IsIsoDate(s)
    ensures var y := ShortYearText(s); var r := FormatDateGerman(Some(s));
      |r| >= |y| + 2 && r[|r| - |y| - 2..] == " '" + y
  {
    TemplateEnds(DayText(s), Interpolate(MonthAt(MonthOf(s) - 1)), ShortYearText(s));
  }

  /** No month text, "undefined" included, holds a hyphen. */
  lemma MonthTextNoHyphen(i: int)
    ensures '-' !in Interpolate(MonthAt(i))
  {
    if 0 <= i < 6 {
      assert i == 0 || i == 1 || i == 2 || i == 3 || i == 4 || i == 5;
    } else if 6 <= i < 12 {
      assert i == 6 || i == 7 || i == 8 || i == 9 || i == 10 || i == 11;
    }
  }

  /** A label never contains a hyphen, so it is never an ISO date. */
  lemma IsoLabelNotIso(s: string)
    requires IsIsoDate(s)
    ensures !IsIsoDate(FormatDateGerman(Some(s)))
  {
    var r := FormatDateGerman(Some(s));
    var d := DayText(s);
    var m := Interpolate(MonthAt(MonthOf(s) - 1));
    var y := ShortYearText(s);
    MonthTextNoHyphen(MonthOf(s) - 1);
    assert '-' !in d && '-' !in y by {
      assert IsDigit(s[..4][2]) && IsDigit(s[..4][3]);
      assert IsDigit(s[8..][0]) && IsDigit(s[8..][1]);
    }
    assert r == d + ". " + m + " '" + y;
    assert '-' !in r;
    if |r| == 10 {
      assert r[4] in r;
    }
  }

  /** Formatting twice is formatting once: a label passes through. */
  lemma FormatIdempotent(dateStr: Option<string>)
    ensures FormatDateGerman(Some(FormatDateGerman(dateStr))) == FormatDateGerman(dateStr)
  {
    if dateStr.Some? && IsIsoDate(dateStr.value) {
      IsoLabelNotIso(dateStr.value);
    }
  }

  // The examples below state the label as the pieces of the template
  // "{day}. {month} '{short year}".

  /** "2024-03-21" becomes "21. März '24", with the month as stored. */
  lemma ExampleIsoDate(s: string)
    requires s == "2024-03-21"
    ensures FormatDateGerman(Some(s)) == "21" + ". " + "M\U{C3}\U{A4}rz" + " '" + "24"
  {
    assert IsIsoDate(s) by { assert s[..4] == "2024" && s[5..7] == "03" && s[8..] == "21"; }
    assert DayText(s) == "21" && ShortYearText(s) == "24";
    assert MonthOf(s) - 1 == 2 && Months[2] == "M\U{C3}\U{A4}rz";
    WellFormedDate(s);
  }

  /** "2024-05-21" becomes "21. Mai '24". */
  lemma ExampleMay(s: string)
    requires s == "2024-05-21"
    ensures FormatDateGerman(Some(s)) == "21" + ". " + "Mai" + " '" + "24"
  {
    assert IsIsoDate(s) by { assert s[..4] == "2024" && s[5..7] == "05" && s[8..] == "21"; }
    assert DayText(s) == "21" && ShortYearText(s) == "24";
    assert MonthOf(s) - 1 == 4 && Months[4] == "Mai";
    WellFormedDate(s);
  }

  /** "2024-03-05" starts with "5. ": no zero padding on the day. */
  lemma ExampleUnpaddedDay(s: string)
    requires s == "2024-03-05"
    ensures FormatDateGerman(Some(s))[..3] == "5" + ". "
  {
    assert IsIsoDate(s) by { assert s[..4] == "2024" && s[5..7] == "03" && s[8..] == "05"; }
    assert DayText(s) == "5";
    DayUnpadded(s);
  }

  /** "0005-01-07" becomes "7. Januar '5": the year loses its leading zeros. */
  lemma ExampleSmallYear(s: string)
    requires s == "0005-01-07"
    ensures FormatDateGerman(Some(s)) == "7" + ". " + "Januar" + " '" + "5"
  {
    assert IsIsoDate(s) by { assert s[..4] == "0005" && s[5..7] == "01" && s[8..] == "07"; }
    assert DayText(s) == "7" && ShortYearText(s) == "5";
    assert MonthOf(s) - 1 == 0 && Months[0] == "Januar";
    WellFormedDate(s);
  }

  /** "2024-13-01" passes the pattern and prints "undefined" for the month. */
  lemma ExampleMonthThirteen(s: string)
    requires s == "2024-13-01"
    ensures FormatDateGerman(Some(s)) == "1" + ". " + "undefined" + " '" + "24"
  {
    assert IsIsoDate(s) by { assert s[..4] == "2024" && s[5..7] == "13" && s[8..] == "01"; }
    assert DayText(s) == "1" && ShortYearText(s) == "24";
    assert MonthOf(s) == 13;
    OutOfRangeMonth(s);
  }

  /** A label that is already German passes through; absent input is "". */
  lemma ExamplePassThrough(s: string)
    requires s == "21. M\U{C3}\U{A4}rz"
    ensures FormatDateGerman(Some(s)) == s
    ensures FormatDateGerman(None) == ""
  {
    assert !IsIsoDate(s);
  }

  // ---------------------------------------------------------------------------
  // floatToTime, from the rounded hour and minute count on

  /** An hour and a minute count. */
  datatype Clock = Clock(hour: int, minute: int)

  /** The rollover step: a rounded minute count of 60 becomes the next hour.
      The minutes end up in 0..59 and the total number of minutes is kept. */
  function Rollover(hours: int, minutes: int): (c: Clock)
    requires 0 <= minutes <= 60
    ensures 0 <= c.minute < 60
    ensures c.hour * 60 + c.minute == hours * 60 + minutes
  {
    if minutes == 60 then Clock(hours + 1, 0) else Clock(hours, minutes)
  }

  /** The rollover moves to the next hour exactly when the minutes are 60,
      and changes nothing otherwise. */
  lemma RolloverCases(hours: int, minutes: int)
    requires 0 <= minutes <= 60
    ensures minutes == 60 <==> Rollover(hours, minutes).hour == hours + 1
    ensures minutes == 60 ==> Rollover(hours, minutes).minute == 0
    ensures minutes < 60 ==> Rollover(hours, minutes) == Clock(hours, minutes)
  {
  }

  /** `String(minutes).padStart(2, '0')`: at least two digits, still worth
      the minute count, and unchanged from `String(minutes)` from ten on. */
  function MinuteText(minutes: nat): (r: string)
    ensures |r| >= 2 && AllDigits(r) && DigitsValue(r) == minutes
    ensures minutes >= 10 ==> r == NatToString(minutes)
  {
    var s := NatToString(minutes);
    var r := PadStart(s, 2, '0');
    assert AllDigits(r) && DigitsValue(r) == minutes by {
      NatToStringRoundTrip(minutes);
      if minutes < 10 {
        assert r == "0" + s;
        LeadingZero(s);
      } else {
        assert |s| >= 2;
      }
    }
    r
  }

  /** A single digit is padded with one zero in front. */
  lemma MinuteTextOneDigit(minutes: nat)
    requires minutes < 10
    ensures MinuteText(minutes) == ['0', DigitChar(minutes)]
  {
    assert NatToString(minutes) == [DigitChar(minutes)];
    assert Repeat('0', 1) == ['0'];
  }

  /** Two digits are left as they are. */
  lemma MinuteTextTwoDigits(minutes: nat)
    requires 10 <= minutes < 100
    ensures MinuteText(minutes) == [DigitChar(minutes / 10), DigitChar(minutes % 10)]
  {
    var q := minutes / 10;
    assert q < 10;
    assert NatToString(q) == [DigitChar(q)];
  }

  /** Below 100 the minute text is exactly the tens and units digits. */
  lemma MinuteTextDigits(minutes: nat)
    requires minutes < 100
    ensures MinuteText(minutes) == [DigitChar(minutes / 10), DigitChar(minutes % 10)]
  {
    if minutes < 10 {
      MinuteTextOneDigit(minutes);
      assert minutes / 10 == 0 && minutes % 10 == minutes;
      assert DigitChar(0) == '0';
    } else {
      MinuteTextTwoDigits(minutes);
    }
  }

  /** floatToTime from the rounded hour and minutes on: roll over, then
      "{hour}:{minutes padded to two digits}". */
  function TimeText(hours: int, minutes: int): (r: string)
    requires 0 <= minutes <= 60
    ensures var c := Rollover(hours, minutes);
      r == IntToString(c.hour) + ":" + [DigitChar(c.minute / 10), DigitChar(c.minute % 10)]
  {
    var c := Rollover(hours, minutes);
    MinuteTextDigits(c.minute);
    IntToString(c.hour) + ":" + MinuteText(c.minute)
  }

  /** The label starts with the hour exactly as `String(h)` prints it (no
      padding, a leading zero only for hour 0) and has three characters
      after it: the colon and two minute digits. */
  lemma TimeTextShape(hours: int, minutes: int)
    requires 0 <= minutes <= 60
    ensures var c := Rollover(hours, minutes); var h := IntToString(c.hour); var r := TimeText(hours, minutes);
      |r| == |h| + 3 && r[..|h|] == h &&
      (c.hour >= 0 ==> h == NatToString(c.hour) && (h[0] == '0' <==> c.hour == 0))
  {
    var c := Rollover(hours, minutes);
    var h := IntToString(c.hour);
    assert (h + ":" + [DigitChar(c.minute / 10), DigitChar(c.minute % 10)])[..|h|] == h;
  }

  /** Reads a label "{hour}:{mm}" back into an hour and minute count. */
  function ParseTime(t: string): Option<Clock> {
    var parts := Split(t, ':');
    if |parts| == 2 && |parts[1]| == 2 && AllDigits(parts[1]) then
      match ParseInt(parts[0])
      case Some(h) => Some(Clock(h, DigitsValue(parts[1])))
      case None => None
    else None
  }

  /** The hour text is a sign and digits, so it holds no colon. */
  lemma HourTextNoColon(hour: int)
    ensures ':' !in IntToString(hour)
  {
    var h := IntToString(hour);
    if hour < 0 {
      assert h == "-" + h[1..];
      assert AllDigits(h[1..]);
    }
  }

  /** Below 100 the minute text is two digits worth the minutes. */
  lemma MinuteTextValue(minutes: nat)
    requires minutes < 100
    ensures var mm := MinuteText(minutes);
      |mm| == 2 && AllDigits(mm) && DigitsValue(mm) == minutes
  {
    var q, d := minutes / 10, minutes % 10;
    assert minutes == 10 * q + d;
    var mm := MinuteText(minutes);
    assert mm == [DigitChar(q), DigitChar(d)] by {
      MinuteTextDigits(minutes);
    }
    assert mm[0] == DigitChar(q) && mm[1] == DigitChar(d);
    TwoDigitsValue(mm);
  }

  /** A label put together from an hour text and two minute digits is read
      back field by field. */
  lemma ParseTimeParts(h: string, mm: string)
    requires ':' !in h && ParseInt(h).Some?
    requires |mm| == 2 && AllDigits(mm)
    ensures ParseTime(h + ":" + mm) == Some(Clock(ParseInt(h).value, DigitsValue(mm)))
  {
    assert ':' !in mm;
    SplitJoin([h, mm], ':');
    assert Join([h, mm], ':') == h + ":" + mm;
  }

  /** Reading the label back gives the hour and minutes after rollover, so
      the label denotes the same number of minutes as its input. */
  lemma {:induction false} TimeTextRoundTrip(hours: int, minutes: int)
    requires 0 <= minutes <= 60
    ensures ParseTime(TimeText(hours, minutes)) == Some(Rollover(hours, minutes))
    ensures var c := ParseTime(TimeText(hours, minutes)).value;
      c.hour * 60 + c.minute == hours * 60 + minutes
  {
    var c := Rollover(hours, minutes);
    MinuteTextValue(c.minute);
    HourTextNoColon(c.hour);
    IntToStringRoundTrip(c.hour);
    ParseTimeParts(IntToString(c.hour), MinuteText(c.minute));
  }

  /** 7.5 hours arrive as 7 h 30 min and print as "7:30". */
  lemma ExampleHalfPast(h: int, m: int)
    requires h == 7 && m == 30
    ensures TimeText(h, m) == "7" + ":" + "30"
  {
    var c := Rollover(h, m);
    assert c == Clock(7, 30);
    assert IntToString(c.hour) == "7" by {
      assert NatToString(7) == [DigitChar(7)];
    }
    assert [DigitChar(c.minute / 10), DigitChar(c.minute % 10)] == "30" by {
      assert c.minute / 10 == 3 && c.minute % 10 == 0;
      assert DigitChar(3) == '3' && DigitChar(0) == '0';
    }
  }

  /** 13.999 hours arrive as 13 h 60 min and roll over to "14:00", the same
      label as 14 h 0 min. */
  lemma ExampleRollover(h: int, m: int)
    requires h == 13 && m == 60
    ensures TimeText(h, m) == "14" + ":" + "00"
    ensures TimeText(h, m) == TimeText(14, 0)
  {
    var c := Rollover(h, m);
    assert c == Clock(14, 0) == Rollover(14, 0);
    assert IntToString(c.hour) == "14";
    assert [DigitChar(c.minute / 10), DigitChar(c.minute % 10)] == "00" by {
      assert DigitChar(0) == '0';
    }
  }

  /** 0 hours print as "0:00". */
  lemma ExampleMidnight(h: int, m: int)
    requires h == 0 && m == 0
    ensures TimeText(h, m) == "0" + ":" + "00"
  {
    var c := Rollover(h, m);
    assert c == Clock(0, 0);
    assert IntToString(c.hour) == "0";
    assert [DigitChar(c.minute / 10), DigitChar(c.minute % 10)] == "00" by {
      assert DigitChar(0) == '0';
    }
  }
}
