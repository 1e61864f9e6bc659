/** UTC calendar components of a JavaScript `Date`, and the text `dateToMsSql`
    makes of them (lib/mssql.js:479-507): `Y-MM-DDTHH:mm:ss.fff`. */
module Dates {
  import opened Options
  import opened Text

  /** What the `getUTC*` accessors of a Date report. `month` is zero-based, as
      `getUTCMonth()` is. */
  datatype DateParts = DateParts(
    year: int, month: int, day: int,
    hours: int, minutes: int, seconds: int, millis: int)
  {
    /** The ranges the UTC accessors of a valid Date always stay within. */
    predicate WellFormed() {
      && 0 <= month < 12
      && 1 <= day <= 31
      && 0 <= hours < 24
      && 0 <= minutes < 60
      && 0 <= seconds < 60
      && 0 <= millis < 1000
    }
  }

  type UtcParts = d: DateParts | d.WellFormed() witness DateParts(1970, 0, 1, 0, 0, 0, 0)

  /** A JavaScript Date: either a valid instant or the invalid date (time value NaN),
      whose every UTC accessor yields NaN. */
  datatype JsDate = Valid(utc: UtcParts) | InvalidDate

  /** The nested `fillZeros`: a single digit gets a leading '0'; anything else is
      rendered as is. */
  function FillZeros(v: nat): string {
    if v < 10 then "0" + NatToString(v) else NatToString(v)
  }

  /** The millisecond padding: one digit gets "00", two digits get "0". */
  function PadMillis(ms: nat): string {
    if ms < 10 then "00" + NatToString(ms)
    else if ms < 100 then "0" + NatToString(ms)
    else NatToString(ms)
  }

  /** What the formatter yields for an invalid Date: every accessor is NaN, `NaN < 10`
      is false, so each field renders as "NaN". */
  const InvalidDateText: string := "NaN-NaN-NaNTNaN:NaN:NaN.NaN"

  function FormatUtc(p: UtcParts): string {
    IntToString(p.year) + FieldsAfterYear(p)
  }

  /** Everything after the year: fixed-width, zero-padded fields. */
  function FieldsAfterYear(p: UtcParts): string {
    ("-" + FillZeros(p.month + 1)) + ("-" + FillZeros(p.day))
    + ("T" + FillZeros(p.hours)) + (":" + FillZeros(p.minutes)) + (":" + FillZeros(p.seconds))
    + ("." + PadMillis(p.millis))
  }

  /** `dateToMsSql`: the text of a Date's UTC components. For a valid Date it is
      exactly the text the reader below takes back to the same components, so every
      field keeps its value and its fixed width; an invalid Date yields text that no
      reader accepts. */
  function DateToMsSql(d: JsDate): (r: string)
    ensures d.Valid? ==> r == IntToString(d.utc.year) + Layout(d.utc)
    ensures d.Valid? ==> ParseMsSql(r) == Some(d.utc)
    ensures d.InvalidDate? ==> ParseMsSql(r).None?
  {
    match d
    case Valid(p) => FieldsAfterYearLayout(p); DateTextRoundTrip(p); FormatUtc(p)
    case InvalidDate =>
      assert InvalidDateText[..8] == "NaN-NaN-";
      InvalidDateText
  }

  function Field2(a: char, b: char): int
    requires IsDigit(a) && IsDigit(b)
  {
    10 * DigitValue(a) + DigitValue(b)
  }

  function Field3(a: char, b: char, c: char): int
    requires IsDigit(a) && IsDigit(b) && IsDigit(c)
  {
    100 * DigitValue(a) + 10 * DigitValue(b) + DigitValue(c)
  }

  /** Reads `Y-MM-DDTHH:mm:ss.fff` (the year of any width, possibly negative, and every
      other field of fixed width) back into UTC components, as a reader of the
      statement text would. */
  function ParseMsSql(s: string): Option<UtcParts> {
    if |s| < 20 then None
    else
      match ParseInt(s[..|s| - 19])
      case None => None
      case Some(year) => ReadFields(year, s[|s| - 19..])
  }

  /** Reads the nineteen characters after the year: separators at fixed places, digits
      everywhere else, and components within their ranges. */
  function ReadFields(year: int, t: string): Option<UtcParts> {
    if && |t| == 19
       && t[0] == '-' && t[3] == '-' && t[6] == 'T' && t[9] == ':' && t[12] == ':' && t[15] == '.'
       && IsDigit(t[1]) && IsDigit(t[2]) && IsDigit(t[4]) && IsDigit(t[5])
       && IsDigit(t[7]) && IsDigit(t[8]) && IsDigit(t[10]) && IsDigit(t[11])
       && IsDigit(t[13]) && IsDigit(t[14]) && IsDigit(t[16]) && IsDigit(t[17]) && IsDigit(t[18])
    then
      var parts := DateParts(
        year, Field2(t[1], t[2]) - 1, Field2(t[4], t[5]),
        Field2(t[7], t[8]), Field2(t[10], t[11]), Field2(t[13], t[14]),
        Field3(t[16], t[17], t[18]));
      if parts.WellFormed() then Some(parts) else None
    else None
  }

  lemma FillZerosDigits(v: nat)
    requires v < 100
    ensures FillZeros(v) == [DigitChar(v / 10), DigitChar(v % 10)]
  {
    if v >= 10 {
      assert NatToString(v) == NatToString(v / 10) + [DigitChar(v % 10)];
    }
  }

  lemma PadMillisDigits(ms: nat)
    requires ms < 1000
    ensures PadMillis(ms) == [DigitChar(ms / 100), DigitChar(ms / 10 % 10), DigitChar(ms % 10)]
  {
    if ms >= 100 {
      assert NatToString(ms) == NatToString(ms / 10) + [DigitChar(ms % 10)];
      FillZerosDigits(ms / 10);
      assert ms / 10 / 10 == ms / 100;
    } else if ms >= 10 {
      assert NatToString(ms) == NatToString(ms / 10) + [DigitChar(ms % 10)];
    }
  }

  lemma Field2Digits(v: nat)
    requires v < 100
    ensures Field2(DigitChar(v / 10), DigitChar(v % 10)) == v
  {
    DigitRoundTrip(v / 10);
    DigitRoundTrip(v % 10);
  }

  lemma Field3Digits(v: nat)
    requires v < 1000
    ensures Field3(DigitChar(v / 100), DigitChar(v / 10 % 10), DigitChar(v % 10)) == v
  {
    DigitRoundTrip(v / 100);
    DigitRoundTrip(v / 10 % 10);
    DigitRoundTrip(v % 10);
    assert v == 100 * (v / 100) + 10 * (v / 10 % 10) + v % 10;
  }

  /** A separator and the two digits of a field under 100. */
  function TwoDigits(c: char, v: nat): (t: string)
    requires v < 100
    ensures |t| == 3
  {
    [c, DigitChar(v / 10), DigitChar(v % 10)]
  }

  /** The nineteen characters after the year: separators at fixed places and the
      digits of each field. */
  function Layout(p: UtcParts): (t: string)
    ensures |t| == 19
  {
    TwoDigits('-', p.month + 1) + TwoDigits('-', p.day) + TwoDigits('T', p.hours)
    + TwoDigits(':', p.minutes) + TwoDigits(':', p.seconds)
    + ['.', DigitChar(p.millis / 100), DigitChar(p.millis / 10 % 10), DigitChar(p.millis % 10)]
  }

  /** A separator followed by a two-digit field. */
  lemma SeparatedField(c: char, v: nat)
    requires v < 100
    ensures [c] + FillZeros(v) == TwoDigits(c, v)
  {
    FillZerosDigits(v);
  }

  /** The zero-padded fields after the year are exactly that layout. */
  lemma FieldsAfterYearLayout(p: UtcParts)
    ensures FieldsAfterYear(p) == Layout(p)
  {
    SeparatedField('-', p.month + 1);
    SeparatedField('-', p.day);
    SeparatedField('T', p.hours);
    SeparatedField(':', p.minutes);
    SeparatedField(':', p.seconds);
    PadMillisDigits(p.millis);
  }

  /** Formatting valid UTC components and reading the text back gives the same
      components: month is written one-based and read back zero-based, and each padded
      field occupies its fixed width. */
  lemma DateTextRoundTrip(p: UtcParts)
    ensures ParseMsSql(FormatUtc(p)) == Some(p)
  {
    CutConcat(IntToString(p.year), FieldsAfterYear(p));
    IntToStringRoundTrip(p.year);
    FieldsAfterYearLayout(p);
    LayoutReadBack(p);
  }

  /** The layout reads back as the components it was written from. */
  lemma LayoutReadBack(p: UtcParts)
    ensures ReadFields(p.year, Layout(p)) == Some(p)
  {
    var t := Layout(p);
    Field2Digits(p.month + 1);
    assert Field2(t[1], t[2]) == p.month + 1;
    Field2Digits(p.day);
    assert Field2(t[4], t[5]) == p.day;
    Field2Digits(p.hours);
    assert Field2(t[7], t[8]) == p.hours;
    Field2Digits(p.minutes);
    assert Field2(t[10], t[11]) == p.minutes;
    Field2Digits(p.seconds);
    assert Field2(t[13], t[14]) == p.seconds;
    Field3Digits(p.millis);
    assert Field3(t[16], t[17], t[18]) == p.millis;
  }

  /** The digits of a two-digit field are those of the value it reads as. */
  lemma Field2Split(a: char, b: char)
    requires IsDigit(a) && IsDigit(b)
    ensures DigitChar(Field2(a, b) / 10) == a && DigitChar(Field2(a, b) % 10) == b
  {
    DigitCharOfValue(a);
    DigitCharOfValue(b);
  }

  /** The digits of a three-digit field are those of the value it reads as. */
  lemma Field3Split(a: char, b: char, c: char)
    requires IsDigit(a) && IsDigit(b) && IsDigit(c)
    ensures var v := Field3(a, b, c);
      DigitChar(v / 100) == a && DigitChar(v / 10 % 10) == b && DigitChar(v % 10) == c
  {
    DigitCharOfValue(a);
    DigitCharOfValue(b);
    DigitCharOfValue(c);
    var v := Field3(a, b, c);
    assert v / 10 == 10 * DigitValue(a) + DigitValue(b);
  }

  /** The nineteen characters a reading accepts are the layout of what it reads. */
  lemma ReadFieldsUnique(year: int, t: string, p: UtcParts)
    requires ReadFields(year, t) == Some(p)
    ensures t == Layout(p)
  {
    Field2Split(t[1], t[2]);
    Field2Split(t[4], t[5]);
    Field2Split(t[7], t[8]);
    Field2Split(t[10], t[11]);
    Field2Split(t[13], t[14]);
    Field3Split(t[16], t[17], t[18]);
    assert t[..3] == TwoDigits('-', p.month + 1);
    assert t[3..6] == TwoDigits('-', p.day);
    assert t[6..9] == TwoDigits('T', p.hours);
    assert t[9..12] == TwoDigits(':', p.minutes);
    assert t[12..15] == TwoDigits(':', p.seconds);
    assert t == t[..3] + t[3..6] + t[6..9] + t[9..12] + t[12..15] + t[15..];
  }

  /** The only text that reads back as some components is the text those components
      format to: the reader accepts no zero-padded or otherwise different spelling. */
  lemma DateTextUnique(s: string, p: UtcParts)
    requires ParseMsSql(s) == Some(p)
    ensures s == FormatUtc(p)
  {
    var year, rest := SplitYear(s, p);
    ParseIntCanonical(year, p.year);
    ReadFieldsUnique(p.year, rest, p);
    FieldsAfterYearLayout(p);
  }

  /** A text that reads back splits into the year's text and the nineteen characters after it. */
  lemma SplitYear(s: string, p: UtcParts) returns (year: string, rest: string)
    requires ParseMsSql(s) == Some(p)
    ensures s == year + rest
    ensures ParseInt(year) == Some(p.year) && ReadFields(p.year, rest) == Some(p)
  {
    year, rest := s[..|s| - 19], s[|s| - 19..];
    assert s == year + rest;
  }
}
