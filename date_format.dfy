/**
 * `formatDateTime` of the catalogue page: a local date and time printed as
 * `HH:MM DD/MM/YYYY`. The model starts from the integers the `Date` getters
 * return; building the `Date` and reading the local clock is not modelled.
 */
module DateFormat {

  import opened Wrappers

  /** What `getHours`, `getMinutes`, `getDate`, `getMonth` (0-based) and `getFullYear` return. */
  datatype LocalDateTime = LocalDateTime(hours: int, minutes: int, day: int, month0: int, year: int)

  /** The ranges the `Date` getters guarantee. */
  predicate InGetterRange(d: LocalDateTime) {
    0 <= d.hours < 24 && 0 <= d.minutes < 60 && 1 <= d.day <= 31 && 0 <= d.month0 < 12
  }

  /** The fields as a reader of the printed text sees them: the month 1-based. */
  datatype Printed = Printed(hours: nat, minutes: nat, day: nat, month: nat, year: int)

  // ---------------------------------------------------------------- decimals

  predicate IsDigit(c: char) {
    '0' <= c <= '9'
  }

  predicate AllDigits(s: string) {
    forall i :: 0 <= i < |s| ==> IsDigit(s[i])
  }

  function DigitChar(d: nat): (c: char)
    requires d < 10
    ensures IsDigit(c)
  {
    ('0' as int + d) as char
  }

  function DigitValue(c: char): nat
    requires IsDigit(c)
  {
    c as int - '0' as int
  }

  /** `String(n)` for a non-negative integer: its decimal digits, without leading zeros. */
  function NatToDecimal(n: nat): (r: string)
    ensures AllDigits(r)
    ensures |r| >= 1 && (|r| == 1 || r[0] != '0')
    ensures n < 10 <==> |r| == 1
    ensures n < 100 <==> |r| <= 2
  {
    if n < 10 then [DigitChar(n)] else NatToDecimal(n / 10) + [DigitChar(n % 10)]
  }

  /** `String(n)` for any integer: a minus sign before the digits of a negative one. */
  function IntToDecimal(n: int): (r: string)
    ensures |r| >= 1
    ensures n >= 0 ==> AllDigits(r)
    ensures n < 0 ==> r[0] == '-' && AllDigits(r[1..])
  {
    if n < 0 then "-" + NatToDecimal(-n) else NatToDecimal(n)
  }

  /** The number a string of decimal digits denotes. */
  function DecimalValue(s: string): nat
    requires AllDigits(s)
  {
    if s == [] then 0 else DecimalValue(s[..|s| - 1]) * 10 + DigitValue(s[|s| - 1])
  }

  /** Reading back the printed digits gives the number. */
  lemma {:induction false} NatToDecimalRoundTrip(n: nat)
    ensures DecimalValue(NatToDecimal(n)) == n
  {
    if n >= 10 {
      var r := NatToDecimal(n);
      NatToDecimalRoundTrip(n / 10);
      assert r[..|r| - 1] == NatToDecimal(n / 10);
    }
  }

  /** A leading zero does not change the value of a digit string. */
  lemma LeadingZero(s: string)
    requires AllDigits(s)
    ensures AllDigits("0" + s) && DecimalValue("0" + s) == DecimalValue(s)
    decreases |s|
  {
    if s != [] {
      assert ("0" + s)[..|s|] == "0" + s[..|s| - 1];
      LeadingZero(s[..|s| - 1]);
    }
  }

  /** A signed decimal, as `String(n)` prints it, read back. */
  function ParseInt(s: string): Option<int> {
    if |s| >= 2 && s[0] == '-' && AllDigits(s[1..]) then Some(0 - DecimalValue(s[1..]))
    else if |s| >= 1 && AllDigits(s) then Some(DecimalValue(s))
    else None
  }

  lemma IntToDecimalRoundTrip(n: int)
    ensures ParseInt(IntToDecimal(n)) == Some(n)
  {
    var s := IntToDecimal(n);
    if n < 0 {
      var digits := NatToDecimal(-n);
      assert DecimalValue(digits) == -n by {
        NatToDecimalRoundTrip(-n);
      }
      assert s[1..] == digits;
    } else {
      assert DecimalValue(s) == n by {
        NatToDecimalRoundTrip(n);
      }
      assert IsDigit(s[0]);
    }
  }

  // -------------------------------------------------------------- padding

  /** `s.padStart(targetLength, fill)` with a one-character `fill`. */
  function PadStart(s: string, targetLength: nat, fill: char): (r: string)
    ensures |r| == if |s| >= targetLength then |s| else targetLength
    ensures r[|r| - |s|..] == s
    ensures forall i :: 0 <= i < |r| - |s| ==> r[i] == fill
  {
    if |s| >= targetLength then s else seq(targetLength - |s|, _ => fill) + s
  }

  /** `String(n).padStart(2, '0')`. */
  function TwoDigits(n: int): string {
    PadStart(IntToDecimal(n), 2, '0')
  }

  /** A number below 100 prints as exactly two digits that read back as the number. */
  lemma TwoDigitsRoundTrip(n: int)
    requires 0 <= n < 100
    ensures |TwoDigits(n)| == 2 && AllDigits(TwoDigits(n))
    ensures n < 10 <==> TwoDigits(n)[0] == '0'
    ensures DecimalValue(TwoDigits(n)) == n
  {
    var s := NatToDecimal(n);
    NatToDecimalRoundTrip(n);
    if |s| == 1 {
      assert TwoDigits(n) == "0" + s;
      LeadingZero(s);
    } else {
      assert TwoDigits(n) == s;
    }
  }

  // ----------------------------------------------------------------- format

  /** `formatDateTime(date)`: `HH:MM DD/MM/YYYY`, the month printed 1-based. */
  function FormatDateTime(d: LocalDateTime): string {
    Template(TwoDigits(d.hours), TwoDigits(d.minutes), TwoDigits(d.day), TwoDigits(d.month0 + 1), IntToDecimal(d.year))
  }

  /** The template literal `${hours}:${minutes} ${day}/${month}/${year}`. */
  function Template(hours: string, minutes: string, day: string, month: string, year: string): string {
    hours + ":" + minutes + " " + day + "/" + month + "/" + year
  }

  /** Where the pieces of `HH:MM DD/MM/YYYY` sit once each padded field has two characters. */
  lemma Layout(hh: string, mm: string, dd: string, mo: string, yyyy: string)
    requires |hh| == 2 && |mm| == 2 && |dd| == 2 && |mo| == 2
    ensures var r := Template(hh, mm, dd, mo, yyyy);
      && |r| == 12 + |yyyy|
      && r[0..2] == hh && r[2] == ':' && r[3..5] == mm && r[5] == ' '
      && r[6..8] == dd && r[8] == '/' && r[9..11] == mo && r[11] == '/'
      && r[12..] == yyyy
  {
    var prefix := hh + ":" + mm + " " + dd + "/" + mo + "/";
    assert hh + ":" + mm + " " + dd + "/" + mo + "/" + yyyy == prefix + yyyy;
    assert prefix[0..2] == hh && prefix[3..5] == mm && prefix[6..8] == dd && prefix[9..11] == mo;
  }

  /**
   * For a date the getters can produce, the text is four two-character
   * fields and the year, at fixed places between the separators.
   */
  lemma FormatDateTimeLayout(d: LocalDateTime)
    requires InGetterRange(d)
    ensures var r := FormatDateTime(d);
      && |r| == 12 + |IntToDecimal(d.year)|
      && r[0..2] == TwoDigits(d.hours) && r[2] == ':'
      && r[3..5] == TwoDigits(d.minutes) && r[5] == ' '
      && r[6..8] == TwoDigits(d.day) && r[8] == '/'
      && r[9..11] == TwoDigits(d.month0 + 1) && r[11] == '/'
      && r[12..] == IntToDecimal(d.year)
  {
    var hh, mm, dd, mo := TwoDigits(d.hours), TwoDigits(d.minutes), TwoDigits(d.day), TwoDigits(d.month0 + 1);
    var yyyy := IntToDecimal(d.year);
    assert FormatDateTime(d) == Template(hh, mm, dd, mo, yyyy);
    assert |hh| == 2 && |mm| == 2 && |dd| == 2 && |mo| == 2 by {
      PaddedFields(d);
    }
    Layout(hh, mm, dd, mo, yyyy);
  }

  /** The four padded fields of a date the getters can produce. */
  lemma PaddedFields(d: LocalDateTime)
    requires InGetterRange(d)
    ensures |TwoDigits(d.hours)| == 2 && AllDigits(TwoDigits(d.hours)) && DecimalValue(TwoDigits(d.hours)) == d.hours
    ensures |TwoDigits(d.minutes)| == 2 && AllDigits(TwoDigits(d.minutes)) && DecimalValue(TwoDigits(d.minutes)) == d.minutes
    ensures |TwoDigits(d.day)| == 2 && AllDigits(TwoDigits(d.day)) && DecimalValue(TwoDigits(d.day)) == d.day
    ensures |TwoDigits(d.month0 + 1)| == 2 && AllDigits(TwoDigits(d.month0 + 1))
    ensures DecimalValue(TwoDigits(d.month0 + 1)) == d.month0 + 1
  {
    TwoDigitsRoundTrip(d.hours);
    TwoDigitsRoundTrip(d.minutes);
    TwoDigitsRoundTrip(d.day);
    TwoDigitsRoundTrip(d.month0 + 1);
  }

  /** Reads `HH:MM DD/MM/YYYY` back into its fields. */
  function ParseDateTime(s: string): Option<Printed> {
    if |s| >= 13 && s[2] == ':' && s[5] == ' ' && s[8] == '/' && s[11] == '/'
       && AllDigits(s[0..2]) && AllDigits(s[3..5]) && AllDigits(s[6..8]) && AllDigits(s[9..11])
       && ParseInt(s[12..]).Some?
    then Some(Printed(DecimalValue(s[0..2]), DecimalValue(s[3..5]), DecimalValue(s[6..8]),
                      DecimalValue(s[9..11]), ParseInt(s[12..]).value))
    else None
  }

  /** Any filling of the template with two-digit fields and a signed year reads back field by field. */
  lemma ParseTemplate(hh: string, mm: string, dd: string, mo: string, yyyy: string)
    requires |hh| == 2 && |mm| == 2 && |dd| == 2 && |mo| == 2
    requires AllDigits(hh) && AllDigits(mm) && AllDigits(dd) && AllDigits(mo) && ParseInt(yyyy).Some?
    ensures ParseDateTime(Template(hh, mm, dd, mo, yyyy))
         == Some(Printed(DecimalValue(hh), DecimalValue(mm), DecimalValue(dd), DecimalValue(mo), ParseInt(yyyy).value))
  {
    Layout(hh, mm, dd, mo, yyyy);
  }

  /**
   * For any date the getters can produce, the text holds the hours,
   * minutes, day, month plus one and year, each recoverable exactly.
   */
  lemma FormatDateTimeRoundTrip(d: LocalDateTime)
    requires InGetterRange(d)
    ensures ParseDateTime(FormatDateTime(d)) == Some(Printed(d.hours, d.minutes, d.day, d.month0 + 1, d.year))
  {
    var hh, mm, dd, mo := TwoDigits(d.hours), TwoDigits(d.minutes), TwoDigits(d.day), TwoDigits(d.month0 + 1);
    var yyyy := IntToDecimal(d.year);
    assert FormatDateTime(d) == Template(hh, mm, dd, mo, yyyy);
    assert ParseDateTime(Template(hh, mm, dd, mo, yyyy))
        == Some(Printed(d.hours, d.minutes, d.day, d.month0 + 1, d.year)) by {
      PaddedFields(d);
      IntToDecimalRoundTrip(d.year);
      ParseTemplate(hh, mm, dd, mo, yyyy);
    }
  }

  /** A morning in January: hours, minutes and day padded, month shifted, year as is. */
  lemma FormatDateTimeExample()
    ensures FormatDateTime(LocalDateTime(9, 5, 3, 0, 2024)) == "09:05 03/01/2024"
  {
  }

}
