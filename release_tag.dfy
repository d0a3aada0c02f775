/** check_release_tag: a release of the build project is named by its date
    as YYYYMMDD, and only a real calendar date is accepted. */
module ReleaseTag {
  import opened Wrappers
  import opened Versions

  /** The two messages check_release_tag returns: not eight digits
      ("must be a YYYYMMDD string"), or eight digits that are no date
      ("must be a YYYYMMDD date string"). */
  datatype TagError = NotEightDigits | NotADate

  /** len(SAMPL_RELEASE), the length of a sample tag such as 20240415. */
  const TagLength: nat := 8

  function Pow10(w: nat): nat {
    if w == 0 then 1 else 10 * Pow10(w - 1)
  }

  function DigitValue(c: char): (v: nat)
    requires IsDigit(c)
    ensures v < 10
  {
    c as int - '0' as int
  }

  /** The number a run of decimal digits spells. */
  function DigitsValue(s: string): nat
    requires forall i :: 0 <= i < |s| ==> IsDigit(s[i])
  {
    if s == [] then 0 else DigitsValue(s[..|s| - 1]) * 10 + DigitValue(s[|s| - 1])
  }

  /** n written with exactly w decimal digits, zero-padded on the left. */
  function Pad(n: nat, w: nat): (s: string)
    ensures |s| == w && forall i :: 0 <= i < |s| ==> IsDigit(s[i])
  {
    if w == 0 then "" else Pad(n / 10, w - 1) + [('0' as int + n % 10) as char]
  }

  predicate IsLeapYear(y: int) {
    y % 4 == 0 && (y % 100 != 0 || y % 400 == 0)
  }

  function DaysInMonth(y: int, m: int): int
    requires 1 <= m <= 12
  {
    if m == 2 then (if IsLeapYear(y) then 29 else 28)
    else if m == 4 || m == 6 || m == 9 || m == 11 then 30
    else 31
  }

  /** What `datetime.date` accepts: a year from 1 to 9999, a month and a day
      of that month, with February 29 only in leap years. */
  predicate IsCalendarDate(y: int, m: int, d: int) {
    1 <= y <= 9999 && 1 <= m <= 12 && 1 <= d <= DaysInMonth(y, m)
  }

  /** The tag of a date, as the build project names its releases. */
  function FormatTag(y: nat, m: nat, d: nat): string {
    Pad(y, 4) + Pad(m, 2) + Pad(d, 2)
  }

  /** check_release_tag: `isdigit()` and length 8 first, then the date
      `YYYY-MM-DD` those digits spell must exist. */
  function CheckReleaseTag(release: string): (r: Option<TagError>)
    ensures r == Some(NotEightDigits) <==> !(|release| == TagLength && AllDigits(release))
  {
    if !AllDigits(release) || |release| != TagLength then Some(NotEightDigits)
    else if !IsCalendarDate(DigitsValue(release[..4]), DigitsValue(release[4..6]), DigitsValue(release[6..]))
    then Some(NotADate)
    else None
  }

  lemma {:induction false} PadValue(n: nat, w: nat)
    requires n < Pow10(w)
    ensures DigitsValue(Pad(n, w)) == n
  {
    if w > 0 {
      PadValue(n / 10, w - 1);
      var s := Pad(n, w);
      assert s[..|s| - 1] == Pad(n / 10, w - 1);
    }
  }

  lemma {:induction false} PadDigits(s: string)
    requires forall i :: 0 <= i < |s| ==> IsDigit(s[i])
    ensures Pad(DigitsValue(s), |s|) == s
  {
    if s != [] {
      var s' := s[..|s| - 1];
      var d := DigitValue(s[|s| - 1]);
      PadDigits(s');
      var v := DigitsValue(s);
      assert v == DigitsValue(s') * 10 + d;
      assert v / 10 == DigitsValue(s') && v % 10 == d;
      assert s == s' + [s[|s| - 1]];
    }
  }

  /** Every calendar date's tag passes the check, and its three fields read
      back as the date. */
  lemma FormattedDateAccepted(y: nat, m: nat, d: nat)
    requires IsCalendarDate(y, m, d)
    ensures CheckReleaseTag(FormatTag(y, m, d)).None?
    ensures var t := FormatTag(y, m, d);
            DigitsValue(t[..4]) == y && DigitsValue(t[4..6]) == m && DigitsValue(t[6..]) == d
  {
    var t := FormatTag(y, m, d);
    assert t[..4] == Pad(y, 4) && t[4..6] == Pad(m, 2) && t[6..] == Pad(d, 2);
    PadValue(y, 4);
    PadValue(m, 2);
    PadValue(d, 2);
  }

  /** Every tag the check accepts is the tag of a calendar date: the check
      accepts exactly the eight-digit renderings of real dates. */
  lemma AcceptedIsDate(release: string)
    requires CheckReleaseTag(release).None?
    ensures var y, m, d := DigitsValue(release[..4]), DigitsValue(release[4..6]), DigitsValue(release[6..]);
            IsCalendarDate(y, m, d) && release == FormatTag(y, m, d)
  {
    PadDigits(release[..4]);
    PadDigits(release[4..6]);
    PadDigits(release[6..]);
    assert release == release[..4] + release[4..6] + release[6..];
  }

  lemma YearValue()
    ensures DigitsValue("2024") == 2024
  {
    assert "2024"[..3] == "202" && "202"[..2] == "20" && "20"[..1] == "2" && "2"[..0] == "";
  }

  /** A sample tag of the build project passes the check. */
  lemma SampleTagAccepted()
    ensures CheckReleaseTag("20240415").None?
  {
    var t := "20240415";
    assert AllDigits(t) by { assert forall i :: 0 <= i < |t| ==> t[i] in "0123456789"; }
    assert t[..4] == "2024" && t[4..6] == "04" && t[6..] == "15";
    YearValue();
    assert DigitsValue("04") == 4 by { assert "04"[..1] == "0" && "0"[..0] == ""; }
    assert DigitsValue("15") == 15 by { assert "15"[..1] == "1" && "1"[..0] == ""; }
  }

  /** February 29 passes in a leap year. */
  lemma LeapDayAccepted()
    ensures CheckReleaseTag("20240229").None?
  {
    var t := "20240229";
    assert AllDigits(t) by { assert forall i :: 0 <= i < |t| ==> t[i] in "0123456789"; }
    assert t[..4] == "2024" && t[4..6] == "02" && t[6..] == "29";
    YearValue();
    assert DigitsValue("02") == 2 by { assert "02"[..1] == "0" && "0"[..0] == ""; }
    assert DigitsValue("29") == 29 by { assert "29"[..1] == "2" && "2"[..0] == ""; }
  }

  /** February 29 of a common year is eight digits but no date. */
  lemma CommonYearLeapDayRejected()
    ensures CheckReleaseTag("20230229") == Some(NotADate)
  {
    var t := "20230229";
    assert AllDigits(t) by { assert forall i :: 0 <= i < |t| ==> t[i] in "0123456789"; }
    assert t[..4] == "2023" && t[4..6] == "02" && t[6..] == "29";
    assert DigitsValue("2023") == 2023 by {
      assert "2023"[..3] == "202" && "202"[..2] == "20" && "20"[..1] == "2" && "2"[..0] == "";
    }
    assert DigitsValue("02") == 2 by { assert "02"[..1] == "0" && "0"[..0] == ""; }
  }

  /** Year 0 is no date. */
  lemma YearZeroRejected()
    ensures CheckReleaseTag("00000101") == Some(NotADate)
  {
    var z := "00000101";
    assert AllDigits(z) by { assert forall i :: 0 <= i < |z| ==> z[i] in "01"; }
    assert z[..4] == "0000";
    assert DigitsValue("0000") == 0 by {
      assert "0000"[..3] == "000" && "000"[..2] == "00" && "00"[..1] == "0" && "0"[..0] == "";
    }
  }

  /** Seven digits, or a date written with dashes, are not eight digits. */
  lemma MalformedTagsRejected()
    ensures CheckReleaseTag("2024041") == Some(NotEightDigits)
    ensures CheckReleaseTag("2024-4-1") == Some(NotEightDigits)
  {
    assert !IsDigit("2024-4-1"[4]);
  }
}
