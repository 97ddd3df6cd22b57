/**
 * Wall-clock readings and the two `strftime` renderings the program makes of
 * them: the record time "%Y-%m-%d %H:%M:%S" and the compact "%Y%m%d%H%M%S"
 * that names an export file.
 */
module Clock {
  import opened Numerals
  import opened Text

  /** What `datetime.now()` returns; the microsecond never reaches either rendering. */
  datatype DateTime = DateTime(year: nat, month: nat, day: nat, hour: nat, minute: nat, second: nat, microsecond: nat)

  predicate IsLeapYear(year: nat) {
    year % 4 == 0 && (year % 100 != 0 || year % 400 == 0)
  }

  function DaysInMonth(year: nat, month: nat): nat
    requires 1 <= month <= 12
  {
    if month == 2 then (if IsLeapYear(year) then 29 else 28)
    else if month == 4 || month == 6 || month == 9 || month == 11 then 30
    else 31
  }

  /** The range of values a Python `datetime` can hold. */
  predicate Valid(t: DateTime) {
    && 1 <= t.year <= 9999
    && 1 <= t.month <= 12
    && 1 <= t.day <= DaysInMonth(t.year, t.month)
    && t.hour < 24 && t.minute < 60 && t.second < 60
    && t.microsecond < 1000000
  }

  /** Two readings within the same second. */
  predicate SameSecond(a: DateTime, b: DateTime) {
    a.year == b.year && a.month == b.month && a.day == b.day
    && a.hour == b.hour && a.minute == b.minute && a.second == b.second
  }

  /** `%Y-%m-%d` */
  function DatePart(t: DateTime): string
    requires Valid(t)
  {
    Pad(t.year, 4) + "-" + Pad(t.month, 2) + "-" + Pad(t.day, 2)
  }

  /** `%H:%M:%S`, the only part the on-screen history shows. */
  function ClockPart(t: DateTime): string
    requires Valid(t)
  {
    Pad(t.hour, 2) + ":" + Pad(t.minute, 2) + ":" + Pad(t.second, 2)
  }

  /** The record time, `strftime("%Y-%m-%d %H:%M:%S")`. */
  function RecordTime(t: DateTime): string
    requires Valid(t)
  {
    DatePart(t) + " " + ClockPart(t)
  }

  /** The export time stamp, `strftime('%Y%m%d%H%M%S')`. */
  function Stamp(t: DateTime): string
    requires Valid(t)
  {
    Pad(t.year, 4) + Pad(t.month, 2) + Pad(t.day, 2) + Pad(t.hour, 2) + Pad(t.minute, 2) + Pad(t.second, 2)
  }

  const ExportPrefix: string := "返利记录_"
  const ExportSuffix: string := ".xlsx"

  /** The name an export is written under. */
  function ExportFileName(t: DateTime): string
    requires Valid(t)
  {
    ExportPrefix + Stamp(t) + ExportSuffix
  }

  /** Reads a compact time stamp back into its six fields (the microsecond is lost). */
  function ReadStamp(s: string): DateTime
    requires |s| == 14 && AllDigits(s)
  {
    DateTime(DigitsValue(s[0..4]), DigitsValue(s[4..6]), DigitsValue(s[6..8]),
             DigitsValue(s[8..10]), DigitsValue(s[10..12]), DigitsValue(s[12..14]), 0)
  }

  /** The stamp is fourteen digits from which the reading is recovered to the second. */
  lemma {:induction false} StampRoundTrip(t: DateTime)
    requires Valid(t)
    ensures |Stamp(t)| == 14 && AllDigits(Stamp(t))
    ensures SameSecond(ReadStamp(Stamp(t)), t)
  {
    var y, mo, d := Pad(t.year, 4), Pad(t.month, 2), Pad(t.day, 2);
    var h, mi, s := Pad(t.hour, 2), Pad(t.minute, 2), Pad(t.second, 2);
    var st := Stamp(t);
    assert st[0..4] == y;
    assert st[4..6] == mo;
    assert st[6..8] == d;
    assert st[8..10] == h;
    assert st[10..12] == mi;
    assert st[12..14] == s;
  }

  /** Two exports get the same file name exactly when they happen within the same second. */
  lemma {:induction false} ExportFileNameCollides(a: DateTime, b: DateTime)
    requires Valid(a) && Valid(b)
    ensures ExportFileName(a) == ExportFileName(b) <==> SameSecond(a, b)
  {
    StampRoundTrip(a);
    StampRoundTrip(b);
    if ExportFileName(a) == ExportFileName(b) {
      var n := |ExportPrefix|;
      assert Stamp(a) == ExportFileName(a)[n..n + 14];
      assert Stamp(b) == ExportFileName(b)[n..n + 14];
    }
  }

  /** The file name is the prefix, fourteen digits, and the spreadsheet extension. */
  lemma {:induction false} ExportFileNameShape(t: DateTime)
    requires Valid(t)
    ensures var name := ExportFileName(t);
            |name| == |ExportPrefix| + 14 + |ExportSuffix|
            && name[..|ExportPrefix|] == ExportPrefix
            && AllDigits(name[|ExportPrefix|..|ExportPrefix| + 14])
            && name[|ExportPrefix| + 14..] == ExportSuffix
  {
    StampRoundTrip(t);
    var name := ExportFileName(t);
    assert name[|ExportPrefix|..|ExportPrefix| + 14] == Stamp(t);
  }

  /** `RecordTime(t).split(" ")` is the date and the time of day, so index 1 is the clock part. */
  lemma {:induction false} RecordTimeFields(t: DateTime)
    requires Valid(t)
    ensures Split(RecordTime(t), ' ') == [DatePart(t), ClockPart(t)]
  {
    NoSpaceInPadded(t);
    SplitAtFirst(DatePart(t), ' ', ClockPart(t));
    SplitNoSeparator(ClockPart(t), ' ');
    assert RecordTime(t) == DatePart(t) + [' '] + ClockPart(t);
  }

  lemma {:induction false} NoSpaceInPadded(t: DateTime)
    requires Valid(t)
    ensures forall i :: 0 <= i < |DatePart(t)| ==> DatePart(t)[i] != ' '
    ensures forall i :: 0 <= i < |ClockPart(t)| ==> ClockPart(t)[i] != ' '
  {
    var y, mo, d := Pad(t.year, 4), Pad(t.month, 2), Pad(t.day, 2);
    var h, mi, s := Pad(t.hour, 2), Pad(t.minute, 2), Pad(t.second, 2);
    assert forall i :: 0 <= i < |DatePart(t)| ==> DatePart(t)[i] == '-' || IsDigit(DatePart(t)[i]);
    assert forall i :: 0 <= i < |ClockPart(t)| ==> ClockPart(t)[i] == ':' || IsDigit(ClockPart(t)[i]);
  }
}
