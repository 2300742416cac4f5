/**
 * Calendar timestamps and the two textual forms the engine uses: the
 * `%Y<sep>%m` destination partition and the EXIF `%Y:%m:%d %H:%M:%S`
 * capture string.
 */
module Clock {
  import opened Results
  import opened PyText

  /** Python's naive `datetime`. */
  datatype DateTime = DateTime(year: nat, month: nat, day: nat,
                               hour: nat, minute: nat, second: nat, microsecond: nat)

  predicate IsLeapYear(y: nat)
  {
    y % 4 == 0 && (y % 100 != 0 || y % 400 == 0)
  }

  function DaysInMonth(y: nat, m: nat): nat
  {
    if m == 2 then (if IsLeapYear(y) then 29 else 28)
    else if m == 4 || m == 6 || m == 9 || m == 11 then 30
    else 31
  }

  /** The field ranges Python's `datetime` constructor accepts. */
  predicate ValidDateTime(dt: DateTime)
  {
    && 1 <= dt.year <= 9999
    && 1 <= dt.month <= 12
    && 1 <= dt.day <= DaysInMonth(dt.year, dt.month)
    && dt.hour < 24 && dt.minute < 60 && dt.second < 60
    && dt.microsecond < 1000000
  }

  /** `strftime("%Y" + sep + "%m")`: the year/month destination partition. */
  function Partition(dt: DateTime, sep: char): string
  {
    ZFill(dt.year, 4) + [sep] + ZFill(dt.month, 2)
  }

  /**
   * A partition is seven characters: the four-digit year, the separator
   * and the two-digit month, each readable back.
   */
  lemma PartitionFields(dt: DateTime, sep: char)
    requires ValidDateTime(dt)
    ensures var s := Partition(dt, sep);
      && |s| == 7 && s[4] == sep
      && AllDigits(s[..4]) && Value(s[..4]) == dt.year
      && AllDigits(s[5..]) && Value(s[5..]) == dt.month
  {
    var s := Partition(dt, sep);
    ZFillExactWidth(dt.year, 4);
    ZFillExactWidth(dt.month, 2);
    assert s[..4] == ZFill(dt.year, 4);
    assert s[5..] == ZFill(dt.month, 2);
    ZFillValue(dt.year, 4);
    ZFillValue(dt.month, 2);
  }

  /** Different months or years never share a partition. */
  lemma PartitionInjective(a: DateTime, b: DateTime, sep: char)
    requires ValidDateTime(a) && ValidDateTime(b)
    requires Partition(a, sep) == Partition(b, sep)
    ensures a.year == b.year && a.month == b.month
  {
    PartitionFields(a, sep);
    PartitionFields(b, sep);
  }

  /** `a c1 b c2 d` with a p-character first field and two-character other fields. */
  function Triple(a: string, c1: char, b: string, c2: char, d: string): string
  {
    a + [c1] + b + [c2] + d
  }

  /** Where the three fields and two separators of a triple sit. */
  lemma TripleFields(a: string, c1: char, b: string, c2: char, d: string)
    requires |b| == 2 && |d| == 2
    ensures var s, p := Triple(a, c1, b, c2, d), |a|;
      && |s| == p + 6 && s[0..p] == a && s[p] == c1 && s[p + 1..p + 3] == b
      && s[p + 3] == c2 && s[p + 4..p + 6] == d
  {
    var s, p := Triple(a, c1, b, c2, d), |a|;
    assert s[0..p] == a && s[p + 1..p + 3] == b && s[p + 4..p + 6] == d;
  }

  /** The EXIF `DateTimeOriginal` text of a timestamp: `YYYY:MM:DD HH:MM:SS`. */
  function ExifString(dt: DateTime): string
  {
    Triple(ZFill(dt.year, 4), ':', ZFill(dt.month, 2), ':', ZFill(dt.day, 2)) + " "
    + Triple(ZFill(dt.hour, 2), ':', ZFill(dt.minute, 2), ':', ZFill(dt.second, 2))
  }

  /** Whether `s` has the fixed-width shape `DDDD:DD:DD DD:DD:DD`. */
  predicate ExifShaped(s: string)
  {
    && |s| == 19
    && AllDigits(s[0..4]) && s[4] == ':' && AllDigits(s[5..7]) && s[7] == ':'
    && AllDigits(s[8..10]) && s[10] == ' ' && AllDigits(s[11..13]) && s[13] == ':'
    && AllDigits(s[14..16]) && s[16] == ':' && AllDigits(s[17..19])
  }

  /**
   * `datetime.strptime(s, "%Y:%m:%d %H:%M:%S")` on the fixed-width form:
   * None stands for the ValueError raised on a malformed string or an
   * impossible date.
   */
  function ParseExif(s: string): (r: Option<DateTime>)
    ensures r.Some? ==> ValidDateTime(r.value) && r.value.microsecond == 0
    ensures r.Some? ==> ExifShaped(s)
  {
    if !ExifShaped(s) then None
    else
      var dt := DateTime(Value(s[0..4]), Value(s[5..7]), Value(s[8..10]),
                         Value(s[11..13]), Value(s[14..16]), Value(s[17..19]), 0);
      if ValidDateTime(dt) then Some(dt) else None
  }

  /** The date half of an EXIF string reads back as year, month and day. */
  lemma ExifDateFields(dt: DateTime)
    requires ValidDateTime(dt)
    ensures var t := Triple(ZFill(dt.year, 4), ':', ZFill(dt.month, 2), ':', ZFill(dt.day, 2));
      && |t| == 10 && t[4] == ':' && t[7] == ':'
      && AllDigits(t[0..4]) && AllDigits(t[5..7]) && AllDigits(t[8..10])
      && Value(t[0..4]) == dt.year && Value(t[5..7]) == dt.month && Value(t[8..10]) == dt.day
  {
    ZFillExactWidth(dt.year, 4);
    ZFillExactWidth(dt.month, 2);
    ZFillExactWidth(dt.day, 2);
    ZFillValue(dt.year, 4);
    ZFillValue(dt.month, 2);
    ZFillValue(dt.day, 2);
    TripleFields(ZFill(dt.year, 4), ':', ZFill(dt.month, 2), ':', ZFill(dt.day, 2));
  }

  /** The time half of an EXIF string reads back as hour, minute and second. */
  lemma ExifTimeFields(dt: DateTime)
    requires ValidDateTime(dt)
    ensures var t := Triple(ZFill(dt.hour, 2), ':', ZFill(dt.minute, 2), ':', ZFill(dt.second, 2));
      && |t| == 8 && t[2] == ':' && t[5] == ':'
      && AllDigits(t[0..2]) && AllDigits(t[3..5]) && AllDigits(t[6..8])
      && Value(t[0..2]) == dt.hour && Value(t[3..5]) == dt.minute && Value(t[6..8]) == dt.second
  {
    ZFillExactWidth(dt.hour, 2);
    ZFillExactWidth(dt.minute, 2);
    ZFillExactWidth(dt.second, 2);
    ZFillValue(dt.hour, 2);
    ZFillValue(dt.minute, 2);
    ZFillValue(dt.second, 2);
    TripleFields(ZFill(dt.hour, 2), ':', ZFill(dt.minute, 2), ':', ZFill(dt.second, 2));
  }

  /** A date half and a time half joined by a space have the EXIF shape, and each field sits where the parser reads it. */
  lemma ExifJoin(date: string, time: string)
    requires |date| == 10 && date[4] == ':' && date[7] == ':'
    requires AllDigits(date[0..4]) && AllDigits(date[5..7]) && AllDigits(date[8..10])
    requires |time| == 8 && time[2] == ':' && time[5] == ':'
    requires AllDigits(time[0..2]) && AllDigits(time[3..5]) && AllDigits(time[6..8])
    ensures var s := date + " " + time;
      && ExifShaped(s)
      && s[0..4] == date[0..4] && s[5..7] == date[5..7] && s[8..10] == date[8..10]
      && s[11..13] == time[0..2] && s[14..16] == time[3..5] && s[17..19] == time[6..8]
  {
    var s := date + " " + time;
    assert s[0..4] == date[0..4] && s[5..7] == date[5..7] && s[8..10] == date[8..10];
    assert s[11..13] == time[0..2] && s[14..16] == time[3..5] && s[17..19] == time[6..8];
  }

  /** Parsing the EXIF text of a whole-second timestamp gives that timestamp back. */
  lemma ExifRoundTrip(dt: DateTime)
    requires ValidDateTime(dt) && dt.microsecond == 0
    ensures ParseExif(ExifString(dt)) == Some(dt)
  {
    var date := Triple(ZFill(dt.year, 4), ':', ZFill(dt.month, 2), ':', ZFill(dt.day, 2));
    var time := Triple(ZFill(dt.hour, 2), ':', ZFill(dt.minute, 2), ':', ZFill(dt.second, 2));
    ExifDateFields(dt);
    ExifTimeFields(dt);
    ExifJoin(date, time);
  }

  lemma SampleYear()
    ensures ZFill(2019, 4) == "2019"
  {
    assert Digits(20) == "20" && Digits(201) == "201" && Digits(2019) == "2019";
  }

  lemma SampleTwoDigitFields()
    ensures ZFill(4, 2) == "04" && ZFill(17, 2) == "17"
    ensures ZFill(11, 2) == "11" && ZFill(44, 2) == "44" && ZFill(37, 2) == "37"
  {
  }

  /** The sample capture string of the repository's tests is the EXIF text of 2019-04-17 11:44:37. */
  lemma SampleExifString()
    ensures ExifString(DateTime(2019, 4, 17, 11, 44, 37, 0)) == "2019:04:17 11:44:37"
  {
    SampleYear();
    SampleTwoDigitFields();
    assert Triple("2019", ':', "04", ':', "17") == "2019:04:17";
    assert Triple("11", ':', "44", ':', "37") == "11:44:37";
  }

  /** That sample string parses to 2019-04-17 11:44:37. */
  lemma SampleCaptureString()
    ensures ParseExif("2019:04:17 11:44:37") == Some(DateTime(2019, 4, 17, 11, 44, 37, 0))
  {
    ExifRoundTrip(DateTime(2019, 4, 17, 11, 44, 37, 0));
    SampleExifString();
  }
}
