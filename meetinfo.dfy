/** org.gcsl.model.MeetInfo: the date and name of a meet, read from a meet record. */
module MeetInfos {
  import opened Base
  import opened JavaString
  import Utils
  import SR = SdifRecs

  /** A java.time.LocalDate of the common era. */
  datatype Date = Date(year: int, month: int, day: int)

  predicate IsLeap(year: int) {
    year % 4 == 0 && (year % 100 != 0 || year % 400 == 0)
  }

  function MonthLength(year: int, month: int): (n: int)
    ensures 28 <= n <= 31
  {
    if month == 2 then (if IsLeap(year) then 29 else 28)
    else if month in {4, 6, 9, 11} then 30
    else 31
  }

  predicate ValidDate(d: Date) {
    1 <= d.year <= 9999 && 1 <= d.month <= 12 && 1 <= d.day <= MonthLength(d.year, d.month)
  }

  function DigitValue(c: char): int { c as int - '0' as int }

  predicate AllDigits(s: string) {
    forall i :: 0 <= i < |s| ==> IsDigit(s[i])
  }

  /** The number a run of decimal digits spells. */
  function Number(s: string): (n: nat)
    requires AllDigits(s)
  {
    if s == [] then 0 else Number(s[..|s| - 1]) * 10 + DigitValue(s[|s| - 1])
  }

  /** LocalDate.parse(text, ofPattern("MMddyyyy")): exactly eight digits, month 1..12, day 1..31, year at least 1;
      the default SMART resolution then moves a day past the end of its month back to the month's last day. */
  function ParseMMddyyyy(s: string): (r: Result<Date>)
    ensures r.Err? ==> r.error == DateTimeParse
    ensures r.Ok? ==> ValidDate(r.value)
    ensures r.Ok? ==> |s| == 8 && AllDigits(s)
    ensures r.Ok? ==> r.value.month == Number(s[..2]) && r.value.year == Number(s[4..])
    ensures r.Ok? ==> r.value.day <= Number(s[2..4]) && (r.value.day < Number(s[2..4]) ==> r.value.day == MonthLength(r.value.year, r.value.month))
  {
    if |s| != 8 || !AllDigits(s) then Err(DateTimeParse)
    else
      var month := Number(s[..2]);
      var day := Number(s[2..4]);
      var year := Number(s[4..]);
      NumberBound(s[..2]);
      NumberBound(s[4..]);
      if month < 1 || month > 12 || day < 1 || day > 31 || year < 1 then Err(DateTimeParse)
      else
        var last := MonthLength(year, month);
        Ok(Date(year, month, if day <= last then day else last))
  }

  lemma NumberOfTwo(s: string)
    requires |s| == 2 && AllDigits(s)
    ensures Number(s) == 10 * DigitValue(s[0]) + DigitValue(s[1])
  {
    var p := s[..1];
    assert p[..0] == [] && p[0] == s[0] && s[..|s| - 1] == p;
    assert Number(p) == Number(p[..0]) * 10 + DigitValue(p[0]);
  }

  lemma NumberOfFour(s: string)
    requires |s| == 4 && AllDigits(s)
    ensures Number(s) == 1000 * DigitValue(s[0]) + 100 * DigitValue(s[1]) + 10 * DigitValue(s[2]) + DigitValue(s[3])
  {
    var p := s[..3];
    assert p[..2] == s[..2] && p[2] == s[2] && s[..|s| - 1] == p;
    NumberOfTwo(s[..2]);
  }

  lemma {:induction false} NumberBound(s: string)
    requires AllDigits(s)
    ensures Number(s) < Pow10(|s|)
  {
    if s != [] {
      NumberBound(s[..|s| - 1]);
    }
  }

  function Pow10(n: nat): (r: nat)
    ensures r >= 1
  {
    if n == 0 then 1 else 10 * Pow10(n - 1)
  }

  /** n written with exactly width digits, leading zeros first. */
  function Digits(n: nat, width: nat): (r: string)
    ensures |r| == width && AllDigits(r)
  {
    if width == 0 then [] else Digits(n / 10, width - 1) + ['0' + (n % 10) as char]
  }

  lemma {:induction false} NumberOfDigits(n: nat, width: nat)
    requires n < Pow10(width)
    ensures Number(Digits(n, width)) == n
  {
    if width > 0 {
      var d := Digits(n, width);
      assert d[..|d| - 1] == Digits(n / 10, width - 1);
      NumberOfDigits(n / 10, width - 1);
    }
  }

  /** The date written as "MMddyyyy". */
  function FormatMMddyyyy(d: Date): (r: string)
    requires ValidDate(d)
    ensures |r| == 8 && AllDigits(r)
  {
    Digits(d.month, 2) + Digits(d.day, 2) + Digits(d.year, 4)
  }

  /** A valid date survives being written and parsed again. */
  lemma ParseFormatDate(d: Date)
    requires ValidDate(d)
    ensures ParseMMddyyyy(FormatMMddyyyy(d)) == Ok(d)
  {
    var s := FormatMMddyyyy(d);
    assert s[..2] == Digits(d.month, 2);
    assert s[2..4] == Digits(d.day, 2);
    assert s[4..] == Digits(d.year, 4);
    NumberOfDigits(d.month, 2);
    NumberOfDigits(d.day, 2);
    NumberOfDigits(d.year, 4);
  }

  /** format(ofPattern("yyyy-MM-dd")), the form meet dates are stored in. */
  function FormatIso(d: Date): (r: string)
    requires ValidDate(d)
    ensures |r| == 10 && r[4] == '-' && r[7] == '-'
  {
    Digits(d.year, 4) + "-" + Digits(d.month, 2) + "-" + Digits(d.day, 2)
  }

  /** For a text that names a real day, the stored meet date is the same text makeDateString gives. */
  lemma FormatIsoAgreesWithMakeDateString(d: Date)
    requires ValidDate(d)
    ensures FormatIso(d) == Utils.MakeDateString(FormatMMddyyyy(d))
  {
    var s := FormatMMddyyyy(d);
    assert s[4..8] == Digits(d.year, 4) && s[0..2] == Digits(d.month, 2) && s[2..4] == Digits(d.day, 2);
  }

  datatype MeetInfo = MeetInfo(date: Date, name: string)

  /** popFromSdifData: the date is trim of columns 121..129 of the B1 record, the name trim of columns 11..41.
      A date that does not parse raises DateTimeParseException, an unchecked exception, not SdifException. */
  function SdifMeetInfo(rec: SR.SdifRec): (r: Result<MeetInfo>)
    ensures |rec.data| < 129 ==> r == Err(IndexOutOfBounds)
    ensures |rec.data| >= 129 ==> r.Ok? == ParseMMddyyyy(Trim(rec.data[121..129])).Ok?
    ensures r.Err? ==> r.error in {IndexOutOfBounds, DateTimeParse}
    ensures r.Ok? ==> r.value.date == ParseMMddyyyy(Trim(rec.data[121..129])).value
    ensures r.Ok? ==> Unpadded(r.value.name) && |r.value.name| <= 30
  {
    if |rec.data| < 129 then Err(IndexOutOfBounds)
    else
      var date :- ParseMMddyyyy(Trim(rec.data[121..129]));
      Ok(MeetInfo(date, Trim(rec.data[11..41])))
  }

  /** popFromHy3Data: the date is trim of columns 92..100, the name trim of columns 2..32. */
  function Hy3MeetInfo(rec: SR.SdifRec): (r: Result<MeetInfo>)
    ensures |rec.data| < 100 ==> r == Err(IndexOutOfBounds)
    ensures |rec.data| >= 100 ==> r.Ok? == ParseMMddyyyy(Trim(rec.data[92..100])).Ok?
    ensures r.Err? ==> r.error in {IndexOutOfBounds, DateTimeParse}
    ensures r.Ok? ==> r.value.date == ParseMMddyyyy(Trim(rec.data[92..100])).value
    ensures r.Ok? ==> Unpadded(r.value.name) && |r.value.name| <= 30
  {
    if |rec.data| < 100 then Err(IndexOutOfBounds)
    else
      var date :- ParseMMddyyyy(Trim(rec.data[92..100]));
      Ok(MeetInfo(date, Trim(rec.data[2..32])))
  }

  predicate Representable(m: MeetInfo) {
    ValidDate(m.date) && Unpadded(m.name) && |m.name| <= 30
  }

  /** A B1 record holding m, blank outside the columns that are read. */
  function FormatSdifMeet(m: MeetInfo): (r: string)
    requires Representable(m)
    ensures |r| == 129 && r[..2] == "B1"
  {
    "B1" + Spaces(9) + PadRight(m.name, 30) + Spaces(80) + FormatMMddyyyy(m.date)
  }

  lemma FormatSdifMeetColumns(m: MeetInfo)
    requires Representable(m)
    ensures FormatSdifMeet(m)[11..41] == PadRight(m.name, 30)
    ensures FormatSdifMeet(m)[121..129] == FormatMMddyyyy(m.date)
  {
    var a := "B1" + Spaces(9);
    var b := a + PadRight(m.name, 30);
    var c := b + Spaces(80);
    var line := c + FormatMMddyyyy(m.date);
    assert line == FormatSdifMeet(m);
    PrefixSlice(c, FormatMMddyyyy(m.date), 11, 41);
    PrefixSlice(b, Spaces(80), 11, 41);
    assert b[11..41] == PadRight(m.name, 30);
    assert line[121..129] == FormatMMddyyyy(m.date);
  }

  lemma TrimOfDates(d: Date)
    requires ValidDate(d)
    ensures Trim(FormatMMddyyyy(d)) == FormatMMddyyyy(d)
  {
    var date := FormatMMddyyyy(d);
    assert Unpadded(date) by {
      assert IsDigit(date[0]) && IsDigit(date[7]);
    }
    TrimOfUnpadded(date);
  }

  /** Parsing a formatted B1 record gives back the meet's date and name. */
  lemma SdifMeetInfoRoundTrip(m: MeetInfo)
    requires Representable(m)
    ensures SdifMeetInfo(SR.MakeRec(FormatSdifMeet(m))) == Ok(m)
  {
    var line := FormatSdifMeet(m);
    FormatSdifMeetColumns(m);
    TrimOfPadRight(m.name, 30);
    TrimOfDates(m.date);
    ParseFormatDate(m.date);
    SdifMeetInfoOfColumns(SR.MakeRec(line), m);
  }

  lemma SdifMeetInfoOfColumns(rec: SR.SdifRec, m: MeetInfo)
    requires |rec.data| >= 129
    requires Trim(rec.data[11..41]) == m.name
    requires ParseMMddyyyy(Trim(rec.data[121..129])) == Ok(m.date)
    ensures SdifMeetInfo(rec) == Ok(m)
  {
  }

  /** A HY3 meet record holding m, blank outside the columns that are read. */
  function FormatHy3Meet(m: MeetInfo): (r: string)
    requires Representable(m)
    ensures |r| == 100
  {
    "B1" + PadRight(m.name, 30) + Spaces(60) + FormatMMddyyyy(m.date)
  }

  lemma FormatHy3MeetColumns(m: MeetInfo)
    requires Representable(m)
    ensures FormatHy3Meet(m)[2..32] == PadRight(m.name, 30)
    ensures FormatHy3Meet(m)[92..100] == FormatMMddyyyy(m.date)
  {
    var b := "B1" + PadRight(m.name, 30);
    var c := b + Spaces(60);
    var line := c + FormatMMddyyyy(m.date);
    assert line == FormatHy3Meet(m);
    PrefixSlice(c, FormatMMddyyyy(m.date), 2, 32);
    PrefixSlice(b, Spaces(60), 2, 32);
    assert b[2..32] == PadRight(m.name, 30);
    assert line[92..100] == FormatMMddyyyy(m.date);
  }

  /** Parsing a formatted HY3 meet record gives back the meet's date and name. */
  lemma Hy3MeetInfoRoundTrip(m: MeetInfo)
    requires Representable(m)
    ensures Hy3MeetInfo(SR.MakeRec(FormatHy3Meet(m))) == Ok(m)
  {
    var line := FormatHy3Meet(m);
    FormatHy3MeetColumns(m);
    TrimOfPadRight(m.name, 30);
    TrimOfDates(m.date);
    ParseFormatDate(m.date);
    Hy3MeetInfoOfColumns(SR.MakeRec(line), m);
  }

  lemma Hy3MeetInfoOfColumns(rec: SR.SdifRec, m: MeetInfo)
    requires |rec.data| >= 100
    requires Trim(rec.data[2..32]) == m.name
    requires ParseMMddyyyy(Trim(rec.data[92..100])) == Ok(m.date)
    ensures Hy3MeetInfo(rec) == Ok(m)
  {
  }

  /** The three numeric fields of an eight-digit text, digit by digit. */
  lemma FieldsOfEightDigits(s: string)
    requires |s| == 8 && AllDigits(s)
    ensures Number(s[..2]) == 10 * DigitValue(s[0]) + DigitValue(s[1])
    ensures Number(s[2..4]) == 10 * DigitValue(s[2]) + DigitValue(s[3])
    ensures Number(s[4..]) == 1000 * DigitValue(s[4]) + 100 * DigitValue(s[5]) + 10 * DigitValue(s[6]) + DigitValue(s[7])
  {
    NumberOfTwo(s[..2]);
    NumberOfTwo(s[2..4]);
    NumberOfFour(s[4..]);
  }

  /** SMART resolution: the 31st of a 30-day month is read as the 30th. */
  lemma ParseClampsThirtyFirst()
    ensures ParseMMddyyyy("04312017") == Ok(Date(2017, 4, 30))
  {
    FieldsOfEightDigits("04312017");
  }

  /** February 30th is the 28th in a common year and the 29th in a leap year. */
  lemma ParseClampsFebruary()
    ensures ParseMMddyyyy("02302017") == Ok(Date(2017, 2, 28))
    ensures ParseMMddyyyy("02302016") == Ok(Date(2016, 2, 29))
  {
    FieldsOfEightDigits("02302017");
    FieldsOfEightDigits("02302016");
  }

  /** Month 13, day 32 and year 0 are rejected outright. */
  lemma ParseRejectsOutOfRange()
    ensures ParseMMddyyyy("13012017") == Err(DateTimeParse)
    ensures ParseMMddyyyy("01322017") == Err(DateTimeParse)
    ensures ParseMMddyyyy("01010000") == Err(DateTimeParse)
  {
    FieldsOfEightDigits("13012017");
    FieldsOfEightDigits("01322017");
    FieldsOfEightDigits("01010000");
  }
}
