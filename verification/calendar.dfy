/** calendar.js: one year's month masks, the `isActive` query and the JSON
    reshaping. */
module Calendars {
  import opened Results
  import opened JsNumbers
  import opened Masks
  import opened Utilities

  /** `activeDays`: a sparse array from month index to month mask. A key
      that is absent stands for a hole (`undefined`) or `null`. Any index
      can be written, so the domain is not restricted to 0..11. */
  type ActiveDays = map<int, int>

  /** A Calendar object. `year` is a non-writable property, so no operation
      of the model ever produces a Calendar with a different year from the
      one it started from. */
  datatype Calendar = Calendar(year: int, activeDays: ActiveDays)

  /** `new Calendar(year)` for a numeric year: no month slot is set. */
  function NewCalendar(year: int): (c: Calendar)
    ensures c.year == year
    ensures forall m :: m !in c.activeDays
  {
    Calendar(year, map[])
  }

  /** The argument of the constructor: a number, or a string that is passed
      through `parseInt` (with no radix). */
  datatype YearArgument = NumberYear(n: int) | StringYear(s: string)

  /** `new Calendar(year)`. `None` stands for a calendar whose year would be
      NaN (a string `parseInt` cannot read). */
  function CalendarFromArgument(year: YearArgument): (c: Option<Calendar>)
    ensures c.Some? ==> c.value.activeDays == map[]
    ensures year.NumberYear? ==> c.Some? && c.value.year == year.n
    ensures year.StringYear? ==> (c.Some? <==> ParseInt(year.s, 0).Some?)
    ensures year.StringYear? && c.Some? ==> c.value.year == ParseInt(year.s, 0).value
  {
    match year
    case NumberYear(n) => Some(NewCalendar(n))
    case StringYear(s) =>
      match ParseInt(s, 0)
      case None => None
      case Some(y) => Some(NewCalendar(y))
  }

  /** A year written out as a decimal string builds the same calendar as
      the number itself. */
  lemma StringYearIsParsed(year: int)
    ensures CalendarFromArgument(StringYear(IntToString(year))) == CalendarFromArgument(NumberYear(year))
  {
    IntToStringRoundTrip(year);
  }

  /** The final comparison of `isActive`, `(mask & month) > 0`, applies `&`
      to a digit string (which JavaScript reads as a decimal number) and a
      month mask. It is left abstract: the caller supplies it. */
  type MaskTest = (seq<char>, int) -> bool

  /** A month slot counts as unspecified when it is absent, null or 0
      (`!month`). */
  predicate Unspecified(c: Calendar, monthIndex: int) {
    monthIndex !in c.activeDays || c.activeDays[monthIndex] == 0
  }

  /** `calendar.isActive(monthIndex, date)`. */
  function IsActive(c: Calendar, monthIndex: int, date: int, maskTest: MaskTest): (r: Result<bool>)
    ensures Unspecified(c, monthIndex) ==> r == Err(UnspecifiedMonth(monthIndex))
    ensures !Unspecified(c, monthIndex) && (monthIndex < 0 || monthIndex > 11) ==> r == Err(MonthIndexOutOfRange)
    ensures r.Ok? <==> !Unspecified(c, monthIndex) && 0 <= monthIndex <= 11
    ensures r.Ok? ==>
      r.value == maskTest(GetDateMask(c.year, monthIndex, date, Active).value, c.activeDays[monthIndex])
  {
    if Unspecified(c, monthIndex) then
      Err(UnspecifiedMonth(monthIndex))
    else
      var mask :- GetDateMask(c.year, monthIndex, date, Active);
      Ok(maskTest(mask, c.activeDays[monthIndex]))
  }

  /** The left operand of `mask & month` as JavaScript converts it: `&`
      applies ToNumber, which reads a digit string as a DECIMAL numeral, and
      then ToInt32. Only strings of decimal digits are modelled, the only
      ones `getDateMask` produces; any other string is given 0 here, which
      is not what ToNumber does for strings such as "-1", " 5", "1e3",
      "0x10" or "1.5". */
  function StringToUint32(s: string): (u: nat)
    ensures (forall i :: 0 <= i < |s| ==> IsDigitIn(s[i], 10)) ==> u == DigitsValue(s, 10) % 0x1_0000_0000
    ensures !(forall i :: 0 <= i < |s| ==> IsDigitIn(s[i], 10)) ==> u == 0
  {
    if forall i :: 0 <= i < |s| ==> IsDigitIn(s[i], 10) then ToUint32(DigitsValue(s, 10)) else 0
  }

  /** The test `isActive` ends with, as written: `(mask & month) > 0`. */
  function AsWrittenMaskTest(mask: seq<char>, month: int): bool {
    Int32Positive(And(StringToUint32(mask), ToUint32(month)))
  }

  /** The test evidently intended: the mask read in base 2, the way every
      month value of the builder is produced (`parseInt(…, 2)`). */
  function IntendedMaskTest(mask: seq<char>, month: int): bool {
    IsBinary(mask) && Int32Positive(And(ToUint32(ParseBinary(mask)), ToUint32(month)))
  }

  /** A leading '1' adds 10^|t| to the decimal value of `t`; a leading '0'
      adds nothing. */
  lemma BinaryDigitFront(d: char, t: string)
    requires d == '0' || d == '1'
    requires forall i :: 0 <= i < |t| ==> IsDigitIn(t[i], 10)
    ensures forall i :: 0 <= i < |[d] + t| ==> IsDigitIn(([d] + t)[i], 10)
    ensures DigitsValue([d] + t, 10) == (if d == '1' then Power(10, |t|) else 0) + DigitsValue(t, 10)
  {
    DigitsValueCons(d, t, 10);
    if d == '1' {
      assert DigitOf(d).value == 1;
    } else {
      assert DigitOf(d).value == 0;
    }
  }

  /** Read as a decimal numeral, the active mask of day `date` is
      10^(date-1), or 0 when the date lies outside the month. */
  lemma {:induction false} MaskDigitsDecimal(k: nat, date: int)
    ensures forall i :: 0 <= i < k ==> IsDigitIn(MaskDigits(k, date, Active)[i], 10)
    ensures DigitsValue(MaskDigits(k, date, Active), 10) == (if 1 <= date <= k then Power(10, date - 1) else 0)
  {
    if k > 0 {
      var t := MaskDigits(k - 1, date, Active);
      var d := DayDigit(k == date, Active);
      assert MaskDigits(k, date, Active) == [d] + t;
      MaskDigitsDecimal(k - 1, date);
      BinaryDigitFront(d, t);
      if k == date {
        assert d == '1' && DigitsValue(t, 10) == 0;
      } else {
        assert d == '0';
      }
    }
  }

  /** The base-2 test applied to a single-day mask (the day's bit, or no
      bit for a date outside a month of `n` days) reads that bit of the
      month value. */
  lemma IntendedTestOfDayMask(mask: seq<char>, month: int, date: int, n: int)
    requires n <= 31 && 0 <= month < 0x8000_0000
    requires IsBinary(mask) && ParseBinary(mask) == (if 1 <= date <= n then Pow2(date - 1) else 0)
    ensures IntendedMaskTest(mask, month) == (1 <= date <= n && Bit(month, date - 1))
  {
    if 1 <= date <= n {
      Pow2Monotone(date - 1, 31);
      Pow2ThirtyOne();
      AndPow2(date - 1, month);
    }
  }

  /** With the base-2 reading, `isActive` answers whether the day's own
      bit (bit date-1) of the month value is set; a date outside the month
      is never active. */
  lemma IntendedIsActiveReadsBit(c: Calendar, monthIndex: int, date: int)
    requires 0 <= monthIndex <= 11 && !Unspecified(c, monthIndex)
    requires 0 <= c.activeDays[monthIndex] < 0x8000_0000
    ensures var n := GetDaysInMonth(c.year, monthIndex).value;
      IsActive(c, monthIndex, date, IntendedMaskTest)
        == Ok(1 <= date <= n && Bit(c.activeDays[monthIndex], date - 1))
  {
    var n := GetDaysInMonth(c.year, monthIndex).value;
    DateMaskValue(c.year, monthIndex, date);
    IntendedTestOfDayMask(GetDateMask(c.year, monthIndex, date, Active).value, c.activeDays[monthIndex], date, n);
  }

  /** As written, `isActive` tests the month value against 10^(date-1)
      (within 32 bits) instead of the day's bit. */
  lemma AsWrittenIsActiveReadsDecimal(c: Calendar, monthIndex: int, date: int)
    requires 0 <= monthIndex <= 11 && !Unspecified(c, monthIndex)
    requires 1 <= date <= GetDaysInMonth(c.year, monthIndex).value
    ensures IsActive(c, monthIndex, date, AsWrittenMaskTest)
      == Ok(Int32Positive(And(ToUint32(Power(10, date - 1)), ToUint32(c.activeDays[monthIndex]))))
  {
    MaskDigitsDecimal(GetDaysInMonth(c.year, monthIndex).value, date);
  }

  /** A month whose only active day is the 4th (value 8) of January 2024:
      as written, day 2 reads as active (10 & 8 = 8), while the base-2
      reading says it is not (2 & 8 = 0). */
  lemma AsWrittenIsActiveCounterexample()
    ensures IsActive(Calendar(2024, map[0 := 8]), 0, 2, AsWrittenMaskTest) == Ok(true)
    ensures IsActive(Calendar(2024, map[0 := 8]), 0, 2, IntendedMaskTest) == Ok(false)
  {
    var c := Calendar(2024, map[0 := 8]);
    GetDaysInMonthTable(2024, 0);
    AsWrittenIsActiveReadsDecimal(c, 0, 2);
    assert And(10, 8) == 8;
    IntendedIsActiveReadsBit(c, 0, 2);
    assert !Bit(8, 1);
  }

  /** A plain object as `for…in` visits it: its (key, value) pairs in
      enumeration order. */
  type JsonObject = seq<(string, ActiveDays)>

  /** The argument of `fromJSON`: anything falsy, or an object. */
  datatype JsonInput = Falsy | Object(entries: JsonObject)

  /** The `{ year, activeDays }` records `fromJSON` returns; `None` is a
      NaN year. */
  datatype CalendarRecord = CalendarRecord(year: Option<int>, activeDays: ActiveDays)

  /** `calendar.toJSON()`: an object with a single key, the year, holding
      `activeDays` as it is. */
  function ToJson(c: Calendar): (j: JsonObject)
    ensures |j| == 1
    ensures ParseInt(j[0].0, 10) == Some(c.year)
    ensures j[0].1 == c.activeDays
  {
    IntToStringRoundTrip(c.year);
    [(IntToString(c.year), c.activeDays)]
  }

  /** The loop of `fromJSON` over an object's keys. */
  function RecordsOf(entries: JsonObject): (r: seq<CalendarRecord>)
    ensures |r| == |entries|
    ensures forall i :: 0 <= i < |r| ==>
      r[i].year == ParseInt(entries[i].0, 10) && r[i].activeDays == entries[i].1
  {
    if |entries| == 0 then []
    else [CalendarRecord(ParseInt(entries[0].0, 10), entries[0].1)] + RecordsOf(entries[1..])
  }

  /** `Calendar.fromJSON(json)`: one record per key, in enumeration order,
      the key parsed in base 10 and the value copied without validation. */
  function FromJson(json: JsonInput): (r: seq<CalendarRecord>)
    ensures json.Falsy? ==> r == []
    ensures json.Object? ==> |r| == |json.entries|
    ensures json.Object? ==> forall i :: 0 <= i < |r| ==>
      r[i].year == ParseInt(json.entries[i].0, 10) && r[i].activeDays == json.entries[i].1
  {
    match json
    case Falsy => []
    case Object(entries) => RecordsOf(entries)
  }

  /** Exporting a calendar and reading it back gives one record with the
      calendar's year and months. */
  lemma JsonRoundTrip(c: Calendar)
    ensures FromJson(Object(ToJson(c))) == [CalendarRecord(Some(c.year), c.activeDays)]
  {
  }
}
