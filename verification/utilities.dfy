/** utilities.js: month lengths and single-day mask strings. */
module Utilities {
  import opened Results
  import opened Gregorian
  import opened Masks

  /** `getDaysInMonth(year, monthIndex)`: throws for a month index outside
      0..11, otherwise reads the day-of-month of "day 0 of the next month". */
  function GetDaysInMonth(year: int, monthIndex: int): (r: Result<int>)
    ensures r.Err? <==> monthIndex < 0 || monthIndex > 11
    ensures r.Err? ==> r.error == MonthIndexOutOfRange
    ensures r.Ok? ==> 28 <= r.value <= 31
    ensures r.Ok? ==>
      DayNumber(JsYear(year), monthIndex + 1, 0) == DayNumber(JsYear(year), monthIndex, r.value)
  {
    if monthIndex < 0 || monthIndex > 11 then
      Err(MonthIndexOutOfRange)
    else
      DayZeroOfNextMonth(JsYear(year), monthIndex);
      Ok(MonthLength(JsYear(year), monthIndex))
  }

  /** The month-length table: 31, 30 or 28/29 days, February having 29 in
      a Gregorian leap year (years 0..99 being read as 1900..1999). */
  lemma GetDaysInMonthTable(year: int, monthIndex: int)
    requires 0 <= monthIndex <= 11
    ensures var n := GetDaysInMonth(year, monthIndex).value;
      && (monthIndex in {0, 2, 4, 6, 7, 9, 11} ==> n == 31)
      && (monthIndex in {3, 5, 8, 10} ==> n == 30)
      && (monthIndex == 1 ==> (n == 29 <==> IsLeapYear(JsYear(year))))
      && (monthIndex == 1 ==> (n == 28 <==> !IsLeapYear(JsYear(year))))
  {
  }

  /** The `inactive` flag of `getDateMask`: absent or falsy means Active. */
  datatype Polarity = Active | Inactive

  /** The digit `getDateMask` writes for a day: the chosen day is '1' in
      active mode and '0' in inactive mode; every other day the opposite. */
  function DayDigit(isChosenDay: bool, polarity: Polarity): char {
    if isChosenDay == polarity.Active? then '1' else '0'
  }

  /** The array the `getDateMask` loop has built after days 1..k: each day
      is `unshift`ed, so day k comes first and day 1 last. */
  function MaskDigits(k: nat, date: int, polarity: Polarity): (s: seq<char>)
    ensures |s| == k
    ensures forall j :: 0 <= j < k ==> s[j] == DayDigit(k - j == date, polarity)
  {
    if k == 0 then [] else [DayDigit(k == date, polarity)] + MaskDigits(k - 1, date, polarity)
  }

  /** `getDateMask(year, monthIndex, date, inactive)`: one digit per day of
      the month, the digit at index j standing for day n - j (so day i sits
      at index n - i). `date` is not range-checked. */
  function GetDateMask(year: int, monthIndex: int, date: int, polarity: Polarity): (r: Result<seq<char>>)
    ensures r.Err? <==> monthIndex < 0 || monthIndex > 11
    ensures r.Err? ==> r.error == MonthIndexOutOfRange
    ensures r.Ok? ==> |r.value| == GetDaysInMonth(year, monthIndex).value
    ensures r.Ok? ==> forall j :: 0 <= j < |r.value| ==>
      r.value[j] == DayDigit(|r.value| - j == date, polarity)
  {
    var n :- GetDaysInMonth(year, monthIndex);
    Ok(MaskDigits(n, date, polarity))
  }

  lemma {:induction false} MaskDigitsOnes(k: nat, date: int)
    ensures multiset(MaskDigits(k, date, Active))['1'] == (if 1 <= date <= k then 1 else 0)
  {
    if k > 0 {
      MaskDigitsOnes(k - 1, date);
      assert MaskDigits(k, date, Active) == [DayDigit(k == date, Active)] + MaskDigits(k - 1, date, Active);
    }
  }

  /** In active mode the mask has exactly one '1' when the date lies in the
      month and none otherwise. */
  lemma ActiveMaskOnes(year: int, monthIndex: int, date: int)
    requires 0 <= monthIndex <= 11
    ensures var n := GetDaysInMonth(year, monthIndex).value;
      multiset(GetDateMask(year, monthIndex, date, Active).value)['1'] == (if 1 <= date <= n then 1 else 0)
  {
    MaskDigitsOnes(GetDaysInMonth(year, monthIndex).value, date);
  }

  /** The inactive-mode mask is the digit-wise complement of the active one. */
  lemma InactiveMaskIsComplement(year: int, monthIndex: int, date: int)
    ensures GetDateMask(year, monthIndex, date, Inactive).Ok?
        <==> GetDateMask(year, monthIndex, date, Active).Ok?
    ensures GetDateMask(year, monthIndex, date, Active).Ok? ==>
      GetDateMask(year, monthIndex, date, Inactive).value
        == Complement(GetDateMask(year, monthIndex, date, Active).value)
  {
  }

  lemma {:induction false} MaskDigitsValue(k: nat, date: int)
    ensures IsBinary(MaskDigits(k, date, Active))
    ensures ParseBinary(MaskDigits(k, date, Active)) == (if 1 <= date <= k then Pow2(date - 1) else 0)
  {
    if k > 0 {
      var t := MaskDigits(k - 1, date, Active);
      MaskDigitsValue(k - 1, date);
      ParseBinaryCons(DayDigit(k == date, Active), t);
    }
  }

  /** Read in base 2, the active mask is the single bit of the date (2^(date-1))
      or 0 when the date is outside the month; the inactive mask is every
      bit of the month except that one. */
  lemma DateMaskValue(year: int, monthIndex: int, date: int)
    requires 0 <= monthIndex <= 11
    ensures var n := GetDaysInMonth(year, monthIndex).value;
      var single := if 1 <= date <= n then Pow2(date - 1) else 0;
      && IsBinary(GetDateMask(year, monthIndex, date, Active).value)
      && IsBinary(GetDateMask(year, monthIndex, date, Inactive).value)
      && ParseBinary(GetDateMask(year, monthIndex, date, Active).value) == single
      && ParseBinary(GetDateMask(year, monthIndex, date, Inactive).value) == Pow2(n) - 1 - single
  {
    var n := GetDaysInMonth(year, monthIndex).value;
    MaskDigitsValue(n, date);
    InactiveMaskIsComplement(year, monthIndex, date);
    ComplementValue(GetDateMask(year, monthIndex, date, Active).value);
  }
}
