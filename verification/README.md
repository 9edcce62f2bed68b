# Active-day calendars: a Dafny model

The library keeps one **calendar** per year. Each calendar records which
days of the year are "active". A month is stored as an integer mask in
which bit `i-1` stands for day `i`. The model covers three pieces:

- the date utilities: month lengths and single-day mask strings;
- the `Calendar` class: a fixed year, a sparse array of month masks, the
  `isActive` query and the JSON reshaping;
- the fluent `CalendarBuilder`, which covers:
  - a list of calendars kept in ascending year order, with get-or-create
    lookup;
  - bulk initialisers for a year or a month (all active, all inactive,
    weekends inactive);
  - single-day setters, range setters and date-decomposing wrappers;
  - `addYearCalendar`, `build` and `buildAll`.

Modules, one per concern:

| module | file | models |
|---|---|---|
| `Results` | results.dfy | `Option`, `Result` and the error kinds the code throws |
| `Gregorian` | gregorian.dfy | the proleptic Gregorian calendar that JavaScript's `Date` uses (`new Date(y, m, d)` with month roll-over and day 0, `getDate`, `getDay`, years 0..99 read as 1900..1999) |
| `Masks` | masks.dfy | digit strings read with `parseInt(s, 2)`, the bits of a number, and the 32-bit `&` |
| `JsNumbers` | js_numbers.dfy | `parseInt` with and without a radix, and integer-to-string for property keys |
| `Utilities` | utilities.dfy | `getDaysInMonth`, `getDateMask` |
| `Calendars` | calendar.dfy | `Calendar`: constructor, `isActive`, `toJSON`, `fromJSON` |
| `CalendarBuilder` | calendar_builder.dfy | `CalendarBuilder` |

The builder is modelled as a value. Every operation takes the list of
calendars before the call and returns the list after it. Writing into a
calendar's `activeDays` in place becomes replacing that calendar by one
with the new slots. Three things that JavaScript expresses with exceptions
and mutation are modelled as follows:

- An operation that can throw after it has already created a calendar
  returns an `Outcome`: the state it leaves behind and the error, if any.
- `Writes(before, after, year, slots)` states the frame of a write. The
  calendar of `year` exists afterwards and its slots are the old ones
  overwritten by `slots`. The set of years grows by `year` at most. Every
  other calendar is untouched.
- `Valid` (strictly ascending years) is the invariant of the
  `#calendars` field. The empty builder establishes it and every builder
  operation preserves it. `buildAll` returns that array itself, so the
  invariant lasts only while callers leave the returned array alone.

The per-day methods `calendar.setDayAsActive` and `calendar.setDayAsInactive`
are called by the builder but are not defined by the `Calendar` class. The
builder therefore takes them as a parameter (`DayMethods`).
`MissingDayMethods` is the code as it stands: each call throws a
`TypeError`. The last comparison of `isActive`, `(mask & month) > 0`, is
also a parameter (`MaskTest`). The model gives it twice: once as written,
which reads the digit string as a decimal number, and once as evidently
intended, in base 2 (see Findings).

## Model

| member | source | states |
|---|---|---|
| `Utilities.GetDaysInMonth` | utilities.js:7-12 | fails exactly for a month index outside 0..11, with the out-of-range error; otherwise returns 28..31, the day-of-month of "day 0 of the next month" (the day numbers of both dates are equal) |
| `Utilities.GetDaysInMonthTable` | utilities.js:7-12 | 31 days for months 0,2,4,6,7,9,11; 30 for 3,5,8,10; February has 29 exactly in a Gregorian leap year and 28 otherwise |
| `Gregorian.DayZeroOfNextMonth` | utilities.js:11 | day 0 of month m+1 is the last day of month m, including the roll-over from December into January of the next year |
| `Gregorian.WeekdayOfNextDay` | calendar-builder.js:154-155 | the weekday of the next day is one more, modulo 7 |
| `Gregorian.KnownWeekdays` | calendar-builder.js:154-155 | 1 January 1970 is a Thursday (4) and 3 February 2024 a Saturday (6), as `getDay` reports them |
| `Utilities.MaskDigits` | utilities.js:24-31 | after the loop has run k days, index j holds day k-j, because each day is `unshift`ed in front |
| `Utilities.GetDateMask` | utilities.js:22-33 | fails exactly when `getDaysInMonth` fails; otherwise has one digit per day of the month, and the digit for day i sits at index n-i, '1' for the chosen day in active mode, '0' in inactive mode, and the opposite for every other day |
| `Utilities.ActiveMaskOnes` | utilities.js:25-30 | an active mask holds exactly one '1' when 1 <= date <= n and none otherwise (the date is not range-checked) |
| `Utilities.InactiveMaskIsComplement` | utilities.js:26-30 | the inactive mask is the digit-wise complement of the active mask for the same arguments, and both fail together |
| `Utilities.DateMaskValue` | utilities.js:22-33 | read in base 2, the active mask is 2^(date-1), or 0 for a date outside the month; the inactive mask is 2^n - 1 minus that |
| `Masks.ParseBinaryBit` | calendar-builder.js:139 | bit k of `parseInt(s, 2)` is set exactly when the digit k places from the right is '1' |
| `Masks.AllOnesValue` | calendar-builder.js:138-139 | n '1' digits parse to 2^n - 1 |
| `Masks.ComplementValue` | utilities.js:27-29 | complementing an n-digit string complements its value within n bits |
| `Masks.AndBit` | calendar.js:36 | bit k of `a & b` is set exactly when bit k is set in both operands |
| `Masks.AndPow2` | calendar.js:36 | ANDing with the single bit 2^k leaves something exactly when bit k is set |
| `JsNumbers.IntToStringRoundTrip` | calendar.js:46 | the property key an integer year becomes parses back to that year with radix 10 (`fromJSON`) and with no radix (the constructor) |
| `Calendars.NewCalendar` | calendar.js:7-21 | a new calendar has the given year and no month slot set |
| `Calendars.CalendarFromArgument` | calendar.js:15-21 | a number year is kept as it is; a string year is passed through `parseInt` with no radix, and an unparsable one gives a NaN year |
| `Calendars.StringYearIsParsed` | calendar.js:16 | a year given as its decimal string builds the same calendar as the number |
| `Calendars.IsActive` | calendar.js:29-37 | fails with the unspecified-month error when the slot is absent or 0; fails with the out-of-range error for a set slot outside 0..11; succeeds exactly otherwise, with the mask test applied to the active date mask and the slot |
| `Calendars.StringToUint32` | calendar.js:36 | a string of decimal digits (the only strings `getDateMask` produces, and the only ones modelled) converts to its decimal value modulo 2^32 |
| `Calendars.MaskDigitsDecimal` | calendar.js:35-36 | read as a decimal numeral, the active mask of a date is 10^(date-1), or 0 for a date outside the month |
| `Calendars.AsWrittenIsActiveReadsDecimal` | calendar.js:35-36 | as written, `isActive` ANDs the month value with 10^(date-1) (within 32 bits), not with the day's bit |
| `Calendars.AsWrittenIsActiveCounterexample` | calendar.js:36 | with only day 4 of January 2024 active (value 8), as written day 2 answers true, while the base-2 reading answers false |
| `Calendars.IntendedIsActiveReadsBit` | calendar.js:29-37 | with the base-2 reading, `isActive` answers whether bit date-1 of the month value is set, and false for a date outside the month |
| `Calendars.ToJson` | calendar.js:43-48 | one key, which parses back to the year, holding `activeDays` unchanged |
| `Calendars.RecordsOf` | calendar.js:53-61 | one record per key in enumeration order: the key parsed in base 10 and the value copied unchanged |
| `Calendars.FromJson` | calendar.js:50-64 | a falsy argument gives no records; an object gives one record per key, the year parsed in base 10 and `activeDays` copied without validation |
| `Calendars.JsonRoundTrip` | calendar.js:43-64 | reading back an exported calendar gives exactly one record with the calendar's year and months |
| `CalendarBuilder.EmptyBuilder` | calendar-builder.js:11-13 | a new builder holds no calendar and satisfies the ascending-years invariant |
| `CalendarBuilder.FindCalendar` | calendar-builder.js:20-22 | finds a calendar exactly when the year is present, and the one found is in the list with that year |
| `CalendarBuilder.FindInAscending` | calendar-builder.js:20-22 | in an ascending list the calendar found for a year is the only one of that year |
| `CalendarBuilder.InsertByYear` | calendar-builder.js:31-34 | the list after push and sort holds the old calendars plus the new one |
| `CalendarBuilder.InsertByYearAscending` | calendar-builder.js:29-36 | inserting a calendar of a new year keeps the list strictly ascending |
| `CalendarBuilder.AscendingPermutationUnique` | calendar-builder.js:32-34 | two ascending lists with the same calendars are equal, so the sort by year has one possible result |
| `CalendarBuilder.CreateCalendar` | calendar-builder.js:29-36 | the returned calendar is a new one of that year; the list stays ascending and gains exactly that calendar |
| `CalendarBuilder.CreateCalendarIsSortedPush` | calendar-builder.js:29-36 | any ascending arrangement of the pushed list is the list `#createCalendar` leaves |
| `CalendarBuilder.GetOrCreate` | calendar-builder.js:43-49 | returns the calendar of the year; an existing entry leaves the list unchanged; a missing one adds exactly one new, empty calendar; the years grow by this year only; other lookups are unchanged |
| `CalendarBuilder.GetOrCreateIdempotent` | calendar-builder.js:43-49 | a second get-or-create of the same year returns the same calendar and changes nothing |
| `CalendarBuilder.AddYearCalendar` | calendar-builder.js:71-74 | makes sure the year has a calendar, writing no slot and touching no other calendar; a new one is empty |
| `CalendarBuilder.Build` | calendar-builder.js:264-266 | leaves the list that `addYearCalendar` leaves, and returns the calendar of that year |
| `CalendarBuilder.BuildAll` | calendar-builder.js:255-257 | returns the builder's own calendars in strictly ascending year order: exactly the years the builder can find, and for each year the very calendar (slots included) the builder holds |
| `CalendarBuilder.MonthActiveDays` | calendar-builder.js:57-64 | n copies of '1' when active and of '0' otherwise |
| `CalendarBuilder.AllActiveMask` | calendar-builder.js:97-99 | `parseInt` of the all-'1' string of the month is 2^n - 1 |
| `CalendarBuilder.AllActiveMaskBits` | calendar-builder.js:97-99 | the all-active value has a bit for every day of the month and no bit above it |
| `CalendarBuilder.InitYearAllDaysInactive` | calendar-builder.js:81-87 | slots 0..11 of the year become 0, every other slot and calendar is unchanged, and the calendar is created if missing |
| `CalendarBuilder.InitYearAllDaysActive` | calendar-builder.js:94-102 | slot i of the year becomes 2^(days in month i) - 1 for each i in 0..11, and nothing else changes |
| `CalendarBuilder.InitMonthAllDaysInactive` | calendar-builder.js:123-127 | slot monthIndex becomes 0 for any index (no range check), and nothing else changes |
| `CalendarBuilder.InitMonthAllDaysActive` | calendar-builder.js:135-141 | throws exactly for a month index outside 0..11, after creating the calendar and writing no slot; otherwise slot monthIndex becomes 2^n - 1 and nothing else changes |
| `CalendarBuilder.WeekendDigits` | calendar-builder.js:152-161 | after k days the digit string is binary, and index j holds '0' exactly when day k-j is a Saturday or Sunday |
| `CalendarBuilder.WeekendMaskBits` | calendar-builder.js:149-164 | the stored weekend value is below 2^n, and bit i-1 is set exactly when day i is neither Saturday nor Sunday |
| `CalendarBuilder.InitMonthWeekendInactive` | calendar-builder.js:149-165 | throws exactly for a bad month index, after creating the calendar; otherwise slot monthIndex becomes a weekday mask of the month and nothing else changes |
| `CalendarBuilder.BitsDetermineValue` | calendar-builder.js:149-164 | two values below 2^n with the same n low bits are equal, so the weekday mask of a month is unique |
| `CalendarBuilder.WeekendSlots` | calendar-builder.js:111-113 | the slots the weekend loop writes from month `from` on are exactly from..11, each holding its month's weekend value |
| `CalendarBuilder.WeekendMonthsFromWrites` | calendar-builder.js:111-113 | the loop over months i..11 never throws and writes exactly the weekend values of those months |
| `CalendarBuilder.InitYearWeekendInactive` | calendar-builder.js:109-115 | every slot 0..11 of the year gets its month's weekend value and nothing else changes |
| `CalendarBuilder.WeekendSlotsMasks` | calendar-builder.js:109-115 | after the year loop each month 0..11 holds a weekday mask of its month |
| `CalendarBuilder.February2024Weekend` | calendar-builder.js:149-164 | February 2024 has 29 days, and in its weekday mask the bit of the 3rd (a Saturday) is clear |
| `CalendarBuilder.WeekdayMaskNonZero` | calendar-builder.js:153-161 | a weekday mask is never 0, since three consecutive days include a weekday |
| `CalendarBuilder.InactiveMonthIsUnspecified` | calendar.js:30-34 | a month set all-inactive holds 0, so `isActive` on it throws the unspecified-month error rather than answering false |
| `CalendarBuilder.ActiveMonthReadsActive` | calendar-builder.js:135-141 | with the base-2 reading, an all-active month answers true exactly for the days of the month |
| `CalendarBuilder.WeekendYearReadsWeekdays` | calendar-builder.js:109-115 | with the base-2 reading, after `initYearWeekendInactive` a day is active exactly when it is not a Saturday or Sunday |
| `CalendarBuilder.MissingDayMethods` | calendar-builder.js:187 | with the `Calendar` class as it is, each per-day call throws a `TypeError` |
| `CalendarBuilder.SetDay` | calendar-builder.js:185-189 | the year's calendar is fetched or created, then the per-day method runs; if it throws, the error propagates and the created calendar stays; otherwise only that calendar's slots change, to the method's result |
| `CalendarBuilder.SetDayAsActive` | calendar-builder.js:185-189 | the same, with the calendar's `setDayAsActive` |
| `CalendarBuilder.SetDayAsInactive` | calendar-builder.js:209-213 | the same, with the calendar's `setDayAsInactive` |
| `CalendarBuilder.SetDayWithMissingMethodsThrows` | calendar-builder.js:185-213 | with the `Calendar` class as it is, both single-day setters leave what `addYearCalendar` leaves and throw a `TypeError` |
| `CalendarBuilder.SeDayAsActiveDayFromDate` | calendar-builder.js:172-177 | splits the date into year, month and day, and has the effect of the calendar's `setDayAsActive` on them |
| `CalendarBuilder.SetDayAsInactiveDayFromDate` | calendar-builder.js:196-201 | as written: splits the date and has the effect of the calendar's `setDayAsActive` (not `setDayAsInactive`) |
| `CalendarBuilder.SetDayAsInactiveDayFromDateIntended` | calendar-builder.js:196-201 | corrected: splits the date and has the effect of the calendar's `setDayAsInactive` |
| `CalendarBuilder.SetDayAsInactiveDayFromDateCounterexample` | calendar-builder.js:196-201 | with per-day methods that store different values, the as-written wrapper does what the active wrapper does and differs from the corrected one on 1 January 2024 |
| `CalendarBuilder.RangeFrom` | calendar-builder.js:227-229 | the days i..end visited in ascending order with one per-day method, stopping at the first throw; an empty range changes nothing |
| `CalendarBuilder.RangeFromYears` | calendar-builder.js:227-229 | a non-empty range creates the year's calendar and no other |
| `CalendarBuilder.RangeFromOtherYears` | calendar-builder.js:227-229 | a range leaves every other year's calendar unchanged |
| `CalendarBuilder.RangeFromSplit` | calendar-builder.js:227-229 | visiting i..end is visiting i..mid and then, unless that threw, mid+1..end |
| `CalendarBuilder.VisitRange` | calendar-builder.js:227-230 | the `for` loop ends in the state the day-by-day visit describes |
| `CalendarBuilder.SetRangeAsActive` | calendar-builder.js:223-231 | `start > end` throws the invalid-range error before any lookup, with nothing changed; otherwise the days start..end are set active in ascending order |
| `CalendarBuilder.SetRangeAsInactive` | calendar-builder.js:241-249 | the same with the inactive per-day method |
| `CalendarBuilder.RangeWithMissingMethodsThrows` | calendar-builder.js:223-249 | with the `Calendar` class as it is, a non-empty range creates the year's calendar and throws a `TypeError` on its first day |

## Left out

- `Calendars.IsActive`: the final `(mask & month) > 0` is a parameter, so the contract does not fix the answer. `AsWrittenMaskTest` and `IntendedMaskTest` are the two instances.
- `Calendars.StringToUint32`: models only strings of decimal digits, the only ones `getDateMask` produces. Any other string is given 0, while ToNumber reads "-1", " 5", "1e3", "0x10" or "1.5" as numbers. It also reads a digit string exactly, while JavaScript rounds a numeral above 2^53 to a double before ToInt32. The active mask of a date d reads as 10^(d-1), which is exact for d <= 23. `AsWrittenMaskTest` therefore matches JavaScript only for dates up to 23.
- `Calendars.AsWrittenIsActiveReadsDecimal`: exact only for dates up to 23. From date 24 on JavaScript ANDs the rounded double of 10^(d-1), not 10^(d-1) modulo 2^32. For dates 27..31 that double is a multiple of 2^34, so ToInt32 gives 0 and the as-written `isActive` always answers false. The model gives the 32-bit remainder instead.
- Per-day bit update: `Calendar` defines no `setDayAsActive` or `setDayAsInactive`, so their bodies are not invented. They are the `DayMethods` parameter. A throwing per-day method is taken to leave the calendar's slots unchanged.
- JavaScript `Date`: local time and time zones are left out, and so is the Date range (about ±271,821 years, beyond which a Date is invalid). `Date` is given by the components `getFullYear`, `getMonth` and `getDate` return. The remapping of years 0..99 to 1900..1999 done by `new Date` is modelled.
- Numbers: years, month indices and dates are integers. Fractional, NaN, infinite and string arguments to the builder are left out. The constructor's string case is modelled, and a NaN year is `None`.
- `JsNumbers.IntToString`: gives only the plain decimal form. JavaScript switches to exponent notation at 10^21.
- `Calendars.ActiveDays`: an absent slot, a hole and `null` are the same thing. Slot values are integers. The array's `length` is not modelled.
- `fromJSON`: the `try`/`catch` and `console.warn` are left out, because nothing in the loop body can throw. Key enumeration order is taken as given.
- `CalendarBuilder.CreateCalendar`: requires the year to be absent, which its only caller guarantees. The sort is modelled by its result: `CreateCalendarIsSortedPush` shows that any ascending arrangement is that result.
- Builder operations require `Valid`, which every operation preserves. `Valid` holds only while callers leave the array returned by `buildAll` unmodified: that array is `#calendars` itself, and a caller could `push`, `reverse` or `splice` it. Aliasing is not modelled.
- Errors carry a kind only, not their message text.
- Fluent `return this` and object identity: the value model returns the new state instead.
- `index.js` only re-exports the classes.
- The code has no month-range check in `initMonthAllDaysInactive`, and the model follows it.

## Findings

| source | as written | input that shows it | evidently intended | confidence | as-written member | corrected member |
|---|---|---|---|---|---|---|
| calendar-builder.js:196-201 | `setDayAsInactiveDayFromDate` calls `this.setDayAsActive` | 1 January 2024 on an empty builder, with per-day methods that store different values: the day ends up set as active | call `this.setDayAsInactive` | not executed; latent today, since both per-day methods are missing from `Calendar` and both calls throw | `CalendarBuilder.SetDayAsInactiveDayFromDate`, `CalendarBuilder.SetDayAsInactiveDayFromDateCounterexample` | `CalendarBuilder.SetDayAsInactiveDayFromDateIntended` |
| calendar.js:36 | `(mask & month) > 0` ANDs the mask string, which JavaScript converts as a decimal numeral (10^(date-1)) | January 2024 with only day 4 active (value 8), date 2: 10 & 8 = 8, so day 2 reads as active | read the mask in base 2, as every stored value is built: 2 & 8 = 0, not active | not executed | `Calendars.AsWrittenMaskTest`, `Calendars.AsWrittenIsActiveCounterexample` | `Calendars.IntendedMaskTest`, `Calendars.IntendedIsActiveReadsBit` |
