/** calendar-builder.js: a list of calendars kept in ascending year order,
    with get-or-create lookup, bulk month initialisers, single-day and range
    setters, and the accessors `build` / `buildAll`.

    The builder object is modelled as a value: every operation takes the
    list before and returns the list after. "Returns the same instance"
    becomes "returns the entry of the list for that year, list unchanged".
 */
module CalendarBuilder {
  import opened Results
  import opened Gregorian
  import opened Masks
  import opened Utilities
  import opened Calendars

  /** The private `#calendars` field. */
  datatype Builder = Builder(calendars: seq<Calendar>)

  /** The result of an operation that may throw after it has already
      changed the builder (by creating a calendar): the state it leaves
      behind and the error it throws, if any. */
  datatype Outcome = Outcome(after: Builder, thrown: Option<Error>)

  /** Years strictly ascending, hence unique. */
  predicate Ascending(cals: seq<Calendar>) {
    forall i, j :: 0 <= i < j < |cals| ==> cals[i].year < cals[j].year
  }

  /** The invariant every builder operation preserves. `buildAll` hands
      out the `#calendars` array itself, so it holds only as long as no
      caller modifies that array (aliasing is not modelled). */
  predicate Valid(b: Builder) {
    Ascending(b.calendars)
  }

  function Years(cals: seq<Calendar>): set<int> {
    set c | c in cals :: c.year
  }

  /** `new CalendarBuilder()`. */
  function EmptyBuilder(): (b: Builder)
    ensures Valid(b) && Years(b.calendars) == {}
  {
    Builder([])
  }

  // ---------------------------------------------------------------------
  // Lookup and creation
  // ---------------------------------------------------------------------

  /** `#calendars.find(c => c.year === year)`: the first calendar of that
      year, if any. */
  function FindCalendar(cals: seq<Calendar>, year: int): (r: Option<Calendar>)
    ensures r.Some? <==> year in Years(cals)
    ensures r.Some? ==> r.value in cals && r.value.year == year
  {
    if |cals| == 0 then None
    else if cals[0].year == year then Some(cals[0])
    else
      assert forall c :: c in cals && c != cals[0] ==> c in cals[1..];
      FindCalendar(cals[1..], year)
  }

  /** `#getCalendar(year)`. */
  function GetCalendar(b: Builder, year: int): Option<Calendar> {
    FindCalendar(b.calendars, year)
  }

  /** The month slots the calendar of `year` holds in `b`; none when the
      builder has no calendar for that year yet. */
  function MonthsOf(b: Builder, year: int): ActiveDays {
    match GetCalendar(b, year)
    case Some(c) => c.activeDays
    case None => map[]
  }

  /** In an ascending list the calendar `find` returns is the only one of
      its year. */
  lemma {:induction false} FindInAscending(cals: seq<Calendar>, year: int, c: Calendar)
    requires Ascending(cals)
    ensures FindCalendar(cals, year) == Some(c) <==> c in cals && c.year == year
  {
    if |cals| > 0 {
      assert forall x :: x in cals && x != cals[0] ==> x in cals[1..];
      if cals[0].year != year {
        FindInAscending(cals[1..], year, c);
      } else if c in cals && c.year == year {
        var j :| 0 <= j < |cals| && cals[j] == c;
        assert j == 0;
      }
    }
  }

  /** Two ascending lists with the same calendars of year `year` agree on
      the lookup of that year. */
  lemma SameLookup(a: seq<Calendar>, b: seq<Calendar>, year: int)
    requires Ascending(a) && Ascending(b)
    requires forall c: Calendar :: c.year == year ==> (c in a <==> c in b)
    ensures FindCalendar(a, year) == FindCalendar(b, year)
  {
    if FindCalendar(a, year).Some? {
      var c := FindCalendar(a, year).value;
      FindInAscending(a, year, c);
      FindInAscending(b, year, c);
    } else if FindCalendar(b, year).Some? {
      assert false;
    }
  }

  /** The list after `#calendars.push(calendar)` and the sort by year, for
      a list that was already ascending: the new calendar goes in front of
      the first later year. */
  function InsertByYear(cals: seq<Calendar>, c: Calendar): (r: seq<Calendar>)
    ensures multiset(r) == multiset(cals) + multiset{c}
  {
    if |cals| == 0 then [c]
    else if c.year < cals[0].year then [c] + cals
    else
      assert cals == [cals[0]] + cals[1..];
      [cals[0]] + InsertByYear(cals[1..], c)
  }

  /** A calendar older than every calendar of an ascending list can go in
      front of it. */
  lemma ConsAscending(h: Calendar, rest: seq<Calendar>)
    requires Ascending(rest)
    requires forall x :: x in rest ==> h.year < x.year
    ensures Ascending([h] + rest)
  {
    var r := [h] + rest;
    forall i, j | 0 <= i < j < |r| ensures r[i].year < r[j].year {
      assert r[j] == rest[j - 1];
      if i > 0 {
        assert r[i] == rest[i - 1];
      }
    }
  }

  /** Every calendar of the insertion result is `c` or one of `cals`. */
  lemma InsertByYearMembers(cals: seq<Calendar>, c: Calendar, x: Calendar)
    requires x in InsertByYear(cals, c)
    ensures x == c || x in cals
  {
    assert x in multiset(InsertByYear(cals, c));
  }

  /** Inserting a calendar of a new year into an ascending list keeps it
      ascending. */
  lemma {:induction false} InsertByYearAscending(cals: seq<Calendar>, c: Calendar)
    requires Ascending(cals) && c.year !in Years(cals)
    ensures Ascending(InsertByYear(cals, c))
  {
    if |cals| == 0 {
    } else if c.year < cals[0].year {
      ConsAscending(c, cals);
    } else {
      var tail := cals[1..];
      assert cals == [cals[0]] + tail;
      assert c.year !in Years(tail) by {
        assert forall x :: x in tail ==> x in cals;
      }
      InsertByYearAscending(tail, c);
      var rest := InsertByYear(tail, c);
      forall x | x in rest ensures cals[0].year < x.year {
        InsertByYearMembers(tail, c, x);
        if x != c {
          var k :| 0 <= k < |tail| && tail[k] == x;
          assert cals[k + 1] == x;
        }
      }
      ConsAscending(cals[0], rest);
    }
  }

  /** Two ascending lists holding the same calendars start with the same
      calendar: the one of the smallest year. */
  lemma SameHead(a: seq<Calendar>, b: seq<Calendar>)
    requires Ascending(a) && Ascending(b)
    requires multiset(a) == multiset(b) && |a| > 0
    ensures |b| > 0 && a[0] == b[0]
  {
    assert a[0] in multiset(b);
    var j :| 0 <= j < |b| && b[j] == a[0];
    assert b[0] in multiset(a);
    var i :| 0 <= i < |a| && a[i] == b[0];
    assert a[0].year <= a[i].year;
    assert b[0].year <= b[j].year;
  }

  lemma SameTail<T>(a: seq<T>, b: seq<T>)
    requires multiset(a) == multiset(b) && |a| > 0 && |b| > 0 && a[0] == b[0]
    ensures multiset(a[1..]) == multiset(b[1..])
  {
    assert a == [a[0]] + a[1..];
    assert b == [b[0]] + b[1..];
    var x, ta, tb := multiset([a[0]]), multiset(a[1..]), multiset(b[1..]);
    assert multiset(a) == x + ta;
    assert multiset(b) == x + tb;
    forall e ensures ta[e] == tb[e] {
      assert (x + ta)[e] == x[e] + ta[e];
      assert (x + tb)[e] == x[e] + tb[e];
    }
  }

  /** Two ascending lists holding the same calendars are the same list: a
      sort by year has only one possible outcome on distinct years. */
  lemma {:induction false} AscendingPermutationUnique(a: seq<Calendar>, b: seq<Calendar>)
    requires Ascending(a) && Ascending(b)
    requires multiset(a) == multiset(b)
    ensures a == b
  {
    if |a| == 0 {
      assert |multiset(b)| == 0;
    } else {
      SameHead(a, b);
      SameTail(a, b);
      AscendingPermutationUnique(a[1..], b[1..]);
    }
  }

  /** `#createCalendar(year)`: push a new calendar and sort the list by
      year. Its only caller calls it when the year is missing. */
  function CreateCalendar(b: Builder, year: int): (r: (Builder, Calendar))
    requires Valid(b) && year !in Years(b.calendars)
    ensures r.1 == NewCalendar(year)
    ensures Valid(r.0)
    ensures multiset(r.0.calendars) == multiset(b.calendars + [r.1])
  {
    var c := NewCalendar(year);
    InsertByYearAscending(b.calendars, c);
    (Builder(InsertByYear(b.calendars, c)), c)
  }

  /** Whatever sorting algorithm runs, sorting the pushed list by year
      gives exactly the list `CreateCalendar` returns. */
  lemma CreateCalendarIsSortedPush(b: Builder, year: int, sorted: seq<Calendar>)
    requires Valid(b) && year !in Years(b.calendars)
    requires Ascending(sorted) && multiset(sorted) == multiset(b.calendars + [NewCalendar(year)])
    ensures sorted == CreateCalendar(b, year).0.calendars
  {
    AscendingPermutationUnique(sorted, CreateCalendar(b, year).0.calendars);
  }

  /** `#getOrCreateCalendar(year)`. */
  function GetOrCreate(b: Builder, year: int): (r: (Builder, Calendar))
    requires Valid(b)
    ensures Valid(r.0)
    ensures r.1.year == year && GetCalendar(r.0, year) == Some(r.1)
    ensures year in Years(b.calendars) ==> r.0 == b && GetCalendar(b, year) == Some(r.1)
    ensures year !in Years(b.calendars) ==>
      r.1 == NewCalendar(year) && multiset(r.0.calendars) == multiset(b.calendars) + multiset{r.1}
    ensures Years(r.0.calendars) == Years(b.calendars) + {year}
    ensures forall y :: y != year ==> GetCalendar(r.0, y) == GetCalendar(b, y)
  {
    match GetCalendar(b, year)
    case Some(c) => (b, c)
    case None =>
      var r := CreateCalendar(b, year);
      var after := r.0.calendars;
      assert forall x :: x in after <==> x in b.calendars || x == r.1 by {
        forall x ensures x in after <==> x in b.calendars || x == r.1 {
          assert x in after <==> x in multiset(after);
        }
      }
      FindInAscending(after, year, r.1);
      forall y | y != year ensures GetCalendar(r.0, y) == GetCalendar(b, y) {
        SameLookup(after, b.calendars, y);
      }
      r
  }

  /** Asking twice for the same year returns the same calendar and leaves
      the list as the first call left it. */
  lemma GetOrCreateIdempotent(b: Builder, year: int)
    requires Valid(b)
    ensures var (b1, c1) := GetOrCreate(b, year); GetOrCreate(b1, year) == (b1, c1)
  {
  }

  /** The list with every calendar of `c.year` replaced by `c`. */
  function Replaced(cals: seq<Calendar>, c: Calendar): (r: seq<Calendar>)
    ensures |r| == |cals|
    ensures forall i :: 0 <= i < |r| ==> r[i] == if cals[i].year == c.year then c else cals[i]
  {
    seq(|cals|, i requires 0 <= i < |cals| => if cals[i].year == c.year then c else cals[i])
  }

  /** Replacing a calendar by one of the same year keeps the list
      ascending and its set of years. */
  lemma ReplacedShape(cals: seq<Calendar>, c: Calendar)
    requires Ascending(cals) && c.year in Years(cals)
    ensures Ascending(Replaced(cals, c))
    ensures Years(Replaced(cals, c)) == Years(cals)
  {
    var after := Replaced(cals, c);
    forall y ensures y in Years(after) <==> y in Years(cals) {
      if y in Years(after) {
        var x :| x in after && x.year == y;
        var i :| 0 <= i < |after| && after[i] == x;
        assert cals[i].year == y;
      }
      if y in Years(cals) {
        var x :| x in cals && x.year == y;
        var i :| 0 <= i < |cals| && cals[i] == x;
        assert after[i].year == y;
      }
    }
  }

  /** After the replacement, the lookup of `c.year` finds `c`, and the
      lookup of any other year finds what it found before. */
  lemma ReplacedLookup(cals: seq<Calendar>, c: Calendar, y: int)
    requires Ascending(cals) && c.year in Years(cals)
    ensures Ascending(Replaced(cals, c))
    ensures y == c.year ==> FindCalendar(Replaced(cals, c), y) == Some(c)
    ensures y != c.year ==> FindCalendar(Replaced(cals, c), y) == FindCalendar(cals, y)
  {
    var after := Replaced(cals, c);
    ReplacedShape(cals, c);
    if y == c.year {
      var k :| 0 <= k < |cals| && cals[k].year == c.year;
      assert after[k] == c;
      FindInAscending(after, c.year, c);
    } else {
      forall x: Calendar | x.year == y ensures x in after <==> x in cals {
        if x in after {
          var i :| 0 <= i < |after| && after[i] == x;
        }
        if x in cals {
          var i :| 0 <= i < |cals| && cals[i] == x;
          assert after[i] == x;
        }
      }
      SameLookup(after, cals, y);
    }
  }

  /** Replace the calendar of `c.year` (which must be present) by `c`: the
      effect of writing to that calendar's `activeDays` in place. */
  function WithCalendar(b: Builder, c: Calendar): (r: Builder)
    requires Valid(b) && c.year in Years(b.calendars)
    ensures Valid(r)
    ensures Years(r.calendars) == Years(b.calendars)
    ensures GetCalendar(r, c.year) == Some(c)
    ensures forall y :: y != c.year ==> GetCalendar(r, y) == GetCalendar(b, y)
  {
    ReplacedShape(b.calendars, c);
    ReplacedLookup(b.calendars, c, c.year);
    forall y | y != c.year ensures FindCalendar(Replaced(b.calendars, c), y) == FindCalendar(b.calendars, y) {
      ReplacedLookup(b.calendars, c, y);
    }
    Builder(Replaced(b.calendars, c))
  }

  // ---------------------------------------------------------------------
  // What an operation changes
  // ---------------------------------------------------------------------

  /** `after` is `before` with a calendar for `year` (created if it was
      missing) whose month slots are `months`, every other calendar
      untouched. */
  ghost predicate OnlyYearChanged(before: Builder, after: Builder, year: int, months: ActiveDays) {
    && Years(after.calendars) == Years(before.calendars) + {year}
    && GetCalendar(after, year) == Some(Calendar(year, months))
    && forall y :: y != year ==> GetCalendar(after, y) == GetCalendar(before, y)
  }

  /** `after` is `before` with the slots `slots` written into the calendar
      of `year` (created if missing): every slot not written keeps its
      value, every other calendar is untouched. */
  ghost predicate Writes(before: Builder, after: Builder, year: int, slots: map<int, int>) {
    OnlyYearChanged(before, after, year, MonthsOf(before, year) + slots)
  }

  /** Two successive writes to one year are one write of both. */
  lemma WritesCompose(a: Builder, b: Builder, c: Builder, year: int, s1: map<int, int>, s2: map<int, int>)
    requires Writes(a, b, year, s1) && Writes(b, c, year, s2)
    ensures Writes(a, c, year, s1 + s2)
  {
    assert MonthsOf(b, year) == MonthsOf(a, year) + s1;
    assert MonthsOf(a, year) + s1 + s2 == MonthsOf(a, year) + (s1 + s2);
  }

  /** A write that follows a get-or-create of the same year is a write
      from the state before it. */
  lemma WritesAfterGetOrCreate(b: Builder, year: int, r: Builder, slots: map<int, int>)
    requires Valid(b)
    requires Writes(GetOrCreate(b, year).0, r, year, slots)
    ensures Writes(b, r, year, slots)
  {
    assert MonthsOf(GetOrCreate(b, year).0, year) == MonthsOf(b, year);
  }

  /** Get-or-create the calendar of `year`, then assign `slots` into its
      `activeDays`. */
  function WriteMonths(b: Builder, year: int, slots: map<int, int>): (r: Builder)
    requires Valid(b)
    ensures Valid(r)
    ensures Writes(b, r, year, slots)
  {
    var (b1, c) := GetOrCreate(b, year);
    assert c.activeDays == MonthsOf(b, year);
    WithCalendar(b1, Calendar(year, c.activeDays + slots))
  }

  // ---------------------------------------------------------------------
  // Public operations
  // ---------------------------------------------------------------------

  /** `addYearCalendar(year)`: make sure a calendar for `year` exists. */
  function AddYearCalendar(b: Builder, year: int): (r: Builder)
    requires Valid(b)
    ensures Valid(r)
    ensures Writes(b, r, year, map[])
    ensures year !in Years(b.calendars) ==> MonthsOf(r, year) == map[]
  {
    var (r, c) := GetOrCreate(b, year);
    assert MonthsOf(b, year) + map[] == c.activeDays;
    r
  }

  /** `build(year)`: the calendar of `year`, created if missing. */
  function Build(b: Builder, year: int): (r: (Builder, Calendar))
    requires Valid(b)
    ensures Valid(r.0)
    ensures r.0 == AddYearCalendar(b, year)
    ensures GetCalendar(r.0, year) == Some(r.1) && r.1.year == year
    ensures year in Years(b.calendars) ==> r.0 == b
  {
    GetOrCreate(b, year)
  }

  /** `buildAll()`: the builder's own calendars, slots included, in
      ascending year order. */
  function BuildAll(b: Builder): (r: seq<Calendar>)
    requires Valid(b)
    ensures Ascending(r)
    ensures forall y :: y in Years(r) <==> GetCalendar(b, y).Some?
    ensures forall y :: FindCalendar(r, y) == GetCalendar(b, y)
  {
    b.calendars
  }

  /** `#getMonthActiveDays(daysInMonth, active)`: `daysInMonth` copies of
      '1' (active) or '0'. */
  function MonthActiveDays(daysInMonth: int, active: bool): (s: seq<char>)
    ensures |s| == if daysInMonth < 0 then 0 else daysInMonth
    ensures forall j :: 0 <= j < |s| ==> s[j] == (if active then '1' else '0')
  {
    seq(if daysInMonth < 0 then 0 else daysInMonth, _ => if active then '1' else '0')
  }

  /** Days in month `monthIndex` (0..11) of `year`. */
  function DaysIn(year: int, monthIndex: int): (n: nat)
    requires 0 <= monthIndex <= 11
    ensures 28 <= n <= 31
  {
    GetDaysInMonth(year, monthIndex).value
  }

  /** `parseInt(this.#getMonthActiveDays(daysInMonth, true), 2)`: the low
      `daysInMonth` bits all set. */
  function AllActiveMask(year: int, monthIndex: int): (v: nat)
    requires 0 <= monthIndex <= 11
    ensures v == Pow2(DaysIn(year, monthIndex)) - 1
  {
    var s := MonthActiveDays(DaysIn(year, monthIndex), true);
    AllOnesValue(s);
    ParseBinary(s)
  }

  /** The all-active mask has a bit for every day of the month and none
      above. */
  lemma AllActiveMaskBits(year: int, monthIndex: int)
    requires 0 <= monthIndex <= 11
    ensures forall k: nat :: k < DaysIn(year, monthIndex) ==> Bit(AllActiveMask(year, monthIndex), k)
    ensures forall k: nat :: k >= DaysIn(year, monthIndex) ==> !Bit(AllActiveMask(year, monthIndex), k)
  {
    var n := DaysIn(year, monthIndex);
    var s := MonthActiveDays(n, true);
    AllOnesValue(s);
    forall k: nat | k < n ensures Bit(AllActiveMask(year, monthIndex), k) {
      ParseBinaryBit(s, k);
    }
    forall k: nat | k >= n ensures !Bit(AllActiveMask(year, monthIndex), k) {
      NoBitsAbove(AllActiveMask(year, monthIndex), n, k);
    }
  }

  /** The month indices the year-level loops visit. */
  const MonthIndices: set<int> := set i | 0 <= i < 12

  /** What `initYearAllDaysInactive` writes: 0 into each of slots 0..11. */
  function AllInactiveSlots(): (slots: map<int, int>)
    ensures slots.Keys == MonthIndices
    ensures forall i :: i in MonthIndices ==> slots[i] == 0
  {
    map i | i in MonthIndices :: 0
  }

  /** `initYearAllDaysInactive(year)`: slots 0..11 of `year` become 0. */
  function InitYearAllDaysInactive(b: Builder, year: int): (r: Builder)
    requires Valid(b)
    ensures Valid(r)
    ensures Writes(b, r, year, AllInactiveSlots())
  {
    WriteMonths(b, year, AllInactiveSlots())
  }

  /** What `initYearAllDaysActive` writes: into each slot i of 0..11, the
      number whose low (days in month i) bits are set. */
  function AllActiveSlots(year: int): (slots: map<int, int>)
    ensures slots.Keys == MonthIndices
    ensures forall i :: i in MonthIndices ==> slots[i] == Pow2(GetDaysInMonth(year, i).value) - 1
  {
    map i | i in MonthIndices :: AllActiveMask(year, i)
  }

  /** `initYearAllDaysActive(year)`: slot i of `year` becomes
      2^(days in month i) - 1 for every i in 0..11. */
  function InitYearAllDaysActive(b: Builder, year: int): (r: Builder)
    requires Valid(b)
    ensures Valid(r)
    ensures Writes(b, r, year, AllActiveSlots(year))
  {
    WriteMonths(b, year, AllActiveSlots(year))
  }

  /** `initMonthAllDaysInactive(year, monthIndex)`: slot `monthIndex`
      becomes 0, whatever the index (there is no range check). */
  function InitMonthAllDaysInactive(b: Builder, year: int, monthIndex: int): (r: Builder)
    requires Valid(b)
    ensures Valid(r)
    ensures Writes(b, r, year, map[monthIndex := 0])
  {
    WriteMonths(b, year, map[monthIndex := 0])
  }

  /** `initMonthAllDaysActive(year, monthIndex)`: the calendar is fetched
      or created first, then `getDaysInMonth` throws for a bad index. */
  function InitMonthAllDaysActive(b: Builder, year: int, monthIndex: int): (r: Outcome)
    requires Valid(b)
    ensures Valid(r.after)
    ensures r.thrown.Some? <==> monthIndex < 0 || monthIndex > 11
    ensures r.thrown.Some? ==> r.thrown.value == MonthIndexOutOfRange && Writes(b, r.after, year, map[])
    ensures r.thrown.None? ==>
      Writes(b, r.after, year, map[monthIndex := Pow2(GetDaysInMonth(year, monthIndex).value) - 1])
  {
    match GetDaysInMonth(year, monthIndex)
    case Err(e) => Outcome(AddYearCalendar(b, year), Some(e))
    case Ok(_) => Outcome(WriteMonths(b, year, map[monthIndex := AllActiveMask(year, monthIndex)]), None)
  }

  // ---------------------------------------------------------------------
  // Weekends
  // ---------------------------------------------------------------------

  /** The digit the weekend loop writes for day i: '0' on Saturday and
      Sunday, '1' otherwise (`new Date(year, monthIndex, i).getDay()`). */
  function WeekdayDigit(year: int, monthIndex: int, i: int): char {
    if IsWeekend(Weekday(JsYear(year), monthIndex, i)) then '0' else '1'
  }

  /** The array the weekend loop has built after days 1..k: each digit is
      `unshift`ed, so day k comes first and day 1 last. */
  function WeekendDigits(k: nat, year: int, monthIndex: int): (s: seq<char>)
    ensures |s| == k && IsBinary(s)
    ensures forall j :: 0 <= j < k ==> s[j] == WeekdayDigit(year, monthIndex, k - j)
  {
    if k == 0 then [] else [WeekdayDigit(year, monthIndex, k)] + WeekendDigits(k - 1, year, monthIndex)
  }

  /** The month value `initMonthWeekendInactive` stores. */
  function WeekendMask(year: int, monthIndex: int): nat
    requires 0 <= monthIndex <= 11
  {
    ParseBinary(WeekendDigits(DaysIn(year, monthIndex), year, monthIndex))
  }

  /** `v` has n bits at most, and bit i-1 is set exactly when day i is
      neither a Saturday nor a Sunday. */
  predicate IsWeekdayMask(year: int, monthIndex: int, n: nat, v: int) {
    && 0 <= v < Pow2(n)
    && forall k: nat :: k < n ==> (Bit(v, k) <==> !IsWeekend(Weekday(JsYear(year), monthIndex, k + 1)))
  }

  lemma WeekendMaskBits(year: int, monthIndex: int)
    requires 0 <= monthIndex <= 11
    ensures IsWeekdayMask(year, monthIndex, DaysIn(year, monthIndex), WeekendMask(year, monthIndex))
  {
    var n := DaysIn(year, monthIndex);
    var s := WeekendDigits(n, year, monthIndex);
    forall k: nat | k < n
      ensures Bit(ParseBinary(s), k) <==> !IsWeekend(Weekday(JsYear(year), monthIndex, k + 1))
    {
      ParseBinaryBit(s, k);
      assert s[n - 1 - k] == WeekdayDigit(year, monthIndex, k + 1);
    }
  }

  /** `initMonthWeekendInactive(year, monthIndex)`: the calendar is fetched
      or created first, then `getDaysInMonth` throws for a bad index. */
  function InitMonthWeekendInactive(b: Builder, year: int, monthIndex: int): (r: Outcome)
    requires Valid(b)
    ensures Valid(r.after)
    ensures r.thrown.Some? <==> monthIndex < 0 || monthIndex > 11
    ensures r.thrown.Some? ==> r.thrown.value == MonthIndexOutOfRange && Writes(b, r.after, year, map[])
    ensures r.thrown.None? ==> exists v ::
      && IsWeekdayMask(year, monthIndex, GetDaysInMonth(year, monthIndex).value, v)
      && Writes(b, r.after, year, map[monthIndex := v])
  {
    match GetDaysInMonth(year, monthIndex)
    case Err(e) => Outcome(AddYearCalendar(b, year), Some(e))
    case Ok(_) =>
      WeekendMaskBits(year, monthIndex);
      var v := WeekendMask(year, monthIndex);
      var r := WriteMonths(b, year, map[monthIndex := v]);
      assert IsWeekdayMask(year, monthIndex, GetDaysInMonth(year, monthIndex).value, v) && Writes(b, r, year, map[monthIndex := v]);
      Outcome(r, None)
  }

  /** A mask below 2^n is determined by its low n bits. */
  lemma WeekdayMaskUnique(year: int, monthIndex: int, n: nat, v: int, w: int)
    requires IsWeekdayMask(year, monthIndex, n, v) && IsWeekdayMask(year, monthIndex, n, w)
    ensures v == w
  {
    forall k: nat | k < n ensures Bit(v, k) == Bit(w, k) {
    }
    BitsDetermineValue(v, w, n);
  }

  lemma {:induction false} BitsDetermineValue(v: nat, w: nat, n: nat)
    requires v < Pow2(n) && w < Pow2(n)
    requires forall k: nat :: k < n ==> Bit(v, k) == Bit(w, k)
    ensures v == w
  {
    if n > 0 {
      forall k: nat | k < n - 1 ensures Bit(v / 2, k) == Bit(w / 2, k) {
        assert Bit(v, k + 1) == Bit(w, k + 1);
      }
      BitsDetermineValue(v / 2, w / 2, n - 1);
      assert Bit(v, 0) == Bit(w, 0);
    }
  }

  /** The loop of `initYearWeekendInactive` from month `i` on. */
  function WeekendMonthsFrom(b: Builder, year: int, i: int): (r: Outcome)
    requires Valid(b) && 0 <= i <= 12
    ensures Valid(r.after)
    decreases 12 - i
  {
    if i == 12 then Outcome(b, None)
    else
      var o := InitMonthWeekendInactive(b, year, i);
      if o.thrown.Some? then o else WeekendMonthsFrom(o.after, year, i + 1)
  }

  /** What the weekend loop writes from month `from` on: each slot i of
      from..11 gets the weekday mask of month i. */
  function WeekendSlots(year: int, from: int): (slots: map<int, int>)
    requires 0 <= from <= 12
    ensures forall i :: i in slots <==> from <= i < 12
    ensures forall i :: i in slots ==> 0 <= i < 12 && slots[i] == WeekendMask(year, i)
    decreases 12 - from
  {
    if from == 12 then map[] else map[from := WeekendMask(year, from)] + WeekendSlots(year, from + 1)
  }

  /** One month of the loop: month i (in 0..11) never throws and gets its
      weekday mask. */
  lemma WeekendMonthWrites(b: Builder, year: int, i: int)
    requires Valid(b) && 0 <= i < 12
    ensures InitMonthWeekendInactive(b, year, i).thrown.None?
    ensures Writes(b, InitMonthWeekendInactive(b, year, i).after, year, map[i := WeekendMask(year, i)])
  {
    var o := InitMonthWeekendInactive(b, year, i);
    var v :| IsWeekdayMask(year, i, DaysIn(year, i), v) && Writes(b, o.after, year, map[i := v]);
    WeekendMaskBits(year, i);
    WeekdayMaskUnique(year, i, DaysIn(year, i), v, WeekendMask(year, i));
  }

  lemma {:induction false} WeekendMonthsFromWrites(b: Builder, year: int, i: int)
    requires Valid(b) && 0 <= i <= 12 && year in Years(b.calendars)
    ensures WeekendMonthsFrom(b, year, i).thrown.None?
    ensures Writes(b, WeekendMonthsFrom(b, year, i).after, year, WeekendSlots(year, i))
    decreases 12 - i
  {
    if i == 12 {
      assert MonthsOf(b, year) + WeekendSlots(year, i) == MonthsOf(b, year);
      var c := GetCalendar(b, year).value;
      assert c == Calendar(year, MonthsOf(b, year));
    } else {
      var o := InitMonthWeekendInactive(b, year, i);
      WeekendMonthWrites(b, year, i);
      WeekendMonthsFromWrites(o.after, year, i + 1);
      var rest := WeekendSlots(year, i + 1);
      WritesCompose(b, o.after, WeekendMonthsFrom(o.after, year, i + 1).after, year, map[i := WeekendMask(year, i)], rest);
    }
  }

  /** `initYearWeekendInactive(year)`: every month of `year` gets its
      weekday mask; no month index in 0..11 can make it throw. */
  function InitYearWeekendInactive(b: Builder, year: int): (r: Builder)
    requires Valid(b)
    ensures Valid(r)
    ensures Writes(b, r, year, WeekendSlots(year, 0))
    ensures forall i :: 0 <= i < 12 ==>
      i in MonthsOf(r, year) && IsWeekdayMask(year, i, GetDaysInMonth(year, i).value, MonthsOf(r, year)[i])
  {
    WeekendYearWrites(b, year);
    var r := WeekendMonthsFrom(GetOrCreate(b, year).0, year, 0).after;
    WeekendSlotsMasks(b, r, year);
    r
  }

  /** The year loop, after the get-or-create, writes exactly the weekend
      values of months 0..11. */
  lemma WeekendYearWrites(b: Builder, year: int)
    requires Valid(b)
    ensures Valid(WeekendMonthsFrom(GetOrCreate(b, year).0, year, 0).after)
    ensures Writes(b, WeekendMonthsFrom(GetOrCreate(b, year).0, year, 0).after, year, WeekendSlots(year, 0))
  {
    var b1 := GetOrCreate(b, year).0;
    WeekendMonthsFromWrites(b1, year, 0);
    WritesAfterGetOrCreate(b, year, WeekendMonthsFrom(b1, year, 0).after, WeekendSlots(year, 0));
  }

  /** After the weekend loop every month of the year holds its weekday
      mask. */
  lemma WeekendSlotsMasks(b: Builder, r: Builder, year: int)
    requires Writes(b, r, year, WeekendSlots(year, 0))
    ensures forall i :: 0 <= i < 12 ==>
      i in MonthsOf(r, year) && IsWeekdayMask(year, i, GetDaysInMonth(year, i).value, MonthsOf(r, year)[i])
  {
    forall i | 0 <= i < 12
      ensures i in MonthsOf(r, year) && IsWeekdayMask(year, i, GetDaysInMonth(year, i).value, MonthsOf(r, year)[i])
    {
      WeekendSlotMask(MonthsOf(b, year), year, i);
    }
  }

  lemma WeekendSlotMask(before: ActiveDays, year: int, i: int)
    requires 0 <= i < 12
    ensures i in before + WeekendSlots(year, 0)
    ensures IsWeekdayMask(year, i, GetDaysInMonth(year, i).value, (before + WeekendSlots(year, 0))[i])
  {
    assert i in WeekendSlots(year, 0);
    WeekendMaskBits(year, i);
  }

  /** 3 February 2024 was a Saturday, so its bit is clear in any weekday
      mask of February 2024, which has 29 days. */
  lemma February2024Weekend(v: int)
    requires IsWeekdayMask(2024, 1, 29, v)
    ensures GetDaysInMonth(2024, 1) == Ok(29)
    ensures !Bit(v, 2)
  {
    KnownWeekdays();
    assert JsYear(2024) == 2024;
  }

  // ---------------------------------------------------------------------
  // Reading the initialised months back with `isActive`
  // ---------------------------------------------------------------------

  /** A month set all-inactive holds 0, which `isActive` takes for an
      unspecified month: querying it throws rather than answering false. */
  lemma InactiveMonthIsUnspecified(b: Builder, year: int, monthIndex: int, date: int, maskTest: MaskTest)
    requires Valid(b)
    ensures var c := GetCalendar(InitMonthAllDaysInactive(b, year, monthIndex), year);
      c.Some? && IsActive(c.value, monthIndex, date, maskTest) == Err(UnspecifiedMonth(monthIndex))
  {
  }

  /** A month set all-active answers true, with the base-2 reading, for
      every day of the month and false for any other date. */
  lemma ActiveMonthReadsActive(b: Builder, year: int, monthIndex: int, date: int)
    requires Valid(b) && 0 <= monthIndex <= 11
    ensures var c := GetCalendar(InitMonthAllDaysActive(b, year, monthIndex).after, year);
      c.Some? && IsActive(c.value, monthIndex, date, IntendedMaskTest) == Ok(1 <= date <= DaysIn(year, monthIndex))
  {
    var c := GetCalendar(InitMonthAllDaysActive(b, year, monthIndex).after, year).value;
    var n := DaysIn(year, monthIndex);
    assert c.activeDays[monthIndex] == AllActiveMask(year, monthIndex);
    Pow2Monotone(n, 31);
    Pow2ThirtyOne();
    AllActiveMaskBits(year, monthIndex);
    IntendedIsActiveReadsBit(c, monthIndex, date);
  }

  /** Any three consecutive days include one that is neither a Saturday
      nor a Sunday, so a weekday mask is never 0. */
  lemma WeekdayMaskNonZero(year: int, monthIndex: int, n: nat, v: int)
    requires 3 <= n && IsWeekdayMask(year, monthIndex, n, v)
    ensures v != 0
  {
    var y := JsYear(year);
    WeekdayOfNextDay(y, monthIndex, 1);
    WeekdayOfNextDay(y, monthIndex, 2);
    var w := Weekday(y, monthIndex, 1);
    var k: nat := if w == 6 then 2 else if w == 0 then 1 else 0;
    assert Bit(v, k);
    NoBitsAbove(0, 0, k);
  }

  /** After `initYearWeekendInactive`, `isActive` (with the base-2
      reading) says a day is active exactly when it is a weekday. */
  lemma WeekendYearReadsWeekdays(b: Builder, year: int, monthIndex: int, date: int)
    requires Valid(b) && 0 <= monthIndex <= 11
    requires 1 <= date <= DaysIn(year, monthIndex)
    ensures var c := GetCalendar(InitYearWeekendInactive(b, year), year);
      c.Some? && IsActive(c.value, monthIndex, date, IntendedMaskTest)
        == Ok(!IsWeekend(Weekday(JsYear(year), monthIndex, date)))
  {
    var r := InitYearWeekendInactive(b, year);
    var c := GetCalendar(r, year).value;
    var n := DaysIn(year, monthIndex);
    var v := c.activeDays[monthIndex];
    assert IsWeekdayMask(year, monthIndex, n, v);
    WeekdayMaskNonZero(year, monthIndex, n, v);
    Pow2Monotone(n, 31);
    Pow2ThirtyOne();
    IntendedIsActiveReadsBit(c, monthIndex, date);
  }

  // ---------------------------------------------------------------------
  // Single days and ranges
  // ---------------------------------------------------------------------

  /** A per-day method of a Calendar (`calendar.setDayAsActive(monthIndex,
      date)`): given the calendar, the month index and the date, the new
      month slots, or the error it throws. */
  type DayUpdate = (Calendar, int, int) -> Result<ActiveDays>

  /** The two per-day methods the builder calls on a Calendar. */
  datatype DayMethods = DayMethods(setDayAsActive: DayUpdate, setDayAsInactive: DayUpdate)

  /** The Calendar class of calendar.js defines neither method, so each
      call is a call of `undefined`: a TypeError. */
  function MissingDayMethods(): (m: DayMethods)
    ensures forall c, i, d :: m.setDayAsActive(c, i, d) == Err(NotAFunction)
    ensures forall c, i, d :: m.setDayAsInactive(c, i, d) == Err(NotAFunction)
  {
    DayMethods((c, i, d) => Err(NotAFunction), (c, i, d) => Err(NotAFunction))
  }

  /** The calendar `#getOrCreateCalendar(year)` hands out. */
  function CurrentCalendar(b: Builder, year: int): Calendar {
    Calendar(year, MonthsOf(b, year))
  }

  /** Get-or-create the calendar of `year`, then apply one per-day method
      to it. A throw leaves the created calendar behind. */
  function SetDay(b: Builder, year: int, monthIndex: int, date: int, update: DayUpdate): (r: Outcome)
    requires Valid(b)
    ensures Valid(r.after)
    ensures var res := update(CurrentCalendar(b, year), monthIndex, date);
      && (res.Err? ==> r.thrown == Some(res.error) && Writes(b, r.after, year, map[]))
      && (res.Ok? ==> r.thrown.None? && OnlyYearChanged(b, r.after, year, res.value))
  {
    var (b1, c) := GetOrCreate(b, year);
    assert c == CurrentCalendar(b, year);
    match update(c, monthIndex, date)
    case Err(e) =>
      assert MonthsOf(b, year) + map[] == MonthsOf(b, year);
      Outcome(b1, Some(e))
    case Ok(months) =>
      Outcome(WithCalendar(b1, Calendar(year, months)), None)
  }

  /** `setDayAsActive(year, monthIndex, date)`. */
  function SetDayAsActive(b: Builder, year: int, monthIndex: int, date: int, methods: DayMethods): (r: Outcome)
    requires Valid(b)
    ensures Valid(r.after)
    ensures var res := methods.setDayAsActive(CurrentCalendar(b, year), monthIndex, date);
      && (res.Err? ==> r.thrown == Some(res.error) && Writes(b, r.after, year, map[]))
      && (res.Ok? ==> r.thrown.None? && OnlyYearChanged(b, r.after, year, res.value))
  {
    SetDay(b, year, monthIndex, date, methods.setDayAsActive)
  }

  /** `setDayAsInactive(year, monthIndex, date)`. */
  function SetDayAsInactive(b: Builder, year: int, monthIndex: int, date: int, methods: DayMethods): (r: Outcome)
    requires Valid(b)
    ensures Valid(r.after)
    ensures var res := methods.setDayAsInactive(CurrentCalendar(b, year), monthIndex, date);
      && (res.Err? ==> r.thrown == Some(res.error) && Writes(b, r.after, year, map[]))
      && (res.Ok? ==> r.thrown.None? && OnlyYearChanged(b, r.after, year, res.value))
  {
    SetDay(b, year, monthIndex, date, methods.setDayAsInactive)
  }

  /** With calendar.js as it stands, a single-day setter creates the
      year's calendar (as `addYearCalendar` would) and then throws. */
  lemma SetDayWithMissingMethodsThrows(b: Builder, year: int, monthIndex: int, date: int)
    requires Valid(b)
    ensures SetDayAsActive(b, year, monthIndex, date, MissingDayMethods())
      == Outcome(AddYearCalendar(b, year), Some(NotAFunction))
    ensures SetDayAsInactive(b, year, monthIndex, date, MissingDayMethods())
      == Outcome(AddYearCalendar(b, year), Some(NotAFunction))
  {
  }

  /** A JavaScript Date as the builder reads it: `getFullYear()`,
      `getMonth()` and `getDate()` in local time. */
  datatype Date = Date(fullYear: int, month: int, day: int)

  /** `seDayAsActiveDayFromDate(date)` (the name is spelt so in the
      source). */
  function SeDayAsActiveDayFromDate(b: Builder, date: Date, methods: DayMethods): (r: Outcome)
    requires Valid(b)
    ensures Valid(r.after)
    ensures var res := methods.setDayAsActive(CurrentCalendar(b, date.fullYear), date.month, date.day);
      && (res.Err? ==> r.thrown == Some(res.error) && Writes(b, r.after, date.fullYear, map[]))
      && (res.Ok? ==> r.thrown.None? && OnlyYearChanged(b, r.after, date.fullYear, res.value))
  {
    SetDayAsActive(b, date.fullYear, date.month, date.day, methods)
  }

  /** `setDayAsInactiveDayFromDate(date)` as written: it calls
      `setDayAsActive`, so the day is marked ACTIVE. */
  function SetDayAsInactiveDayFromDate(b: Builder, date: Date, methods: DayMethods): (r: Outcome)
    requires Valid(b)
    ensures Valid(r.after)
    ensures var res := methods.setDayAsActive(CurrentCalendar(b, date.fullYear), date.month, date.day);
      && (res.Err? ==> r.thrown == Some(res.error) && Writes(b, r.after, date.fullYear, map[]))
      && (res.Ok? ==> r.thrown.None? && OnlyYearChanged(b, r.after, date.fullYear, res.value))
  {
    SetDayAsActive(b, date.fullYear, date.month, date.day, methods)
  }

  /** `setDayAsInactiveDayFromDate(date)` as evidently intended: the
      inactive counterpart of `seDayAsActiveDayFromDate`. */
  function SetDayAsInactiveDayFromDateIntended(b: Builder, date: Date, methods: DayMethods): (r: Outcome)
    requires Valid(b)
    ensures Valid(r.after)
    ensures var res := methods.setDayAsInactive(CurrentCalendar(b, date.fullYear), date.month, date.day);
      && (res.Err? ==> r.thrown == Some(res.error) && Writes(b, r.after, date.fullYear, map[]))
      && (res.Ok? ==> r.thrown.None? && OnlyYearChanged(b, r.after, date.fullYear, res.value))
  {
    SetDayAsInactive(b, date.fullYear, date.month, date.day, methods)
  }

  /** Per-day methods under which the two directions differ: "active"
      stores 1 in slot 0, "inactive" stores 0 there. */
  function DistinguishingMethods(): DayMethods {
    DayMethods((c, i, d) => Ok(map[0 := 1]), (c, i, d) => Ok(map[0 := 0]))
  }

  /** As written, `setDayAsInactiveDayFromDate` does what the active
      setter does and not what the inactive one does: with methods that
      tell the two apart, 1 January 2024 ends up with slot value 1. */
  lemma SetDayAsInactiveDayFromDateCounterexample()
    ensures var b := EmptyBuilder();
      var d := Date(2024, 0, 1);
      var m := DistinguishingMethods();
      && MonthsOf(SetDayAsInactiveDayFromDate(b, d, m).after, 2024) == map[0 := 1]
      && MonthsOf(SetDayAsInactiveDayFromDateIntended(b, d, m).after, 2024) == map[0 := 0]
      && SetDayAsInactiveDayFromDate(b, d, m) == SeDayAsActiveDayFromDate(b, d, m)
      && SetDayAsInactiveDayFromDate(b, d, m) != SetDayAsInactiveDayFromDateIntended(b, d, m)
  {
    var b := EmptyBuilder();
    var d := Date(2024, 0, 1);
    var m := DistinguishingMethods();
    assert m.setDayAsActive(CurrentCalendar(b, 2024), 0, 1) == Ok(map[0 := 1]);
    assert m.setDayAsInactive(CurrentCalendar(b, 2024), 0, 1) == Ok(map[0 := 0]);
    assert map[0 := 1] != map[0 := 0] by {
      assert map[0 := 1][0] == 1;
    }
  }

  /** The days `i`..`end` of a range visited in order with one per-day
      method, stopping at the first throw (which propagates out of the
      loop). */
  function RangeFrom(b: Builder, year: int, monthIndex: int, i: int, end: int, update: DayUpdate): (r: Outcome)
    requires Valid(b)
    ensures Valid(r.after)
    ensures i > end ==> r == Outcome(b, None)
    decreases end - i + 1
  {
    if i > end then Outcome(b, None)
    else
      var o := SetDay(b, year, monthIndex, i, update);
      if o.thrown.Some? then o else RangeFrom(o.after, year, monthIndex, i + 1, end, update)
  }

  /** A run of per-day calls creates the calendar of `year` as soon as
      there is a day to visit, and no other. */
  lemma {:induction false} RangeFromYears(b: Builder, year: int, monthIndex: int, i: int, end: int, update: DayUpdate)
    requires Valid(b)
    ensures Years(RangeFrom(b, year, monthIndex, i, end, update).after.calendars)
      == Years(b.calendars) + (if i > end then {} else {year})
    decreases end - i + 1
  {
    if i <= end {
      var o := SetDay(b, year, monthIndex, i, update);
      assert Years(o.after.calendars) == Years(b.calendars) + {year};
      if o.thrown.None? {
        RangeFromYears(o.after, year, monthIndex, i + 1, end, update);
      }
    }
  }

  /** A run of per-day calls leaves every other year's calendar alone. */
  lemma {:induction false} RangeFromOtherYears(b: Builder, year: int, monthIndex: int, i: int, end: int, update: DayUpdate, y: int)
    requires Valid(b) && y != year
    ensures GetCalendar(RangeFrom(b, year, monthIndex, i, end, update).after, y) == GetCalendar(b, y)
    decreases end - i + 1
  {
    if i <= end {
      var o := SetDay(b, year, monthIndex, i, update);
      assert GetCalendar(o.after, y) == GetCalendar(b, y);
      if o.thrown.None? {
        RangeFromOtherYears(o.after, year, monthIndex, i + 1, end, update, y);
      }
    }
  }

  /** Splitting a range at `mid`: running i..end is running i..mid and,
      if that did not throw, mid+1..end from where it left off. */
  lemma {:induction false} RangeFromSplit(b: Builder, year: int, monthIndex: int, i: int, mid: int, end: int, update: DayUpdate)
    requires Valid(b) && i - 1 <= mid <= end
    ensures var o := RangeFrom(b, year, monthIndex, i, mid, update);
      RangeFrom(b, year, monthIndex, i, end, update)
        == if o.thrown.Some? then o else RangeFrom(o.after, year, monthIndex, mid + 1, end, update)
    decreases mid - i + 1
  {
    if i <= mid {
      var o := SetDay(b, year, monthIndex, i, update);
      if o.thrown.None? {
        RangeFromSplit(o.after, year, monthIndex, i + 1, mid, end, update);
      }
    }
  }

  /** The `for (let i = start; i <= end; i++)` loop of the range setters,
      after the `start > end` check. */
  method VisitRange(b: Builder, year: int, monthIndex: int, start: int, end: int, update: DayUpdate)
    returns (r: Outcome)
    requires Valid(b) && start <= end
    ensures r == RangeFrom(b, year, monthIndex, start, end, update)
  {
    r := Outcome(b, None);
    var i := start;
    while i <= end
      invariant start <= i <= end + 1
      invariant Valid(r.after) && r.thrown.None?
      invariant RangeFrom(b, year, monthIndex, start, end, update) == RangeFrom(r.after, year, monthIndex, i, end, update)
    {
      var o := SetDay(r.after, year, monthIndex, i, update);
      if o.thrown.Some? {
        return o;
      }
      r := o;
      i := i + 1;
    }
  }

  /** `setRangeAsActive(year, monthIndex, start, end)`. */
  method SetRangeAsActive(b: Builder, year: int, monthIndex: int, start: int, end: int, methods: DayMethods)
    returns (r: Outcome)
    requires Valid(b)
    ensures start > end ==> r == Outcome(b, Some(InvalidRange))
    ensures start <= end ==> r == RangeFrom(b, year, monthIndex, start, end, methods.setDayAsActive)
    ensures Valid(r.after)
  {
    if start > end {
      return Outcome(b, Some(InvalidRange));
    }
    r := VisitRange(b, year, monthIndex, start, end, methods.setDayAsActive);
  }

  /** `setRangeAsInactive(year, monthIndex, start, end)`. */
  method SetRangeAsInactive(b: Builder, year: int, monthIndex: int, start: int, end: int, methods: DayMethods)
    returns (r: Outcome)
    requires Valid(b)
    ensures start > end ==> r == Outcome(b, Some(InvalidRange))
    ensures start <= end ==> r == RangeFrom(b, year, monthIndex, start, end, methods.setDayAsInactive)
    ensures Valid(r.after)
  {
    if start > end {
      return Outcome(b, Some(InvalidRange));
    }
    r := VisitRange(b, year, monthIndex, start, end, methods.setDayAsInactive);
  }

  /** With calendar.js as it stands, a non-empty range creates the year's
      calendar and throws on its first day. */
  lemma RangeWithMissingMethodsThrows(b: Builder, year: int, monthIndex: int, start: int, end: int)
    requires Valid(b) && start <= end
    ensures RangeFrom(b, year, monthIndex, start, end, MissingDayMethods().setDayAsActive)
      == Outcome(AddYearCalendar(b, year), Some(NotAFunction))
    ensures RangeFrom(b, year, monthIndex, start, end, MissingDayMethods().setDayAsInactive)
      == Outcome(AddYearCalendar(b, year), Some(NotAFunction))
  {
    SetDayWithMissingMethodsThrows(b, year, monthIndex, start);
  }
}
