/** The training calendar: the wheel date picker's arithmetic and state, and
    the event list the calendar shows, with its save and delete rules. */
module Schedule {
  import opened Common

  // ---------------------------------------------------------------------------
  // Gregorian calendar (the reference)

  predicate IsLeapYear(y: int) {
    y % 4 == 0 && (y % 100 != 0 || y % 400 == 0)
  }

  /** The length of `month` (1..12) of year `y` in the Gregorian calendar. */
  function MonthLength(y: int, month: int): int
    requires 1 <= month <= 12
  {
    if month == 2 then (if IsLeapYear(y) then 29 else 28)
    else if month == 4 || month == 6 || month == 9 || month == 11 then 30
    else 31
  }

  // ---------------------------------------------------------------------------
  // ECMAScript day arithmetic, as `new Date(y, m, d)` uses it

  /** `MakeFullYear`: a year argument from 0 to 99 means 1900 to 1999. */
  function FullYear(y: int): int {
    if 0 <= y <= 99 then 1900 + y else y
  }

  /** `DayFromYear`: the day number of 1 January of year `y`, counted from 1970. */
  function DayFromYear(y: int): int {
    365 * (y - 1970) + (y - 1969) / 4 - (y - 1901) / 100 + (y - 1601) / 400
  }

  /** The days of the year before the first of the 0-based month `m0`. */
  function DaysBeforeMonth(m0: int, leap: bool): int
    requires 0 <= m0 < 12
  {
    var table := [0, 31, 59, 90, 120, 151, 181, 212, 243, 273, 304, 334];
    table[m0] + if leap && m0 >= 2 then 1 else 0
  }

  /** `MakeDay(year, month, date)`: the month overflows into the year, the date
      counts on from the first of the month (day 0 is the day before it). */
  function MakeDay(year: int, month: int, date: int): int {
    var y := year + month / 12;
    var m0 := month % 12;
    DayFromYear(y) + DaysBeforeMonth(m0, IsLeapYear(y)) + date - 1
  }

  /** `a / k` steps up by one exactly where `k` divides the next value. */
  lemma FloorStep(a: int, k: int)
    requires k in {4, 100, 400}
    ensures (a + 1) / k - a / k == if (a + 1) % k == 0 then 1 else 0
  {
    var q, r := a / k, a % k;
    if r == k - 1 {
      assert a + 1 == k * (q + 1);
    } else {
      assert a + 1 == k * q + (r + 1);
    }
  }

  /** A year has 366 days exactly when it is a Gregorian leap year. */
  lemma YearLength(y: int)
    ensures DayFromYear(y + 1) - DayFromYear(y) == if IsLeapYear(y) then 366 else 365
  {
    FloorStep(y - 1969, 4);
    FloorStep(y - 1901, 100);
    FloorStep(y - 1601, 400);
    DivisibleShift(y, 4, 1968);
    DivisibleShift(y, 100, 1900);
    DivisibleShift(y, 400, 1600);
  }

  /** Divisibility by `k` is unchanged by a shift of a multiple `c` of `k`. */
  lemma DivisibleShift(y: int, k: int, c: int)
    requires (k == 4 && c == 1968) || (k == 100 && c == 1900) || (k == 400 && c == 1600)
    ensures (y - c) % k == 0 <==> y % k == 0
  {
    var q, r := y / k, y % k;
    if k == 4 {
      assert y - c == 4 * (q - 492) + r;
    } else if k == 100 {
      assert y - c == 100 * (q - 19) + r;
    } else {
      assert y - c == 400 * (q - 4) + r;
    }
  }

  /** Within a year, consecutive month starts are the earlier month's length apart. */
  lemma DaysBeforeMonthStep(y: int, m0: int)
    requires 0 <= m0 < 11
    ensures DaysBeforeMonth(m0 + 1, IsLeapYear(y)) - DaysBeforeMonth(m0, IsLeapYear(y)) == MonthLength(y, m0 + 1)
  {
  }

  /** The first of month `m` and the first of the month before it are the
      previous month's length apart, across year boundaries too. */
  lemma MonthStartsApart(y: int, m: int)
    ensures MakeDay(y, m, 1) - MakeDay(y, m - 1, 1)
            == MonthLength(y + (m - 1) / 12, (m - 1) % 12 + 1)
  {
    var q, r := (m - 1) / 12, (m - 1) % 12;
    if r == 11 {
      assert m == 12 * (q + 1);
      assert m / 12 == q + 1 && m % 12 == 0;
      YearLength(y + q);
    } else {
      assert m == 12 * q + (r + 1);
      assert m / 12 == q && m % 12 == r + 1;
      DaysBeforeMonthStep(y + q, r);
    }
  }

  /** `daysInMonth(y, m)` is `new Date(y, m, 0).getDate()`: day 0 of the 0-based
      month `m` is the last day of the month before it, so its date is its
      distance from that month's first day, plus one. */
  function DaysInMonth(y: int, m: int): (r: int)
    ensures r == MonthLength(FullYear(y) + (m - 1) / 12, (m - 1) % 12 + 1)
    ensures 28 <= r <= 31
  {
    var fy := FullYear(y);
    MonthStartsApart(fy, m);
    MakeDay(fy, m, 0) - MakeDay(fy, m - 1, 1) + 1
  }

  /** For a month from 1 to 12, `daysInMonth` is the Gregorian length: 31 or 30
      by month, and February has 29 days exactly in a leap year. */
  lemma DaysInMonthGregorian(y: int, m: int)
    requires 1 <= m <= 12
    ensures DaysInMonth(y, m) == MonthLength(FullYear(y), m)
    ensures m == 2 ==> (DaysInMonth(y, m) == 29 <==> IsLeapYear(FullYear(y)))
    ensures m == 2 ==> (DaysInMonth(y, m) == 28 <==> !IsLeapYear(FullYear(y)))
    ensures m in {4, 6, 9, 11} ==> DaysInMonth(y, m) == 30
    ensures m in {1, 3, 5, 7, 8, 10, 12} ==> DaysInMonth(y, m) == 31
  {
    assert (m - 1) / 12 == 0 && (m - 1) % 12 + 1 == m;
  }

  // ---------------------------------------------------------------------------
  // The picker's option lists

  /** `clamp(n, min, max)`, that is `Math.max(min, Math.min(max, n))`. */
  function Clamp(n: int, lo: int, hi: int): (r: int)
    ensures lo <= hi ==> lo <= r <= hi
    ensures lo <= n <= hi ==> r == n
    ensures n < lo ==> r == lo
    ensures lo <= hi < n ==> r == hi
  {
    var m := if hi < n then hi else n;
    if lo > m then lo else m
  }

  /** `Array.from({length}, (_, i) => from + i)`; a negative length gives the empty list. */
  function Range(from: int, length: int): (r: seq<int>)
    ensures |r| == if length > 0 then length else 0
    ensures forall i :: 0 <= i < |r| ==> r[i] == from + i
  {
    if length <= 0 then [] else Range(from, length - 1) + [from + length - 1]
  }

  /** A range holds exactly the integers from `from` on, fewer than `length` past it, ascending. */
  lemma RangeHolds(from: int, length: int)
    ensures forall v :: v in Range(from, length) <==> from <= v < from + length
    ensures forall i, j :: 0 <= i < j < |Range(from, length)| ==> Range(from, length)[i] < Range(from, length)[j]
  {
    var r := Range(from, length);
    forall v | from <= v < from + length ensures v in r {
      assert r[v - from] == v;
    }
  }

  /** `years`: every year from `minYear` to `maxYear`. */
  function Years(minYear: int, maxYear: int): seq<int> {
    Range(minYear, maxYear - minYear + 1)
  }

  /** `months`: 1 to 12. */
  function Months(): seq<int> {
    Range(1, 12)
  }

  /** `days`: 1 to the length of the chosen month. */
  function Days(year: int, month: int): seq<int> {
    Range(1, DaysInMonth(year, month))
  }

  /** The three option lists hold what the wheels promise. */
  lemma OptionLists(minYear: int, maxYear: int, year: int, month: int)
    ensures |Years(minYear, maxYear)| == if minYear <= maxYear then maxYear - minYear + 1 else 0
    ensures forall y :: y in Years(minYear, maxYear) <==> minYear <= y <= maxYear
    ensures |Months()| == 12 && forall m :: m in Months() <==> 1 <= m <= 12
    ensures |Days(year, month)| == DaysInMonth(year, month)
    ensures forall d :: d in Days(year, month) <==> 1 <= d <= DaysInMonth(year, month)
  {
    RangeHolds(minYear, maxYear - minYear + 1);
    RangeHolds(1, 12);
    RangeHolds(1, DaysInMonth(year, month));
  }

  /** The row height of every wheel, in pixels. */
  const ItemHeight: int := 36

  /** `onSnap`'s index: the nearest row to the scroll offset, clamped into the list. */
  function SnapIndex(scrollTop: real, length: int): (r: int)
    ensures length > 0 ==> 0 <= r < length
  {
    Clamp(Round(scrollTop / ItemHeight as real), 0, length - 1)
  }

  /** A wheel scrolled to a row's own offset (as the picker's sync sets it) snaps
      back to that row, and an offset less than half a row away does too. */
  lemma SnapFindsRow(i: int, length: int, offset: real)
    requires 0 <= i < length
    requires -18.0 <= offset < 18.0
    ensures SnapIndex((i * ItemHeight) as real + offset, length) == i
  {
    var st := (i * ItemHeight) as real + offset;
    assert st / 36.0 == i as real + offset / 36.0;
  }

  /** The day re-clamp after a year or month change: a day past the month's end
      becomes its last day. */
  function ReclampDay(day: int, length: int): (r: int)
    ensures r <= length
    ensures day <= length ==> r == day
    ensures 1 <= day && 1 <= length ==> r == Clamp(day, 1, length)
  {
    if day > length then length else day
  }

  // ---------------------------------------------------------------------------
  // The wheel date picker

  class DatePicker {
    const minYear: int
    const maxYear: int
    var year: int
    var month: int
    var day: int

    /** The selection is always a real date within the year range. */
    ghost predicate Valid()
      reads this
    {
      minYear <= year <= maxYear && 1 <= month <= 12 && 1 <= day <= DaysInMonth(year, month)
    }

    /** Mounting the picker on an initial date: the year is clamped into the
        range, then the day is clamped into the chosen month. */
    constructor (initY: int, initM: int, initD: int, minYear: int, maxYear: int)
      requires minYear <= maxYear && 1 <= initM <= 12 && 1 <= initD
      ensures Valid()
      ensures this.minYear == minYear && this.maxYear == maxYear
      ensures year == Clamp(initY, minYear, maxYear) && month == initM
      ensures day == ReclampDay(initD, DaysInMonth(year, month))
    {
      this.minYear, this.maxYear := minYear, maxYear;
      year := Clamp(initY, minYear, maxYear);
      month := initM;
      day := ReclampDay(initD, DaysInMonth(Clamp(initY, minYear, maxYear), initM));
    }

    /** The year wheel settles at `scrollTop`; the day is then re-clamped. */
    method SnapYear(scrollTop: real)
      requires Valid()
      modifies this
      ensures Valid()
      ensures year == Years(minYear, maxYear)[SnapIndex(scrollTop, |Years(minYear, maxYear)|)]
      ensures month == old(month) && day == ReclampDay(old(day), DaysInMonth(year, month))
    {
      var years := Years(minYear, maxYear);
      OptionLists(minYear, maxYear, year, month);
      var idx := SnapIndex(scrollTop, |years|);
      year := years[idx];
      day := ReclampDay(day, DaysInMonth(year, month));
    }

    /** The month wheel settles at `scrollTop`; the day is then re-clamped. */
    method SnapMonth(scrollTop: real)
      requires Valid()
      modifies this
      ensures Valid()
      ensures month == Months()[SnapIndex(scrollTop, 12)]
      ensures year == old(year) && day == ReclampDay(old(day), DaysInMonth(year, month))
    {
      var months := Months();
      OptionLists(minYear, maxYear, year, month);
      var idx := SnapIndex(scrollTop, |months|);
      month := months[idx];
      day := ReclampDay(day, DaysInMonth(year, month));
    }

    /** The day wheel settles at `scrollTop`. */
    method SnapDay(scrollTop: real)
      requires Valid()
      modifies this
      ensures Valid()
      ensures day == Days(year, month)[SnapIndex(scrollTop, DaysInMonth(year, month))]
      ensures year == old(year) && month == old(month)
    {
      var days := Days(year, month);
      OptionLists(minYear, maxYear, year, month);
      var idx := SnapIndex(scrollTop, |days|);
      day := days[idx];
    }
  }

  // ---------------------------------------------------------------------------
  // The event list

  /** The add-event form. */
  datatype Draft = Draft(date: string, title: string, start: string, end: string, location: string)

  /** An event as the calendar stores it; `end` is absent for an event without an end time. */
  datatype CalendarEvent = CalendarEvent(id: string, title: string, start: string, end: Option<string>, allDay: bool)

  /** The event `saveEvent` builds from a draft and a fresh id. */
  function NewEvent(draft: Draft, id: string): (ev: CalendarEvent)
    ensures ev.id == id
    ensures ev.allDay <==> draft.start == "" && draft.end == ""
    ensures ev.allDay ==> ev.start == draft.date
    ensures !ev.allDay ==> ev.start == draft.date + "T" + (if draft.start != "" then draft.start else "00:00")
    ensures ev.end.Some? <==> draft.end != ""
    ensures ev.end.Some? ==> ev.end.value == draft.date + "T" + draft.end
    ensures draft.location == "" ==> ev.title == draft.title
    ensures draft.location != "" ==> ev.title == draft.title + " · " + draft.location
  {
    var hasTime := draft.start != "" || draft.end != "";
    var start := if hasTime then draft.date + "T" + (if draft.start != "" then draft.start else "00:00") else draft.date;
    var end := if draft.end != "" then Some(draft.date + "T" + draft.end) else None;
    var title := draft.title + (if draft.location != "" then " · " + draft.location else "");
    CalendarEvent(id, title, start, end, !hasTime)
  }

  /** The start always begins with the date, and is the bare date exactly for an all-day event. */
  lemma StartCarriesDate(draft: Draft, id: string)
    ensures StartsWith(NewEvent(draft, id).start, draft.date)
    ensures NewEvent(draft, id).allDay <==> NewEvent(draft, id).start == draft.date
  {
    var ev := NewEvent(draft, id);
    if !ev.allDay {
      assert |ev.start| > |draft.date|;
    }
    assert ev.start[..|draft.date|] == draft.date;
  }

  function IdIsNot(id: string): CalendarEvent -> bool {
    (e: CalendarEvent) => e.id != id
  }

  /** `prev.filter(e => e.id !== id)`: every event with that id removed, the rest in order. */
  function WithoutId(events: seq<CalendarEvent>, id: string): (r: seq<CalendarEvent>)
    ensures forall e :: e in r <==> e in events && e.id != id
    ensures |r| <= |events|
  {
    Filter(events, IdIsNot(id))
  }

  /** Deleting keeps the order of what remains: deleting from a concatenation
      deletes from each part. */
  lemma WithoutIdKeepsOrder(a: seq<CalendarEvent>, b: seq<CalendarEvent>, id: string)
    ensures WithoutId(a + b, id) == WithoutId(a, id) + WithoutId(b, id)
  {
    FilterAppend(a, b, IdIsNot(id));
  }

  /** Deleting the event just saved under a fresh id gives back the list as it was. */
  lemma SaveThenDeleteRestores(events: seq<CalendarEvent>, draft: Draft, id: string)
    requires forall i :: 0 <= i < |events| ==> events[i].id != id
    ensures WithoutId(events + [NewEvent(draft, id)], id) == events
  {
    FilterAppend(events, [NewEvent(draft, id)], IdIsNot(id));
    FilterAll(events, IdIsNot(id));
    assert [NewEvent(draft, id)][1..] == [];
  }

  class EventBoard {
    var events: seq<CalendarEvent>

    constructor ()
      ensures events == []
    {
      events := [];
    }

    /** `saveEvent` with a fresh id: a title that trims to nothing is refused
        and nothing changes; otherwise the new event is appended. */
    method SaveEvent(draft: Draft, id: string) returns (saved: bool)
      modifies this
      ensures saved <==> !AllSpace(draft.title)
      ensures saved ==> events == old(events) + [NewEvent(draft, id)]
      ensures !saved ==> events == old(events)
    {
      if Trim(draft.title) == [] {
        return false;
      }
      events := events + [NewEvent(draft, id)];
      return true;
    }

    /** `handleEventClick`: once confirmed, every event with the clicked id goes. */
    method HandleEventClick(id: string, confirmed: bool)
      modifies this
      ensures confirmed ==> events == WithoutId(old(events), id)
      ensures !confirmed ==> events == old(events)
    {
      if confirmed {
        events := WithoutId(events, id);
      }
    }
  }
}
