/**
 * The month grid of `monthGrid`, as data instead of DOM nodes: `first`
 * blank cells, then one cell per day of the month. A day cell is flagged
 * `has-event` when some event falls on it, and then carries a tooltip with
 * one `title (tag)` line per event of that day.
 */
module Grid {
  import opened Wrappers
  import opened Text
  import opened Calendar
  import opened Events

  datatype Cell =
    | Blank                                            // "day empty"
    | Day(day: int, hasEvent: bool, title: string)     // "day", plus "has-event" and a tooltip when flagged

  /** How a template literal prints a tag: a missing one prints as "undefined". */
  function TagText(tag: Option<string>): (t: string)
    ensures t == "" <==> tag == Some("")
  {
    match tag
    case Some(t) => t
    case None => "undefined"
  }

  /** One tooltip line: `${e.title} (${e.tag})`. */
  function EventLine(e: Event): (line: string)
    ensures |line| > |e.title| && line[..|e.title|] == e.title
  {
    e.title + " (" + TagText(e.tag) + ")"
  }

  function EventLines(events: seq<Event>): (lines: seq<string>)
    ensures |lines| == |events|
    ensures forall i | 0 <= i < |events| :: lines[i] == EventLine(events[i])
  {
    seq(|events|, i requires 0 <= i < |events| => EventLine(events[i]))
  }

  /** The tooltip of a day cell: its events' lines joined by line breaks. */
  function Tooltip(events: seq<Event>): (t: string)
    ensures events == [] ==> t == ""
    ensures |events| == 1 ==> t == EventLine(events[0])
  {
    JoinLines(EventLines(events))
  }

  /** When no title or tag holds a line break, the tooltip reads back as one line per event, in bucket order. */
  lemma TooltipLines(events: seq<Event>)
    requires |events| >= 1
    requires forall e | e in events :: NoLineBreak(e.title) && NoLineBreak(TagText(e.tag))
    ensures SplitLines(Tooltip(events)) == EventLines(events)
  {
    var lines := EventLines(events);
    forall i | 0 <= i < |lines| ensures NoLineBreak(lines[i]) {
      var e := events[i];
      assert e in events;
      assert lines[i] == e.title + " (" + TagText(e.tag) + ")";
    }
    SplitJoinLines(lines);
  }

  /**
   * The cell drawn for day `d`: numbered `d`, flagged exactly when an event
   * falls on `d`, and then carrying the tooltip of `d`'s bucket.
   */
  function DayCell(events: seq<Event>, d: int): (c: Cell)
    requires AllWellFormed(events)
    ensures c.Day? && c.day == d
  {
    var evs := Bucket(events, d);
    if |evs| > 0 then Day(d, true, Tooltip(evs)) else Day(d, false, "")
  }

  /** A day cell is flagged exactly when some event's date names its day, and then lists that day's events. */
  lemma DayCellMeaning(events: seq<Event>, d: int)
    requires AllWellFormed(events)
    ensures DayCell(events, d).hasEvent <==> exists e | e in events :: DayOf(e) == d
    ensures DayCell(events, d).title == if DayCell(events, d).hasEvent then Tooltip(Bucket(events, d)) else ""
  {
    HasEventsOn(events, d);
  }

  /** `first` blank cells, then the cells of days 1..`total`. */
  predicate IsLayout(first: int, total: int, events: seq<Event>, cells: seq<Cell>)
    requires first >= 0 && total >= 0 && AllWellFormed(events)
  {
    && |cells| == first + total
    && (forall i | 0 <= i < first :: cells[i] == Blank)
    && (forall i | first <= i < |cells| :: cells[i] == DayCell(events, i - first + 1))
  }

  /** The layout `monthGrid(year, month)` produces: blanks up to the weekday of the 1st, then every day of the month. */
  predicate IsMonthGrid(year: int, month: Month, cells: seq<Cell>)
    requires AllWellFormed(month.events)
  {
    IsLayout(FirstDayOfMonth(year, month.id - 1), DaysInMonth(year, month.id - 1), month.events, cells)
  }

  /** `monthGrid(year, month)`. */
  method MonthGrid(year: int, month: Month) returns (cells: seq<Cell>)
    requires AllWellFormed(month.events)
    ensures IsMonthGrid(year, month, cells)
  {
    var monthIndex0 := month.id - 1;
    var total := DaysInMonth(year, monthIndex0);
    var first := FirstDayOfMonth(year, monthIndex0);
    var eventsByDay := GroupEventsByDay(month.events);
    cells := LayOutDays(first, total, month.events, eventsByDay);
  }

  /**
   * The two loops of `monthGrid`: `first` blank cells, then one cell per day
   * 1..`total`, flagged when the day has a bucket in `eventsByDay`.
   */
  method LayOutDays(first: int, total: int, events: seq<Event>, eventsByDay: map<int, seq<Event>>)
    returns (cells: seq<Cell>)
    requires first >= 0 && total >= 0 && AllWellFormed(events)
    requires Grouped(events, eventsByDay)
    ensures IsLayout(first, total, events, cells)
  {
    cells := [];
    var i := 0;
    while i < first
      invariant 0 <= i <= first
      invariant |cells| == i
      invariant forall k | 0 <= k < i :: cells[k] == Blank
    {
      cells := cells + [Blank];
      i := i + 1;
    }

    var d := 1;
    while d <= total
      invariant 1 <= d <= total + 1
      invariant IsLayout(first, d - 1, events, cells)
    {
      var evs := if d in eventsByDay then eventsByDay[d] else [];
      var cell := Day(d, false, "");
      if |evs| > 0 {
        cell := Day(d, true, Tooltip(evs));
      }
      CellFromGroups(events, eventsByDay, d);
      LayoutSnoc(first, d - 1, events, cells);
      cells := cells + [cell];
      d := d + 1;
    }
  }

  /** The cell of day `d` built from the grouped map is the cell its bucket gives. */
  lemma CellFromGroups(events: seq<Event>, eventsByDay: map<int, seq<Event>>, d: int)
    requires AllWellFormed(events) && Grouped(events, eventsByDay)
    ensures var evs := if d in eventsByDay then eventsByDay[d] else [];
      DayCell(events, d) == if |evs| > 0 then Day(d, true, Tooltip(evs)) else Day(d, false, "")
  {
  }

  /** Appending the cell of the next day extends a layout by one day. */
  lemma LayoutSnoc(first: int, days: int, events: seq<Event>, cells: seq<Cell>)
    requires first >= 0 && days >= 0 && AllWellFormed(events)
    requires IsLayout(first, days, events, cells)
    ensures IsLayout(first, days + 1, events, cells + [DayCell(events, days + 1)])
  {
    var next := cells + [DayCell(events, days + 1)];
    forall k | first <= k < |next| ensures next[k] == DayCell(events, k - first + 1) {
      if k < |cells| { assert next[k] == cells[k]; }
    }
  }

  /** January 2026 starts on a Thursday, so its grid has four blanks and then 31 days. */
  lemma JanuaryLayout(month: Month, cells: seq<Cell>)
    requires month.id == 1 && AllWellFormed(month.events)
    requires IsMonthGrid(2026, month, cells)
    ensures |cells| == 4 + 31
    ensures forall i | 0 <= i < 4 :: cells[i] == Blank
    ensures forall i | 4 <= i < 35 :: cells[i] == DayCell(month.events, i - 3)
  {
    assert FirstDayOfMonth(2026, month.id - 1) == 4 && DaysInMonth(2026, month.id - 1) == 31 by {
      KnownDates();
    }
  }

  /** The bucket of a two-event month holds each event whose date names the day, in order. */
  lemma PairBucket(a: Event, b: Event, d: int)
    requires WellFormedDate(a.date) && WellFormedDate(b.date)
    ensures AllWellFormed([a, b])
    ensures Bucket([a, b], d) == (if DayOf(a) == d then [a] else []) + (if DayOf(b) == d then [b] else [])
  {
    assert [a, b][..1] == [a] && [a][..0] == [];
  }

  /** The tooltip of two events is their two lines with one break between them. */
  lemma PairTooltip(a: Event, b: Event)
    ensures Tooltip([a, b]) == EventLine(a) + "\n" + EventLine(b)
  {
    var lines := EventLines([a, b]);
    assert lines == [EventLine(a), EventLine(b)];
    assert lines[1..] == [EventLine(b)];
    assert JoinLines(lines[1..]) == EventLine(b);
  }

  /** Two events on the same day: that cell shows both lines in input order, the next day's cell is plain. */
  lemma SameDayPair(a: Event, b: Event, d: int)
    requires WellFormedDate(a.date) && WellFormedDate(b.date)
    requires DayOf(a) == d && DayOf(b) == d
    ensures AllWellFormed([a, b])
    ensures DayCell([a, b], d) == Day(d, true, EventLine(a) + "\n" + EventLine(b))
    ensures DayCell([a, b], d + 1) == Day(d + 1, false, "")
  {
    PairBucket(a, b, d);
    assert Bucket([a, b], d) == [a, b];
    PairBucket(a, b, d + 1);
    PairTooltip(a, b);
  }

  /** The tooltip lines of the two example events. */
  lemma ExampleLines(a: Event, b: Event)
    requires a == Event("2026-01-05", "A", Some("cumple")) && b == Event("2026-01-05", "B", Some("feriado"))
    ensures EventLine(a) + "\n" + EventLine(b) == "A (cumple)\nB (feriado)"
  {
    assert EventLine(a) == "A (cumple)";
    assert EventLine(b) == "B (feriado)";
  }

  /** Two events on the 5th: that cell lists both, one line each, in input order; the 6th stays plain. */
  lemma TwoEventsOneDay(a: Event, b: Event)
    requires a == Event("2026-01-05", "A", Some("cumple")) && b == Event("2026-01-05", "B", Some("feriado"))
    ensures AllWellFormed([a, b])
    ensures DayCell([a, b], 5) == Day(5, true, "A (cumple)\nB (feriado)")
    ensures DayCell([a, b], 6) == Day(6, false, "")
  {
    assert WellFormedDate(a.date);
    assert DayOf(a) == 5 by { TwoDigitValue(a.date[8..]); }
    SameDayPair(a, b, 5);
    ExampleLines(a, b);
  }

  /**
   * January 2026 with two events on the 5th: the cell of the 5th (after the
   * four blanks) is flagged and lists both events in input order; the 6th is plain.
   */
  lemma JanuaryExample(a: Event, b: Event, cells: seq<Cell>)
    requires a == Event("2026-01-05", "A", Some("cumple")) && b == Event("2026-01-05", "B", Some("feriado"))
    requires AllWellFormed([a, b]) && IsMonthGrid(2026, Month(1, "Enero", [a, b], None), cells)
    ensures cells[8] == Day(5, true, "A (cumple)\nB (feriado)")
    ensures cells[9] == Day(6, false, "")
  {
    JanuaryLayout(Month(1, "Enero", [a, b], None), cells);
    TwoEventsOneDay(a, b);
  }
}
