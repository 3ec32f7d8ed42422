/**
 * The event list beside the big grid: a copy of the month's events sorted by
 * date string (a stable sort, so events on the same date keep their input
 * order), one row per event with a `"<month name> <DD>"` label and an icon
 * chosen from the tag, or a placeholder when the month has no events.
 */
module EventList {
  import opened Wrappers
  import opened Text
  import opened Events

  // ------------------------------------------------------------ date order

  /** Event `a` may come before event `b`: `a.date.localeCompare(b.date) <= 0`. */
  predicate DateLe(a: Event, b: Event)
  {
    LexLe(a.date, b.date)
  }

  predicate SortedByDate(s: seq<Event>)
  {
    forall i, j | 0 <= i < j < |s| :: DateLe(s[i], s[j])
  }

  /** The events of `s` dated exactly `date`, in order. */
  function WithDate(s: seq<Event>, date: string): (r: seq<Event>)
    ensures forall i | 0 <= i < |r| :: r[i].date == date
  {
    if s == [] then []
    else WithDate(s[..|s| - 1], date) + if s[|s| - 1].date == date then [s[|s| - 1]] else []
  }

  /** Comparing two `YYYY-MM-DD` strings: the year digits decide, then the month digits, then the day digits. */
  lemma DateStringOrder(x: string, y: string)
    requires WellFormedDate(x) && WellFormedDate(y)
    ensures LexLe(x, y) <==>
      if x[..4] != y[..4] then LexLe(x[..4], y[..4])
      else if x[5..7] != y[5..7] then LexLe(x[5..7], y[5..7])
      else LexLe(x[8..], y[8..])
  {
    assert x == x[..4] + x[4..] && y == y[..4] + y[4..];
    LexLeConcat(x[..4], x[4..], y[..4], y[4..]);
    assert x[4..] == x[4..5] + x[5..] && y[4..] == y[4..5] + y[5..];
    LexLeConcat(x[4..5], x[5..], y[4..5], y[5..]);
    assert x[5..] == x[5..7] + x[7..] && y[5..] == y[5..7] + y[7..];
    LexLeConcat(x[5..7], x[7..], y[5..7], y[7..]);
    assert x[7..] == x[7..8] + x[8..] && y[7..] == y[7..8] + y[8..];
    LexLeConcat(x[7..8], x[8..], y[7..8], y[8..]);
    assert x[4..5] == y[4..5] && x[7..8] == y[7..8];
    assert x[5..][..2] == x[5..7] && y[5..][..2] == y[5..7];
  }

  /** One fixed-width digit field compared as text and as a number. */
  lemma FieldOrder(a: string, b: string)
    requires AllDigits(a) && AllDigits(b) && |a| == |b|
    ensures a != b ==> (LexLe(a, b) <==> DecimalValue(a) < DecimalValue(b))
    ensures a == b <==> DecimalValue(a) == DecimalValue(b)
  {
    LexLeDigits(a, b);
    if DecimalValue(a) == DecimalValue(b) { DecimalValueInjective(a, b); }
  }

  /**
   * For well-formed dates, comparing the strings is comparing the dates:
   * year first, then month, then day.
   */
  lemma ChronologicalOrder(a: Event, b: Event)
    requires WellFormedDate(a.date) && WellFormedDate(b.date)
    ensures DateLe(a, b) <==>
      YearOf(a) < YearOf(b) || (YearOf(a) == YearOf(b) &&
      (MonthOf(a) < MonthOf(b) || (MonthOf(a) == MonthOf(b) && DayOf(a) <= DayOf(b))))
  {
    var x, y := a.date, b.date;
    DateStringOrder(x, y);
    FieldOrder(x[..4], y[..4]);
    FieldOrder(x[5..7], y[5..7]);
    LexLeDigits(x[8..], y[8..]);
  }

  // ---------------------------------------------------------------- sorting

  /** Inserts `x` after every element dated at or before it; `s` is sorted. */
  function Insert(x: Event, s: seq<Event>): (r: seq<Event>)
    ensures |r| == |s| + 1
  {
    if s == [] then [x]
    else if DateLe(s[0], x) then [s[0]] + Insert(x, s[1..])
    else [x] + s
  }

  lemma {:induction false} InsertPermutes(x: Event, s: seq<Event>)
    ensures multiset(Insert(x, s)) == multiset(s) + multiset{x}
  {
    if s != [] && DateLe(s[0], x) {
      InsertPermutes(x, s[1..]);
      assert s == [s[0]] + s[1..];
    }
  }

  /**
   * `[...events].sort((a, b) => a.date.localeCompare(b.date))`: a stable sort
   * of a copy by date string, written as an insertion sort.
   */
  function SortByDate(events: seq<Event>): (r: seq<Event>)
    ensures |r| == |events|
  {
    if events == [] then []
    else Insert(events[|events| - 1], SortByDate(events[..|events| - 1]))
  }

  /** The event list holds exactly the month's events, each as often as in the input. */
  lemma {:induction false} SortByDatePermutes(events: seq<Event>)
    ensures multiset(SortByDate(events)) == multiset(events)
  {
    if events != [] {
      var init := events[..|events| - 1];
      SortByDatePermutes(init);
      InsertPermutes(events[|events| - 1], SortByDate(init));
      assert events == init + [events[|events| - 1]];
    }
  }

  lemma {:induction false} InsertSorted(x: Event, s: seq<Event>)
    requires SortedByDate(s)
    ensures SortedByDate(Insert(x, s))
  {
    if s != [] {
      var r := Insert(x, s);
      if DateLe(s[0], x) {
        var tail := Insert(x, s[1..]);
        InsertSorted(x, s[1..]);
        InsertPermutes(x, s[1..]);
        forall j | 0 <= j < |tail| ensures DateLe(s[0], tail[j]) {
          assert tail[j] in multiset(tail);
          if tail[j] != x {
            assert tail[j] in multiset(s[1..]);
            var k :| 0 <= k < |s[1..]| && s[1..][k] == tail[j];
            assert s[k + 1] == tail[j];
          }
        }
        assert r == [s[0]] + tail;
      } else {
        LexLeTotal(s[0].date, x.date);
        forall j | 0 <= j < |s| ensures DateLe(x, s[j]) {
          if j > 0 { LexLeTransitive(x.date, s[0].date, s[j].date); }
        }
        assert r == [x] + s;
      }
    }
  }

  /** The event list is in date order. */
  lemma {:induction false} SortByDateSorted(events: seq<Event>)
    ensures SortedByDate(SortByDate(events))
  {
    if events != [] {
      SortByDateSorted(events[..|events| - 1]);
      InsertSorted(events[|events| - 1], SortByDate(events[..|events| - 1]));
    }
  }

  lemma {:induction false} WithDateConcat(a: seq<Event>, b: seq<Event>, date: string)
    ensures WithDate(a + b, date) == WithDate(a, date) + WithDate(b, date)
  {
    if b == [] {
      assert a + b == a;
    } else {
      assert (a + b)[..|a + b| - 1] == a + b[..|b| - 1];
      WithDateConcat(a, b[..|b| - 1], date);
    }
  }

  lemma {:induction false} WithDateNone(s: seq<Event>, date: string)
    requires forall i | 0 <= i < |s| :: s[i].date != date
    ensures WithDate(s, date) == []
  {
    if s != [] { WithDateNone(s[..|s| - 1], date); }
  }

  lemma WithDateSingle(x: Event, date: string)
    ensures WithDate([x], date) == if x.date == date then [x] else []
  {
    assert [x][..0] == [];
  }

  /** An event placed in front of a sorted list that starts later than it has no same-dated event behind it. */
  lemma PlacedFirstIsAlone(x: Event, s: seq<Event>, date: string)
    requires SortedByDate(s) && s != [] && !DateLe(s[0], x)
    ensures WithDate([x] + s, date) == WithDate(s, date) + if x.date == date then [x] else []
  {
    WithDateConcat([x], s, date);
    WithDateSingle(x, date);
    if x.date == date {
      LexLeReflexive(date);
      forall i | 0 <= i < |s| ensures s[i].date != date {
        if i > 0 { assert DateLe(s[0], s[i]); }
      }
      WithDateNone(s, date);
    }
  }

  lemma SortedTail(s: seq<Event>)
    requires SortedByDate(s) && s != []
    ensures SortedByDate(s[1..])
  {
    var rest := s[1..];
    forall i, j | 0 <= i < j < |rest| ensures DateLe(rest[i], rest[j]) {
      assert rest[i] == s[i + 1] && rest[j] == s[j + 1];
    }
  }

  lemma {:induction false} InsertStable(x: Event, s: seq<Event>, date: string)
    requires SortedByDate(s)
    ensures WithDate(Insert(x, s), date) == WithDate(s, date) + if x.date == date then [x] else []
  {
    if s == [] {
      WithDateSingle(x, date);
    } else if DateLe(s[0], x) {
      var rest := s[1..];
      SortedTail(s);
      InsertStable(x, rest, date);
      WithDateConcat([s[0]], Insert(x, rest), date);
      WithDateConcat([s[0]], rest, date);
      assert s == [s[0]] + rest;
    } else {
      PlacedFirstIsAlone(x, s, date);
    }
  }

  /** Stability: for every date, the events on that date come out in input order. */
  lemma {:induction false} SortByDateStable(events: seq<Event>, date: string)
    ensures WithDate(SortByDate(events), date) == WithDate(events, date)
  {
    if events != [] {
      var init := events[..|events| - 1];
      SortByDateStable(init, date);
      SortByDateSorted(init);
      InsertStable(events[|events| - 1], SortByDate(init), date);
    }
  }

  lemma {:induction false} InsertLast(x: Event, s: seq<Event>)
    requires forall i | 0 <= i < |s| :: DateLe(s[i], x)
    ensures Insert(x, s) == s + [x]
  {
    if s != [] {
      InsertLast(x, s[1..]);
      assert s == [s[0]] + s[1..];
    }
  }

  /** Sorting a list that is already in date order changes nothing. */
  lemma {:induction false} SortByDateIdempotent(events: seq<Event>)
    requires SortedByDate(events)
    ensures SortByDate(events) == events
  {
    if events != [] {
      var init := events[..|events| - 1];
      SortByDateIdempotent(init);
      InsertLast(events[|events| - 1], init);
    }
  }

  lemma TwentiethAfterFifth(early: Event, late: Event)
    requires early.date == "2026-01-05" && late.date == "2026-01-20"
    ensures !DateLe(late, early)
  {
    var x, y := late.date, early.date;
    assert x == x[..8] + "20" && y == y[..8] + "05" && x[..8] == y[..8];
    LexLeConcat(x[..8], "20", y[..8], "05");
  }

  /** Two events given latest first come out earliest first. */
  lemma SortExample(early: Event, late: Event)
    requires early.date == "2026-01-05" && late.date == "2026-01-20"
    ensures SortByDate([late, early]) == [early, late]
  {
    TwentiethAfterFifth(early, late);
    assert SortByDate([late]) == [late] by {
      assert [late][..0] == [];
    }
    assert SortByDate([late, early]) == Insert(early, [late]) by {
      assert [late, early][..1] == [late];
    }
  }

  // ------------------------------------------------------------------ icons

  const PIN := "\U{1F4CC}"
  const LLAMA := "\U{1F999}"
  const CAKE := "\U{1F382}"

  /** Text shown instead of a list when the month has no events. */
  const NO_EVENTS := "Sin eventos \U{1F4A4}"

  /** What a tag announces: a holiday ("feriado"), a birthday ("cumple") or anything else. */
  datatype TagKind = Holiday | Birthday | Generic

  /** `(ev.tag || "").toLowerCase()`. */
  function NormalizedTag(tag: Option<string>): (s: string)
    ensures tag.None? ==> s == ""
    ensures tag.Some? ==> |s| == |tag.value|
    ensures forall i | 0 <= i < |s| :: !('A' <= s[i] <= 'Z')
    ensures tag.Some? ==> forall i | 0 <= i < |s| ::
      if 'A' <= tag.value[i] <= 'Z' then s[i] as int == tag.value[i] as int + ('a' as int - 'A' as int)
      else s[i] == tag.value[i]
  {
    ToLowerAscii(match tag case Some(t) => t case None => "")
  }

  /** The kind of a tag: a "feriado" anywhere wins over a "cumple" anywhere, ignoring letter case. */
  function Classify(tag: Option<string>): TagKind
  {
    var norm := NormalizedTag(tag);
    if Includes(norm, "feriado") then Holiday
    else if Includes(norm, "cumple") then Birthday
    else Generic
  }

  function IconOf(kind: TagKind): string
  {
    match kind
    case Holiday => LLAMA
    case Birthday => CAKE
    case Generic => PIN
  }

  /** The icon picked in `renderMonth`: a pin unless the tag mentions "feriado" or else "cumple". */
  method TagIcon(tag: Option<string>) returns (icon: string)
    ensures icon == IconOf(Classify(tag))
    ensures icon in {PIN, LLAMA, CAKE}
  {
    var tagNorm := NormalizedTag(tag);
    icon := PIN;
    if Includes(tagNorm, "feriado") {
      icon := LLAMA;
    } else if Includes(tagNorm, "cumple") {
      icon := CAKE;
    }
  }

  /** Each kind has its own icon, so the icon tells the kind. */
  lemma IconsDistinct(k1: TagKind, k2: TagKind)
    ensures IconOf(k1) == IconOf(k2) <==> k1 == k2
  {
    assert LLAMA[0] != CAKE[0] && LLAMA[0] != PIN[0] && CAKE[0] != PIN[0];
  }

  /** Tags that differ only in the case of their letters get the same icon. */
  lemma ClassifyIgnoresCase(t: string, u: string)
    requires |t| == |u| && forall i | 0 <= i < |t| :: SameLetterIgnoringCase(t[i], u[i])
    ensures Classify(Some(t)) == Classify(Some(u))
  {
    ToLowerAsciiIgnoresCase(t, u);
  }

  /** Lower-casing a tag first does not change its kind. */
  lemma ClassifyOfLowered(t: string)
    ensures Classify(Some(t)) == Classify(Some(ToLowerAscii(t)))
  {
    var lower := ToLowerAscii(t);
    assert ToLowerAscii(lower) == lower by {
      forall i | 0 <= i < |lower| ensures LowerChar(lower[i]) == lower[i] { }
    }
  }

  /** A tag naming both a holiday and a birthday shows the holiday icon. */
  lemma HolidayTakesPriority(t: string)
    requires exists i | 0 <= i <= |ToLowerAscii(t)| :: OccursAt(ToLowerAscii(t), "feriado", i)
    ensures Classify(Some(t)) == Holiday
  {
  }

  /** The lower-cased tag contains `word` somewhere. */
  predicate Mentions(tag: Option<string>, word: string)
  {
    exists i | 0 <= i <= |NormalizedTag(tag)| :: OccursAt(NormalizedTag(tag), word, i)
  }

  /** The three kinds exactly: "feriado" first, then "cumple", otherwise generic. */
  lemma ClassifyByMentions(tag: Option<string>)
    ensures Classify(tag) == Holiday <==> Mentions(tag, "feriado")
    ensures Classify(tag) == Birthday <==> !Mentions(tag, "feriado") && Mentions(tag, "cumple")
    ensures Classify(tag) == Generic <==> !Mentions(tag, "feriado") && !Mentions(tag, "cumple")
  {
  }

  /** Capitalised tags are recognised: "FERIADO" is a holiday, "Cumple" a birthday. */
  lemma CapitalisedTags()
    ensures Classify(Some("FERIADO")) == Holiday
    ensures Classify(Some("Cumple")) == Birthday
  {
    assert NormalizedTag(Some("FERIADO")) == "feriado";
    assert OccursAt("feriado", "feriado", 0);
    var c := NormalizedTag(Some("Cumple"));
    assert c == "cumple";
    assert OccursAt(c, "cumple", 0);
    assert !Includes(c, "feriado");
  }

  /** A missing or empty tag, or one naming neither, gets the pin. */
  lemma GenericTags()
    ensures Classify(None) == Generic && Classify(Some("")) == Generic
  {
  }

  // ------------------------------------------------------------------- rows

  /** `ev.tag || "Evento"`: the hover text of the icon is never empty, and is the tag whenever there is one. */
  function IconTitle(tag: Option<string>): (t: string)
    ensures t != ""
    ensures tag.Some? && tag.value != "" ==> t == tag.value
  {
    match tag
    case Some(t) => if t == "" then "Evento" else t
    case None => "Evento"
  }

  datatype EventRow = EventRow(dateLabel: string, title: string, icon: string, iconTitle: string)

  datatype EventListView = NoEvents(text: string) | Rows(rows: seq<EventRow>)

  /** The two day digits of a date, as the label shows them (`ev.date.slice(8, 10)`). */
  function DayText(e: Event): (t: string)
    requires WellFormedDate(e.date)
    ensures |t| == 2 && AllDigits(t) && DecimalValue(t) == DayOf(e)
  {
    e.date[8..]
  }

  /** The row of event `e` in the list of month `monthName`. */
  ghost predicate IsRowFor(monthName: string, e: Event, row: EventRow)
    requires WellFormedDate(e.date)
  {
    && row.dateLabel == monthName + " " + DayText(e)
    && row.title == e.title
    && row.icon == IconOf(Classify(e.tag))
    && row.iconTitle == IconTitle(e.tag)
  }

  /**
   * The event list of a month: the placeholder exactly when the month has no
   * events, otherwise one row per event of `SortByDate(month.events)`.
   */
  ghost predicate IsEventListFor(month: Month, view: EventListView)
  {
    && (view.NoEvents? <==> month.events == [])
    && (view.NoEvents? ==> view.text == NO_EVENTS)
    && (view.Rows? ==> |view.rows| == |month.events|)
    && (view.Rows? ==> forall i | 0 <= i < |view.rows| ::
         var e := SortByDate(month.events)[i];
         WellFormedDate(e.date) && IsRowFor(month.name, e, view.rows[i]))
  }

  /** The list half of `renderMonth`. */
  method EventList(month: Month) returns (view: EventListView)
    requires AllWellFormed(month.events)
    ensures IsEventListFor(month, view)
  {
    var ordered := SortByDate(month.events);
    assert AllWellFormed(ordered) by {
      SortByDatePermutes(month.events);
      forall e | e in ordered ensures WellFormedDate(e.date) {
        assert e in multiset(ordered);
      }
    }
    if |ordered| == 0 {
      view := NoEvents(NO_EVENTS);
      return;
    }
    var rows := [];
    for i := 0 to |ordered|
      invariant |rows| == i
      invariant forall k | 0 <= k < i :: IsRowFor(month.name, ordered[k], rows[k])
    {
      var ev := ordered[i];
      var day := ev.date[8..10];
      var icon := TagIcon(ev.tag);
      var row := EventRow(month.name + " " + day, ev.title, icon, IconTitle(ev.tag));
      assert IsRowFor(month.name, ev, row);
      ghost var before := rows;
      rows := rows + [row];
      forall k | 0 <= k < i + 1 ensures IsRowFor(month.name, ordered[k], rows[k]) {
        if k < i { assert rows[k] == before[k]; }
      }
    }
    view := Rows(rows);
  }
}
